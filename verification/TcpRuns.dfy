/** Any calls on a connection of src/net/tcp.c form a run of the events in TcpTheorems.dfy. */
module TcpRuns {
  import opened Common
  import opened Buffers
  import opened TcpSpec
  import opened TcpTheorems
  import opened TcpLaws
  import opened TcpModel

  /** What the kernel and the user do with a connection: a segment arrives for it, or a lookup is made for
      something else; the user reads into a buffer with `room`, writes along a route, or closes. */
  datatype Call =
    | SegmentCall(seg: Segment, memory: bool)
    | LookupCall
    | ReadCall(room: nat)
    | WriteCall(payload: seq<Byte>, route: Result<nat>)
    | CloseCall

  /** Otherwise `tcp_conn_send` may not return: see SendWithoutRoom. */
  predicate HasRoom(route: Result<nat>) { route.Ok? ==> route.value > TCP_HEADER_LEN }

  /** The event that the call amounts to. */
  ghost predicate Matches(c: Call, e: Event)
  {
    match c
    case SegmentCall(seg, memory) => e == Arrive(seg, memory)
    case LookupCall => e == Lookup
    case ReadCall(room) => e == Read(room)
    case WriteCall(payload, _) => e.Transmit? && e.n <= |payload|
    case CloseCall => e.Close?
  }

  /** The acknowledgement number of the last segment. */
  function LastAck(sent: seq<Segment>): U32
    requires sent != []
  {
    sent[|sent| - 1].ackNum
  }

  lemma JoinedNone(segs: seq<Segment>)
    requires forall s :: s in segs ==> s.payload != []
    ensures Joined(segs) == [] <==> segs == []
  {
  }

  lemma PlusMoves(v: View, n: nat)
    ensures Avail(v.window, v.unack, v.next) == 0 || n == 0 ==> Sending(v, n) == v
    ensures 0 < n <= Avail(v.window, v.unack, v.next) ==> Sending(v, n) != v
  {
  }

  lemma NothingRead(v: View, seg: Segment, memory: bool)
    ensures OnSegment(v, seg, memory).delivered == v.delivered
  {
  }

  lemma NoEvents(v: View, told: U32)
    requires WellFormed(v)
    ensures Run(v, []) == v && LastTold(v, [], told) == told
  {
  }

  lemma {:induction false} RunMore(v: View, events: seq<Event>, e: Event, told: U32)
    requires WellFormed(v)
    ensures Run(v, events + [e]) == Apply(Run(v, events), e)
    ensures LastTold(v, events + [e], told) == Told(Run(v, events), e, LastTold(v, events, told))
    decreases |events|
  {
    if events == [] {
      RunOne(v, e);
      ApplyWellFormed(v, e);
      assert [] + [e] == [e] && [e][1..] == [];
    } else {
      ApplyWellFormed(v, events[0]);
      RunMore(Apply(v, events[0]), events[1..], e, Told(v, events[0], told));
      assert (events + [e])[1..] == events[1..] + [e];
    }
  }

  /** What every call keeps. */
  ghost predicate Ready(conn: Conn, now: nat, net: Net)
    reads conn.Repr(), net
  {
    && conn.Valid() && net.sent != []
    && (conn.isUsed && conn.state.TimeWait? ==> conn.timeWaitStart <= now)
  }

  /** A call took the connection through the event `e`; `out` is what the user got. */
  twostate predicate Stepped(conn: Conn, net: Net, new out: seq<Byte>, new e: Event)
    reads conn.Repr(), net
  {
    && WellFormed(old(conn.Now())) && conn.Now() == Apply(old(conn.Now()), e)
    && conn.delivered == old(conn.delivered) + out
    && old(net.sent) != [] && net.sent != []
    && ((forall k :: net.fate(k).None?) ==>
          LastAck(net.sent) == Told(old(conn.Now()), e, LastAck(old(net.sent))))
  }

  method Segments(conn: Conn, seg: Segment, memory: bool, now: nat, net: Net)
    requires Ready(conn, now, net)
    modifies conn.Repr(), net
    ensures Ready(conn, now, net) && fresh(conn.Repr() - old(conn.Repr()))
    ensures Stepped(conn, net, [], Arrive(seg, memory))
  {
    hide Plus, Avail, OnSegment, Answer;
    NothingRead(conn.Now(), seg, memory);
    if conn.isUsed {
      var _, _ := conn.HandlePacket(seg, memory, now, now, net);
    }
  }

  method Lookups(conn: Conn, now: nat, net: Net)
    requires Ready(conn, now, net)
    modifies conn.Repr()
    ensures Ready(conn, now, net) && conn.Repr() <= old(conn.Repr())
    ensures Stepped(conn, net, [], Lookup)
  {
    if conn.isUsed {
      conn.Purge(now);
    }
  }

  lemma Further(all: seq<Byte>, before: seq<Byte>, after: seq<Byte>)
    requires before <= all && after <= all && |before| <= |after|
    ensures after == before + after[|before|..]
  {
  }

  method Reads(conn: Conn, room: nat, now: nat, net: Net) returns (out: seq<Byte>)
    requires Ready(conn, now, net)
    modifies conn.Repr()
    ensures Ready(conn, now, net) && conn.Repr() == old(conn.Repr())
    ensures Stepped(conn, net, out, Read(room))
  {
    hide Plus, Avail, OnSegment, Answer, OnClose, Ring;
    out := [];
    if conn.isUsed && UserHolds(conn.state) {
      var dest := new ByteBuf(room);
      ghost var was := conn.delivered;
      var _, _ := conn.Recv(dest);
      out := dest.dat[..dest.len];
      assert out == conn.delivered[|was|..];
      Further(conn.stored, was, conn.delivered);
    }
  }

  method Writes(conn: Conn, payload: seq<Byte>, route: Result<nat>, now: nat, net: Net) returns (ghost n: nat)
    requires Ready(conn, now, net) && HasRoom(route)
    modifies conn.Repr(), net
    ensures Ready(conn, now, net) && conn.Repr() == old(conn.Repr())
    ensures n <= |payload| && Stepped(conn, net, [], Transmit(n))
  {
    hide Plus, Avail;
    n := 0;
    if conn.isUsed && UserHolds(conn.state) {
      ghost var before := |net.sent|;
      var _, _, done := conn.Send(payload, route, net);
      n := done;
      JoinedNone(net.sent[before..]);
      PlusMoves(old(conn.Now()), n);
    }
  }

  method Closes(conn: Conn, now: nat, net: Net) returns (ghost sent: bool)
    requires Ready(conn, now, net)
    modifies conn.Repr(), net
    ensures Ready(conn, now, net) && conn.Repr() <= old(conn.Repr())
    ensures Stepped(conn, net, [], Close(sent))
  {
    hide Plus, Avail;
    sent := false;
    if conn.isUsed && UserHolds(conn.state) {
      var r := conn.Close(net);
      sent := r.Ok?;
    }
  }

  /** One call, at a reading `now` of the clock. */
  method Step(conn: Conn, c: Call, now: nat, net: Net) returns (out: seq<Byte>, ghost e: Event)
    requires Ready(conn, now, net) && (c.WriteCall? ==> HasRoom(c.route))
    modifies conn.Repr(), net
    ensures Ready(conn, now, net) && fresh(conn.Repr() - old(conn.Repr()))
    ensures Matches(c, e) && Stepped(conn, net, out, e)
  {
    hide Ready, Stepped;
    out := [];
    match c {
      case SegmentCall(seg, memory) =>
        Segments(conn, seg, memory, now, net);
        e := Arrive(seg, memory);
      case LookupCall =>
        Lookups(conn, now, net);
        e := Lookup;
      case ReadCall(room) =>
        out := Reads(conn, room, now, net);
        e := Read(room);
      case WriteCall(payload, route) =>
        ghost var n := Writes(conn, payload, route, now, net);
        e := Transmit(n);
      case CloseCall =>
        ghost var sent := Closes(conn, now, net);
        e := Close(sent);
    }
  }

  /** Any calls take the connection through a run of events, one for each call. So what the theorems say of
      all runs holds for it: when the segments that arrive are those of a stream, the user gets a prefix of
      it, and without RST and losses below, the peer has heard of every byte that is stored. */
  method Drive(conn: Conn, calls: seq<Call>, clock: nat -> nat, net: Net, ghost irs: U32, ghost stream: seq<Byte>)
    returns (out: seq<Byte>, ghost events: seq<Event>)
    requires Ready(conn, clock(0), net) && (forall i, j :: i <= j ==> clock(i) <= clock(j))
    requires forall c :: c in calls && c.WriteCall? ==> HasRoom(c.route)
    modifies conn.Repr(), net
    ensures |events| == |calls| && forall i :: 0 <= i < |calls| ==> Matches(calls[i], events[i])
    ensures WellFormed(old(conn.Now())) && conn.Now() == Run(old(conn.Now()), events)
    ensures conn.delivered == old(conn.delivered) + out
    ensures Tracks(old(conn.Now()), irs, stream) &&
            (forall c :: c in calls && c.SegmentCall? ==> FromPeer(c.seg, irs, stream)) ==>
              old(conn.delivered) + out <= stream
    ensures (forall k :: net.fate(k).None?) && Informed(old(conn.Now()), LastAck(old(net.sent))) &&
            (forall c :: c in calls && c.SegmentCall? ==> !c.seg.flags.rst) ==>
              net.sent != [] && Informed(conn.Now(), LastAck(net.sent))
  {
    hide Run, LastTold, Apply, Told, Tracks, Informed, FromPeer;
    ghost var v, told := conn.Now(), LastAck(net.sent);
    NoEvents(v, told);
    out, events := [], [];
    for i := 0 to |calls|
      invariant Ready(conn, clock(i), net) && fresh(conn.Repr() - old(conn.Repr()))
      invariant |events| == i && forall j :: 0 <= j < i ==> Matches(calls[j], events[j])
      invariant WellFormed(v) && conn.Now() == Run(v, events)
      invariant conn.delivered == old(conn.delivered) + out
      invariant (forall k :: net.fate(k).None?) ==> LastAck(net.sent) == LastTold(v, events, told)
    {
      var more, e := Step(conn, calls[i], clock(i), net);
      RunMore(v, events, e, told);
      out, events := out + more, events + [e];
    }
    RunsKeep(v, calls, events, irs, stream, told);
  }

  lemma RunsKeep(v: View, calls: seq<Call>, events: seq<Event>, irs: U32, stream: seq<Byte>, told: U32)
    requires |events| == |calls| && forall i :: 0 <= i < |calls| ==> Matches(calls[i], events[i])
    requires WellFormed(v)
    ensures Tracks(v, irs, stream) && (forall c :: c in calls && c.SegmentCall? ==> FromPeer(c.seg, irs, stream)) ==>
              Run(v, events).delivered <= stream
    ensures Informed(v, told) && (forall c :: c in calls && c.SegmentCall? ==> !c.seg.flags.rst) ==>
              Informed(Run(v, events), LastTold(v, events, told))
  {
    hide FromPeer, Run, LastTold, WellFormed;
    forall e | e in events && e.Arrive?
      ensures exists c :: c in calls && c.SegmentCall? && c.seg == e.seg
    {
      var i :| 0 <= i < |events| && events[i] == e;
      assert Matches(calls[i], e) && calls[i] in calls;
    }
    if Tracks(v, irs, stream) && (forall c :: c in calls && c.SegmentCall? ==> FromPeer(c.seg, irs, stream)) {
      StreamSafety(v, events, irs, stream);
    }
    if Informed(v, told) && (forall c :: c in calls && c.SegmentCall? ==> !c.seg.flags.rst) {
      EverythingTold(v, events, told);
    }
  }
}
