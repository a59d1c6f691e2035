/** Theorems about connections of src/net/tcp.c over arbitrary segment arrivals and user calls. */
module TcpTheorems {
  import opened Common
  import opened TcpSpec

  // ----- The peer ------------------------------------------------------------------------------

  /** `seg` carries the bytes of `stream` from byte `k` on, where the peer's SYN had the number
      `irs`; a FIN follows the last byte. */
  ghost predicate CutAt(seg: Segment, irs: U32, stream: seq<Byte>, k: nat)
  {
    && k + |seg.payload| <= |stream|
    && seg.payload == stream[k..k + |seg.payload|]
    && seg.seqNum == Plus(irs, 1 + k)
    && (seg.flags.fin ==> k + |seg.payload| == |stream|)
  }

  /** Any segment that the peer may have sent, at any time. Without data and FIN, its number is free. */
  ghost predicate FromPeer(seg: Segment, irs: U32, stream: seq<Byte>)
  {
    (seg.payload == [] && !seg.flags.fin) || exists k: nat :: CutAt(seg, irs, stream, k)
  }

  /** Sequence numbers tell two positions of a stream apart unless they are 2^32 apart. */
  lemma SameNumber(irs: U32, j: nat, k: nat)
    requires j <= k <= j + MOD
    ensures Plus(irs, j) == Plus(irs, k) <==> j == k || k == j + MOD
  {
  }

  // ----- Runs ----------------------------------------------------------------------------------

  /** `Lookup` is a lookup for anything else: a segment for another connection, or a new one. */
  datatype Event =
    Arrive(seg: Segment, memory: bool) | Lookup | Read(room: nat) | Transmit(n: nat) | Close(sent: bool)

  ghost predicate WellFormed(v: View) { v.delivered <= v.stored }

  /** One step of a connection; a freed one is found by no segment, and the user does not hold it. Every
      lookup frees a connection in TIME_WAIT. */
  ghost function Apply(v: View, e: Event): View
    requires WellFormed(v)
  {
    match e
    case Arrive(seg, memory) =>
      if !v.used then v else if v.state.TimeWait? then v.(used := false) else OnSegment(v, seg, memory)
    case Lookup => if v.state.TimeWait? then v.(used := false) else v
    case Read(room) => if v.used && UserHolds(v.state) then OnRead(v, room) else v
    case Transmit(n) => if v.used && UserHolds(v.state) then Sending(v, n) else v
    case Close(sent) => if v.used && UserHolds(v.state) then OnClose(v, sent) else v
  }

  /** At most what the window has room for is sent. */
  function Sending(v: View, n: nat): View
  {
    v.(next := Plus(v.next, Min(n, Avail(v.window, v.unack, v.next))))
  }

  lemma ApplyWellFormed(v: View, e: Event)
    requires WellFormed(v)
    ensures WellFormed(Apply(v, e)) && v.delivered <= Apply(v, e).delivered && v.stored <= Apply(v, e).stored
  {
    hide Plus;
  }

  ghost function Run(v: View, events: seq<Event>): (w: View)
    requires WellFormed(v)
    ensures WellFormed(w)
    decreases |events|
  {
    if events == [] then v else ApplyWellFormed(v, events[0]); Run(Apply(v, events[0]), events[1..])
  }

  // ----- The stream arrives as a prefix --------------------------------------------------------

  /** The number of sequence numbers that have been consumed after the SYN. */
  ghost function Consumed(v: View): nat { |v.stored| + if v.fin then 1 else 0 }

  ghost predicate Tracks(v: View, irs: U32, stream: seq<Byte>)
  {
    && WellFormed(v) && |stream| < MOD && v.delivered <= stream
    && (v.used ==>
          && v.stored <= stream
          && v.rcv == Plus(irs, 1 + Consumed(v))
          && (v.fin ==> v.stored == stream && InputEnded(v.state))
          && (v.state.SynRcvd? ==> v.stored == []))
  }

  /** The states in which no segment's data is looked at any more. */
  predicate InputEnded(s: State)
  {
    !s.SynRcvd? && !s.Established? && !s.FinWait1? && !s.FinWait2?
  }

  /** Before the FIN is counted, a payload is taken only if it continues what is stored. */
  lemma TakesTheNextBytes(v: View, seg: Segment, irs: U32, stream: seq<Byte>, k: nat)
    requires Tracks(v, irs, stream) && v.used && !v.fin && CutAt(seg, irs, stream, k)
    ensures seg.payload != [] || seg.flags.fin ==> (seg.seqNum == v.rcv <==> k == |v.stored|)
    ensures TakesData(v, seg) <==> seg.payload != [] && k == |v.stored| && |seg.payload| <= Room(v)
    ensures TakesData(v, seg) ==> v.stored + seg.payload == stream[..k + |seg.payload|]
    ensures TakesFin(v, seg) ==> Received(v, seg).stored == stream
  {
    SameNumber(irs, 1 + Min(k, |v.stored|), 1 + Max(k, |v.stored|));
    if k == |v.stored| {
      assert stream[..k] + stream[k..k + |seg.payload|] == stream[..k + |seg.payload|];
    }
  }

  lemma ReceivedTracks(v: View, seg: Segment, irs: U32, stream: seq<Byte>)
    requires Tracks(v, irs, stream) && v.used && !v.fin && FromPeer(seg, irs, stream)
    ensures var w := Received(v, seg);
            && w.stored <= stream && (w.fin ==> w.stored == stream)
            && w.rcv == Plus(irs, 1 + Consumed(w))
  {
    PlusZero(v.rcv);
    if seg.payload != [] || seg.flags.fin {
      var k: nat :| CutAt(seg, irs, stream, k);
      TakesTheNextBytes(v, seg, irs, stream, k);
      var n := |Received(v, seg).stored| - |v.stored|;
      PlusPlus(irs, 1 + |v.stored|, n + if TakesFin(v, seg) then 1 else 0);
    }
  }

  lemma ArrivalTracks(v: View, seg: Segment, memory: bool, irs: U32, stream: seq<Byte>)
    requires Tracks(v, irs, stream) && v.used && !v.state.TimeWait? && FromPeer(seg, irs, stream)
    ensures Tracks(OnSegment(v, seg, memory), irs, stream)
  {
    hide Plus, TakesData;
    if UsesData(v.state, seg.flags) {
      var a := Acknowledged(v, seg);
      assert Tracks(a, irs, stream);
      ReceivedTracks(a, seg, irs, stream);
    }
  }

  /** For any loss, duplication and reordering of the peer's segments, and any calls of the user, the
      bytes read by the user are a prefix of the peer's stream. So are the bytes read and then those
      in the ring, and every segment sent acknowledges exactly what is stored. */
  lemma {:induction false} StreamSafety(v: View, events: seq<Event>, irs: U32, stream: seq<Byte>)
    requires Tracks(v, irs, stream)
    requires forall e :: e in events && e.Arrive? ==> FromPeer(e.seg, irs, stream)
    ensures Tracks(Run(v, events), irs, stream)
    decreases |events|
  {
    if events != [] {
      var e, rest := events[0], events[1..];
      assert e in events;
      assert Tracks(Apply(v, e), irs, stream) by {
        hide Plus, Received, FromPeer;
        if e.Arrive? && v.used && !v.state.TimeWait? {
          ArrivalTracks(v, e.seg, e.memory, irs, stream);
        }
      }
      forall x | x in rest
        ensures x in events
      {
      }
      StreamSafety(Apply(v, e), rest, irs, stream);
    }
  }

  /** What `StreamSafety` means for a connection from its first SYN on, in every state it reaches. */
  lemma EveryRunIsSafe(syn: Segment, isn: U32, answered: bool, events: seq<Event>, stream: seq<Byte>, flags: Flags)
    requires |stream| < MOD
    requires forall e :: e in events && e.Arrive? ==> FromPeer(e.seg, syn.seqNum, stream)
    ensures var w := Run(Opened(syn, isn, answered), events);
            && w.delivered <= stream
            && (w.used ==>
                  && w.stored <= stream
                  && Outgoing(w, flags, []).ackNum == Plus(syn.seqNum, 1 + Consumed(w))
                  && (w.fin ==> w.stored == stream))
  {
    StreamSafety(Opened(syn, isn, answered), events, syn.seqNum, stream);
  }

  /** The bound on the stream is needed: while the handshake's numbers hold, a payload is taken exactly if
      it lies a multiple of 2^32 bytes behind what is stored, so a longer stream can repeat. */
  lemma TakesModulo(v: View, seg: Segment, irs: U32, stream: seq<Byte>, k: nat)
    requires v.rcv == Plus(irs, 1 + |v.stored|) && CutAt(seg, irs, stream, k)
    ensures TakesData(v, seg) <==>
              seg.payload != [] && (|v.stored| - k) % MOD == 0 && |seg.payload| <= Room(v)
  {
    hide Plus;
    SameResidue(irs, 1 + |v.stored|, 1 + k);
  }

  lemma SameResidue(irs: U32, j: nat, k: nat)
    ensures Plus(irs, j) == Plus(irs, k) <==> (j - k) % MOD == 0
  {
  }

  // ----- The FIN -------------------------------------------------------------------------------

  /** A FIN is counted exactly when it arrives in order, behind data that fits, and the numbers of its
      segment do not wrap: line 401 adds plain integers. */
  lemma FinCountedUnlessWrapped(v: View, seg: Segment, irs: U32, stream: seq<Byte>, k: nat)
    requires Tracks(v, irs, stream) && v.used && v.state.Established? && CutAt(seg, irs, stream, k) && seg.flags.fin
    ensures OnSegment(v, seg, true).fin <==>
              && k == |v.stored| && (seg.payload == [] || |seg.payload| <= Room(v))
              && seg.seqNum + |seg.payload| < MOD
  {
    TakesTheNextBytes(v, seg, irs, stream, k);
  }

  /** Such a FIN on a fresh connection: the last byte has the last number there is. */
  lemma WrappedFin()
    ensures var syn, ack := Segment(MOD - 2, 0, SYN_ACK, 100, []), Segment(MOD - 1, 1, ACK, 100, []);
            var fin := Segment(MOD - 1, 1, FIN_ACK, 100, [7]);
            var w := Run(Opened(syn, 0, true), [Arrive(ack, true), Arrive(fin, true)]);
            && FromPeer(ack, MOD - 2, [7]) && FromPeer(fin, MOD - 2, [7])
            && w.used && w.state == CloseWait && w.stored == [7] && !w.fin
  {
    var syn, ack := Segment(MOD - 2, 0, SYN_ACK, 100, []), Segment(MOD - 1, 1, ACK, 100, []);
    var fin := Segment(MOD - 1, 1, FIN_ACK, 100, [7]);
    assert CutAt(fin, MOD - 2, [7], 0);
    var v := Opened(syn, 0, true);
    var u := Apply(v, Arrive(ack, true));
    assert u == View(true, Established, 1, 1, 100, MOD - 1, [], [], false);
    RunTwo(v, Arrive(ack, true), Arrive(fin, true));
  }

  lemma RunTwo(v: View, d: Event, e: Event)
    requires WellFormed(v)
    ensures WellFormed(Apply(v, d)) && Run(v, [d, e]) == Apply(Apply(v, d), e)
  {
    ApplyWellFormed(v, d);
    assert [d, e][1..] == [e];
    RunOne(Apply(v, d), e);
  }

  /** From CLOSE_WAIT on, nothing is taken, and the acknowledgement stays the same. */
  lemma {:induction false} StoredIsFinal(v: View, events: seq<Event>)
    requires WellFormed(v) && v.used && (v.state.CloseWait? || v.state.LastAck?)
    ensures Run(v, events).stored == v.stored && Run(v, events).rcv == v.rcv
    decreases |events|
  {
    if events != [] {
      var w := Apply(v, events[0]);
      if w.used {
        StoredIsFinal(w, events[1..]);
      } else {
        FreedIsFinal(w, events[1..]);
      }
    }
  }

  lemma {:induction false} FreedIsFinal(v: View, events: seq<Event>)
    requires WellFormed(v) && !v.used
    ensures Run(v, events) == v
    decreases |events|
  {
    if events != [] {
      FreedIsFinal(v, events[1..]);
    }
  }

  /** Any FIN ends the connection's input, even one that overtook data. The user then gets the whole
      stream, in whatever order the rest arrives, exactly when the FIN's own segment completed it or
      everything had been stored before. */
  lemma FinEndsInput(v: View, seg: Segment, events: seq<Event>, irs: U32, stream: seq<Byte>, k: nat)
    requires Tracks(v, irs, stream) && v.used && v.state.Established?
    requires CutAt(seg, irs, stream, k) && seg.flags.fin && !seg.flags.rst
    ensures var w := OnSegment(v, seg, true);
            && w.state == CloseWait && WellFormed(w)
            && (Run(w, events).stored == stream <==>
                  v.stored == stream || (k == |v.stored| && |seg.payload| <= Room(v)))
  {
    var a := Acknowledged(v, seg);
    var w := OnSegment(v, seg, true);
    TakesTheNextBytes(a, seg, irs, stream, k);
    StoredIsFinal(w, events);
    if w.stored == stream && v.stored != stream {
      assert TakesData(a, seg);
    }
  }

  /** A FIN that ends the input without being counted is never acknowledged: whatever happens then, no
      segment has the acknowledgement number behind it. (For a stream of 2^32 - 1 bytes of which none
      is stored, that number is also the one in front of it.) */
  lemma FinNeverAcknowledged(v: View, seg: Segment, events: seq<Event>, flags: Flags, data: seq<Byte>,
                             irs: U32, stream: seq<Byte>, k: nat)
    requires Tracks(v, irs, stream) && v.used && v.state.Established?
    requires CutAt(seg, irs, stream, k) && seg.flags.fin && !seg.flags.rst
    ensures var w := OnSegment(v, seg, true);
            && WellFormed(w)
            && (Outgoing(Run(w, events), flags, data).ackNum == Plus(irs, 1 + |stream| + 1) <==>
                  w.fin || (w.stored == [] && |stream| == MOD - 1))
  {
    var a := Acknowledged(v, seg);
    var w := OnSegment(v, seg, true);
    TakesTheNextBytes(a, seg, irs, stream, k);
    StoredIsFinal(w, events);
    ArrivalTracks(v, seg, true, irs, stream);
    SameNumber(irs, 1 + Consumed(w), 1 + |stream| + 1);
  }

  /** Such a loss: the FIN of a one-byte stream overtakes the byte. */
  lemma FinOvertakesByte()
    ensures var fin, data := Segment(2, 0, FIN_ACK, 100, []), Segment(1, 0, ACK, 100, [7]);
            var v := View(true, Established, 0, 0, 100, 1, [], [], false);
            && FromPeer(fin, 0, [7]) && FromPeer(data, 0, [7]) && Tracks(v, 0, [7])
            && WellFormed(v) && Run(v, [Arrive(fin, true), Arrive(data, true)]).stored == []
            && WellFormed(v) && Run(v, [Arrive(data, true), Arrive(fin, true)]).stored == [7]
  {
    var fin, data := Segment(2, 0, FIN_ACK, 100, []), Segment(1, 0, ACK, 100, [7]);
    var v := View(true, Established, 0, 0, 100, 1, [], [], false);
    assert CutAt(fin, 0, [7], 1) && CutAt(data, 0, [7], 0);
    FinEndsInput(v, fin, [Arrive(data, true)], 0, [7], 1);
    var w := OnSegment(v, data, true);
    assert w.stored == [7] && w.state == Established && w.rcv == 2;
    assert OnSegment(w, fin, true).stored == [7];
    assert [Arrive(fin, true), Arrive(data, true)][1..] == [Arrive(data, true)];
    assert [Arrive(data, true), Arrive(fin, true)][1..] == [Arrive(fin, true)];
    RunOne(OnSegment(v, data, true), Arrive(fin, true));
  }

  lemma RunOne(v: View, e: Event)
    requires WellFormed(v)
    ensures Run(v, [e]) == Apply(v, e)
  {
    ApplyWellFormed(v, e);
    assert [e][1..] == [];
  }

  // ----- From this sender to this receiver -----------------------------------------------------

  /** What `tcp_conn_send` emits are segments of the sender's own stream, so that `StreamSafety`
      holds for a peer that runs this code. */
  lemma {:induction false} FragmentsAreCut(v: View, flags: Flags, data: seq<Byte>, mtu: nat,
                                           iss: U32, stream: seq<Byte>, at: nat)
    requires at + |data| <= |stream| && data == stream[at..at + |data|]
    requires v.next == Plus(iss, 1 + at) && !flags.fin
    ensures forall seg :: seg in Fragments(v, flags, data, mtu) ==> |seg.payload| <= mtu && FromPeer(seg, iss, stream)
    decreases |data|
  {
    hide Plus;
    if data != [] && mtu > 0 {
      var n := Min(|data|, mtu);
      assert CutAt(Outgoing(v, flags, data[..n]), iss, stream, at);
      PlusPlus(iss, 1 + at, n);
      FragmentsAreCut(v.(next := Plus(v.next, n)), flags, data[n..], mtu, iss, stream, at + n);
    }
  }

  ghost function Arrivals(segs: seq<Segment>): (r: seq<Event>)
    ensures |r| == |segs|
  {
    if segs == [] then [] else [Arrive(segs[0], true)] + Arrivals(segs[1..])
  }

  lemma FragmentTaken(w: View, seg: Segment)
    requires w.state.Established? && seg.seqNum == w.rcv && 0 < |seg.payload| <= Room(w)
    requires !seg.flags.fin && !seg.flags.rst
    ensures var w' := OnSegment(w, seg, true);
            && w'.stored == w.stored + seg.payload && w'.delivered == w.delivered &&
                w'.rcv == Plus(w.rcv, |seg.payload|)
            && w'.used == w.used && w'.state == Established
  {
  }

  /** Delivered in order, and with room in the ring, they put the very same bytes there. */
  lemma {:induction false} InOrderDelivery(v: View, flags: Flags, data: seq<Byte>, mtu: nat, w: View)
    requires mtu > 0 && !flags.fin && !flags.rst
    requires WellFormed(w) && w.used && w.state.Established? && w.rcv == v.next && |data| <= Room(w)
    ensures var r := Run(w, Arrivals(Fragments(v, flags, data, mtu)));
            r.stored == w.stored + data && r.rcv == Plus(w.rcv, |data|) && r.used && r.state == Established
    decreases |data|
  {
    hide Plus;
    PlusZero(w.rcv);
    if data != [] {
      var n := Min(|data|, mtu);
      var seg := Outgoing(v, flags, data[..n]);
      var v', rest := v.(next := Plus(v.next, n)), data[n..];
      var segs := Fragments(v', flags, rest, mtu);
      assert Fragments(v, flags, data, mtu) == [seg] + segs;
      assert ([seg] + segs)[1..] == segs;
      var events := Arrivals([seg] + segs);
      assert events[0] == Arrive(seg, true) && events[1..] == Arrivals(segs);
      var w' := OnSegment(w, seg, true);
      FragmentTaken(w, seg);
      hide OnSegment;
      InOrderDelivery(v', flags, rest, mtu, w');
      PlusPlus(w.rcv, n, |rest|);
      assert w.stored + data[..n] + rest == w.stored + data;
    }
  }

  // ----- Windows -------------------------------------------------------------------------------

  /** Bytes sent and not yet acknowledged. */
  function Flight(unack: U32, next: U32): nat { (next - unack) % MOD }

  /** `tcp_send_window_avail` is the room left in the peer's window exactly as long as the bytes in
      flight fit the window; once the peer shrinks it below, the difference wraps to almost 2^32. */
  lemma AvailIsRoom(window: U16, unack: U32, next: U32)
    ensures Avail(window, unack, next) == Max(0, window - Flight(unack, next)) <==> Flight(unack, next) <= window
  {
    var flight := Flight(unack, next);
    assert Avail(window, unack, next) == (window - flight) % MOD;
  }

  /** Such a peer: 100 bytes are in flight when the window shrinks from 100 to 10. */
  lemma ShrunkWindow()
    ensures var syn, ack := Segment(0, 0, SYN_ACK, 100, []), Segment(1, 1, ACK, 100, []);
            var w := Run(Opened(syn, 0, true), [Arrive(ack, true), Transmit(100), Arrive(ack.(window := 10), true)]);
            && w.used && w.state == Established && w.window == 10 && Flight(w.unack, w.next) == 100
            && Avail(w.window, w.unack, w.next) == MOD - 90
  {
    var syn, ack := Segment(0, 0, SYN_ACK, 100, []), Segment(1, 1, ACK, 100, []);
    var v := Opened(syn, 0, true);
    var u := Apply(v, Arrive(ack, true));
    assert u == View(true, Established, 1, 1, 100, 1, [], [], false);
    var last := Arrive(ack.(window := 10), true);
    ApplyWellFormed(v, Arrive(ack, true));
    assert [Arrive(ack, true), Transmit(100), last][1..] == [Transmit(100), last];
    RunTwo(u, Transmit(100), last);
  }

  /** Sending what `tcp_conn_send` does keeps the bytes in flight within the window. */
  lemma FlightFitsWindow(window: U16, unack: U32, next: U32, len: nat)
    requires Flight(unack, next) <= window
    ensures var n := Min(Avail(window, unack, next), len);
            && n == Min(window - Flight(unack, next), len)
            && Flight(unack, Plus(next, n)) == Flight(unack, next) + n <= window
  {
    AvailIsRoom(window, unack, next);
  }

  /** RFC 9293, section 3.4: `a` is after `b` when it is less than half the number space ahead. */
  predicate After(a: U32, b: U32) { 0 < (a - b) % MOD < MOD / 2 }

  /** `seq_gt` agrees with it exactly when the plain difference stays within half the space. */
  lemma SeqGtIsAfter(a: U32, b: U32)
    ensures SeqGt(a, b) == After(a, b) <==> -(MOD as int) / 2 <= a - b < MOD / 2
  {
  }

  /** As plain numbers, acknowledgements only grow; so they never follow the numbers around zero. */
  lemma {:induction false} UnackNeverFalls(v: View, events: seq<Event>)
    requires WellFormed(v)
    ensures Run(v, events).unack >= v.unack
    decreases |events|
  {
    if events != [] {
      ApplyWellFormed(v, events[0]);
      UnackNeverFalls(Apply(v, events[0]), events[1..]);
    }
  }

  /** With the initial number 2^32 - 1, already the acknowledgement of the SYN, which is zero, does not
      count, and no later one ever does. */
  lemma AckNeverCounts(events: seq<Event>)
    ensures var syn, ack := Segment(0, 0, SYN_ACK, 100, []), Arrive(Segment(1, 0, ACK, 100, []), true);
            var v := Run(Opened(syn, MOD - 1, true), [ack]);
            && v.used && v.state == Established && v.unack == MOD - 1 && v.next == ack.seg.ackNum == 0
            && Run(v, events).unack == MOD - 1
  {
    var syn, ack := Segment(0, 0, SYN_ACK, 100, []), Arrive(Segment(1, 0, ACK, 100, []), true);
    var v := Opened(syn, MOD - 1, true);
    RunOne(v, ack);
    UnackNeverFalls(Run(v, [ack]), events);
  }
}
