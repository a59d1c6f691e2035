/** Laws of connections of src/net/tcp.c that hold step by step: what an acknowledgement does, what has to
    be acknowledged, and the paths through the state diagram. */
module TcpLaws {
  import opened Common
  import opened TcpSpec
  import opened TcpTheorems

  // ----- Acknowledgements that arrive ----------------------------------------------------------

  /** The states and segments with which an acknowledgement is looked at at all: never in CLOSE_WAIT and
      LAST_ACK, and with a FIN only in FIN_WAIT_2. */
  predicate Listens(s: State, f: Flags)
  {
    || s.Established?
    || (!f.rst && (s.SynRcvd? || s.FinWait1? || s.Closing?))
    || (!f.rst && f.fin && s.FinWait2?)
  }

  /** Where it is, the acknowledgement of `k` bytes in flight takes them out of flight, exactly as long as
      the numbers do not pass zero. */
  lemma AckTakesEffect(v: View, seg: Segment, k: nat)
    requires Listens(v.state, seg.flags) && seg.flags.ack && seg.ackNum == Plus(v.unack, k)
    requires k <= Flight(v.unack, v.next)
    ensures var w := OnSegment(v, seg, true);
            && w.next == v.next && w.window == seg.window
            && (Flight(w.unack, w.next) == Flight(v.unack, v.next) - k <==> k == 0 || v.unack + k < MOD)
            && (v.unack + k >= MOD ==> w.unack == v.unack)
  {
    InFlight(v.unack, v.next, k);
  }

  lemma InFlight(unack: U32, next: U32, k: nat)
    requires k <= Flight(unack, next)
    ensures unack + k < MOD ==> Plus(unack, k) == unack + k && Flight(unack + k, next) == Flight(unack, next) - k
    ensures unack + k >= MOD ==> Plus(unack, k) < unack
  {
  }

  /** It frees that much of the new window: with everything acknowledged, all of it. */
  lemma AckFrees(v: View, seg: Segment, k: nat)
    requires Listens(v.state, seg.flags) && seg.flags.ack && seg.ackNum == v.unack + k
    requires k <= Flight(v.unack, v.next) <= seg.window + k
    ensures var w := OnSegment(v, seg, true);
            Avail(w.window, w.unack, w.next) == seg.window - (Flight(v.unack, v.next) - k)
  {
    InFlight(v.unack, v.next, k);
    AckTakesEffect(v, seg, k);
    var w := OnSegment(v, seg, true);
    AvailIsRoom(w.window, w.unack, w.next);
  }

  /** Nothing is acknowledged without the ACK flag, or where it is not looked at. */
  lemma NothingAcknowledged(v: View, seg: Segment, memory: bool)
    requires !seg.flags.ack || !(Listens(v.state, seg.flags) || v.state.TimeWait?)
    ensures OnSegment(v, seg, memory).unack == v.unack
    ensures OnSegment(v, seg, memory).next == v.next
  {
  }

  /** In CLOSE_WAIT this holds for ever: whatever the peer acknowledges, the window does not open again.
      After what it has room for at the beginning, only the FIN can be sent. */
  lemma {:induction false} CloseWaitStalls(v: View, events: seq<Event>)
    requires WellFormed(v) && v.used && v.state.CloseWait? && Flight(v.unack, v.next) <= v.window
    ensures var w := Run(v, events);
            && w.unack == v.unack && w.window == v.window
            && Flight(w.unack, w.next) <= v.window + (if w.state.LastAck? then 1 else 0)
            && (w.used ==> w.state.CloseWait? || w.state.LastAck?)
    decreases |events|
  {
    hide Plus, Avail, Flight, Received, Acknowledged;
    if events != [] {
      var w := Apply(v, events[0]);
      ApplyWellFormed(v, events[0]);
      match events[0] {
        case Transmit(n) =>
          FlightFitsWindow(v.window, v.unack, v.next, n);
          CloseWaitStalls(w, events[1..]);
        case Close(sent) =>
          OneMoreInFlight(v.unack, v.next);
          LastAckWaits(w, events[1..]);
        case _ =>
          CloseWaitStalls(w, events[1..]);
      }
    }
  }

  lemma OneMoreInFlight(unack: U32, next: U32)
    ensures Flight(unack, Plus(next, 1)) <= Flight(unack, next) + 1
  {
  }

  lemma {:induction false} LastAckWaits(v: View, events: seq<Event>)
    requires WellFormed(v) && v.state.LastAck?
    ensures var w := Run(v, events);
            w.state.LastAck? && w.unack == v.unack && w.window == v.window && w.next == v.next
    decreases |events|
  {
    if events != [] {
      ApplyWellFormed(v, events[0]);
      LastAckWaits(Apply(v, events[0]), events[1..]);
    }
  }

  // ----- Acknowledgements that are sent --------------------------------------------------------

  /** The acknowledgement number that the peer was told last, when `told` was the one before `e`. What the
      layers below take is not lost to an error. */
  ghost function Told(v: View, e: Event, told: U32): U32
    requires WellFormed(v)
  {
    match e
    case Arrive(seg, memory) =>
      if !v.used || v.state.TimeWait? || Answer(v, seg, memory).None? then told
      else Outgoing(OnSegment(v, seg, memory), Answer(v, seg, memory).value, []).ackNum
    case Transmit(n) => if v.used && UserHolds(v.state) && Apply(v, e) != v then Outgoing(v, ACK, []).ackNum else told
    case Close(sent) =>
      if v.used && UserHolds(v.state) && !v.state.Reset? && sent then Outgoing(v, FIN_ACK, []).ackNum else told
    case Lookup | Read(_) => told
  }

  ghost function LastTold(v: View, events: seq<Event>, told: U32): U32
    requires WellFormed(v)
    decreases |events|
  {
    if events == [] then told
    else
      ApplyWellFormed(v, events[0]);
      LastTold(Apply(v, events[0]), events[1..], Told(v, events[0], told))
  }

  /** One arrival: what is stored is acknowledged at once in ESTABLISHED or along with a FIN, and only there. */
  lemma TakenIsAnswered(v: View, seg: Segment, memory: bool)
    requires |OnSegment(v, seg, memory).stored| > |v.stored| && !v.state.TimeWait? && !seg.flags.rst
    ensures v.state.Established? || v.state.FinWait1? || v.state.FinWait2?
    ensures Answer(v, seg, memory) == Some(ACK) <==> v.state.Established? || seg.flags.fin
    ensures Answer(v, seg, memory) == None <==> v.state.FinWait1? && !seg.flags.fin
  {
  }

  /** A FIN that ends the input is answered, whether or not it is counted. */
  lemma FinIsAnswered(v: View, seg: Segment, memory: bool)
    requires seg.flags.fin && !seg.flags.rst && (v.state.Established? || v.state.FinWait1? || v.state.FinWait2?)
    ensures Answer(v, seg, memory) == Some(Flags(false, false, false, true))
    ensures InputEnded(OnSegment(v, seg, memory).state)
  {
  }

  /** The peer knows what has arrived, unless the state is FIN_WAIT_2. */
  ghost predicate Informed(v: View, told: U32)
  {
    WellFormed(v) && (v.used && !v.state.FinWait2? ==> told == v.rcv)
  }

  lemma InformedStep(v: View, e: Event, told: U32)
    requires Informed(v, told) && (e.Arrive? ==> !e.seg.flags.rst)
    ensures Informed(Apply(v, e), Told(v, e, told))
  {
    hide Plus, Avail;
    ApplyWellFormed(v, e);
    if e.Arrive? {
      PlusZero(v.rcv);
    }
  }

  /** In every run without RST, the last number told to the peer is the one that the connection expects:
      every byte that is stored, and every FIN that is counted, gets acknowledged. */
  lemma {:induction false} EverythingTold(v: View, events: seq<Event>, told: U32)
    requires Informed(v, told)
    requires forall e :: e in events && e.Arrive? ==> !e.seg.flags.rst
    ensures Informed(Run(v, events), LastTold(v, events, told))
    decreases |events|
  {
    if events != [] {
      var e, rest := events[0], events[1..];
      assert e in events;
      InformedStep(v, e, told);
      forall x | x in rest
        ensures x in events
      {
      }
      EverythingTold(Apply(v, e), rest, Told(v, e, told));
    }
  }

  /** With `StreamSafety`: the peer of a stream always hears how many bytes of it have arrived. */
  lemma EveryRunAcknowledges(syn: Segment, isn: U32, events: seq<Event>, stream: seq<Byte>)
    requires |stream| < MOD
    requires forall e :: e in events && e.Arrive? ==> FromPeer(e.seg, syn.seqNum, stream) && !e.seg.flags.rst
    ensures var v := Opened(syn, isn, true);
            var w := Run(v, events);
            w.used && !w.state.FinWait2? ==>
              LastTold(v, events, Outgoing(v, SYN_ACK, []).ackNum) ==
                Plus(syn.seqNum, 1 + |w.stored| + if w.fin then 1 else 0)
  {
    var v := Opened(syn, isn, true);
    EverythingTold(v, events, Outgoing(v, SYN_ACK, []).ackNum);
    StreamSafety(v, events, syn.seqNum, stream);
  }

  /** The exception is real: line 716 takes the bytes along with the ACK that leads to FIN_WAIT_2, and no
      segment says so. */
  lemma DataWithoutAnswer(v: View, seg: Segment, told: U32)
    requires WellFormed(v) && v.used && v.state.FinWait1? && told == v.rcv
    requires seg.flags == Flags(false, false, false, true)
    ensures var w := Apply(v, Arrive(seg, true));
            && w.state == FinWait2 && Told(v, Arrive(seg, true), told) == told
            && (told == w.rcv <==> w.stored == v.stored)
  {
    PlusZero(v.rcv);
  }

  // ----- The state diagram ---------------------------------------------------------------------

  /** States only advance, so none is entered twice. */
  function Rank(s: State): nat
  {
    match s
    case SynRcvd => 0
    case Established => 1
    case CloseWait | FinWait1 | Reset => 2
    case FinWait2 | Closing | LastAck => 3
    case TimeWait => 4
  }

  lemma OneAdvance(v: View, e: Event)
    requires WellFormed(v)
    ensures var w := Apply(v, e);
            && (w.state == v.state || Rank(w.state) > Rank(v.state))
            && (w.used ==> v.used)
  {
    hide Plus, Avail, Received, Acknowledged;
    if e.Arrive? {
      StateAfter(v, e.seg, e.memory);
    }
  }

  lemma StateAfter(v: View, seg: Segment, memory: bool)
    ensures var w, s := OnSegment(v, seg, memory), NextState(v.state, seg.flags, memory);
            && w.state == (if s.None? then v.state else s.value)
            && w.used == (v.used && s.Some?)
  {
  }

  lemma {:induction false} StatesAdvance(v: View, events: seq<Event>)
    requires WellFormed(v)
    ensures var w := Run(v, events);
            && (w.state == v.state || Rank(w.state) > Rank(v.state))
            && (w.used ==> v.used)
    decreases |events|
  {
    hide OnSegment, OnClose;
    if events != [] {
      ApplyWellFormed(v, events[0]);
      OneAdvance(v, events[0]);
      StatesAdvance(Apply(v, events[0]), events[1..]);
    }
  }

  /** A RST ends everything except what the user still holds. */
  lemma ResetArrives(v: View, seg: Segment, memory: bool)
    requires v.used && seg.flags.rst
    ensures Answer(v, seg, memory) == None
    ensures var w := OnSegment(v, seg, memory);
            && (w.used <==> v.state.Established? || v.state.CloseWait? || v.state.Reset?)
            && (v.state.Established? ==> w.state == Reset)
            && (v.state.CloseWait? ==> w == v)
  {
  }

  /** The handshake is complete with any ACK, if there is memory for the ring. */
  lemma Handshake(syn: Segment, isn: U32, answered: bool, seg: Segment, memory: bool)
    requires !seg.flags.rst
    ensures var v := Opened(syn, isn, answered);
            var w := OnSegment(v, seg, memory);
            && (v.used && v.state == SynRcvd)
            && (w.used && w.state == Established <==> seg.flags.ack && memory)
            && (!w.used <==> seg.flags.ack && !memory)
            && (!seg.flags.ack ==> w == v)
            && w.rcv == Plus(syn.seqNum, 1) && w.stored == [] && !w.fin
  {
  }

  predicate Plain(f: Flags) { !f.fin && !f.rst && f.ack }

  predicate Last(f: Flags) { f.fin && !f.rst }

  /** The user closes first: the peer acknowledges, then closes as well; a later lookup frees the entry. */
  lemma ActiveClose(v: View, ack: Segment, fin: Segment, sent: bool)
    requires WellFormed(v) && v.used && v.state.Established? && Plain(ack.flags) && Last(fin.flags)
    ensures var w := Run(v, [Close(sent)]);
            w.used && w.state == FinWait1 && (sent ==> w.next == Plus(v.next, 1))
    ensures Run(v, [Close(sent), Arrive(ack, true)]).state == FinWait2
    ensures Run(v, [Close(sent), Arrive(ack, true), Arrive(fin, true)]).state == TimeWait
    ensures var w := Run(v, [Close(sent), Arrive(ack, true), Arrive(fin, true)]); w.used
    ensures !Run(v, [Close(sent), Arrive(ack, true), Arrive(fin, true), Lookup]).used
  {
    hide Plus, TakesData, TakesFin;
    RunSteps(v, Close(sent), Arrive(ack, true), Arrive(fin, true), Lookup);
  }

  /** The peer's FIN comes before its acknowledgement, or together with it. */
  lemma SimultaneousClose(v: View, fin: Segment, ack: Segment, sent: bool)
    requires WellFormed(v) && v.used && v.state.Established? && Last(fin.flags) && Plain(ack.flags)
    ensures Run(v, [Close(sent), Arrive(fin, true)]).state == if fin.flags.ack then TimeWait else Closing
    ensures !fin.flags.ack ==>
              var w := Run(v, [Close(sent), Arrive(fin, true), Arrive(ack, true)]); w.used && w.state == TimeWait
    ensures !Run(v, [Close(sent), Arrive(fin, true), Arrive(ack, true), Lookup]).used
  {
    hide Plus, TakesData, TakesFin;
    RunSteps(v, Close(sent), Arrive(fin, true), Arrive(ack, true), Lookup);
  }

  /** The peer closes first: the entry is free as soon as the user has closed as well and any ACK or RST
      arrives. */
  lemma PassiveClose(v: View, fin: Segment, last: Segment, sent: bool)
    requires WellFormed(v) && v.used && v.state.Established? && Last(fin.flags)
    ensures var w := Run(v, [Arrive(fin, true)]); w.used && w.state == CloseWait
    ensures var w := Run(v, [Arrive(fin, true), Close(sent)]);
            w.used && w.state == LastAck && (sent ==> w.next == Plus(v.next, 1))
    ensures Run(v, [Arrive(fin, true), Close(sent), Arrive(last, true)]).used <==> !last.flags.ack && !last.flags.rst
  {
    hide Plus, Received, Acknowledged;
    RunSteps(v, Arrive(fin, true), Close(sent), Arrive(last, true), Lookup);
    AsideOfSending(v, fin);
  }

  lemma AsideOfSending(v: View, seg: Segment)
    ensures var w := Received(Acknowledged(v, seg), seg); w.used == v.used && w.next == v.next
  {
  }

  /** Closing a connection that was reset frees it, and so does closing one that nobody has accepted. */
  lemma CloseFrees(v: View, sent: bool)
    requires v.used
    ensures !OnClose(v, sent).used <==> v.state.Reset? || v.state.SynRcvd?
    ensures !v.state.Established? && !v.state.CloseWait? ==> OnClose(v, sent).(used := true) == v
  {
  }

  lemma RunSteps(v: View, a: Event, b: Event, c: Event, d: Event)
    requires WellFormed(v)
    ensures WellFormed(Apply(v, a)) && WellFormed(Apply(Apply(v, a), b))
    ensures WellFormed(Apply(Apply(Apply(v, a), b), c))
    ensures Run(v, [a]) == Apply(v, a) && Run(v, [a, b]) == Apply(Apply(v, a), b)
    ensures Run(v, [a, b, c]) == Apply(Apply(Apply(v, a), b), c)
    ensures Run(v, [a, b, c, d]) == Apply(Apply(Apply(Apply(v, a), b), c), d)
  {
    hide Apply;
    ApplyWellFormed(v, a);
    var u := Apply(v, a);
    ApplyWellFormed(u, b);
    RunOne(v, a);
    RunTwo(v, a, b);
    RunTwo(u, b, c);
    RunTwo(Apply(u, b), c, d);
    assert [a, b, c][1..] == [b, c] && [a, b, c, d][1..] == [b, c, d] && [b, c, d][1..] == [c, d];
    assert Run(u, [b, c, d]) == Run(Apply(u, b), [c, d]);
  }

  // ----- Segments that are sent ----------------------------------------------------------------

  ghost function Joined(segs: seq<Segment>): seq<Byte>
  {
    if segs == [] then [] else segs[0].payload + Joined(segs[1..])
  }

  /** The segments of `tcp_conn_send` hold the data in order and without a gap, all but the last of full
      size, and their numbers say so. */
  lemma {:induction false} FragmentsLayout(v: View, flags: Flags, data: seq<Byte>, mtu: nat)
    requires mtu > 0
    ensures var f := Fragments(v, flags, data, mtu);
            && Joined(f) == data
            && forall i :: 0 <= i < |f| ==>
                 && 0 < |f[i].payload| <= mtu && (i + 1 < |f| ==> |f[i].payload| == mtu)
                 && f[i].seqNum == Plus(v.next, i * mtu)
                 && f[i].ackNum == v.rcv && f[i].flags == flags && f[i].window == 8192
    decreases |data|
  {
    hide Plus;
    if data != [] {
      var n := Min(|data|, mtu);
      var v' := v.(next := Plus(v.next, n));
      FragmentsLayout(v', flags, data[n..], mtu);
      var f, rest := Fragments(v, flags, data, mtu), Fragments(v', flags, data[n..], mtu);
      assert f[1..] == rest && data[..n] + data[n..] == data;
      PlusZero(v.next);
      forall i | 1 <= i < |f|
        ensures f[i] == rest[i - 1] && Plus(v'.next, (i - 1) * mtu) == Plus(v.next, i * mtu) && n == mtu
      {
        PlusPlus(v.next, mtu, (i - 1) * mtu);
        assert mtu + (i - 1) * mtu == i * mtu;
      }
    }
  }
}
