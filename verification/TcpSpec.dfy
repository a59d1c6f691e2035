/** What a connection of src/net/tcp.c does, as functions on its observable state: sequence numbers,
    the state diagram, and the effect of segments and of user calls. The class in Tcp.dfy is proved
    to behave like this; the theorems about whole runs are in TcpTheorems.dfy. */
module TcpSpec {
  import opened Common

  const MOD: nat := 0x1_0000_0000
  const WINDOW: nat := 0x2000

  type U32 = n: nat | n < 0x1_0000_0000
  type U16 = n: nat | n < 0x1_0000

  function Plus(a: U32, n: int): U32 { (a + n) % MOD }

  datatype Flags = Flags(fin: bool, syn: bool, rst: bool, ack: bool)

  const ACK := Flags(false, false, false, true)
  const FIN_ACK := Flags(true, false, false, true)
  const SYN_ACK := Flags(false, true, false, true)
  const RST := Flags(false, false, true, false)

  datatype Segment = Segment(seqNum: U32, ackNum: U32, flags: Flags, window: U16, payload: seq<Byte>)

  datatype State =
    SynRcvd | Established | CloseWait | LastAck | FinWait1 | FinWait2 | Closing | TimeWait | Reset

  /** `seq_gt` compares plain integers. */
  predicate SeqGt(a: U32, b: U32) { a > b }

  /** `tcp_send_window_avail` */
  function Avail(window: U16, unack: U32, next: U32): U32 { (window + unack - next) % MOD }

  // ----- The observable state of a connection --------------------------------------------------

  /** `stored` are all bytes ever put in the ring, `delivered` those that the user has read;
      `fin` tells whether a FIN was counted in `rcv`. */
  datatype View = View(
    used: bool, state: State,
    unack: U32, next: U32, window: U16,
    rcv: U32, stored: seq<Byte>, delivered: seq<Byte>, fin: bool)

  function Room(v: View): int { WINDOW - 1 - (|v.stored| - |v.delivered|) }

  /** The states in which the user still holds the connection. */
  predicate UserHolds(s: State) { s.Established? || s.CloseWait? || s.Reset? }

  // ----- Segments ------------------------------------------------------------------------------

  /** The state after a segment with flags `f`; `None` when the connection is freed. `memory` tells
      whether the receive buffer can be allocated. */
  function NextState(s: State, f: Flags, memory: bool): Option<State>
  {
    match s
    case SynRcvd => if f.rst || (f.ack && !memory) then None else if f.ack then Some(Established) else Some(s)
    case Established => Some(if f.rst then Reset else if f.fin then CloseWait else s)
    case CloseWait | Reset => Some(s)
    case LastAck => if f.ack || f.rst then None else Some(s)
    case FinWait1 =>
      if f.rst then None
      else Some(if f.fin && f.ack then TimeWait else if f.fin then Closing else if f.ack then FinWait2 else s)
    case FinWait2 => if f.rst then None else Some(if f.fin then TimeWait else s)
    case Closing => if f.rst then None else Some(if f.ack then TimeWait else s)
    case TimeWait => if f.rst then None else Some(s)
  }

  /** Whether the segment's acknowledgement and window are looked at. */
  predicate UsesAck(s: State, f: Flags)
  {
    match s
    case SynRcvd | Closing => !f.rst && f.ack
    case Established => true
    case FinWait1 => !f.rst && (f.fin || f.ack)
    case FinWait2 => !f.rst && f.fin
    case TimeWait => !f.rst
    case CloseWait | LastAck | Reset => false
  }

  /** Whether the segment's payload and FIN are looked at. */
  predicate UsesData(s: State, f: Flags)
  {
    UsesAck(s, f) && !s.SynRcvd? && !s.Closing?
  }

  /** A payload is taken when it starts at the next expected byte and fits in the ring. */
  predicate TakesData(v: View, seg: Segment)
  {
    seg.payload != [] && seg.seqNum == v.rcv && |seg.payload| <= Room(v)
  }

  /** A FIN is counted when it is in order, and the sequence numbers up to it do not wrap. */
  predicate TakesFin(v: View, seg: Segment)
  {
    && seg.flags.fin && seg.seqNum == v.rcv
    && (seg.payload == [] || |seg.payload| <= Room(v))
    && seg.seqNum + |seg.payload| < MOD
  }

  function Received(v: View, seg: Segment): View
  {
    var data := if TakesData(v, seg) then seg.payload else [];
    v.(stored := v.stored + data,
       rcv := Plus(v.rcv, |data| + if TakesFin(v, seg) then 1 else 0),
       fin := v.fin || TakesFin(v, seg))
  }

  function Acknowledged(v: View, seg: Segment): View
  {
    v.(unack := if seg.flags.ack && SeqGt(seg.ackNum, v.unack) then seg.ackNum else v.unack,
       window := seg.window)
  }

  lemma StateAside(v: View, seg: Segment, s: State)
    ensures Received(Acknowledged(v.(state := s), seg), seg) == Received(Acknowledged(v, seg), seg).(state := s)
  {
  }

  /** The effect of a segment on the connection. */
  function OnSegment(v: View, seg: Segment, memory: bool): View
  {
    var s := NextState(v.state, seg.flags, memory);
    var a := if UsesAck(v.state, seg.flags) then Acknowledged(v, seg) else v;
    var d := if UsesData(v.state, seg.flags) then Received(a, seg) else a;
    match s
    case None => d.(used := false)
    case Some(s) => d.(state := s)
  }

  /** The flags of the answer to a segment, if it is answered. */
  function Answer(v: View, seg: Segment, memory: bool): Option<Flags>
  {
    match v.state
    case SynRcvd => if !seg.flags.rst && seg.flags.ack && !memory then Some(RST) else None
    case Established => if !seg.flags.rst && (seg.flags.fin || TakesData(v, seg)) then Some(ACK) else None
    case FinWait1 | FinWait2 | TimeWait => if !seg.flags.rst && seg.flags.fin then Some(ACK) else None
    case CloseWait | LastAck | Closing | Reset => None
  }

  /** A segment from the connection: always with its own `next` and `rcv`. */
  function Outgoing(v: View, flags: Flags, payload: seq<Byte>): Segment
  {
    Segment(v.next, v.rcv, flags, WINDOW, payload)
  }

  /** The connection that a SYN creates; `sent` tells whether the answer could be sent. */
  function Opened(syn: Segment, isn: U32, sent: bool): View
  {
    View(true, SynRcvd, isn, if sent then Plus(isn, 1) else isn, 0, Plus(syn.seqNum, 1), [], [], false)
  }

  // ----- User calls ----------------------------------------------------------------------------

  function OnRead(v: View, room: nat): View
    requires |v.delivered| <= |v.stored|
  {
    v.(delivered := v.stored[..|v.delivered| + Min(room, |v.stored| - |v.delivered|)])
  }

  function OnClose(v: View, sent: bool): View
  {
    match v.state
    case SynRcvd | Reset => v.(used := false)
    case Established => v.(state := FinWait1, next := if sent then Plus(v.next, 1) else v.next)
    case CloseWait => v.(state := LastAck, next := if sent then Plus(v.next, 1) else v.next)
    case _ => v
  }

  /** `data` in consecutive segments of `mtu` bytes, the last of which may be shorter. */
  function Fragments(v: View, flags: Flags, data: seq<Byte>, mtu: nat): (r: seq<Segment>)
    decreases |data|
  {
    if data == [] || mtu == 0 then []
    else
      var n := Min(|data|, mtu);
      [Outgoing(v, flags, data[..n])] + Fragments(v.(next := Plus(v.next, n)), flags, data[n..], mtu)
  }

  lemma PlusPlus(a: U32, m: int, n: int)
    ensures Plus(Plus(a, m), n) == Plus(a, m + n)
  {
  }

  /** `done` is a multiple of `mtu`. */
  ghost predicate Whole(done: nat, mtu: nat)
  {
    done == 0 || (0 < mtu <= done && Whole(done - mtu, mtu))
  }

  lemma WholeNone(mtu: nat)
    ensures Whole(0, mtu)
  {
  }

  lemma WholeNext(done: nat, mtu: nat)
    requires Whole(done, mtu) && mtu > 0
    ensures Whole(done + mtu, mtu)
  {
  }

  lemma {:induction false} FragmentsAppend(v: View, flags: Flags, data: seq<Byte>, done: nat, mtu: nat)
    requires done < |data| && 0 < mtu && Whole(done, mtu)
    ensures var n := Min(|data| - done, mtu);
            Fragments(v, flags, data[..done + n], mtu) ==
              Fragments(v, flags, data[..done], mtu) +
              [Outgoing(v.(next := Plus(v.next, done)), flags, data[done..done + n])]
    decreases done
  {
    hide Plus, Fragments;
    var n := Min(|data| - done, mtu);
    if done == 0 {
      FragmentsLast(v, flags, data[..n], mtu);
      PlusZero(v.next);
      FragmentsNone(v, flags, mtu);
      assert data[..n][..n] == data[0..n] && data[..n][n..] == [];
    } else {
      var v', rest := v.(next := Plus(v.next, mtu)), data[mtu..];
      var upto, before := data[..done + n], data[..done];
      FragmentsAppend(v', flags, rest, done - mtu, mtu);
      PlusPlus(v.next, mtu, done - mtu);
      assert upto[..mtu] == data[..mtu] == before[..mtu];
      assert upto[mtu..] == rest[..done - mtu + n];
      assert before[mtu..] == rest[..done - mtu];
      assert rest[done - mtu..done - mtu + n] == data[done..done + n];
      FragmentsFirst(v, flags, upto, mtu);
      FragmentsFirst(v, flags, before, mtu);
    }
  }

  /** One round of `tcp_conn_send`, which gets `n` bytes of the next fragment into the window. */
  lemma NextFragment(v: View, flags: Flags, payload: seq<Byte>, i: nat, mtu: nat, n: nat)
    requires 0 < n <= mtu && i + n <= |payload| && Whole(i, mtu)
    ensures i + n <= i + Min(|payload| - i, mtu) <= |payload|
    ensures Plus(Plus(v.next, i), n) == Plus(v.next, i + n)
    ensures Fragments(v, flags, payload[..i + n], mtu) ==
              Fragments(v, flags, payload[..i], mtu) +
              [Outgoing(v.(next := Plus(v.next, i)), flags, payload[i..i + Min(|payload| - i, mtu)][..n])]
  {
    hide Fragments, Plus, Whole;
    var upto := payload[..i + n];
    FragmentsAppend(v, flags, upto, i, mtu);
    PlusPlus(v.next, i, n);
    assert upto[..i] == payload[..i] && upto[..i + n] == upto;
    assert upto[i..i + n] == payload[i..i + Min(|payload| - i, mtu)][..n];
  }

  lemma FragmentsNone(v: View, flags: Flags, mtu: nat)
    ensures Fragments(v, flags, [], mtu) == []
  {
  }

  lemma FragmentsLast(v: View, flags: Flags, data: seq<Byte>, mtu: nat)
    requires 0 < |data| <= mtu
    ensures Fragments(v, flags, data, mtu) == [Outgoing(v, flags, data)]
  {
    assert data[..|data|] == data && data[|data|..] == [];
  }

  lemma FragmentsFirst(v: View, flags: Flags, data: seq<Byte>, mtu: nat)
    requires 0 < mtu <= |data|
    ensures Fragments(v, flags, data, mtu) ==
              [Outgoing(v, flags, data[..mtu])] + Fragments(v.(next := Plus(v.next, mtu)), flags, data[mtu..], mtu)
  {
  }

  lemma NoWrap(a: U32, n: nat)
    ensures Plus(a, n) == a + n <==> a + n < MOD
  {
  }

  lemma PlusZero(a: U32)
    ensures Plus(a, 0) == a
  {
  }
}
