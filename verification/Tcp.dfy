/** src/net/tcp.c: a connection that was created by a SYN, with its receive ring and the segments it
    sends. */
module TcpModel {
  import opened Common
  import opened Buffers
  import opened TcpSpec
  import TcpLaws

  /** Routing, buffers and the IP layer below a connection. The `k`-th segment handed down is lost
      to an error when `fate(k)` says so. `foreign` tells that the route to the peer leaves through
      an interface with another address, in which case every segment gets the RST flag. */
  const TCP_HEADER_LEN := 20

  /** What the layers below report for a segment with fate `f`. */
  function Sent(f: Option<Errno>): Result<()>
  {
    match f
    case None => Ok(())
    case Some(e) => Err(e)
  }

  class Net {
    const fate: nat -> Option<Errno>
    const foreign: bool
    var calls: nat
    var sent: seq<Segment>

    constructor (fate: nat -> Option<Errno>, foreign: bool)
      ensures this.fate == fate && this.foreign == foreign && calls == 0 && sent == []
    {
      this.fate, this.foreign := fate, foreign;
      calls, sent := 0, [];
    }

    function Stamp(flags: Flags): Flags
    {
      flags.(rst := flags.rst || foreign)
    }

    /** `tcp_send_segment_raw` */
    method Transmit(seg: Segment) returns (r: Result<()>)
      modifies this
      ensures calls == old(calls) + 1
      ensures r == Sent(fate(old(calls)))
      ensures sent == old(sent) + if r.Ok? then [seg.(flags := Stamp(seg.flags))] else []
      ensures r.Ok? ==>
                var f := sent[|old(sent)|].flags;
                && (f.rst <==> seg.flags.rst || foreign)
                && f.fin == seg.flags.fin && f.syn == seg.flags.syn && f.ack == seg.flags.ack
    {
      var f := fate(calls);
      calls := calls + 1;
      match f {
        case Some(e) => return Err(e);
        case None =>
          sent := sent + [seg.(flags := Stamp(seg.flags))];
          return Ok(());
      }
    }
  }

  /** `struct tcp_conn` without addresses and ports. */
  class Conn {
    var isUsed: bool
    var state: State
    var sendUnack: U32
    var sendNext: U32
    var sendWindow: U16
    var iss: U32
    var recvNext: U32
    var recvWindow: U16
    var recvBuf: CircBuf?
    var timeWaitStart: nat
    ghost var stored: seq<Byte>
    ghost var delivered: seq<Byte>
    ghost var fin: bool

    ghost function Repr(): set<object>
      reads this
    {
      {this} + if recvBuf == null then {} else {recvBuf, recvBuf.data}
    }

    ghost predicate Valid()
      reads Repr()
    {
      && recvWindow == WINDOW
      && delivered <= stored && (state.SynRcvd? ==> stored == [])
      && (recvBuf != null <==> isUsed && !state.SynRcvd?)
      && (recvBuf != null ==>
            recvBuf.Valid() && recvBuf.data.Length == WINDOW && recvBuf.Contents() == stored[|delivered|..])
    }

    ghost function Now(): View
      reads this
    {
      View(isUsed, state, sendUnack, sendNext, sendWindow, recvNext, stored, delivered, fin)
    }

    /** The part of `tcp_handle_receive_listen` that sets up the new connection. */
    constructor (isn: U32, seg: Segment)
      ensures Valid() && fresh(Repr())
      ensures Now() == View(true, SynRcvd, isn, isn, 0, Plus(seg.seqNum, 1), [], [], false)
      ensures iss == isn
    {
      isUsed, state := true, SynRcvd;
      iss, sendUnack, sendNext, sendWindow := isn, isn, isn, 0;
      recvNext, recvWindow, recvBuf := Plus(seg.seqNum, 1), WINDOW, null;
      timeWaitStart := 0;
      stored, delivered, fin := [], [], false;
    }

    /** `tcp_free_conn` */
    method Free()
      requires Valid()
      modifies this`isUsed, this`recvBuf
      ensures Valid() && Now() == old(Now()).(used := false) && Repr() <= old(Repr())
    {
      recvBuf := null;
      isUsed := false;
    }

    // ----- State updates -----------------------------------------------------------------------

    /** `tcp_conn_update_send_state` */
    method UpdateSend(seg: Segment)
      modifies this`sendUnack, this`sendWindow
      ensures Now() == Acknowledged(old(Now()), seg)
      ensures sendUnack == if seg.flags.ack then Max(seg.ackNum, old(sendUnack)) else old(sendUnack)
      ensures sendWindow == seg.window
    {
      if seg.flags.ack {
        if SeqGt(seg.ackNum, sendUnack) {
          sendUnack := seg.ackNum;
        }
      }
      sendWindow := seg.window;
    }

    /** `tcp_conn_update_recv_state` */
    method UpdateRecv(seg: Segment) returns (n: nat)
      requires Valid() && recvBuf != null
      modifies this`recvNext, this`stored, this`fin, recvBuf, recvBuf.data
      ensures Valid() && Now() == Received(old(Now()), seg)
      ensures n == if TakesData(old(Now()), seg) then |seg.payload| else 0
    {
      hide Plus, Ring;
      PlusZero(recvNext);
      PlusPlus(recvNext, |seg.payload|, 1);
      NoWrap(recvNext, |seg.payload|);
      if |seg.payload| > 0 {
        if seg.seqNum != recvNext {
          return 0;
        }
        var res := recvBuf.Write(seg.payload);
        if !res.Ok? {
          return 0;
        }
        recvNext := Plus(recvNext, |seg.payload|);
        stored := stored + seg.payload;
      }
      if seg.flags.fin {
        if seg.seqNum + |seg.payload| != recvNext {
          return |seg.payload|;
        }
        recvNext := Plus(recvNext, 1);
        fin := true;
      }
      return |seg.payload|;
    }

    /** The closing states update both directions. */
    method UpdateBoth(seg: Segment)
      requires Valid() && recvBuf != null
      modifies this`sendUnack, this`sendWindow, this`recvNext, this`stored, this`fin, recvBuf, recvBuf.data
      ensures Valid() && Now() == Received(Acknowledged(old(Now()), seg), seg)
    {
      hide Received;
      UpdateSend(seg);
      var _ := UpdateRecv(seg);
    }

    // ----- Sending -----------------------------------------------------------------------------

    /** Exactly one segment was sent, which carries `payload` from the number that the connection had
        reached, and acknowledges everything that it has taken by now. */
    twostate predicate SentOne(net: Net, fin: bool, syn: bool, payload: seq<Byte>)
      reads this, net
    {
      && |net.sent| == |old(net.sent)| + 1 && net.sent[..|old(net.sent)|] == old(net.sent)
      && var s := net.sent[|old(net.sent)|];
      && s.seqNum == old(sendNext) && s.ackNum == recvNext && s.window == 8192 && s.payload == payload
      && s.flags.ack && s.flags.fin == fin && s.flags.syn == syn && s.flags.rst == net.foreign
    }

    /** `tcp_send_segment`: at most as much as the peer's window has room for. */
    method SendSegment(flags: Flags, payload: seq<Byte>, net: Net) returns (r: Result<nat>)
      requires recvWindow == WINDOW
      modifies this`sendNext, net
      ensures net.calls == old(net.calls) + 1
      ensures net.fate(old(net.calls)).None? ==>
                var n := Min(Avail(sendWindow, sendUnack, old(sendNext)), |payload|);
                && r == Ok(n)
                && net.sent == old(net.sent) + [Outgoing(old(Now()), net.Stamp(flags), payload[..n])]
                && sendNext == Plus(old(sendNext), n + (if flags.syn then 1 else 0) + if flags.fin then 1 else 0)
      ensures net.fate(old(net.calls)).Some? ==>
                r == Err(net.fate(old(net.calls)).value) && net.sent == old(net.sent) && sendNext == old(sendNext)
      ensures r.Ok? && flags.ack && !flags.rst ==> SentOne(net, flags.fin, flags.syn, payload[..r.value])
    {
      hide Plus, Avail;
      PlusZero(sendNext);
      var n: nat := Min(Avail(sendWindow, sendUnack, sendNext), |payload|);
      PlusPlus(sendNext, n, 1);
      PlusPlus(sendNext, n + 1, 1);
      var res := net.Transmit(Segment(sendNext, recvNext, flags, recvWindow, payload[..n]));
      if !res.Ok? {
        return res.Failure();
      }
      sendNext := Plus(sendNext, n);
      if flags.syn {
        sendNext := Plus(sendNext, 1);
      }
      if flags.fin {
        sendNext := Plus(sendNext, 1);
      }
      return Ok(n);
    }

    /** `tcp_send_segment_empty` */
    method SendEmpty(flags: Flags, net: Net) returns (r: Result<()>)
      requires recvWindow == WINDOW
      modifies this`sendNext, net
      ensures net.calls == old(net.calls) + 1
      ensures r == Sent(net.fate(old(net.calls)))
      ensures net.sent == old(net.sent) + if r.Ok? then [Outgoing(old(Now()), net.Stamp(flags), [])] else []
      ensures sendNext ==
                if r.Ok? && (flags.syn || flags.fin)
                then Plus(old(sendNext), (if flags.syn then 1 else 0) + if flags.fin then 1 else 0)
                else old(sendNext)
      ensures r.Ok? && flags.ack && !flags.rst ==> SentOne(net, flags.fin, flags.syn, [])
    {
      hide Plus, Avail;
      PlusZero(sendNext);
      var res := SendSegment(flags, [], net);
      if !res.Ok? {
        return res.Failure();
      }
      return Ok(());
    }

    // ----- Incoming segments -------------------------------------------------------------------

    /** The connection and the layers below after a segment, which `r` tells the caller about. */
    twostate predicate Handled(seg: Segment, memory: bool, net: Net, new r: Result<()>)
      reads Repr(), net
    {
      && Valid()
      && Now() == OnSegment(old(Now()), seg, memory)
      && match Answer(old(Now()), seg, memory)
         case None => r == Ok(()) && net.calls == old(net.calls) && net.sent == old(net.sent)
         case Some(flags) =>
           var lower := Sent(net.fate(old(net.calls)));
           && r == (if flags.rst then Err(ENOMEM) else lower)
           && net.calls == old(net.calls) + 1
           && net.sent == old(net.sent) + if lower.Ok? then [Outgoing(Now(), net.Stamp(flags), [])] else []
    }

    /** The segment took effect in a way that the peer has to be told of: its bytes were stored, or it
        ends the peer's stream. */
    twostate predicate MustAnswer(seg: Segment)
      reads this
    {
      && !seg.flags.rst
      && if old(state).Established? then seg.flags.fin || |stored| > |old(stored)|
         else seg.flags.fin && (old(state).FinWait1? || old(state).FinWait2?)
    }

    /** A segment with a FIN takes the connection to the closing state `s` and is answered. */
    method CloseOn(s: State, seg: Segment, net: Net) returns (r: Result<()>)
      requires Valid() && recvBuf != null && isUsed && !s.SynRcvd?
      modifies this`state, this`sendUnack, this`sendWindow, this`sendNext, this`recvNext, this`stored, this`fin
      modifies recvBuf, recvBuf.data, net
      ensures Valid() && Now() == Received(Acknowledged(old(Now()), seg), seg).(state := s)
      ensures net.calls == old(net.calls) + 1 && r == Sent(net.fate(old(net.calls)))
      ensures net.sent == old(net.sent) + if r.Ok? then [Outgoing(Now(), net.Stamp(ACK), [])] else []
      ensures r.Ok? ==> SentOne(net, false, false, [])
    {
      hide Plus, Avail, Received, Acknowledged;
      StateAside(Now(), seg, s);
      state := s;
      UpdateBoth(seg);
      r := SendAck(net);
    }

    /** `tcp_send_segment_empty` with only the ACK flag, which leaves the connection as it is. */
    method SendAck(net: Net) returns (r: Result<()>)
      requires recvWindow == WINDOW
      modifies this`sendNext, net
      ensures Now() == old(Now()) && net.calls == old(net.calls) + 1 && r == Sent(net.fate(old(net.calls)))
      ensures net.sent == old(net.sent) + if r.Ok? then [Outgoing(Now(), net.Stamp(ACK), [])] else []
      ensures r.Ok? ==> SentOne(net, false, false, [])
    {
      hide Plus, Avail;
      r := SendEmpty(ACK, net);
    }

    method HandleSynRcvd(seg: Segment, memory: bool, net: Net) returns (r: Result<()>)
      requires Valid() && isUsed && state.SynRcvd?
      modifies Repr(), net
      ensures Handled(seg, memory, net, r) && fresh(Repr() - old(Repr()))
    {
      hide Plus, Avail;
      if seg.flags.rst {
        Free();
        return Ok(());
      }
      if !seg.flags.ack {
        return Ok(());
      }
      UpdateSend(seg);
      if !memory {
        var _ := SendEmpty(RST, net);
        Free();
        return Err(ENOMEM);
      }
      recvBuf := new CircBuf(recvWindow);
      state := Established;
      return Ok(());
    }

    method HandleEstablished(seg: Segment, net: Net) returns (r: Result<()>)
      requires Valid() && isUsed && state.Established?
      modifies Repr(), net
      ensures Handled(seg, true, net, r) && Repr() == old(Repr())
      ensures !seg.flags.rst && (seg.flags.fin || |stored| > |old(stored)|) && net.fate(old(net.calls)).None? ==>
                SentOne(net, false, false, [])
    {
      hide Plus, Avail;
      UpdateSend(seg);
      var received := UpdateRecv(seg);
      if seg.flags.rst {
        state := Reset;
        return Ok(());
      }
      if seg.flags.fin {
        state := CloseWait;
        r := SendAck(net);
        return r;
      }
      if received > 0 {
        r := SendAck(net);
        return r;
      }
      return Ok(());
    }

    method HandleLastAck(seg: Segment)
      requires Valid() && isUsed && state.LastAck?
      modifies this
      ensures Valid() && Now() == OnSegment(old(Now()), seg, true) && Repr() <= old(Repr())
    {
      if seg.flags.ack || seg.flags.rst {
        Free();
      }
    }

    method HandleFinWait1(seg: Segment, now: nat, net: Net) returns (r: Result<()>)
      requires Valid() && isUsed && state.FinWait1?
      modifies Repr(), net
      ensures Handled(seg, true, net, r) && Repr() <= old(Repr())
      ensures !seg.flags.rst && seg.flags.fin && net.fate(old(net.calls)).None? ==> SentOne(net, false, false, [])
      ensures state.TimeWait? ==> timeWaitStart == now
    {
      hide Plus, Avail, Received, Acknowledged, TakesData, TakesFin;
      if seg.flags.rst {
        Free();
        return Ok(());
      }
      if seg.flags.fin && seg.flags.ack {
        timeWaitStart := now;
        r := CloseOn(TimeWait, seg, net);
        return r;
      } else if seg.flags.fin {
        r := CloseOn(Closing, seg, net);
        return r;
      } else if seg.flags.ack {
        StateAside(Now(), seg, FinWait2);
        state := FinWait2;
        UpdateBoth(seg);
        return Ok(());
      }
      return Ok(());
    }

    method HandleFinWait2(seg: Segment, now: nat, net: Net) returns (r: Result<()>)
      requires Valid() && isUsed && state.FinWait2?
      modifies Repr(), net
      ensures Handled(seg, true, net, r) && Repr() <= old(Repr())
      ensures !seg.flags.rst && seg.flags.fin && net.fate(old(net.calls)).None? ==> SentOne(net, false, false, [])
      ensures state.TimeWait? ==> timeWaitStart == now
    {
      hide Plus, Avail, Received, Acknowledged, TakesData, TakesFin;
      if seg.flags.rst {
        Free();
        return Ok(());
      }
      if !seg.flags.fin {
        return Ok(());
      }
      timeWaitStart := now;
      r := CloseOn(TimeWait, seg, net);
    }

    method HandleClosing(seg: Segment, now: nat)
      requires Valid() && isUsed && state.Closing?
      modifies this
      ensures Valid() && Now() == OnSegment(old(Now()), seg, true) && Repr() <= old(Repr())
      ensures state.TimeWait? ==> timeWaitStart == now
    {
      hide Plus, Avail;
      if seg.flags.rst {
        Free();
        return;
      }
      if !seg.flags.ack {
        return;
      }
      state, timeWaitStart := TimeWait, now;
      UpdateSend(seg);
    }

    /** `tcp_handle_receive_time_wait`, which no segment reaches: see HandlePacket. */
    method HandleTimeWait(seg: Segment, net: Net) returns (r: Result<()>)
      requires Valid() && isUsed && state.TimeWait?
      modifies Repr(), net
      ensures Handled(seg, true, net, r) && Repr() <= old(Repr())
    {
      hide Plus, Avail;
      if seg.flags.rst {
        Free();
        return Ok(());
      }
      UpdateBoth(seg);
      if !seg.flags.fin {
        return Ok(());
      }
      r := SendAck(net);
    }

    /** `tcp_purge_old_conn`, at a reading `now` of the clock. */
    method Purge(now: nat)
      requires Valid() && isUsed
      modifies this`isUsed, this`recvBuf
      ensures Valid() && Repr() <= old(Repr())
      ensures Now() == old(Now()).(used := !(state.TimeWait? && now >= timeWaitStart))
    {
      if state.TimeWait? && now >= timeWaitStart {
        Free();
      }
    }

    /** `tcp_handle_packet`, for a segment with the addresses of this connection. The lookup purges first,
        at a reading `purged` of the clock, and line 235 compares with the start of TIME_WAIT, not
        with its end. So with a clock that does not go back, no segment finds a connection in
        TIME_WAIT: its arrival frees the connection. */
    method HandlePacket(seg: Segment, memory: bool, purged: nat, now: nat, net: Net)
      returns (r: Result<()>, found: bool)
      requires Valid() && isUsed
      requires state.TimeWait? ==> timeWaitStart <= purged
      modifies Repr(), net
      ensures found <==> !old(state).TimeWait?
      ensures found ==> Handled(seg, memory, net, r) && fresh(Repr() - old(Repr()))
      ensures found && MustAnswer(seg) && net.fate(old(net.calls)).None? ==> SentOne(net, false, false, [])
      ensures found && state.TimeWait? ==> timeWaitStart == now
      ensures !found ==>
                && Valid() && Repr() <= old(Repr()) && Now() == old(Now()).(used := false)
                && net.calls == old(net.calls) && net.sent == old(net.sent)
    {
      hide OnSegment, Answer, Plus, Avail;
      Purge(purged);
      if !isUsed {
        return Ok(()), false;
      }
      found := true;
      r := Dispatch(seg, memory, now, net);
    }

    /** The `switch` of `tcp_handle_packet`. */
    method Dispatch(seg: Segment, memory: bool, now: nat, net: Net) returns (r: Result<()>)
      requires Valid() && isUsed && !state.TimeWait?
      modifies Repr(), net
      ensures Handled(seg, memory, net, r) && fresh(Repr() - old(Repr()))
      ensures MustAnswer(seg) && net.fate(old(net.calls)).None? ==> SentOne(net, false, false, [])
      ensures state.TimeWait? ==> timeWaitStart == now
    {
      hide Plus, Avail;
      match state {
        case SynRcvd => r := HandleSynRcvd(seg, memory, net);
        case Established => r := HandleEstablished(seg, net);
        case CloseWait | Reset => r := Ok(());
        case LastAck => HandleLastAck(seg); r := Ok(());
        case FinWait1 => r := HandleFinWait1(seg, now, net);
        case FinWait2 => r := HandleFinWait2(seg, now, net);
        case Closing => HandleClosing(seg, now); r := Ok(());
        case TimeWait => assert false;
      }
    }

    // ----- User interface ----------------------------------------------------------------------

    /** `tcp_conn_closed_by_peer` */
    predicate ClosedByPeer()
      reads this
    {
      state.CloseWait? || state.Reset?
    }

    /** The first `done` bytes of `payload` have been sent, in segments of `mtu` bytes, since the connection
        was `v` and `sent` had been sent. */
    ghost predicate SentPrefix(v: View, sent: seq<Segment>, payload: seq<Byte>, mtu: nat, net: Net, done: nat)
      reads this, net
    {
      && done <= |payload|
      && Now() == v.(next := Plus(v.next, done))
      && net.sent == sent + Fragments(v, net.Stamp(ACK), payload[..done], mtu)
    }

    /** `tcp_conn_send`, where `route` is the result of `ipv4_route_mtu`. With room in the window and
        an MTU that leaves none for data, the loop would not end. */
    method Send(payload: seq<Byte>, route: Result<nat>, net: Net)
      returns (r: Result<nat>, peerClosed: bool, ghost done: nat)
      requires recvWindow == WINDOW
      requires route.Ok? && payload != [] ==>
                 route.value > TCP_HEADER_LEN || Avail(sendWindow, sendUnack, sendNext) == 0
      modifies this`sendNext, net
      ensures peerClosed == ClosedByPeer()
      ensures !route.Ok? ==> r == route && done == 0
      ensures SentPrefix(old(Now()), old(net.sent), payload, Mtu(route), net, done)
      ensures route.Ok? ==>
                var all := Min(Avail(sendWindow, sendUnack, old(sendNext)), |payload|);
                match r
                case Ok(n) => n == done == all
                case Err(e) => done < all && net.calls > 0 && net.fate(net.calls - 1) == Some(e)
                case Crashed => false
      ensures old(net.sent) <= net.sent && sendNext == Plus(old(sendNext), done)
      ensures InSegments(net.sent[|old(net.sent)|..], payload[..done], route, net.foreign)
    {
      hide Plus, Avail, Fragments, Whole, InSegments;
      ghost var v, sent := Now(), net.sent;
      FragmentsNone(v, net.Stamp(ACK), Mtu(route));
      peerClosed := ClosedByPeer();
      done := 0;
      PlusZero(sendNext);
      FragmentsMean(v, sent, payload, route, net, 0);
      if !route.Ok? {
        return route, peerClosed, 0;
      }
      var mtu := Mtu(route);
      WholeNone(mtu);
      var nSent, i: nat := 0, 0;
      while i < |payload|
        invariant nSent == done == Min(i, |payload|) && (i < |payload| ==> Whole(i, mtu))
        invariant mtu == 0 ==> i == 0
        invariant SentPrefix(v, sent, payload, mtu, net, done)
        invariant sent <= net.sent && InSegments(net.sent[|sent|..], payload[..done], route, net.foreign)
        invariant done <= Avail(sendWindow, sendUnack, v.next)
        decreases |payload| - i
      {
        var res, more := SendFragment(payload, i, mtu, net, v, sent);
        if res.Ok? {
          nSent, done := nSent + res.value, done + res.value;
        }
        FragmentsMean(v, sent, payload, route, net, done);
        if !res.Ok? {
          return res, peerClosed, done;
        }
        if !more {
          return Ok(nSent), peerClosed, done;
        }
        WholeNext(i, mtu);
        i := i + mtu;
      }
      return Ok(nSent), peerClosed, done;
    }

    /** `segs` carry `data` in order, in pieces that fit the packets of the route, and acknowledge what this
        side has taken. */
    ghost predicate InSegments(segs: seq<Segment>, data: seq<Byte>, route: Result<nat>, foreign: bool)
      reads this
    {
      && TcpLaws.Joined(segs) == data
      && (segs != [] ==> route.Ok?)
      && forall s :: s in segs ==>
           && 0 < |s.payload| <= route.value - 20 && s.ackNum == recvNext
           && s.flags == Flags(false, false, foreign, true)
    }

    lemma FragmentsMean(v: View, sent: seq<Segment>, payload: seq<Byte>, route: Result<nat>, net: Net, done: nat)
      requires SentPrefix(v, sent, payload, Mtu(route), net, done) && (done == 0 || Mtu(route) > 0)
      ensures sent <= net.sent && InSegments(net.sent[|sent|..], payload[..done], route, net.foreign)
    {
      var more := Fragments(v, net.Stamp(ACK), payload[..done], Mtu(route));
      assert net.sent[|sent|..] == more;
      if done > 0 {
        TcpLaws.FragmentsLayout(v, net.Stamp(ACK), payload[..done], Mtu(route));
      }
    }

    /** One round of the loop, at byte `i`. Without `more` the window is full. */
    method SendFragment(payload: seq<Byte>, i: nat, mtu: nat, net: Net, ghost v: View, ghost sent: seq<Segment>)
      returns (r: Result<nat>, more: bool)
      requires recvWindow == WINDOW && i < |payload| && Whole(i, mtu)
      requires SentPrefix(v, sent, payload, mtu, net, i) && i <= Avail(sendWindow, sendUnack, v.next)
      requires mtu > 0 || (i == 0 && Avail(sendWindow, sendUnack, v.next) == 0)
      modifies this`sendNext, net
      ensures r.Ok? || r.Err?
      ensures SentPrefix(v, sent, payload, mtu, net, i + if r.Ok? then r.value else 0)
      ensures r.Ok? ==> i + r.value <= Avail(sendWindow, sendUnack, v.next)
      ensures r.Ok? && more ==> r.value == Min(|payload| - i, mtu) && mtu > 0
      ensures r.Ok? && !more ==> i + r.value == Avail(sendWindow, sendUnack, v.next) < |payload|
      ensures r.Err? ==>
                && i < Avail(sendWindow, sendUnack, v.next)
                && net.calls > 0 && net.fate(net.calls - 1) == Some(r.code)
    {
      hide Plus, Avail, Fragments, Whole;
      AvailAfter(sendWindow, sendUnack, v.next, i);
      if Avail(sendWindow, sendUnack, sendNext) == 0 {
        return Ok(0), false;
      }
      var fragment := payload[i..i + Min(|payload| - i, mtu)];
      r := SendSegment(ACK, fragment, net);
      if !r.Ok? {
        return r, false;
      }
      NextFragment(v, net.Stamp(ACK), payload, i, mtu, r.value);
      return r, r.value == |fragment|;
    }

    /** The room for data in a packet of the route's size. */
    function Mtu(route: Result<nat>): nat
    {
      if route.Ok? then Max(0, route.value - TCP_HEADER_LEN) else 0
    }

    /** The rounds of the same loop while the window is open, when the MTU leaves no room for data: each
        sends an empty segment and makes no progress, so the loop ends only if sending fails. */
    method SendWithoutRoom(payload: seq<Byte>, route: nat, rounds: nat, net: Net) returns (r: Option<Result<nat>>)
      requires recvWindow == WINDOW && payload != []
      requires route <= TCP_HEADER_LEN && Avail(sendWindow, sendUnack, sendNext) > 0
      modifies this`sendNext, net
      ensures Now() == old(Now())
      ensures r.None? <==> forall k: nat :: old(net.calls) <= k < old(net.calls) + rounds ==> net.fate(k).None?
      ensures r.Some? ==> r.value.Err? && net.calls > 0 && net.fate(net.calls - 1) == Some(r.value.code)
      ensures r.None? ==> var empty := Outgoing(Now(), net.Stamp(ACK), []);
                          net.sent == old(net.sent) + seq(rounds, _ => empty)
    {
      hide Plus, Avail;
      PlusZero(sendNext);
      var mtu := Mtu(Ok(route));
      ghost var empty := Outgoing(Now(), net.Stamp(ACK), []);
      var i, round: nat := 0, 0;
      while round < rounds
        invariant i == 0 && round <= rounds && Now() == old(Now()) && net.calls == old(net.calls) + round
        invariant forall k: nat :: old(net.calls) <= k < old(net.calls) + round ==> net.fate(k).None?
        invariant net.sent == old(net.sent) + seq(round, _ => empty)
      {
        var fragment := payload[i..i + Min(|payload| - i, mtu)];
        var res := SendSegment(ACK, fragment, net);
        if !res.Ok? {
          return Some(res);
        }
        i := i + mtu;
        round := round + 1;
      }
      return None;
    }

    /** `tcp_conn_recv` returns the number of bytes that were waiting, even when fewer fit in `dest`. */
    method Recv(dest: ByteBuf) returns (n: nat, peerClosed: bool)
      requires Valid() && isUsed && UserHolds(state)
      requires dest.Valid() && dest.dat !in Repr()
      modifies this`delivered, recvBuf, dest, dest.dat
      ensures Valid() && dest.Valid() && peerClosed == ClosedByPeer()
      ensures n == |old(stored)| - |old(delivered)|
      ensures Now() == OnRead(old(Now()), dest.dat.Length - old(dest.len))
      ensures dest.Contents() == old(dest.Contents()) + delivered[|old(delivered)|..]
      ensures delivered == old(stored)[..|old(delivered)| + Min(old(dest.dat.Length - dest.len), n)]
    {
      peerClosed := ClosedByPeer();
      n := recvBuf.Count();
      if n == 0 {
        return;
      }
      var m := recvBuf.Read(dest);
      delivered := stored[..|delivered| + m];
    }

    method Close(net: Net) returns (r: Result<()>)
      requires Valid() && isUsed
      modifies this, net
      ensures Valid() && Repr() <= old(Repr())
      ensures var before := old(Now());
              if before.state.Established? || before.state.CloseWait? then
                && net.calls == old(net.calls) + 1
                && r == Sent(net.fate(old(net.calls)))
                && Now() == OnClose(before, r.Ok?)
                && net.sent == old(net.sent) + if r.Ok? then [Outgoing(before, net.Stamp(FIN_ACK), [])] else []
              else
                && r == Ok(()) && Now() == OnClose(before, true)
                && net.calls == old(net.calls) && net.sent == old(net.sent)
      ensures old(state).Established? ==> state == FinWait1 && isUsed
      ensures old(state).CloseWait? ==> state == LastAck && isUsed
      ensures (old(state).Established? || old(state).CloseWait?) && r.Ok? ==>
                SentOne(net, true, false, []) && sendNext == Plus(old(sendNext), 1)
      ensures old(state).SynRcvd? || old(state).Reset? ==> !isUsed
    {
      if state.SynRcvd? || state.Reset? {
        Free();
        return Ok(());
      }
      if state.Established? {
        state := FinWait1;
        r := SendEmpty(FIN_ACK, net);
        return r;
      }
      if state.CloseWait? {
        state := LastAck;
        r := SendEmpty(FIN_ACK, net);
        return r;
      }
      return Ok(());
    }
  }

  /** Sending `n` bytes takes as much from the window. */
  lemma AvailAfter(window: U16, unack: U32, next: U32, n: nat)
    requires n <= Avail(window, unack, next)
    ensures Avail(window, unack, Plus(next, n)) == Avail(window, unack, next) - n
  {
  }

  /** `tcp_handle_receive_listen`. `slot` tells whether the table has a free entry, and `isn` is the random
      number, if the processor delivers one. Without it, `tcp_free_conn` (line 325) unlinks the new
      connection from a queue that only line 336 would have set up, which crashes. */
  method HandleListen(seg: Segment, slot: bool, isn: Option<U32>, net: Net) returns (r: Result<()>, conn: Conn?)
    modifies net
    ensures conn != null <==> !seg.flags.rst && seg.flags.syn && slot && isn.Some?
    ensures conn == null ==>
              && r == (if seg.flags.rst || !seg.flags.syn then Ok(()) else if !slot then Err(ENOMEM) else Crashed)
              && net.sent == old(net.sent)
    ensures conn != null ==>
              && fresh(conn.Repr()) && conn.Valid() && r == Sent(net.fate(old(net.calls)))
              && conn.Now() == Opened(seg, isn.value, r.Ok?)
              && net.sent == old(net.sent) +
                   if r.Ok? then [Outgoing(Opened(seg, isn.value, false), net.Stamp(SYN_ACK), [])] else []
    ensures conn != null ==>
              && conn.isUsed && conn.state == SynRcvd && conn.recvNext == Plus(seg.seqNum, 1)
              && conn.sendUnack == isn.value && conn.sendNext == (if r.Ok? then Plus(isn.value, 1) else isn.value)
    ensures conn != null && r.Ok? ==>
              && |net.sent| == |old(net.sent)| + 1
              && net.sent[|old(net.sent)|] ==
                  Segment(isn.value, Plus(seg.seqNum, 1), Flags(false, true, net.foreign, true), 8192, [])
  {
    conn := null;
    if seg.flags.rst {
      return Ok(()), null;
    }
    if !seg.flags.syn {
      return Ok(()), null;
    }
    if !slot {
      return Err(ENOMEM), null;
    }
    match isn {
      case None => return Crashed, null;
      case Some(n) =>
        conn := new Conn(n, seg);
        r := conn.SendEmpty(SYN_ACK, net);
    }
  }
}
