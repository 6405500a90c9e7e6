/**
 * The decidable logic of the multicast UDP transport: construction and copy,
 * the open/close/startListening/stopListening lifecycle, the socket-buffer
 * negotiation, the return conventions of send and recv, and the listener loop's
 * dispatch. Every system-call outcome is an input.
 */
module MulticastUdp {
  import opened Wrappers
  import opened MulticastConfig
  import opened Bits

  /**
   * A transport: its configuration plus the three facts the source keeps in
   * `fd`, `active` and `listener` (socket open, listening loop running, an
   * observer set).
   */
  datatype Transport = Transport(config: Config, fdOpen: bool, active: bool, hasListener: bool)

  /** The only way construction fails: a group address outside the accepted range. */
  datatype ConstructError = InvalidMulticastAddress

  /** A transport as a constructor leaves it: closed, not listening, no observer. */
  predicate IsFresh(t: Transport) {
    !t.fdOpen && !t.active && !t.hasListener
  }

  // ------------------------------------------------------------ construction

  /** The configuration both constructors store when the address is accepted. */
  function ConfigOf(iface: Ipv4, group: Ipv4, port: int, timeoutMs: int): Config {
    Config(iface, group, Port16(port), SplitTimeout(timeoutMs))
  }

  /**
   * The constructor as the source writes it: it throws unless the first octet
   * of the group address passes the three-bit mask test.
   */
  function NewTransportAsWritten(iface: Ipv4, group: Ipv4, port: int, timeoutMs: int): (r: Result<Transport, ConstructError>)
    ensures r.Success? <==> group.o1 as int >= 224
    ensures r.Success? ==> IsFresh(r.value) && r.value.config == ConfigOf(iface, group, port, timeoutMs)
  {
    SourceCheckAcceptsFrom224(group);
    if PassesSourceCheck(group) then Success(Transport(ConfigOf(iface, group, port, timeoutMs), false, false, false))
    else Failure(InvalidMulticastAddress)
  }

  /**
   * The constructor with the corrected test: it succeeds exactly for class D
   * group addresses, and the stored timeout is the requested one.
   */
  function NewTransport(iface: Ipv4, group: Ipv4, port: int, timeoutMs: int): (r: Result<Transport, ConstructError>)
    ensures r.Success? <==> IsClassD(group)
    ensures r.Success? ==> IsFresh(r.value) && r.value.config == ConfigOf(iface, group, port, timeoutMs)
    ensures r.Success? ==> r.value.config.group == group && r.value.config.iface == iface
    ensures r.Success? ==> Millis(r.value.config.timeout) == timeoutMs
    ensures r.Success? && 0 <= port < 0x1_0000 ==> r.value.config.port == port
  {
    MulticastCheckIsClassD(group);
    if PassesMulticastCheck(group) then Success(Transport(ConfigOf(iface, group, port, timeoutMs), false, false, false))
    else Failure(InvalidMulticastAddress)
  }

  /** The two constructors differ only on group addresses 240.0.0.0 to 255.255.255.255. */
  lemma ConstructorsAgreeBelow240(iface: Ipv4, group: Ipv4, port: int, timeoutMs: int)
    requires group.o1 as int < 240
    ensures NewTransport(iface, group, port, timeoutMs) == NewTransportAsWritten(iface, group, port, timeoutMs)
  {
    ChecksAgreeBelow240(group);
  }

  /** The copy constructor: same configuration, but closed, not listening and without an observer. */
  function CopyTransport(t: Transport): (c: Transport)
    ensures c.config == t.config
    ensures IsFresh(c)
  {
    Transport(t.config, false, false, false)
  }

  // ------------------------------------------------------- buffer negotiation

  const MaxBufferSize: nat := 32768

  lemma Pow2Of15()
    ensures Pow2(15) == MaxBufferSize
  {
    assert Pow2(5) == 32;
    assert Pow2(10) == 1024;
  }

  /** `tried` is 32768, 16384, … in order: the sizes halving offers first. */
  predicate HalvingOffers(tried: seq<nat>)
  {
    |tried| <= 15 && forall i :: 0 <= i < |tried| ==> tried[i] == Pow2(15 - i)
  }

  /** The kernel refused every size in `s`. */
  predicate AllRejected(accepts: nat -> bool, s: seq<nat>)
  {
    forall i :: 0 <= i < |s| ==> !accepts(s[i])
  }

  /** Offering the next size, Pow2(e), extends the halving sequence. */
  lemma OfferStep(tried: seq<nat>, e: nat)
    requires HalvingOffers(tried) && |tried| == 15 - e && 1 <= e <= 15
    ensures HalvingOffers(tried + [Pow2(e)])
  {
    var t := tried + [Pow2(e)];
    forall i | 0 <= i < |t|
      ensures t[i] == Pow2(15 - i)
    {
      if i < |tried| {
        assert t[i] == tried[i];
      }
    }
  }

  /**
   * When the loop stops at Pow2(e), every offer before the last one was
   * refused, and so was every larger power of two up to 32768. Every offer
   * is above 1.
   */
  lemma LargerOffersRejected(accepts: nat -> bool, tried: seq<nat>, e: nat)
    requires e <= 15 && HalvingOffers(tried)
    requires || (|tried| == 15 - e && AllRejected(accepts, tried))
             || (|tried| == 16 - e && AllRejected(accepts, tried[..|tried| - 1]) && accepts(Pow2(e)))
    ensures forall j :: 0 <= j <= 15 && Pow2(j) > Pow2(e) ==> !accepts(Pow2(j))
    ensures forall i :: 0 <= i < |tried| ==> tried[i] > 1
    ensures forall i :: 0 <= i < |tried| - 1 ==> !accepts(tried[i])
  {
    forall j | 0 <= j <= 15 && Pow2(j) > Pow2(e)
      ensures !accepts(Pow2(j))
    {
      if j <= e {
        Pow2Monotone(j, e);
      }
      assert tried[15 - j] == Pow2(j);
      if |tried| == 16 - e {
        assert tried[15 - j] == tried[..|tried| - 1][15 - j];
      }
    }
    forall i | 0 <= i < |tried|
      ensures tried[i] > 1
    {
      assert tried[i] == 2 * Pow2(14 - i);
    }
    forall i | 0 <= i < |tried| - 1
      ensures !accepts(tried[i])
    {
      if |tried| == 16 - e {
        assert tried[i] == tried[..|tried| - 1][i];
      }
    }
  }

  /**
   * One buffer-size negotiation loop of `open` (SO_RCVBUF or SO_SNDBUF):
   * offer 32768 and halve while the size is above 1, stopping at the first
   * size the kernel accepts. `accepts` stands for `setsockopt` succeeding.
   * `tried` lists the sizes offered, in order.
   *
   * The result is a power of two no larger than 32768; above 1 it was
   * accepted, and every larger power of two up to 32768 was offered and
   * rejected. Size 1 is never offered, and at most 15 sizes are.
   */
  method NegotiateBufferSize(accepts: nat -> bool) returns (size: nat, tried: seq<nat>)
    ensures exists e :: 0 <= e <= 15 && size == Pow2(e)
    ensures 1 <= size <= MaxBufferSize
    ensures size > 1 ==> accepts(size)
    ensures forall e :: 0 <= e <= 15 && Pow2(e) > size ==> !accepts(Pow2(e))
    ensures 1 <= |tried| <= 15
    ensures forall i :: 0 <= i < |tried| ==> tried[i] == Pow2(15 - i) && tried[i] > 1
    ensures forall i :: 0 <= i < |tried| - 1 ==> !accepts(tried[i])
    ensures size > 1 ==> tried[|tried| - 1] == size
    ensures size == 1 ==> |tried| == 15
  {
    Pow2Of15();
    size := MaxBufferSize;
    tried := [];
    ghost var e: nat := 15;
    while size > 1
      invariant 0 <= e <= 15 && size == Pow2(e) && |tried| == 15 - e
      invariant HalvingOffers(tried) && AllRejected(accepts, tried)
      decreases size
    {
      OfferStep(tried, e);
      tried := tried + [size];
      if accepts(size) {
        break;
      }
      assert size == 2 * Pow2(e - 1);
      size := size / 2;
      e := e - 1;
    }
    Pow2Monotone(e, 15);
    LargerOffersRejected(accepts, tried, e);
  }

  // ---------------------------------------------------------------- lifecycle

  /** A lifecycle call's result: the new state and the boolean returned. */
  datatype Step = Step(state: Transport, ok: bool)

  /**
   * The system-call outcomes `open` depends on. Only socket creation and bind
   * decide the result; failures of SO_REUSEADDR, IP_ADD_MEMBERSHIP and
   * IP_MULTICAST_LOOP are logged and otherwise ignored.
   */
  datatype OpenOracle = OpenOracle(socketOk: bool, reuseAddrOk: bool, bindOk: bool, joinOk: bool, loopOk: bool)

  /** `open` on a closed transport; a socket created but not bound is closed again. */
  function OpenWhenClosed(t: Transport, o: OpenOracle): Step
    requires !t.fdOpen
  {
    var ok := o.socketOk && o.bindOk;
    Step(t.(fdOpen := ok), ok)
  }

  /**
   * `open` as the source writes it. On an already open transport the
   * "already open" branch leaves `ret` false, so the clean-up after it closes
   * the open socket.
   */
  function OpenAsWritten(t: Transport, o: OpenOracle): (r: Step)
    ensures !r.ok ==> !r.state.fdOpen
    ensures r.ok <==> !t.fdOpen && o.socketOk && o.bindOk
    ensures r.state == t.(fdOpen := r.ok)
  {
    if t.fdOpen then Step(t.(fdOpen := false), false) else OpenWhenClosed(t, o)
  }

  /** Opening twice, as written, leaves the transport closed. */
  lemma DoubleOpenAsWrittenCloses(t: Transport, o1: OpenOracle, o2: OpenOracle)
    requires OpenAsWritten(t, o1).ok
    ensures OpenAsWritten(t, o1).state.fdOpen
    ensures !OpenAsWritten(OpenAsWritten(t, o1).state, o2).ok
    ensures !OpenAsWritten(OpenAsWritten(t, o1).state, o2).state.fdOpen
  {
  }

  /**
   * `open` with the already-open case corrected: false, as the header
   * include/MulticastUdp.h:58 states, and the socket left as it is. Otherwise
   * true exactly when socket creation and bind succeed, and closed again on
   * failure, so nothing leaks.
   */
  function Open(t: Transport, o: OpenOracle): (r: Step)
    ensures r.ok <==> !t.fdOpen && o.socketOk && o.bindOk
    ensures t.fdOpen ==> r.state == t
    ensures !t.fdOpen ==> r.state == t.(fdOpen := r.ok)
  {
    if t.fdOpen then Step(t, false) else OpenWhenClosed(t, o)
  }

  /** From a closed transport both versions of `open` do the same thing. */
  lemma OpenVersionsAgreeWhenClosed(t: Transport, o: OpenOracle)
    requires !t.fdOpen
    ensures Open(t, o) == OpenAsWritten(t, o)
  {
  }

  /** With the corrected `open`, a second `open` returns false and keeps the socket. */
  lemma DoubleOpenIsNoOp(t: Transport, o1: OpenOracle, o2: OpenOracle)
    requires Open(t, o1).ok
    ensures Open(Open(t, o1).state, o2) == Step(Open(t, o1).state, false)
    ensures Open(Open(t, o1).state, o2).state.fdOpen
  {
  }

  /** The socket-option outcomes never change what `open` does. */
  lemma OpenIgnoresSocketOptions(t: Transport, o: OpenOracle, reuse: bool, join: bool, loop: bool)
    ensures Open(t, o) == Open(t, o.(reuseAddrOk := reuse, joinOk := join, loopOk := loop))
    ensures OpenAsWritten(t, o) == OpenAsWritten(t, o.(reuseAddrOk := reuse, joinOk := join, loopOk := loop))
  {
  }

  /**
   * `close`: true exactly when the socket was open; afterwards it is closed,
   * and a running listener loop is stopped first. A closed transport is left
   * as it is.
   */
  function Close(t: Transport): (r: Step)
    ensures r.ok <==> t.fdOpen
    ensures !r.state.fdOpen
    ensures t.fdOpen ==> !r.state.active
    ensures !t.fdOpen ==> r.state == t
    ensures r.state.config == t.config && r.state.hasListener == t.hasListener
  {
    if t.fdOpen then Step(StopListening(t).(fdOpen := false), true) else Step(t, false)
  }

  /** Closing twice: the second `close` returns false and changes nothing. */
  lemma DoubleCloseIsNoOp(t: Transport)
    ensures !Close(Close(t).state).ok
    ensures Close(Close(t).state).state == Close(t).state
  {
  }

  /** `isOpen`: whether the socket is open. */
  function IsOpen(t: Transport): bool {
    t.fdOpen
  }

  /**
   * `isOpen` reports what the lifecycle calls did: a corrected `open` makes it
   * true exactly when it was already open or the call succeeded, `open` as
   * written exactly when the call succeeded, and after `close` it is false,
   * `close` having returned whether it was true.
   */
  lemma IsOpenTracksLifecycle(t: Transport, o: OpenOracle)
    ensures IsOpen(Open(t, o).state) <==> IsOpen(t) || Open(t, o).ok
    ensures IsOpen(OpenAsWritten(t, o).state) <==> OpenAsWritten(t, o).ok
    ensures !IsOpen(Close(t).state)
    ensures Close(t).ok <==> IsOpen(t)
  {
  }

  /**
   * `setListener`: an observer is set. A running loop reads the observer on
   * every iteration, so it receives the very next event.
   */
  function SetListener(t: Transport): (r: Transport)
    ensures r.hasListener
    ensures r.config == t.config && r.fdOpen == t.fdOpen && r.active == t.active
  {
    t.(hasListener := true)
  }

  /**
   * `unsetListener`: the observer is cleared; a running loop is not stopped
   * and calls through the cleared observer on its next event.
   */
  function UnsetListener(t: Transport): (r: Transport)
    ensures !r.hasListener
    ensures r.config == t.config && r.fdOpen == t.fdOpen && r.active == t.active
  {
    t.(hasListener := false)
  }

  /**
   * `startListening`: nothing happens when already listening or when no
   * observer is set. Otherwise the transport is opened if it was closed, and
   * the loop is marked active even when that `open` failed.
   */
  function StartListening(t: Transport, o: OpenOracle): (r: Transport)
    ensures t.active || !t.hasListener ==> r == t
    ensures !t.active && t.hasListener ==> r.active
    ensures !t.active && t.hasListener ==> (r.fdOpen <==> t.fdOpen || (o.socketOk && o.bindOk))
    ensures r.config == t.config && r.hasListener == t.hasListener
  {
    if !t.active && t.hasListener then
      var ready := if !IsOpen(t) then Open(t, o).state else t;
      ready.(active := true)
    else
      t
  }

  /** `stopListening`: clears the active flag; nothing else changes. */
  function StopListening(t: Transport): (r: Transport)
    ensures !r.active
    ensures !t.active ==> r == t
    ensures r.fdOpen == t.fdOpen && r.config == t.config && r.hasListener == t.hasListener
  {
    if t.active then t.(active := false) else t
  }

  /**
   * The life cycle open, startListening, stopListening, close
   * returns a transport with an observer to exactly the state it started from.
   */
  lemma {:induction false} LifecycleReturnsToClosed(t: Transport, o: OpenOracle)
    requires !t.fdOpen && !t.active && t.hasListener
    requires o.socketOk && o.bindOk
    ensures Open(t, o).ok
    ensures StartListening(Open(t, o).state, o).active
    ensures StopListening(StartListening(Open(t, o).state, o)).fdOpen
    ensures Close(StopListening(StartListening(Open(t, o).state, o))) == Step(t, true)
  {
    var afterOpen := Open(t, o).state;
    assert afterOpen == t.(fdOpen := true);
    var listening := StartListening(afterOpen, o);
    assert listening == afterOpen.(active := true);
    var stopped := StopListening(listening);
    assert stopped == afterOpen;
  }

  // ------------------------------------------------------------ send and recv

  /**
   * `send`: the result of `sendto`, which is the byte count or -1. On a closed
   * transport the descriptor is -1 and `sendto` fails.
   */
  function Send(t: Transport, sendto: int): (r: int)
    requires sendto >= -1
    ensures r >= -1
    ensures r > 0 ==> t.fdOpen
    ensures t.fdOpen ==> r == sendto
    ensures !t.fdOpen ==> r == -1
  {
    if t.fdOpen then sendto else -1
  }

  /** The sentinel `recv` returns when `select` reports nothing readable. */
  const RecvTimeout: int := -2

  /**
   * `recv`: when `select` reports the socket readable, the result of
   * `recvfrom` (a byte count, or -1 on error); otherwise the timeout
   * sentinel -2. A failing `select` (-1) is reported as a timeout too.
   */
  function Recv(selectResult: int, recvfrom: int): (r: int)
    requires selectResult >= -1 && recvfrom >= -1
    ensures r == RecvTimeout <==> selectResult <= 0
    ensures r >= -1 <==> selectResult > 0
    ensures selectResult > 0 ==> r == recvfrom
  {
    if selectResult > 0 then recvfrom else RecvTimeout
  }

  /** The three events the listener loop dispatches to the observer. */
  datatype Event = DataAvailable(size: nat) | Timeout | ConnectionError

  /** The loop's classification of one `recv` result. */
  function Classify(ret: int): (e: Event)
    ensures e.DataAvailable? <==> ret > 0
    ensures e.DataAvailable? ==> e.size == ret
    ensures e.Timeout? <==> ret == RecvTimeout
    ensures e.ConnectionError? <==> ret <= 0 && ret != RecvTimeout
  {
    if ret > 0 then DataAvailable(ret) else if ret == RecvTimeout then Timeout else ConnectionError
  }

  /**
   * From system-call outcomes to events: data when `select` and `recvfrom`
   * both succeed with a byte count; a timeout whenever `select` does not
   * report the socket readable (including a `select` error); a connection
   * error when `recvfrom` returns -1 or an empty datagram.
   */
  lemma RecvDispatch(selectResult: int, recvfrom: int)
    requires selectResult >= -1 && recvfrom >= -1
    ensures Classify(Recv(selectResult, recvfrom)).DataAvailable? <==> selectResult > 0 && recvfrom > 0
    ensures Classify(Recv(selectResult, recvfrom)).Timeout? <==> selectResult <= 0
    ensures Classify(Recv(selectResult, recvfrom)).ConnectionError? <==> selectResult > 0 && recvfrom <= 0
  {
  }

  /** The outcomes of `select` and `recvfrom` in one iteration of the loop. */
  datatype RecvRound = RecvRound(selectResult: int, recvfrom: int)

  predicate ValidRound(r: RecvRound) {
    r.selectResult >= -1 && r.recvfrom >= -1
  }

  /**
   * The listener loop run for as many iterations as there are rounds (the
   * number of times it found the active flag still set). Each iteration
   * dispatches exactly one event; timeouts and errors never end the loop.
   */
  method RunListener(rounds: seq<RecvRound>) returns (events: seq<Event>)
    requires forall i :: 0 <= i < |rounds| ==> ValidRound(rounds[i])
    ensures |events| == |rounds|
    ensures forall i :: 0 <= i < |rounds| ==>
      (events[i].DataAvailable? <==> rounds[i].selectResult > 0 && rounds[i].recvfrom > 0)
    ensures forall i :: 0 <= i < |rounds| ==>
      (events[i].Timeout? <==> rounds[i].selectResult <= 0)
    ensures forall i :: 0 <= i < |rounds| && events[i].DataAvailable? ==> events[i].size == rounds[i].recvfrom
  {
    events := [];
    var k := 0;
    while k < |rounds|
      invariant 0 <= k <= |rounds|
      invariant |events| == k
      invariant forall i :: 0 <= i < k ==>
        (events[i].DataAvailable? <==> rounds[i].selectResult > 0 && rounds[i].recvfrom > 0)
      invariant forall i :: 0 <= i < k ==> (events[i].Timeout? <==> rounds[i].selectResult <= 0)
      invariant forall i :: 0 <= i < k && events[i].DataAvailable? ==> events[i].size == rounds[i].recvfrom
    {
      var ret := Recv(rounds[k].selectResult, rounds[k].recvfrom);
      RecvDispatch(rounds[k].selectResult, rounds[k].recvfrom);
      events := events + [Classify(ret)];
      k := k + 1;
    }
  }
}
