/**
 * The EN 61162-450:2011 "UdPbC" datagram encoder: the XOR checksum, the
 * per-source rolling line counter, the tag block, the byte-exact datagram and
 * the endpoint that owns one transport bound to a transmission group.
 */
module NmeaMulticastUdp {
  import opened Wrappers
  import opened TextFormat
  import opened MulticastConfig
  import opened MulticastUdp
  import opened TransmissionGroup
  import opened Bits

  const DefaultTimeout: int := 1000

  /** The default timeout is stored as one second and no microseconds. */
  lemma DefaultTimeoutSplit()
    ensures SplitTimeout(DefaultTimeout) == TimeVal(1, 0)
  {
  }

  const MulticastBufferSize: nat := 4096

  /** The six-byte magic header every datagram starts with: "UdPbC" and a NUL. */
  const DatagramHeader: string := ['U', 'd', 'P', 'b', 'C', '\0']

  // ---------------------------------------------------------------- checksum

  /**
   * The XOR of the codes of every character of `s`: the reference definition
   * of the NMEA checksum. For ASCII text it is below 128.
   */
  function Checksum(s: string): (r: nat)
    requires IsAscii(s)
    ensures r < 128
    decreases |s|
  {
    if |s| == 0 then 0
    else
      var rest := Checksum(s[..|s| - 1]);
      assert Pow2(7) == 128;
      XorBelow(rest, s[|s| - 1] as int, 7);
      Xor(rest, s[|s| - 1] as int)
  }

  /** The checksum of a concatenation is the XOR of the checksums of the parts. */
  lemma {:induction false} ChecksumAppend(a: string, b: string)
    requires IsAscii(a) && IsAscii(b)
    ensures IsAscii(a + b)
    ensures Checksum(a + b) == Xor(Checksum(a), Checksum(b))
    decreases |b|
  {
    AsciiConcat(a, b);
    if |b| == 0 {
      assert a + b == a;
      XorZero(Checksum(a));
    } else {
      var b' := b[..|b| - 1];
      var last := b[|b| - 1] as int;
      assert (a + b)[..|a + b| - 1] == a + b';
      assert (a + b)[|a + b| - 1] == b[|b| - 1];
      ChecksumAppend(a, b');
      calc {
        Checksum(a + b);
        Xor(Checksum(a + b'), last);
        Xor(Xor(Checksum(a), Checksum(b')), last);
        { XorAssoc(Checksum(a), Checksum(b'), last); }
        Xor(Checksum(a), Xor(Checksum(b'), last));
        Xor(Checksum(a), Checksum(b));
      }
    }
  }

  /** The checksum of text with one character `x` inside it, split around `x`. */
  lemma ChecksumSplice(pre: string, x: char, post: string)
    requires IsAscii(pre) && x as int < 128 && IsAscii(post)
    ensures IsAscii(pre + [x] + post)
    ensures Checksum(pre + [x] + post) == Xor(Xor(Checksum(pre), x as int), Checksum(post))
  {
    assert Checksum([x]) == x as int by {
      assert [x][..0] == [];
      XorZero(x as int);
    }
    ChecksumAppend(pre, [x]);
    ChecksumAppend(pre + [x], post);
  }

  /** Changing any single character of the text changes its checksum. */
  lemma ChecksumDetectsSingleChange(s: string, i: nat, c: char)
    requires IsAscii(s) && i < |s| && c as int < 128 && c != s[i]
    ensures IsAscii(s[i := c])
    ensures Checksum(s[i := c]) != Checksum(s)
  {
    var pre, post := s[..i], s[i + 1..];
    assert s == pre + [s[i]] + post;
    assert s[i := c] == pre + [c] + post;
    ChecksumSplice(pre, s[i], post);
    ChecksumSplice(pre, c, post);
    var p, q := Checksum(pre), Checksum(post);
    if Xor(Xor(p, c as int), q) == Xor(Xor(p, s[i] as int), q) {
      XorCancelRight(Xor(p, c as int), Xor(p, s[i] as int), q);
      XorCancelLeft(p, c as int, s[i] as int);
      assert false;
    }
  }

  /**
   * `calculateNmeaChecksum`: folds every character of the text into an XOR
   * accumulator, left to right. The result is the checksum of the whole text.
   */
  method CalculateNmeaChecksum(s: string) returns (checksum: nat)
    requires IsAscii(s)
    ensures checksum == Checksum(s)
    ensures checksum < 128
  {
    checksum := 0;
    var i := 0;
    while i < |s|
      invariant 0 <= i <= |s|
      invariant IsAscii(s[..i]) && checksum == Checksum(s[..i])
    {
      assert s[..i + 1][..i] == s[..i];
      checksum := Xor(checksum, s[i] as int);
      i := i + 1;
    }
    assert s[..i] == s;
  }

  // ---------------------------------------------------------------- counters

  /**
   * The value `operator[]` reads for a source: the stored counter, or 0 for a
   * source that has none (value-initialisation).
   */
  function CounterOf(counters: map<string, int>, id: string): int {
    if id in counters then counters[id] else 0
  }

  /** Every stored counter lies in 1..999. */
  predicate CountersInRange(counters: map<string, int>) {
    forall id :: id in counters ==> 1 <= counters[id] <= 999
  }

  /**
   * The counter after a send: one more, except that 1000 becomes 1. The result
   * is the value in 1..999 congruent to c + 1 modulo 999, so 0 and 1000 are
   * never stored.
   */
  function NextCounter(c: int): (r: int)
    requires 0 <= c <= 999
    ensures 1 <= r <= 999
    ensures r % 999 == (c + 1) % 999
  {
    if c + 1 == 1000 then 1 else c + 1
  }

  /**
   * The counter table after a send from `id`: that source's count advanced
   * (created if absent), every other entry unchanged.
   */
  function AdvanceCounter(counters: map<string, int>, id: string): (r: map<string, int>)
    requires CountersInRange(counters)
    ensures CountersInRange(r)
    ensures CounterOf(r, id) == NextCounter(CounterOf(counters, id))
    ensures r.Keys == counters.Keys + {id}
    ensures forall k :: k in counters && k != id ==> r[k] == counters[k]
  {
    counters[id := NextCounter(CounterOf(counters, id))]
  }

  // --------------------------------------------------------------- tag block

  /** The tag-block text the checksum covers: everything before the '*'. */
  function TagPrefix(id: string, n: nat): string {
    "s:" + id + ",n:" + Dec(n)
  }

  lemma TagPrefixIsAscii(id: string, n: nat)
    requires IsAscii(id)
    ensures IsAscii(TagPrefix(id, n))
  {
    DecIsAscii(n);
    AsciiConcat("s:", id);
    AsciiConcat("s:" + id, ",n:");
    AsciiConcat("s:" + id + ",n:", Dec(n));
  }

  /**
   * A well-formed tag block: ASCII text, then '*', then two upper-case hex
   * digits whose value is the XOR checksum of the text.
   */
  predicate TagBlockValid(tag: string) {
    && |tag| >= 3
    && tag[|tag| - 3] == '*'
    && IsAscii(tag[..|tag| - 3])
    && IsUpperHexDigit(tag[|tag| - 2]) && IsUpperHexDigit(tag[|tag| - 1])
    && HexValue(tag[|tag| - 2..]) == Checksum(tag[..|tag| - 3])
  }

  /**
   * The tag block for source `id` and line count `n`: the text
   * "s:<id>,n:<n>" followed by '*' and its checksum in hex.
   */
  function TagBlock(id: string, n: nat): (tag: string)
    requires IsAscii(id)
    ensures TagBlockValid(tag)
    ensures tag[..|tag| - 3] == "s:" + id + ",n:" + Dec(n)
    ensures |tag| == 8 + |id| + |Dec(n)|
  {
    TagPrefixIsAscii(id, n);
    var prefix := TagPrefix(id, n);
    var tag := prefix + "*" + Hex2(Checksum(prefix));
    assert tag[..|tag| - 3] == prefix;
    assert tag[|tag| - 2..] == Hex2(Checksum(prefix));
    tag
  }

  /** A tag block contains a backslash only if the source id does. */
  lemma TagBlockHasNoBackslash(id: string, n: nat)
    requires IsAscii(id)
    requires forall i :: 0 <= i < |id| ==> id[i] != '\\'
    ensures forall i :: 0 <= i < |TagBlock(id, n)| ==> TagBlock(id, n)[i] != '\\'
  {
    var tag := TagBlock(id, n);
    var prefix := TagPrefix(id, n);
    assert tag == prefix + "*" + tag[|tag| - 2..];
    forall i | 0 <= i < |tag|
      ensures tag[i] != '\\'
    {
      if i < |prefix| {
        assert prefix == "s:" + id + ",n:" + Dec(n);
        if 2 <= i < 2 + |id| {
          assert tag[i] == id[i - 2];
        } else if i >= 5 + |id| {
          assert tag[i] == Dec(n)[i - 5 - |id|];
        }
      }
    }
  }

  // ---------------------------------------------------------------- datagram

  /** The datagram: header, '\', tag block, '\', the sentence, CR LF. */
  function Datagram(tag: string, nmea: string): (d: string)
    ensures |d| == 10 + |tag| + |nmea|
    ensures d[..6] == DatagramHeader
    ensures d[6] == '\\' && d[7 + |tag|] == '\\'
    ensures d[7..7 + |tag|] == tag
    ensures d[8 + |tag|..8 + |tag| + |nmea|] == nmea
    ensures d[|d| - 2] == '\r' && d[|d| - 1] == '\n'
  {
    DatagramHeader + ['\\'] + tag + ['\\'] + nmea + ['\r', '\n']
  }

  /**
   * When the source id has no backslash, the tag block runs from offset 7 up
   * to the first backslash after the header, and the sentence starts right
   * after it.
   */
  lemma TagBlockIsDelimited(id: string, n: nat, nmea: string)
    requires IsAscii(id)
    requires forall i :: 0 <= i < |id| ==> id[i] != '\\'
    ensures forall k :: 7 <= k < 7 + |TagBlock(id, n)| ==> Datagram(TagBlock(id, n), nmea)[k] != '\\'
  {
    var tag := TagBlock(id, n);
    var d := Datagram(tag, nmea);
    TagBlockHasNoBackslash(id, n);
    forall k | 7 <= k < 7 + |tag|
      ensures d[k] != '\\'
    {
      assert d[k] == d[7..7 + |tag|][k - 7];
    }
  }

  /**
   * One copy loop of `sendString`: each character of `s` is stored at the
   * write position, which then advances. Afterwards the buffer holds its old
   * prefix followed by `s`, and nothing after the new position changed.
   */
  method WriteChars(buffer: seq<char>, pointer: nat, s: string) returns (out: seq<char>, next: nat)
    requires pointer + |s| <= |buffer|
    ensures |out| == |buffer|
    ensures next == pointer + |s|
    ensures out[..next] == buffer[..pointer] + s
    ensures forall k :: next <= k < |buffer| ==> out[k] == buffer[k]
  {
    out, next := buffer, pointer;
    var i := 0;
    while i < |s|
      invariant 0 <= i <= |s|
      invariant next == pointer + i
      invariant |out| == |buffer|
      invariant out[..next] == buffer[..pointer] + s[..i]
      invariant forall k :: next <= k < |buffer| ==> out[k] == buffer[k]
    {
      out := out[next := s[i]];
      assert s[..i + 1] == s[..i] + [s[i]];
      next := next + 1;
      i := i + 1;
    }
    assert s[..i] == s;
  }

  /**
   * The byte-by-byte assembly `sendString` performs into its fixed write
   * buffer: the header, then each delimiter and character at the advancing
   * position. The written prefix is the datagram; the rest of the buffer is
   * untouched.
   */
  method WriteDatagram(buffer: seq<char>, tag: string, nmea: string) returns (out: seq<char>, pointer: nat)
    requires |buffer| == MulticastBufferSize
    requires 10 + |tag| + |nmea| <= MulticastBufferSize
    ensures |out| == MulticastBufferSize
    ensures pointer == 10 + |tag| + |nmea|
    ensures out[..pointer] == Datagram(tag, nmea)
    ensures out[pointer..] == buffer[pointer..]
  {
    out, pointer := WriteChars(buffer, 0, DatagramHeader);
    assert buffer[..0] + DatagramHeader == DatagramHeader;
    out, pointer := WriteChars(out, pointer, ['\\']);
    out, pointer := WriteChars(out, pointer, tag);
    out, pointer := WriteChars(out, pointer, ['\\']);
    out, pointer := WriteChars(out, pointer, nmea);
    out, pointer := WriteChars(out, pointer, ['\r', '\n']);
  }

  // ---------------------------------------------------------------- endpoint

  /** An NMEA endpoint: its transport and the per-source line counters. */
  datatype Endpoint = Endpoint(transport: Transport, counters: map<string, int>)

  /**
   * The constructor: a transport on the group's address and port, any
   * interface, a 1000 ms timeout stored as one second and no microseconds;
   * closed, with no counters. The group's address always passes the
   * multicast check, so construction never fails.
   */
  function NewEndpoint(g: Group): (r: Result<Endpoint, ConstructError>)
    ensures r.Success?
    ensures r.value.transport.config.iface == AnyInterface
    ensures r.value.transport.config.group == GroupEntry(g).addr
    ensures r.value.transport.config.port == GroupEntry(g).port
    ensures Millis(r.value.transport.config.timeout) == DefaultTimeout
    ensures r.value.transport.config.timeout == SplitTimeout(DefaultTimeout) == TimeVal(1, 0)
    ensures IsFresh(r.value.transport) && r.value.counters == map[]
  {
    DefaultTimeoutSplit();
    match NewTransport(AnyInterface, GroupEntry(g).addr, GroupEntry(g).port, DefaultTimeout)
    case Success(t) => Success(Endpoint(t, map[]))
    case Failure(e) => Failure(e)
  }

  /**
   * The constructor as the source writes it: the address text and port come
   * from the source's eight-entry table, and USR1..USR8 get the default pair
   * ("", 0). `inetAton` stands for `inet_aton`: it reads the dotted text of
   * every address back as that address and rejects the empty text. On a
   * rejected text the address field keeps `unset`, whatever the freshly
   * allocated structure held, and the mask test runs on that.
   */
  function NewEndpointAsWritten(g: Group, inetAton: string -> Option<Ipv4>, unset: Ipv4): (r: Result<Endpoint, ConstructError>)
    requires forall a: Ipv4 :: inetAton(Dotted(a)) == Some(a)
    requires inetAton("") == None
    ensures Ordinal(g) >= 8 ==> (r.Success? <==> unset.o1 as int >= 224)
    ensures Ordinal(g) >= 8 && r.Success? ==> r.value.transport.config.group == unset
    ensures Ordinal(g) >= 8 && r.Success? ==> r.value.transport.config.port == 0
    ensures r.Success? ==> r.value.transport.config.iface == AnyInterface
    ensures r.Success? ==> r.value.transport.config.timeout == SplitTimeout(DefaultTimeout) == TimeVal(1, 0)
    ensures r.Success? ==> IsFresh(r.value.transport) && r.value.counters == map[]
  {
    DefaultTimeoutSplit();
    var entry := SourceGroupLookup(g);
    var group := match inetAton(entry.0) case Some(a) => a case None => unset;
    match NewTransportAsWritten(AnyInterface, group, entry.1, DefaultTimeout)
    case Success(t) => Success(Endpoint(t, map[]))
    case Failure(e) => Failure(e)
  }

  /** For MISC..PROP the source's constructor builds exactly the endpoint of the standard table. */
  lemma EndpointConstructorsAgreeOnTable(g: Group, inetAton: string -> Option<Ipv4>, unset: Ipv4)
    requires forall a: Ipv4 :: inetAton(Dotted(a)) == Some(a)
    requires inetAton("") == None
    requires Ordinal(g) < 8
    ensures NewEndpointAsWritten(g, inetAton, unset) == NewEndpoint(g)
  {
    SourceTableAgreesWithStandard(g);
    var e := GroupEntry(g);
    assert inetAton(Dotted(e.addr)) == Some(e.addr);
    ConstructorsAgreeBelow240(AnyInterface, e.addr, e.port, DefaultTimeout);
  }

  /** The copy constructor: the transport's configuration, closed, and no counters. */
  function CopyEndpoint(ep: Endpoint): (c: Endpoint)
    ensures c.transport.config == ep.transport.config
    ensures IsFresh(c.transport)
    ensures c.counters == map[]
  {
    Endpoint(CopyTransport(ep.transport), map[])
  }

  /** The result of a delegated lifecycle call. */
  datatype EndpointStep = EndpointStep(endpoint: Endpoint, ok: bool)

  /**
   * `open` delegated to the corrected transport `open`; the counters are
   * kept, and an endpoint that is already open stays open. Only whether the
   * socket is open changes: configuration, listening state and observer are
   * kept.
   */
  function OpenEndpoint(ep: Endpoint, o: OpenOracle): (r: EndpointStep)
    ensures r.ok <==> !ep.transport.fdOpen && o.socketOk && o.bindOk
    ensures r.endpoint.transport.fdOpen <==> ep.transport.fdOpen || r.ok
    ensures r.endpoint.counters == ep.counters
    ensures r.endpoint == ep.(transport := ep.transport.(fdOpen := r.endpoint.transport.fdOpen))
    ensures ep.transport.fdOpen ==> r.endpoint == ep
  {
    var s := Open(ep.transport, o);
    EndpointStep(ep.(transport := s.state), s.ok)
  }

  /**
   * `open` as the source delegates it, to the transport's `open` as written:
   * on an endpoint that is already open it returns false and the socket ends
   * up closed. Only whether the socket is open changes.
   */
  function OpenEndpointAsWritten(ep: Endpoint, o: OpenOracle): (r: EndpointStep)
    ensures r.ok <==> !ep.transport.fdOpen && o.socketOk && o.bindOk
    ensures r.endpoint.transport.fdOpen <==> r.ok
    ensures r.endpoint.counters == ep.counters
    ensures r.endpoint == ep.(transport := ep.transport.(fdOpen := r.ok))
  {
    var s := OpenAsWritten(ep.transport, o);
    EndpointStep(ep.(transport := s.state), s.ok)
  }

  /** From a closed endpoint both versions of `open` do the same thing. */
  lemma OpenEndpointVersionsAgreeWhenClosed(ep: Endpoint, o: OpenOracle)
    requires !ep.transport.fdOpen
    ensures OpenEndpointAsWritten(ep, o) == OpenEndpoint(ep, o)
  {
    OpenVersionsAgreeWhenClosed(ep.transport, o);
  }

  /**
   * `close`, delegated to the transport: an open endpoint has its running
   * loop stopped and its socket closed, keeping configuration, observer and
   * counters; a closed endpoint is left as it is.
   */
  function CloseEndpoint(ep: Endpoint): (r: EndpointStep)
    ensures r.ok <==> ep.transport.fdOpen
    ensures !r.endpoint.transport.fdOpen
    ensures r.endpoint.counters == ep.counters
    ensures !ep.transport.fdOpen ==> r.endpoint == ep
    ensures ep.transport.fdOpen ==> r.endpoint == ep.(transport := ep.transport.(fdOpen := false, active := false))
    ensures r.endpoint.transport.config == ep.transport.config
    ensures r.endpoint.transport.hasListener == ep.transport.hasListener
  {
    var s := Close(ep.transport);
    EndpointStep(ep.(transport := s.state), s.ok)
  }

  /** `isOpen`, delegated to the transport. */
  function EndpointIsOpen(ep: Endpoint): bool {
    IsOpen(ep.transport)
  }

  /**
   * `isOpen` on an endpoint reports what the delegated lifecycle calls did:
   * true after a successful `open`, unchanged by a failed corrected `open`,
   * false after `close` and after a failed `open` as written.
   */
  lemma EndpointIsOpenTracksLifecycle(ep: Endpoint, o: OpenOracle)
    ensures EndpointIsOpen(OpenEndpoint(ep, o).endpoint) <==> EndpointIsOpen(ep) || OpenEndpoint(ep, o).ok
    ensures EndpointIsOpen(OpenEndpointAsWritten(ep, o).endpoint) <==> OpenEndpointAsWritten(ep, o).ok
    ensures !EndpointIsOpen(CloseEndpoint(ep).endpoint)
    ensures CloseEndpoint(ep).ok <==> EndpointIsOpen(ep)
  {
  }

  /**
   * `registerSystemId`: the source's counter is set to 1 whatever it was;
   * every other source's counter and the transport are unchanged.
   */
  function RegisterSystemId(ep: Endpoint, id: string): (r: Endpoint)
    requires CountersInRange(ep.counters)
    ensures CountersInRange(r.counters)
    ensures CounterOf(r.counters, id) == 1
    ensures r.counters.Keys == ep.counters.Keys + {id}
    ensures forall k :: k in ep.counters && k != id ==> r.counters[k] == ep.counters[k]
    ensures r.transport == ep.transport
  {
    ep.(counters := ep.counters[id := 1])
  }

  /** Whether the datagram for `id` and `nmea` fits the 4096-byte write buffer. */
  predicate FitsBuffer(counters: map<string, int>, id: string, nmea: string)
    requires CountersInRange(counters)
  {
    18 + |id| + |Dec(CounterOf(counters, id))| + |nmea| <= MulticastBufferSize
  }

  /** What `sendString` does: the new endpoint, its result, the datagram it sent and the count in it. */
  datatype SendOutcome = SendOutcome(endpoint: Endpoint, ok: bool, datagram: string, emitted: nat)

  /**
   * `sendString`: frames `nmea` with the source's current count, advances the
   * count (999 wraps to 1), and hands the datagram to the transport; `sendto`
   * is what the socket call returns. The result is true exactly when a
   * positive byte count was sent, and the count has advanced either way.
   */
  function SendString(ep: Endpoint, id: string, nmea: string, sendto: int): (r: SendOutcome)
    requires IsAscii(id)
    requires CountersInRange(ep.counters)
    requires FitsBuffer(ep.counters, id, nmea)
    requires sendto >= -1
    ensures r.emitted == CounterOf(ep.counters, id)
    ensures r.datagram == Datagram(TagBlock(id, r.emitted), nmea)
    ensures |r.datagram| <= MulticastBufferSize
    ensures r.ok <==> ep.transport.fdOpen && sendto > 0
    ensures r.endpoint.transport == ep.transport
    ensures CountersInRange(r.endpoint.counters)
    ensures CounterOf(r.endpoint.counters, id) == NextCounter(r.emitted)
    ensures r.endpoint.counters.Keys == ep.counters.Keys + {id}
    ensures forall k :: k in ep.counters && k != id ==> r.endpoint.counters[k] == ep.counters[k]
  {
    var n := CounterOf(ep.counters, id);
    var datagram := Datagram(TagBlock(id, n), nmea);
    SendOutcome(ep.(counters := AdvanceCounter(ep.counters, id)), Send(ep.transport, sendto) > 0, datagram, n)
  }

  /** A source that was never registered sends count 0 first, then continues from 1. */
  lemma UnregisteredSourceStartsAtZero(ep: Endpoint, id: string, nmea: string, sendto: int)
    requires IsAscii(id) && CountersInRange(ep.counters) && id !in ep.counters
    requires FitsBuffer(ep.counters, id, nmea) && sendto >= -1
    ensures SendString(ep, id, nmea, sendto).emitted == 0
    ensures CounterOf(SendString(ep, id, nmea, sendto).endpoint.counters, id) == 1
  {
  }

  /** The longest source id plus sentence that fits whatever the count is. */
  const MaxPayload: nat := MulticastBufferSize - 21

  /**
   * Sends each sentence of `msgs` in turn from source `id`, with the matching
   * socket result; returns the final endpoint and the counts written. From a
   * stored count `start`, the counts run start, start+1, ..., 999, 1, 2, ...:
   * the k-th is the value in 1..999 that is k past `start` modulo 999, so 0
   * and 1000 never appear.
   */
  function SendAll(ep: Endpoint, id: string, msgs: seq<string>, sends: seq<int>): (r: (Endpoint, seq<nat>))
    requires IsAscii(id) && CountersInRange(ep.counters)
    requires |msgs| == |sends|
    requires forall i :: 0 <= i < |msgs| ==> |id| + |msgs[i]| <= MaxPayload
    requires forall i :: 0 <= i < |sends| ==> sends[i] >= -1
    ensures |r.1| == |msgs|
    ensures CountersInRange(r.0.counters)
    ensures id in ep.counters ==> forall k :: 0 <= k < |msgs| ==> r.1[k] == CountAfter(ep.counters[id], k)
    decreases |msgs|
  {
    if |msgs| == 0 then (ep, [])
    else
      DecLengthBelow1000(CounterOf(ep.counters, id));
      var o := SendString(ep, id, msgs[0], sends[0]);
      var rest := SendAll(o.endpoint, id, msgs[1..], sends[1..]);
      if id in ep.counters then
        CountsCons(ep.counters[id], rest.1);
        (rest.0, [o.emitted] + rest.1)
      else
        (rest.0, [o.emitted] + rest.1)
  }

  /** The count `k` sends after `start`: the value in 1..999 that is k past `start` modulo 999. */
  function CountAfter(start: int, k: nat): int {
    (start - 1 + k) % 999 + 1
  }

  /** Prefixing `start` to the counts that follow it gives the counts from `start`. */
  lemma CountsCons(start: int, tail: seq<nat>)
    requires 1 <= start <= 999
    requires forall k :: 0 <= k < |tail| ==> tail[k] == CountAfter(NextCounter(start), k)
    ensures forall k :: 0 <= k < |tail| + 1 ==> ([start] + tail)[k] == CountAfter(start, k)
  {
    forall k | 0 <= k < |tail| + 1
      ensures ([start] + tail)[k] == CountAfter(start, k)
    {
      if k > 0 {
        CounterStep(start, k);
      }
    }
  }

  lemma CounterStep(start: int, k: nat)
    requires 1 <= start <= 999 && k >= 1
    ensures CountAfter(NextCounter(start), k - 1) == CountAfter(start, k)
  {
    if start == 999 {
      assert 998 + k == (k - 1) + 999;
    }
  }

  /**
   * After `registerSystemId`, the counts written by successive sends are
   * 1, 2, ..., 999, 1, 2, ...; neither 0 nor 1000 ever appears.
   */
  lemma RegisteredSourceCounts(ep: Endpoint, id: string, msgs: seq<string>, sends: seq<int>)
    requires IsAscii(id) && CountersInRange(ep.counters)
    requires |msgs| == |sends|
    requires forall i :: 0 <= i < |msgs| ==> |id| + |msgs[i]| <= MaxPayload
    requires forall i :: 0 <= i < |sends| ==> sends[i] >= -1
    ensures forall k :: 0 <= k < |msgs| ==>
      SendAll(RegisterSystemId(ep, id), id, msgs, sends).1[k] == k % 999 + 1
  {
  }
}
