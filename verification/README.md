# libNmeaMulticast in Dafny

A Dafny model of libNmeaMulticast, a C++ library for shipboard NMEA messaging over
IP multicast as defined by EN 61162-450:2011. The model covers two layers.

- **The NMEA datagram encoder** (`NmeaMulticastUdp`). It covers the transmission-group
  table, the per-source rolling line counter (999 wraps to 1), and the XOR checksum of
  the tag block. It also covers the byte-exact "UdPbC" datagram: the header, `\`, the
  tag block `s:<id>,n:<count>*<HH>`, `\`, the sentence, then CR LF. Text is a Dafny
  string in which each character stands for one byte of the C++ `std::string`; the
  checksum and tag-block results are stated for ASCII text.
- **The decidable logic of the multicast transport** (`MulticastUdp`). It covers the
  constructor's multicast-address check and the millisecond → `timeval` split. It
  covers the halving socket-buffer negotiation and the
  `open`/`close`/`isOpen`/`startListening`/`stopListening` life cycle. It also covers the
  return conventions of `send` and `recv`, and how the listener loop sorts each `recv`
  result into one of three events.

Every system-call outcome is an input to the model. Examples are `socket` and `bind`
succeeding, the `setsockopt` buffer answers, and the results of `select`, `recvfrom` and
`sendto`. Addresses are four octets, in the form `inet_aton` produces for dotted-quad
text. The host is taken to be little-endian.

Files and modules:

| file | module | contents |
|---|---|---|
| wrappers.dfy | `Wrappers` | `Option`, `Result` |
| text_format.dfy | `TextFormat` | decimal and two-digit hex rendering with their read-back functions, ASCII |
| bits.dfy | `Bits` | powers of two; bitwise XOR on natural numbers, one binary digit at a time, with its algebra (zero, self-inverse, associativity, cancellation, bound) |
| multicast_config.dfy | `MulticastConfig` | IPv4 octets, the address checks, `htons` port, C truncating division, timeout split |
| transmission_group.dfy | `TransmissionGroup` | the 16-value group enumeration, the source's 8-entry table, the full standard table |
| multicast_udp.dfy | `MulticastUdp` | transport construction and copy, buffer negotiation, life cycle, send/recv, listener loop |
| nmea_multicast_udp.dfy | `NmeaMulticastUdp` | checksum, counters, tag block, datagram, endpoint construction, copy, open/close, register, send |

Behaviour the code has that a reader might not expect, modelled as the code has it:

- An unregistered source sends count **0** first (src/NmeaMulticastUdp.cpp:101), because
  `operator[]` value-initialises the counter to 0. The count is 1 only after
  `registerSystemId` (src/NmeaMulticastUdp.cpp:90-92).
- A failing `select` makes `recv` return −2, the timeout value
  (src/MulticastUdp.cpp:201-218), while the header comment for `recv` (include/MulticastUdp.h:94) documents −1 for errors.
- `startListening` marks the transport active even when the `open` it performs fails.

`isOpen` is the field `fdOpen` (`MulticastUdp.IsOpen`, `NmeaMulticastUdp.EndpointIsOpen`); `MulticastUdp.IsOpenTracksLifecycle` and `NmeaMulticastUdp.EndpointIsOpenTracksLifecycle` say how the life-cycle calls change it.
The `open` and `close` contracts state what it returns.

## Model

| member | source | states |
|---|---|---|
| TextFormat.DecRoundTrip | src/NmeaMulticastUdp.cpp:103-105 | reading back the decimal text of the count (`<< messageCounter`) gives the count |
| TextFormat.DecInjective | src/NmeaMulticastUdp.cpp:103-105 | different counts print as different decimal text |
| TextFormat.Hex2 | src/NmeaMulticastUdp.cpp:114-115 | a value below 256 prints as exactly two upper-case hex digits, zero-padded, and the two digits read back as the value |
| MulticastConfig.InAddrLowByte | src/MulticastUdp.cpp:70-71 | on a little-endian host the low byte of `s_addr` is the address's first octet |
| MulticastConfig.SourceCheckAcceptsFrom224 | src/MulticastUdp.cpp:67-76 | the constructor's mask test passes exactly when the first octet is 224 or more |
| MulticastConfig.ClassEAddressPassesSourceCheck | src/MulticastUdp.cpp:67-76 | 240.0.0.1 passes the source's test although it is not a class D address |
| MulticastConfig.MulticastCheckIsClassD | src/MulticastUdp.cpp:67-76 | the corrected four-bit mask test passes exactly for class D (224–239) addresses, as section 4 of RFC 1112 defines them |
| MulticastConfig.ChecksAgreeBelow240 | src/MulticastUdp.cpp:67-76 | below 240.0.0.0 the source's test and the corrected test agree |
| MulticastConfig.Port16 | src/MulticastUdp.cpp:62-63 | the stored port is the `int` reduced to 16 bits as `htons(uint16_t)` receives it; ports 0..65535 are kept as given |
| MulticastConfig.CDiv | src/MulticastUdp.cpp:78 | C `/` truncates toward zero: the quotient times the divisor lies between 0 and the dividend, within one divisor of it |
| MulticastConfig.CRem | src/MulticastUdp.cpp:79 | C `%`: dividend = quotient × divisor + remainder, the remainder's magnitude is below the divisor, and its sign follows the dividend |
| MulticastConfig.SplitTimeout | src/MulticastUdp.cpp:78-79 | `tv_sec*1000 + tv_usec/1000` equals the millisecond timeout and the microsecond part stays within one second; `tv_sec` is the truncated quotient and `tv_usec` is the C remainder times 1000; for a non-negative timeout `tv_sec = timeout/1000` and `0 <= tv_usec < 1000000` |
| TransmissionGroup.Ordinal | include/NmeaMulticastUdp.h:18-36 | every group identifier has an enumerator value below 16 |
| TransmissionGroup.FromOrdinal | include/NmeaMulticastUdp.h:18-36 | every value 0..15 is the enumerator value of some identifier |
| TransmissionGroup.OrdinalsAreExactly0To15 | include/NmeaMulticastUdp.h:18-36 | the enumerator value identifies the group: `FromOrdinal` gives the group back, and two groups with the same value are the same, so there are exactly sixteen |
| TransmissionGroup.SourceGroupLookup | src/NmeaMulticastUdp.cpp:65-72 | the constructor reads the table entry, or the default pair ("", 0) that `operator[]` inserts when there is none |
| TransmissionGroup.UserGroupLookupIsEmpty | src/NmeaMulticastUdp.cpp:65-72 | for USR1..USR8 the constructor gets empty address text, which is the text of no address, and port 0 |
| TransmissionGroup.GroupEntry | src/NmeaMulticastUdp.cpp:25-33 | the group with enumerator value i maps to 239.192.0.(i+1), a class D address, on port 60001+i |
| TransmissionGroup.GroupEntriesDistinct | src/NmeaMulticastUdp.cpp:25-33 | distinct groups have distinct addresses and distinct ports |
| TransmissionGroup.GroupAddressesAreMulticast | src/NmeaMulticastUdp.cpp:65-72 | every group address passes both the source's and the corrected multicast test, so the constructor never throws for a group of the standard table |
| TransmissionGroup.SourceTableAgreesWithStandard | src/NmeaMulticastUdp.cpp:25-33 | the source's eight entries are the standard entries for MISC..PROP written as text, and exactly the user groups lack one |
| MulticastUdp.NewTransportAsWritten | src/MulticastUdp.cpp:46-83 | the constructor throws exactly when the group's first octet is below 224; otherwise the transport is closed, inactive, without observer, and keeps the given configuration |
| MulticastUdp.NewTransport | src/MulticastUdp.cpp:46-83 | with the corrected test, construction succeeds exactly for class D groups. The transport is closed, inactive and without observer. It stores the interface and group as given, the port reduced to 16 bits as `htons` receives it, and the timeout split into `tv_sec`/`tv_usec` as the code splits it, which stands for the requested number of milliseconds |
| MulticastUdp.ConstructorsAgreeBelow240 | src/MulticastUdp.cpp:67-76 | both constructors give the same result for group addresses below 240.0.0.0 |
| MulticastUdp.CopyTransport | src/MulticastUdp.cpp:40-44 | the copy has the same configuration and starts closed, inactive and without observer |
| MulticastUdp.NegotiateBufferSize | src/MulticastUdp.cpp:133-149 | the negotiated size is a power of two in 1..32768. Above 1 it was accepted. Every larger power up to 32768 was offered and rejected. The sizes offered run 32768, 16384, … and there are at most 15 of them; when the result is 1, all 15 were offered. Size 1 is never offered |
| MulticastUdp.LargerOffersRejected | src/MulticastUdp.cpp:133-139 | when halving stops at a size, every earlier offer was refused, every larger power of two up to 32768 was refused, and every offer is above 1 |
| MulticastUdp.OpenAsWritten | src/MulticastUdp.cpp:91-171 | `open` returns true exactly when the transport was closed and socket creation and bind succeed. Otherwise the socket ends up closed, including when it was open before |
| MulticastUdp.DoubleOpenAsWrittenCloses | src/MulticastUdp.cpp:160-168 | as written, a second `open` after a successful one returns false and leaves the transport closed |
| MulticastUdp.Open | include/MulticastUdp.h:53-60 | `open` returns true on success, and false on failure or when already open. An open transport is left untouched. A failed open from closed leaves the transport closed, so nothing leaks |
| MulticastUdp.OpenVersionsAgreeWhenClosed | src/MulticastUdp.cpp:96-159 | from a closed transport the corrected and the as-written `open` coincide |
| MulticastUdp.DoubleOpenIsNoOp | include/MulticastUdp.h:53-60 | with the corrected `open`, a second `open` returns false and keeps the socket open |
| MulticastUdp.OpenIgnoresSocketOptions | src/MulticastUdp.cpp:100-131 | failures of SO_REUSEADDR, IP_ADD_MEMBERSHIP and IP_MULTICAST_LOOP never change what `open` does |
| MulticastUdp.Close | src/MulticastUdp.cpp:173-189 | `close` returns true exactly when the socket was open. Afterwards it is closed, and a running listener is stopped. A closed transport is left unchanged |
| MulticastUdp.IsOpenTracksLifecycle | src/MulticastUdp.cpp:191-193 | `isOpen` (descriptor ≥ 0) is true after a successful `open`, kept by a failed corrected `open`, false after a failed `open` as written, and false after `close`; `close` returns what `isOpen` said before it |
| MulticastUdp.DoubleCloseIsNoOp | include/MulticastUdp.h:62-69 | a second `close` returns false and changes nothing |
| MulticastUdp.SetListener | src/MulticastUdp.cpp:220-222 | an observer is set and nothing else changes |
| MulticastUdp.UnsetListener | src/MulticastUdp.cpp:224-226 | the observer is cleared and nothing else changes |
| MulticastUdp.StartListening | src/MulticastUdp.cpp:228-239 | no change when already active or without an observer. Otherwise the transport becomes active, even if the `open` it performs fails. It is open afterwards exactly when it was already open or socket and bind succeed |
| MulticastUdp.StopListening | src/MulticastUdp.cpp:241-248 | afterwards the transport is not active, and nothing else changes; an inactive transport is left as it is |
| MulticastUdp.LifecycleReturnsToClosed | src/MulticastUdp.cpp:91-248 | open, startListening, stopListening, close takes a closed transport with an observer through Open, Listening and Open back to exactly the state it started from |
| MulticastUdp.Send | src/MulticastUdp.cpp:195-199 | the result is at least −1. On an open socket it is `sendto`'s result; on a closed one (descriptor −1) it is −1, the header's error value |
| MulticastUdp.Recv | src/MulticastUdp.cpp:201-218 | −2 exactly when `select` does not report the socket readable (a `select` error included). When it reports readable, exactly `recvfrom`'s result, −1 or a byte count |
| MulticastUdp.Classify | src/MulticastUdp.cpp:256-263 | positive → DataAvailable with that size, −2 → Timeout, anything else → ConnectionError; exactly one event |
| MulticastUdp.RecvDispatch | src/MulticastUdp.cpp:201-218 | data exactly when `select` and `recvfrom` both succeed with bytes. Timeout exactly when `select` does not report readable. Connection error when `recvfrom` gives −1 or an empty datagram |
| MulticastUdp.RunListener | src/MulticastUdp.cpp:250-266 | one event per loop iteration, each classifying that iteration's `select`/`recvfrom` outcome; timeouts and errors do not end the loop |
| NmeaMulticastUdp.Checksum | src/NmeaMulticastUdp.cpp:160-166 | the XOR of all character codes; for ASCII text it is below 128, so it prints as two hex digits |
| NmeaMulticastUdp.ChecksumAppend | src/NmeaMulticastUdp.cpp:160-166 | the checksum of a concatenation is the XOR of the parts' checksums |
| NmeaMulticastUdp.ChecksumSplice | src/NmeaMulticastUdp.cpp:160-166 | the checksum of a text with one character inside it is the XOR of the checksum before, that character's code, and the checksum after |
| NmeaMulticastUdp.ChecksumDetectsSingleChange | src/NmeaMulticastUdp.cpp:160-166 | replacing any one character by a different ASCII character changes the checksum |
| NmeaMulticastUdp.CalculateNmeaChecksum | src/NmeaMulticastUdp.cpp:160-166 | the left-to-right XOR loop computes the checksum of the whole text, below 128 |
| NmeaMulticastUdp.NextCounter | src/NmeaMulticastUdp.cpp:107-110 | from a count in 0..999 the next count lies in 1..999 and is congruent to count+1 modulo 999 (so 999 → 1, and 1000 is never stored) |
| NmeaMulticastUdp.AdvanceCounter | src/NmeaMulticastUdp.cpp:101-110 | only the sending source's entry changes (created if absent); every other entry is kept and all stay in 1..999 |
| NmeaMulticastUdp.TagBlock | src/NmeaMulticastUdp.cpp:103-117 | the tag block is "s:<id>,n:<count>" then '*' then two upper-case hex digits. The digits are the XOR checksum of everything before the '*' |
| NmeaMulticastUdp.TagBlockHasNoBackslash | src/NmeaMulticastUdp.cpp:103-117 | the tag block contains no backslash unless the source id does |
| NmeaMulticastUdp.Datagram | src/NmeaMulticastUdp.cpp:97-138 | the datagram is ten characters longer than the tag block and sentence together. At their offsets it holds "UdPbC\0", '\', the tag block, '\', the sentence and CR LF |
| NmeaMulticastUdp.TagBlockIsDelimited | src/NmeaMulticastUdp.cpp:119-128 | for a source id without backslash, no backslash occurs inside the tag block field, so the second delimiter marks its end |
| NmeaMulticastUdp.WriteChars | src/NmeaMulticastUdp.cpp:121-124 | copying a string character by character from a position leaves the old prefix followed by the string, advances the position by its length, and leaves every later position untouched |
| NmeaMulticastUdp.WriteDatagram | src/NmeaMulticastUdp.cpp:96-138 | the position-by-position writes into the 4096-byte buffer leave the datagram in its first bytes (ten plus the tag block and sentence lengths). The rest of the buffer is untouched |
| NmeaMulticastUdp.NewEndpoint | src/NmeaMulticastUdp.cpp:65-72 | with the standard 16-entry table and the corrected address test, construction from a group never fails. It gives a closed transport on the group's address and port, on any interface, with a 1000 ms timeout stored as `tv_sec` 1 and `tv_usec` 0, and no counters |
| NmeaMulticastUdp.NewEndpointAsWritten | src/NmeaMulticastUdp.cpp:65-72 | the constructor as written: for USR1..USR8 the table yields ("", 0), `inet_aton` rejects the empty text, and the transport gets port 0 and whatever address the field held; construction then succeeds exactly when that address passes the source's mask test. Whenever it succeeds, the transport is closed, on any interface, with the 1000 ms timeout stored as (1, 0), and the counters are empty |
| NmeaMulticastUdp.EndpointConstructorsAgreeOnTable | src/NmeaMulticastUdp.cpp:65-72 | for MISC..PROP the constructor as written builds exactly the endpoint of the standard table |
| NmeaMulticastUdp.CopyEndpoint | src/NmeaMulticastUdp.cpp:59-63 | the copy has the transport configuration, starts closed, and has an empty counter table |
| NmeaMulticastUdp.OpenEndpoint | src/NmeaMulticastUdp.cpp:78-80 | `open` delegated to the corrected transport `open`: true exactly when it was closed and socket and bind succeed. An open endpoint is left exactly as it is. Otherwise only whether the socket is open changes: configuration, listening state, observer and counters are kept |
| NmeaMulticastUdp.OpenEndpointAsWritten | src/NmeaMulticastUdp.cpp:78-80 | `open` delegated to the transport's `open` as written: true exactly when it was closed and socket and bind succeed; afterwards the socket is open exactly when the call returned true, so a second `open` closes it. Only whether the socket is open changes: configuration, listening state, observer and counters are kept |
| NmeaMulticastUdp.OpenEndpointVersionsAgreeWhenClosed | src/NmeaMulticastUdp.cpp:78-80 | from a closed endpoint the as-written and corrected `open` give the same result and state |
| NmeaMulticastUdp.CloseEndpoint | src/NmeaMulticastUdp.cpp:82-84 | `close` returns true exactly when the transport was open, and it is closed afterwards. An open endpoint has its running listener stopped, and nothing else changes: configuration, observer and counters are kept. A closed endpoint is left exactly as it is |
| NmeaMulticastUdp.EndpointIsOpenTracksLifecycle | src/NmeaMulticastUdp.cpp:78-88 | the endpoint's `isOpen` is true after a successful `open`, kept by a failed corrected `open`, false after a failed `open` as written, and false after `close`; `close` returns what `isOpen` said before it |
| NmeaMulticastUdp.RegisterSystemId | src/NmeaMulticastUdp.cpp:90-92 | the source's counter becomes 1; every other entry and the transport are unchanged |
| NmeaMulticastUdp.SendString | src/NmeaMulticastUdp.cpp:94-142 | the datagram carries the source's current count and fits the 4096-byte buffer. The count advances whether or not the send succeeds, and only that source's entry changes. The result is true exactly when the socket is open and a positive byte count was sent |
| NmeaMulticastUdp.UnregisteredSourceStartsAtZero | src/NmeaMulticastUdp.cpp:101-110 | an unregistered source's first datagram carries count 0, after which its counter is 1 |
| NmeaMulticastUdp.SendAll | src/NmeaMulticastUdp.cpp:101-110 | successive sends from a stored count s carry s, s+1, …, 999, 1, …: the k-th carries the value in 1..999 that is k past s modulo 999 |
| NmeaMulticastUdp.RegisteredSourceCounts | src/NmeaMulticastUdp.cpp:90-110 | after `registerSystemId`, successive sends carry 1, 2, …, 999, 1, …; neither 0 nor 1000 appears |

## Left out

- Socket system calls (`socket`, `bind`, `setsockopt`, `select`, `recvfrom`, `sendto`), `inet_aton` and `htons` byte swapping: their outcomes are parameters; addresses are already-converted octets on a little-endian host.
- Threads: the listener thread, `join` and the polled `active` flag as a cancellation mechanism. `active` is a plain boolean. `RunListener` takes as a parameter the number of iterations that see the flag set. The loop reads the observer on every iteration (src/MulticastUdp.cpp:255-264), so a `setListener` while it runs takes effect at the next event, and after `unsetListener` the running loop calls through a null observer; that undefined behaviour is not modelled.
- Logging (`BOOST_LOG_TRIVIAL`): no effect on results.
- The NMEA receive side: `recvString` always returns false, and the NMEA `startListening`, `stopListening` and `runListener` have empty bodies. There is no decoder to model or round-trip against.
- The NMEA `setListener`/`unsetListener`: declared in the header but not defined in the implementation.
- Destructors: they close an open socket (transport) or stop listening (endpoint). They are a `close` at end of life and are not modelled separately.
- Observer interfaces: only their callbacks appear, as the `Event` datatype. The test program is a manual demo.
- NmeaMulticastUdp.Checksum: covers ASCII text only. On a platform with signed `char`, a character above 127 sign-extends into the 16-bit accumulator, and the hex field gets more than two digits.
- NmeaMulticastUdp.TagBlock: requires the source id to be ASCII text, for the reason given for `NmeaMulticastUdp.Checksum`.
- NmeaMulticastUdp.SendString: requires the source id to be ASCII text, as `NmeaMulticastUdp.Checksum` and `NmeaMulticastUdp.TagBlock` do, because the id is part of the checksummed tag block. It also requires the datagram to fit the 4096-byte write buffer. The source writes without a bounds check, so a longer datagram overruns the buffer, which cannot be modelled.
- MulticastUdp.Send: does not bound the byte count `sendto` reports by the datagram length.
- `int` widths: the timeout and counter are unbounded integers. The source's values stay well within 32 bits.
- The receive buffer contents in `recv` and `onDataAvailable`: only byte counts are modelled.

## Findings

| source | as written | input that shows it | evidently intended | confidence | as-written member | corrected member |
|---|---|---|---|---|---|---|
| src/MulticastUdp.cpp:67-76 | the mask 224.0.0.0 is ANDed with the first octet, so only its top three bits are tested and 240–255 pass | group address 240.0.0.1 is accepted | reject every address outside class D (224.0.0.0/4, section 4 of RFC 1112), as the error message "a multicast address must be given" says | high; not executed | MulticastConfig.ClassEAddressPassesSourceCheck | MulticastConfig.MulticastCheckIsClassD |
| src/MulticastUdp.cpp:160-168 | when already open, `ret` stays false and the failure clean-up closes the open socket | `open()` then `open()`: the second returns false and `isOpen()` is false | return false and leave the socket open, as include/MulticastUdp.h:58 documents | high; not executed | MulticastUdp.DoubleOpenAsWrittenCloses | MulticastUdp.DoubleOpenIsNoOp |
| src/NmeaMulticastUdp.cpp:25-33 | the table has entries for MISC..PROP only; for USR1..USR8 `operator[]` hands the constructor ("", 0) | constructing with `NmeaTransmissionGroup_USR1` gives port 0 and an address text `inet_aton` rejects, which leaves the address uninitialised | USR1..USR8 map to 239.192.0.9–239.192.0.16 and ports 60009–60016, continuing the table as EN 61162-450 assigns them | medium; not executed | TransmissionGroup.UserGroupLookupIsEmpty | TransmissionGroup.GroupEntriesDistinct |

The endpoint model uses the corrected members: `NewEndpoint` builds its transport with
`NewTransport` and the full table `GroupEntry`, and `OpenEndpoint` and `StartListening`
use `Open`. The as-written members stay in the model beside them: `NewTransportAsWritten`,
`OpenAsWritten`, `SourceGroupTable` and `SourceGroupLookup` for the transport and the
table, and `NewEndpointAsWritten` and `OpenEndpointAsWritten` for the endpoint as the
code builds it. Lemmas state where each pair agrees (`ConstructorsAgreeBelow240`,
`OpenVersionsAgreeWhenClosed`, `EndpointConstructorsAgreeOnTable`,
`OpenEndpointVersionsAgreeWhenClosed`) and where they differ.
