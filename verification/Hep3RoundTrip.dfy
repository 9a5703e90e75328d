/**
  Rebuilding a HEP3 packet from a stored row (reconstructHEP3, src/cli/migrate_hep.go) and reading it
  back with the decoder. net.ParseIP is the parameter `parseIP`; an address has its 16-byte form.
  */
module Hep3RoundTrip {
  import opened Octets
  import opened Text
  import opened Hep3
  import opened HepStruct
  import P = Protobuf

  const ZERO4: Bytes := [0, 0, 0, 0]
  const ZERO16: Bytes := [0, 0, 0, 0, 0, 0, 0, 0, 0, 0, 0, 0, 0, 0, 0, 0]
  const MAPPED: Bytes := [0, 0, 0, 0, 0, 0, 0, 0, 0, 0, 255, 255]

  type Ip = b: Bytes | |b| == 16 witness ZERO16

  /** The protocol header of a homer-app row. */
  datatype Header = Header(
    family: int, protocol: int, srcIp: Bytes, dstIp: Bytes, srcPort: int, dstPort: int, timeSec: int, timeUsec: int,
    payloadType: int, captureID: Word, capturePass: Bytes, correlationID: Bytes, nodeName: Bytes)

  /** A row: its SIP text, call id, header, and creation date as Unix seconds and nanoseconds. */
  datatype Row = Row(payload: Bytes, callID: Bytes, header: Header, created: Option<(int, nat)>)

  /** net.IP.To4. */
  function To4(ip: Ip): (v4: Option<Bytes>)
    ensures v4.Some? ==> |v4.value| == 4 && MAPPED + v4.value == ip
  {
    if ip[..12] == MAPPED then assert ip[..12] + ip[12..] == ip; Some(ip[12..]) else None
  }

  /** parseIPOrZero. */
  function Address(s: Bytes, ipv6: bool, parseIP: Bytes -> Option<Ip>): Ip {
    var t := TrimSpace(s);
    var zero := if ipv6 then ZERO16 else MAPPED + ZERO4;
    if t == [] then zero else (match parseIP(t) case Some(ip) => ip case None => zero)
  }

  /** The body of ipChunk. */
  function AddressBody(ip: Ip): Bytes {
    match To4(ip) case Some(v4) => v4 case None => ip
  }

  function Family(h: Header): Byte {
    if h.family == 10 then 10 else 2
  }

  function Protocol(h: Header): Byte {
    if 0 < h.protocol < 256 then h.protocol else 17
  }

  function PayloadType(h: Header): Byte {
    if 0 < h.payloadType < 256 then h.payloadType else 1
  }

  function Source(h: Header, parseIP: Bytes -> Option<Ip>): Ip {
    Address(h.srcIp, h.family == 10, parseIP)
  }

  function Destination(h: Header, parseIP: Bytes -> Option<Ip>): Ip {
    Address(h.dstIp, h.family == 10, parseIP)
  }

  /** Seconds and microseconds; the creation date stands in for a missing time. */
  function Time(row: Row): (int, int) {
    if row.header.timeSec == 0 && row.created.Some? then (row.created.value.0, row.created.value.1 / 1000)
    else (row.header.timeSec, row.header.timeUsec)
  }

  function CaptureId(h: Header, force: Word): Word {
    if force != 0 then force else if h.captureID != 0 then h.captureID else 1
  }

  /** The trimmed correlation id, or the trimmed call id when there is none. */
  function Correlation(row: Row): Bytes {
    var id := TrimSpace(row.header.correlationID);
    if id != [] then id else TrimSpace(row.callID)
  }

  function Chunk0(kind: nat, body: Bytes): Chunk {
    Chunk(0, kind, body)
  }

  function Optional(kind: nat, body: Bytes): seq<Chunk> {
    if body == [] then [] else [Chunk0(kind, body)]
  }

  function Addresses(row: Row, parseIP: Bytes -> Option<Ip>): seq<Chunk> {
    var h := row.header;
    [Chunk0(1, [Family(h)]), Chunk0(2, [Protocol(h)]), Chunk0(3, AddressBody(Source(h, parseIP))),
     Chunk0(4, AddressBody(Destination(h, parseIP))), Chunk0(7, Be16(h.srcPort % U16))]
  }

  function Times(row: Row, force: Word): seq<Chunk> {
    var h := row.header;
    [Chunk0(8, Be16(h.dstPort % U16)), Chunk0(9, Be32(Time(row).0 % U32)), Chunk0(10, Be32(Time(row).1 % U32)),
     Chunk0(11, [PayloadType(h)]), Chunk0(12, Be32(CaptureId(h, force)))]
  }

  function Texts(row: Row): seq<Chunk> {
    Optional(14, row.header.capturePass) + [Chunk0(15, row.payload)] + Optional(17, Correlation(row)) +
    Optional(19, row.header.nodeName)
  }

  function Chunks(row: Row, force: Word, parseIP: Bytes -> Option<Ip>): seq<Chunk> {
    Addresses(row, parseIP) + Times(row, force) + Texts(row)
  }

  lemma OptionalIs(kind: nat, body: Bytes, cs: seq<Chunk>)
    ensures cs + Optional(kind, body) == if body == [] then cs else cs + [Chunk0(kind, body)]
  {
    assert cs + [] == cs;
  }

  lemma InOrder(base: seq<Chunk>, a: seq<Chunk>, b: seq<Chunk>, c: seq<Chunk>, d: seq<Chunk>)
    ensures base + a + b + c + d == base + (a + b + c + d)
  {
  }

  /** The chunks that every packet has, with their defaults. */
  method BaseChunks(row: Row, force: Word, parseIP: Bytes -> Option<Ip>) returns (chunks: seq<Chunk>)
    ensures chunks == Addresses(row, parseIP) + Times(row, force)
  {
    hide Address, AddressBody, Be16, Be32;
    var h := row.header;
    var family: Byte := 2;
    if h.family == 10 { family := 10; }
    var proto: Byte := 17;
    if h.protocol > 0 && h.protocol < 256 { proto := h.protocol; }
    var srcIP := Address(h.srcIp, family == 10, parseIP);
    var dstIP := Address(h.dstIp, family == 10, parseIP);
    var timeSec, timeUsec := h.timeSec, h.timeUsec;
    if timeSec == 0 && row.created.Some? {
      timeSec, timeUsec := row.created.value.0, row.created.value.1 / 1000;
    }
    var payloadType: Byte := 1;
    if h.payloadType > 0 && h.payloadType < 256 { payloadType := h.payloadType; }
    var captureID := force;
    if captureID == 0 { captureID := h.captureID; }
    if captureID == 0 { captureID := 1; }
    var addresses :=
      [Chunk0(1, [family]), Chunk0(2, [proto]), Chunk0(3, AddressBody(srcIP)), Chunk0(4, AddressBody(dstIP)),
       Chunk0(7, Be16(h.srcPort % U16))];
    var times :=
      [Chunk0(8, Be16(h.dstPort % U16)), Chunk0(9, Be32(timeSec % U32)), Chunk0(10, Be32(timeUsec % U32)),
       Chunk0(11, [payloadType]), Chunk0(12, Be32(captureID))];
    assert addresses == Addresses(row, parseIP);
    assert times == Times(row, force);
    chunks := addresses + times;
  }

  /** reconstructHEP3; None is the error of an empty payload. */
  method Reconstruct(row: Row, force: Word, parseIP: Bytes -> Option<Ip>) returns (packet: Option<Bytes>)
    ensures packet == if row.payload == [] then None else Some(Packet(Chunks(row, force, parseIP)))
  {
    hide Addresses, Times, Optional, Packet;
    if row.payload == [] { return None; }
    var h := row.header;
    var chunks := BaseChunks(row, force, parseIP);
    ghost var base := chunks;
    OptionalIs(14, h.capturePass, chunks);
    if h.capturePass != [] { chunks := chunks + [Chunk0(14, h.capturePass)]; }
    chunks := chunks + [Chunk0(15, row.payload)];
    var id := TrimSpace(h.correlationID);
    var cid := TrimSpace(row.callID);
    OptionalIs(17, Correlation(row), chunks);
    if id != [] {
      chunks := chunks + [Chunk0(17, id)];
    } else if cid != [] {
      chunks := chunks + [Chunk0(17, cid)];
    }
    OptionalIs(19, h.nodeName, chunks);
    if h.nodeName != [] { chunks := chunks + [Chunk0(19, h.nodeName)]; }
    InOrder(base, Optional(14, h.capturePass), [Chunk0(15, row.payload)], Optional(17, Correlation(row)),
            Optional(19, h.nodeName));
    var p := Assemble(chunks);
    packet := Some(p);
  }

  // ---------------------------------------------------------------- acceptance

  predicate Numbered(c: Chunk) {
    c.vendor < U16 && c.kind < U16 && 6 + |c.body| < U16
  }

  /** Chunks whose numbers fit are scanned to the end exactly when all bodies have their size. */
  lemma {:induction false} ScanFramesIff(cs: seq<Chunk>)
    requires forall i :: 0 <= i < |cs| ==> Numbered(cs[i])
    ensures Scan(Frames(cs)).ok <==> AllSized(cs)
  {
    if cs == [] {
    } else {
      hide Frame, ChunkAt, FromBe16, Sized;
      FrameReads(cs[0], Frames(cs[1..]));
      assert Numbered(cs[0]);
      ScanFramesIff(cs[1..]);
      assert AllSized(cs) <==> Sized(cs[0]) && AllSized(cs[1..]) by {
        assert forall i :: 0 <= i < |cs[1..]| ==> cs[1..][i] == cs[i + 1];
        assert forall i :: 1 <= i < |cs| ==> cs[i] == cs[1..][i - 1];
      }
    }
  }

  lemma {:induction false} EachIsShorter(cs: seq<Chunk>, i: nat)
    requires i < |cs|
    ensures 6 + |cs[i].body| <= |Frames(cs)|
  {
    if i == 0 {
    } else {
      EachIsShorter(cs[1..], i - 1);
    }
  }

  lemma PacketReads(cs: seq<Chunk>)
    ensures var p := Packet(cs); |p| == 6 + |Frames(cs)| && p[6..] == Frames(cs) && FromBe16(p[4..6]) == |p| % U16
  {
    var p := Packet(cs);
    assert p[4..6] == Be16((6 + |Frames(cs)|) % U16);
    Be16Inverse((6 + |Frames(cs)|) % U16);
  }

  lemma ChunksSized(row: Row, force: Word, parseIP: Bytes -> Option<Ip>)
    ensures AllSized(Times(row, force)) && AllSized(Texts(row))
    ensures AllSized(Addresses(row, parseIP)) <==>
            To4(Source(row.header, parseIP)).Some? && To4(Destination(row.header, parseIP)).Some?
  {
    hide Source, Destination, To4, Be16, Be32, Time, Correlation, CaptureId, PayloadType, Family, Protocol;
    var a := Addresses(row, parseIP);
    assert Sized(a[0]) && Sized(a[1]) && Sized(a[4]);
    assert Sized(a[2]) <==> To4(Source(row.header, parseIP)).Some?;
    assert Sized(a[3]) <==> To4(Destination(row.header, parseIP)).Some?;
    assert AllSized(a) <==> Sized(a[2]) && Sized(a[3]);
  }

  lemma SizedConcat(a: seq<Chunk>, b: seq<Chunk>)
    ensures AllSized(a + b) <==> AllSized(a) && AllSized(b)
  {
    assert forall i :: 0 <= i < |a| ==> (a + b)[i] == a[i];
    assert forall i :: 0 <= i < |b| ==> (a + b)[|a| + i] == b[i];
    assert forall i :: |a| <= i < |a + b| ==> (a + b)[i] == b[i - |a|];
  }

  /**
    The decoder accepts a rebuilt packet exactly when it is at most 65535 bytes long and both
    addresses have a 4-byte form: an IPv6 address goes out under a chunk type made for IPv4.
    */
  lemma AcceptedIff(row: Row, force: Word, parseIP: Bytes -> Option<Ip>)
    ensures var p := Packet(Chunks(row, force, parseIP));
            Accepts(p) <==>
            |p| < U16 && To4(Source(row.header, parseIP)).Some? && To4(Destination(row.header, parseIP)).Some?
  {
    hide Sized, Addresses, Times, Texts, Scan, Frames, To4, FromBe16, Source, Destination;
    var cs := Chunks(row, force, parseIP);
    SmallKinds(row, force, parseIP);
    PacketReads(cs);
    ChunksSized(row, force, parseIP);
    SizedConcat(Addresses(row, parseIP) + Times(row, force), Texts(row));
    SizedConcat(Addresses(row, parseIP), Times(row, force));
    if |Packet(cs)| < U16 {
      forall i | 0 <= i < |cs|
        ensures Numbered(cs[i])
      {
        EachIsShorter(cs, i);
        assert Small(cs[i]);
      }
      ScanFramesIff(cs);
    }
  }

  predicate Small(c: Chunk) {
    c.vendor == 0 && c.kind < 20
  }

  ghost predicate AllSmall(cs: seq<Chunk>) {
    forall i :: 0 <= i < |cs| ==> Small(cs[i])
  }

  lemma SmallConcat(a: seq<Chunk>, b: seq<Chunk>)
    requires AllSmall(a) && AllSmall(b)
    ensures AllSmall(a + b)
  {
  }

  lemma SmallKinds(row: Row, force: Word, parseIP: Bytes -> Option<Ip>)
    ensures AllSmall(Chunks(row, force, parseIP))
  {
    hide Be16, Be32, AddressBody, Time, Correlation, PayloadType, CaptureId, Family, Protocol;
    assert AllSmall(Addresses(row, parseIP)) && AllSmall(Times(row, force));
    var a, p := Optional(14, row.header.capturePass), [Chunk0(15, row.payload)];
    var c, d := Optional(17, Correlation(row)), Optional(19, row.header.nodeName);
    SmallConcat(a, p);
    SmallConcat(a + p, c);
    SmallConcat(a + p + c, d);
    SmallConcat(Addresses(row, parseIP), Times(row, force));
    SmallConcat(Addresses(row, parseIP) + Times(row, force), Texts(row));
  }

  // ---------------------------------------------------------------- the round trip

  lemma {:induction false} ApplyConcat(f: Fields, a: seq<Chunk>, b: seq<Chunk>, v6: Bytes -> Bytes)
    requires AllSized(a) && AllSized(b)
    ensures AllSized(a + b) && ApplyAll(f, a + b, v6) == ApplyAll(ApplyAll(f, a, v6), b, v6)
    decreases |a|
  {
    hide Apply, Sized;
    SizedConcat(a, b);
    if a == [] {
      assert a + b == b;
    } else {
      assert (a + b)[1..] == a[1..] + b;
      ApplyConcat(Apply(f, a[0], v6), a[1..], b, v6);
    }
  }

  lemma ApplyFive(f: Fields, a: Chunk, b: Chunk, c: Chunk, d: Chunk, e: Chunk, v6: Bytes -> Bytes)
    requires Sized(a) && Sized(b) && Sized(c) && Sized(d) && Sized(e)
    ensures ApplyAll(f, [a, b, c, d, e], v6) ==
            Apply(Apply(Apply(Apply(Apply(f, a, v6), b, v6), c, v6), d, v6), e, v6)
  {
    hide Apply, Sized, ApplyAll;
    ApplyCons(f, a, [b, c, d, e], v6);
    var g := Apply(f, a, v6);
    ApplyCons(g, b, [c, d, e], v6);
    var h := Apply(g, b, v6);
    ApplyCons(h, c, [d, e], v6);
    var k := Apply(h, c, v6);
    ApplyCons(k, d, [e], v6);
    ApplySingle(Apply(k, d, v6), e, v6);
    assert [a, b, c, d, e] == [a] + [b, c, d, e] && [b, c, d, e] == [b] + [c, d, e];
    assert [c, d, e] == [c] + [d, e] && [d, e] == [d] + [e];
  }

  lemma ApplyCons(f: Fields, c: Chunk, rest: seq<Chunk>, v6: Bytes -> Bytes)
    requires Sized(c) && AllSized(rest)
    ensures AllSized([c] + rest) && ApplyAll(f, [c] + rest, v6) == ApplyAll(Apply(f, c, v6), rest, v6)
  {
    hide Apply, Sized;
    assert ([c] + rest)[1..] == rest;
  }

  lemma ApplySingle(f: Fields, c: Chunk, v6: Bytes -> Bytes)
    requires Sized(c)
    ensures ApplyAll(f, [c], v6) == Apply(f, c, v6)
  {
    hide Apply, Sized;
    assert [c][1..] == [];
  }

  lemma ApplyOptional(f: Fields, kind: nat, body: Bytes, v6: Bytes -> Bytes)
    requires kind in {14, 17, 19}
    ensures AllSized(Optional(kind, body))
    ensures ApplyAll(f, Optional(kind, body), v6) ==
            if body == [] then f
            else if kind == 14 then f.(wire := f.wire.(nodePW := body))
            else if kind == 17 then f.(wire := f.wire.(cid := body))
            else f.(nodeName := body)
  {
    if body != [] {
      var c := Chunk0(kind, body);
      assert Sized(c);
      ApplySingle(f, c, v6);
    }
  }

  /** What the decoder should find in the packet of a row. */
  function Expected(f: Fields, row: Row, force: Word, src: Bytes, dst: Bytes): Fields {
    var h := row.header;
    Fields(
      f.wire.(version := Family(h), protocol := Protocol(h), srcIP := Dotted(src), dstIP := Dotted(dst),
              srcPort := h.srcPort % U16, dstPort := h.dstPort % U16,
              tsec := Time(row).0 % U32, tmsec := Time(row).1 % U32,
              protoType := PayloadType(h), nodeID := CaptureId(h, force),
              nodePW := if h.capturePass == [] then f.wire.nodePW else h.capturePass,
              payload := row.payload,
              cid := if Correlation(row) == [] then f.wire.cid else Correlation(row)),
      ProtoName(PayloadType(h)),
      if h.nodeName == [] then f.nodeName else h.nodeName)
  }

  lemma AddressesApplied(f: Fields, row: Row, parseIP: Bytes -> Option<Ip>, src: Bytes, dst: Bytes, v6: Bytes -> Bytes)
    requires To4(Source(row.header, parseIP)) == Some(src) && To4(Destination(row.header, parseIP)) == Some(dst)
    ensures AllSized(Addresses(row, parseIP))
    ensures ApplyAll(f, Addresses(row, parseIP), v6) ==
            f.(wire := f.wire.(version := Family(row.header), protocol := Protocol(row.header), srcIP := Dotted(src),
                               dstIP := Dotted(dst), srcPort := row.header.srcPort % U16))
  {
    hide Dotted, Be16, FromBe16, Family, Protocol, ApplyAll;
    var a := Addresses(row, parseIP);
    Be16Inverse(row.header.srcPort % U16);
    ApplyFive(f, a[0], a[1], a[2], a[3], a[4], v6);
    assert a == [a[0], a[1], a[2], a[3], a[4]];
  }

  lemma TimesApplied(f: Fields, row: Row, force: Word, v6: Bytes -> Bytes)
    ensures AllSized(Times(row, force))
    ensures ApplyAll(f, Times(row, force), v6) ==
            f.(wire := f.wire.(dstPort := row.header.dstPort % U16, tsec := Time(row).0 % U32,
                               tmsec := Time(row).1 % U32, protoType := PayloadType(row.header),
                               nodeID := CaptureId(row.header, force)),
               protoString := ProtoName(PayloadType(row.header)))
  {
    hide Be16, FromBe16, Be32, FromBe32, PayloadType, CaptureId, Time, ProtoName, ApplyAll;
    var a := Times(row, force);
    Be16Inverse(row.header.dstPort % U16);
    Be32Inverse(Time(row).0 % U32);
    Be32Inverse(Time(row).1 % U32);
    Be32Inverse(CaptureId(row.header, force));
    ApplyFive(f, a[0], a[1], a[2], a[3], a[4], v6);
    assert a == [a[0], a[1], a[2], a[3], a[4]];
  }

  lemma TextsApplied(f: Fields, row: Row, v6: Bytes -> Bytes)
    ensures AllSized(Texts(row))
    ensures ApplyAll(f, Texts(row), v6) ==
            f.(wire := f.wire.(nodePW := if row.header.capturePass == [] then f.wire.nodePW else row.header.capturePass,
                               payload := row.payload,
                               cid := if Correlation(row) == [] then f.wire.cid else Correlation(row)),
               nodeName := if row.header.nodeName == [] then f.nodeName else row.header.nodeName)
  {
    hide Correlation, ApplyAll, Optional, Sized, Apply;
    var a, p := Optional(14, row.header.capturePass), [Chunk0(15, row.payload)];
    var c, d := Optional(17, Correlation(row)), Optional(19, row.header.nodeName);
    ApplyOptional(f, 14, row.header.capturePass, v6);
    var g := ApplyAll(f, a, v6);
    PayloadApplied(g, row.payload, v6);
    ApplyConcat(f, a, p, v6);
    var h := ApplyAll(g, p, v6);
    ApplyOptional(h, 17, Correlation(row), v6);
    ApplyConcat(f, a + p, c, v6);
    var k := ApplyAll(h, c, v6);
    ApplyOptional(k, 19, row.header.nodeName, v6);
    ApplyConcat(f, a + p + c, d, v6);
  }

  lemma PayloadApplied(f: Fields, payload: Bytes, v6: Bytes -> Bytes)
    ensures AllSized([Chunk0(15, payload)])
    ensures ApplyAll(f, [Chunk0(15, payload)], v6) == f.(wire := f.wire.(payload := payload))
  {
    ApplySingle(f, Chunk0(15, payload), v6);
  }

  /**
    Every accepted packet of a row gives back the row: family, protocol, dotted addresses, ports,
    times, type, capture id, and the texts that are there, over whatever the decoder's packet held.
    */
  lemma RowComesBack(f: Fields, row: Row, force: Word, parseIP: Bytes -> Option<Ip>, v6: Bytes -> Bytes)
    requires Accepts(Packet(Chunks(row, force, parseIP)))
    ensures var p := Packet(Chunks(row, force, parseIP));
            var src, dst := To4(Source(row.header, parseIP)), To4(Destination(row.header, parseIP));
            && src.Some? && dst.Some?
            && Outcome(f, p[6..], v6) == (true, Expected(f, row, force, src.value, dst.value))
  {
    hide Sized, Addresses, Times, Texts, Scan, Frames, To4, FromBe16, Apply, Source, Destination, Correlation, ApplyAll;
    var cs := Chunks(row, force, parseIP);
    AcceptedIff(row, force, parseIP);
    PacketReads(cs);
    var src, dst := To4(Source(row.header, parseIP)), To4(Destination(row.header, parseIP));
    AddressesApplied(f, row, parseIP, src.value, dst.value, v6);
    var g := ApplyAll(f, Addresses(row, parseIP), v6);
    TimesApplied(g, row, force, v6);
    var h := ApplyAll(g, Times(row, force), v6);
    TextsApplied(h, row, v6);
    ApplyConcat(f, Addresses(row, parseIP), Times(row, force), v6);
    ApplyConcat(f, Addresses(row, parseIP) + Times(row, force), Texts(row), v6);
    ScannedAll(row, force, parseIP);
  }

  lemma ScannedAll(row: Row, force: Word, parseIP: Bytes -> Option<Ip>)
    requires |Packet(Chunks(row, force, parseIP))| < U16 && AllSized(Chunks(row, force, parseIP))
    ensures Scan(Frames(Chunks(row, force, parseIP))) == Scanned(Chunks(row, force, parseIP), true)
  {
    hide Sized, Chunks, Frames, Scan;
    var cs := Chunks(row, force, parseIP);
    SmallKinds(row, force, parseIP);
    forall i | 0 <= i < |cs|
      ensures Good(cs[i])
    {
      EachIsShorter(cs, i);
      assert Small(cs[i]);
    }
    PacketReads(cs);
    ScanFrames(cs);
  }

  /** The packet holds the numbers of the row that are there and fit, and else the defaults of the source. */
  ghost predicate NumbersOf(w: P.Packet, row: Row, force: Word) {
    var h := row.header;
    && (h.family == 10 ==> w.version == 10)
    && (h.family != 10 ==> w.version == 2)
    && (0 < h.protocol < 256 ==> w.protocol == h.protocol)
    && (h.protocol <= 0 || 256 <= h.protocol ==> w.protocol == 17)
    && (0 <= h.srcPort < 0x1_0000 ==> w.srcPort == h.srcPort)
    && (0 <= h.dstPort < 0x1_0000 ==> w.dstPort == h.dstPort)
    && (0 < h.payloadType < 256 ==> w.protoType == h.payloadType)
    && (h.payloadType <= 0 || 256 <= h.payloadType ==> w.protoType == 1)
    && (force != 0 ==> w.nodeID == force)
    && (force == 0 && h.captureID != 0 ==> w.nodeID == h.captureID)
    && (force == 0 && h.captureID == 0 ==> w.nodeID == 1)
  }

  /** The packet has the time of the header; where that has no seconds, the creation date to the microsecond. */
  ghost predicate TimeOf(w: P.Packet, row: Row) {
    var h := row.header;
    && (0 < h.timeSec < U32 ==> w.tsec == h.timeSec)
    && (h.timeSec != 0 && 0 <= h.timeUsec < U32 ==> w.tmsec == h.timeUsec)
    && (h.timeSec == 0 && row.created.Some? ==>
          var (seconds, nanos) := row.created.value;
          && (0 <= seconds < U32 ==> w.tsec == seconds)
          && (nanos < 1_000_000_000 ==> w.tmsec * 1000 <= nanos < w.tmsec * 1000 + 1000))
    && (h.timeSec == 0 && row.created.None? ==> w.tsec == 0 && (0 <= h.timeUsec < U32 ==> w.tmsec == h.timeUsec))
  }

  /** The packet has the texts of the row; a missing correlation id is the call id. */
  ghost predicate TextsOf(g: Fields, row: Row) {
    var h := row.header;
    && g.wire.payload == row.payload
    && (h.capturePass != [] ==> g.wire.nodePW == h.capturePass)
    && (h.nodeName != [] ==> g.nodeName == h.nodeName)
    && (TrimSpace(h.correlationID) != [] ==> g.wire.cid == TrimSpace(h.correlationID))
    && (TrimSpace(h.correlationID) == [] && TrimSpace(row.callID) != [] ==> g.wire.cid == TrimSpace(row.callID))
  }

  /** The packet read back says what the row says. */
  lemma RowSays(f: Fields, row: Row, force: Word, parseIP: Bytes -> Option<Ip>, v6: Bytes -> Bytes)
    requires Accepts(Packet(Chunks(row, force, parseIP)))
    ensures var g := Outcome(f, Packet(Chunks(row, force, parseIP))[6..], v6).1;
            NumbersOf(g.wire, row, force) && TimeOf(g.wire, row) && TextsOf(g, row)
  {
    hide *;
    RowComesBack(f, row, force, parseIP, v6);
    var src, dst := To4(Source(row.header, parseIP)).value, To4(Destination(row.header, parseIP)).value;
    ExpectedSays(f, row, force, src, dst);
  }

  lemma ExpectedSays(f: Fields, row: Row, force: Word, src: Bytes, dst: Bytes)
    ensures var g := Expected(f, row, force, src, dst);
            NumbersOf(g.wire, row, force) && TimeOf(g.wire, row) && TextsOf(g, row)
  {
    hide TrimSpace, Dotted, ProtoName;
    SmallModulo(row.header.srcPort, U16);
    SmallModulo(row.header.dstPort, U16);
    SmallModulo(row.header.timeSec, U32);
    SmallModulo(row.header.timeUsec, U32);
    if row.created.Some? {
      SmallModulo(row.created.value.0, U32);
      SmallModulo(row.created.value.1 / 1000, U32);
    }
  }

  lemma SmallModulo(x: int, m: nat)
    requires m > 0
    ensures 0 <= x < m ==> x % m == x
  {
  }

  // ---------------------------------------------------------------- the text of the addresses

  /** A source address that is missing, or no address, is sent as 0.0.0.0; in a row of IPv6 it is never accepted. */
  lemma NoSource(f: Fields, row: Row, force: Word, parseIP: Bytes -> Option<Ip>, v6: Bytes -> Bytes)
    requires var t := TrimSpace(row.header.srcIp); t == [] || parseIP(t) == None
    ensures var p := Packet(Chunks(row, force, parseIP));
            if row.header.family == 10 then !Accepts(p)
            else Accepts(p) ==> Outcome(f, p[6..], v6).1.wire.srcIP == Ascii("0.0.0.0")
  {
    hide Chunks, Accepts, Outcome, TrimSpace, Dotted, Expected, To4, Address;
    var h := row.header;
    ZeroAddress(h.srcIp, h.family == 10, parseIP);
    AcceptedIff(row, force, parseIP);
    if Accepts(Packet(Chunks(row, force, parseIP))) {
      RowComesBack(f, row, force, parseIP, v6);
      ExpectedAddresses(f, row, force, To4(Source(h, parseIP)).value, To4(Destination(h, parseIP)).value);
      ZeroText();
    }
  }

  /** The same for the destination. */
  lemma NoDestination(f: Fields, row: Row, force: Word, parseIP: Bytes -> Option<Ip>, v6: Bytes -> Bytes)
    requires var t := TrimSpace(row.header.dstIp); t == [] || parseIP(t) == None
    ensures var p := Packet(Chunks(row, force, parseIP));
            if row.header.family == 10 then !Accepts(p)
            else Accepts(p) ==> Outcome(f, p[6..], v6).1.wire.dstIP == Ascii("0.0.0.0")
  {
    hide Chunks, Accepts, Outcome, TrimSpace, Dotted, Expected, To4, Address;
    var h := row.header;
    ZeroAddress(h.dstIp, h.family == 10, parseIP);
    AcceptedIff(row, force, parseIP);
    if Accepts(Packet(Chunks(row, force, parseIP))) {
      RowComesBack(f, row, force, parseIP, v6);
      ExpectedAddresses(f, row, force, To4(Source(h, parseIP)).value, To4(Destination(h, parseIP)).value);
      ZeroText();
    }
  }

  lemma ZeroAddress(text: Bytes, ipv6: bool, parseIP: Bytes -> Option<Ip>)
    requires TrimSpace(text) == [] || parseIP(TrimSpace(text)) == None
    ensures To4(Address(text, ipv6, parseIP)) == if ipv6 then None else Some(ZERO4)
  {
    hide TrimSpace;
    assert (MAPPED + ZERO4)[..12] == MAPPED && (MAPPED + ZERO4)[12..] == ZERO4;
    assert ZERO16[..12][10] == 0 && MAPPED[10] == 255;
  }

  lemma ExpectedAddresses(f: Fields, row: Row, force: Word, src: Bytes, dst: Bytes)
    ensures var w := Expected(f, row, force, src, dst).wire; w.srcIP == Dotted(src) && w.dstIP == Dotted(dst)
  {
  }

  lemma ZeroText()
    ensures Dotted(ZERO4) == Ascii("0.0.0.0")
  {
    DottedIs(ZERO4);
    assert Itoa(0) == [48];
  }

  /** What net.ParseIP makes of dotted quads: the 16-byte form of their four octets. */
  ghost predicate ReadsQuads(parseIP: Bytes -> Option<Ip>) {
    forall a: Bytes :: |a| == 4 ==> parseIP(Dotted(a)) == Some(MAPPED + a)
  }

  lemma DottedTrimmed(a: Bytes)
    requires |a| == 4
    ensures Dotted(a) != [] && TrimSpace(Dotted(a)) == Dotted(a)
  {
    var ts := OctetTexts(a);
    forall i | 0 <= i < |ts| ensures ts[i] != [] && Digit(ts[i][0]) && Digit(ts[i][|ts[i]| - 1]) {
      assert ts[i] == Itoa(a[i]);
    }
    EndsInDigits(ts);
    TrimSpaceGraphic(Dotted(a));
  }

  /** Texts of digits joined by dots begin and end in a digit. */
  lemma {:induction false} EndsInDigits(ts: seq<Bytes>)
    requires |ts| >= 1 && forall i :: 0 <= i < |ts| ==> ts[i] != [] && Digit(ts[i][0]) && Digit(ts[i][|ts[i]| - 1])
    ensures var s := Join(ts, [DOT]); s != [] && Digit(s[0]) && Digit(s[|s| - 1])
  {
    if |ts| == 1 {
    } else {
      EndsInDigits(ts[1..]);
    }
  }

  lemma QuadAddress(a: Bytes, ipv6: bool, parseIP: Bytes -> Option<Ip>)
    requires ReadsQuads(parseIP) && |a| == 4
    ensures To4(Address(Dotted(a), ipv6, parseIP)) == Some(a)
  {
    hide Dotted, TrimSpace;
    DottedTrimmed(a);
    assert (MAPPED + a)[..12] == MAPPED && (MAPPED + a)[12..] == a;
  }

  /**
    A row with dotted quads for its addresses is accepted whenever its packet is short enough, and the
    packet read back holds the very texts of the row.
    */
  lemma AddressTextsReturn(f: Fields, row: Row, force: Word, parseIP: Bytes -> Option<Ip>, v6: Bytes -> Bytes,
                           a: Bytes, b: Bytes)
    requires ReadsQuads(parseIP) && |a| == |b| == 4
    requires row.header.srcIp == Dotted(a) && row.header.dstIp == Dotted(b)
    ensures var p := Packet(Chunks(row, force, parseIP));
            && (Accepts(p) <==> |p| < U16)
            && (|p| < U16 ==>
                  var g := Outcome(f, p[6..], v6).1;
                  g.wire.srcIP == row.header.srcIp && g.wire.dstIP == row.header.dstIp)
  {
    hide Dotted, Address, To4, Chunks, Outcome, Accepts, ReadsQuads;
    QuadAddress(a, row.header.family == 10, parseIP);
    QuadAddress(b, row.header.family == 10, parseIP);
    AcceptedIff(row, force, parseIP);
    if Accepts(Packet(Chunks(row, force, parseIP))) { RowComesBack(f, row, force, parseIP, v6); }
  }

  /** "::1" */
  const LOOPBACK_TEXT: Bytes := [58, 58, 49]
  const LOOPBACK: Ip := [0, 0, 0, 0, 0, 0, 0, 0, 0, 0, 0, 0, 0, 0, 0, 1]

  /** No packet of a row with the source address ::1 is accepted, whatever else the row holds. */
  lemma LoopbackIsRejected(row: Row, force: Word, parseIP: Bytes -> Option<Ip>)
    requires row.header.srcIp == LOOPBACK_TEXT && parseIP(LOOPBACK_TEXT) == Some(LOOPBACK)
    ensures !Accepts(Packet(Chunks(row, force, parseIP)))
  {
    hide Chunks, Accepts;
    TrimSpaceGraphic(LOOPBACK_TEXT);
    assert LOOPBACK[..12][10] == 0 && MAPPED[10] == 255;
    AcceptedIff(row, force, parseIP);
  }
}
