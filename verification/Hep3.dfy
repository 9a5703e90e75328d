/**
  HEP3 framing: the chunk writer used by the migration (src/cli/migrate_hep.go) and the chunk parser of
  the decoder (src/decoder/hep.go, src/decoder/ipformat.go). Lengths and the cursor are 16 bits wide.
  The text of an IPv6 address (package net/netip) is the parameter `v6`.
  */
module Hep3 {
  import opened Octets
  import opened Text
  import opened HepStruct
  import P = Protobuf

  // ---------------------------------------------------------------- chunks

  datatype Chunk = Chunk(vendor: nat, kind: nat, body: Bytes)

  /** One chunk as assembleHEP3 writes it; the length is cut to 16 bits. */
  function Frame(c: Chunk): (f: Bytes)
    ensures |f| == 6 + |c.body|
  {
    Be16(c.vendor % U16) + Be16(c.kind % U16) + Be16((6 + |c.body|) % U16) + c.body
  }

  function Frames(cs: seq<Chunk>): Bytes {
    if cs == [] then [] else Frame(cs[0]) + Frames(cs[1..])
  }

  const MAGIC: Bytes := [72, 69, 80, 51]

  function Packet(cs: seq<Chunk>): Bytes {
    MAGIC + Be16((6 + |Frames(cs)|) % U16) + Frames(cs)
  }

  /** assembleHEP3. */
  method Assemble(chunks: seq<Chunk>) returns (packet: Bytes)
    ensures packet == Packet(chunks)
  {
    var body: Bytes := [];
    assert chunks[0..] == chunks;
    for i := 0 to |chunks|
      invariant body + Frames(chunks[i..]) == Frames(chunks)
    {
      var c := chunks[i];
      var header := Be16(c.vendor % U16) + Be16(c.kind % U16) + Be16((6 + |c.body|) % U16);
      assert chunks[i..][1..] == chunks[i + 1..] && chunks[i..][0] == c;
      Assoc(body, header, c.body);
      Assoc(body, Frame(c), Frames(chunks[i + 1..]));
      body := body + header;
      body := body + c.body;
    }
    assert chunks[|chunks|..] == [] && body + [] == body;
    packet := MAGIC + Be16((6 + |body|) % U16) + body;
  }

  // ---------------------------------------------------------------- the parser's view of a packet

  /** How long the body of a chunk must be, where the parser minds. */
  function RequiredSize(kind: nat): Option<nat> {
    if kind in {1, 2, 11} then Some(1)
    else if kind in {7, 8, 18} then Some(2)
    else if kind in {3, 4, 9, 10, 12} then Some(4)
    else if kind in {5, 6} then Some(16)
    else None
  }

  predicate Sized(c: Chunk) {
    RequiredSize(c.kind).None? || RequiredSize(c.kind).value == |c.body|
  }

  /** The bodies have the size of what they hold: an octet, a 16-bit or 32-bit number, an address, or any text. */
  lemma SizesAre(c: Chunk)
    ensures c.kind in {1, 2, 11} ==> (Sized(c) <==> |c.body| == 1)
    ensures c.kind in {7, 8, 18} ==> (Sized(c) <==> |c.body| == |Be16(0)|)
    ensures c.kind in {9, 10, 12} ==> (Sized(c) <==> |c.body| == |Be32(0)|)
    ensures c.kind in {3, 4} ==> (Sized(c) <==> |c.body| * 8 == 32)
    ensures c.kind in {5, 6} ==> (Sized(c) <==> |c.body| * 8 == 128)
    ensures c.kind in {14, 15, 17, 19} || c.kind > 19 ==> Sized(c)
  {
  }

  /** The chunks read before the parser stops, and whether it stopped at the end. */
  datatype Scanned = Scanned(chunks: seq<Chunk>, ok: bool)

  function ChunkAt(d: Bytes): Chunk
    requires |d| >= 6 && 6 <= FromBe16(d[4..6]) <= |d|
  {
    Chunk(FromBe16(d[0..2]), FromBe16(d[2..4]), d[6..FromBe16(d[4..6])])
  }

  function Scan(d: Bytes): Scanned
    decreases |d|
  {
    if d == [] then Scanned([], true)
    else if |d| < 6 || |d| < FromBe16(d[4..6]) || FromBe16(d[4..6]) < 6 || !Sized(ChunkAt(d)) then Scanned([], false)
    else
      var rest := Scan(d[FromBe16(d[4..6])..]);
      Scanned([ChunkAt(d)] + rest.chunks, rest.ok)
  }

  /** The numbers of a chunk fit their 16 bits, and its body has the size its kind asks for. */
  predicate Good(c: Chunk) {
    c.vendor < U16 && c.kind < U16 && 6 + |c.body| < U16 && Sized(c)
  }

  lemma FrameReads(c: Chunk, rest: Bytes)
    requires c.vendor < U16 && c.kind < U16 && 6 + |c.body| < U16
    ensures var d := Frame(c) + rest;
            FromBe16(d[4..6]) == |Frame(c)| && ChunkAt(d) == c && d[|Frame(c)|..] == rest
  {
    hide Be16, FromBe16;
    var d := Frame(c) + rest;
    Be16Inverse(c.vendor);
    Be16Inverse(c.kind);
    Be16Inverse(6 + |c.body|);
    assert d[0..2] == Be16(c.vendor) && d[2..4] == Be16(c.kind) && d[4..6] == Be16(6 + |c.body|);
    assert d[6..6 + |c.body|] == c.body;
  }

  lemma {:induction false} ScanFrames(cs: seq<Chunk>)
    requires forall i :: 0 <= i < |cs| ==> Good(cs[i])
    ensures Scan(Frames(cs)) == Scanned(cs, true)
  {
    if cs == [] {
    } else {
      hide Frame, ChunkAt, FromBe16;
      FrameReads(cs[0], Frames(cs[1..]));
      assert Good(cs[0]);
      ScanFrames(cs[1..]);
      assert [cs[0]] + cs[1..] == cs;
    }
  }

  lemma FrameOnto(d: Bytes)
    requires |d| >= 6 && 6 <= FromBe16(d[4..6]) <= |d|
    ensures Frame(ChunkAt(d)) == d[..FromBe16(d[4..6])] && 6 + |ChunkAt(d).body| == FromBe16(d[4..6])
    ensures ChunkAt(d).vendor < U16 && ChunkAt(d).kind < U16
  {
    hide FromBe16, Be16;
    var n := FromBe16(d[4..6]);
    Be16Onto(d[0..2]);
    Be16Onto(d[2..4]);
    Be16Onto(d[4..6]);
    Header(d, n);
  }

  lemma Header(d: Bytes, n: nat)
    requires 6 <= n <= |d|
    ensures d[0..2] + d[2..4] + d[4..6] + d[6..n] == d[..n]
  {
  }

  lemma {:induction false} ScanOnto(d: Bytes)
    requires Scan(d).ok
    ensures Frames(Scan(d).chunks) == d
    ensures forall i :: 0 <= i < |Scan(d).chunks| ==> Good(Scan(d).chunks[i])
    decreases |d|
  {
    if d == [] {
    } else {
      hide Frame, ChunkAt, FromBe16;
      var n := FromBe16(d[4..6]);
      FrameOnto(d);
      ScanOnto(d[n..]);
      assert Scan(d).chunks[1..] == Scan(d[n..]).chunks;
      assert d[..n] + d[n..] == d;
    }
  }

  /** parseHEP accepts. */
  predicate Accepts(packet: Bytes)
    requires |packet| >= 6
  {
    FromBe16(packet[4..6]) == |packet| && Scan(packet[6..]).ok
  }

  /** Accepted are exactly the packets whose length is right and that are a concatenation of good chunks. */
  lemma AcceptsIff(packet: Bytes)
    requires |packet| >= 6
    ensures Accepts(packet) <==>
            FromBe16(packet[4..6]) == |packet| &&
            exists cs :: (forall i :: 0 <= i < |cs| ==> Good(cs[i])) && packet[6..] == Frames(cs)
  {
    var d := packet[6..];
    if Scan(d).ok {
      ScanOnto(d);
    }
    forall cs: seq<Chunk> | (forall i :: 0 <= i < |cs| ==> Good(cs[i])) && d == Frames(cs)
      ensures Scan(d).ok
    {
      ScanFrames(cs);
    }
  }

  // ---------------------------------------------------------------- addresses

  function OctetTexts(b: Bytes): (ts: seq<Bytes>)
    ensures |ts| == |b|
  {
    seq(|b|, i requires 0 <= i < |b| => Itoa(b[i]))
  }

  /** The dotted quad of four octets. */
  function Dotted(b: Bytes): Bytes {
    Join(OctetTexts(b), [DOT])
  }

  lemma OctetText(v: Byte)
    ensures v < 10 ==> Itoa(v) == [48 + v]
    ensures 10 <= v < 100 ==> Itoa(v) == [48 + v / 10, 48 + v % 10]
    ensures v >= 100 ==> Itoa(v) == [48 + v / 100, 48 + v / 10 % 10, 48 + v % 10]
  {
    if v >= 100 {
      assert Itoa(v / 10) == [48 + v / 100] + [48 + v / 10 % 10];
    }
  }

  /** writeDecimalUint8 at position `n` of a buffer. */
  method WriteDecimal(buf: array<Byte>, n: nat, v: Byte) returns (k: nat)
    requires n + 3 <= buf.Length
    modifies buf
    ensures 1 <= k <= 3 && k == |Itoa(v)|
    ensures buf[..n + k] == old(buf[..n]) + Itoa(v)
  {
    OctetText(v);
    if v >= 100 {
      buf[n] := 48 + v / 100;
      buf[n + 1] := 48 + v / 10 % 10;
      buf[n + 2] := 48 + v % 10;
      return 3;
    }
    if v >= 10 {
      buf[n] := 48 + v / 10;
      buf[n + 1] := 48 + v % 10;
      return 2;
    }
    buf[n] := 48 + v;
    k := 1;
  }

  /** ipv4BytesToString writes into a buffer of 15 octets. */
  method Ipv4BytesToString(b: Bytes) returns (text: Bytes)
    ensures text == if |b| == 4 then Dotted(b) else []
  {
    if |b| != 4 { return []; }
    var buf := new Byte[15](_ => 0);
    var n := 0;
    ghost var texts := OctetTexts(b);
    for i := 0 to 4
      invariant n <= 4 * i && (i > 0 ==> n <= 4 * i - 1)
      invariant buf[..n] == Join(texts[..i], [DOT])
    {
      ghost var done := buf[..n];
      if i > 0 {
        buf[n] := DOT;
        n := n + 1;
        assert buf[..n] == done + [DOT];
        JoinAppend(texts[..i], texts[i], [DOT]);
      }
      assert texts[..i + 1] == texts[..i] + [texts[i]];
      var k := WriteDecimal(buf, n, b[i]);
      n := n + k;
      assert i == 0 ==> done == [] && [] + texts[0] == texts[0];
    }
    assert texts[..4] == texts;
    text := buf[..n];
  }

  /** The address can be read off its dotted quad. */
  lemma DottedInjective(a: Bytes, b: Bytes)
    requires |a| == 4 && |b| == 4 && Dotted(a) == Dotted(b)
    ensures a == b
  {
    var ps, qs := OctetTexts(a), OctetTexts(b);
    forall i | 0 <= i < 4
      ensures Clean(ps[i], [DOT]) && Free(ps[i], [DOT]) && Clean(qs[i], [DOT]) && Free(qs[i], [DOT])
    {
      WithoutOctet(ps[i], DOT);
      WithoutOctet(qs[i], DOT);
    }
    SplitJoin(ps, [DOT]);
    SplitJoin(qs, [DOT]);
    forall i | 0 <= i < 4
      ensures a[i] == b[i]
    {
      assert ps[i] == qs[i];
      ItoaValue(a[i]);
      ItoaValue(b[i]);
    }
  }

  /** The four octets in decimal, with full stops between them. */
  lemma DottedIs(a: Bytes)
    requires |a| == 4
    ensures Dotted(a) == Itoa(a[0]) + Ascii(".") + Itoa(a[1]) + Ascii(".") + Itoa(a[2]) + Ascii(".") + Itoa(a[3])
  {
    hide Itoa;
    var ts := OctetTexts(a);
    var dot := Ascii(".");
    assert dot == [DOT];
    assert ts == [ts[0], ts[1], ts[2], ts[3]];
    JoinFour(ts[0], ts[1], ts[2], ts[3], dot);
  }

  lemma JoinFour(a: Bytes, b: Bytes, c: Bytes, d: Bytes, sep: Bytes)
    ensures Join([a, b, c, d], sep) == a + sep + b + sep + c + sep + d
  {
    assert [a, b, c, d][1..] == [b, c, d] && [b, c, d][1..] == [c, d] && [c, d][1..] == [d];
    assert Join([c, d], sep) == c + sep + d;
    assert b + sep + (c + sep + d) == b + sep + c + sep + d;
    assert a + sep + (b + sep + c + sep + d) == a + sep + b + sep + c + sep + d;
  }

  // ---------------------------------------------------------------- the fields of a packet

  /** The names of the protocol types; other types are named by their number. */
  function ProtoName(n: nat): Bytes {
    match n
    case 1 => [115, 105, 112]
    case 5 => [114, 116, 99, 112]
    case 34 => [114, 116, 112, 97, 103, 101, 110, 116]
    case 35 => [114, 116, 99, 112, 120, 114]
    case 38 => [104, 111, 114, 97, 99, 108, 105, 102, 105, 120]
    case 53 => [100, 110, 115]
    case 56 => [100, 105, 97, 109, 101, 116, 101, 114]
    case 100 => [108, 111, 103]
    case _ => Itoa(n)
  }

  lemma ProtoNames()
    ensures ProtoName(1) == Ascii("sip") && ProtoName(5) == Ascii("rtcp") && ProtoName(34) == Ascii("rtpagent")
    ensures ProtoName(35) == Ascii("rtcpxr") && ProtoName(38) == Ascii("horaclifix") && ProtoName(53) == Ascii("dns")
    ensures ProtoName(56) == Ascii("diameter") && ProtoName(100) == Ascii("log")
  {
  }

  /** What one chunk says about the packet. */
  function Apply(f: Fields, c: Chunk, v6: Bytes -> Bytes): Fields
    requires Sized(c)
  {
    match c.kind
    case 1 => f.(wire := f.wire.(version := c.body[0]))
    case 2 => f.(wire := f.wire.(protocol := c.body[0]))
    case 3 => f.(wire := f.wire.(srcIP := Dotted(c.body)))
    case 4 => f.(wire := f.wire.(dstIP := Dotted(c.body)))
    case 5 => f.(wire := f.wire.(srcIP := v6(c.body)))
    case 6 => f.(wire := f.wire.(dstIP := v6(c.body)))
    case 7 => f.(wire := f.wire.(srcPort := FromBe16(c.body)))
    case 8 => f.(wire := f.wire.(dstPort := FromBe16(c.body)))
    case 9 => f.(wire := f.wire.(tsec := FromBe32(c.body)))
    case 10 => f.(wire := f.wire.(tmsec := FromBe32(c.body)))
    case 11 => f.(wire := f.wire.(protoType := c.body[0]), protoString := ProtoName(c.body[0]))
    case 12 => f.(wire := f.wire.(nodeID := FromBe32(c.body)))
    case 14 => f.(wire := f.wire.(nodePW := c.body))
    case 15 => f.(wire := f.wire.(payload := c.body))
    case 17 => f.(wire := f.wire.(cid := c.body))
    case 18 => f.(wire := f.wire.(vlan := FromBe16(c.body)))
    case 19 => f.(nodeName := c.body)
    case _ => f
  }

  ghost predicate AllSized(cs: seq<Chunk>) {
    forall i :: 0 <= i < |cs| ==> Sized(cs[i])
  }

  ghost function ApplyAll(f: Fields, cs: seq<Chunk>, v6: Bytes -> Bytes): Fields
    requires AllSized(cs)
    decreases |cs|
  {
    if cs == [] then f else ApplyAll(Apply(f, cs[0], v6), cs[1..], v6)
  }

  lemma {:induction false} ScanSized(d: Bytes)
    ensures AllSized(Scan(d).chunks)
    decreases |d|
  {
    if d == [] || |d| < 6 || |d| < FromBe16(d[4..6]) || FromBe16(d[4..6]) < 6 || !Sized(ChunkAt(d)) {
    } else {
      ScanSized(d[FromBe16(d[4..6])..]);
    }
  }

  /** Whether the chunks are good to the end, and the fields after those that were read. */
  ghost function Outcome(f: Fields, d: Bytes, v6: Bytes -> Bytes): (bool, Fields) {
    ScanSized(d);
    (Scan(d).ok, ApplyAll(f, Scan(d).chunks, v6))
  }

  /** The address chunks of both families. */
  method StoreAddress(h: Hep, c: Chunk, v6: Bytes -> Bytes)
    requires Sized(c) && 3 <= c.kind <= 6
    modifies h
    ensures h.View() == Apply(old(h.View()), c, v6) && h.timestamp == old(h.timestamp)
  {
    match c.kind
    case 3 => h.srcIP := Ipv4BytesToString(c.body);
    case 4 => h.dstIP := Ipv4BytesToString(c.body);
    case 5 => h.srcIP := v6(c.body);
    case 6 => h.dstIP := v6(c.body);
  }

  /** The chunks of 16-bit numbers. */
  method StoreShort(h: Hep, c: Chunk, v6: Bytes -> Bytes)
    requires Sized(c) && (c.kind == 7 || c.kind == 8 || c.kind == 18)
    modifies h
    ensures h.View() == Apply(old(h.View()), c, v6) && h.timestamp == old(h.timestamp)
  {
    hide FromBe16;
    match c.kind
    case 7 => h.srcPort := FromBe16(c.body);
    case 8 => h.dstPort := FromBe16(c.body);
    case 18 => h.vlan := FromBe16(c.body);
  }

  /** The chunks of 32-bit numbers. */
  method StoreLong(h: Hep, c: Chunk, v6: Bytes -> Bytes)
    requires Sized(c) && (c.kind == 9 || c.kind == 10 || c.kind == 12)
    modifies h
    ensures h.View() == Apply(old(h.View()), c, v6) && h.timestamp == old(h.timestamp)
  {
    hide FromBe32;
    match c.kind
    case 9 => h.tsec := FromBe32(c.body);
    case 10 => h.tmsec := FromBe32(c.body);
    case 12 => h.nodeID := FromBe32(c.body);
  }

  /** The second switch of the loop. */
  method Store(h: Hep, c: Chunk, v6: Bytes -> Bytes)
    requires Sized(c)
    modifies h
    ensures h.View() == Apply(old(h.View()), c, v6) && h.timestamp == old(h.timestamp)
  {
    hide FromBe16, FromBe32, Dotted, ProtoName;
    if 3 <= c.kind <= 6 {
      StoreAddress(h, c, v6);
    } else if c.kind == 7 || c.kind == 8 || c.kind == 18 {
      StoreShort(h, c, v6);
    } else if c.kind == 9 || c.kind == 10 || c.kind == 12 {
      StoreLong(h, c, v6);
    } else {
      match c.kind
      case 1 => h.version := c.body[0];
      case 2 => h.protocol := c.body[0];
      case 11 =>
        h.protoType := c.body[0];
        h.protoString := ProtoName(c.body[0]);
      case 14 => h.nodePW := c.body;
      case 15 => h.payload := c.body;
      case 17 => h.cid := c.body;
      case 19 => h.nodeName := c.body;
      case _ =>
    }
  }

  /**
    parseHEP. The cursor is 16 bits wide, never wraps, and ends exactly at the length; when a chunk
    is bad, the chunks before it have been applied.
    */
  method ParseHep(h: Hep, packet: Bytes, v6: Bytes -> Bytes) returns (ok: bool)
    requires |packet| >= 6
    modifies h
    ensures h.timestamp == old(h.timestamp)
    ensures (ok, h.View()) ==
            if FromBe16(packet[4..6]) != |packet| then (false, old(h.View()))
            else Outcome(old(h.View()), packet[6..], v6)
    ensures ok == Accepts(packet)
  {
    hide *;
    AcceptsBy(h.View(), packet, v6);
    var length := FromBe16(packet[4..6]);
    if length != |packet| { return false; }
    var current := 6;
    while current < length
      invariant 6 <= current <= length
      invariant Outcome(h.View(), packet[current..], v6) == Outcome(old(h.View()), packet[6..], v6)
      invariant h.timestamp == old(h.timestamp)
      decreases length - current
    {
      var chunk := packet[current..];
      Turn(chunk, h.View(), v6);
      if |chunk| < 6 { return false; }
      var chunkLength := FromBe16(chunk[4..6]);
      if |chunk| < chunkLength || chunkLength < 6 { return false; }
      var c := ChunkAt(chunk);
      if !Sized(c) { return false; }
      Store(h, c, v6);
      assert chunk[chunkLength..] == packet[current + chunkLength..];
      NoWrap(current + chunkLength, length);
      current := (current + chunkLength) % 0x1_0000;
    }
    assert packet[current..] == [];
    NothingLeft(h.View(), v6);
    ok := true;
  }

  lemma NoWrap(k: nat, length: nat)
    requires k <= length < 0x1_0000
    ensures k % 0x1_0000 == k
  {
  }

  lemma NothingLeft(f: Fields, v6: Bytes -> Bytes)
    ensures Outcome(f, [], v6) == (true, f)
  {
  }

  lemma AcceptsBy(f: Fields, packet: Bytes, v6: Bytes -> Bytes)
    requires |packet| >= 6
    ensures Accepts(packet) == (FromBe16(packet[4..6]) == |packet| && Outcome(f, packet[6..], v6).0)
  {
  }

  /** One turn of the loop over the chunks. */
  lemma Turn(d: Bytes, f: Fields, v6: Bytes -> Bytes)
    requires d != []
    ensures Outcome(f, d, v6) ==
            if |d| < 6 || |d| < FromBe16(d[4..6]) || FromBe16(d[4..6]) < 6 || !Sized(ChunkAt(d)) then (false, f)
            else Outcome(Apply(f, ChunkAt(d), v6), d[FromBe16(d[4..6])..], v6)
  {
    ScanSized(d);
    if |d| < 6 || |d| < FromBe16(d[4..6]) || FromBe16(d[4..6]) < 6 || !Sized(ChunkAt(d)) {
    } else {
      ScanSized(d[FromBe16(d[4..6])..]);
      assert Scan(d).chunks[1..] == Scan(d[FromBe16(d[4..6])..]).chunks;
    }
  }

  // ---------------------------------------------------------------- the last chunk wins

  /** The field a chunk sets: addresses of both families share a field; 0 for chunks that set none. */
  function Target(kind: nat): nat {
    if kind == 5 then 3 else if kind == 6 then 4
    else if 1 <= kind <= 12 || kind in {14, 15, 17, 18, 19} then kind else 0
  }

  function Get(f: Fields, target: nat): P.Item {
    match target
    case 1 => P.Num(f.wire.version)
    case 2 => P.Num(f.wire.protocol)
    case 3 => P.Str(f.wire.srcIP)
    case 4 => P.Str(f.wire.dstIP)
    case 7 => P.Num(f.wire.srcPort)
    case 8 => P.Num(f.wire.dstPort)
    case 9 => P.Num(f.wire.tsec)
    case 10 => P.Num(f.wire.tmsec)
    case 11 => P.Num(f.wire.protoType)
    case 12 => P.Num(f.wire.nodeID)
    case 14 => P.Str(f.wire.nodePW)
    case 15 => P.Str(f.wire.payload)
    case 17 => P.Str(f.wire.cid)
    case 18 => P.Num(f.wire.vlan)
    case 19 => P.Str(f.nodeName)
    case _ => P.Num(0)
  }

  /** The value a chunk carries. */
  function Meaning(c: Chunk, v6: Bytes -> Bytes): P.Item
    requires Sized(c)
  {
    if c.kind in {1, 2, 11} then P.Num(c.body[0])
    else if c.kind in {7, 8, 18} then P.Num(FromBe16(c.body))
    else if c.kind in {9, 10, 12} then P.Num(FromBe32(c.body))
    else if c.kind in {3, 4} then P.Str(Dotted(c.body))
    else if c.kind in {5, 6} then P.Str(v6(c.body))
    else P.Str(c.body)
  }

  /** The index of the last chunk for a field, or -1. */
  function LastFor(cs: seq<Chunk>, target: nat): (r: int)
    ensures -1 <= r < |cs| && (r >= 0 ==> Target(cs[r].kind) == target)
    ensures forall i :: r < i < |cs| ==> Target(cs[i].kind) != target
  {
    if cs == [] then -1
    else if Target(cs[|cs| - 1].kind) == target then |cs| - 1
    else LastFor(cs[..|cs| - 1], target)
  }

  lemma {:induction false} ApplySnoc(f: Fields, cs: seq<Chunk>, c: Chunk, v6: Bytes -> Bytes)
    requires AllSized(cs) && Sized(c)
    ensures AllSized(cs + [c]) && ApplyAll(f, cs + [c], v6) == Apply(ApplyAll(f, cs, v6), c, v6)
    decreases |cs|
  {
    hide Apply, Sized;
    if cs == [] {
      assert cs + [c] == [c] && [c][1..] == [];
    } else {
      assert (cs + [c])[1..] == cs[1..] + [c];
      ApplySnoc(Apply(f, cs[0], v6), cs[1..], c, v6);
    }
  }

  lemma ApplyOne(f: Fields, c: Chunk, v6: Bytes -> Bytes, target: nat)
    requires Sized(c) && target != 0
    ensures Get(Apply(f, c, v6), target) == if Target(c.kind) == target then Meaning(c, v6) else Get(f, target)
  {
  }

  /** Every field holds what the last chunk for it says, and its old value when there is none. */
  lemma {:induction false} LastChunkWins(f: Fields, cs: seq<Chunk>, v6: Bytes -> Bytes, target: nat)
    requires AllSized(cs) && target != 0
    ensures var k := LastFor(cs, target);
            Get(ApplyAll(f, cs, v6), target) == if k < 0 then Get(f, target) else Meaning(cs[k], v6)
  {
    hide Apply, Get, Meaning, Target;
    if cs == [] {
    } else {
      var n := |cs| - 1;
      assert cs[..n] + [cs[n]] == cs;
      LastChunkWins(f, cs[..n], v6, target);
      ApplySnoc(f, cs[..n], cs[n], v6);
      ApplyOne(ApplyAll(f, cs[..n], v6), cs[n], v6, target);
    }
  }
}
