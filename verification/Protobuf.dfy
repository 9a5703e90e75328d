/**
  The protobuf form of a HEP packet (src/decoder/hep.pb.go): varints, the 14 required fields, and the
  skipping of unknown fields, as functions over octets.
  */
module Protobuf {
  import opened Octets

  const U63: nat := 0x8000_0000_0000_0000
  const U64: nat := 0x1_0000_0000_0000_0000

  // ---------------------------------------------------------------- varints

  /** encodeVarintHep: seven bits an octet, low bits first. */
  function Varint(v: nat): (s: Bytes)
    ensures s != []
  {
    if v < 128 then [v] else [v % 128 + 128] + Varint(v / 128)
  }

  /** A varint read from the front of a text: its value and its octets. */
  datatype Read = Value(v: nat, n: nat) | Overflow | Eof

  /**
    The decoding loop after `k` octets: at most ten octets, each adding seven bits above the ones
    before. The value is not yet cut to the width of its variable.
    */
  function ReadGroups(d: Bytes, k: nat): (r: Read)
    requires k <= 10
    ensures r.Value? ==> 1 <= r.n <= |d|
    decreases 10 - k
  {
    if k == 10 then Overflow
    else if d == [] then Eof
    else if d[0] < 128 then Value(d[0], 1)
    else
      match ReadGroups(d[1..], k + 1)
      case Value(v, n) => Value(d[0] as int - 128 + 128 * v, n + 1)
      case r => r
  }

  function ReadVarint(d: Bytes): (r: Read)
    ensures r.Value? ==> 1 <= r.n <= |d|
  {
    ReadGroups(d, 0)
  }

  /** 128 to the power of `k`. */
  function Pow128(k: nat): (p: nat)
    ensures p >= 1
  {
    if k == 0 then 1 else 128 * Pow128(k - 1)
  }

  lemma {:induction false} ReadGroupsVarint(v: nat, rest: Bytes, k: nat)
    requires k < 10 && v < Pow128(10 - k)
    ensures ReadGroups(Varint(v) + rest, k) == Value(v, |Varint(v)|)
    decreases 10 - k
  {
    var d := Varint(v) + rest;
    if v < 128 {
    } else {
      assert d[1..] == Varint(v / 128) + rest;
      assert Pow128(1) == 128;
      ReadGroupsVarint(v / 128, rest, k + 1);
    }
  }

  /** The decoding loop reads back what the encoding loop wrote, whatever follows. */
  lemma ReadBack(v: nat, rest: Bytes)
    requires v < U64
    ensures ReadVarint(Varint(v) + rest) == Value(v, |Varint(v)|)
  {
    assert Pow128(2) == 0x4000 && Pow128(4) == 0x1000_0000;
    assert Pow128(6) == 0x400_0000_0000;
    assert Pow128(8) == 0x100_0000_0000_0000;
    assert Pow128(10) == 0x40_0000_0000_0000_0000;
    ReadGroupsVarint(v, rest, 0);
  }

  lemma {:induction false} ReadGroupsExtend(d: Bytes, x: Bytes, k: nat)
    requires k <= 10 && ReadGroups(d, k).Value?
    ensures ReadGroups(d + x, k) == ReadGroups(d, k)
    decreases 10 - k
  {
    if d[0] < 128 {
    } else {
      assert (d + x)[1..] == d[1..] + x;
      ReadGroupsExtend(d[1..], x, k + 1);
    }
  }

  // ---------------------------------------------------------------- skipping an unknown field

  datatype Error = IntOverflow | UnexpectedEof | InvalidLength | EndGroup | IllegalTag | WrongWireType |
                   IllegalWireType | RequiredNotSet(field: nat)

  type Res<+T> = Result<T, Error>

  function Bad(r: Read): Error
    requires !r.Value?
  {
    if r.Overflow? then IntOverflow else UnexpectedEof
  }

  /** The contents of a field that is no group: `more` stands behind its tag of `n` octets. */
  function SkipScalar(wireType: nat, more: Bytes, n: nat): (r: Res<nat>)
    requires n >= 1
    ensures r.Ok? ==> r.value >= n
  {
    match wireType
    case 0 =>
      var v := ReadVarint(more);
      if v.Value? then Ok(n + v.n) else Err(Bad(v))
    case 1 => Ok(n + 8)
    case 2 =>
      var v := ReadVarint(more);
      if !v.Value? then Err(Bad(v))
      else if v.v % U64 >= U63 then Err(InvalidLength)
      else Ok(n + v.n + v.v % U64)
    case 4 => Ok(n)
    case 5 => Ok(n + 4)
    case _ => Err(IllegalWireType)
  }

  /** skipHep: how many octets the field at the front takes; the caller checks that they exist. */
  function SkipField(d: Bytes): (r: Res<nat>)
    ensures r.Ok? ==> r.value >= 1
    decreases |d|, 0
  {
    match ReadVarint(d)
    case Value(wire, n) =>
      if wire % 8 != 3 then SkipScalar(wire % 8, d[n..], n)
      else
        (match SkipGroup(d[n..])
         case Ok(k) => Ok(n + k)
         case Err(e) => Err(e))
    case bad => Err(Bad(bad))
  }

  /** The loop of skipHep over the fields of a group, up to and including its end tag. */
  function SkipGroup(d: Bytes): (r: Res<nat>)
    ensures r.Ok? ==> 1 <= r.value <= |d|
    decreases |d|, 1
  {
    match ReadVarint(d)
    case Value(wire, n) =>
      if wire % 8 == 4 then Ok(n)
      else
        (match SkipField(d)
         case Ok(k) => if k > |d| then Err(UnexpectedEof) else SkipOn(k, SkipGroup(d[k..]))
         case Err(e) => Err(e))
    case bad => Err(Bad(bad))
  }

  function SkipOn(k: nat, r: Res<nat>): Res<nat> {
    match r
    case Ok(n) => Ok(k + n)
    case Err(e) => Err(e)
  }

  // ---------------------------------------------------------------- one field

  datatype Item = Num(n: nat) | Str(s: Bytes)

  /** What one turn of the loop of Unmarshal reads. */
  datatype Event = Field(number: nat, item: Item) | Skipped

  predicate IsString(number: nat) {
    number == 3 || number == 4 || 11 <= number <= 13
  }

  /** int32(wire >> 3) of a 64-bit tag, non-positive numbers as 0. */
  function FieldNumber(wire: nat): nat {
    var x := wire % U64 / 8 % U32;
    if x < 0x8000_0000 then x else 0
  }

  function ReadKnown(d: Bytes, number: nat, wireType: nat, n: nat): (r: Res<(Event, nat)>)
    requires 1 <= n <= |d|
    ensures r.Ok? ==> 1 <= r.value.1 <= |d|
  {
    var more := ReadVarint(d[n..]);
    if wireType != (if IsString(number) then 2 else 0) then Err(WrongWireType)
    else if !more.Value? then Err(Bad(more))
    else if !IsString(number) then Ok((Field(number, Num(more.v % U32)), n + more.n))
    else
      var l := more.v % U64;
      if l >= U63 then Err(InvalidLength)
      else if n + more.n + l > |d| then Err(UnexpectedEof)
      else Ok((Field(number, Str(d[n + more.n..n + more.n + l])), n + more.n + l))
  }

  /** The field at the front of a message: what it says and how many octets it takes. */
  function ReadField(d: Bytes): (r: Res<(Event, nat)>)
    ensures r.Ok? ==> 1 <= r.value.1 <= |d|
  {
    match ReadVarint(d)
    case Value(wire, n) =>
      var number, wireType := FieldNumber(wire), wire % 8;
      if wireType == 4 then Err(EndGroup)
      else if number == 0 then Err(IllegalTag)
      else if number <= 14 then ReadKnown(d, number, wireType, n)
      else
        (match SkipField(d)
         case Ok(skip) => if skip > |d| then Err(UnexpectedEof) else Ok((Skipped, skip))
         case Err(e) => Err(e))
    case bad => Err(Bad(bad))
  }

  // ---------------------------------------------------------------- whole messages

  /** The fields seen so far, by number; a later field overwrites an earlier one. */
  type State = map<nat, Item>

  function Apply(st: State, e: Event): State {
    match e
    case Field(number, item) => st[number := item]
    case Skipped => st
  }

  /** The loop of Unmarshal over the fields. */
  function Run(d: Bytes, st: State): Res<State>
    decreases |d|
  {
    if d == [] then Ok(st)
    else
      match ReadField(d)
      case Ok((event, n)) => Run(d[n..], Apply(st, event))
      case Err(e) => Err(e)
  }

  /** The first required field that is missing, from number `k` on; 15 when none is. */
  function FirstMissing(st: State, k: nat): (r: nat)
    requires 1 <= k <= 15
    ensures k <= r <= 15 && (r < 15 ==> r !in st) && forall j :: k <= j < r ==> j in st
    decreases 15 - k
  {
    if k == 15 then 15 else if k !in st then k else FirstMissing(st, k + 1)
  }

  /** Unmarshal: all 14 fields are required. */
  function Unmarshal(d: Bytes): Res<State> {
    match Run(d, map[])
    case Err(e) => Err(e)
    case Ok(st) => if FirstMissing(st, 1) < 15 then Err(RequiredNotSet(FirstMissing(st, 1))) else Ok(st)
  }

  /** The wire fields of a HEP packet. */
  datatype Packet = Packet(
    version: nat, protocol: nat, srcIP: Bytes, dstIP: Bytes, srcPort: nat, dstPort: nat, tsec: nat, tmsec: nat,
    protoType: nat, nodeID: nat, nodePW: Bytes, payload: Bytes, cid: Bytes, vlan: nat)

  function ItemOf(m: Packet, number: nat): Item {
    match number
    case 1 => Num(m.version)
    case 2 => Num(m.protocol)
    case 3 => Str(m.srcIP)
    case 4 => Str(m.dstIP)
    case 5 => Num(m.srcPort)
    case 6 => Num(m.dstPort)
    case 7 => Num(m.tsec)
    case 8 => Num(m.tmsec)
    case 9 => Num(m.protoType)
    case 10 => Num(m.nodeID)
    case 11 => Str(m.nodePW)
    case 12 => Str(m.payload)
    case 13 => Str(m.cid)
    case _ => Num(m.vlan)
  }

  /** The fields of a Go struct: 32-bit numbers and strings with a length. */
  ghost predicate Fits(m: Packet) {
    forall k :: 1 <= k <= 14 ==>
      match ItemOf(m, k) case Num(n) => n < U32 case Str(s) => |s| < U63
  }

  /** Tag octet and contents of one field. */
  function EncodeField(number: nat, item: Item): Bytes
    requires 1 <= number <= 14
  {
    match item
    case Num(n) => [8 * number] + Varint(n)
    case Str(s) => [8 * number + 2] + Varint(|s|) + s
  }

  /** Fields `k` to 14 in order. */
  function EncodeFrom(m: Packet, k: nat): Bytes
    requires 1 <= k <= 15
    decreases 15 - k
  {
    if k == 15 then [] else EncodeField(k, ItemOf(m, k)) + EncodeFrom(m, k + 1)
  }

  /** Marshal. */
  function Marshal(m: Packet): Bytes {
    EncodeFrom(m, 1)
  }

  lemma TagRead(tag: Byte, rest: Bytes)
    requires tag < 128
    ensures ReadVarint([tag] + rest) == Value(tag, 1) && ([tag] + rest)[1..] == rest
  {
  }

  lemma FieldNumberOf(number: nat, wireType: nat)
    requires number < 0x2000_0000 && wireType < 8
    ensures FieldNumber(8 * number + wireType) == number && (8 * number + wireType) % 8 == wireType
  {
  }

  lemma NumReads(number: nat, n: nat, rest: Bytes)
    requires 1 <= number <= 14 && !IsString(number) && n < U32
    ensures var e := EncodeField(number, Num(n)); ReadField(e + rest) == Ok((Field(number, Num(n)), |e|))
  {
    hide ReadVarint, ReadGroups, Varint, FieldNumber, SkipField;
    var body := Varint(n) + rest;
    Assoc([8 * number], Varint(n), rest);
    TagRead(8 * number, body);
    FieldNumberOf(number, 0);
    ReadBack(n, rest);
    assert ReadKnown([8 * number] + body, number, 0, 1) == Ok((Field(number, Num(n)), 1 + |Varint(n)|));
  }

  lemma StrReads(number: nat, s: Bytes, rest: Bytes)
    requires 1 <= number <= 14 && IsString(number) && |s| < U63
    ensures var e := EncodeField(number, Str(s)); ReadField(e + rest) == Ok((Field(number, Str(s)), |e|))
  {
    hide ReadVarint, ReadGroups, Varint, FieldNumber, SkipField;
    var l := Varint(|s|);
    var body := l + (s + rest);
    var d := [8 * number + 2] + body;
    Assoc([8 * number + 2] + l, s, rest);
    Assoc([8 * number + 2], l, s + rest);
    TagRead(8 * number + 2, body);
    FieldNumberOf(number, 2);
    ReadBack(|s|, s + rest);
    assert d[1 + |l|..1 + |l| + |s|] == s;
    assert ReadKnown(d, number, 2, 1) == Ok((Field(number, Str(s)), 1 + |l| + |s|));
  }

  lemma FieldReads(m: Packet, k: nat, rest: Bytes)
    requires 1 <= k <= 14 && Fits(m)
    ensures var e := EncodeField(k, ItemOf(m, k)); ReadField(e + rest) == Ok((Field(k, ItemOf(m, k)), |e|))
  {
    match ItemOf(m, k)
    case Num(n) => NumReads(k, n, rest);
    case Str(s) => StrReads(k, s, rest);
  }

  /** Exactly the fields below `k` have been read, with the values of the packet. */
  ghost predicate Holds(st: State, m: Packet, k: nat) {
    && (forall j :: j in st <==> 1 <= j < k)
    && (forall j :: j in st ==> st[j] == ItemOf(m, j))
  }

  lemma HoldsMore(st: State, m: Packet, k: nat)
    requires k >= 1 && Holds(st, m, k)
    ensures Holds(st[k := ItemOf(m, k)], m, k + 1)
  {
  }

  lemma {:induction false} RunEncoded(m: Packet, k: nat, st: State)
    requires 1 <= k <= 15 && Fits(m) && Holds(st, m, k)
    ensures var r := Run(EncodeFrom(m, k), st); r.Ok? && Holds(r.value, m, 15)
    decreases 15 - k
  {
    if k >= 15 {
    } else {
      var e := EncodeField(k, ItemOf(m, k));
      var rest := EncodeFrom(m, k + 1);
      FieldReads(m, k, rest);
      assert (e + rest)[|e|..] == rest;
      HoldsMore(st, m, k);
      RunEncoded(m, k + 1, st[k := ItemOf(m, k)]);
    }
  }

  /** Unmarshal(Marshal(m)) reproduces exactly the 14 wire fields of every packet. */
  lemma MarshalRoundTrip(m: Packet)
    requires Fits(m)
    ensures var r := Unmarshal(Marshal(m)); r.Ok? && Holds(r.value, m, 15)
  {
    RunEncoded(m, 1, map[]);
  }

  // ---------------------------------------------------------------- unknown fields

  /** A well-formed protobuf field of any wire type; groups nest. */
  datatype Unknown =
    | UVarint(num: nat, v: nat)
    | UFixed64(num: nat, octets: Bytes)
    | UBytes(num: nat, octets: Bytes)
    | UGroup(num: nat, items: seq<Unknown>)
    | UFixed32(num: nat, octets: Bytes)

  function Tag(num: nat, wireType: nat): Bytes {
    Varint(8 * num + wireType)
  }

  ghost predicate WellFormed(u: Unknown) {
    && u.num < 0x2000_0000
    && match u
       case UVarint(_, v) => v < U64
       case UFixed64(_, octets) => |octets| == 8
       case UBytes(_, octets) => |octets| < U63
       case UFixed32(_, octets) => |octets| == 4
       case UGroup(_, items) => forall i :: 0 <= i < |items| ==> WellFormed(items[i])
  }

  function EncodeUnknown(u: Unknown): Bytes
    decreases u, 0
  {
    match u
    case UVarint(num, v) => Tag(num, 0) + Varint(v)
    case UFixed64(num, octets) => Tag(num, 1) + octets
    case UBytes(num, octets) => Tag(num, 2) + Varint(|octets|) + octets
    case UGroup(num, items) => Tag(num, 3) + EncodeItems(items) + Tag(num, 4)
    case UFixed32(num, octets) => Tag(num, 5) + octets
  }

  function EncodeItems(items: seq<Unknown>): Bytes
    decreases items, |items|
  {
    if items == [] then [] else EncodeUnknown(items[0]) + EncodeItems(items[1..])
  }

  function WireType(u: Unknown): nat {
    match u
    case UVarint(_, _) => 0
    case UFixed64(_, _) => 1
    case UBytes(_, _) => 2
    case UGroup(_, _) => 3
    case UFixed32(_, _) => 5
  }

  /** The contents behind the tag. */
  function Body(u: Unknown): Bytes {
    match u
    case UVarint(_, v) => Varint(v)
    case UFixed64(_, octets) => octets
    case UBytes(_, octets) => Varint(|octets|) + octets
    case UGroup(num, items) => EncodeItems(items) + Tag(num, 4)
    case UFixed32(_, octets) => octets
  }

  lemma TagAndBody(u: Unknown)
    ensures EncodeUnknown(u) == Tag(u.num, WireType(u)) + Body(u)
  {
    match u
    case UBytes(num, octets) => Assoc(Tag(num, 2), Varint(|octets|), octets);
    case UGroup(num, items) => Assoc(Tag(num, 3), EncodeItems(items), Tag(num, 4));
    case _ =>
  }

  /** A tag in front of anything is read as its number and wire type. */
  lemma ReadsTag(num: nat, wireType: nat, more: Bytes)
    requires num < 0x2000_0000 && wireType < 8
    ensures var t := Tag(num, wireType);
            && ReadVarint(t + more) == Value(8 * num + wireType, |t|)
            && (t + more)[|t|..] == more
  {
    ReadBack(8 * num + wireType, more);
  }

  lemma ScalarSkips(u: Unknown, rest: Bytes, n: nat)
    requires WellFormed(u) && !u.UGroup? && n >= 1
    ensures SkipScalar(WireType(u), Body(u) + rest, n) == Ok(n + |Body(u)|)
  {
    hide ReadVarint, Varint;
    match u
    case UVarint(_, v) => ReadBack(v, rest);
    case UBytes(_, octets) => BytesSkip(octets, rest, n);
    case _ =>
  }

  lemma BytesSkip(octets: Bytes, rest: Bytes, n: nat)
    requires |octets| < U63 && n >= 1
    ensures SkipScalar(2, Varint(|octets|) + octets + rest, n) == Ok(n + |Varint(|octets|)| + |octets|)
  {
    hide ReadVarint, Varint;
    Assoc(Varint(|octets|), octets, rest);
    ReadBack(|octets|, octets + rest);
  }

  /** The tag in front of a field, as the decoder reads it. */
  lemma UnknownTag(u: Unknown, rest: Bytes) returns (wire: nat, n: nat)
    requires WellFormed(u)
    ensures ReadVarint(EncodeUnknown(u) + rest) == Value(wire, n)
    ensures wire % 8 == WireType(u) && FieldNumber(wire) == u.num
    ensures |EncodeUnknown(u)| == n + |Body(u)|
    ensures (EncodeUnknown(u) + rest)[n..] == Body(u) + rest
    ensures n == |Tag(u.num, WireType(u))|
  {
    var t := Tag(u.num, WireType(u));
    wire, n := 8 * u.num + WireType(u), |t|;
    TagAndBody(u);
    Assoc(t, Body(u), rest);
    ReadsTag(u.num, WireType(u), Body(u) + rest);
    FieldNumberOf(u.num, WireType(u));
  }

  /** skipHep consumes exactly the field in front of it. */
  lemma {:induction false} SkipsExactly(u: Unknown, rest: Bytes)
    requires WellFormed(u)
    ensures SkipField(EncodeUnknown(u) + rest) == Ok(|EncodeUnknown(u)|)
    decreases u, 0, 0
  {
    hide ReadVarint, ReadGroups, SkipField, SkipGroup, SkipScalar, EncodeUnknown, EncodeItems, Tag, Varint;
    var wire, n := UnknownTag(u, rest);
    if u.UGroup? {
      var close := Tag(u.num, 4);
      ReadsTag(u.num, 4, rest);
      GroupSkipsExactly(u.items, close + rest, 8 * u.num + 4, |close|);
      Assoc(EncodeItems(u.items), close, rest);
      GroupField(EncodeUnknown(u) + rest, wire, n, |EncodeItems(u.items)| + |close|);
    } else {
      ScalarSkips(u, rest, n);
      ScalarField(EncodeUnknown(u), Body(u), rest, wire, n);
    }
  }

  lemma ScalarField(e: Bytes, body: Bytes, rest: Bytes, wire: nat, n: nat)
    requires ReadVarint(e + rest) == Value(wire, n) && wire % 8 != 3 && |e| == n + |body|
    requires (e + rest)[n..] == body + rest && SkipScalar(wire % 8, body + rest, n) == Ok(n + |body|)
    ensures SkipField(e + rest) == Ok(|e|)
  {
    hide ReadVarint, ReadGroups, SkipGroup, SkipScalar;
  }

  lemma GroupField(d: Bytes, wire: nat, n: nat, k: nat)
    requires ReadVarint(d) == Value(wire, n) && wire % 8 == 3 && SkipGroup(d[n..]) == Ok(k)
    ensures SkipField(d) == Ok(n + k)
  {
    hide ReadVarint, ReadGroups, SkipGroup, SkipScalar;
  }

  lemma {:induction false} GroupSkipsExactly(items: seq<Unknown>, close: Bytes, w: nat, n: nat)
    requires forall k :: 0 <= k < |items| ==> WellFormed(items[k])
    requires ReadVarint(close) == Value(w, n) && w % 8 == 4
    ensures SkipGroup(EncodeItems(items) + close) == Ok(|EncodeItems(items)| + n)
    decreases items, 1, |items|
  {
    hide *;
    if items == [] {
      NoItems(items, close, w, n);
    } else {
      var u, tail := items[0], EncodeItems(items[1..]);
      assert u in items;
      SkipsExactly(u, tail + close);
      GroupSkipsExactly(items[1..], close, w, n);
      var wire, k := UnknownTag(u, tail + close);
      ItemsFront(items, close);
      NotEndTag(u);
      GroupCons(EncodeItems(items) + close, |EncodeUnknown(u)|, wire, k, |tail| + n);
    }
  }

  lemma NoItems(items: seq<Unknown>, close: Bytes, w: nat, n: nat)
    requires items == [] && ReadVarint(close) == Value(w, n) && w % 8 == 4
    ensures SkipGroup(EncodeItems(items) + close) == Ok(|EncodeItems(items)| + n)
  {
    assert EncodeItems(items) + close == close;
  }

  lemma NotEndTag(u: Unknown)
    ensures WireType(u) != 4
  {
  }

  lemma ItemsFront(items: seq<Unknown>, close: Bytes)
    requires items != []
    ensures var e, more := EncodeUnknown(items[0]), EncodeItems(items[1..]) + close;
            && EncodeItems(items) + close == e + more
            && (EncodeItems(items) + close)[|e|..] == more
            && |EncodeItems(items)| == |e| + |EncodeItems(items[1..])|
  {
    Assoc(EncodeUnknown(items[0]), EncodeItems(items[1..]), close);
  }

  /** One turn of the loop over a group. */
  lemma GroupCons(d: Bytes, k: nat, wire: nat, n: nat, r: nat)
    requires ReadVarint(d) == Value(wire, n) && wire % 8 != 4
    requires SkipField(d) == Ok(k) && k <= |d| && SkipGroup(d[k..]) == Ok(r)
    ensures SkipGroup(d) == Ok(k + r)
  {
    hide ReadVarint, ReadGroups, SkipField, SkipScalar;
  }

  /** At the top level an unknown field number is none of the 14. */
  lemma UnknownIsSkipped(u: Unknown, rest: Bytes)
    requires WellFormed(u) && u.num > 14
    ensures ReadField(EncodeUnknown(u) + rest) == Ok((Skipped, |EncodeUnknown(u)|))
  {
    SkipsExactly(u, rest);
    var wire, n := UnknownTag(u, rest);
  }

  // ---------------------------------------------------------------- reading on

  lemma ReadKnownExtend(d: Bytes, x: Bytes, number: nat, wireType: nat, n: nat)
    requires 1 <= n <= |d| && ReadKnown(d, number, wireType, n).Ok?
    ensures ReadKnown(d + x, number, wireType, n) == ReadKnown(d, number, wireType, n)
  {
    hide ReadGroups, IsString;
    assert (d + x)[n..] == d[n..] + x;
    VarintExtend(d[n..], x);
    if IsString(number) {
      var more := ReadVarint(d[n..]);
      SliceExtend(d, x, n + more.n, n + more.n + more.v % U64);
    }
  }

  lemma VarintExtend(d: Bytes, x: Bytes)
    requires ReadVarint(d).Value?
    ensures ReadVarint(d + x) == ReadVarint(d)
  {
    ReadGroupsExtend(d, x, 0);
  }

  lemma SliceExtend(d: Bytes, x: Bytes, i: nat, j: nat)
    requires i <= j <= |d|
    ensures (d + x)[i..j] == d[i..j]
  {
  }

  lemma ScalarExtend(wireType: nat, more: Bytes, x: Bytes, n: nat)
    requires n >= 1 && SkipScalar(wireType, more, n).Ok?
    ensures SkipScalar(wireType, more + x, n) == SkipScalar(wireType, more, n)
  {
    if wireType == 0 || wireType == 2 { ReadGroupsExtend(more, x, 0); }
  }

  lemma {:induction false} SkipExtend(d: Bytes, x: Bytes)
    requires SkipField(d).Ok? && SkipField(d).value <= |d|
    ensures SkipField(d + x) == SkipField(d)
    decreases |d|, 0
  {
    hide ReadGroups, SkipGroup, SkipScalar;
    ReadGroupsExtend(d, x, 0);
    var wire := ReadVarint(d);
    var more := d[wire.n..];
    assert (d + x)[wire.n..] == more + x;
    if wire.v % 8 == 3 {
      GroupExtend(more, x);
    } else {
      ScalarExtend(wire.v % 8, more, x, wire.n);
    }
  }

  lemma {:induction false} GroupExtend(d: Bytes, x: Bytes)
    requires SkipGroup(d).Ok?
    ensures SkipGroup(d + x) == SkipGroup(d)
    decreases |d|, 1
  {
    ReadGroupsExtend(d, x, 0);
    if ReadVarint(d).v % 8 == 4 {
    } else {
      var k := SkipField(d).value;
      assert (d + x)[k..] == d[k..] + x;
      SkipExtend(d, x);
      GroupExtend(d[k..], x);
    }
  }

  /** A complete field reads the same when more octets follow. */
  lemma FieldExtend(d: Bytes, x: Bytes)
    requires ReadField(d).Ok?
    ensures ReadField(d + x) == ReadField(d)
  {
    ReadGroupsExtend(d, x, 0);
    var wire := ReadVarint(d);
    if FieldNumber(wire.v) <= 14 {
      ReadKnownExtend(d, x, FieldNumber(wire.v), wire.v % 8, wire.n);
    } else {
      SkipExtend(d, x);
    }
  }

  /** Whole fields are read one after the other: a message is the run of its parts. */
  lemma {:induction false} RunExtend(p: Bytes, x: Bytes, st: State)
    requires Run(p, st).Ok?
    ensures Run(p + x, st) == Run(x, Run(p, st).value)
    decreases |p|
  {
    if p == [] {
      assert p + x == x;
    } else {
      FieldExtend(p, x);
      var (event, n) := ReadField(p).value;
      assert (p + x)[n..] == p[n..] + x;
      RunExtend(p[n..], x, Apply(st, event));
    }
  }

  /**
    Any well-formed unknown field between two fields of a message changes nothing: neither the
    fields that are returned nor the error.
    */
  lemma UnknownFieldIgnored(before: Bytes, u: Unknown, after: Bytes)
    requires Run(before, map[]).Ok? && WellFormed(u) && u.num > 14
    ensures Unmarshal(before + EncodeUnknown(u) + after) == Unmarshal(before + after)
  {
    var e := EncodeUnknown(u);
    var st := Run(before, map[]).value;
    Assoc(before, e, after);
    RunExtend(before, e + after, map[]);
    RunExtend(before, after, map[]);
    UnknownIsSkipped(u, after);
    assert (e + after)[|e|..] == after;
  }
}
