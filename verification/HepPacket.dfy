/**
  The HEP packet as the gogo/protobuf code handles it (src/decoder/hep.pb.go): octets written into a
  buffer at a moving index, a loop over the fields that sets one member at a time, and the recursive
  skipper. Every method here is tied to the functions of Protobuf.
  */
module HepPacket {
  import opened Octets
  import opened Protobuf
  import opened HepStruct

  // ---------------------------------------------------------------- writing

  /** encodeVarintHep. */
  method EncodeVarint(a: array<Byte>, offset: nat, v: nat) returns (end: nat)
    requires offset + |Varint(v)| <= a.Length
    modifies a
    ensures end == offset + |Varint(v)|
    ensures a[..end] == old(a[..offset]) + Varint(v)
  {
    hide Varint;
    var x := v;
    end := offset;
    VarintStep(x);
    while x >= 128
      invariant end + |Varint(x)| == offset + |Varint(v)|
      invariant a[..end] + Varint(x) == old(a[..offset]) + Varint(v)
      invariant x < 128 ==> Varint(x) == [x]
      invariant x >= 128 ==> Varint(x) == [x % 128 + 128] + Varint(x / 128)
    {
      ghost var done := a[..end];
      a[end] := x % 128 + 128;
      assert a[..end + 1] == done + [x % 128 + 128];
      Assoc(done, [x % 128 + 128], Varint(x / 128));
      x := x / 128;
      end := end + 1;
      VarintStep(x);
    }
    ghost var done := a[..end];
    a[end] := x;
    end := end + 1;
    assert a[..end] == done + [x];
  }

  lemma VarintStep(x: nat)
    ensures x < 128 ==> Varint(x) == [x]
    ensures x >= 128 ==> Varint(x) == [x % 128 + 128] + Varint(x / 128)
  {
  }

  /** sovHep: how many octets the varint takes. */
  method VarintSize(v: nat) returns (n: nat)
    ensures n == |Varint(v)|
  {
    var x: nat := v / 128;
    n := 1;
    while x != 0
      invariant n + (if x == 0 then 0 else |Varint(x)|) == |Varint(v)|
    {
      x := x / 128;
      n := n + 1;
    }
  }

  method PutNum(a: array<Byte>, i: nat, number: nat, v: nat) returns (end: nat)
    requires 1 <= number <= 14 && i + |EncodeField(number, Num(v))| <= a.Length
    modifies a
    ensures end == i + |EncodeField(number, Num(v))|
    ensures a[..end] == old(a[..i]) + EncodeField(number, Num(v))
  {
    ghost var before := a[..i];
    a[i] := 8 * number;
    assert a[..i + 1] == before + [8 * number];
    end := EncodeVarint(a, i + 1, v);
    Assoc(before, [8 * number], Varint(v));
  }

  method PutStr(a: array<Byte>, i: nat, number: nat, s: Bytes) returns (end: nat)
    requires 1 <= number <= 14 && i + |EncodeField(number, Str(s))| <= a.Length
    modifies a
    ensures end == i + |EncodeField(number, Str(s))|
    ensures a[..end] == old(a[..i]) + EncodeField(number, Str(s))
  {
    ghost var before := a[..i];
    a[i] := 8 * number + 2;
    assert a[..i + 1] == before + [8 * number + 2];
    end := EncodeVarint(a, i + 1, |s|);
    Assoc(before, [8 * number + 2], Varint(|s|));
    ghost var tagged := a[..end];
    forall k | 0 <= k < |s| {
      a[end + k] := s[k];
    }
    assert a[..end + |s|] == tagged + s;
    Assoc(before, [8 * number + 2] + Varint(|s|), s);
    end := end + |s|;
  }

  /** Fields 1 to `k` - 1 in order. */
  function Prefix(m: Packet, k: nat): Bytes
    requires 1 <= k <= 15
  {
    if k == 1 then [] else Prefix(m, k - 1) + EncodeField(k - 1, ItemOf(m, k - 1))
  }

  lemma {:induction false} PrefixSplit(m: Packet, k: nat)
    requires 1 <= k <= 15
    ensures Prefix(m, k) + EncodeFrom(m, k) == Marshal(m)
  {
    hide EncodeField, Varint;
    if k <= 1 {
    } else {
      PrefixSplit(m, k - 1);
      Assoc(Prefix(m, k - 1), EncodeField(k - 1, ItemOf(m, k - 1)), EncodeFrom(m, k));
    }
  }

  /** The whole message is the prefix of all 14 fields, and each further field still fits. */
  lemma PrefixStep(m: Packet, k: nat)
    requires 1 <= k <= 14
    ensures Prefix(m, k + 1) == Prefix(m, k) + EncodeField(k, ItemOf(m, k))
    ensures |Prefix(m, k + 1)| <= |Marshal(m)|
  {
    hide EncodeField, Varint;
    PrefixSplit(m, k + 1);
  }

  lemma WholePrefix(m: Packet)
    ensures Prefix(m, 15) == Marshal(m)
  {
    PrefixSplit(m, 15);
  }

  lemma NumSize(m: Packet, k: nat)
    requires 1 <= k <= 14 && ItemOf(m, k).Num?
    ensures |Prefix(m, k + 1)| == |Prefix(m, k)| + 1 + |Varint(ItemOf(m, k).n)|
  {
  }

  lemma StrSize(m: Packet, k: nat)
    requires 1 <= k <= 14 && ItemOf(m, k).Str?
    ensures |Prefix(m, k + 1)| == |Prefix(m, k)| + 1 + |ItemOf(m, k).s| + |Varint(|ItemOf(m, k).s|)|
  {
  }

  // ---------------------------------------------------------------- reading

  /** What a decoding loop leaves in a variable of the given width. */
  function Cut(r: Read, modulus: nat): Read
    requires modulus > 0
  {
    match r
    case Value(v, n) => Value(v % modulus, n)
    case _ => r
  }

  /** `v` and `k` octets read before what `r` reads. */
  function Behind(v: nat, k: nat, r: Read): Read {
    match r
    case Value(w, n) => Value(v + Pow128(k) * w, k + n)
    case _ => r
  }

  lemma FromStart(d: Bytes)
    ensures ReadVarint(d) == Behind(0, 0, ReadGroups(d, 0))
  {
  }

  /** One octet of a varint adds its low seven bits at the place it stands. */
  lemma OneGroup(d: Bytes, k: nat)
    requires k < 10 && d != []
    ensures ReadGroups(d, k) ==
            if d[0] < 128 then Value(d[0], 1)
            else
              match ReadGroups(d[1..], k + 1)
              case Value(v, n) => Value(d[0] as int - 128 + 128 * v, n + 1)
              case Overflow => Overflow
              case Eof => Eof
  {
  }

  lemma GroupStep(d: Bytes, i: nat, k: nat, full: nat)
    requires k < 10 && i + k < |d|
    ensures var b: nat := d[i + k];
            var sum: nat := full + b % 128 * Pow128(k);
            Behind(full, k, ReadGroups(d[i + k..], k)) ==
            if b < 128 then Value(sum, k + 1) else Behind(sum, k + 1, ReadGroups(d[i + k + 1..], k + 1))
  {
    hide Pow128, ReadGroups;
    var rest := d[i + k..];
    var b := d[i + k];
    assert rest[1..] == d[i + k + 1..];
    OneGroup(rest, k);
    var r := ReadGroups(rest[1..], k + 1);
    if b >= 128 && r.Value? {
      NextPlace(k);
      Placed(Pow128(k), b - 128, r.v);
    }
  }

  lemma GroupsStop(d: Bytes, k: nat)
    requires k <= 10
    ensures k == 10 ==> ReadGroups(d, k) == Overflow
    ensures k < 10 && d == [] ==> ReadGroups(d, k) == Eof
  {
  }

  lemma NextPlace(k: nat)
    ensures Pow128(k + 1) == 128 * Pow128(k)
  {
  }

  lemma Placed(p: nat, b: nat, v: nat)
    ensures p * (b + 128 * v) == b * p + 128 * p * v
  {
    assert p * (128 * v) == 128 * p * v;
  }

  /** Quotient and remainder are unique. */
  lemma Remainders(q: nat, r: nat, k: nat, t: nat, m: nat)
    requires q * m + r == k * m + t && r < m && t < m
    ensures r == t
  {
    assert (q - k) * m == q * m - k * m;
    assert (k - q) * m == k * m - q * m;
    if q > k {
      Multiple(q - k, m);
    } else if q < k {
      Multiple(k - q, m);
    }
  }

  lemma Multiple(q: nat, m: nat)
    requires q >= 1
    ensures q * m >= m
  {
  }

  lemma ModUnique(z: nat, q: nat, r: nat, m: nat)
    requires r < m && z == q * m + r
    ensures z % m == r
  {
    Remainders(z / m, z % m, q, r, m);
  }

  lemma AddMod(x: nat, y: nat, m: nat)
    requires m > 0
    ensures (x % m + y) % m == (x + y) % m
  {
    var k, s := x / m, x % m + y;
    Sum(k, x % m, y, s / m, s % m, m);
    ModUnique(x + y, k + s / m, s % m, m);
  }

  lemma Sum(k: nat, r: nat, y: nat, q: nat, t: nat, m: nat)
    requires r + y == q * m + t
    ensures (k * m + r) + y == (k + q) * m + t
  {
    assert (k + q) * m == k * m + q * m;
  }

  /**
    The decoding loop from octet `i` on, into a variable that holds values below `modulus`; `value` is
    what the variable holds at the end, also after an error.
    */
  method ReadUvarint(d: Bytes, i: nat, modulus: nat) returns (r: Read, value: nat)
    requires i <= |d| && modulus > 0
    ensures r == Cut(ReadVarint(d[i..]), modulus)
    ensures value < modulus && (r.Value? ==> r.v == value)
  {
    hide ReadVarint, ReadGroups;
    value := 0;
    var place: nat := 1;
    ghost var full: nat := 0;
    var k := 0;
    FromStart(d[i..]);
    while true
      invariant 0 <= k <= 10 && i + k <= |d| && place == Pow128(k)
      invariant value == full % modulus
      invariant ReadVarint(d[i..]) == Behind(full, k, ReadGroups(d[i + k..], k))
      decreases 10 - k
    {
      GroupsStop(d[i + k..], k);
      if k >= 10 { return Overflow, value; }
      if i + k >= |d| { return Eof, value; }
      var b := d[i + k];
      var low: nat := b % 128 * place;
      AddMod(full, low, modulus);
      value := (value + low) % modulus;
      GroupStep(d, i, k, full);
      if b < 128 { return Value(value, k + 1), value; }
      full := full + low;
      place := place * 128;
      k := k + 1;
    }
  }

  /** skipHep. */
  method Skip(d: Bytes) returns (r: Res<nat>)
    ensures r == SkipField(d)
    decreases |d|
  {
    hide ReadVarint, ReadGroups, SkipGroup, SkipScalar;
    var tag, _ := ReadUvarint(d, 0, U64);
    assert d[0..] == d;
    if !tag.Value? { return Err(Bad(tag)); }
    var i := tag.n;
    var wireType := tag.v % 8;
    WireTypeOf(d);
    if wireType == 3 {
      r := SkipItems(d, i);
    } else {
      r := SkipContents(d, i, wireType);
    }
  }

  lemma WireTypeOf(d: Bytes)
    requires ReadVarint(d).Value?
    ensures ReadVarint(d).v % U64 % 8 == ReadVarint(d).v % 8
    ensures FieldNumber(ReadVarint(d).v % U64) == FieldNumber(ReadVarint(d).v)
  {
    hide ReadVarint;
    TagModulo(ReadVarint(d).v);
  }

  lemma TagModulo(v: nat)
    ensures v % U64 % 8 == v % 8 && FieldNumber(v % U64) == FieldNumber(v)
  {
    var w := v % U64;
    ModUnique(w, 0, w, U64);
    ModUnique(v, v / U64 * 0x2000_0000_0000_0000 + w / 8, w % 8, 8);
  }

  method SkipContents(d: Bytes, i: nat, wireType: nat) returns (r: Res<nat>)
    requires 1 <= i <= |d|
    ensures r == SkipScalar(wireType, d[i..], i)
  {
    if wireType == 0 {
      var v, _ := ReadUvarint(d, i, U64);
      r := if v.Value? then Ok(i + v.n) else Err(Bad(v));
    } else if wireType == 1 {
      r := Ok(i + 8);
    } else if wireType == 2 {
      var v, _ := ReadUvarint(d, i, U64);
      if !v.Value? { return Err(Bad(v)); }
      r := if v.v >= U63 then Err(InvalidLength) else Ok(i + v.n + v.v);
    } else if wireType == 4 {
      r := Ok(i);
    } else if wireType == 5 {
      r := Ok(i + 4);
    } else {
      r := Err(IllegalWireType);
    }
  }

  /** One turn of the loop over a group. */
  lemma GroupTurn(d: Bytes)
    ensures !ReadVarint(d).Value? ==> SkipGroup(d) == Err(Bad(ReadVarint(d)))
    ensures ReadVarint(d).Value? && ReadVarint(d).v % 8 == 4 ==> SkipGroup(d) == Ok(ReadVarint(d).n)
    ensures ReadVarint(d).Value? && ReadVarint(d).v % 8 != 4 && SkipField(d).Err? ==>
            SkipGroup(d) == SkipField(d)
    ensures ReadVarint(d).Value? && ReadVarint(d).v % 8 != 4 && SkipField(d).Ok? ==>
            SkipGroup(d) == if SkipField(d).value > |d| then Err(UnexpectedEof)
                            else SkipOn(SkipField(d).value, SkipGroup(d[SkipField(d).value..]))
  {
    hide ReadVarint, ReadGroups, SkipField;
  }

  /** The inner loop of skipHep over the fields of a group. */
  method SkipItems(d: Bytes, start: nat) returns (r: Res<nat>)
    requires 1 <= start <= |d|
    ensures r == SkipOn(start, SkipGroup(d[start..]))
    decreases |d|, 0
  {
    hide ReadVarint, ReadGroups, SkipField, SkipGroup;
    var i := start;
    while true
      invariant start <= i <= |d|
      invariant SkipOn(start, SkipGroup(d[start..])) == SkipOn(i, SkipGroup(d[i..]))
      decreases |d| - i
    {
      var tag, _ := ReadUvarint(d, i, U64);
      GroupTurn(d[i..]);
      if !tag.Value? { return Err(Bad(tag)); }
      WireTypeOf(d[i..]);
      if tag.v % 8 == 4 { return Ok(i + tag.n); }
      var next := Skip(d[i..]);
      if next.Err? { return next; }
      if i + next.value > |d| { return Err(UnexpectedEof); }
      assert d[i..][next.value..] == d[i + next.value..];
      i := i + next.value;
    }
  }

  // ---------------------------------------------------------------- the packet

  lemma Items(h: Hep)
    ensures var m := h.Wire();
            && ItemOf(m, 1) == Num(h.version) && ItemOf(m, 2) == Num(h.protocol) && ItemOf(m, 3) == Str(h.srcIP)
            && ItemOf(m, 4) == Str(h.dstIP) && ItemOf(m, 5) == Num(h.srcPort) && ItemOf(m, 6) == Num(h.dstPort)
            && ItemOf(m, 7) == Num(h.tsec) && ItemOf(m, 8) == Num(h.tmsec) && ItemOf(m, 9) == Num(h.protoType)
            && ItemOf(m, 10) == Num(h.nodeID) && ItemOf(m, 11) == Str(h.nodePW) && ItemOf(m, 12) == Str(h.payload)
            && ItemOf(m, 13) == Str(h.cid) && ItemOf(m, 14) == Num(h.vlan)
  {
  }

  /** Size. */
  method Size(h: Hep) returns (n: nat)
    ensures n == |Marshal(h.Wire())|
  {
    hide *;
    ghost var m := h.Wire();
    Items(h);
    EmptyPrefix(m);
    n := 0;
    var x := VarintSize(h.version); n := n + 1 + x; NumSize(m, 1);
    x := VarintSize(h.protocol); n := n + 1 + x; NumSize(m, 2);
    x := VarintSize(|h.srcIP|); n := n + 1 + |h.srcIP| + x; StrSize(m, 3);
    x := VarintSize(|h.dstIP|); n := n + 1 + |h.dstIP| + x; StrSize(m, 4);
    x := VarintSize(h.srcPort); n := n + 1 + x; NumSize(m, 5);
    x := VarintSize(h.dstPort); n := n + 1 + x; NumSize(m, 6);
    x := VarintSize(h.tsec); n := n + 1 + x; NumSize(m, 7);
    x := VarintSize(h.tmsec); n := n + 1 + x; NumSize(m, 8);
    x := VarintSize(h.protoType); n := n + 1 + x; NumSize(m, 9);
    x := VarintSize(h.nodeID); n := n + 1 + x; NumSize(m, 10);
    x := VarintSize(|h.nodePW|); n := n + 1 + |h.nodePW| + x; StrSize(m, 11);
    x := VarintSize(|h.payload|); n := n + 1 + |h.payload| + x; StrSize(m, 12);
    x := VarintSize(|h.cid|); n := n + 1 + |h.cid| + x; StrSize(m, 13);
    x := VarintSize(h.vlan); n := n + 1 + x; NumSize(m, 14);
    WholePrefix(m);
  }

  /** MarshalTo: the buffer must have room for Size() octets, and exactly those are written. */
  method MarshalTo(h: Hep, a: array<Byte>) returns (i: nat)
    requires |Marshal(h.Wire())| <= a.Length
    modifies a
    ensures i == |Marshal(h.Wire())| && a[..i] == Marshal(h.Wire())
  {
    hide *;
    ghost var m := h.Wire();
    Items(h);
    EmptyPrefix(m);
    assert a[..0] == [];
    PrefixStep(m, 1); i := PutNum(a, 0, 1, h.version);
    PrefixStep(m, 2); i := PutNum(a, i, 2, h.protocol);
    PrefixStep(m, 3); i := PutStr(a, i, 3, h.srcIP);
    PrefixStep(m, 4); i := PutStr(a, i, 4, h.dstIP);
    PrefixStep(m, 5); i := PutNum(a, i, 5, h.srcPort);
    PrefixStep(m, 6); i := PutNum(a, i, 6, h.dstPort);
    PrefixStep(m, 7); i := PutNum(a, i, 7, h.tsec);
    PrefixStep(m, 8); i := PutNum(a, i, 8, h.tmsec);
    PrefixStep(m, 9); i := PutNum(a, i, 9, h.protoType);
    PrefixStep(m, 10); i := PutNum(a, i, 10, h.nodeID);
    PrefixStep(m, 11); i := PutStr(a, i, 11, h.nodePW);
    PrefixStep(m, 12); i := PutStr(a, i, 12, h.payload);
    PrefixStep(m, 13); i := PutStr(a, i, 13, h.cid);
    PrefixStep(m, 14); i := PutNum(a, i, 14, h.vlan);
    WholePrefix(m);
  }

  /** Marshal. */
  method ToWire(h: Hep) returns (octets: Bytes)
    ensures octets == Marshal(h.Wire())
  {
    var size := Size(h);
    var a := new Byte[size](_ => 0);
    var n := MarshalTo(h, a);
    octets := a[..n];
  }

  method Set(h: Hep, number: nat, item: Item)
    requires 1 <= number <= 14 && item.Str? == IsString(number) && (item.Num? ==> item.n < U32)
    modifies h
    ensures h.Rest() == old(h.Rest())
    ensures ItemOf(h.Wire(), number) == item
    ensures forall k :: 1 <= k <= 14 && k != number ==> ItemOf(h.Wire(), k) == old(ItemOf(h.Wire(), k))
  {
    match number
    case 1 => h.version := item.n;
    case 2 => h.protocol := item.n;
    case 3 => h.srcIP := item.s;
    case 4 => h.dstIP := item.s;
    case 5 => h.srcPort := item.n;
    case 6 => h.dstPort := item.n;
    case 7 => h.tsec := item.n;
    case 8 => h.tmsec := item.n;
    case 9 => h.protoType := item.n;
    case 10 => h.nodeID := item.n;
    case 11 => h.nodePW := item.s;
    case 12 => h.payload := item.s;
    case 13 => h.cid := item.s;
    case 14 => h.vlan := item.n;
  }

  /**
    One case of the switch of Unmarshal: the field whose tag ends before octet `i`. The other fields
    stay; a number that breaks off leaves a part of itself behind, as in the source.
    */
  method ReadInto(h: Hep, d: Bytes, start: nat, n: nat, number: nat, wireType: nat) returns (r: Res<nat>)
    requires start + n <= |d| && 1 <= n && 1 <= number <= 14
    modifies h
    ensures h.Rest() == old(h.Rest())
    ensures forall k :: 1 <= k <= 14 && k != number ==> ItemOf(h.Wire(), k) == old(ItemOf(h.Wire(), k))
    ensures var spec := ReadKnown(d[start..], number, wireType, n);
            match spec
            case Err(e) => r == Err(e)
            case Ok(p) => p.0.Field? && p.0.number == number && r == Ok(start + p.1) &&
                          ItemOf(h.Wire(), number) == p.0.item
  {
    hide ReadVarint, ReadGroups;
    var i := start + n;
    assert d[start..][n..] == d[i..];
    if wireType != (if IsString(number) then 2 else 0) { return Err(WrongWireType); }
    if !IsString(number) {
      var v, value := ReadUvarint(d, i, U32);
      Set(h, number, Num(value));
      if !v.Value? { return Err(Bad(v)); }
      r := Ok(i + v.n);
    } else {
      var l, _ := ReadUvarint(d, i, U64);
      if !l.Value? { return Err(Bad(l)); }
      if l.v >= U63 { return Err(InvalidLength); }
      i := i + l.n;
      if i + l.v > |d| { return Err(UnexpectedEof); }
      assert d[start..][n + l.n..n + l.n + l.v] == d[i..i + l.v];
      Set(h, number, Str(d[i..i + l.v]));
      r := Ok(i + l.v);
    }
  }

  /** Unmarshal into this packet; no error is None. */
  method FromWire(h: Hep, d: Bytes) returns (err: Option<Error>)
    modifies h
    ensures h.Rest() == old(h.Rest())
    ensures var spec := Unmarshal(d);
            match spec
            case Err(e) => err == Some(e)
            case Ok(st) => err.None? && Holds(st, h.Wire(), 15)
  {
    hide ReadKnown, SkipField, ReadVarint, ReadGroups, ReadField, Run, Unmarshal, FirstMissing, ItemOf, Holds,
      Hep.Wire, Hep.Rest;
    Verdict(d);
    var has: set<nat> := {};
    ghost var st: State := map[];
    ghost var was := h.Wire();
    var i := 0;
    assert d[0..] == d;
    while i < |d|
      invariant i <= |d| && has == st.Keys && (forall k :: k in has ==> 1 <= k <= 14)
      invariant Filled(st, h.Wire(), was) && h.Rest() == old(h.Rest())
      invariant Run(d, map[]) == Run(d[i..], st)
      decreases |d| - i
    {
      var tag, _ := ReadUvarint(d, i, U64);
      RunTurn(d[i..], st);
      if !tag.Value? { return Some(Bad(tag)); }
      WireTypeOf(d[i..]);
      var number, wireType := FieldNumber(tag.v), tag.v % 8;
      if wireType == 4 { return Some(EndGroup); }
      if number == 0 { return Some(IllegalTag); }
      if number <= 14 {
        var next := ReadInto(h, d, i, tag.n, number, wireType);
        if next.Err? { return Some(next.error); }
        assert d[i..][next.value - i..] == d[next.value..];
        st := st[number := ItemOf(h.Wire(), number)];
        i, has := next.value, has + {number};
      } else {
        var skip := Skip(d[i..]);
        if skip.Err? { return Some(skip.error); }
        if i + skip.value > |d| { return Some(UnexpectedEof); }
        assert d[i..][skip.value..] == d[i + skip.value..];
        i := i + skip.value;
      }
    }
    assert d[i..] == [];
    RunDone(st);
    assert Run(d, map[]) == Ok(st);
    var k := 1;
    while k < 15
      invariant 1 <= k <= 15 && FirstMissing(st, 1) == FirstMissing(st, k)
      invariant Filled(st, h.Wire(), was) && h.Rest() == old(h.Rest())
    {
      NextMissing(st, k);
      if k !in has { return Some(RequiredNotSet(k)); }
      k := k + 1;
    }
    FilledAll(st, h.Wire(), was);
    err := None;
  }

  lemma NextMissing(st: State, k: nat)
    requires 1 <= k < 15
    ensures FirstMissing(st, k) == if k !in st then k else FirstMissing(st, k + 1)
  {
  }

  lemma Verdict(d: Bytes)
    ensures Run(d, map[]).Err? ==> Unmarshal(d) == Err(Run(d, map[]).error)
    ensures var run := Run(d, map[]);
            run.Ok? ==> Unmarshal(d) == if FirstMissing(run.value, 1) < 15 then
                                          Err(RequiredNotSet(FirstMissing(run.value, 1)))
                                        else Ok(run.value)
  {
    hide Run, FirstMissing;
  }

  /** The fields that were read hold the values read last; the others are as before. */
  ghost predicate Filled(st: State, m: Packet, was: Packet) {
    forall k :: 1 <= k <= 14 ==> ItemOf(m, k) == if k in st then st[k] else ItemOf(was, k)
  }

  lemma FilledAll(st: State, m: Packet, was: Packet)
    requires Filled(st, m, was) && FirstMissing(st, 1) == 15 && forall k :: k in st ==> 1 <= k <= 14
    ensures Holds(st, m, 15)
  {
    hide ItemOf;
  }

  /** One turn of the loop over the fields of a message. */
  lemma RunTurn(d: Bytes, st: State)
    requires d != []
    ensures var tag := ReadVarint(d);
            if !tag.Value? then Run(d, st) == Err(Bad(tag))
            else if tag.v % 8 == 4 then Run(d, st) == Err(EndGroup)
            else if FieldNumber(tag.v) == 0 then Run(d, st) == Err(IllegalTag)
            else if FieldNumber(tag.v) <= 14 then
              var known := ReadKnown(d, FieldNumber(tag.v), tag.v % 8, tag.n);
              if known.Err? then Run(d, st) == Err(known.error)
              else Run(d, st) == Run(d[known.value.1..], Apply(st, known.value.0))
            else
              var skip := SkipField(d);
              if skip.Err? then Run(d, st) == Err(skip.error)
              else if skip.value > |d| then Run(d, st) == Err(UnexpectedEof)
              else Run(d, st) == Run(d[skip.value..], st)
  {
    hide ReadKnown, SkipField, ReadVarint, ReadGroups;
  }

  lemma RunDone(st: State)
    ensures Run([], st) == Ok(st)
  {
  }

  lemma EmptyPrefix(m: Packet)
    ensures Prefix(m, 1) == []
  {
  }

  /** Only one packet has the fields that were decoded. */
  lemma HoldsOnce(st: State, p: Packet, q: Packet)
    requires Holds(st, p, 15) && Holds(st, q, 15)
    ensures forall k :: 1 <= k <= 14 ==> ItemOf(p, k) == ItemOf(q, k)
    ensures p == q
  {
    forall k | 1 <= k <= 14
      ensures ItemOf(p, k) == ItemOf(q, k)
    {
      assert k in st;
    }
    SameItems(p, q);
  }

  lemma SameItems(p: Packet, q: Packet)
    requires forall k :: 1 <= k <= 14 ==> ItemOf(p, k) == ItemOf(q, k)
    ensures p == q
  {
    assert ItemOf(p, 1) == ItemOf(q, 1) && ItemOf(p, 2) == ItemOf(q, 2) && ItemOf(p, 3) == ItemOf(q, 3);
    assert ItemOf(p, 4) == ItemOf(q, 4) && ItemOf(p, 5) == ItemOf(q, 5) && ItemOf(p, 6) == ItemOf(q, 6);
    assert ItemOf(p, 7) == ItemOf(q, 7) && ItemOf(p, 8) == ItemOf(q, 8) && ItemOf(p, 9) == ItemOf(q, 9);
    assert ItemOf(p, 10) == ItemOf(q, 10) && ItemOf(p, 11) == ItemOf(q, 11) && ItemOf(p, 12) == ItemOf(q, 12);
    assert ItemOf(p, 13) == ItemOf(q, 13) && ItemOf(p, 14) == ItemOf(q, 14);
  }

  /** What Unmarshal leaves in a packet after reading what Marshal wrote is the packet that was written. */
  lemma WireRoundTrip(p: Packet, q: Packet)
    requires Fits(p)
    requires Unmarshal(Marshal(p)).Ok? ==> Holds(Unmarshal(Marshal(p)).value, q, 15)
    ensures q == p
  {
    MarshalRoundTrip(p);
    HoldsOnce(Unmarshal(Marshal(p)).value, p, q);
  }
}
