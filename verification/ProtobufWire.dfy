/**
  The protobuf form of a HEP packet written out: the octets of a packet field by field, and the octets
  that are rejected, each with its error (src/decoder/hep.pb.go).
  */
module ProtobufWire {
  import opened Octets
  import opened Protobuf

  function Number(tag: Byte, n: nat): Bytes {
    [tag] + Varint(n)
  }

  function String(tag: Byte, s: Bytes): Bytes {
    [tag] + Varint(|s|) + s
  }

  /** The fields in the order of their numbers, which the tags give with the wire types 0 and 2. */
  function Written(m: Packet): seq<Bytes> {
    [Number(0x08, m.version), Number(0x10, m.protocol), String(0x1A, m.srcIP), String(0x22, m.dstIP),
     Number(0x28, m.srcPort), Number(0x30, m.dstPort), Number(0x38, m.tsec), Number(0x40, m.tmsec),
     Number(0x48, m.protoType), Number(0x50, m.nodeID), String(0x5A, m.nodePW), String(0x62, m.payload),
     String(0x6A, m.cid), Number(0x70, m.vlan)]
  }

  lemma WrittenAt(m: Packet, k: nat)
    requires 1 <= k <= 14
    ensures |Written(m)| == 14 && EncodeField(k, ItemOf(m, k)) == Written(m)[k - 1]
  {
    hide Varint;
  }

  lemma {:induction false} WrittenFrom(m: Packet, k: nat)
    requires 1 <= k <= 15
    ensures |Written(m)| == 14 && EncodeFrom(m, k) == Join(Written(m)[k - 1..], [])
    decreases 15 - k
  {
    hide Written, EncodeField, ItemOf;
    if k == 15 {
      WrittenAt(m, 14);
      assert Written(m)[14..] == [];
    } else {
      WrittenAt(m, k);
      WrittenFrom(m, k + 1);
      var rest := Written(m)[k - 1..];
      assert rest[0] == Written(m)[k - 1] && rest[1..] == Written(m)[k..];
      if |rest| == 1 { assert EncodeFrom(m, 15) == [] && rest[0] + [] == rest[0]; }
      assert rest[0] + [] == rest[0];
    }
  }

  /** The octets of a packet. */
  lemma MarshalIs(m: Packet)
    ensures Marshal(m) == Join(Written(m), [])
  {
    hide Written, EncodeFrom;
    WrittenFrom(m, 1);
    assert Written(m)[0..] == Written(m);
  }

  /** A varint holds seven bits of the number in each octet, the lowest first, and bit 8 in all but the last. */
  lemma {:induction false} VarintDigits(v: nat, k: nat)
    requires k < |Varint(v)|
    ensures Varint(v)[k] % 128 == v / Pow128(k) % 128
    ensures Varint(v)[k] < 128 <==> k == |Varint(v)| - 1
    ensures v / Pow128(|Varint(v)|) == 0
  {
    var s := Varint(v);
    if v < 128 {
      assert Pow128(1) == 128;
    } else {
      var n := |s| - 1;
      VarintDigits(v / 128, if k == 0 then 0 else k - 1);
      DivTwice(v, Pow128(n));
      if k > 0 { DivTwice(v, Pow128(k - 1)); }
    }
  }

  lemma DivTwice(v: nat, p: nat)
    requires p >= 1
    ensures v / (128 * p) == v / 128 / p
  {
    var q, r := v / 128 / p, v / 128 % p;
    assert v / 128 == q * p + r;
    assert v == (q * p + r) * 128 + v % 128;
    assert v == q * (128 * p) + (r * 128 + v % 128);
    assert 0 <= r * 128 + v % 128 < 128 * p by { assert r * 128 <= (p - 1) * 128; }
    Quotient(v, 128 * p, q, r * 128 + v % 128);
  }

  lemma Quotient(v: nat, m: nat, q: nat, r: nat)
    requires m > 0 && v == q * m + r && r < m
    ensures v / m == q
  {
    hide *;
    Multiple(v / m - q, m);
    assert v == (v / m) * m + v % m;
    assert (v / m - q) * m == r - v % m;
  }

  lemma Multiple(d: int, m: int)
    requires m > 0
    ensures d == 0 || d * m >= m || d * m <= -m
  {
    if d >= 1 {
      assert (d - 1) * m >= 0;
    } else if d <= -1 {
      assert (-d - 1) * m >= 0;
    }
  }

  // ---------------------------------------------------------------- what is rejected

  /** Octets that all have bit 8 set are no varint: too few are the end of the data, ten and more an overflow. */
  lemma {:induction false} NoVarint(d: Bytes, k: nat)
    requires k <= 10 && forall i :: 0 <= i < |d| && i < 10 - k ==> d[i] >= 128
    ensures ReadGroups(d, k) == if |d| >= 10 - k then Overflow else Eof
    decreases 10 - k
  {
    if k < 10 && d != [] {
      assert forall i :: 0 <= i < |d[1..]| ==> d[1..][i] == d[i + 1];
      NoVarint(d[1..], k + 1);
    }
  }

  lemma NoTag(d: Bytes)
    requires forall i :: 0 <= i < |d| && i < 10 ==> d[i] >= 128
    ensures ReadField(d) == Err(if |d| >= 10 then IntOverflow else UnexpectedEof)
  {
    NoVarint(d, 0);
  }

  /** A tag as the decoder reads it. */
  lemma TagIs(tag: nat, rest: Bytes)
    requires tag < U64
    ensures ReadVarint(Varint(tag) + rest) == Value(tag, |Varint(tag)|)
    ensures (Varint(tag) + rest)[|Varint(tag)|..] == rest
  {
    ReadBack(tag, rest);
  }

  /** An end tag is out of place; field numbers from 2 to the power of 31 on are negative, so they and 0 are illegal. */
  lemma BadTags(number: nat, wireType: nat, rest: Bytes)
    requires wireType < 8 && 8 * number + wireType < U64
    ensures wireType == 4 ==> ReadField(Varint(8 * number + wireType) + rest) == Err(EndGroup)
    ensures wireType != 4 && (number % U32 == 0 || number % U32 >= 0x8000_0000) ==>
              ReadField(Varint(8 * number + wireType) + rest) == Err(IllegalTag)
  {
    hide ReadVarint, Varint;
    TagIs(8 * number + wireType, rest);
  }

  /** The wire type of each of the 14 fields: strings are 3, 4, 11, 12 and 13. */
  lemma WrongWire(number: nat, wireType: nat, rest: Bytes)
    requires 1 <= number <= 14 && wireType < 8 && wireType != 4
    requires wireType != if number in {3, 4, 11, 12, 13} then 2 else 0
    ensures ReadField(Varint(8 * number + wireType) + rest) == Err(WrongWireType)
  {
    hide ReadVarint, Varint, ReadField;
    KnownTag(number, wireType, rest);
  }

  lemma SmallNumber(number: nat, wireType: nat)
    requires number < 0x1000_0000 && wireType < 8
    ensures FieldNumber(8 * number + wireType) == number
  {
  }

  /** The field behind a tag of a known number is read where it stands. */
  lemma KnownTag(number: nat, wireType: nat, rest: Bytes)
    requires 1 <= number <= 14 && wireType < 8 && wireType != 4
    ensures var d := Varint(8 * number + wireType) + rest;
            && ReadField(d) == ReadKnown(d, number, wireType, |Varint(8 * number + wireType)|)
            && d[|Varint(8 * number + wireType)|..] == rest
  {
    hide ReadVarint, Varint, ReadKnown, SkipField, FieldNumber;
    SmallNumber(number, wireType);
    TagIs(8 * number + wireType, rest);
  }

  /** A number is cut to 32 bits. */
  lemma NumbersCut(number: nat, v: nat, rest: Bytes)
    requires 1 <= number <= 14 && number !in {3, 4, 11, 12, 13} && v < U64
    ensures ReadField(Varint(8 * number) + (Varint(v) + rest)) ==
            Ok((Field(number, Num(v % U32)), |Varint(8 * number)| + |Varint(v)|))
  {
    hide ReadVarint, Varint, ReadField;
    KnownTag(number, 0, Varint(v) + rest);
    ReadBack(v, rest);
  }

  /** A string longer than what is left is cut off; a length of 2 to the power of 63 and more is negative. */
  lemma StringsCut(number: nat, length: nat, rest: Bytes)
    requires number in {3, 4, 11, 12, 13} && |rest| < length < U64
    ensures ReadField(Varint(8 * number + 2) + (Varint(length) + rest)) ==
            Err(if length >= U63 then InvalidLength else UnexpectedEof)
  {
    hide ReadVarint, Varint, ReadField;
    KnownTag(number, 2, Varint(length) + rest);
    ReadBack(length, rest);
  }

  /** The wire types 6 and 7 do not exist. */
  lemma NoSuchWire(number: nat, wireType: nat, rest: Bytes)
    requires 14 < number < 0x1000_0000 && wireType in {6, 7}
    ensures ReadField(Varint(8 * number + wireType) + rest) == Err(IllegalWireType)
  {
    hide ReadField, SkipField, Varint;
    UnknownTag(number, wireType, rest);
  }

  /** An unknown field is skipped whole; what ends behind the data is an error. */
  lemma UnknownTag(number: nat, wireType: nat, rest: Bytes)
    requires 14 < number < 0x1000_0000 && wireType < 8 && wireType != 3 && wireType != 4
    ensures var d, n := Varint(8 * number + wireType) + rest, |Varint(8 * number + wireType)|;
            && SkipField(d) == SkipScalar(wireType, rest, n)
            && ReadField(d) == Found(SkipField(d), |d|)
  {
    hide ReadVarint, Varint, SkipScalar, FieldNumber;
    SmallNumber(number, wireType);
    TagIs(8 * number + wireType, rest);
  }

  function Found(skip: Res<nat>, n: nat): Res<(Event, nat)> {
    match skip
    case Ok(k) => if k > n then Err(UnexpectedEof) else Ok((Skipped, k))
    case Err(e) => Err(e)
  }

  /** An unknown fixed field that ends behind the data. */
  lemma FixedCut(number: nat, rest: Bytes)
    requires 14 < number < 0x1000_0000
    ensures |rest| < 8 ==> ReadField(Varint(8 * number + 1) + rest) == Err(UnexpectedEof)
    ensures |rest| < 4 ==> ReadField(Varint(8 * number + 5) + rest) == Err(UnexpectedEof)
  {
    hide ReadField, SkipField, Varint;
    UnknownTag(number, 1, rest);
    UnknownTag(number, 5, rest);
  }

  /** An unknown string that ends behind the data, or has a negative length. */
  lemma UnknownCut(number: nat, length: nat, rest: Bytes)
    requires 14 < number < 0x1000_0000 && |rest| < length < U64
    ensures ReadField(Varint(8 * number + 2) + (Varint(length) + rest)) ==
            Err(if length >= U63 then InvalidLength else UnexpectedEof)
  {
    hide ReadField, SkipField, Varint, ReadVarint;
    UnknownTag(number, 2, Varint(length) + rest);
    ReadBack(length, rest);
  }
}
