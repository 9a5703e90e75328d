/**
  What the octet tables of `Utf8` and `Text` stand for: the characters of Unicode, encoded as section 3 of
  RFC 3629 says, and the white space among them (unicode.IsSpace).
  */
module Unicode {
  import opened Octets
  import opened Text
  import opened Utf8

  /** The code points that have an encoding. */
  predicate Scalar(cp: int) {
    0 <= cp < 0xD800 || 0xE000 <= cp < 0x11_0000
  }

  /** RFC 3629, section 3: six bits in each octet behind the first. */
  function Encoding(cp: int): (e: Bytes)
    requires Scalar(cp)
    ensures 1 <= |e| <= 4
  {
    if cp < 0x80 then [cp]
    else if cp < 0x800 then [0xC0 + cp / 64, 0x80 + cp % 64]
    else if cp < 0x1_0000 then [0xE0 + cp / 4096, 0x80 + cp / 64 % 64, 0x80 + cp % 64]
    else [0xF0 + cp / 0x4_0000, 0x80 + cp / 4096 % 64, 0x80 + cp / 64 % 64, 0x80 + cp % 64]
  }

  /** A character is recognised whatever follows. */
  lemma EncodingIsRune(cp: int, rest: Bytes)
    requires Scalar(cp)
    ensures RuneLen(Encoding(cp) + rest) == |Encoding(cp)|
  {
    RuneIsWhole(cp);
    RuneLenPrefix(Encoding(cp), rest);
  }

  lemma RuneIsWhole(cp: int)
    requires Scalar(cp)
    ensures RuneLen(Encoding(cp)) == |Encoding(cp)|
  {
  }

  /** The code point that a character of this many octets encodes. */
  function CodePoint(s: Bytes, n: nat): int
    requires 1 <= n <= |s| && n <= 4
  {
    if n == 1 then s[0]
    else if n == 2 then (s[0] as int - 0xC0) * 64 + (s[1] as int - 0x80)
    else if n == 3 then (s[0] as int - 0xE0) * 4096 + (s[1] as int - 0x80) * 64 + (s[2] as int - 0x80)
    else (s[0] as int - 0xF0) * 0x4_0000 + (s[1] as int - 0x80) * 4096 + (s[2] as int - 0x80) * 64 +
         (s[3] as int - 0x80)
  }

  /** What is recognised is the encoding of a code point, and the only one. */
  lemma RuneIsEncoding(s: Bytes)
    requires RuneLen(s) > 0
    ensures var n := RuneLen(s); Scalar(CodePoint(s, n)) && s[..n] == Encoding(CodePoint(s, n))
  {
    var n := RuneLen(s);
    if n == 1 {
      assert s[..1] == [s[0]];
    } else {
      hide RuneLen, CodePoint, Encoding, Scalar;
      if n == 2 { TwoOctets(s); } else if n == 3 { ThreeOctets(s); } else { FourOctets(s); }
    }
  }

  lemma TwoOctets(s: Bytes)
    requires RuneLen(s) == 2
    ensures Scalar(CodePoint(s, 2)) && s[..2] == Encoding(CodePoint(s, 2))
  {
    Digits2(s[0] as int - 0xC0, s[1] as int - 0x80);
  }

  lemma ThreeOctets(s: Bytes)
    requires RuneLen(s) == 3
    ensures Scalar(CodePoint(s, 3)) && s[..3] == Encoding(CodePoint(s, 3))
  {
    Digits3(s[0] as int - 0xE0, s[1] as int - 0x80, s[2] as int - 0x80);
  }

  lemma FourOctets(s: Bytes)
    requires RuneLen(s) == 4
    ensures Scalar(CodePoint(s, 4)) && s[..4] == Encoding(CodePoint(s, 4))
  {
    Digits4(s[0] as int - 0xF0, s[1] as int - 0x80, s[2] as int - 0x80, s[3] as int - 0x80);
  }

  lemma Digits2(a: int, b: int)
    requires 0 <= b < 64
    ensures (a * 64 + b) / 64 == a && (a * 64 + b) % 64 == b
  {
  }

  lemma Digits3(a: int, b: int, c: int)
    requires 0 <= b < 64 && 0 <= c < 64
    ensures var cp := a * 4096 + b * 64 + c; cp / 4096 == a && cp / 64 % 64 == b && cp % 64 == c
  {
    Digits2(a * 64 + b, c);
    Digits2(a, b);
  }

  lemma Digits4(a: int, b: int, c: int, d: int)
    requires 0 <= b < 64 && 0 <= c < 64 && 0 <= d < 64
    ensures var cp := a * 0x4_0000 + b * 4096 + c * 64 + d;
            cp / 0x4_0000 == a && cp / 4096 % 64 == b && cp / 64 % 64 == c && cp % 64 == d
  {
    Digits3(a * 64 + b, c, d);
    Digits2(a, b);
  }

  ghost predicate Scalars(cps: seq<int>) {
    forall i :: 0 <= i < |cps| ==> Scalar(cps[i])
  }

  /** The text of a list of code points. */
  function EncodeAll(cps: seq<int>): Bytes
    requires Scalars(cps)
  {
    if cps == [] then [] else Encoding(cps[0]) + EncodeAll(cps[1..])
  }

  lemma ValidStep(s: Bytes)
    requires Valid(s) && s != []
    ensures RuneLen(s) > 0 && Valid(s[RuneLen(s)..])
  {
    hide RuneLen;
  }

  lemma {:induction false} ValidOnto(s: Bytes) returns (cps: seq<int>)
    requires Valid(s)
    ensures Scalars(cps) && s == EncodeAll(cps)
    decreases |s|
  {
    hide *;
    if s == [] {
      cps := [];
      NothingEncoded();
    } else {
      ValidStep(s);
      RuneIsEncoding(s);
      var n := RuneLen(s);
      var cp := CodePoint(s, n);
      var rest := ValidOnto(s[n..]);
      EncodeCons(cp, rest);
      cps := [cp] + rest;
      CutAt(s, n);
    }
  }

  lemma CutAt(s: Bytes, n: nat)
    requires n <= |s|
    ensures s == s[..n] + s[n..]
  {
  }

  lemma NothingEncoded()
    ensures Scalars([]) && Blanks([]) && EncodeAll([]) == []
  {
  }

  lemma EncodeCons(cp: int, rest: seq<int>)
    requires Scalar(cp) && Scalars(rest)
    ensures Scalars([cp] + rest) && EncodeAll([cp] + rest) == Encoding(cp) + EncodeAll(rest)
  {
    hide Encoding, Scalar;
    assert ([cp] + rest)[1..] == rest;
  }

  lemma {:induction false} EncodedIsValid(cps: seq<int>)
    requires Scalars(cps)
    ensures Valid(EncodeAll(cps))
  {
    if cps != [] {
      hide Encoding;
      var e, rest := Encoding(cps[0]), EncodeAll(cps[1..]);
      EncodingIsRune(cps[0], rest);
      assert (e + rest)[|e|..] == rest;
      EncodedIsValid(cps[1..]);
    }
  }

  /** The valid texts are exactly the texts of lists of code points. */
  lemma ValidIff(s: Bytes)
    ensures Valid(s) <==> exists cps :: Scalars(cps) && s == EncodeAll(cps)
  {
    hide Valid, EncodeAll, Scalars;
    if Valid(s) {
      var cps := ValidOnto(s);
    } else if cps :| Scalars(cps) && s == EncodeAll(cps) {
      EncodedIsValid(cps);
    }
  }

  // ---------------------------------------------------------------- white space

  /** unicode.IsSpace. */
  predicate WhiteSpace(cp: int) {
    || cp in {9, 10, 11, 12, 13, 32, 0x85, 0xA0, 0x1680, 0x2028, 0x2029, 0x202F, 0x205F, 0x3000}
    || 0x2000 <= cp <= 0x200A
  }

  /** White space is found at either end of a text. */
  lemma SpaceFound(cp: int, rest: Bytes)
    requires WhiteSpace(cp)
    ensures LeadSpace(Encoding(cp) + rest) == |Encoding(cp)|
    ensures TailSpace(rest + Encoding(cp)) == |Encoding(cp)|
  {
    var s, t := Encoding(cp) + rest, rest + Encoding(cp);
    var e := Encoding(cp);
    assert forall i :: 0 <= i < |e| ==> s[i] == e[i] && t[|rest| + i] == e[i];
  }

  /** Nothing else is taken for white space. */
  lemma SpaceOnly(s: Bytes)
    ensures LeadSpace(s) > 0 ==> exists cp :: WhiteSpace(cp) && s[..LeadSpace(s)] == Encoding(cp)
    ensures TailSpace(s) > 0 ==> exists cp :: WhiteSpace(cp) && s[|s| - TailSpace(s)..] == Encoding(cp)
  {
    if LeadSpace(s) > 0 { LeadIsSpace(s); }
    if TailSpace(s) > 0 { TailIsSpace(s); }
  }

  lemma LeadIsSpace(s: Bytes)
    requires LeadSpace(s) > 0
    ensures exists cp :: WhiteSpace(cp) && s[..LeadSpace(s)] == Encoding(cp)
  {
    var n := LeadSpace(s);
    var cp := CodePoint(s, n);
    assert WhiteSpace(cp) && s[..n] == Encoding(cp);
  }

  lemma TailIsSpace(s: Bytes)
    requires TailSpace(s) > 0
    ensures exists cp :: WhiteSpace(cp) && s[|s| - TailSpace(s)..] == Encoding(cp)
  {
    hide LeadSpace, CodePoint, Encoding, TailSpace, WhiteSpace;
    var n := TailSpace(s);
    var t := s[|s| - n..];
    TailLeads(s);
    LeadIsSpace(t);
    assert t[..n] == t;
  }

  /** The white space at the end, alone, is white space at a front. */
  lemma TailLeads(s: Bytes)
    requires TailSpace(s) > 0
    ensures LeadSpace(s[|s| - TailSpace(s)..]) == TailSpace(s)
  {
  }

  ghost predicate Blanks(cps: seq<int>) {
    forall i :: 0 <= i < |cps| ==> WhiteSpace(cps[i])
  }

  /** Trimming takes all white space off both ends, and nothing else. */
  lemma TrimIs(s: Bytes) returns (front: seq<int>, back: seq<int>)
    ensures Blanks(front) && Blanks(back) && s == EncodeAll(front) + TrimSpace(s) + EncodeAll(back)
    ensures LeadSpace(TrimSpace(s)) == 0 && TailSpace(TrimSpace(s)) == 0
  {
    hide LeadSpace, TailSpace, EncodeAll, TrimLeft, TrimRight;
    front := LeftIs(s);
    back := RightIs(TrimLeft(s));
    Assoc(EncodeAll(front), TrimSpace(s), EncodeAll(back));
    LeadOfFront(TrimSpace(s), EncodeAll(back));
  }

  lemma {:induction false} LeftIs(s: Bytes) returns (front: seq<int>)
    ensures Blanks(front) && s == EncodeAll(front) + TrimLeft(s) && LeadSpace(TrimLeft(s)) == 0
    decreases |s|
  {
    hide *;
    LeftStep(s);
    NothingEncoded();
    var n := LeadSpace(s);
    if n == 0 {
      front := [];
      assert s == [] + s;
    } else {
      var cp := LeadCode(s);
      var rest := LeftIs(s[n..]);
      BlankCons(cp, rest);
      EncodeCons(cp, rest);
      front := [cp] + rest;
      Assoc(Encoding(cp), EncodeAll(rest), TrimLeft(s));
      CutAt(s, n);
    }
  }

  lemma LeftStep(s: Bytes)
    ensures TrimLeft(s) == if LeadSpace(s) == 0 then s else TrimLeft(s[LeadSpace(s)..])
  {
    hide LeadSpace;
  }

  lemma LeadCode(s: Bytes) returns (cp: int)
    requires LeadSpace(s) > 0
    ensures WhiteSpace(cp) && Scalar(cp) && s[..LeadSpace(s)] == Encoding(cp)
  {
    hide LeadSpace, Encoding;
    LeadIsSpace(s);
    cp :| WhiteSpace(cp) && s[..LeadSpace(s)] == Encoding(cp);
  }

  lemma BlankCons(cp: int, rest: seq<int>)
    requires WhiteSpace(cp) && Blanks(rest)
    ensures Blanks([cp] + rest) && Blanks(rest + [cp]) && Scalar(cp) && Scalars(rest)
  {
  }

  lemma {:induction false} RightIs(s: Bytes) returns (back: seq<int>)
    ensures Blanks(back) && s == TrimRight(s) + EncodeAll(back) && TailSpace(TrimRight(s)) == 0
    decreases |s|
  {
    hide *;
    RightStep(s);
    NothingEncoded();
    var n := TailSpace(s);
    if n == 0 {
      back := [];
      assert s == s + [];
    } else {
      var k := |s| - n;
      var cp := TailCode(s);
      var rest := RightIs(s[..k]);
      BlankCons(cp, rest);
      EncodeAppend(rest, cp);
      back := rest + [cp];
      Assoc(TrimRight(s), EncodeAll(rest), Encoding(cp));
      CutAt(s, k);
    }
  }

  lemma RightStep(s: Bytes)
    ensures TrimRight(s) == if TailSpace(s) == 0 then s else TrimRight(s[..|s| - TailSpace(s)])
  {
    hide TailSpace;
  }

  lemma TailCode(s: Bytes) returns (cp: int)
    requires TailSpace(s) > 0
    ensures WhiteSpace(cp) && Scalar(cp) && s[|s| - TailSpace(s)..] == Encoding(cp)
  {
    hide TailSpace, Encoding;
    TailIsSpace(s);
    cp :| WhiteSpace(cp) && s[|s| - TailSpace(s)..] == Encoding(cp);
  }

  lemma {:induction false} EncodeAppend(cps: seq<int>, cp: int)
    requires Scalars(cps) && Scalar(cp)
    ensures EncodeAll(cps + [cp]) == EncodeAll(cps) + Encoding(cp)
  {
    hide Encoding;
    var all := cps + [cp];
    if cps == [] {
      assert all[1..] == [];
      assert EncodeAll(all) == Encoding(cp) + [] == [] + Encoding(cp);
    } else {
      assert all[1..] == cps[1..] + [cp];
      EncodeAppend(cps[1..], cp);
      Assoc(Encoding(cps[0]), EncodeAll(cps[1..]), Encoding(cp));
    }
  }

  lemma LeadOfFront(a: Bytes, b: Bytes)
    requires LeadSpace(a + b) == 0
    ensures LeadSpace(a) == 0
  {
    assert forall i :: 0 <= i < |a| ==> (a + b)[i] == a[i];
  }
}
