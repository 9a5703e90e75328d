/**
  Text helpers of Go's standard library used by the codecs: strings.TrimSpace over UTF-8 white
  space, strings.EqualFold and strings.ToLower on ASCII, strconv.Itoa, and encoding/hex.
  */
module Text {
  import opened Octets

  /** The octets of an ASCII text. */
  function Ascii(s: string): (b: Bytes)
    requires forall i :: 0 <= i < |s| ==> s[i] as int < 128
    ensures |b| == |s|
  {
    seq(|s|, i requires 0 <= i < |s| => s[i] as int)
  }

  // ---------------------------------------------------------------- white space

  predicate AsciiSpace(c: Byte) {
    c == 9 || c == 10 || c == 11 || c == 12 || c == 13 || c == 32
  }

  /** The white space of unicode.IsSpace that UTF-8 writes in two octets. */
  predicate Space2(a: Byte, b: Byte) {
    a == 0xC2 && (b == 0x85 || b == 0xA0)
  }

  /** The white space of unicode.IsSpace that UTF-8 writes in three octets. */
  predicate Space3(a: Byte, b: Byte, c: Byte) {
    || (a == 0xE1 && b == 0x9A && c == 0x80)
    || (a == 0xE2 && b == 0x80 && (c <= 0x8A || c == 0xA8 || c == 0xA9 || c == 0xAF) && 0x80 <= c)
    || (a == 0xE2 && b == 0x81 && c == 0x9F)
    || (a == 0xE3 && b == 0x80 && c == 0x80)
  }

  /** How many octets of white space `s` begins with: the length of one rune, or 0. */
  function LeadSpace(s: Bytes): (n: nat)
    ensures n <= |s|
  {
    if |s| >= 1 && AsciiSpace(s[0]) then 1
    else if |s| >= 2 && Space2(s[0], s[1]) then 2
    else if |s| >= 3 && Space3(s[0], s[1], s[2]) then 3
    else 0
  }

  /** How many octets of white space `s` ends with: the length of one rune, or 0. */
  function TailSpace(s: Bytes): (n: nat)
    ensures n <= |s|
  {
    var k := |s|;
    if k >= 1 && AsciiSpace(s[k - 1]) then 1
    else if k >= 2 && Space2(s[k - 2], s[k - 1]) then 2
    else if k >= 3 && Space3(s[k - 3], s[k - 2], s[k - 1]) then 3
    else 0
  }

  function TrimLeft(s: Bytes): Bytes
    decreases |s|
  {
    if LeadSpace(s) == 0 then s else TrimLeft(s[LeadSpace(s)..])
  }

  function TrimRight(s: Bytes): Bytes
    decreases |s|
  {
    if TailSpace(s) == 0 then s else TrimRight(s[..|s| - TailSpace(s)])
  }

  /** strings.TrimSpace. */
  function TrimSpace(s: Bytes): Bytes {
    TrimRight(TrimLeft(s))
  }

  lemma TrimSpaceIdle(s: Bytes)
    requires LeadSpace(s) == 0 && TailSpace(s) == 0
    ensures TrimSpace(s) == s
  {
  }

  /** Printable ASCII other than the blank. */
  predicate Graphic(c: Byte) {
    33 <= c <= 126
  }

  lemma TrimSpaceGraphic(s: Bytes)
    requires s != [] ==> Graphic(s[0]) && Graphic(s[|s| - 1])
    ensures TrimSpace(s) == s
  {
    TrimSpaceIdle(s);
  }

  lemma TrimSpaceLead(s: Bytes)
    requires s != [] && Graphic(s[0]) && Graphic(s[|s| - 1])
    ensures TrimSpace([SPACE] + s) == s
  {
    var t := [SPACE] + s;
    assert t[0] == SPACE && t[1..] == s;
    assert LeadSpace(t) == 1;
    assert LeadSpace(s) == 0;
    assert TrimLeft(t) == s;
    TrimSpaceGraphic(s);
  }

  // ---------------------------------------------------------------- ASCII case

  function Lower(c: Byte): Byte {
    if 65 <= c <= 90 then c + 32 else c
  }

  function ToLower(s: Bytes): (t: Bytes)
    ensures |t| == |s| && forall i :: 0 <= i < |s| ==> t[i] == Lower(s[i])
  {
    seq(|s|, i requires 0 <= i < |s| => Lower(s[i]))
  }

  /** The capital letters have small ones, and no other octet changes. */
  lemma LowerIs(c: Byte)
    ensures forall i :: 0 <= i < 26 ==> Lower(Ascii("ABCDEFGHIJKLMNOPQRSTUVWXYZ")[i]) ==
                                        Ascii("abcdefghijklmnopqrstuvwxyz")[i]
    ensures c !in Ascii("ABCDEFGHIJKLMNOPQRSTUVWXYZ") ==> Lower(c) == c
  {
    hide Ascii;
    Alphabets();
    if 65 <= c <= 90 { assert Ascii("ABCDEFGHIJKLMNOPQRSTUVWXYZ")[c - 65] == c; }
  }

  lemma Alphabets()
    ensures forall i :: 0 <= i < 26 ==> Ascii("ABCDEFGHIJKLMNOPQRSTUVWXYZ")[i] == 65 + i
    ensures forall i :: 0 <= i < 26 ==> Ascii("abcdefghijklmnopqrstuvwxyz")[i] == 97 + i
  {
  }

  predicate EqualFold(a: Bytes, b: Bytes) {
    ToLower(a) == ToLower(b)
  }

  // ---------------------------------------------------------------- decimal

  predicate Digit(c: Byte) {
    48 <= c <= 57
  }

  lemma DigitIff(c: Byte)
    ensures Digit(c) <==> c in Ascii("0123456789")
  {
    if Digit(c) { assert Ascii("0123456789")[c - 48] == c; }
  }

  /** strconv.Itoa on a non-negative number. */
  function Itoa(n: nat): (s: Bytes)
    ensures s != [] && forall i :: 0 <= i < |s| ==> Digit(s[i])
  {
    if n < 10 then [48 + n] else Itoa(n / 10) + [48 + n % 10]
  }

  /** The value of a string of decimal digits. */
  function DigitsValue(s: Bytes): nat
    requires forall i :: 0 <= i < |s| ==> Digit(s[i])
  {
    if s == [] then 0 else assert Digit(s[|s| - 1]); 10 * DigitsValue(s[..|s| - 1]) + (s[|s| - 1] as int - 48)
  }

  lemma {:induction false} ItoaValue(n: nat)
    ensures DigitsValue(Itoa(n)) == n
  {
    if n < 10 {
    } else {
      ItoaValue(n / 10);
      assert Itoa(n)[..|Itoa(n)| - 1] == Itoa(n / 10);
    }
  }

  // ---------------------------------------------------------------- encoding/hex

  function HexDigit(n: nat): Byte
    requires n < 16
  {
    if n < 10 then 48 + n else 87 + n
  }

  /** The value of one hexadecimal digit in either case. */
  function HexValue(c: Byte): (r: Option<nat>)
    ensures r.Some? ==> r.value < 16
  {
    if 48 <= c <= 57 then Some(c - 48)
    else if 97 <= c <= 102 then Some(c - 87)
    else if 65 <= c <= 70 then Some(c - 55)
    else None
  }

  /** Digits are written small and read in either case; nothing else is a digit. */
  lemma HexDigits(c: Byte)
    ensures forall n :: 0 <= n < 16 ==> HexDigit(n) == Ascii("0123456789abcdef")[n]
    ensures forall n :: 0 <= n < 16 ==> HexValue(Ascii("0123456789abcdef")[n]) == Some(n)
    ensures forall n :: 0 <= n < 16 ==> HexValue(Ascii("0123456789ABCDEF")[n]) == Some(n)
    ensures c !in Ascii("0123456789abcdefABCDEF") ==> HexValue(c) == None
  {
    var all := Ascii("0123456789abcdefABCDEF");
    if HexValue(c).Some? { assert c == all[if c <= 57 then c - 48 else if c >= 97 then c - 87 else c - 49]; }
  }

  /** hex.EncodeToString. */
  function HexEncode(b: Bytes): (s: Bytes)
    ensures |s| == 2 * |b|
    ensures forall i :: 0 <= i < |s| ==> Digit(s[i]) || 97 <= s[i] <= 102
  {
    if b == [] then [] else [HexDigit(b[0] / 16), HexDigit(b[0] % 16)] + HexEncode(b[1..])
  }

  /** hex.DecodeString: None on an odd length or a character that is no digit. */
  function HexDecode(s: Bytes): Option<Bytes> {
    if s == [] then Some([])
    else if |s| == 1 then None
    else
      match (HexValue(s[0]), HexValue(s[1]), HexDecode(s[2..]))
      case (Some(hi), Some(lo), Some(rest)) => Some([16 * hi + lo] + rest)
      case _ => None
  }

  lemma {:induction false} HexRoundTrip(b: Bytes)
    ensures HexDecode(HexEncode(b)) == Some(b)
  {
    if b == [] {
    } else {
      HexRoundTrip(b[1..]);
      var s := HexEncode(b);
      assert s[2..] == HexEncode(b[1..]);
      assert HexValue(s[0]) == Some(b[0] / 16) && HexValue(s[1]) == Some(b[0] % 16);
      assert [b[0]] + b[1..] == b;
    }
  }

  // ---------------------------------------------------------------- big-endian integers

  function Be16(n: nat): (s: Bytes)
    requires n < 0x1_0000
    ensures |s| == 2
  {
    [n / 256, n % 256]
  }

  function FromBe16(s: Bytes): (n: nat)
    requires |s| == 2
    ensures n < 0x1_0000
  {
    s[0] as int * 256 + s[1]
  }

  function Be32(n: nat): (s: Bytes)
    requires n < 0x1_0000_0000
    ensures |s| == 4
  {
    Be16(n / 0x1_0000) + Be16(n % 0x1_0000)
  }

  function FromBe32(s: Bytes): (n: nat)
    requires |s| == 4
    ensures n < 0x1_0000_0000
  {
    FromBe16(s[..2]) * 0x1_0000 + FromBe16(s[2..])
  }

  /** The first octet counts most: the order of the texts is the order of the numbers. */
  lemma Be16Order(s: Bytes, t: Bytes)
    requires |s| == |t| == 2
    ensures FromBe16(s) < FromBe16(t) <==> s[0] < t[0] || (s[0] == t[0] && s[1] < t[1])
    ensures FromBe16([0, 0]) == 0 && FromBe16([255, 255]) == 0xFFFF
  {
  }

  lemma Be32Order(s: Bytes, t: Bytes)
    requires |s| == |t| == 4
    ensures FromBe32(s) < FromBe32(t) <==>
            FromBe16(s[..2]) < FromBe16(t[..2]) ||
            (FromBe16(s[..2]) == FromBe16(t[..2]) && FromBe16(s[2..]) < FromBe16(t[2..]))
    ensures FromBe32([0, 0, 0, 0]) == 0 && FromBe32([255, 255, 255, 255]) == 0xFFFF_FFFF
  {
    hide FromBe16;
    Be16Order([0, 0], [255, 255]);
    var zero: Bytes, full: Bytes := [0, 0, 0, 0], [255, 255, 255, 255];
    assert zero[..2] == [0, 0] && zero[2..] == [0, 0] && full[..2] == [255, 255] && full[2..] == [255, 255];
  }

  lemma Be16Inverse(n: nat)
    requires n < 0x1_0000
    ensures FromBe16(Be16(n)) == n
  {
  }

  lemma Be32Inverse(n: nat)
    requires n < 0x1_0000_0000
    ensures FromBe32(Be32(n)) == n
  {
    var s := Be32(n);
    assert s[..2] == Be16(n / 0x1_0000) && s[2..] == Be16(n % 0x1_0000);
  }

  lemma Be16Onto(s: Bytes)
    requires |s| == 2
    ensures Be16(FromBe16(s)) == s
  {
  }

  lemma Be32Onto(s: Bytes)
    requires |s| == 4
    ensures Be32(FromBe32(s)) == s
  {
    Be16Onto(s[..2]);
    Be16Onto(s[2..]);
    assert s == s[..2] + s[2..];
  }
}
