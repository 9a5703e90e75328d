/**
  JSON strings (WriteJSONString, src/decoder/decoder.go): runs of plain octets are written as they are,
  and the octets between them as escapes. The reader is section 7 of RFC 8259, for the escapes that
  stand for one octet.
  */
module JsonText {
  import opened Octets
  import opened Text

  /** The octets that are not written as they are. */
  predicate Special(c: Byte) {
    c == QUOTE || c == BACKSLASH || c < 32
  }

  /** The escape of a special octet; form feed and backspace get the long form too. */
  function EscapeOf(c: Byte): (e: Bytes)
    requires Special(c)
    ensures |e| >= 2 && e[0] == BACKSLASH
  {
    if c == QUOTE || c == BACKSLASH then [BACKSLASH, c]
    else if c == 10 then [BACKSLASH, 110]
    else if c == 13 then [BACKSLASH, 114]
    else if c == 9 then [BACKSLASH, 116]
    else [BACKSLASH, 117, 48, 48, HexDigit(c / 16), HexDigit(c % 16)]
  }

  function Escaped(s: Bytes): Bytes {
    if s == [] then []
    else Escaped(s[..|s| - 1]) + (if Special(s[|s| - 1]) then EscapeOf(s[|s| - 1]) else [s[|s| - 1]])
  }

  lemma EscapedMore(s: Bytes, c: Byte)
    ensures Escaped(s + [c]) == Escaped(s) + (if Special(c) then EscapeOf(c) else [c])
  {
    hide Special, EscapeOf;
    assert (s + [c])[..|s|] == s;
  }

  lemma NothingEscaped()
    ensures Escaped([]) == []
  {
  }

  /** WriteJSONString: `j` is the start of the run of plain octets that is not written yet. */
  method WriteJSONString(b: Bytes) returns (w: Bytes)
    ensures w == Escaped(b)
  {
    hide Special, EscapeOf, Escaped;
    w := [];
    var j := 0;
    assert b[..0] == [] && b[0..0] == [];
    NothingEscaped();
    for i := 0 to |b|
      invariant j <= i && w + b[j..i] == Escaped(b[..i])
    {
      EscapedMore(b[..i], b[i]);
      assert b[..i + 1] == b[..i] + [b[i]];
      if Special(b[i]) {
        w := w + b[j..i];
        w := w + EscapeOf(b[i]);
        j := i + 1;
        assert w + b[j..i + 1] == w;
      } else {
        Assoc(w, b[j..i], [b[i]]);
        assert b[j..i + 1] == b[j..i] + [b[i]];
      }
    }
    assert b[..|b|] == b && b[j..|b|] == b[j..];
    w := w + b[j..];
  }

  /** Printable octets but the quote and the backslash are written as they are. */
  lemma {:induction false} PlainCopied(s: Bytes)
    requires forall i :: 0 <= i < |s| ==> s[i] >= 32 && s[i] !in Ascii("\"\\")
    ensures Escaped(s) == s
  {
    if s != [] {
      assert Ascii("\"\\") == [QUOTE, BACKSLASH];
      PlainCopied(s[..|s| - 1]);
      assert s == s[..|s| - 1] + [s[|s| - 1]];
    }
  }

  /** The escapes of RFC 8259 that have a letter or stand for themselves, and the form of the others. */
  lemma EscapeForms(c: Byte)
    requires Special(c)
    ensures EscapeOf(c) == if c == 34 then Ascii("\\\"") else if c == 92 then Ascii("\\\\") else if c ==
            10 then Ascii("\\n")
                           else if c == 13 then Ascii("\\r") else if c == 9 then Ascii("\\t")
                           else Ascii("\\u00") + [HexDigit(c / 16), HexDigit(c % 16)]
  {
    assert Ascii("\\u00") == [92, 117, 48, 48];
    assert Ascii("\\\"") == [92, 34] && Ascii("\\\\") == [92, 92] && Ascii("\\n") == [92, 110];
    assert Ascii("\\r") == [92, 114] && Ascii("\\t") == [92, 116];
  }

  /** The octet an escape at the front stands for, and its length; None is an error. */
  function ReadEscape(t: Bytes): (r: Option<(Byte, nat)>)
    ensures r.Some? ==> 2 <= r.value.1 <= |t|
  {
    if |t| < 2 || t[0] != BACKSLASH then None
    else if t[1] == QUOTE || t[1] == BACKSLASH || t[1] == 47 then Some((t[1], 2))
    else if t[1] == 98 then Some((8, 2))
    else if t[1] == 102 then Some((12, 2))
    else if t[1] == 110 then Some((10, 2))
    else if t[1] == 114 then Some((13, 2))
    else if t[1] == 116 then Some((9, 2))
    else if t[1] == 117 && |t| >= 6 && t[2] == 48 && t[3] == 48 then
      match (HexValue(t[4]), HexValue(t[5]))
      case (Some(hi), Some(lo)) => Some((16 * hi + lo, 6))
      case _ => None
    else None
  }

  /** The text of a JSON string, read up to its closing quote: the value and what is behind. */
  function ReadString(t: Bytes): Option<(Bytes, Bytes)>
    decreases |t|
  {
    if t == [] then None
    else if t[0] == QUOTE then Some(([], t[1..]))
    else if t[0] == BACKSLASH then
      match ReadEscape(t)
      case None => None
      case Some((c, n)) => Before(c, ReadString(t[n..]))
    else if t[0] < 32 then None
    else Before(t[0], ReadString(t[1..]))
  }

  function Before(c: Byte, r: Option<(Bytes, Bytes)>): Option<(Bytes, Bytes)> {
    match r
    case None => None
    case Some((s, rest)) => Some(([c] + s, rest))
  }

  lemma EscapeReads(c: Byte, rest: Bytes)
    requires Special(c)
    ensures ReadEscape(EscapeOf(c) + rest) == Some((c, |EscapeOf(c)|))
    ensures (EscapeOf(c) + rest)[|EscapeOf(c)|..] == rest
  {
  }

  lemma {:induction false} EscapedFront(s: Bytes)
    requires s != []
    ensures Escaped(s) == (if Special(s[0]) then EscapeOf(s[0]) else [s[0]]) + Escaped(s[1..])
  {
    var n := |s| - 1;
    var front := if Special(s[0]) then EscapeOf(s[0]) else [s[0]];
    if n == 0 {
      assert s[..0] == [] && s[1..] == [];
      assert [] + front == front + [];
    } else {
      EscapedFront(s[..n]);
      assert s[..n][1..] == s[1..][..n - 1];
      var last := if Special(s[n]) then EscapeOf(s[n]) else [s[n]];
      Assoc(front, Escaped(s[1..][..n - 1]), last);
    }
  }

  /** A reader finds exactly the text that was written, and the closing quote is not hidden or forged. */
  lemma {:induction false} ReadsBack(s: Bytes, rest: Bytes)
    ensures ReadString(Escaped(s) + [QUOTE] + rest) == Some((s, rest))
  {
    hide *;
    if s == [] {
      ReadsQuote(s, rest);
    } else {
      var tail := Escaped(s[1..]) + [QUOTE] + rest;
      var front := if Special(s[0]) then EscapeOf(s[0]) else [s[0]];
      EscapedFront(s);
      ReadsBack(s[1..], rest);
      Assoc(front, Escaped(s[1..]), [QUOTE]);
      Assoc(front, Escaped(s[1..]) + [QUOTE], rest);
      ReadsFront(s[0], tail);
      assert [s[0]] + s[1..] == s;
      BeforeIs(s[0], s[1..], rest);
    }
  }

  lemma BeforeIs(c: Byte, s: Bytes, rest: Bytes)
    ensures Before(c, Some((s, rest))) == Some(([c] + s, rest))
  {
  }

  lemma ReadsQuote(s: Bytes, rest: Bytes)
    requires s == []
    ensures ReadString(Escaped(s) + [QUOTE] + rest) == Some((s, rest))
  {
    assert Escaped(s) + [QUOTE] + rest == [QUOTE] + rest && ([QUOTE] + rest)[1..] == rest;
  }

  /** One octet and what is behind it. */
  lemma ReadsFront(c: Byte, tail: Bytes)
    ensures ReadString((if Special(c) then EscapeOf(c) else [c]) + tail) == Before(c, ReadString(tail))
  {
    if Special(c) {
      hide EscapeOf, ReadEscape, Before;
      EscapeReads(c, tail);
    } else {
      assert ([c] + tail)[1..] == tail;
    }
  }
}
