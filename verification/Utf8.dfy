/**
  UTF-8 as section 4 of RFC 3629 defines it, and the sanitiser every payload passes through before
  it is stored in a text column (src/decoder/decoder.go, toUTF8).
  */
module Utf8 {
  import opened Octets

  predicate Tail(c: Byte) {
    0x80 <= c <= 0xBF
  }

  /** Octets of the well-formed character `s` begins with; 0 when it begins with none. */
  function RuneLen(s: Bytes): (n: nat)
    ensures n <= |s| && n <= 4
  {
    if |s| >= 1 && s[0] < 0x80 then 1
    else if |s| >= 2 && 0xC2 <= s[0] <= 0xDF && Tail(s[1]) then 2
    else if |s| >= 3 && Tail(s[2]) && (
              || (s[0] == 0xE0 && 0xA0 <= s[1] <= 0xBF)
              || ((0xE1 <= s[0] <= 0xEC || 0xEE <= s[0] <= 0xEF) && Tail(s[1]))
              || (s[0] == 0xED && 0x80 <= s[1] <= 0x9F)) then 3
    else if |s| >= 4 && Tail(s[2]) && Tail(s[3]) && (
              || (s[0] == 0xF0 && 0x90 <= s[1] <= 0xBF)
              || (0xF1 <= s[0] <= 0xF3 && Tail(s[1]))
              || (s[0] == 0xF4 && 0x80 <= s[1] <= 0x8F)) then 4
    else 0
  }

  /** utf8.ValidString. */
  predicate Valid(s: Bytes)
    decreases |s|
  {
    s == [] || (RuneLen(s) > 0 && Valid(s[RuneLen(s)..]))
  }

  /** A text column keeps these octets: no NUL, well-formed UTF-8. The negation of unsafeUTF8. */
  predicate Safe(s: Bytes) {
    0 !in s && Valid(s)
  }

  // ---------------------------------------------------------------- laws of validity

  lemma RuneLenPrefix(a: Bytes, b: Bytes)
    requires RuneLen(a) > 0
    ensures RuneLen(a + b) == RuneLen(a)
  {
  }

  /** A character never spans an ASCII octet. */
  lemma RuneLenStops(a: Bytes, c: Byte, b: Bytes)
    requires a != [] && c < 0x80
    ensures RuneLen(a + [c] + b) == RuneLen(a)
  {
    var s := a + [c] + b;
    assert s[|a|] == c;
    assert forall i :: 0 <= i < |a| ==> s[i] == a[i];
  }

  lemma {:induction false} ValidConcat(a: Bytes, b: Bytes)
    requires Valid(a)
    ensures Valid(a + b) <==> Valid(b)
    decreases |a|
  {
    if a == [] {
      assert a + b == b;
    } else {
      var n := RuneLen(a);
      RuneLenPrefix(a, b);
      assert (a + b)[n..] == a[n..] + b;
      ValidConcat(a[n..], b);
    }
  }

  lemma {:induction false} ValidAround(a: Bytes, c: Byte, b: Bytes)
    requires c < 0x80
    ensures Valid(a + [c] + b) <==> Valid(a) && Valid(b)
    decreases |a|
  {
    var s := a + [c] + b;
    if a == [] {
      assert RuneLen(s) == 1 && s[1..] == b;
    } else {
      RuneLenStops(a, c, b);
      var n := RuneLen(a);
      if n > 0 {
        assert s[n..] == a[n..] + [c] + b;
        ValidAround(a[n..], c, b);
      }
    }
  }

  lemma SafeAround(a: Bytes, c: Byte, b: Bytes)
    requires 0 < c < 0x80
    ensures Safe(a + [c] + b) <==> Safe(a) && Safe(b)
  {
    ValidAround(a, c, b);
    var s := a + [c] + b;
    assert 0 in s <==> 0 in a || 0 in b by {
      if 0 in a { var i :| 0 <= i < |a| && a[i] == 0; assert s[i] == 0; }
      if 0 in b { var i :| 0 <= i < |b| && b[i] == 0; assert s[|a| + 1 + i] == 0; }
    }
  }

  lemma {:induction false} SafeAscii(s: Bytes)
    requires forall i :: 0 <= i < |s| ==> 0 < s[i] < 0x80
    ensures Safe(s)
  {
    if s == [] {
    } else {
      assert s == [] + [s[0]] + s[1..];
      SafeAscii(s[1..]);
      SafeAround([], s[0], s[1..]);
    }
  }

  lemma SafeConcat(a: Bytes, b: Bytes)
    requires Safe(a) && Safe(b)
    ensures Safe(a + b)
  {
    ValidConcat(a, b);
  }

  // ---------------------------------------------------------------- toUTF8

  /**
    What the slow path of toUTF8 appends from here on: NULs go, and each run of ill-formed octets
    becomes one `replacement`. `invalid` says that such a run is open.
    */
  function Scrub(s: Bytes, replacement: Bytes, invalid: bool): Bytes
    decreases |s|
  {
    if s == [] then []
    else if s[0] == 0 then Scrub(s[1..], replacement, false)
    else if RuneLen(s) == 0 then (if invalid then [] else replacement) + Scrub(s[1..], replacement, true)
    else s[..RuneLen(s)] + Scrub(s[RuneLen(s)..], replacement, false)
  }

  /** The text toUTF8 stores. */
  function ToUtf8(s: Bytes, replacement: Bytes): Bytes {
    if Safe(s) then s else Scrub(s, replacement, false)
  }

  lemma ScrubAt(s: Bytes, i: nat, replacement: Bytes, invalid: bool)
    requires i < |s|
    ensures var n := RuneLen(s[i..]);
            Scrub(s[i..], replacement, invalid) ==
            if s[i] == 0 then Scrub(s[i + 1..], replacement, false)
            else if n == 0 then (if invalid then [] else replacement) + Scrub(s[i + 1..], replacement, true)
            else s[i..i + n] + Scrub(s[i + n..], replacement, false)
  {
    var t := s[i..];
    var n := RuneLen(t);
    assert t[1..] == s[i + 1..] && t[..n] == s[i..i + n] && t[n..] == s[i + n..];
  }

  /** toUTF8: the fast path, then the loop over octets and characters. */
  method ToUtf8Loop(s: Bytes, replacement: Bytes) returns (r: Bytes)
    ensures r == ToUtf8(s, replacement)
  {
    hide Scrub, Valid;
    if Safe(s) {
      return s;
    }
    r := [];
    var invalid := false;
    var i := 0;
    assert s[0..] == s;
    while i < |s|
      invariant 0 <= i <= |s|
      invariant r + Scrub(s[i..], replacement, invalid) == Scrub(s, replacement, false)
    {
      ScrubAt(s, i, replacement, invalid);
      var c := s[i];
      var wid := RuneLen(s[i..]);
      if c == 0 {
        i, invalid := i + 1, false;
      } else if c < 0x80 {
        assert s[i..i + wid] == [c];
        Assoc(r, [c], Scrub(s[i + 1..], replacement, false));
        i, invalid, r := i + 1, false, r + [c];
      } else if wid == 0 {
        Assoc(r, if invalid then [] else replacement, Scrub(s[i + 1..], replacement, true));
        assert r + [] == r;
        i := i + 1;
        if !invalid {
          invalid, r := true, r + replacement;
        }
      } else {
        Assoc(r, s[i..i + wid], Scrub(s[i + wid..], replacement, false));
        invalid, r, i := false, r + s[i..i + wid], i + wid;
      }
    }
    assert s[i..] == [];
    ScrubEnd(replacement, invalid);
    assert r + [] == r;
  }

  lemma ScrubEnd(replacement: Bytes, invalid: bool)
    ensures Scrub([], replacement, invalid) == []
  {
  }

  /** The two paths of toUTF8 agree wherever the fast one is taken. */
  lemma {:induction false} FastPathAgrees(s: Bytes, replacement: Bytes)
    requires Safe(s)
    ensures Scrub(s, replacement, false) == s
    decreases |s|
  {
    if s == [] {
    } else {
      var n := RuneLen(s);
      assert s == s[..n] + s[n..];
      assert Safe(s[n..]);
      FastPathAgrees(s[n..], replacement);
    }
  }

  lemma {:induction false} ScrubIsSafe(s: Bytes, replacement: Bytes, invalid: bool)
    requires Safe(replacement)
    ensures Safe(Scrub(s, replacement, invalid))
    decreases |s|
  {
    if s == [] {
    } else if s[0] == 0 {
      ScrubIsSafe(s[1..], replacement, false);
    } else if RuneLen(s) == 0 {
      ScrubIsSafe(s[1..], replacement, true);
      assert [] + Scrub(s[1..], replacement, true) == Scrub(s[1..], replacement, true);
      SafeConcat(replacement, Scrub(s[1..], replacement, true));
    } else {
      var n := RuneLen(s);
      var rune := s[..n];
      assert Safe(rune) by {
        assert RuneLen(rune) == n && rune[n..] == [];
        assert forall i :: 0 <= i < n ==> rune[i] == s[i] && s[i] != 0;
      }
      ScrubIsSafe(s[n..], replacement, false);
      SafeConcat(rune, Scrub(s[n..], replacement, false));
    }
  }

  // ---------------------------------------------------------------- what is kept

  /** A run of octets, up to `rest`, none of which is a NUL or begins a character. */
  ghost predicate Stray(run: Bytes, rest: Bytes) {
    run != [] && forall i :: 0 <= i < |run| ==> run[i] != 0 && RuneLen((run + rest)[i..]) == 0
  }

  lemma {:induction false} ScrubText(a: Bytes, s: Bytes, replacement: Bytes, invalid: bool)
    requires Safe(a)
    ensures Scrub(a + s, replacement, invalid) == a + Scrub(s, replacement, invalid && a == [])
    decreases |a|
  {
    if a == [] {
      assert a + s == s;
    } else {
      hide RuneLen;
      var n := RuneLen(a);
      RuneLenPrefix(a, s);
      assert (a + s)[n..] == a[n..] + s && (a + s)[..n] == a[..n];
      ScrubText(a[n..], s, replacement, false);
      assert a == a[..n] + a[n..];
      Assoc(a[..n], a[n..], Scrub(s, replacement, false));
    }
  }

  lemma {:induction false} ScrubStray(run: Bytes, rest: Bytes, replacement: Bytes, invalid: bool)
    requires Stray(run, rest)
    ensures Scrub(run + rest, replacement, invalid) ==
            (if invalid then [] else replacement) + Scrub(rest, replacement, true)
  {
    hide RuneLen;
    var s, tail := run + rest, run[1..];
    assert s[0..] == s && run[0] != 0 && s[1..] == tail + rest;
    if tail == [] {
      assert tail + rest == rest;
    } else {
      assert forall i :: 0 <= i < |tail| ==> (tail + rest)[i..] == s[i + 1..] && tail[i] == run[i + 1];
      ScrubStray(tail, rest, replacement, true);
      assert [] + Scrub(rest, replacement, true) == Scrub(rest, replacement, true);
    }
  }

  lemma ScrubAfresh(s: Bytes, replacement: Bytes)
    requires s == [] || s[0] == 0 || RuneLen(s) > 0
    ensures Scrub(s, replacement, true) == Scrub(s, replacement, false)
  {
  }

  /** A whole run of stray octets between a text and a character becomes one replacement. */
  lemma ScrubRun(a: Bytes, run: Bytes, rest: Bytes, replacement: Bytes)
    requires Safe(a) && Stray(run, rest) && (rest == [] || rest[0] == 0 || RuneLen(rest) > 0)
    ensures Scrub(a + run + rest, replacement, false) == a + replacement + Scrub(rest, replacement, false)
  {
    hide Safe, RuneLen, Scrub;
    Assoc(a, run, rest);
    ScrubText(a, run + rest, replacement, false);
    ScrubStray(run, rest, replacement, false);
    ScrubAfresh(rest, replacement);
    Assoc(a, replacement, Scrub(rest, replacement, false));
  }

  /** A NUL behind a text goes. */
  lemma ScrubNul(a: Bytes, rest: Bytes, replacement: Bytes)
    requires Safe(a)
    ensures Scrub(a + [0] + rest, replacement, false) == a + Scrub(rest, replacement, false)
  {
    hide Safe, RuneLen;
    Assoc(a, [0], rest);
    assert ([0] + rest)[1..] == rest;
    ScrubText(a, [0] + rest, replacement, false);
  }

  /** toUTF8 returns NUL-free well-formed UTF-8, and changes nothing when it runs again. */
  lemma ToUtf8IsSafe(s: Bytes, replacement: Bytes)
    requires Safe(replacement)
    ensures Safe(ToUtf8(s, replacement))
    ensures ToUtf8(ToUtf8(s, replacement), replacement) == ToUtf8(s, replacement)
  {
    ScrubIsSafe(s, replacement, false);
  }

  /** With the empty replacement the decoder uses, exactly the safe texts are stored unchanged. */
  lemma StoredUnchanged(s: Bytes)
    ensures ToUtf8(s, []) == s <==> Safe(s)
  {
    ScrubIsSafe(s, [], false);
  }
}
