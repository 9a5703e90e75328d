/**
  Column names and column signatures of the ingester (src/lineprotoreceiver/ingest.go): SanitizeIdent,
  sort.Strings, and colSignature, which tells column sets apart because no name holds a bar.
  */
module Ident {
  import opened Octets
  import opened Text
  import Utf8

  const UNDERSCORE: Byte := 95
  const BAR: Byte := 124

  // ---------------------------------------------------------------- SanitizeIdent

  predicate WordOctet(c: Byte) {
    97 <= c <= 122 || 65 <= c <= 90 || 48 <= c <= 57 || c == UNDERSCORE
  }

  /** An identifier: word characters, at least one, not beginning with a digit. */
  predicate Identifier(s: Bytes) {
    s != [] && !Digit(s[0]) && forall i :: 0 <= i < |s| ==> WordOctet(s[i])
  }

  /** Octets of the rune that `range` takes next: one where the text is no valid UTF-8. */
  function RuneWidth(s: Bytes): (n: nat)
    requires s != []
    ensures 1 <= n <= |s|
  {
    if Utf8.RuneLen(s) == 0 then 1 else Utf8.RuneLen(s)
  }

  /** Every rune that is no word character becomes one underscore. */
  function Words(s: Bytes): (t: Bytes)
    ensures forall i :: 0 <= i < |t| ==> WordOctet(t[i])
    decreases |s|
  {
    if s == [] then []
    else [if WordOctet(s[0]) then s[0] else UNDERSCORE] + Words(s[RuneWidth(s)..])
  }

  function Sanitized(name: Bytes): Bytes {
    var t := Words(name);
    if name == [] || Digit(t[0]) then [UNDERSCORE] + t else t
  }

  lemma WordsAt(s: Bytes)
    ensures s == [] ==> Words(s) == []
    ensures s != [] ==> Words(s) == [if WordOctet(s[0]) then s[0] else UNDERSCORE] + Words(s[RuneWidth(s)..])
  {
  }

  /** SanitizeIdent. */
  method SanitizeIdent(name: Bytes) returns (ident: Bytes)
    ensures ident == Sanitized(name)
  {
    hide Words, RuneWidth, Utf8.RuneLen;
    WordsAt(name);
    if name == [] { return [UNDERSCORE]; }
    var b: Bytes := [];
    var i := 0;
    assert name[0..] == name;
    while i < |name|
      invariant i <= |name|
      invariant b + Words(name[i..]) == Words(name)
    {
      var rest := name[i..];
      WordsAt(rest);
      var c := if WordOctet(name[i]) then name[i] else UNDERSCORE;
      Assoc(b, [c], Words(rest[RuneWidth(rest)..]));
      assert rest[RuneWidth(rest)..] == name[i + RuneWidth(rest)..];
      b := b + [c];
      i := i + RuneWidth(rest);
    }
    assert name[i..] == [] && b + [] == b;
    WordsAt(name[i..]);
    ident := if Digit(b[0]) then [UNDERSCORE] + b else b;
  }

  lemma {:induction false} WordsKept(s: Bytes)
    requires forall i :: 0 <= i < |s| ==> WordOctet(s[i])
    ensures Words(s) == s
  {
    if s == [] {
    } else {
      assert Utf8.RuneLen(s) == 1;
      WordsKept(s[1..]);
      assert [s[0]] + s[1..] == s;
    }
  }

  /** The result is an identifier, and identifiers are the names that stay as they are. */
  lemma SanitizedIff(name: Bytes)
    ensures Identifier(Sanitized(name))
    ensures Sanitized(name) == name <==> Identifier(name)
  {
    if Identifier(name) {
      WordsKept(name);
    }
  }

  /** The letters, one by one. */
  const SMALL: set<Byte> :=
    {97, 98, 99, 100, 101, 102, 103, 104, 105, 106, 107, 108, 109, 110, 111, 112, 113, 114, 115, 116, 117, 118,
     119, 120, 121, 122}
  const CAPITAL: set<Byte> :=
    {65, 66, 67, 68, 69, 70, 71, 72, 73, 74, 75, 76, 77, 78, 79, 80, 81, 82, 83, 84, 85, 86, 87, 88, 89, 90}

  /** The word characters: letters, digits and the underscore. */
  ghost predicate WordCharacter(c: Byte) {
    c in SMALL || c in CAPITAL || c in {48, 49, 50, 51, 52, 53, 54, 55, 56, 57} || c == 95
  }

  lemma WordOctetIff(c: Byte)
    ensures WordOctet(c) <==> WordCharacter(c)
  {
    assert 97 <= c <= 122 <==> c in SMALL;
    assert 65 <= c <= 90 <==> c in CAPITAL;
  }

  /** A name is read character by character: a word character stays, and anything else is one underscore. */
  lemma CharacterWords(c: Bytes, rest: Bytes)
    requires c != [] && Utf8.RuneLen(c) == |c|
    ensures Words(c + rest) == [if |c| == 1 && WordCharacter(c[0]) then c[0] else 95] + Words(rest)
  {
    hide WordCharacter;
    Utf8.RuneLenPrefix(c, rest);
    WordOctetIff(c[0]);
    if |c| > 1 { LongIsNoWord(c); }
    assert (c + rest)[|c|..] == rest;
  }

  /** So is an octet that begins no character. */
  lemma StrayWords(s: Bytes)
    requires s != [] && Utf8.RuneLen(s) == 0
    ensures Words(s) == [95] + Words(s[1..])
  {
  }

  lemma LongIsNoWord(c: Bytes)
    requires c != [] && Utf8.RuneLen(c) == |c| > 1
    ensures !WordOctet(c[0])
  {
  }

  // ---------------------------------------------------------------- sort.Strings

  /** The order of Go strings. */
  predicate Less(a: Bytes, b: Bytes) {
    b != [] && (a == [] || a[0] < b[0] || (a[0] == b[0] && Less(a[1..], b[1..])))
  }

  /** The first difference counts, and a shorter text comes before its continuations. */
  lemma {:induction false} LessIff(a: Bytes, b: Bytes)
    ensures Less(a, b) <==> exists k: nat :: DiffersAt(a, b, k)
  {
    if a != [] && b != [] && a[0] == b[0] {
      LessIff(a[1..], b[1..]);
      if exists k: nat :: DiffersAt(a[1..], b[1..], k) {
        var k: nat :| DiffersAt(a[1..], b[1..], k);
        DiffersOn(a, b, k);
      }
      if exists k: nat :: DiffersAt(a, b, k) {
        var k: nat :| DiffersAt(a, b, k);
        DiffersOn(a, b, k - 1);
      }
    } else if Less(a, b) {
      assert DiffersAt(a, b, 0);
    }
  }

  /** The texts agree up to octet `k`, and there `a` ends or has the smaller octet. */
  ghost predicate DiffersAt(a: Bytes, b: Bytes, k: nat) {
    k <= |a| && k < |b| && a[..k] == b[..k] && (k < |a| ==> a[k] < b[k])
  }

  lemma DiffersOn(a: Bytes, b: Bytes, k: nat)
    requires a != [] && b != [] && a[0] == b[0]
    ensures DiffersAt(a[1..], b[1..], k) <==> DiffersAt(a, b, k + 1)
  {
    if k + 1 <= |a| && k + 1 <= |b| {
      assert a[..k + 1] == [a[0]] + a[1..][..k] && b[..k + 1] == [b[0]] + b[1..][..k];
      assert a[1..][..k] == a[..k + 1][1..] && b[1..][..k] == b[..k + 1][1..];
    }
  }

  lemma {:induction false} LessTotal(a: Bytes, b: Bytes)
    ensures a == b || Less(a, b) || Less(b, a)
    ensures !(Less(a, b) && Less(b, a)) && !Less(a, a)
  {
    if a != [] && b != [] && a[0] == b[0] {
      LessTotal(a[1..], b[1..]);
      LessTotal(a[1..], a[1..]);
      assert a == [a[0]] + a[1..] && b == [b[0]] + b[1..];
    } else if a != [] {
      LessTotal(a[1..], a[1..]);
    }
  }

  lemma {:induction false} LessTransitive(a: Bytes, b: Bytes, c: Bytes)
    requires Less(a, b) && Less(b, c)
    ensures Less(a, c)
  {
    if a == [] || a[0] != b[0] || b[0] != c[0] {
    } else {
      LessTransitive(a[1..], b[1..], c[1..]);
    }
  }

  ghost predicate Ascending(ks: seq<Bytes>) {
    forall i, j :: 0 <= i < j < |ks| ==> Less(ks[i], ks[j])
  }

  function Elements(ks: seq<Bytes>): (s: set<Bytes>)
    ensures forall k :: k in s <==> k in ks
  {
    set k | k in ks
  }

  lemma {:induction false} AscendingUnique(a: seq<Bytes>, b: seq<Bytes>)
    requires Ascending(a) && Ascending(b) && Elements(a) == Elements(b)
    ensures a == b
  {
    if a == [] || b == [] {
      EmptyElements(a);
      EmptyElements(b);
    } else {
      FirstIsLeast(a, b);
      FirstIsLeast(b, a);
      LessTotal(a[0], b[0]);
      RestElements(a);
      RestElements(b);
      AscendingUnique(a[1..], b[1..]);
      assert a == [a[0]] + a[1..] && b == [b[0]] + b[1..];
    }
  }

  lemma EmptyElements(a: seq<Bytes>)
    ensures Elements(a) == {} <==> a == []
  {
    if a != [] { assert a[0] in Elements(a); }
  }

  lemma FirstIsLeast(a: seq<Bytes>, b: seq<Bytes>)
    requires a != [] && b != [] && Ascending(a) && Elements(a) == Elements(b)
    ensures a[0] == b[0] || Less(a[0], b[0])
  {
    assert b[0] in Elements(b);
    var i :| 0 <= i < |a| && a[i] == b[0];
  }

  lemma RestElements(a: seq<Bytes>)
    requires a != [] && Ascending(a)
    ensures Elements(a[1..]) == Elements(a) - {a[0]} && Ascending(a[1..])
  {
    LessTotal(a[0], a[0]);
    forall k | k in Elements(a) - {a[0]}
      ensures k in Elements(a[1..])
    {
      var i :| 0 <= i < |a| && a[i] == k;
      assert a[1..][i - 1] == k;
    }
    forall k | k in a[1..]
      ensures k in Elements(a) && k != a[0]
    {
      var i :| 0 <= i < |a[1..]| && a[1..][i] == k;
      assert a[i + 1] == k;
    }
  }

  /** sortedMapKeys: the keys come in the arbitrary order of a map and are sorted. */
  method SortedKeys(keys: set<Bytes>) returns (ks: seq<Bytes>)
    ensures Ascending(ks) && Elements(ks) == keys
  {
    ks := [];
    var rest := keys;
    while rest != {}
      invariant Ascending(ks) && Elements(ks) + rest == keys && Elements(ks) !! rest
      decreases |rest|
    {
      var k :| k in rest;
      ks := PutInOrder(ks, k);
      rest := rest - {k};
    }
  }

  method PutInOrder(ks: seq<Bytes>, k: Bytes) returns (r: seq<Bytes>)
    requires Ascending(ks) && k !in ks
    ensures Ascending(r) && Elements(r) == Elements(ks) + {k}
  {
    var i := 0;
    while i < |ks| && Less(ks[i], k)
      invariant i <= |ks| && forall j :: 0 <= j < i ==> Less(ks[j], k)
    {
      i := i + 1;
    }
    r := ks[..i] + [k] + ks[i..];
    PutAscending(ks, k, i);
    assert ks == ks[..i] + ks[i..];
  }

  lemma PutAscending(ks: seq<Bytes>, k: Bytes, i: nat)
    requires Ascending(ks) && k !in ks && i <= |ks|
    requires forall j :: 0 <= j < i ==> Less(ks[j], k)
    requires i < |ks| ==> !Less(ks[i], k)
    ensures Ascending(ks[..i] + [k] + ks[i..])
  {
    var r := ks[..i] + [k] + ks[i..];
    forall j | i <= j < |ks|
      ensures Less(k, ks[j])
    {
      LessTotal(ks[i], k);
      assert ks[i] in ks;
      if i < j { LessTransitive(k, ks[i], ks[j]); }
    }
    forall p, q | 0 <= p < q < |r|
      ensures Less(r[p], r[q])
    {
      if p == i {
        assert r[q] == ks[q - 1];
      } else if q == i {
        assert r[p] == ks[p];
      } else {
        var p2, q2 := if p < i then p else p - 1, if q < i then q else q - 1;
        assert r[p] == ks[p2] && r[q] == ks[q2];
      }
    }
  }

  // ---------------------------------------------------------------- signatures

  /** `sig` is the column signature of the columns `cols`. */
  ghost predicate SignatureOf(cols: set<Bytes>, sig: Bytes) {
    exists ks :: Ascending(ks) && Elements(ks) == cols && sig == Join(ks, [BAR])
  }

  /** colSignature. */
  method ColSignature(cols: set<Bytes>) returns (sig: Bytes)
    ensures SignatureOf(cols, sig)
  {
    var ks := SortedKeys(cols);
    sig := Join(ks, [BAR]);
  }

  ghost predicate Identifiers(cols: set<Bytes>) {
    cols != {} && forall c :: c in cols ==> Identifier(c)
  }

  lemma SplitSignature(ks: seq<Bytes>)
    requires Identifiers(Elements(ks))
    ensures Split(Join(ks, [BAR]), [BAR]) == ks
  {
    EmptyElements(ks);
    forall i | 0 <= i < |ks|
      ensures Clean(ks[i], [BAR]) && Free(ks[i], [BAR])
    {
      assert ks[i] in Elements(ks) && Identifier(ks[i]);
      WithoutOctet(ks[i], BAR);
    }
    SplitJoin(ks, [BAR]);
  }

  /** Two sets of sanitised columns have the same signature exactly when they are the same set. */
  lemma SameSignatureIff(a: set<Bytes>, b: set<Bytes>, s: Bytes, t: Bytes)
    requires Identifiers(a) && Identifiers(b) && SignatureOf(a, s) && SignatureOf(b, t)
    ensures s == t <==> a == b
  {
    var ks :| Ascending(ks) && Elements(ks) == a && s == Join(ks, [BAR]);
    var ls :| Ascending(ls) && Elements(ls) == b && t == Join(ls, [BAR]);
    SplitSignature(ks);
    SplitSignature(ls);
    if a == b { AscendingUnique(ks, ls); }
  }
}
