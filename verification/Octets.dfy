/**
  Go strings and byte slices are sequences of octets. This module holds the functions of Go's
  `strings` package on which the codecs rest (Index, Split, Join, TrimSpace), and the laws that
  let a text be taken apart, changed in one place and taken apart again.
  */
module Octets {

  type Byte = x: int | 0 <= x < 256
  type Bytes = seq<Byte>

  const TAB: Byte := 9
  const LF: Byte := 10
  const CR: Byte := 13
  const SPACE: Byte := 32
  const DASH: Byte := 45
  const COLON: Byte := 58
  const DOT: Byte := 46
  const QUOTE: Byte := 34
  const BACKSLASH: Byte := 92

  const U16: nat := 0x1_0000
  const U32: nat := 0x1_0000_0000

  /** The values of a 32-bit unsigned integer. */
  type Word = n: nat | n < 0x1_0000_0000

  datatype Option<+T> = None | Some(value: T)

  /** A value or the error that takes its place. */
  datatype Result<+T, +E> = Ok(value: T) | Err(error: E)

  lemma Assoc<T>(a: seq<T>, b: seq<T>, c: seq<T>)
    ensures (a + b) + c == a + (b + c)
  {
  }

  lemma CancelLeft<T>(a: seq<T>, t: seq<T>, u: seq<T>)
    ensures a + t == a + u <==> t == u
  {
    assert t == (a + t)[|a|..] && u == (a + u)[|a|..];
  }

  // ---------------------------------------------------------------- searching

  /** The octets of `p` stand in `s` at position `i`. */
  predicate At(s: Bytes, p: Bytes, i: int) {
    0 <= i && i + |p| <= |s| && s[i..i + |p|] == p
  }

  /** `p` does not occur in `s`. */
  ghost predicate Free(s: Bytes, p: Bytes) {
    forall i :: !At(s, p, i)
  }

  /** In `s` followed by `p`, the first `p` is the appended one. */
  ghost predicate Clean(s: Bytes, p: Bytes) {
    forall i :: i < |s| ==> !At(s + p, p, i)
  }

  function IndexFrom(s: Bytes, p: Bytes, k: nat): (r: int)
    requires k <= |s|
    ensures r == -1 || (k <= r && At(s, p, r))
    ensures forall i :: k <= i && (r == -1 || i < r) ==> !At(s, p, i)
    decreases |s| - k
  {
    if At(s, p, k) then k
    else if k == |s| then -1
    else IndexFrom(s, p, k + 1)
  }

  /** strings.Index: the first occurrence, or -1. */
  function Index(s: Bytes, p: Bytes): (r: int)
    ensures r == -1 || (0 <= r && At(s, p, r))
    ensures r == -1 <==> Free(s, p)
    ensures forall i :: 0 <= i < r ==> !At(s, p, i)
  {
    IndexFrom(s, p, 0)
  }

  predicate HasPrefix(s: Bytes, p: Bytes) {
    |p| <= |s| && s[..|p|] == p
  }

  predicate HasSuffix(s: Bytes, p: Bytes) {
    |p| <= |s| && s[|s| - |p|..] == p
  }

  lemma IndexIs(s: Bytes, p: Bytes, k: nat)
    requires At(s, p, k)
    requires forall i :: 0 <= i < k ==> !At(s, p, i)
    ensures Index(s, p) == k
  {
  }

  lemma AtLeft(a: Bytes, b: Bytes, p: Bytes, i: int)
    requires i + |p| <= |a|
    ensures At(a + b, p, i) <==> At(a, p, i)
  {
    if 0 <= i {
      assert (a + b)[i..i + |p|] == a[i..i + |p|];
    }
  }

  lemma AtRight(a: Bytes, b: Bytes, p: Bytes, i: int)
    requires |a| <= i
    ensures At(a + b, p, i) <==> At(b, p, i - |a|)
  {
    if i + |p| <= |a| + |b| {
      assert (a + b)[i..i + |p|] == b[i - |a|..i - |a| + |p|];
    }
  }

  lemma SingleAt(t: Bytes, c: Byte, i: int)
    ensures At(t, [c], i) <==> 0 <= i < |t| && t[i] == c
  {
    if 0 <= i < |t| { assert t[i..i + 1] == [t[i]]; }
  }

  /** A text without an octet is clean of it. */
  lemma WithoutOctet(t: Bytes, c: Byte)
    requires c !in t
    ensures Clean(t, [c]) && Free(t, [c])
  {
    forall i | i < |t|
      ensures !At(t + [c], [c], i)
    {
      SingleAt(t + [c], c, i);
    }
    forall i
      ensures !At(t, [c], i)
    {
      SingleAt(t, c, i);
    }
  }

  /** A pattern that occurs across position `k` contains the octet standing there. */
  lemma AtCovers(s: Bytes, p: Bytes, i: int, k: int)
    requires At(s, p, i) && i <= k < i + |p|
    ensures s[k] == p[k - i] && s[k] in p
  {
    assert s[i..i + |p|][k - i] == s[k];
  }

  /** An octet outside the pattern separates occurrences. */
  lemma FreeAround(a: Bytes, c: Byte, b: Bytes, p: Bytes)
    requires c !in p && p != []
    ensures Free(a + [c] + b, p) <==> Free(a, p) && Free(b, p)
  {
    var s := a + [c] + b;
    assert s == a + ([c] + b) == (a + [c]) + b;
    forall i
      ensures At(s, p, i) <==> At(a, p, i) || At(b, p, i - |a| - 1)
    {
      if i + |p| <= |a| {
        AtLeft(a, [c] + b, p, i);
      } else if i > |a| {
        AtRight(a + [c], b, p, i);
      } else if At(s, p, i) {
        AtCovers(s, p, i, |a|);
      }
    }
    if Free(a, p) && Free(b, p) {
    } else if !Free(a, p) {
      var i :| At(a, p, i);
      assert At(s, p, i);
    } else {
      var i :| At(b, p, i);
      assert At(b, p, (i + |a| + 1) - |a| - 1);
      assert At(s, p, i + |a| + 1);
    }
  }

  lemma FreeSub(a: Bytes, b: Bytes, c: Bytes, p: Bytes)
    requires Free(a + b + c, p)
    ensures Free(b, p)
  {
    forall i ensures !At(b, p, i) {
      if At(b, p, i) {
        AtRight(a, b, p, i + |a|);
        AtLeft(a + b, c, p, i + |a|);
      }
    }
  }

  lemma CleanIsFree(s: Bytes, p: Bytes)
    requires Clean(s, p) && p != []
    ensures Free(s, p)
  {
    forall i ensures !At(s, p, i) {
      if At(s, p, i) { AtLeft(s, p, p, i); }
    }
  }

  lemma CleanIndex(s: Bytes, p: Bytes, r: Bytes)
    requires Clean(s, p)
    ensures Index(s + p + r, p) == |s|
  {
    AtRight(s, p, p, |s|);
    AtLeft(s + p, r, p, |s|);
    forall i | 0 <= i < |s| ensures !At(s + p + r, p, i) {
      AtLeft(s + p, r, p, i);
    }
    IndexIs(s + p + r, p, |s|);
  }

  lemma IndexClean(s: Bytes, p: Bytes)
    requires Index(s, p) >= 0
    ensures var i := Index(s, p); Clean(s[..i], p) && s == s[..i] + p + s[i + |p|..]
  {
    var i := Index(s, p);
    assert s == s[..i] + p + s[i + |p|..];
    forall j | j < i ensures !At(s[..i] + p, p, j) {
      AtLeft(s[..i] + p, s[i + |p|..], p, j);
    }
  }

  /** The first pattern is found at one place only, so both halves are determined. */
  lemma CleanUnique(a: Bytes, b: Bytes, p: Bytes, r: Bytes, t: Bytes)
    requires Clean(a, p) && Clean(b, p)
    requires a + p + r == b + p + t
    ensures a == b && r == t
  {
    CleanIndex(a, p, r);
    CleanIndex(b, p, t);
    assert a == (a + p + r)[..|a|];
    assert b == (b + p + t)[..|b|];
    assert r == (a + p + r)[|a| + |p|..];
    assert t == (b + p + t)[|b| + |p|..];
  }

  // ---------------------------------------------------------------- Split and Join

  /** strings.Split with a non-empty separator. */
  function Split(s: Bytes, sep: Bytes): (ps: seq<Bytes>)
    requires sep != []
    ensures |ps| >= 1
    decreases |s|
  {
    var i := Index(s, sep);
    if i < 0 then [s] else [s[..i]] + Split(s[i + |sep|..], sep)
  }

  /** strings.Join. */
  function Join(ps: seq<Bytes>, sep: Bytes): Bytes {
    if |ps| == 0 then []
    else if |ps| == 1 then ps[0]
    else ps[0] + sep + Join(ps[1..], sep)
  }

  lemma {:induction false} JoinAppend(ps: seq<Bytes>, p: Bytes, sep: Bytes)
    requires |ps| >= 1
    ensures Join(ps + [p], sep) == Join(ps, sep) + sep + p
  {
    var qs := ps + [p];
    if |ps| == 1 {
      assert qs[1..] == [p];
    } else {
      assert qs[1..] == ps[1..] + [p];
      JoinAppend(ps[1..], p, sep);
      Assoc(ps[0] + sep, Join(ps[1..], sep) + sep, p);
      Assoc(ps[0] + sep, Join(ps[1..], sep), sep);
    }
  }

  /** The pieces strings.Split can return: each is clean, the last is free of the separator. */
  ghost predicate Pieces(ps: seq<Bytes>, sep: Bytes) {
    |ps| >= 1 &&
    (forall i :: 0 <= i < |ps| - 1 ==> Clean(ps[i], sep)) &&
    Free(ps[|ps| - 1], sep)
  }

  lemma {:induction false} JoinSplit(s: Bytes, sep: Bytes)
    requires sep != []
    ensures Join(Split(s, sep), sep) == s
    ensures Pieces(Split(s, sep), sep)
    decreases |s|
  {
    var i := Index(s, sep);
    if i < 0 {
    } else {
      IndexClean(s, sep);
      var t := s[i + |sep|..];
      JoinSplit(t, sep);
      var ps := Split(s, sep);
      assert ps[1..] == Split(t, sep);
      forall k | 0 <= k < |ps| - 1 ensures Clean(ps[k], sep) {
        if k > 0 { assert ps[k] == ps[1..][k - 1]; }
      }
    }
  }

  lemma PiecesTail(ps: seq<Bytes>, sep: Bytes)
    requires Pieces(ps, sep) && |ps| > 1
    ensures Clean(ps[0], sep) && Pieces(ps[1..], sep)
  {
    var qs := ps[1..];
    forall i | 0 <= i < |qs| - 1 ensures Clean(qs[i], sep) {
      assert qs[i] == ps[i + 1];
    }
  }

  lemma SplitHead(a: Bytes, sep: Bytes, t: Bytes)
    requires sep != [] && Clean(a, sep)
    ensures Split(a + sep + t, sep) == [a] + Split(t, sep)
  {
    var s := a + sep + t;
    CleanIndex(a, sep, t);
    assert s[..|a|] == a;
    assert s[|a| + |sep|..] == t;
  }

  lemma {:induction false} SplitJoin(ps: seq<Bytes>, sep: Bytes)
    requires sep != [] && Pieces(ps, sep)
    ensures Split(Join(ps, sep), sep) == ps
  {
    if |ps| <= 1 {
    } else {
      PiecesTail(ps, sep);
      SplitHead(ps[0], sep, Join(ps[1..], sep));
      SplitJoin(ps[1..], sep);
    }
  }

  lemma SplitStep(s: Bytes, sep: Bytes)
    requires sep != []
    ensures Index(s, sep) < 0 ==> |Split(s, sep)| == 1
    ensures var i := Index(s, sep);
            i >= 0 ==> At(s, sep, i) && |Split(s, sep)| == 1 + |Split(s[i + |sep|..], sep)|
  {
  }

  lemma FirstIndex(s: Bytes, sep: Bytes, j: nat)
    requires At(s, sep, j)
    ensures 0 <= Index(s, sep) <= j
  {
    assert !Free(s, sep);
  }

  lemma DropTwice(s: Bytes, a: nat, b: nat)
    requires a <= b <= |s|
    ensures s[a..][b - a..] == s[b..]
  {
  }

  /** A text has at least as many pieces as what is left of it behind any position. */
  lemma {:induction false} SuffixPieces(s: Bytes, k: nat, sep: Bytes)
    requires sep != [] && k <= |s|
    ensures |Split(s[k..], sep)| <= |Split(s, sep)|
    decreases |s|
  {
    hide Split, Index;
    var t := s[k..];
    SplitStep(s, sep);
    SplitStep(t, sep);
    if Index(t, sep) < 0 {
    } else {
      var j := Index(t, sep);
      assert s == s[..k] + t;
      AtRight(s[..k], t, sep, k + j);
      FirstIndex(s, sep, k + j);
      var i := Index(s, sep);
      var n := |sep|;
      SuffixPieces(s[i + n..], k + j - i, sep);
      DropTwice(s, i + n, k + j + n);
      DropTwice(s, k, k + j + n);
    }
  }

  /** A separator adds a piece, wherever it stands. */
  lemma CutPieces(a: Bytes, sep: Bytes, b: Bytes)
    requires sep != []
    ensures |Split(a + sep + b, sep)| >= 1 + |Split(b, sep)|
  {
    hide Split, Index;
    var s := a + sep + b;
    assert At(s, sep, |a|);
    FirstIndex(s, sep, |a|);
    SplitStep(s, sep);
    var i := Index(s, sep);
    SuffixPieces(s[i + |sep|..], |a| - i, sep);
    DropTwice(s, i + |sep|, |a| + |sep|);
    assert s[|a| + |sep|..] == b;
  }

  /** What is joined is cut into at least as many pieces. */
  lemma {:induction false} JoinPieces(ps: seq<Bytes>, sep: Bytes)
    requires |ps| >= 1 && sep != []
    ensures |Split(Join(ps, sep), sep)| >= |ps|
  {
    if |ps| == 1 {
    } else {
      JoinPieces(ps[1..], sep);
      CutPieces(ps[0], sep, Join(ps[1..], sep));
    }
  }

  /** No octet of the separator is an octet of the pattern. */
  ghost predicate Apart(sep: Bytes, p: Bytes) {
    sep != [] && p != [] && forall i :: 0 <= i < |sep| ==> sep[i] !in p
  }

  lemma {:induction false} FreeApart(a: Bytes, sep: Bytes, b: Bytes, p: Bytes)
    requires Apart(sep, p)
    ensures Free(a + sep + b, p) <==> Free(a, p) && Free(b, p)
    decreases |sep|
  {
    if |sep| == 1 {
      assert a + sep + b == a + [sep[0]] + b;
      FreeAround(a, sep[0], b, p);
    } else {
      assert a + sep + b == a + [sep[0]] + (sep[1..] + b);
      FreeAround(a, sep[0], sep[1..] + b, p);
      FreeApart([], sep[1..], b, p);
      assert [] + sep[1..] + b == sep[1..] + b;
      assert Free([], p);
    }
  }

  /** A text joined by foreign octets holds the pattern exactly when one of its pieces does. */
  lemma {:induction false} FreeJoin(ps: seq<Bytes>, sep: Bytes, p: Bytes)
    requires |ps| >= 1 && Apart(sep, p)
    ensures Free(Join(ps, sep), p) <==> forall i :: 0 <= i < |ps| ==> Free(ps[i], p)
  {
    if |ps| <= 1 {
    } else {
      FreeApart(ps[0], sep, Join(ps[1..], sep), p);
      FreeJoin(ps[1..], sep, p);
      assert (forall i :: 0 <= i < |ps| ==> Free(ps[i], p)) <==>
             Free(ps[0], p) && (forall i :: 0 <= i < |ps[1..]| ==> Free(ps[1..][i], p)) by {
        assert forall i :: 0 <= i < |ps[1..]| ==> ps[1..][i] == ps[i + 1];
        assert forall i :: 1 <= i < |ps| ==> ps[i] == ps[1..][i - 1];
      }
    }
  }
}
