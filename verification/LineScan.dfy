/**
  The tokeniser of InfluxDB line protocol (src/lineprotoreceiver/parser.go): a backslash takes the
  next octet with it, a double quote opens and closes a string. The loops are methods, tied to scans
  by recursion.
  */
module LineScan {
  import opened Octets

  const COMMA: Byte := 44
  const EQUALS: Byte := 61

  predicate Separator(c: Byte) {
    c == COMMA || c == EQUALS || c == SPACE
  }

  // ---------------------------------------------------------------- scans

  function Shift(k: nat, r: Option<nat>): Option<nat> {
    if r.Some? then Some(k + r.value) else None
  }

  /** The first separator outside escapes and, when `quotes` count, outside strings. */
  function FirstTop(s: Bytes, sep: Byte, quotes: bool, open: bool): (r: Option<nat>)
    ensures r.Some? ==> r.value < |s| && s[r.value] == sep
    decreases |s|
  {
    if s == [] then None
    else if s[0] == BACKSLASH then if |s| == 1 then None else Shift(2, FirstTop(s[2..], sep, quotes, open))
    else if s[0] == QUOTE && quotes then Shift(1, FirstTop(s[1..], sep, quotes, !open))
    else if s[0] == sep && !open then Some(0)
    else Shift(1, FirstTop(s[1..], sep, quotes, open))
  }

  /** Whether a string is open at the end. */
  predicate EndsOpen(s: Bytes, quotes: bool, open: bool)
    decreases |s|
  {
    if s == [] then open
    else if s[0] == BACKSLASH then if |s| == 1 then open else EndsOpen(s[2..], quotes, open)
    else EndsOpen(s[1..], quotes, if s[0] == QUOTE && quotes then !open else open)
  }

  /** No escape is cut off at the end. */
  predicate Whole(s: Bytes)
    decreases |s|
  {
    s == [] || (if s[0] == BACKSLASH then |s| >= 2 && Whole(s[2..]) else Whole(s[1..]))
  }

  function Prepend(a: Bytes, ps: seq<Bytes>): (qs: seq<Bytes>)
    requires |ps| >= 1
    ensures |qs| == |ps|
  {
    [a + ps[0]] + ps[1..]
  }

  /** The pieces between the separators that FirstTop sees. */
  function SplitTop(s: Bytes, sep: Byte, quotes: bool, open: bool): (ps: seq<Bytes>)
    ensures |ps| >= 1
    decreases |s|
  {
    if s == [] then [[]]
    else if s[0] == BACKSLASH then
      if |s| == 1 then [s] else Prepend(s[..2], SplitTop(s[2..], sep, quotes, open))
    else if s[0] == QUOTE && quotes then Prepend([s[0]], SplitTop(s[1..], sep, quotes, !open))
    else if s[0] == sep && !open then [[]] + SplitTop(s[1..], sep, quotes, false)
    else Prepend([s[0]], SplitTop(s[1..], sep, quotes, open))
  }

  // ---------------------------------------------------------------- the loops

  /** What is left of `s` from position `i`, which an escape may have carried past the end. */
  function From(s: Bytes, i: nat): Bytes {
    if i <= |s| then s[i..] else []
  }

  /** One step of the loops: the octets taken at position `i` and the quote flag after them. */
  function Taken(s: Bytes, i: nat): (n: nat)
    requires i < |s|
  {
    if s[i] == BACKSLASH then 2 else 1
  }

  lemma ScanStep(s: Bytes, i: nat, sep: Byte, quotes: bool, open: bool)
    requires i < |s|
    ensures var flip := if s[i] == QUOTE && quotes then !open else open;
            && EndsOpen(s[i..], quotes, open) == EndsOpen(From(s, i + Taken(s, i)), quotes, flip)
            && FirstTop(s[i..], sep, quotes, open) ==
               if s[i] == sep && !open && s[i] != BACKSLASH && !(s[i] == QUOTE && quotes) then Some(0)
               else Shift(Taken(s, i), FirstTop(From(s, i + Taken(s, i)), sep, quotes, flip))
  {
    var t := s[i..];
    if t[0] == BACKSLASH {
      if |t| > 1 { assert t[2..] == s[i + 2..]; }
    } else {
      assert t[1..] == s[i + 1..];
    }
  }

  lemma ScanEnd(sep: Byte, quotes: bool, open: bool)
    ensures FirstTop([], sep, quotes, open) == None && EndsOpen([], quotes, open) == open
  {
  }

  /** The error of an unterminated string, and the two halves otherwise. */
  datatype Cut = Halves(before: Bytes, after: Bytes) | Unterminated

  /** What splitAtUnescapedSpace promises. */
  function CutAtSpace(s: Bytes): Cut {
    match FirstTop(s, SPACE, true, false)
    case Some(i) => Halves(s[..i], s[i + 1..])
    case None => if EndsOpen(s, true, false) then Unterminated else Halves(s, [])
  }

  lemma ShiftNone(r: Option<nat>)
    ensures Shift(0, r) == r
    ensures forall k: nat, q: Option<nat> {:trigger Shift(k, q)} :: Shift(k, q) == None <==> q == None
  {
  }

  lemma ShiftTwice(a: nat, b: nat, r: Option<nat>)
    ensures Shift(a, Shift(b, r)) == Shift(a + b, r)
  {
  }

  lemma Step(s: Bytes, i: nat, sep: Byte, quotes: bool, open: bool)
    requires i < |s|
    ensures var flip := if s[i] == QUOTE && quotes then !open else open;
            var k := Taken(s, i);
            && Shift(i, Some(0)) == Some(i)
            && Shift(i, None) == None
            && Shift(i, Shift(k, FirstTop(From(s, i + k), sep, quotes, flip))) ==
               Shift(i + k, FirstTop(From(s, i + k), sep, quotes, flip))
  {
  }

  /** splitAtUnescapedSpace. */
  method SplitAtUnescapedSpace(s: Bytes) returns (r: Cut)
    ensures r == CutAtSpace(s)
  {
    hide FirstTop, EndsOpen, Shift, From, Taken;
    var inQuote, i := false, 0;
    ShiftNone(FirstTop(s, SPACE, true, false));
    FromIs(s);
    while i < |s|
      invariant i <= |s| + 1
      invariant FirstTop(s, SPACE, true, false) == Shift(i, FirstTop(From(s, i), SPACE, true, inQuote))
      invariant EndsOpen(s, true, false) == EndsOpen(From(s, i), true, inQuote)
      decreases |s| + 1 - i
    {
      FromInside(s, i);
      ScanStep(s, i, SPACE, true, inQuote);
      Step(s, i, SPACE, true, inQuote);
      if s[i] == BACKSLASH {
        i := i + 1;
      } else if s[i] == QUOTE {
        inQuote := !inQuote;
      } else if s[i] == SPACE && !inQuote {
        return Halves(s[..i], s[i + 1..]);
      }
      i := i + 1;
    }
    ScanEnd(SPACE, true, inQuote);
    r := if inQuote then Unterminated else Halves(s, []);
  }

  /** The search of splitTagKV (no quotes) and splitFieldKV (with quotes) for the first '='. */
  method FindEquals(s: Bytes, quotes: bool) returns (r: Option<nat>)
    ensures r == FirstTop(s, EQUALS, quotes, false)
  {
    hide FirstTop, EndsOpen, Shift, From, Taken;
    var inQuote, i := false, 0;
    ShiftNone(FirstTop(s, EQUALS, quotes, false));
    FromIs(s);
    while i < |s|
      invariant i <= |s| + 1
      invariant FirstTop(s, EQUALS, quotes, false) == Shift(i, FirstTop(From(s, i), EQUALS, quotes, inQuote))
      decreases |s| + 1 - i
    {
      FromInside(s, i);
      ScanStep(s, i, EQUALS, quotes, inQuote);
      Step(s, i, EQUALS, quotes, inQuote);
      if s[i] == BACKSLASH {
        i := i + 1;
      } else if s[i] == QUOTE && quotes {
        inQuote := !inQuote;
      } else if s[i] == EQUALS && !inQuote {
        return Some(i);
      }
      i := i + 1;
    }
    ScanEnd(EQUALS, quotes, inQuote);
    r := None;
  }

  lemma SplitStep(s: Bytes, i: nat, sep: Byte, quotes: bool, open: bool)
    requires i < |s|
    ensures var t := s[i..];
            var next := From(s, i + Taken(s, i));
            if s[i] == BACKSLASH then
              SplitTop(t, sep, quotes, open) ==
              Prepend(if i + 1 < |s| then [s[i], s[i + 1]] else [s[i]], SplitTop(next, sep, quotes, open))
            else if s[i] == QUOTE && quotes then
              SplitTop(t, sep, quotes, open) == Prepend([s[i]], SplitTop(next, sep, quotes, !open))
            else if s[i] == sep && !open then
              SplitTop(t, sep, quotes, open) == [[]] + SplitTop(next, sep, quotes, false)
            else SplitTop(t, sep, quotes, open) == Prepend([s[i]], SplitTop(next, sep, quotes, open))
  {
    var t := s[i..];
    if t[0] == BACKSLASH {
      if |t| > 1 {
        assert t[2..] == s[i + 2..] && t[..2] == [s[i], s[i + 1]];
      } else {
        assert t == [s[i]] && From(s, i + 2) == [];
        assert [s[i]] + [] == [s[i]];
      }
    } else {
      assert t[1..] == s[i + 1..];
    }
  }

  /** The pieces finished, the piece begun, and the pieces of what is left. */
  function Built(out: seq<Bytes>, cur: Bytes, ps: seq<Bytes>): seq<Bytes>
    requires |ps| >= 1
  {
    out + Prepend(cur, ps)
  }

  lemma PrependMore(out: seq<Bytes>, cur: Bytes, a: Bytes, ps: seq<Bytes>)
    requires |ps| >= 1
    ensures Built(out, cur, Prepend(a, ps)) == Built(out, cur + a, ps)
  {
    Assoc(cur, a, ps[0]);
  }

  lemma PrependCut(out: seq<Bytes>, cur: Bytes, ps: seq<Bytes>)
    requires |ps| >= 1
    ensures Built(out, cur, [[]] + ps) == Built(out + [cur], [], ps)
  {
    assert ([[]] + ps)[1..] == ps;
    assert cur + ([[]] + ps)[0] == cur;
    assert Prepend(cur, [[]] + ps) == [cur] + ps;
    PrependNone(ps);
    Assoc(out, [cur], ps);
  }

  lemma PrependNone(ps: seq<Bytes>)
    requires |ps| >= 1
    ensures Prepend([], ps) == ps
  {
    assert [] + ps[0] == ps[0];
    assert [ps[0]] + ps[1..] == ps;
  }

  lemma FromInside(s: Bytes, i: nat)
    requires i <= |s|
    ensures From(s, i) == s[i..]
  {
  }

  lemma BuiltNone(ps: seq<Bytes>)
    requires |ps| >= 1
    ensures Built([], [], ps) == ps
  {
    PrependNone(ps);
  }

  lemma FromIs(s: Bytes)
    ensures From(s, 0) == s && forall i: nat {:trigger From(s, i)} :: i >= |s| ==> From(s, i) == []
    ensures forall i: nat {:trigger Taken(s, i)} :: i < |s| ==> Taken(s, i) == if s[i] == BACKSLASH then 2 else 1
    ensures BACKSLASH != QUOTE
  {
  }

  lemma SplitEnd(out: seq<Bytes>, cur: Bytes, sep: Byte, quotes: bool, open: bool)
    ensures Built(out, cur, SplitTop([], sep, quotes, open)) == out + [cur]
  {
    assert cur + [] == cur;
  }

  /** splitUnescaped (no quotes) and splitFieldSet (with quotes); None is an unterminated string. */
  method SplitPieces(s: Bytes, sep: Byte, quotes: bool) returns (r: Option<seq<Bytes>>)
    requires sep != BACKSLASH && sep != QUOTE
    ensures r == if EndsOpen(s, quotes, false) then None else Some(SplitTop(s, sep, quotes, false))
  {
    hide *;
    var out: seq<Bytes>, cur: Bytes := [], [];
    var inQuote, i := false, 0;
    FromIs(s);
    BuiltNone(SplitTop(s, sep, quotes, false));
    while i < |s|
      invariant i <= |s| + 1
      invariant SplitTop(s, sep, quotes, false) == Built(out, cur, SplitTop(From(s, i), sep, quotes, inQuote))
      invariant EndsOpen(s, quotes, false) == EndsOpen(From(s, i), quotes, inQuote)
      decreases |s| + 1 - i
    {
      var c := s[i];
      ScanStep(s, i, sep, quotes, inQuote);
      SplitStep(s, i, sep, quotes, inQuote);
      assert From(s, i) == s[i..] by { FromInside(s, i); }
      ghost var next := From(s, i + Taken(s, i));
      if c == BACKSLASH {
        var two := if i + 1 < |s| then [c, s[i + 1]] else [c];
        PrependMore(out, cur, two, SplitTop(next, sep, quotes, inQuote));
        cur := cur + two;
        i := i + 1;
      } else if c == QUOTE && quotes {
        PrependMore(out, cur, [c], SplitTop(next, sep, quotes, !inQuote));
        inQuote := !inQuote;
        cur := cur + [c];
      } else if c == sep && !inQuote {
        PrependCut(out, cur, SplitTop(next, sep, quotes, false));
        out, cur := out + [cur], [];
      } else {
        PrependMore(out, cur, [c], SplitTop(next, sep, quotes, inQuote));
        cur := cur + [c];
      }
      i := i + 1;
    }
    ScanEnd(sep, quotes, inQuote);
    SplitEnd(out, cur, sep, quotes, inQuote);
    r := if inQuote then None else Some(out + [cur]);
  }

  // ---------------------------------------------------------------- the splitters lose nothing

  lemma JoinPrepend(a: Bytes, ps: seq<Bytes>, sep: Bytes)
    requires |ps| >= 1
    ensures Join(Prepend(a, ps), sep) == a + Join(ps, sep)
  {
    if |ps| > 1 {
      assert Prepend(a, ps)[1..] == ps[1..];
      Assoc(a, ps[0], sep);
      Assoc(a, ps[0] + sep, Join(ps[1..], sep));
    }
  }

  /** Joining the pieces restores the text. */
  lemma {:induction false} JoinSplitTop(s: Bytes, sep: Byte, quotes: bool, open: bool)
    ensures Join(SplitTop(s, sep, quotes, open), [sep]) == s
    decreases |s|
  {
    hide Join, Prepend;
    if s == [] || (|s| == 1 && s[0] == BACKSLASH) {
      JoinOne(s, [sep]);
    } else if s[0] == BACKSLASH {
      JoinSplitTop(s[2..], sep, quotes, open);
      JoinPrepend(s[..2], SplitTop(s[2..], sep, quotes, open), [sep]);
      assert s[..2] + s[2..] == s;
    } else if s[0] == QUOTE && quotes {
      JoinSplitTop(s[1..], sep, quotes, !open);
      JoinPrepend([s[0]], SplitTop(s[1..], sep, quotes, !open), [sep]);
      assert [s[0]] + s[1..] == s;
    } else if s[0] == sep && !open {
      JoinSplitTop(s[1..], sep, quotes, false);
      JoinEmpty(SplitTop(s[1..], sep, quotes, false), [sep]);
      assert [sep] + s[1..] == s;
    } else {
      JoinSplitTop(s[1..], sep, quotes, open);
      JoinPrepend([s[0]], SplitTop(s[1..], sep, quotes, open), [sep]);
      assert [s[0]] + s[1..] == s;
    }
  }

  /** No piece holds a separator that the scan would see. */
  lemma {:induction false} PiecesHoldNone(s: Bytes, sep: Byte, quotes: bool, open: bool)
    ensures var ps := SplitTop(s, sep, quotes, open);
            && FirstTop(ps[0], sep, quotes, open).None?
            && forall i :: 1 <= i < |ps| ==> FirstTop(ps[i], sep, quotes, false).None?
    decreases |s|
  {
    hide FirstTop;
    ScanEnd(sep, quotes, open);
    if s == [] {
    } else if s[0] == BACKSLASH && |s| == 1 {
      ScanStep(s, 0, sep, quotes, open);
      assert s[0..] == s;
    } else if s[0] == sep && !open && s[0] != BACKSLASH && !(s[0] == QUOTE && quotes) {
      PiecesHoldNone(s[1..], sep, quotes, false);
    } else {
      var k := Taken(s, 0);
      var flip := if s[0] == QUOTE && quotes then !open else open;
      PiecesHoldNone(s[k..], sep, quotes, flip);
      FrontHoldsNone(s[..k], SplitTop(s[k..], sep, quotes, flip)[0], sep, quotes, open);
      if k == 1 { assert s[..k] == [s[0]]; }
    }
  }

  /** One octet, or one escape, in front of such a piece. */
  lemma FrontHoldsNone(a: Bytes, p: Bytes, sep: Byte, quotes: bool, open: bool)
    requires a != [] && |a| == Taken(a, 0)
    requires !(a[0] == sep && !open && a[0] != BACKSLASH && !(a[0] == QUOTE && quotes))
    requires FirstTop(p, sep, quotes, if a[0] == QUOTE && quotes then !open else open).None?
    ensures FirstTop(a + p, sep, quotes, open).None?
  {
    hide FirstTop;
    ScanStep(a + p, 0, sep, quotes, open);
    assert (a + p)[0..] == a + p && From(a + p, |a|) == p;
  }

  lemma JoinOne(s: Bytes, sep: Bytes)
    ensures Join([s], sep) == s
  {
  }

  lemma JoinEmpty(ps: seq<Bytes>, sep: Bytes)
    requires |ps| >= 1
    ensures Join([[]] + ps, sep) == sep + Join(ps, sep)
  {
    assert ([[]] + ps)[1..] == ps;
    assert [] + sep == sep;
  }

  // ---------------------------------------------------------------- tokens

  /** A text that the scans pass over: no separator, no open string, no cut escape. */
  ghost predicate Inert(t: Bytes, sep: Byte, quotes: bool) {
    Passes(t, sep, quotes, false) && !EndsOpen(t, quotes, false)
  }

  ghost predicate Passes(t: Bytes, sep: Byte, quotes: bool, open: bool) {
    Whole(t) && FirstTop(t, sep, quotes, open).None?
  }

  ghost predicate AllInert(ps: seq<Bytes>, sep: Byte, quotes: bool) {
    forall i :: 0 <= i < |ps| ==> Inert(ps[i], sep, quotes)
  }

  /** Behind such a text the scans go on as if they began there. */
  lemma {:induction false} PassOver(t: Bytes, u: Bytes, sep: Byte, quotes: bool, open: bool)
    requires Passes(t, sep, quotes, open)
    ensures FirstTop(t + u, sep, quotes, open) == Shift(|t|, FirstTop(u, sep, quotes, EndsOpen(t, quotes, open)))
    decreases |t|
  {
    hide FirstTop, EndsOpen, Whole, Shift;
    ShiftNone(FirstTop(u, sep, quotes, open));
    if t == [] {
      assert t + u == u;
      ScanEnd(sep, quotes, open);
    } else {
      var k := Taken(t, 0);
      var flip := if t[0] == QUOTE && quotes then !open else open;
      ScanStep(t, 0, sep, quotes, open);
      ScanStep(t + u, 0, sep, quotes, open);
      assert t[0..] == t && (t + u)[0..] == t + u;
      WholeStep(t);
      assert From(t + u, k) == From(t, k) + u;
      PassOver(From(t, k), u, sep, quotes, flip);
      ShiftTwice(k, |t| - k, FirstTop(u, sep, quotes, EndsOpen(t, quotes, open)));
    }
  }

  lemma WholeStep(t: Bytes)
    requires t != [] && Whole(t)
    ensures Taken(t, 0) <= |t| && Whole(From(t, Taken(t, 0)))
  {
  }

  lemma {:induction false} OpenOver(t: Bytes, u: Bytes, quotes: bool, open: bool)
    requires Whole(t)
    ensures EndsOpen(t + u, quotes, open) == EndsOpen(u, quotes, EndsOpen(t, quotes, open))
    ensures Whole(t + u) <==> Whole(u)
    decreases |t|
  {
    if t == [] {
      assert t + u == u;
    } else if t[0] == BACKSLASH {
      assert (t + u)[2..] == t[2..] + u;
      OpenOver(t[2..], u, quotes, open);
    } else {
      assert (t + u)[1..] == t[1..] + u;
      OpenOver(t[1..], u, quotes, if t[0] == QUOTE && quotes then !open else open);
    }
  }

  lemma {:induction false} SplitOver(t: Bytes, u: Bytes, sep: Byte, quotes: bool, open: bool)
    requires Passes(t, sep, quotes, open)
    ensures SplitTop(t + u, sep, quotes, open) == Prepend(t, SplitTop(u, sep, quotes, EndsOpen(t, quotes, open)))
    decreases |t|
  {
    hide SplitTop, Prepend;
    if t == [] {
      assert t + u == u;
      PrependNone(SplitTop(u, sep, quotes, open));
    } else {
      var k := Taken(t, 0);
      var flip := if t[0] == QUOTE && quotes then !open else open;
      WholeStep(t);
      PassStep(t, sep, quotes, open);
      SplitStep(t + u, 0, sep, quotes, open);
      assert (t + u)[0..] == t + u;
      assert From(t + u, k) == From(t, k) + u;
      SplitOver(From(t, k), u, sep, quotes, flip);
      PrependTwice(t[..k], From(t, k), SplitTop(u, sep, quotes, EndsOpen(t, quotes, open)));
      assert t[..k] == if t[0] == BACKSLASH then [t[0], t[1]] else [t[0]];
      assert t[..k] + From(t, k) == t;
    }
  }

  lemma PassStep(t: Bytes, sep: Byte, quotes: bool, open: bool)
    requires t != [] && Passes(t, sep, quotes, open)
    ensures var flip := if t[0] == QUOTE && quotes then !open else open;
            && Passes(From(t, Taken(t, 0)), sep, quotes, flip)
            && EndsOpen(t, quotes, open) == EndsOpen(From(t, Taken(t, 0)), quotes, flip)
            && (t[0] != BACKSLASH && !(t[0] == QUOTE && quotes) ==> t[0] != sep || open)
  {
  }

  lemma PrependTwice(a: Bytes, b: Bytes, ps: seq<Bytes>)
    requires |ps| >= 1
    ensures Prepend(a, Prepend(b, ps)) == Prepend(a + b, ps)
  {
    Assoc(a, b, ps[0]);
  }

  lemma InertConcat(a: Bytes, b: Bytes, sep: Byte, quotes: bool)
    requires Inert(a, sep, quotes) && Inert(b, sep, quotes)
    ensures Inert(a + b, sep, quotes)
  {
    hide FirstTop, EndsOpen;
    PassOver(a, b, sep, quotes, false);
    OpenOver(a, b, quotes, false);
  }

  /** An octet that means nothing to the scan. */
  predicate Ordinary(c: Byte, sep: Byte, quotes: bool) {
    c != BACKSLASH && c != sep && !(c == QUOTE && quotes)
  }

  lemma {:induction false} OrdinaryIsInert(t: Bytes, sep: Byte, quotes: bool)
    requires forall i :: 0 <= i < |t| ==> Ordinary(t[i], sep, quotes)
    ensures Inert(t, sep, quotes)
  {
    if t == [] {
    } else {
      OrdinaryIsInert(t[1..], sep, quotes);
    }
  }

  lemma {:induction false} InertJoin(ps: seq<Bytes>, glue: Byte, sep: Byte, quotes: bool)
    requires AllInert(ps, sep, quotes)
    requires Ordinary(glue, sep, quotes)
    ensures Inert(Join(ps, [glue]), sep, quotes)
  {
    if |ps| == 1 {
      assert ps[0] == Join(ps, [glue]);
    } else if |ps| > 1 {
      InertJoin(ps[1..], glue, sep, quotes);
      OrdinaryIsInert([glue], sep, quotes);
      InertConcat(ps[0], [glue], sep, quotes);
      InertConcat(ps[0] + [glue], Join(ps[1..], [glue]), sep, quotes);
    }
  }

  /** The first separator behind an inert text is the one found. */
  lemma FoundBehind(t: Bytes, sep: Byte, u: Bytes, quotes: bool)
    requires Inert(t, sep, quotes) && sep != BACKSLASH && sep != QUOTE
    ensures FirstTop(t + [sep] + u, sep, quotes, false) == Some(|t|)
    ensures (t + [sep] + u)[..|t|] == t && (t + [sep] + u)[|t| + 1..] == u
  {
    Assoc(t, [sep], u);
    PassOver(t, [sep] + u, sep, quotes, false);
  }

  /** Pieces that are inert come back from their join. */
  lemma {:induction false} SplitJoinTop(ps: seq<Bytes>, sep: Byte, quotes: bool)
    requires |ps| >= 1 && sep != BACKSLASH && sep != QUOTE
    requires AllInert(ps, sep, quotes)
    ensures SplitTop(Join(ps, [sep]), sep, quotes, false) == ps
    ensures !EndsOpen(Join(ps, [sep]), quotes, false)
  {
    if |ps| == 1 {
      SplitLast(ps[0], sep, quotes);
    } else {
      var rest := Join(ps[1..], [sep]);
      SplitJoinTop(ps[1..], sep, quotes);
      SplitFirst(ps[0], rest, sep, quotes);
      Assoc(ps[0], [sep], rest);
      assert [ps[0]] + ps[1..] == ps;
    }
  }

  lemma SplitLast(t: Bytes, sep: Byte, quotes: bool)
    requires Inert(t, sep, quotes)
    ensures SplitTop(t, sep, quotes, false) == [t]
  {
    assert t + [] == t;
    SplitOver(t, [], sep, quotes, false);
  }

  lemma SplitFirst(t: Bytes, u: Bytes, sep: Byte, quotes: bool)
    requires Inert(t, sep, quotes) && sep != BACKSLASH && sep != QUOTE
    ensures SplitTop(t + ([sep] + u), sep, quotes, false) == [t] + SplitTop(u, sep, quotes, false)
    ensures EndsOpen(t + ([sep] + u), quotes, false) == EndsOpen(u, quotes, false)
  {
    SplitOver(t, [sep] + u, sep, quotes, false);
    OpenOver(t, [sep] + u, quotes, false);
    assert ([sep] + u)[1..] == u;
    assert t + [] == t;
  }
}
