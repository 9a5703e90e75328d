/**
  Quotes in the names of a point (src/lineprotoreceiver/parser.go): the tokeniser takes each of them for the start or
  the end of a string. Exactly when a point comes back all the same.
  */
module LineQuotes {
  import opened Octets
  import opened Text
  import opened LineScan
  import opened LineProtocol
  import opened LineRoundTrip

  /** A quote right behind a backslash. */
  predicate HidesQuote(s: Bytes) {
    |s| >= 2 && ((s[0] == BACKSLASH && s[1] == QUOTE) || HidesQuote(s[1..]))
  }

  // ---------------------------------------------------------------- the keys a field set can have

  /** The text in front of an equals sign outside strings ends outside strings. */
  lemma {:induction false} FrontCloses(s: Bytes, open: bool)
    requires FirstTop(s, EQUALS, true, open).Some?
    ensures !EndsOpen(s[..FirstTop(s, EQUALS, true, open).value], true, open)
    decreases |s|
  {
    var i := FirstTop(s, EQUALS, true, open).value;
    var k := s[..i];
    if s[0] == EQUALS && !open {
    } else if s[0] == BACKSLASH {
      FrontCloses(s[2..], open);
      assert k[2..] == s[2..][..i - 2];
    } else {
      FrontCloses(s[1..], if s[0] == QUOTE then !open else open);
      assert k[1..] == s[1..][..i - 1];
    }
  }

  /** Unless it hides a quote behind a backslash, a key has its quotes as the scan saw them. */
  lemma {:induction false} KeyQuotes(k: Bytes, open: bool)
    requires !HidesQuote(Unescape(k, false))
    ensures EndsOpen(k, true, open) == (open != OddQuotes(Unescape(k, false)))
    decreases |k|
  {
    if k == [] {
    } else if k[0] == BACKSLASH && |k| >= 2 {
      var rest := Unescape(k[2..], false);
      if Escapable(k[1], false) {
        UnescapeCons(k[1], rest);
      } else {
        assert k[1..][1..] == k[2..];
        UnescapeCons(k[1], rest);
        UnescapeCons(BACKSLASH, [k[1]] + rest);
      }
      KeyQuotes(k[2..], open);
    } else {
      UnescapeCons(k[0], Unescape(k[1..], false));
      KeyQuotes(k[1..], if k[0] == QUOTE then !open else open);
    }
  }

  lemma UnescapeCons(c: Byte, rest: Bytes)
    ensures OddQuotes([c] + rest) == ((c == QUOTE) != OddQuotes(rest))
    ensures HidesQuote([c] + rest) <==> (c == BACKSLASH && rest != [] && rest[0] == QUOTE) || HidesQuote(rest)
  {
    assert ([c] + rest)[1..] == rest;
  }

  /** A key that the parser can have found. */
  predicate Findable(k: Bytes) {
    HidesQuote(k) || !OddQuotes(k)
  }

  lemma FoundKey(raw: Bytes, floats: Bytes -> bool)
    requires ParseField(raw, floats).Ok?
    ensures Findable(ParseField(raw, floats).value.0)
  {
    hide FirstTop, Unescape, ParseValue;
    var i := FirstTop(raw, EQUALS, true, false).value;
    FrontCloses(raw, false);
    if !HidesQuote(Unescape(raw[..i], false)) { KeyQuotes(raw[..i], false); }
  }

  lemma {:induction false} FoundKeys(parts: seq<Bytes>, m: map<Bytes, Value>, floats: Bytes -> bool)
    requires FieldsFrom(parts, m, floats).Ok? && forall k :: k in m ==> Findable(k)
    ensures forall k :: k in FieldsFrom(parts, m, floats).value ==> Findable(k)
    decreases |parts|
  {
    hide ParseField, Findable;
    if parts == [] {
    } else if parts[0] == [] {
      FoundKeys(parts[1..], m, floats);
    } else {
      var field := ParseField(parts[0], floats).value;
      FoundKey(parts[0], floats);
      FoundKeys(parts[1..], m[field.0 := field.1], floats);
    }
  }

  lemma LineKeys(line: Bytes, floats: Bytes -> bool)
    requires ParseLine(line, floats).Ok?
    ensures forall k :: k in ParseLine(line, floats).value.fields ==> Findable(k)
  {
    hide CutAtSpace, ParseKey, ParseTimestamp, Findable, SplitTop, EndsOpen, FieldsFrom;
    var fieldPart := CutAtSpace(CutAtSpace(line).after).before;
    FoundKeys(SplitTop(fieldPart, COMMA, true, false), map[], floats);
  }

  lemma {:induction false} CollectHas<V>(pairs: seq<(Bytes, V)>, m: map<Bytes, V>, i: nat)
    requires i < |pairs|
    ensures pairs[i].0 in Collect(pairs, m)
    decreases |pairs|
  {
    var n := m[pairs[0].0 := pairs[0].1];
    if i == 0 {
      CollectKeeps(pairs[1..], pairs[0].0, n);
    } else {
      CollectHas(pairs[1..], n, i - 1);
    }
  }

  /** A point with such a field name never comes back, whatever else it holds. */
  lemma OddNameFails(p: Record, floats: Bytes -> bool, i: nat)
    requires i < |p.fields| && OddQuotes(p.fields[i].0) && !HidesQuote(p.fields[i].0)
    ensures ParseLine(RecordText(p), floats) != Ok(PointOf(p))
  {
    hide ParseLine, RecordText, OddQuotes, HidesQuote, Collect;
    if ParseLine(RecordText(p), floats) == Ok(PointOf(p)) {
      LineKeys(RecordText(p), floats);
      CollectHas(p.fields, map[], i);
    }
  }

  /**
    A point comes back if and only if the quotes come in pairs, in measurement and tags together and in each field name.
    A field name with an odd number of quotes must not hide one of them behind a backslash.
    */
  lemma LineReadsIff(p: Record, floats: Bytes -> bool)
    requires WellFormed(p, floats)
    requires forall i :: 0 <= i < |p.fields| && OddQuotes(p.fields[i].0) ==> !HidesQuote(p.fields[i].0)
    ensures ParseLine(RecordText(p), floats) == Ok(PointOf(p)) <==>
            !OddKey(p) && forall i :: 0 <= i < |p.fields| ==> !OddQuotes(p.fields[i].0)
  {
    hide ParseLine, RecordText, OddQuotes, HidesQuote, OddKey, WellFormed, PointOf;
    if i :| 0 <= i < |p.fields| && OddQuotes(p.fields[i].0) {
      OddNameFails(p, floats, i);
    } else {
      LineReads(p, floats);
    }
  }

  // ---------------------------------------------------------------- two odd names

  /** "true" */
  const TRUE: Bytes := [116, 114, 117, 101]
  /** "m" */
  const M: Bytes := [109]

  /** A raw field of the value true. */
  function Raw(key: Bytes): Bytes {
    key + [EQUALS] + TRUE
  }

  function Raws(keys: seq<Bytes>): (rs: seq<Bytes>)
    ensures |rs| == |keys| && forall i :: 0 <= i < |rs| ==> rs[i] == Raw(keys[i])
  {
    seq(|keys|, i requires 0 <= i < |keys| => Raw(keys[i]))
  }

  /** A key as it stands in a line, passed over by every scan. */
  ghost predicate RawKey(k: Bytes) {
    Unescape(k, false) != [] && Inert(k, EQUALS, true) && Inert(k, COMMA, true) && Inert(k, SPACE, true)
  }

  /** The fields that such keys make. */
  function AllTrue(keys: seq<Bytes>, m: map<Bytes, Value>): map<Bytes, Value>
    decreases |keys|
  {
    if keys == [] then m else AllTrue(keys[1..], m[Unescape(keys[0], false) := Bool(true)])
  }

  lemma RawReads(k: Bytes, floats: Bytes -> bool)
    requires RawKey(k)
    ensures ParseField(Raw(k), floats) == Ok((Unescape(k, false), Bool(true)))
    ensures Raw(k) != [] && Inert(Raw(k), COMMA, true) && Inert(Raw(k), SPACE, true)
  {
    hide Inert, Unescape;
    FoundBehind(k, EQUALS, TRUE, true);
    ValueReads(Bool(true), floats);
    EqualsInert(COMMA, true);
    EqualsInert(SPACE, true);
    ValueInert(Bool(true), floats, COMMA);
    ValueInert(Bool(true), floats, SPACE);
    InertConcat(k, [EQUALS], COMMA, true);
    InertConcat(k, [EQUALS], SPACE, true);
    InertConcat(k + [EQUALS], TRUE, COMMA, true);
    InertConcat(k + [EQUALS], TRUE, SPACE, true);
  }

  lemma {:induction false} RawsRead(keys: seq<Bytes>, m: map<Bytes, Value>, floats: Bytes -> bool)
    requires forall i :: 0 <= i < |keys| ==> RawKey(keys[i])
    ensures FieldsFrom(Raws(keys), m, floats) == Ok(AllTrue(keys, m))
    decreases |keys|
  {
    hide ParseField, RawKey, Raw, Unescape;
    if keys == [] {
    } else {
      RawReads(keys[0], floats);
      assert Raws(keys)[1..] == Raws(keys[1..]);
      RawsRead(keys[1..], m[Unescape(keys[0], false) := Bool(true)], floats);
    }
  }

  lemma MeasurementReads()
    ensures Inert(M, SPACE, true) && ParseKey(M) == Ok((M, map[])) && Escape(M, false) == M && !OddQuotes(M)
  {
    OrdinaryIsInert(M, SPACE, true);
    OrdinaryIsInert(M, COMMA, false);
    SplitLast(M, COMMA, false);
    UnescapeIdle(M, false);
    assert M[1..] == [];
  }

  /** A line of such fields. */
  lemma RawLineReads(keys: seq<Bytes>, floats: Bytes -> bool)
    requires keys != [] && (forall i :: 0 <= i < |keys| ==> RawKey(keys[i])) && AllTrue(keys, map[]) != map[]
    ensures ParseLine(M + [SPACE] + Join(Raws(keys), [COMMA]), floats) == Ok(Point(M, map[], AllTrue(keys, map[]), 0))
  {
    hide Inert, CutAtSpace, ParseKey, SplitTop, EndsOpen, FieldsFrom, Join, AllTrue, RawKey, Raw;
    var fields := Join(Raws(keys), [COMMA]);
    forall i | 0 <= i < |keys|
      ensures Inert(Raws(keys)[i], COMMA, true) && Inert(Raws(keys)[i], SPACE, true) && Raws(keys)[i] != []
    {
      RawReads(keys[i], floats);
    }
    MeasurementReads();
    CutBehind(M, fields);
    InertJoin(Raws(keys), COMMA, SPACE, true);
    CutBehind(fields, []);
    NotEmptyJoin(Raws(keys), [COMMA]);
    SplitJoinTop(Raws(keys), COMMA, true);
    RawsRead(keys, map[], floats);
    TrimSpaceGraphic([]);
  }

  lemma {:induction false} EscapePlain(s: Bytes, quoted: bool)
    requires forall i :: 0 <= i < |s| ==> !Escapable(s[i], quoted)
    ensures Escape(s, quoted) == s
  {
    if s == [] {
    } else {
      EscapePlain(s[1..], quoted);
      assert [s[0]] + s[1..] == s;
    }
  }

  /** A literal is passed over, also as the name of a field. */
  lemma LiteralKey(s: Bytes)
    ensures Inert(Literal(s), EQUALS, true) && Inert(Literal(s), COMMA, true) && Inert(Literal(s), SPACE, true)
  {
    LiteralInert(s, EQUALS);
    LiteralInert(s, COMMA);
    LiteralInert(s, SPACE);
  }

  /** "=true,a" */
  const BETWEEN: Bytes := [EQUALS] + TRUE + [COMMA, 97]

  /** Two fields, true both, whose names are a quote and an a with a quote. */
  function TwoOdd(): Record {
    Record(M, [], [([QUOTE], Bool(true)), ([97, QUOTE], Bool(true))], None)
  }

  lemma TwoOddText()
    ensures RecordText(TwoOdd()) == M + [SPACE] + Join(Raws([Literal(BETWEEN)]), [COMMA])
    ensures Unescape(Literal(BETWEEN), false) == Literal(BETWEEN) != []
  {
    EscapePlain([QUOTE], false);
    EscapePlain([97, QUOTE], false);
    EscapePlain(BETWEEN, true);
    UnescapeIdle(Literal(BETWEEN), false);
    var fs := FieldTexts(TwoOdd().fields);
    assert fs == [Raw([QUOTE]), Raw([97, QUOTE])];
    assert fs[1..] == [Raw([97, QUOTE])];
    assert Raw([QUOTE]) + [COMMA] + Raw([97, QUOTE]) == Raw(Literal(BETWEEN));
    assert Raws([Literal(BETWEEN)]) == [Raw(Literal(BETWEEN))];
    PlainRecord(TwoOdd().fields);
  }

  /** The two fields are read as one, without an error: its name reaches from the first quote to the second. */
  lemma TwoOddNamesMerge(floats: Bytes -> bool)
    ensures WellFormed(TwoOdd(), floats) && !OddKey(TwoOdd())
    ensures ParseLine(RecordText(TwoOdd()), floats) == Ok(Point(M, map[], map[Literal(BETWEEN) := Bool(true)], 0))
    ensures ParseLine(RecordText(TwoOdd()), floats) != Ok(PointOf(TwoOdd()))
  {
    hide Unescape, ParseLine, RecordText, Inert, Literal;
    MeasurementReads();
    TwoOddText();
    LiteralKey(BETWEEN);
    var keys := [Literal(BETWEEN)];
    assert RawKey(keys[0]);
    assert AllTrue(keys, map[]) == map[Literal(BETWEEN) := Bool(true)] by { assert keys[1..] == []; }
    assert Literal(BETWEEN) in AllTrue(keys, map[]);
    RawLineReads(keys, floats);
    assert [QUOTE][1..] == [];
    OddNameFails(TwoOdd(), floats, 0);
  }

  // ---------------------------------------------------------------- two odd names that come back

  /** A backslash and a quote. */
  const HIDING: Bytes := [BACKSLASH, QUOTE]
  /** "=true," twice, with a quote between: what the parser sees of it makes two more fields. */
  const INSIDE: Bytes := [EQUALS] + TRUE + [COMMA, QUOTE, EQUALS] + TRUE + [COMMA]
  const FIRST: Bytes := [BACKSLASH, QUOTE, EQUALS, QUOTE]
  const THIRD: Bytes := [QUOTE, COMMA, BACKSLASH, QUOTE]

  /** Two fields of one name that hides a quote, and the two names that the parser finds around them. */
  function Hidden(): Record {
    var text := LineProtocol.Text(INSIDE);
    Record(M, [], [(HIDING, text), (HIDING, Bool(true)), (FIRST, Bool(true)), (THIRD, Bool(true))], None)
  }

  /** The keys as the parser meets them. */
  function HiddenKeys(): seq<Bytes> {
    [ [BACKSLASH, BACKSLASH] + Literal([EQUALS]),
      HIDING,
      Literal([COMMA, BACKSLASH]),
      Escape(FIRST, false),
      Escape(THIRD, false)]
  }

  lemma {:induction false} EscapeConcat(a: Bytes, b: Bytes, quoted: bool)
    ensures Escape(a + b, quoted) == Escape(a, quoted) + Escape(b, quoted)
  {
    if a == [] {
      assert a + b == b;
    } else {
      assert (a + b)[1..] == a[1..] + b;
      EscapeConcat(a[1..], b, quoted);
      Assoc(EscapeOctet(a[0], quoted), Escape(a[1..], quoted), Escape(b, quoted));
    }
  }

  lemma EscapeSingle(c: Byte, quoted: bool)
    ensures Escape([c], quoted) == EscapeOctet(c, quoted)
  {
    assert [c][1..] == [];
  }

  lemma EscapedPair(c: Byte, d: Byte, quoted: bool)
    ensures Escape([c, d], quoted) == EscapeOctet(c, quoted) + EscapeOctet(d, quoted)
  {
    hide EscapeOctet;
    EscapeSingle(c, quoted);
    EscapeSingle(d, quoted);
    EscapeConcat([c], [d], quoted);
    assert [c] + [d] == [c, d];
  }

  lemma EscapedInside()
    ensures Escape(INSIDE, true) == [EQUALS] + TRUE + [COMMA, BACKSLASH, QUOTE, EQUALS] + TRUE + [COMMA]
  {
    var a := [EQUALS] + TRUE + [COMMA];
    EscapePlain(a, true);
    EscapeSingle(QUOTE, true);
    EscapeConcat(a, [QUOTE], true);
    EscapeConcat(a + [QUOTE], a, true);
    assert a + [QUOTE] + a == INSIDE;
  }

  lemma EscapedTexts()
    ensures Escape(HIDING, false) == [BACKSLASH, BACKSLASH, QUOTE]
    ensures Escape(INSIDE, true) == [EQUALS] + TRUE + [COMMA, BACKSLASH, QUOTE, EQUALS] + TRUE + [COMMA]
    ensures Literal([EQUALS]) == [QUOTE, EQUALS, QUOTE]
    ensures Literal([COMMA, BACKSLASH]) == [QUOTE, COMMA, BACKSLASH, BACKSLASH, QUOTE]
  {
    hide Escape, INSIDE;
    EscapedPair(BACKSLASH, QUOTE, false);
    EscapedInside();
    EscapeSingle(EQUALS, true);
    EscapedPair(COMMA, BACKSLASH, true);
  }

  /** The first two fields of the point are the first three that the parser sees. */
  lemma HiddenFront()
    ensures FieldText((HIDING, LineProtocol.Text(INSIDE))) + [COMMA] + FieldText((HIDING, Bool(true))) ==
            Raw(HiddenKeys()[0]) + [COMMA] + Raw(HiddenKeys()[1]) + [COMMA] + Raw(HiddenKeys()[2])
  {
    hide Literal, Escape;
    EscapedTexts();
    LiteralOf(INSIDE);
    assert FieldText((HIDING, Bool(true))) == Raw([BACKSLASH, BACKSLASH, QUOTE]);
  }

  lemma HiddenText()
    ensures RecordText(Hidden()) == M + [SPACE] + Join(Raws(HiddenKeys()), [COMMA])
  {
    hide Literal, Escape, Raw, Join, INSIDE, HIDING;
    var fs, rs := FieldTexts(Hidden().fields), Raws(HiddenKeys());
    JoinFour(fs);
    JoinFive(rs);
    HiddenFront();
    assert fs[2] == rs[3] && fs[3] == rs[4] by { EscapedField(FIRST); EscapedField(THIRD); }
    PlainRecord(Hidden().fields);
  }

  lemma EscapedField(k: Bytes)
    ensures FieldText((k, Bool(true))) == Raw(Escape(k, false))
  {
  }

  lemma PlainRecord(fields: seq<(Bytes, Value)>)
    ensures RecordText(Record(M, [], fields, None)) == M + [SPACE] + Join(FieldTexts(fields), [COMMA])
  {
    hide FieldTexts;
    MeasurementReads();
    assert [M] + TagTexts([]) == [M];
    assert Join(FieldTexts(fields), [COMMA]) + [] == Join(FieldTexts(fields), [COMMA]);
  }

  lemma LiteralOf(s: Bytes)
    ensures Literal(s) == [QUOTE] + Escape(s, true) + [QUOTE]
  {
  }

  lemma JoinFour(ps: seq<Bytes>)
    requires |ps| == 4
    ensures Join(ps, [COMMA]) == (ps[0] + [COMMA] + ps[1]) + [COMMA] + ps[2] + [COMMA] + ps[3]
  {
    assert ps[1..][1..] == ps[2..] && ps[2..][1..] == ps[3..];
    assert Join(ps[3..], [COMMA]) == ps[3] && Join(ps[2..], [COMMA]) == ps[2] + [COMMA] + ps[3];
    assert Join(ps[1..], [COMMA]) == ps[1] + [COMMA] + (ps[2] + [COMMA] + ps[3]);
  }

  lemma JoinFive(ps: seq<Bytes>)
    requires |ps| == 5
    ensures Join(ps, [COMMA]) ==
            (ps[0] + [COMMA] + ps[1] + [COMMA] + ps[2]) + [COMMA] + ps[3] + [COMMA] + ps[4]
  {
    JoinFour(ps[1..]);
    var t := ps[1..];
    assert t[0] == ps[1] && t[1] == ps[2] && t[2] == ps[3] && t[3] == ps[4];
  }

  lemma EscapedKey(k: Bytes)
    requires k != [] && !OddQuotes(k)
    ensures RawKey(Escape(k, false)) && Unescape(Escape(k, false), false) == k
  {
    hide Inert;
    UnescapeEscape(k, false);
    EscapeInert(k, EQUALS, true);
    EscapeInert(k, COMMA, true);
    EscapeInert(k, SPACE, true);
  }

  lemma EvenNames()
    ensures OddQuotes(HIDING) && !OddQuotes(FIRST) && !OddQuotes(THIRD)
  {
    UnescapeCons(QUOTE, []);
    UnescapeCons(BACKSLASH, [QUOTE]);
    UnescapeCons(EQUALS, [QUOTE]);
    UnescapeCons(QUOTE, [EQUALS] + [QUOTE]);
    UnescapeCons(BACKSLASH, [QUOTE] + ([EQUALS] + [QUOTE]));
    UnescapeCons(COMMA, [BACKSLASH] + [QUOTE]);
    UnescapeCons(QUOTE, [COMMA] + ([BACKSLASH] + [QUOTE]));
    assert [QUOTE] + [] == [QUOTE] && [BACKSLASH] + [QUOTE] == HIDING;
    assert [BACKSLASH] + ([QUOTE] + ([EQUALS] + [QUOTE])) == FIRST;
    assert [QUOTE] + ([COMMA] + ([BACKSLASH] + [QUOTE])) == THIRD;
  }

  lemma BackslashesInert(sep: Byte)
    requires Separator(sep)
    ensures Inert([BACKSLASH, BACKSLASH], sep, true) && Inert(HIDING, sep, true)
  {
    assert [BACKSLASH, BACKSLASH][2..] == [] && HIDING[2..] == [];
  }

  lemma FirstKey()
    ensures var k := [BACKSLASH, BACKSLASH] + Literal([EQUALS]); RawKey(k) && Unescape(k, false) == FIRST
  {
    hide Inert;
    EscapedTexts();
    var k := [BACKSLASH, BACKSLASH] + Literal([EQUALS]);
    LiteralKey([EQUALS]);
    forall sep | Separator(sep) ensures Inert([BACKSLASH, BACKSLASH], sep, true) { BackslashesInert(sep); }
    InertConcat([BACKSLASH, BACKSLASH], Literal([EQUALS]), EQUALS, true);
    InertConcat([BACKSLASH, BACKSLASH], Literal([EQUALS]), COMMA, true);
    InertConcat([BACKSLASH, BACKSLASH], Literal([EQUALS]), SPACE, true);
    assert k[0] == BACKSLASH && k[1] == BACKSLASH && k[2..] == [QUOTE, EQUALS, QUOTE];
    UnescapeIdle([QUOTE, EQUALS, QUOTE], false);
  }

  lemma SecondKey()
    ensures RawKey(HIDING) && Unescape(HIDING, false) == HIDING
  {
    hide Inert;
    forall sep | Separator(sep) ensures Inert(HIDING, sep, true) { BackslashesInert(sep); }
    assert HIDING[1..] == [QUOTE];
    UnescapeIdle([QUOTE], false);
  }

  lemma ThirdKey()
    ensures var k := Literal([COMMA, BACKSLASH]); RawKey(k) && Unescape(k, false) == THIRD
  {
    hide Inert;
    EscapedTexts();
    LiteralKey([COMMA, BACKSLASH]);
    var k := Literal([COMMA, BACKSLASH]);
    assert k[1..] == [COMMA, BACKSLASH, BACKSLASH, QUOTE];
    assert [COMMA, BACKSLASH, BACKSLASH, QUOTE][1..] == [BACKSLASH, BACKSLASH, QUOTE];
    assert [BACKSLASH, BACKSLASH, QUOTE][2..] == [QUOTE];
    UnescapeIdle([QUOTE], false);
    assert Unescape([BACKSLASH, BACKSLASH, QUOTE], false) == HIDING;
    assert Unescape([COMMA, BACKSLASH, BACKSLASH, QUOTE], false) == [COMMA] + HIDING;
    assert [QUOTE] + ([COMMA] + HIDING) == THIRD;
  }

  lemma HiddenRawKeys()
    ensures var ks := HiddenKeys();
            && |ks| == 5 && (forall i :: 0 <= i < |ks| ==> RawKey(ks[i]))
            && Unescape(ks[0], false) == FIRST && Unescape(ks[1], false) == HIDING && Unescape(ks[2], false) == THIRD
            && Unescape(ks[3], false) == FIRST && Unescape(ks[4], false) == THIRD
  {
    hide RawKey, Unescape, Escape, Literal;
    EvenNames();
    FirstKey();
    SecondKey();
    ThirdKey();
    EscapedKey(FIRST);
    EscapedKey(THIRD);
  }

  lemma HiddenFields()
    ensures AllTrue(HiddenKeys(), map[]) == PointOf(Hidden()).fields != map[]
    ensures PointOf(Hidden()).fields == map[HIDING := Bool(true), FIRST := Bool(true), THIRD := Bool(true)]
  {
    hide RawKey, Unescape, Escape, Literal;
    HiddenRawKeys();
    var ks, v := HiddenKeys(), Bool(true);
    assert ks[1..][1..] == ks[2..] && ks[2..][1..] == ks[3..] && ks[3..][1..] == ks[4..] && ks[4..][1..] == ks[5..];
    var m: map<Bytes, Value> := map[];
    assert AllTrue(ks, m) == AllTrue(ks[1..], m[FIRST := v]);
    assert AllTrue(ks[1..], m[FIRST := v]) == AllTrue(ks[2..], m[FIRST := v][HIDING := v]);
    assert AllTrue(ks[2..], m[FIRST := v][HIDING := v]) == AllTrue(ks[3..], m[FIRST := v][HIDING := v][THIRD := v]);
    var n := m[FIRST := v][HIDING := v][THIRD := v];
    assert n[FIRST := v] == n && n[THIRD := v] == n;
    assert AllTrue(ks[3..], n) == AllTrue(ks[4..], n) == AllTrue(ks[5..], n) == n;
    CollectFour(Hidden().fields, m);
    var w := LineProtocol.Text(INSIDE);
    assert m[HIDING := w][HIDING := v][FIRST := v][THIRD := v] == n;
    assert FIRST in n;
  }

  lemma CollectFour(fs: seq<(Bytes, Value)>, m: map<Bytes, Value>)
    requires |fs| == 4
    ensures Collect(fs, m) == m[fs[0].0 := fs[0].1][fs[1].0 := fs[1].1][fs[2].0 := fs[2].1][fs[3].0 := fs[3].1]
  {
    assert fs[1..][1..] == fs[2..] && fs[2..][1..] == fs[3..] && fs[3..][1..] == [];
    var a := m[fs[0].0 := fs[0].1];
    var b := a[fs[1].0 := fs[1].1];
    assert Collect(fs, m) == Collect(fs[1..], a) && Collect(fs[1..], a) == Collect(fs[2..], b);
    var c := b[fs[2].0 := fs[2].1];
    assert Collect(fs[2..], b) == Collect(fs[3..], c) && fs[3..][0] == fs[3];
    assert Collect(fs[3..], c) == Collect(fs[3..][1..], c[fs[3].0 := fs[3].1]);
  }

  /**
    A point with two field names that hold an odd number of quotes, each behind a backslash, comes back: what the parser
    finds inside and around the string between them makes up for both. So the condition on backslashes is needed.
    */
  lemma HiddenQuotesComeBack(floats: Bytes -> bool)
    ensures WellFormed(Hidden(), floats) && OddQuotes(Hidden().fields[0].0) && HidesQuote(Hidden().fields[0].0)
    ensures ParseLine(RecordText(Hidden()), floats) == Ok(PointOf(Hidden()))
  {
    hide *;
    HiddenIsWellFormed(floats);
    HiddenText();
    HiddenRawKeys();
    HiddenFields();
    RawLineReads(HiddenKeys(), floats);
    TagsOfHidden();
  }

  lemma HiddenIsWellFormed(floats: Bytes -> bool)
    ensures WellFormed(Hidden(), floats) && OddQuotes(Hidden().fields[0].0) && HidesQuote(Hidden().fields[0].0)
  {
    hide OddQuotes;
    EvenNames();
    assert LF !in INSIDE;
  }

  lemma TagsOfHidden()
    ensures PointOf(Hidden()).measurement == M && PointOf(Hidden()).tags == map[]
    ensures PointOf(Hidden()).ts == 0
  {
  }
}
