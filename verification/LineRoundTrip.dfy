/**
  Writing points in line protocol and reading them back: the standard escaped text of any list of
  points, mixed with comments and blank lines, parses to exactly those points.
  */
module LineRoundTrip {
  import opened Octets
  import opened Text
  import opened LineScan
  import opened LineProtocol

  /** A point as a writer holds it: tags and fields in order, the time stamp optional. */
  datatype Record = Record(
    measurement: Bytes, tags: seq<(Bytes, Bytes)>, fields: seq<(Bytes, Value)>, ts: Option<int>)

  /** A measurement is not empty and begins neither a comment nor with white space that is trimmed. */
  predicate MeasurementName(s: Bytes) {
    s != [] && LF !in s && s[0] != HASH && (s[0] == SPACE || LeadSpace(s) == 0)
  }

  predicate OddTags(tags: seq<(Bytes, Bytes)>) {
    tags != [] && (OddQuotes(tags[0].0) != OddQuotes(tags[0].1)) != OddTags(tags[1..])
  }

  /** Do the measurement and the tags together hold an odd number of quotes? */
  predicate OddKey(p: Record) {
    OddQuotes(p.measurement) != OddTags(p.tags)
  }

  predicate OddFields(fields: seq<(Bytes, Value)>) {
    fields != [] && OddQuotes(fields[0].0) != OddFields(fields[1..])
  }

  ghost predicate WellFormed(p: Record, floats: Bytes -> bool) {
    && MeasurementName(p.measurement)
    && (forall i :: 0 <= i < |p.tags| ==> p.tags[i].0 != [] && LF !in p.tags[i].0 && LF !in p.tags[i].1)
    && p.fields != []
    && (forall i :: 0 <= i < |p.fields| ==>
          p.fields[i].0 != [] && LF !in p.fields[i].0 && Writable(p.fields[i].1, floats))
    && (p.ts.Some? ==> MIN64 <= p.ts.value <= MAX64)
  }

  /** An odd quote in the name of a field takes its equals sign into a string. */
  ghost predicate Legal(p: Record, floats: Bytes -> bool) {
    WellFormed(p, floats) && forall i :: 0 <= i < |p.fields| ==> !OddQuotes(p.fields[i].0)
  }

  // ---------------------------------------------------------------- writing

  function TagText(tag: (Bytes, Bytes)): Bytes {
    Escape(tag.0, false) + [EQUALS] + Escape(tag.1, false)
  }

  function FieldText(field: (Bytes, Value)): Bytes {
    Escape(field.0, false) + [EQUALS] + ValueText(field.1)
  }

  function TagTexts(tags: seq<(Bytes, Bytes)>): (ts: seq<Bytes>)
    ensures |ts| == |tags|
  {
    seq(|tags|, i requires 0 <= i < |tags| => TagText(tags[i]))
  }

  function FieldTexts(fields: seq<(Bytes, Value)>): (ts: seq<Bytes>)
    ensures |ts| == |fields|
  {
    seq(|fields|, i requires 0 <= i < |fields| => FieldText(fields[i]))
  }

  function KeyText(p: Record): Bytes {
    Join([Escape(p.measurement, false)] + TagTexts(p.tags), [COMMA])
  }

  function TimeText(ts: Option<int>): Bytes {
    match ts
    case None => []
    case Some(n) => [SPACE] + Decimal(n)
  }

  function RecordText(p: Record): Bytes {
    KeyText(p) + [SPACE] + (Join(FieldTexts(p.fields), [COMMA]) + TimeText(p.ts))
  }

  // ---------------------------------------------------------------- what the reader should find

  /** Pairs put into a map one after the other, as the parser does. */
  function Collect<V>(pairs: seq<(Bytes, V)>, m: map<Bytes, V>): map<Bytes, V> {
    if pairs == [] then m else Collect(pairs[1..], m[pairs[0].0 := pairs[0].1])
  }

  function PointOf(p: Record): Point {
    Point(p.measurement, Collect(p.tags, map[]), Collect(p.fields, map[]), if p.ts.Some? then p.ts.value else 0)
  }

  /** With distinct keys the map holds exactly the pairs. */
  lemma {:induction false} CollectDistinct<V>(pairs: seq<(Bytes, V)>, m: map<Bytes, V>)
    requires forall i, j :: 0 <= i < j < |pairs| ==> pairs[i].0 != pairs[j].0
    requires forall i :: 0 <= i < |pairs| ==> pairs[i].0 !in m
    ensures forall i :: 0 <= i < |pairs| ==>
              pairs[i].0 in Collect(pairs, m) && Collect(pairs, m)[pairs[i].0] == pairs[i].1
    ensures forall k :: k in m ==> k in Collect(pairs, m) && Collect(pairs, m)[k] == m[k]
    ensures forall k :: k in Collect(pairs, m) ==> k in m || exists i :: 0 <= i < |pairs| && pairs[i].0 == k
  {
    if pairs == [] {
    } else {
      var rest, n := pairs[1..], m[pairs[0].0 := pairs[0].1];
      assert forall i :: 0 <= i < |rest| ==> rest[i] == pairs[i + 1];
      CollectDistinct(rest, n);
      forall i | 0 <= i < |pairs|
        ensures pairs[i].0 in Collect(pairs, m) && Collect(pairs, m)[pairs[i].0] == pairs[i].1
      {
        if i > 0 { assert pairs[i] == rest[i - 1]; } else { assert pairs[0].0 in n; }
      }
      forall k | k in Collect(pairs, m)
        ensures k in m || exists i :: 0 <= i < |pairs| && pairs[i].0 == k
      {
        if k !in n {
          var i :| 0 <= i < |rest| && rest[i].0 == k;
          assert pairs[i + 1].0 == k;
        } else if k !in m {
          assert pairs[0].0 == k;
        }
      }
    }
  }

  // ---------------------------------------------------------------- tags and fields

  lemma TagReads(tag: (Bytes, Bytes))
    requires tag.0 != []
    ensures ParseTag(TagText(tag)) == Ok(tag)
  {
    EscapeInert(tag.0, EQUALS, false);
    FoundBehind(Escape(tag.0, false), EQUALS, Escape(tag.1, false), false);
    UnescapeEscape(tag.0, false);
    UnescapeEscape(tag.1, false);
  }

  lemma FieldReads(field: (Bytes, Value), floats: Bytes -> bool)
    requires field.0 != [] && !OddQuotes(field.0) && Writable(field.1, floats)
    ensures ParseField(FieldText(field), floats) == Ok(field)
  {
    EscapeInert(field.0, EQUALS, true);
    FoundBehind(Escape(field.0, false), EQUALS, ValueText(field.1), true);
    UnescapeEscape(field.0, false);
    ValueReads(field.1, floats);
  }

  lemma {:induction false} TagsRead(tags: seq<(Bytes, Bytes)>, m: map<Bytes, Bytes>)
    requires forall i :: 0 <= i < |tags| ==> tags[i].0 != []
    ensures TagsFrom(TagTexts(tags), m) == Ok(Collect(tags, m))
  {
    hide ParseTag, TagText;
    if tags == [] {
    } else {
      TagReads(tags[0]);
      NotEmpty(Escape(tags[0].0, false), EQUALS, Escape(tags[0].1, false));
      TagTextIs(tags[0]);
      assert TagTexts(tags)[1..] == TagTexts(tags[1..]);
      TagsRead(tags[1..], m[tags[0].0 := tags[0].1]);
    }
  }

  lemma TagTextIs(tag: (Bytes, Bytes))
    ensures TagText(tag) == Escape(tag.0, false) + [EQUALS] + Escape(tag.1, false)
  {
  }

  lemma NotEmpty(a: Bytes, c: Byte, b: Bytes)
    ensures a + [c] + b != []
  {
  }

  lemma {:induction false} FieldsRead(fields: seq<(Bytes, Value)>, m: map<Bytes, Value>, floats: Bytes -> bool)
    requires forall i :: 0 <= i < |fields| ==>
               fields[i].0 != [] && !OddQuotes(fields[i].0) && Writable(fields[i].1, floats)
    ensures FieldsFrom(FieldTexts(fields), m, floats) == Ok(Collect(fields, m))
  {
    hide ParseField, FieldText, Writable;
    if fields == [] {
    } else {
      FieldReads(fields[0], floats);
      FieldTextIs(fields[0]);
      NotEmpty(Escape(fields[0].0, false), EQUALS, ValueText(fields[0].1));
      assert FieldTexts(fields)[1..] == FieldTexts(fields[1..]);
      FieldsRead(fields[1..], m[fields[0].0 := fields[0].1], floats);
    }
  }

  lemma FieldTextIs(field: (Bytes, Value))
    ensures FieldText(field) == Escape(field.0, false) + [EQUALS] + ValueText(field.1)
  {
  }

  lemma EqualsInert(sep: Byte, quotes: bool)
    requires sep == COMMA || sep == SPACE
    ensures Inert([EQUALS], sep, quotes)
  {
    OrdinaryIsInert([EQUALS], sep, quotes);
  }

  lemma TagInert(tag: (Bytes, Bytes))
    ensures Inert(TagText(tag), COMMA, false)
  {
    hide Inert;
    EscapeInert(tag.0, COMMA, false);
    EscapeInert(tag.1, COMMA, false);
    EqualsInert(COMMA, false);
    InertConcat(Escape(tag.0, false), [EQUALS], COMMA, false);
    InertConcat(Escape(tag.0, false) + [EQUALS], Escape(tag.1, false), COMMA, false);
  }

  /** The scan for the blank passes over the text, and is inside a string behind it when `odd` tells so. */
  ghost predicate Crosses(t: Bytes, odd: bool) {
    forall open :: Passes(t, SPACE, true, open) && EndsOpen(t, true, open) == (open != odd)
  }

  lemma CrossesConcat(a: Bytes, b: Bytes, x: bool, y: bool)
    requires Crosses(a, x) && Crosses(b, y)
    ensures Crosses(a + b, x != y)
  {
    hide FirstTop, EndsOpen, Whole;
    forall open
      ensures Passes(a + b, SPACE, true, open) && EndsOpen(a + b, true, open) == (open != (x != y))
    {
      PassOver(a, b, SPACE, true, open);
      OpenOver(a, b, true, open);
      ShiftNone(None);
      assert EndsOpen(a, true, open) == (open != x);
    }
  }

  lemma EscapeCrosses(s: Bytes)
    ensures Crosses(Escape(s, false), OddQuotes(s))
  {
    forall open
      ensures Passes(Escape(s, false), SPACE, true, open)
      ensures EndsOpen(Escape(s, false), true, open) == (open != OddQuotes(s))
    {
      EscapePasses(s, SPACE, true, open);
    }
  }

  lemma GlueCrosses(c: Byte)
    requires c == COMMA || c == EQUALS
    ensures Crosses([c], false)
  {
    forall open ensures Passes([c], SPACE, true, open) && EndsOpen([c], true, open) == open {
      assert [c][1..] == [];
      assert FirstTop([c][1..], SPACE, true, open).None?;
    }
  }

  lemma TagCrosses(tag: (Bytes, Bytes))
    ensures Crosses(TagText(tag), OddQuotes(tag.0) != OddQuotes(tag.1))
  {
    hide Crosses;
    EscapeCrosses(tag.0);
    EscapeCrosses(tag.1);
    GlueCrosses(EQUALS);
    CrossesConcat(Escape(tag.0, false), [EQUALS], OddQuotes(tag.0), false);
    CrossesConcat(Escape(tag.0, false) + [EQUALS], Escape(tag.1, false), OddQuotes(tag.0), OddQuotes(tag.1));
  }

  lemma {:induction false} KeyCrosses(head: Bytes, odd: bool, tags: seq<(Bytes, Bytes)>)
    requires Crosses(head, odd)
    ensures Crosses(Join([head] + TagTexts(tags), [COMMA]), odd != OddTags(tags))
    decreases |tags|
  {
    hide Crosses, TagText;
    var ps := [head] + TagTexts(tags);
    if tags == [] {
      assert ps == [head];
    } else {
      assert ps[1..] == [TagText(tags[0])] + TagTexts(tags[1..]);
      TagCrosses(tags[0]);
      KeyCrosses(TagText(tags[0]), OddQuotes(tags[0].0) != OddQuotes(tags[0].1), tags[1..]);
      GlueCrosses(COMMA);
      CrossesConcat(head, [COMMA], odd, false);
      CrossesConcat(head + [COMMA], Join(ps[1..], [COMMA]), odd, OddTags(tags));
    }
  }

  lemma FieldInert(field: (Bytes, Value), floats: Bytes -> bool, sep: Byte)
    requires sep == COMMA || sep == SPACE
    requires field.0 != [] && !OddQuotes(field.0) && Writable(field.1, floats)
    ensures Inert(FieldText(field), sep, true)
  {
    hide Inert, Writable;
    EscapeInert(field.0, sep, true);
    ValueInert(field.1, floats, sep);
    EqualsInert(sep, true);
    InertConcat(Escape(field.0, false), [EQUALS], sep, true);
    InertConcat(Escape(field.0, false) + [EQUALS], ValueText(field.1), sep, true);
  }

  lemma KeyPieces(p: Record, floats: Bytes -> bool)
    requires Legal(p, floats)
    ensures AllInert([Escape(p.measurement, false)] + TagTexts(p.tags), COMMA, false)
  {
    hide Inert, TagText;
    EscapeInert(p.measurement, COMMA, false);
    forall i | 0 <= i < |p.tags|
      ensures Inert(TagText(p.tags[i]), COMMA, false)
    {
      TagInert(p.tags[i]);
    }
  }

  lemma FieldPieces(p: Record, floats: Bytes -> bool)
    requires Legal(p, floats)
    ensures AllInert(FieldTexts(p.fields), COMMA, true) && AllInert(FieldTexts(p.fields), SPACE, true)
  {
    hide Inert, FieldText;
    forall i | 0 <= i < |p.fields|
      ensures Inert(FieldText(p.fields[i]), COMMA, true) && Inert(FieldText(p.fields[i]), SPACE, true)
    {
      FieldInert(p.fields[i], floats, COMMA);
      FieldInert(p.fields[i], floats, SPACE);
    }
  }

  // ---------------------------------------------------------------- the three parts

  lemma KeyReads(p: Record, floats: Bytes -> bool)
    requires Legal(p, floats)
    ensures ParseKey(KeyText(p)) == Ok((p.measurement, Collect(p.tags, map[])))
    ensures Passes(KeyText(p), SPACE, true, false) && EndsOpen(KeyText(p), true, false) == OddKey(p)
  {
    hide Inert, Passes, EndsOpen, AllInert, SplitTop, Join, TagsFrom, TagTexts, Escape, Unescape;
    var ps := [Escape(p.measurement, false)] + TagTexts(p.tags);
    KeyPieces(p, floats);
    SplitJoinTop(ps, COMMA, false);
    EscapeCrosses(p.measurement);
    KeyCrosses(Escape(p.measurement, false), OddQuotes(p.measurement), p.tags);
    assert ps[1..] == TagTexts(p.tags);
    TagsRead(p.tags, map[]);
    UnescapeEscape(p.measurement, false);
  }

  lemma FieldSetReads(p: Record, floats: Bytes -> bool)
    requires Legal(p, floats)
    ensures ParseFields(Join(FieldTexts(p.fields), [COMMA]), floats) == Ok(Collect(p.fields, map[]))
    ensures Inert(Join(FieldTexts(p.fields), [COMMA]), SPACE, true)
  {
    hide Inert, AllInert, SplitTop, EndsOpen, Join, FieldsFrom, FieldTexts;
    FieldPieces(p, floats);
    SplitJoinTop(FieldTexts(p.fields), COMMA, true);
    InertJoin(FieldTexts(p.fields), COMMA, SPACE, true);
    FieldsRead(p.fields, map[], floats);
    CollectKeeps(p.fields[1..], p.fields[0].0, map[p.fields[0].0 := p.fields[0].1]);
  }

  lemma {:induction false} CollectKeeps<V>(pairs: seq<(Bytes, V)>, k: Bytes, m: map<Bytes, V>)
    requires k in m
    ensures k in Collect(pairs, m)
  {
    if pairs == [] {
    } else {
      CollectKeeps(pairs[1..], k, m[pairs[0].0 := pairs[0].1]);
    }
  }

  lemma TimeReads(ts: Option<int>)
    requires ts.Some? ==> MIN64 <= ts.value <= MAX64
    ensures ParseTimestamp(if ts.Some? then Decimal(ts.value) else []) == Ok(if ts.Some? then ts.value else 0)
  {
    if ts.Some? {
      ParseDecimal(ts.value);
      TrimSpaceGraphic(Decimal(ts.value));
    } else {
      TrimSpaceGraphic([]);
    }
  }

  lemma CutBehind(t: Bytes, u: Bytes)
    requires Inert(t, SPACE, true)
    ensures CutAtSpace(t + [SPACE] + u) == Halves(t, u)
    ensures CutAtSpace(t) == Halves(t, [])
  {
    FoundBehind(t, SPACE, u, true);
  }

  lemma NotEmptyJoin(ps: seq<Bytes>, sep: Bytes)
    requires |ps| >= 1 && ps[0] != []
    ensures Join(ps, sep) != []
  {
  }

  // ---------------------------------------------------------------- an odd quote

  lemma {:induction false} CutCloses(s: Bytes, open: bool)
    requires FirstTop(s, SPACE, true, open).Some?
    ensures var i := FirstTop(s, SPACE, true, open).value;
            EndsOpen(s, true, open) == EndsOpen(s[i + 1..], true, false)
    decreases |s|
  {
    hide FirstTop, EndsOpen, Shift;
    var k := Taken(s, 0);
    var flip := if s[0] == QUOTE then !open else open;
    assert s[0..] == s;
    ScanStep(s, 0, SPACE, true, open);
    Step(s, 0, SPACE, true, open);
    if s[0] == SPACE && !open {
    } else {
      var t := From(s, k);
      ShiftNone(FirstTop(t, SPACE, true, flip));
      CutCloses(t, flip);
      ShiftIs(k, FirstTop(t, SPACE, true, flip));
      assert s[k..] == t && t[FirstTop(t, SPACE, true, flip).value + 1..] == s[k + FirstTop(t, SPACE, true,
              flip).value + 1..];
    }
  }

  lemma ShiftIs(k: nat, r: Option<nat>)
    requires r.Some?
    ensures Shift(k, r) == Some(k + r.value)
  {
  }

  lemma {:induction false} NoQuotes(s: Bytes)
    requires QUOTE !in s
    ensures !EndsOpen(s, true, false)
    decreases |s|
  {
    if s == [] {
    } else {
      if s[0] == BACKSLASH && |s| > 1 { NoQuotes(s[2..]); } else { NoQuotes(s[1..]); }
    }
  }

  lemma {:induction false} LeftKeepsQuotes(s: Bytes)
    ensures QUOTE in s ==> QUOTE in TrimLeft(s)
    decreases |s|
  {
    var k := LeadSpace(s);
    if k == 0 {
    } else {
      LeftKeepsQuotes(s[k..]);
      assert s == s[..k] + s[k..];
      assert QUOTE !in s[..k];
    }
  }

  lemma {:induction false} RightKeepsQuotes(s: Bytes)
    ensures QUOTE in s ==> QUOTE in TrimRight(s)
    decreases |s|
  {
    var k := TailSpace(s);
    if k == 0 {
    } else {
      var n := |s| - k;
      RightKeepsQuotes(s[..n]);
      assert s == s[..n] + s[n..];
      assert QUOTE !in s[n..];
    }
  }

  lemma TimestampQuotes(s: Bytes)
    requires ParseTimestamp(s).Ok?
    ensures !EndsOpen(s, true, false)
  {
    LeftKeepsQuotes(s);
    RightKeepsQuotes(TrimLeft(s));
    IntQuotes(TrimSpace(s));
    NoQuotes(s);
  }

  lemma IntQuotes(t: Bytes)
    requires t == [] || ParseInt(t).Some?
    ensures QUOTE !in t
  {
    if t != [] {
      var digits := if t[0] == MINUS || t[0] == PLUS then t[1..] else t;
      assert t == digits || t == [t[0]] + digits;
    }
  }

  /** Whatever parses has its quotes in pairs: an odd number is always an error. */
  lemma OkIsClosed(line: Bytes, floats: Bytes -> bool)
    requires ParseLine(line, floats).Ok?
    ensures !EndsOpen(line, true, false)
  {
    hide FirstTop, EndsOpen, ParseKey, ParseFields, ParseTimestamp;
    if FirstTop(line, SPACE, true, false).Some? {
      CutCloses(line, false);
      var rest := line[FirstTop(line, SPACE, true, false).value + 1..];
      if FirstTop(rest, SPACE, true, false).Some? {
        CutCloses(rest, false);
        TimestampQuotes(rest[FirstTop(rest, SPACE, true, false).value + 1..]);
      }
    }
  }

  /** Behind the text the scan is inside a string as `odd` tells. */
  ghost predicate Turns(t: Bytes, odd: bool) {
    Whole(t) && forall open :: EndsOpen(t, true, open) == (open != odd)
  }

  lemma TurnsConcat(a: Bytes, b: Bytes, x: bool, y: bool)
    requires Turns(a, x) && Turns(b, y)
    ensures Turns(a + b, x != y)
  {
    hide EndsOpen, Whole;
    forall open
      ensures EndsOpen(a + b, true, open) == (open != (x != y)) && Whole(a + b)
    {
      OpenOver(a, b, true, open);
      assert EndsOpen(a, true, open) == (open != x);
    }
    OpenOver(a, b, true, false);
  }

  lemma {:induction false} Flipped(s: Bytes)
    ensures EndsOpen(s, true, true) == !EndsOpen(s, true, false)
    decreases |s|
  {
    if s == [] {
    } else {
      if s[0] == BACKSLASH && |s| > 1 { Flipped(s[2..]); } else { Flipped(s[1..]); }
    }
  }

  lemma InertTurns(t: Bytes)
    requires Inert(t, SPACE, true)
    ensures Turns(t, false)
  {
    Flipped(t);
  }

  lemma CrossesTurns(t: Bytes, odd: bool)
    requires Crosses(t, odd)
    ensures Turns(t, odd)
  {
    assert Passes(t, SPACE, true, false);
  }

  lemma FieldTurns(field: (Bytes, Value), floats: Bytes -> bool)
    requires Writable(field.1, floats)
    ensures Turns(FieldText(field), OddQuotes(field.0))
  {
    hide Turns, Inert, Crosses, Writable;
    EscapeCrosses(field.0);
    CrossesTurns(Escape(field.0, false), OddQuotes(field.0));
    EqualsInert(SPACE, true);
    InertTurns([EQUALS]);
    ValueInert(field.1, floats, SPACE);
    InertTurns(ValueText(field.1));
    TurnsConcat(Escape(field.0, false), [EQUALS], OddQuotes(field.0), false);
    TurnsConcat(Escape(field.0, false) + [EQUALS], ValueText(field.1), OddQuotes(field.0), false);
  }

  lemma OtherTurns(t: Bytes)
    requires forall i :: 0 <= i < |t| ==> Ordinary(t[i], SPACE, true) || t[i] == SPACE
    ensures Turns(t, false)
  {
    WholeText(t);
    NoQuotes(t);
    Flipped(t);
  }

  lemma {:induction false} WholeText(t: Bytes)
    requires BACKSLASH !in t
    ensures Whole(t)
  {
    if t == [] {
    } else {
      WholeText(t[1..]);
    }
  }

  lemma {:induction false} FieldsTurn(fields: seq<(Bytes, Value)>, floats: Bytes -> bool)
    requires fields != [] && forall i :: 0 <= i < |fields| ==> Writable(fields[i].1, floats)
    ensures Turns(Join(FieldTexts(fields), [COMMA]), OddFields(fields))
    decreases |fields|
  {
    hide Turns, FieldText, Writable, OddQuotes;
    var ts := FieldTexts(fields);
    FieldTurns(fields[0], floats);
    if |fields| == 1 {
      assert ts == [FieldText(fields[0])] && fields[1..] == [];
    } else {
      assert ts[1..] == FieldTexts(fields[1..]);
      FieldsTurn(fields[1..], floats);
      OtherTurns([COMMA]);
      TurnsConcat(ts[0], [COMMA], OddQuotes(fields[0].0), false);
      TurnsConcat(ts[0] + [COMMA], Join(ts[1..], [COMMA]), OddQuotes(fields[0].0), OddFields(fields[1..]));
    }
  }

  lemma RecordTurns(p: Record, floats: Bytes -> bool)
    requires WellFormed(p, floats)
    ensures Turns(RecordText(p), OddKey(p) != OddFields(p.fields))
  {
    hide Turns, Crosses, Join, TagTexts, FieldTexts, Escape, OddQuotes, OddTags, OddFields, TimeText, Writable;
    var key, fields := KeyText(p), Join(FieldTexts(p.fields), [COMMA]);
    EscapeCrosses(p.measurement);
    KeyCrosses(Escape(p.measurement, false), OddQuotes(p.measurement), p.tags);
    CrossesTurns(key, OddKey(p));
    FieldsTurn(p.fields, floats);
    TimeTurns(p.ts);
    OtherTurns([SPACE]);
    TurnsConcat(fields, TimeText(p.ts), OddFields(p.fields), false);
    TurnsConcat(key, [SPACE], OddKey(p), false);
    TurnsConcat(key + [SPACE], fields + TimeText(p.ts), OddKey(p), OddFields(p.fields));
  }

  lemma TimeTurns(ts: Option<int>)
    ensures Turns(TimeText(ts), false)
  {
    OtherTurns(TimeText(ts));
  }

  /** A record whose names hold an odd number of quotes in all is rejected. */
  lemma OddQuotesFail(p: Record, floats: Bytes -> bool)
    requires WellFormed(p, floats) && OddKey(p) != OddFields(p.fields)
    ensures ParseLine(RecordText(p), floats).Err?
  {
    hide ParseLine, RecordText, OddKey, OddFields, WellFormed;
    RecordTurns(p, floats);
    if ParseLine(RecordText(p), floats).Ok? { OkIsClosed(RecordText(p), floats); }
  }

  lemma {:induction false} NoneOdd(fields: seq<(Bytes, Value)>)
    requires forall i :: 0 <= i < |fields| ==> !OddQuotes(fields[i].0)
    ensures !OddFields(fields)
  {
    if fields == [] {
    } else {
      NoneOdd(fields[1..]);
    }
  }

  /**
    One line: the point that was written is the point that is read, exactly when measurement and tags
    hold their quotes in pairs.
    */
  lemma LineReads(p: Record, floats: Bytes -> bool)
    requires Legal(p, floats)
    ensures ParseLine(RecordText(p), floats) == Ok(PointOf(p)) <==> !OddKey(p)
    ensures OddKey(p) ==> ParseLine(RecordText(p), floats).Err?
  {
    hide ParseLine, OddKey, RecordText, OddFields, OddQuotes;
    NoneOdd(p.fields);
    if OddKey(p) {
      OddQuotesFail(p, floats);
    } else {
      EvenReads(p, floats);
    }
  }

  lemma EvenReads(p: Record, floats: Bytes -> bool)
    requires Legal(p, floats) && !OddKey(p)
    ensures ParseLine(RecordText(p), floats) == Ok(PointOf(p))
  {
    hide FirstTop, EndsOpen, CutAtSpace, ParseKey, ParseFields, ParseTimestamp, Join, FieldTexts, TagTexts;
    var fields := Join(FieldTexts(p.fields), [COMMA]);
    KeyReads(p, floats);
    FieldSetReads(p, floats);
    TimeReads(p.ts);
    CutBehind(KeyText(p), fields + TimeText(p.ts));
    PartsNotEmpty(p, floats);
    if p.ts.Some? {
      CutBehind(fields, Decimal(p.ts.value));
      Assoc(fields, [SPACE], Decimal(p.ts.value));
    } else {
      CutBehind(fields, []);
      assert fields + [] == fields;
    }
  }

  lemma PartsNotEmpty(p: Record, floats: Bytes -> bool)
    requires Legal(p, floats)
    ensures KeyText(p) != [] && Join(FieldTexts(p.fields), [COMMA]) != []
  {
    NotEmptyJoin([Escape(p.measurement, false)] + TagTexts(p.tags), [COMMA]);
    FieldTextIs(p.fields[0]);
    NotEmptyJoin(FieldTexts(p.fields), [COMMA]);
  }

  // ---------------------------------------------------------------- no newline, nothing to trim

  lemma {:induction false} EscapeAvoids(s: Bytes, quoted: bool, c: Byte)
    requires c !in s && c != BACKSLASH
    ensures c !in Escape(s, quoted)
  {
    if s == [] {
    } else {
      EscapeAvoids(s[1..], quoted, c);
    }
  }

  lemma {:induction false} JoinAvoids(ps: seq<Bytes>, sep: Bytes, c: Byte)
    requires c !in sep && forall i :: 0 <= i < |ps| ==> c !in ps[i]
    ensures c !in Join(ps, sep)
  {
    if |ps| <= 1 {
    } else {
      JoinAvoids(ps[1..], sep, c);
    }
  }

  lemma ValueAvoids(v: Value, floats: Bytes -> bool)
    requires Writable(v, floats)
    ensures LF !in ValueText(v)
  {
    if v.Text? { EscapeAvoids(v.s, true, LF); }
  }

  lemma KeyAvoids(p: Record, floats: Bytes -> bool)
    requires Legal(p, floats)
    ensures LF !in KeyText(p)
  {
    EscapeAvoids(p.measurement, false, LF);
    forall i | 0 <= i < |p.tags|
      ensures LF !in TagText(p.tags[i])
    {
      EscapeAvoids(p.tags[i].0, false, LF);
      EscapeAvoids(p.tags[i].1, false, LF);
    }
    JoinAvoids([Escape(p.measurement, false)] + TagTexts(p.tags), [COMMA], LF);
  }

  lemma FieldsAvoid(p: Record, floats: Bytes -> bool)
    requires Legal(p, floats)
    ensures LF !in Join(FieldTexts(p.fields), [COMMA])
  {
    hide Writable;
    forall i | 0 <= i < |p.fields|
      ensures LF !in FieldText(p.fields[i])
    {
      EscapeAvoids(p.fields[i].0, false, LF);
      ValueAvoids(p.fields[i].1, floats);
    }
    JoinAvoids(FieldTexts(p.fields), [COMMA], LF);
  }

  lemma RecordAvoids(p: Record, floats: Bytes -> bool)
    requires Legal(p, floats)
    ensures LF !in RecordText(p)
  {
    hide Legal, KeyText, Join;
    KeyAvoids(p, floats);
    FieldsAvoid(p, floats);
    assert LF !in TimeText(p.ts);
  }

  /** Every value ends in a printable octet, so the line has no white space at its end. */
  lemma ValueEnd(v: Value, floats: Bytes -> bool)
    requires Writable(v, floats)
    ensures ValueText(v) != [] && Graphic(ValueText(v)[|ValueText(v)| - 1])
  {
  }

  lemma {:induction false} JoinEnd(ps: seq<Bytes>, sep: Bytes)
    requires |ps| >= 1 && forall i :: 0 <= i < |ps| ==> ps[i] != [] && Graphic(ps[i][|ps[i]| - 1])
    ensures var j := Join(ps, sep); j != [] && Graphic(j[|j| - 1])
  {
    if |ps| <= 1 {
    } else {
      JoinEnd(ps[1..], sep);
    }
  }

  lemma RecordEnd(p: Record, floats: Bytes -> bool)
    requires Legal(p, floats)
    ensures var t := RecordText(p); t != [] && Graphic(t[|t| - 1])
  {
    hide Writable, KeyText;
    forall i | 0 <= i < |p.fields|
      ensures var t := FieldText(p.fields[i]); t != [] && Graphic(t[|t| - 1])
    {
      ValueEnd(p.fields[i].1, floats);
    }
    JoinEnd(FieldTexts(p.fields), [COMMA]);
  }

  /** White space at the front of the escaped text would be white space at the front of the name. */
  lemma EscapedLead(m: Bytes, x: Bytes)
    requires MeasurementName(m) && x != [] && x[0] < 128
    ensures LeadSpace(Escape(m, false) + x) == 0
    ensures (Escape(m, false) + x)[0] != HASH
  {
    var t := Escape(m, false) + x;
    if !Escapable(m[0], false) {
      var r := m[1..];
      var u := Escape(r, false);
      assert Escape(m, false) == [m[0]] + u;
      assert t[0] == m[0];
      if r == [] {
        assert t[1] == x[0];
      } else {
        assert u[0] == r[0] || u[0] == BACKSLASH;
        assert t[1] == u[0];
        if !Escapable(r[0], false) && |r| > 1 {
          var w := Escape(r[1..], false);
          assert u == [r[0]] + w;
          assert w[0] == r[1] || w[0] == BACKSLASH;
          assert t[2] == w[0] && r[1] == m[2];
        } else if !Escapable(r[0], false) {
          assert r[1..] == [] && Escape(r[1..], false) == [];
          assert u == [r[0]] + [];
          assert t[2] == x[0];
        }
      }
    }
  }

  lemma KeyLead(p: Record)
    ensures exists x :: KeyText(p) + [SPACE] == Escape(p.measurement, false) + x && x != [] && x[0] in [COMMA, SPACE]
  {
    var e, rest := Escape(p.measurement, false), TagTexts(p.tags);
    if rest == [] {
      assert KeyText(p) == e;
      assert KeyText(p) + [SPACE] == e + [SPACE];
    } else {
      assert ([e] + rest)[1..] == rest;
      var x := [COMMA] + Join(rest, [COMMA]) + [SPACE];
      assert KeyText(p) + [SPACE] == e + x;
    }
  }

  /** The line is neither blank nor a comment, and strings.TrimSpace leaves it alone. */
  lemma RecordUntrimmed(p: Record, floats: Bytes -> bool)
    requires Legal(p, floats)
    ensures TrimSpace(RecordText(p)) == RecordText(p) && !Skipped(RecordText(p))
  {
    hide Escape, KeyText, FieldTexts, TimeText, Join, LeadSpace;
    var t := RecordText(p);
    RecordEnd(p, floats);
    KeyLead(p);
    var x :| KeyText(p) + [SPACE] == Escape(p.measurement, false) + x && x != [] && x[0] in [COMMA, SPACE];
    var tail := Join(FieldTexts(p.fields), [COMMA]) + TimeText(p.ts);
    Assoc(Escape(p.measurement, false), x, tail);
    EscapedLead(p.measurement, x + tail);
    PrintableEnd(t);
    TrimSpaceIdle(t);
  }

  lemma PrintableEnd(t: Bytes)
    requires t != [] && Graphic(t[|t| - 1])
    ensures TailSpace(t) == 0
  {
  }

  // ---------------------------------------------------------------- whole payloads

  /** A line of a payload: a record, or one that the parser passes over. */
  datatype Entry = Line(record: Record) | Other(text: Bytes)

  ghost predicate LegalEntry(e: Entry, floats: Bytes -> bool) {
    match e
    case Line(p) => Legal(p, floats) && !OddKey(p)
    case Other(text) => LF !in text && Skipped(TrimSpace(text))
  }

  function EntryText(e: Entry): Bytes {
    match e
    case Line(p) => RecordText(p)
    case Other(text) => text
  }

  function Texts(es: seq<Entry>): (ts: seq<Bytes>)
    ensures |ts| == |es|
  {
    seq(|es|, i requires 0 <= i < |es| => EntryText(es[i]))
  }

  /** The points in order, their time stamps scaled. */
  function Expected(es: seq<Entry>, precision: Precision): seq<Point> {
    if es == [] then []
    else (if es[0].Line? then [Scaled(PointOf(es[0].record), precision)] else []) + Expected(es[1..], precision)
  }

  lemma {:induction false} LinesRead(es: seq<Entry>, k: nat, precision: Precision, floats: Bytes -> bool)
    requires forall i :: 0 <= i < |es| ==> LegalEntry(es[i], floats)
    ensures ParseLines(Texts(es), k, precision, floats) == Outcome(Expected(es, precision), -1, None)
  {
    hide RecordText, Scaled, PointOf, ParseLine, TrimSpace, Skipped, Legal;
    if es == [] {
    } else {
      assert Texts(es)[1..] == Texts(es[1..]);
      LinesRead(es[1..], k + 1, precision, floats);
      assert LegalEntry(es[0], floats);
      if es[0].Line? {
        RecordUntrimmed(es[0].record, floats);
        LineReads(es[0].record, floats);
      } else {
        assert [] + Expected(es[1..], precision) == Expected(es[1..], precision);
      }
    }
  }

  /**
    Any list of points, with comments and blank lines between them, comes back from its text:
    no error, every point, in order.
    */
  lemma PayloadReads(es: seq<Entry>, precision: Precision, floats: Bytes -> bool)
    requires forall i :: 0 <= i < |es| ==> LegalEntry(es[i], floats)
    ensures ParseLines(Lines(Join(Texts(es), [LF])), 0, precision, floats) ==
            Outcome(Expected(es, precision), -1, None)
  {
    hide LegalEntry, EntryText, Expected;
    LinesRead(es, 0, precision, floats);
    if es == [] {
      assert Texts(es) == [] && Join(Texts(es), [LF]) == [];
    } else {
      forall i | 0 <= i < |es|
        ensures Clean(Texts(es)[i], [LF]) && Free(Texts(es)[i], [LF])
      {
        EntryAvoids(es[i], floats);
        WithoutOctet(EntryText(es[i]), LF);
      }
      SplitJoin(Texts(es), [LF]);
      if Join(Texts(es), [LF]) == [] { OnlyBlank(es, precision, floats); }
    }
  }

  lemma EntryAvoids(e: Entry, floats: Bytes -> bool)
    requires LegalEntry(e, floats)
    ensures LF !in EntryText(e)
  {
    if e.Line? { RecordAvoids(e.record, floats); }
  }

  /** An empty payload has no lines at all, where strings.Split would make one empty line. */
  lemma OnlyBlank(es: seq<Entry>, precision: Precision, floats: Bytes -> bool)
    requires es != [] && Join(Texts(es), [LF]) == []
    requires forall i :: 0 <= i < |es| ==> LegalEntry(es[i], floats)
    ensures Expected(es, precision) == []
  {
    assert |es| == 1 && Texts(es)[0] == [];
    assert LegalEntry(es[0], floats);
    if es[0].Line? { RecordEnd(es[0].record, floats); }
    assert es[1..] == [];
  }
}
