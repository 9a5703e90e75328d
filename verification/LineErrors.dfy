/**
  What the line protocol parser rejects (src/lineprotoreceiver/parser.go): tags, fields and time stamps
  that are no such thing, which of several errors is reported, and what a payload with a bad line gives.
  */
module LineErrors {
  import opened Octets
  import opened Text
  import opened LineScan
  import opened LineProtocol
  import opened LineRoundTrip

  // ---------------------------------------------------------------- tags and fields

  /** Without an equals sign there is no tag and no field. */
  lemma NoEquals(s: Bytes, floats: Bytes -> bool)
    requires EQUALS !in s
    ensures ParseTag(s) == Err(MissingEquals) && ParseField(s, floats) == Err(MissingEquals)
  {
    hide Unescape, ParseValue;
  }

  /** Without a name in front of it there is none either. */
  lemma NoName(value: Bytes, floats: Bytes -> bool)
    ensures ParseTag([EQUALS] + value) == Err(EmptyKey) && ParseField([EQUALS] + value, floats) == Err(EmptyKey)
  {
    hide ParseValue;
    var s := [EQUALS] + value;
    assert s[..0] == [];
  }

  /** A tag may be empty, a field may not. */
  lemma NoValue(name: Bytes, floats: Bytes -> bool)
    requires name != [] && !OddQuotes(name)
    ensures ParseTag(Escape(name, false) + [EQUALS]) == Ok((name, []))
    ensures ParseField(Escape(name, false) + [EQUALS], floats) == Err(EmptyValue)
  {
    hide Escape, Unescape, FirstTop, OddQuotes;
    var k := Escape(name, false);
    assert k + [EQUALS] + [] == k + [EQUALS];
    EscapeInert(name, EQUALS, false);
    EscapeInert(name, EQUALS, true);
    FoundBehind(k, EQUALS, [], false);
    FoundBehind(k, EQUALS, [], true);
    UnescapeEscape(name, false);
    UnescapeNothing();
  }

  lemma UnescapeNothing()
    ensures Unescape([], false) == []
  {
  }

  /** A string that is not closed, whatever it holds. */
  lemma OpenString(s: Bytes, floats: Bytes -> bool)
    requires s == [] || s[|s| - 1] != QUOTE
    ensures ParseValue([QUOTE] + s, floats) == Err(UnterminatedString)
  {
    hide Unescape;
  }

  /** A text that is no string, number or truth value. */
  lemma NoSuchValue(s: Bytes, floats: Bytes -> bool)
    requires s != [] && s[0] != QUOTE && !floats(s) && s !in Spellings(true) && s !in Spellings(false)
    requires s[|s| - 1] !in Ascii("iIuU")
    ensures ParseValue(s, floats) == Err(BadValue)
  {
    hide ParseInt, ParseUint, Spellings, Unescape;
    SpellingsAre();
    assert Ascii("iIuU") == [105, 73, 117, 85];
  }

  /** The first bad tag is the one reported. */
  lemma {:induction false} FirstBadTag(parts: seq<Bytes>, k: nat, tags: map<Bytes, Bytes>)
    requires k < |parts| && parts[k] != [] && ParseTag(parts[k]).Err?
    requires forall i :: 0 <= i < k ==> parts[i] == [] || ParseTag(parts[i]).Ok?
    ensures TagsFrom(parts, tags) == Err(ParseTag(parts[k]).error)
    decreases k
  {
    hide ParseTag;
    if k > 0 {
      var rest := parts[1..];
      assert forall i :: 0 <= i < k ==> rest[i] == parts[i + 1];
      var next := if parts[0] == [] then tags
                  else tags[ParseTag(parts[0]).value.0 := ParseTag(parts[0]).value.1];
      FirstBadTag(rest, k - 1, next);
    }
  }

  /** So is the first bad field. */
  lemma {:induction false} FirstBadField(parts: seq<Bytes>, k: nat, fields: map<Bytes, Value>, floats: Bytes -> bool)
    requires k < |parts| && parts[k] != [] && ParseField(parts[k], floats).Err?
    requires forall i :: 0 <= i < k ==> parts[i] == [] || ParseField(parts[i], floats).Ok?
    ensures FieldsFrom(parts, fields, floats) == Err(ParseField(parts[k], floats).error)
    decreases k
  {
    hide ParseField;
    if k > 0 {
      var rest := parts[1..];
      assert forall i :: 0 <= i < k ==> rest[i] == parts[i + 1];
      var next := if parts[0] == [] then fields
                  else fields[ParseField(parts[0], floats).value.0 := ParseField(parts[0], floats).value.1];
      FirstBadField(rest, k - 1, next, floats);
    }
  }

  // ---------------------------------------------------------------- parts that are missing

  function Commas(n: nat): Bytes {
    seq(n, _ => COMMA)
  }

  lemma {:induction false} CommasSplit(n: nat, floats: Bytes -> bool)
    ensures !EndsOpen(Commas(n), true, false)
    ensures FieldsFrom(SplitTop(Commas(n), COMMA, true, false), map[], floats) == Ok(map[])
  {
    var s := Commas(n);
    if n > 0 {
      assert s[1..] == Commas(n - 1);
      CommasSplit(n - 1, floats);
      var more := SplitTop(s[1..], COMMA, true, false);
      assert ([[]] + more)[1..] == more;
    } else {
      var none: seq<Bytes> := [[]];
      assert none[1..] == [];
    }
  }

  /** A field set of commas, or of nothing, holds no fields. */
  lemma NoFieldsAtAll(n: nat, floats: Bytes -> bool)
    ensures ParseFields(Commas(n), floats) == Err(NoFields)
  {
    hide SplitTop, FieldsFrom, EndsOpen;
    CommasSplit(n, floats);
  }

  /** A comma in front leaves no measurement. */
  lemma NoMeasurement(tags: Bytes)
    ensures ParseKey([COMMA] + tags) == Err(EmptyMeasurement)
  {
    var s := [COMMA] + tags;
    assert s[1..] == tags;
  }

  /** A time stamp is a decimal number, with white space around it; anything else is an error, nothing at all is 0. */
  lemma TimestampIff(n: int)
    ensures ParseTimestamp([]) == Ok(0)
    ensures ParseTimestamp(Decimal(n)) == ParseTimestamp([SPACE] + Decimal(n))
    ensures ParseTimestamp(Decimal(n)) == if MIN64 <= n <= MAX64 then Ok(n) else Err(BadTimestamp)
  {
    hide ParseInt, Decimal, TrimSpace;
    var t := Decimal(n);
    DecimalIff(n);
    DecimalFront(n);
    TrimSpaceGraphic(t);
    TrimSpaceLead(t);
    TrimSpaceGraphic([]);
  }

  lemma DecimalFront(n: int)
    ensures var t := Decimal(n); t != [] && Graphic(t[0]) && Graphic(t[|t| - 1])
  {
    hide Itoa;
  }

  /** A time stamp with anything but digits behind its first character. */
  lemma BadTimestamps(s: Bytes, i: nat)
    requires i < |s| && !Digit(s[i]) && (i > 0 || s[0] !in [MINUS, PLUS])
    requires TrimSpace(s) == s
    ensures ParseTimestamp(s) == Err(BadTimestamp)
  {
    hide TrimSpace, DigitsValue;
    if s[0] == MINUS || s[0] == PLUS { assert s[1..][i - 1] == s[i]; }
  }

  // ---------------------------------------------------------------- payloads with a bad line

  lemma {:induction false} LinesUpTo(es: seq<Entry>, rest: seq<Bytes>, k: nat, precision: Precision,
                                     floats: Bytes -> bool)
    requires forall i :: 0 <= i < |es| ==> LegalEntry(es[i], floats)
    ensures ParseLines(Texts(es) + rest, k, precision, floats) ==
            Before(Expected(es, precision), ParseLines(rest, k + |es|, precision, floats))
    decreases |es|
  {
    hide RecordText, Scaled, PointOf, ParseLine, TrimSpace, Skipped, Legal;
    if es == [] {
      assert Texts(es) + rest == rest;
      BeforeNone(ParseLines(rest, k, precision, floats));
    } else {
      var lines := Texts(es) + rest;
      assert lines[0] == EntryText(es[0]) && lines[1..] == Texts(es[1..]) + rest;
      LinesUpTo(es[1..], rest, k + 1, precision, floats);
      assert LegalEntry(es[0], floats);
      if es[0].Line? {
        RecordUntrimmed(es[0].record, floats);
        LineReads(es[0].record, floats);
        BeforeMore([Scaled(PointOf(es[0].record), precision)], Expected(es[1..], precision),
                   ParseLines(rest, k + |es|, precision, floats));
      } else {
        assert [] + Expected(es[1..], precision) == Expected(es[1..], precision);
      }
    }
  }

  /**
    A payload with a bad line gives the points of the lines before it, the index of the line, counted over
    comments and blank lines too, and its error; the lines behind it are not read.
    */
  lemma BadLineStops(es: seq<Entry>, bad: Bytes, rest: seq<Bytes>, precision: Precision, floats: Bytes -> bool)
    requires forall i :: 0 <= i < |es| ==> LegalEntry(es[i], floats)
    requires LF !in bad && forall i :: 0 <= i < |rest| ==> LF !in rest[i]
    requires !Skipped(TrimSpace(bad)) && ParseLine(TrimSpace(bad), floats).Err?
    ensures ParseLines(Lines(Join(Texts(es) + [bad] + rest, [LF])), 0, precision, floats) ==
            Outcome(Expected(es, precision), |es|, Some(ParseLine(TrimSpace(bad), floats).error))
  {
    hide LegalEntry, EntryText, Expected, ParseLine, TrimSpace, Split, Join, Skipped;
    var lines := Texts(es) + [bad] + rest;
    forall i | 0 <= i < |lines|
      ensures LF !in lines[i]
    {
      if i < |es| { EntryAvoids(es[i], floats); }
    }
    LinesBack(lines, bad);
    Assoc(Texts(es), [bad], rest);
    LinesUpTo(es, [bad] + rest, 0, precision, floats);
    BadFirst(bad, rest, |es|, precision, floats);
    assert Expected(es, precision) + [] == Expected(es, precision);
  }

  lemma BadFirst(bad: Bytes, rest: seq<Bytes>, k: nat, precision: Precision, floats: Bytes -> bool)
    requires !Skipped(TrimSpace(bad)) && ParseLine(TrimSpace(bad), floats).Err?
    ensures ParseLines([bad] + rest, k, precision, floats) ==
            Outcome([], k, Some(ParseLine(TrimSpace(bad), floats).error))
  {
    hide ParseLine, TrimSpace, Skipped;
  }

  lemma LinesBack(lines: seq<Bytes>, line: Bytes)
    requires line in lines && !Skipped(TrimSpace(line)) && forall i :: 0 <= i < |lines| ==> LF !in lines[i]
    ensures Lines(Join(lines, [LF])) == lines
  {
    hide TrimSpace, Split;
    forall i | 0 <= i < |lines|
      ensures Clean(lines[i], [LF]) && Free(lines[i], [LF])
    {
      WithoutOctet(lines[i], LF);
    }
    SplitJoin(lines, [LF]);
    if Join(lines, [LF]) == [] { OneEmptyLine(lines, line); }
  }

  lemma OneEmptyLine(lines: seq<Bytes>, line: Bytes)
    requires line in lines && Join(lines, [LF]) == []
    ensures Skipped(TrimSpace(line))
  {
    hide TrimSpace;
    assert |lines| == 1 && line == [];
    TrimSpaceGraphic([]);
  }
}
