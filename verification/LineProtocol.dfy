/**
  InfluxDB line protocol (src/lineprotoreceiver/parser.go): escapes, field values, lines and whole
  payloads. The grammar of strconv.ParseFloat is the parameter `floats`, and a float keeps its text.
  */
module LineProtocol {
  import opened Octets
  import opened Text
  import opened LineScan

  const MAX64: int := 0x7FFF_FFFF_FFFF_FFFF
  const MIN64: int := -0x8000_0000_0000_0000
  const HASH: Byte := 35
  const MINUS: Byte := 45
  const PLUS: Byte := 43

  // ---------------------------------------------------------------- escapes

  /** The octets that unescapeLP, or unescapeQuoted, accepts behind a backslash. */
  predicate Escapable(c: Byte, quoted: bool) {
    c == BACKSLASH || (if quoted then c == QUOTE else Separator(c))
  }

  function Unescape(s: Bytes, quoted: bool): Bytes
    decreases |s|
  {
    if s == [] then []
    else if s[0] == BACKSLASH && |s| >= 2 && Escapable(s[1], quoted) then [s[1]] + Unescape(s[2..], quoted)
    else [s[0]] + Unescape(s[1..], quoted)
  }

  /** The fast path of both functions: nothing to do without a backslash. */
  lemma {:induction false} UnescapeIdle(s: Bytes, quoted: bool)
    requires BACKSLASH !in s
    ensures Unescape(s, quoted) == s
  {
    if s == [] {
    } else {
      UnescapeIdle(s[1..], quoted);
      assert [s[0]] + s[1..] == s;
    }
  }

  /** unescapeLP and unescapeQuoted. */
  method UnescapeLoop(s: Bytes, quoted: bool) returns (b: Bytes)
    ensures b == Unescape(s, quoted)
  {
    if BACKSLASH !in s {
      UnescapeIdle(s, quoted);
      return s;
    }
    b := [];
    var i := 0;
    assert s[0..] == s;
    while i < |s|
      invariant i <= |s|
      invariant Unescape(s, quoted) == b + Unescape(s[i..], quoted)
    {
      ghost var t := s[i..];
      var c := s[i];
      if c == BACKSLASH && i + 1 < |s| && Escapable(s[i + 1], quoted) {
        assert t[2..] == s[i + 2..];
        Assoc(b, [s[i + 1]], Unescape(t[2..], quoted));
        b := b + [s[i + 1]];
        i := i + 2;
      } else {
        assert t[1..] == s[i + 1..];
        Assoc(b, [c], Unescape(t[1..], quoted));
        b := b + [c];
        i := i + 1;
      }
    }
    assert s[i..] == [] && b + [] == b;
  }

  /** A backslash in front of any other octet stays, and so does one at the end. */
  lemma BackslashKept(c: Byte, rest: Bytes, quoted: bool)
    requires c !in (if quoted then Ascii("\\\"") else Ascii("\\,= "))
    ensures Unescape([BACKSLASH, c] + rest, quoted) == [BACKSLASH] + Unescape([c] + rest, quoted)
    ensures Unescape([BACKSLASH], quoted) == [BACKSLASH]
  {
    var s := [BACKSLASH, c] + rest;
    var set1 := if quoted then Ascii("\\\"") else Ascii("\\,= ");
    assert set1 == if quoted then [BACKSLASH, QUOTE] else [BACKSLASH, COMMA, EQUALS, SPACE];
    assert s[1..] == [c] + rest;
    assert [BACKSLASH][1..] == [];
  }

  function EscapeOctet(c: Byte, quoted: bool): Bytes {
    if Escapable(c, quoted) then [BACKSLASH, c] else [c]
  }

  /** The standard escaped text of a name, or of the inside of a string. */
  function Escape(s: Bytes, quoted: bool): (t: Bytes)
    ensures |t| >= |s|
  {
    if s == [] then [] else EscapeOctet(s[0], quoted) + Escape(s[1..], quoted)
  }

  lemma {:induction false} UnescapeEscape(s: Bytes, quoted: bool)
    ensures Unescape(Escape(s, quoted), quoted) == s
  {
    if s == [] {
    } else {
      UnescapeEscape(s[1..], quoted);
      var t, rest := Escape(s, quoted), Escape(s[1..], quoted);
      if Escapable(s[0], quoted) {
        assert t[2..] == rest;
      } else {
        assert t[1..] == rest;
      }
      assert [s[0]] + s[1..] == s;
    }
  }

  /** Does the text hold an odd number of quotes? */
  predicate OddQuotes(s: Bytes) {
    s != [] && (s[0] == QUOTE) != OddQuotes(s[1..])
  }

  /** The scans see no separator in an escaped name; each of its quotes opens or closes a string. */
  lemma {:induction false} EscapePasses(s: Bytes, sep: Byte, quotes: bool, open: bool)
    requires Separator(sep)
    ensures Passes(Escape(s, false), sep, quotes, open)
    ensures EndsOpen(Escape(s, false), quotes, open) == (open != (quotes && OddQuotes(s)))
  {
    if s == [] {
    } else {
      hide FirstTop, EndsOpen, Whole;
      var e, rest := EscapeOctet(s[0], false), Escape(s[1..], false);
      OctetPasses(s[0], sep, quotes, open);
      EscapePasses(s[1..], sep, quotes, EndsOpen(e, quotes, open));
      PassOver(e, rest, sep, quotes, open);
      OpenOver(e, rest, quotes, open);
    }
  }

  lemma OctetPasses(c: Byte, sep: Byte, quotes: bool, open: bool)
    requires Separator(sep)
    ensures Passes(EscapeOctet(c, false), sep, quotes, open)
    ensures EndsOpen(EscapeOctet(c, false), quotes, open) == (open != (quotes && c == QUOTE))
  {
    var e := EscapeOctet(c, false);
    if Escapable(c, false) { assert e[2..] == []; } else { assert e[1..] == []; }
  }

  lemma EscapeInert(s: Bytes, sep: Byte, quotes: bool)
    requires Separator(sep) && (quotes ==> !OddQuotes(s))
    ensures Inert(Escape(s, false), sep, quotes)
  {
    EscapePasses(s, sep, quotes, false);
  }

  /** Inside a string nothing but a quote matters, and the quotes are escaped. */
  lemma {:induction false} EscapeInside(s: Bytes, sep: Byte)
    requires Separator(sep)
    ensures Passes(Escape(s, true), sep, true, true) && EndsOpen(Escape(s, true), true, true)
  {
    if s == [] {
    } else {
      EscapeInside(s[1..], sep);
      var e, rest := EscapeOctet(s[0], true), Escape(s[1..], true);
      OctetInside(s[0], sep);
      PassOver(e, rest, sep, true, true);
      OpenOver(e, rest, true, true);
    }
  }

  lemma OctetInside(c: Byte, sep: Byte)
    requires Separator(sep)
    ensures Passes(EscapeOctet(c, true), sep, true, true) && EndsOpen(EscapeOctet(c, true), true, true)
  {
    var e := EscapeOctet(c, true);
    if Escapable(c, true) { assert e[2..] == []; } else { assert e[1..] == []; }
  }

  function Literal(s: Bytes): Bytes {
    [QUOTE] + Escape(s, true) + [QUOTE]
  }

  lemma LiteralInert(s: Bytes, sep: Byte)
    requires Separator(sep)
    ensures Inert(Literal(s), sep, true)
  {
    var e := Escape(s, true);
    EscapeInside(s, sep);
    QuoteTurns(sep, true);
    QuoteTurns(sep, false);
    PassOver(e, [QUOTE], sep, true, true);
    OpenOver(e, [QUOTE], true, true);
    Assoc([QUOTE], e, [QUOTE]);
    PassOver([QUOTE], e + [QUOTE], sep, true, false);
    OpenOver([QUOTE], e + [QUOTE], true, false);
  }

  lemma QuoteTurns(sep: Byte, open: bool)
    ensures Passes([QUOTE], sep, true, open) && EndsOpen([QUOTE], true, open) == !open
  {
    assert [QUOTE][1..] == [];
  }

  // ---------------------------------------------------------------- numbers

  predicate AllDigits(s: Bytes) {
    s != [] && forall i :: 0 <= i < |s| ==> Digit(s[i])
  }

  /** strconv.ParseUint(s, 10, 64). */
  function ParseUint(s: Bytes): Option<nat> {
    if AllDigits(s) && DigitsValue(s) <= 2 * MAX64 + 1 then Some(DigitsValue(s)) else None
  }

  /** strconv.ParseInt(s, 10, 64). */
  function ParseInt(s: Bytes): Option<int> {
    if s == [] then None
    else
      var digits := if s[0] == MINUS || s[0] == PLUS then s[1..] else s;
      if !AllDigits(digits) then None
      else if s[0] == MINUS then (if DigitsValue(digits) <= MAX64 + 1 then Some(0 - DigitsValue(digits)) else None)
      else if DigitsValue(digits) <= MAX64 then Some(DigitsValue(digits)) else None
  }

  function Decimal(n: int): (s: Bytes)
    ensures s != [] && Digit(s[|s| - 1])
    ensures forall i :: 0 <= i < |s| ==> Digit(s[i]) || s[i] == MINUS
  {
    if n < 0 then [MINUS] + Itoa(-n) else Itoa(n)
  }

  lemma ParseDecimal(n: int)
    requires MIN64 <= n <= MAX64
    ensures ParseInt(Decimal(n)) == Some(n)
  {
    if n < 0 {
      ItoaValue(-n);
      assert Decimal(n)[1..] == Itoa(-n);
    } else {
      ItoaValue(n);
    }
  }

  /** Exactly the 64-bit numbers are read. */
  lemma DecimalIff(n: int)
    ensures ParseInt(Decimal(n)) == if -0x8000_0000_0000_0000 <= n < 0x8000_0000_0000_0000 then Some(n) else None
    ensures n >= 0 ==> ParseInt([PLUS] + Decimal(n)) == ParseInt(Decimal(n))
    ensures n >= 0 ==> ParseUint(Decimal(n)) == if n < 0x1_0000_0000_0000_0000 then Some(n) else None
  {
    if n < 0 {
      ItoaValue(-n);
      assert Decimal(n)[1..] == Itoa(-n);
    } else {
      ItoaValue(n);
      assert ([PLUS] + Itoa(n))[1..] == Itoa(n);
    }
  }

  // ---------------------------------------------------------------- field values

  datatype Value = Text(s: Bytes) | Int(n: int) | Bool(b: bool) | Float(text: Bytes)

  datatype LineError =
    | UnterminatedString | EmptyMeasurement | MissingEquals | EmptyKey | EmptyValue | BadInteger | BadValue
    | EmptyFieldSet | NoFields | BadTimestamp

  type Res<+T> = Result<T, LineError>

  const TRUES: seq<Bytes> := [[116], [84], [116, 114, 117, 101], [84, 114, 117, 101], [84, 82, 85, 69]]
  const FALSES: seq<Bytes> :=
    [[102], [70], [102, 97, 108, 115, 101], [70, 97, 108, 115, 101], [70, 65, 76, 83, 69]]

  /** parseFieldValue. An unsigned value too large for int64 becomes the largest int64. */
  function ParseValue(s: Bytes, floats: Bytes -> bool): Res<Value> {
    if s == [] then Err(EmptyValue)
    else
      var last := s[|s| - 1];
      if s[0] == QUOTE then
        if |s| < 2 || last != QUOTE then Err(UnterminatedString) else Ok(Text(Unescape(s[1..|s| - 1], true)))
      else if last == 105 || last == 73 then
        (match ParseInt(s[..|s| - 1])
         case Some(n) => Ok(Int(n))
         case None => Err(BadInteger))
      else if last == 117 || last == 85 then
        (match ParseUint(s[..|s| - 1])
         case Some(n) => Ok(Int(if n > MAX64 then MAX64 else n))
         case None => Err(BadInteger))
      else if s in TRUES then Ok(Bool(true))
      else if s in FALSES then Ok(Bool(false))
      else if floats(s) then Ok(Float(s))
      else Err(BadValue)
  }

  /** A float's text that the tokeniser does not touch and that reads as nothing but a float. */
  predicate FloatText(s: Bytes, floats: Bytes -> bool) {
    && s != [] && floats(s) && s !in TRUES && s !in FALSES
    && s[|s| - 1] !in [105, 73, 117, 85]
    && forall i :: 0 <= i < |s| ==> Graphic(s[i]) && s[i] !in [BACKSLASH, QUOTE, COMMA, EQUALS]
  }

  /** The values that have a line protocol text. */
  predicate Writable(v: Value, floats: Bytes -> bool) {
    match v
    case Text(s) => LF !in s
    case Int(n) => MIN64 <= n <= MAX64
    case Bool(_) => true
    case Float(s) => FloatText(s, floats)
  }

  function ValueText(v: Value): Bytes {
    match v
    case Text(s) => Literal(s)
    case Int(n) => Decimal(n) + [105]
    case Bool(b) => if b then [116, 114, 117, 101] else [102, 97, 108, 115, 101]
    case Float(s) => s
  }

  lemma ValueReads(v: Value, floats: Bytes -> bool)
    requires Writable(v, floats)
    ensures ParseValue(ValueText(v), floats) == Ok(v)
  {
    var t := ValueText(v);
    match v
    case Text(s) =>
      UnescapeEscape(s, true);
      assert t[1..|t| - 1] == Escape(s, true);
    case Int(n) =>
      ParseDecimal(n);
      assert t[..|t| - 1] == Decimal(n);
    case Bool(b) =>
      assert t == (if b then TRUES[2] else FALSES[2]);
      if !b { assert forall x :: x in TRUES ==> |x| < 5; }
    case Float(s) =>
  }

  /** An integer with the suffix i is read when it fits int64. */
  lemma SignedIff(n: int, suffix: Byte, floats: Bytes -> bool)
    requires suffix in Ascii("iI")
    ensures ParseValue(Decimal(n) + [suffix], floats) == if MIN64 <= n <= MAX64 then Ok(Int(n)) else Err(BadInteger)
  {
    hide Decimal, ParseInt, ParseUint, Unescape;
    var t := Decimal(n) + [suffix];
    assert Ascii("iI") == [105, 73];
    DecimalIff(n);
    assert t[..|t| - 1] == Decimal(n) && t[0] == Decimal(n)[0] != QUOTE;
  }

  /** One with the suffix u is read when it fits uint64, cut to the largest int64. */
  lemma UnsignedIff(n: nat, suffix: Byte, floats: Bytes -> bool)
    requires suffix in Ascii("uU")
    ensures ParseValue(Decimal(n) + [suffix], floats) ==
            if n > 2 * MAX64 + 1 then Err(BadInteger) else Ok(Int(if n > MAX64 then MAX64 else n))
  {
    hide Decimal, ParseInt, ParseUint, Unescape;
    var t := Decimal(n) + [suffix];
    assert Ascii("uU") == [117, 85];
    DecimalIff(n);
    assert t[..|t| - 1] == Decimal(n) && t[0] == Decimal(n)[0] != QUOTE;
  }

  /** The spellings of the two truth values. */
  function Spellings(b: bool): seq<Bytes> {
    if b then [Ascii("t"), Ascii("T"), Ascii("true"), Ascii("True"), Ascii("TRUE")]
    else [Ascii("f"), Ascii("F"), Ascii("false"), Ascii("False"), Ascii("FALSE")]
  }

  lemma SpellingsAre()
    ensures Spellings(true) == TRUES && Spellings(false) == FALSES
  {
    assert Ascii("t") == [116] && Ascii("T") == [84] && Ascii("true") == [116, 114, 117, 101];
    assert Ascii("True") == [84, 114, 117, 101] && Ascii("TRUE") == [84, 82, 85, 69];
    assert Ascii("f") == [102] && Ascii("F") == [70] && Ascii("false") == [102, 97, 108, 115, 101];
    assert Ascii("False") == [70, 97, 108, 115, 101] && Ascii("FALSE") == [70, 65, 76, 83, 69];
  }

  /** Exactly these spellings are read as a truth value. */
  lemma BooleanIff(s: Bytes, b: bool, floats: Bytes -> bool)
    ensures ParseValue(s, floats) == Ok(Bool(b)) <==> s in Spellings(b)
  {
    hide ParseInt, ParseUint, Unescape, Spellings;
    SpellingsAre();
  }

  lemma ValueInert(v: Value, floats: Bytes -> bool, sep: Byte)
    requires Writable(v, floats) && Separator(sep)
    ensures Inert(ValueText(v), sep, true)
  {
    if v.Text? {
      LiteralInert(v.s, sep);
    } else {
      OrdinaryIsInert(ValueText(v), sep, true);
    }
  }

  // ---------------------------------------------------------------- one line

  datatype Point = Point(measurement: Bytes, tags: map<Bytes, Bytes>, fields: map<Bytes, Value>, ts: int)

  function ParseTag(raw: Bytes): Res<(Bytes, Bytes)> {
    match FirstTop(raw, EQUALS, false, false)
    case None => Err(MissingEquals)
    case Some(i) =>
      var key := Unescape(raw[..i], false);
      if key == [] then Err(EmptyKey) else Ok((key, Unescape(raw[i + 1..], false)))
  }

  function TagsFrom(parts: seq<Bytes>, tags: map<Bytes, Bytes>): Res<map<Bytes, Bytes>> {
    if parts == [] then Ok(tags)
    else if parts[0] == [] then TagsFrom(parts[1..], tags)
    else
      match ParseTag(parts[0])
      case Err(e) => Err(e)
      case Ok((key, value)) => TagsFrom(parts[1..], tags[key := value])
  }

  function ParseField(raw: Bytes, floats: Bytes -> bool): Res<(Bytes, Value)> {
    match FirstTop(raw, EQUALS, true, false)
    case None => Err(MissingEquals)
    case Some(i) =>
      var key := Unescape(raw[..i], false);
      if key == [] then Err(EmptyKey)
      else
        match ParseValue(raw[i + 1..], floats)
        case Err(e) => Err(e)
        case Ok(v) => Ok((key, v))
  }

  function FieldsFrom(parts: seq<Bytes>, fields: map<Bytes, Value>, floats: Bytes -> bool): Res<map<Bytes, Value>> {
    if parts == [] then Ok(fields)
    else if parts[0] == [] then FieldsFrom(parts[1..], fields, floats)
    else
      match ParseField(parts[0], floats)
      case Err(e) => Err(e)
      case Ok((key, value)) => FieldsFrom(parts[1..], fields[key := value], floats)
  }

  /** parseMeasurementAndTags. */
  function ParseKey(s: Bytes): Res<(Bytes, map<Bytes, Bytes>)> {
    var parts := SplitTop(s, COMMA, false, false);
    if parts[0] == [] then Err(EmptyMeasurement)
    else
      match TagsFrom(parts[1..], map[])
      case Err(e) => Err(e)
      case Ok(tags) => Ok((Unescape(parts[0], false), tags))
  }

  /** parseFieldSet, and the test for an empty one. */
  function ParseFields(s: Bytes, floats: Bytes -> bool): Res<map<Bytes, Value>> {
    if EndsOpen(s, true, false) then Err(UnterminatedString)
    else
      match FieldsFrom(SplitTop(s, COMMA, true, false), map[], floats)
      case Err(e) => Err(e)
      case Ok(fields) => if fields == map[] then Err(NoFields) else Ok(fields)
  }

  function ParseTimestamp(s: Bytes): Res<int> {
    var t := TrimSpace(s);
    if t == [] then Ok(0)
    else
      match ParseInt(t)
      case None => Err(BadTimestamp)
      case Some(n) => Ok(n)
  }

  /** parseSingleLine: the errors come in the order of the parts. */
  function ParseLine(line: Bytes, floats: Bytes -> bool): Res<Point> {
    match CutAtSpace(line)
    case Unterminated => Err(UnterminatedString)
    case Halves(key, rest) =>
      if key == [] then Err(EmptyMeasurement)
      else
        match ParseKey(key)
        case Err(e) => Err(e)
        case Ok((measurement, tags)) => ParseRest(measurement, tags, rest, floats)
  }

  function ParseRest(measurement: Bytes, tags: map<Bytes, Bytes>, rest: Bytes, floats: Bytes -> bool): Res<Point> {
    match CutAtSpace(rest)
    case Unterminated => Err(UnterminatedString)
    case Halves(fieldPart, tsPart) =>
      if fieldPart == [] then Err(EmptyFieldSet)
      else
        match ParseFields(fieldPart, floats)
        case Err(e) => Err(e)
        case Ok(fields) =>
          match ParseTimestamp(tsPart)
          case Err(e) => Err(e)
          case Ok(ts) => Ok(Point(measurement, tags, fields, ts))
  }

  lemma {:induction false} NeverOpen(s: Bytes)
    ensures !EndsOpen(s, false, false)
    decreases |s|
  {
    if s == [] {
    } else {
      if s[0] == BACKSLASH && |s| > 1 { NeverOpen(s[2..]); } else { NeverOpen(s[1..]); }
    }
  }

  /** parseMeasurementAndTags. */
  method ParseMeasurementAndTags(s: Bytes) returns (r: Res<(Bytes, map<Bytes, Bytes>)>)
    ensures r == ParseKey(s)
  {
    NeverOpen(s);
    var pieces := SplitPieces(s, COMMA, false);
    var parts := pieces.value;
    if parts[0] == [] { return Err(EmptyMeasurement); }
    var measurement := UnescapeLoop(parts[0], false);
    var tags: map<Bytes, Bytes> := map[];
    var i := 1;
    while i < |parts|
      invariant 1 <= i <= |parts|
      invariant TagsFrom(parts[1..], map[]) == TagsFrom(parts[i..], tags)
    {
      var raw := parts[i];
      assert parts[i..][1..] == parts[i + 1..];
      if raw != [] {
        var eq := FindEquals(raw, false);
        if eq.None? { return Err(MissingEquals); }
        var key := UnescapeLoop(raw[..eq.value], false);
        if key == [] { return Err(EmptyKey); }
        var value := UnescapeLoop(raw[eq.value + 1..], false);
        tags := tags[key := value];
      }
      i := i + 1;
    }
    r := Ok((measurement, tags));
  }

  /** parseFieldSet. */
  method ParseFieldSet(s: Bytes, floats: Bytes -> bool) returns (r: Res<map<Bytes, Value>>)
    ensures r == ParseFields(s, floats)
  {
    var pieces := SplitPieces(s, COMMA, true);
    if pieces.None? { return Err(UnterminatedString); }
    var parts := pieces.value;
    var fields: map<Bytes, Value> := map[];
    var i := 0;
    assert parts[0..] == parts;
    while i < |parts|
      invariant i <= |parts|
      invariant FieldsFrom(parts, map[], floats) == FieldsFrom(parts[i..], fields, floats)
    {
      var raw := parts[i];
      assert parts[i..][1..] == parts[i + 1..];
      if raw != [] {
        var eq := FindEquals(raw, true);
        if eq.None? { return Err(MissingEquals); }
        var key := UnescapeLoop(raw[..eq.value], false);
        if key == [] { return Err(EmptyKey); }
        var value := ParseValue(raw[eq.value + 1..], floats);
        if value.Err? { return Err(value.error); }
        fields := fields[key := value.value];
      }
      i := i + 1;
    }
    assert parts[i..] == [];
    r := if fields == map[] then Err(NoFields) else Ok(fields);
  }

  /** parseSingleLine fills the point step by step. */
  method ParseSingleLine(line: Bytes, floats: Bytes -> bool) returns (r: Res<Point>)
    ensures r == ParseLine(line, floats)
  {
    var point := Point([], map[], map[], 0);
    var first := SplitAtUnescapedSpace(line);
    if first.Unterminated? { return Err(UnterminatedString); }
    if first.before == [] { return Err(EmptyMeasurement); }
    var key := ParseMeasurementAndTags(first.before);
    if key.Err? { return Err(key.error); }
    point := point.(measurement := key.value.0, tags := key.value.1);
    var second := SplitAtUnescapedSpace(first.after);
    if second.Unterminated? { return Err(UnterminatedString); }
    if second.before == [] { return Err(EmptyFieldSet); }
    var fields := ParseFieldSet(second.before, floats);
    if fields.Err? { return Err(fields.error); }
    point := point.(fields := fields.value);
    var tsPart := TrimSpace(second.after);
    if tsPart != [] {
      var ts := ParseInt(tsPart);
      if ts.None? { return Err(BadTimestamp); }
      point := point.(ts := ts.value);
    }
    r := Ok(point);
  }

  // ---------------------------------------------------------------- the payload

  datatype Precision = Nanoseconds | Microseconds | Milliseconds | Seconds

  /** precisionMultiplier. */
  function Multiplier(p: Precision): (m: int)
    ensures m * (match p case Nanoseconds => 1_000_000_000 case Microseconds => 1_000_000
                         case Milliseconds => 1_000 case Seconds => 1) == 1_000_000_000
  {
    match p
    case Seconds => 1_000_000_000
    case Milliseconds => 1_000_000
    case Microseconds => 1_000
    case Nanoseconds => 1
  }

  /** Two's complement int64. */
  function Wrap64(n: int): (w: int)
    ensures MIN64 <= w <= MAX64 && (w - n) % 0x1_0000_0000_0000_0000 == 0
    ensures MIN64 <= n <= MAX64 ==> w == n
  {
    (n - MIN64) % 0x1_0000_0000_0000_0000 + MIN64
  }

  function Scaled(p: Point, precision: Precision): Point {
    if p.ts == 0 then p else p.(ts := Wrap64(p.ts * Multiplier(precision)))
  }

  /** A time stamp becomes nanoseconds, cut to 64 bits; where it fits it is exact. Nothing else changes. */
  lemma ScaledIs(p: Point, precision: Precision)
    ensures var unit := match precision case Nanoseconds => 1 case Microseconds => 1_000
                                        case Milliseconds => 1_000_000 case Seconds => 1_000_000_000;
            var q := Scaled(p, precision);
            && q.(ts := p.ts) == p
            && MIN64 <= q.ts <= MAX64 && (q.ts - p.ts * unit) % 0x1_0000_0000_0000_0000 == 0
            && (MIN64 <= p.ts * unit <= MAX64 ==> q.ts == p.ts * unit)
  {
    hide Wrap64;
  }

  /** The points parsed, the index of the line at fault or -1, and its error. */
  datatype Outcome = Outcome(points: seq<Point>, bad: int, error: Option<LineError>)

  function Before(points: seq<Point>, r: Outcome): Outcome {
    r.(points := points + r.points)
  }

  predicate Skipped(line: Bytes) {
    line == [] || line[0] == HASH
  }

  function ParseLines(lines: seq<Bytes>, index: nat, precision: Precision, floats: Bytes -> bool): Outcome {
    if lines == [] then Outcome([], -1, None)
    else
      var line := TrimSpace(lines[0]);
      if Skipped(line) then ParseLines(lines[1..], index + 1, precision, floats)
      else
        match ParseLine(line, floats)
        case Err(e) => Outcome([], index, Some(e))
        case Ok(p) => Before([Scaled(p, precision)], ParseLines(lines[1..], index + 1, precision, floats))
  }

  /** splitLines. */
  function Lines(data: Bytes): seq<Bytes> {
    if data == [] then [] else Split(data, [LF])
  }

  /** ParseLineProtocol. */
  method ParseLineProtocol(data: Bytes, precision: Precision, floats: Bytes -> bool) returns (r: Outcome)
    ensures r == ParseLines(Lines(data), 0, precision, floats)
  {
    var lines := Lines(data);
    var points: seq<Point> := [];
    var i := 0;
    assert lines[0..] == lines;
    BeforeNone(ParseLines(lines, 0, precision, floats));
    while i < |lines|
      invariant i <= |lines|
      invariant ParseLines(lines, 0, precision, floats) ==
                Before(points, ParseLines(lines[i..], i, precision, floats))
    {
      var line := TrimSpace(lines[i]);
      assert lines[i..][1..] == lines[i + 1..];
      if !Skipped(line) {
        var p := ParseSingleLine(line, floats);
        if p.Err? {
          assert points + [] == points;
          return Outcome(points, i, Some(p.error));
        }
        BeforeMore(points, [Scaled(p.value, precision)], ParseLines(lines[i + 1..], i + 1, precision, floats));
        points := points + [Scaled(p.value, precision)];
      }
      i := i + 1;
    }
    assert lines[i..] == [] && points + [] == points;
    r := Outcome(points, -1, None);
  }

  lemma BeforeNone(r: Outcome)
    ensures Before([], r) == r
  {
    assert [] + r.points == r.points;
  }

  lemma BeforeMore(a: seq<Point>, b: seq<Point>, r: Outcome)
    ensures Before(a, Before(b, r)) == Before(a + b, r)
  {
    Assoc(a, b, r.points);
  }
}
