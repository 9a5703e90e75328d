/**
  SIP and MIME entities as text: the header block, the blank line, the body
  (src/isup/preserve.go, splitSIP and the header helpers).

  The codecs rewrite one header and the body and later split the result again. The lemmas here say
  when the second split finds the same place.
  */
module SipText {
  import opened Octets
  import opened Text

  const CRLF: Bytes := [13, 10]
  const NL: Bytes := [10]
  const CRLF2: Bytes := [13, 10, 13, 10]
  const NL2: Bytes := [10, 10]

  /** "Content-Type" */
  const CONTENT_TYPE: Bytes := [67, 111, 110, 116, 101, 110, 116, 45, 84, 121, 112, 101]
  /** "Content-Length" */
  const CONTENT_LENGTH: Bytes := [67, 111, 110, 116, 101, 110, 116, 45, 76, 101, 110, 103, 116, 104]
  /** "X-Homer-Binary-Body" */
  const BINARY_BODY: Bytes :=
    [88, 45, 72, 111, 109, 101, 114, 45, 66, 105, 110, 97, 114, 121, 45, 66, 111, 100, 121]

  /** An entity cut at its first blank line; `nl` is the newline that was found. */
  datatype Entity = Entity(headers: Bytes, nl: Bytes, body: Bytes)

  function Unsplit(e: Entity): Bytes {
    e.headers + e.nl + e.nl + e.body
  }

  /** splitSIP: CR LF CR LF wins over LF LF wherever it stands. */
  function SplitSip(payload: Bytes): (r: Option<Entity>)
    ensures r.Some? ==> r.value.nl == CRLF || r.value.nl == NL
  {
    var i := Index(payload, CRLF2);
    if i >= 0 then Some(Entity(payload[..i], CRLF, payload[i + 4..]))
    else
      var j := Index(payload, NL2);
      if j >= 0 then Some(Entity(payload[..j], NL, payload[j + 2..])) else None
  }

  /** The blank line that ends a header block. */
  function Blank(nl: Bytes): Bytes {
    nl + nl
  }

  /** What splitSIP establishes about the entity it returns. */
  ghost predicate CutAtBlank(e: Entity) {
    && (e.nl == CRLF || e.nl == NL)
    && Clean(e.headers, Blank(e.nl))
    && (e.nl == NL ==> Free(Unsplit(e), CRLF2))
  }

  lemma SplitSipGives(payload: Bytes)
    requires SplitSip(payload).Some?
    ensures CutAtBlank(SplitSip(payload).value) && Unsplit(SplitSip(payload).value) == payload
  {
    assert Blank(CRLF) == CRLF2 && Blank(NL) == NL2;
    var e := SplitSip(payload).value;
    assert Unsplit(e) == e.headers + Blank(e.nl) + e.body;
    if Index(payload, CRLF2) >= 0 {
      IndexClean(payload, CRLF2);
    } else {
      IndexClean(payload, NL2);
    }
  }

  lemma SplitSipFinds(e: Entity)
    requires CutAtBlank(e)
    ensures SplitSip(Unsplit(e)) == Some(e)
  {
    assert Blank(CRLF) == CRLF2 && Blank(NL) == NL2;
    var p := Unsplit(e);
    assert p == e.headers + Blank(e.nl) + e.body;
    CleanIndex(e.headers, Blank(e.nl), e.body);
    assert p[..|e.headers|] == e.headers;
    assert p[|e.headers| + |Blank(e.nl)|..] == e.body;
  }

  // ---------------------------------------------------------------- header lines

  datatype Header = Header(name: Bytes, value: Bytes)

  /** splitHeaderLine: continuation lines and lines without a name are no headers. */
  function SplitHeaderLine(line: Bytes): Option<Header> {
    if line == [] || line[0] == SPACE || line[0] == TAB then None
    else
      var i := Index(line, [COLON]);
      if i <= 0 then None
      else Some(Header(TrimSpace(line[..i]), TrimSpace(line[i + 1..])))
  }

  /** headerNamesMatch: also the compact forms "c" and "l" of RFC 3261, section 7.3.3. */
  predicate NamesMatch(got: Bytes, want: Bytes) {
    || EqualFold(got, want)
    || (want == CONTENT_TYPE && EqualFold(got, [99]))
    || (want == CONTENT_LENGTH && EqualFold(got, [108]))
  }

  predicate IsHeader(line: Bytes, name: Bytes) {
    var h := SplitHeaderLine(line);
    h.Some? && NamesMatch(h.value.name, name)
  }

  function LineValue(line: Bytes): Bytes
    requires SplitHeaderLine(line).Some?
  {
    SplitHeaderLine(line).value.value
  }

  /** The value of the first line that carries the header. */
  function FirstValue(lines: seq<Bytes>, name: Bytes): Option<Bytes> {
    if lines == [] then None
    else if IsHeader(lines[0], name) then Some(LineValue(lines[0]))
    else FirstValue(lines[1..], name)
  }

  /** headerValue. */
  function HeaderValue(headers: Bytes, nl: Bytes, name: Bytes): Option<Bytes>
    requires nl != []
  {
    FirstValue(Split(headers, nl), name)
  }

  function ReplaceLine(line: Bytes, name: Bytes, value: Bytes): Bytes {
    if IsHeader(line, name) then SplitHeaderLine(line).value.name + [COLON, SPACE] + value else line
  }

  function ReplaceLines(lines: seq<Bytes>, name: Bytes, value: Bytes): (r: seq<Bytes>)
    ensures |r| == |lines|
    ensures forall i :: 0 <= i < |r| ==> r[i] == ReplaceLine(lines[i], name, value)
  {
    seq(|lines|, i requires 0 <= i < |lines| => ReplaceLine(lines[i], name, value))
  }

  /** What replaceHeaderValue returns. */
  function ReplaceHeader(headers: Bytes, nl: Bytes, name: Bytes, value: Bytes): Bytes
    requires nl != []
  {
    Join(ReplaceLines(Split(headers, nl), name, value), nl)
  }

  function RemoveLines(lines: seq<Bytes>, name: Bytes): seq<Bytes> {
    if lines == [] then []
    else (if IsHeader(lines[0], name) then [] else [lines[0]]) + RemoveLines(lines[1..], name)
  }

  /** What removeHeader returns. */
  function RemoveHeader(headers: Bytes, nl: Bytes, name: Bytes): Bytes
    requires nl != []
  {
    Join(RemoveLines(Split(headers, nl), name), nl)
  }

  /** replaceHeaderValue, line by line over the split header block. */
  method ReplaceHeaderValue(headers: Bytes, nl: Bytes, name: Bytes, value: Bytes)
    returns (r: Bytes, found: bool)
    requires nl != []
    ensures r == ReplaceHeader(headers, nl, name, value)
    ensures found <==> HeaderValue(headers, nl, name).Some?
  {
    hide Split, Join, SplitHeaderLine, ReplaceLines, FirstValue;
    var split := Split(headers, nl);
    var lines := split;
    found := false;
    ghost var at := 0;
    for i := 0 to |split|
      invariant |lines| == |split|
      invariant forall k :: 0 <= k < i ==> lines[k] == ReplaceLine(split[k], name, value)
      invariant forall k :: i <= k < |split| ==> lines[k] == split[k]
      invariant found ==> 0 <= at < |split| && IsHeader(split[at], name)
      invariant !found ==> forall k :: 0 <= k < i ==> !IsHeader(split[k], name)
    {
      var line := split[i];
      if IsHeader(line, name) {
        lines := lines[i := SplitHeaderLine(line).value.name + [COLON, SPACE] + value];
        assert lines[i] == ReplaceLine(line, name, value);
        found, at := true, i;
      }
    }
    FirstValueFinds(split, name);
    assert lines == ReplaceLines(split, name, value);
    JoinSplit(headers, nl);
    if !found {
      assert lines == split;
      return headers, false;
    }
    r := Join(lines, nl);
  }

  /** removeHeader, copying the lines that stay. */
  method RemoveHeaderLines(headers: Bytes, nl: Bytes, name: Bytes) returns (r: Bytes)
    requires nl != []
    ensures r == RemoveHeader(headers, nl, name)
  {
    var lines := Split(headers, nl);
    var out: seq<Bytes> := [];
    assert lines[0..] == lines;
    for i := 0 to |lines|
      invariant out + RemoveLines(lines[i..], name) == RemoveLines(lines, name)
    {
      RemoveLinesAt(lines, i, name);
      if !IsHeader(lines[i], name) {
        Assoc(out, [lines[i]], RemoveLines(lines[i + 1..], name));
        out := out + [lines[i]];
      }
    }
    assert out + [] == out;
    r := Join(out, nl);
  }

  lemma RemoveLinesAt(lines: seq<Bytes>, i: nat, name: Bytes)
    requires i < |lines|
    ensures RemoveLines(lines[i..], name) ==
            if IsHeader(lines[i], name) then RemoveLines(lines[i + 1..], name)
            else [lines[i]] + RemoveLines(lines[i + 1..], name)
  {
    assert lines[i..][1..] == lines[i + 1..];
  }

  lemma {:induction false} FirstValueFinds(lines: seq<Bytes>, name: Bytes)
    ensures FirstValue(lines, name).Some? <==> exists k :: 0 <= k < |lines| && IsHeader(lines[k], name)
  {
    if lines == [] {
    } else {
      FirstValueFinds(lines[1..], name);
      if k :| 0 <= k < |lines| && IsHeader(lines[k], name) {
        if k > 0 { assert IsHeader(lines[1..][k - 1], name); }
      }
      if k :| 0 <= k < |lines[1..]| && IsHeader(lines[1..][k], name) {
        assert IsHeader(lines[k + 1], name);
      }
    }
  }

  // ---------------------------------------------------------------- what a header line is

  /** The names that are looked for, in any case; two of them have a compact form of one letter. */
  lemma HeaderNames(got: Bytes)
    ensures NamesMatch(got, CONTENT_TYPE) <==> ToLower(got) in [Ascii("content-type"), Ascii("c")]
    ensures NamesMatch(got, CONTENT_LENGTH) <==> ToLower(got) in [Ascii("content-length"), Ascii("l")]
    ensures NamesMatch(got, BINARY_BODY) <==> ToLower(got) == Ascii("x-homer-binary-body")
  {
    hide ToLower, Ascii;
    SmallNames();
    assert |CONTENT_TYPE| == 12 && |CONTENT_LENGTH| == 14 && |BINARY_BODY| == 19;
  }

  lemma SmallNames()
    ensures ToLower(CONTENT_TYPE) == Ascii("content-type") && ToLower([99]) == Ascii("c")
    ensures ToLower(CONTENT_LENGTH) == Ascii("content-length") && ToLower([108]) == Ascii("l")
    ensures ToLower(BINARY_BODY) == Ascii("x-homer-binary-body")
  {
  }

  /** A header is a name, a colon and a value, white space around both left out; the first colon counts. */
  lemma HeaderSplits(name: Bytes, value: Bytes)
    requires name != [] && name[0] != SPACE && name[0] != TAB && COLON !in name
    ensures SplitHeaderLine(name + [COLON] + value) == Some(Header(TrimSpace(name), TrimSpace(value)))
  {
    hide TrimSpace, Clean;
    var line := name + [COLON] + value;
    WithoutOctet(name, COLON);
    CleanIndex(name, [COLON], value);
    assert line[..|name|] == name && line[|name| + 1..] == value && line[0] == name[0];
  }

  /** Every other line is none: a continuation, a line without a name, or one without a colon. */
  lemma NoHeader(line: Bytes)
    requires line == [] || line[0] in [SPACE, TAB, COLON] || COLON !in line
    ensures SplitHeaderLine(line) == None
  {
    if line != [] {
      if COLON !in line {
        WithoutOctet(line, COLON);
      } else {
        assert At(line, [COLON], 0) <==> line[0] == COLON;
      }
    }
  }

  /** The first line that carries the header gives its value. */
  lemma {:induction false} FirstLineCounts(lines: seq<Bytes>, k: nat, name: Bytes)
    requires k < |lines| && IsHeader(lines[k], name) && forall i :: 0 <= i < k ==> !IsHeader(lines[i], name)
    ensures FirstValue(lines, name) == Some(LineValue(lines[k]))
  {
    hide IsHeader, LineValue;
    if k > 0 {
      assert forall i :: 0 <= i < k - 1 ==> lines[1..][i] == lines[i + 1];
      FirstLineCounts(lines[1..], k - 1, name);
    }
  }

  // ---------------------------------------------------------------- the shape of a rewritten line

  /** A name that matches one of the rewritten headers is a short run of letters and dashes. */
  lemma NameShape(h: Bytes, name: Bytes)
    requires name == CONTENT_LENGTH && NamesMatch(h, name)
    ensures h != [] && forall i :: 0 <= i < |h| ==> 65 <= Lower(h[i]) - 32 <= 90 || (i == 7 && h[i] == DASH)
    ensures !NamesMatch(h, CONTENT_TYPE) && !NamesMatch(h, BINARY_BODY)
  {
    var t := ToLower(h);
    var w := ToLower(CONTENT_LENGTH);
    assert |CONTENT_LENGTH| == 14;
    assert |ToLower(CONTENT_TYPE)| == 12 && |ToLower(BINARY_BODY)| == 19;
    assert ToLower([99])[0] == 99 && ToLower([108])[0] == 108;
    assert forall i :: 0 <= i < 14 ==> w[i] == Lower(CONTENT_LENGTH[i]);
    if EqualFold(h, CONTENT_LENGTH) {
      forall i | 0 <= i < |h| ensures 65 <= Lower(h[i]) - 32 <= 90 || (i == 7 && h[i] == DASH) {
        assert t[i] == w[i];
      }
    } else {
      assert t[0] == 108;
    }
  }

  /** A line the codecs write: printable ASCII without two dashes in a row. */
  ghost predicate Plain(line: Bytes) {
    && line != []
    && (forall i :: 0 <= i < |line| ==> SPACE <= line[i] <= 126)
    && (forall i :: 0 <= i < |line| - 1 ==> line[i] != DASH || line[i + 1] != DASH)
  }

  ghost predicate Decimal(value: Bytes) {
    value != [] && forall i :: 0 <= i < |value| ==> Digit(value[i])
  }

  lemma WrittenPlain(h: Bytes, value: Bytes)
    requires NamesMatch(h, CONTENT_LENGTH) && Decimal(value)
    ensures Plain(h + [COLON, SPACE] + value)
  {
    NameShape(h, CONTENT_LENGTH);
    var line := h + [COLON, SPACE] + value;
    forall i | 0 <= i < |line| - 1 ensures line[i] != DASH || line[i + 1] != DASH {
      if i + 1 < |h| { assert line[i] == h[i] && line[i + 1] == h[i + 1]; }
    }
  }

  lemma WrittenLine(h: Bytes, value: Bytes)
    requires NamesMatch(h, CONTENT_LENGTH)
    ensures SplitHeaderLine(h + [COLON, SPACE] + value).Some?
    ensures SplitHeaderLine(h + [COLON, SPACE] + value).value.name == h
  {
    NameShape(h, CONTENT_LENGTH);
    var line := h + [COLON, SPACE] + value;
    assert line == h + [COLON] + ([SPACE] + value);
    assert Clean(h, [COLON]) by {
      forall i | i < |h| ensures !At(h + [COLON], [COLON], i) {
        if At(h + [COLON], [COLON], i) { AtCovers(h + [COLON], [COLON], i, i); }
      }
    }
    CleanIndex(h, [COLON], [SPACE] + value);
    assert line[..|h|] == h;
    TrimSpaceGraphic(h);
  }

  /** A rewritten Content-Length line is still that header, and no other the codecs read. */
  lemma Rewritten(line: Bytes, v: Bytes, w: Bytes)
    requires Decimal(v)
    ensures var r := ReplaceLine(line, CONTENT_LENGTH, v);
            && (r == line || Plain(r))
            && (IsHeader(line, CONTENT_LENGTH) ==> Plain(r))
            && ReplaceLine(r, CONTENT_LENGTH, w) == ReplaceLine(line, CONTENT_LENGTH, w)
            && IsHeader(r, CONTENT_TYPE) == IsHeader(line, CONTENT_TYPE)
            && IsHeader(r, BINARY_BODY) == IsHeader(line, BINARY_BODY)
            && (IsHeader(line, CONTENT_TYPE) || IsHeader(line, BINARY_BODY) ==> r == line)
  {
    if IsHeader(line, CONTENT_LENGTH) {
      var h := SplitHeaderLine(line).value.name;
      NameShape(h, CONTENT_LENGTH);
      WrittenPlain(h, v);
      WrittenLine(h, v);
    }
  }

  // ---------------------------------------------------------------- header blocks as lines

  ghost predicate Newline(nl: Bytes) {
    nl == CRLF || nl == NL
  }

  ghost predicate Lines(ls: seq<Bytes>, nl: Bytes) {
    |ls| >= 1 && forall i :: 0 <= i < |ls| ==> Free(ls[i], nl)
  }

  lemma LineIsClean(l: Bytes, nl: Bytes)
    requires Newline(nl)
    ensures Free(l, nl) <==> Clean(l, nl)
  {
    if Clean(l, nl) { CleanIsFree(l, nl); }
    if Free(l, nl) {
      forall i | i < |l| ensures !At(l + nl, nl, i) {
        if i + |nl| <= |l| {
          AtLeft(l, nl, nl, i);
        } else if At(l + nl, nl, i) {
          AtCovers(l + nl, nl, i, |l|);
        }
      }
    }
  }

  lemma LinesArePieces(ls: seq<Bytes>, nl: Bytes)
    requires Newline(nl)
    ensures Lines(ls, nl) <==> Pieces(ls, nl)
  {
    forall i | 0 <= i < |ls| ensures Free(ls[i], nl) <==> Clean(ls[i], nl) {
      LineIsClean(ls[i], nl);
    }
  }

  lemma SplitLines(s: Bytes, nl: Bytes)
    requires Newline(nl)
    ensures Lines(Split(s, nl), nl) && Join(Split(s, nl), nl) == s
  {
    JoinSplit(s, nl);
    LinesArePieces(Split(s, nl), nl);
  }

  lemma JoinLines(ls: seq<Bytes>, nl: Bytes)
    requires Newline(nl) && Lines(ls, nl)
    ensures Split(Join(ls, nl), nl) == ls
  {
    LinesArePieces(ls, nl);
    SplitJoin(ls, nl);
  }

  /** The lines of a block that its blank line cannot cut short. */
  ghost predicate NoBlankLine(ls: seq<Bytes>) {
    forall i :: 1 <= i < |ls| ==> ls[i] != []
  }

  lemma AtBlank(s: Bytes, nl: Bytes, i: int)
    ensures At(s, Blank(nl), i) <==> At(s, nl, i) && At(s, nl, i + |nl|)
  {
    if 0 <= i && i + 2 * |nl| <= |s| {
      var w := s[i..i + 2 * |nl|];
      assert w[..|nl|] == s[i..i + |nl|] && w[|nl|..] == s[i + |nl|..i + 2 * |nl|];
      assert w == w[..|nl|] + w[|nl|..];
      assert Blank(nl)[..|nl|] == nl && Blank(nl)[|nl|..] == nl;
    }
  }

  /** A blank line after `l` starts right behind it, or lies in what follows. */
  lemma BlankBeyond(l: Bytes, nl: Bytes, t: Bytes, i: int)
    requires Newline(nl) && Free(l, nl)
    ensures At(l + nl + t + Blank(nl), Blank(nl), i) <==>
            (i == |l| && At(t + Blank(nl), nl, 0)) || (i >= |l| + |nl| && At(t + Blank(nl), Blank(nl), i - |l| - |nl|))
  {
    var u := t + Blank(nl);
    var s := (l + nl) + u;
    assert s == l + nl + t + Blank(nl);
    LineIsClean(l, nl);
    AtBlank(s, nl, i);
    if i < |l| {
      AtLeft(l + nl, u, nl, i);
    } else if i == |l| {
      AtRight(l, nl, nl, i);
      AtLeft(l + nl, u, nl, i);
      AtRight(l + nl, u, nl, i + |nl|);
    } else if i < |l| + |nl| {
      if At(s, nl, i) { AtCovers(s, nl, i, i); }
    } else {
      AtRight(l + nl, u, Blank(nl), i);
    }
  }

  lemma {:induction false} BlankLines(ls: seq<Bytes>, nl: Bytes)
    requires Newline(nl) && Lines(ls, nl)
    ensures Clean(Join(ls, nl), Blank(nl)) <==> NoBlankLine(ls)
  {
    var h := Join(ls, nl);
    var s := h + Blank(nl);
    var l := ls[0];
    LineIsClean(l, nl);
    if |ls| == 1 {
      assert s == l + nl + nl;
      forall i | i < |l| ensures !At(s, Blank(nl), i) {
        AtBlank(s, nl, i);
        AtLeft(l + nl, nl, nl, i);
      }
    } else {
      var t := Join(ls[1..], nl);
      assert s == l + nl + (t + Blank(nl)) == (l + nl) + (t + Blank(nl));
      assert Lines(ls[1..], nl);
      BlankLines(ls[1..], nl);
      StartsWithNewline(ls[1..], nl);
      forall i | i < |h|
        ensures At(s, Blank(nl), i) <==>
                (i == |l| && ls[1] == []) || (i >= |l| + |nl| && At(t + Blank(nl), Blank(nl), i - |l| - |nl|))
      {
        BlankBeyond(l, nl, t, i);
      }
      NoBlankTail(ls);
      if Clean(h, Blank(nl)) {
        assert ls[1] != [] by { assert !At(s, Blank(nl), |l|); }
        forall i | i < |t| ensures !At(t + Blank(nl), Blank(nl), i) {
          assert i >= 0 ==> !At(s, Blank(nl), i + |l| + |nl|);
        }
      }
    }
  }

  lemma NoBlankTail(ls: seq<Bytes>)
    requires |ls| >= 2
    ensures NoBlankLine(ls) <==> ls[1] != [] && NoBlankLine(ls[1..])
  {
    assert forall i :: 1 <= i < |ls[1..]| ==> ls[1..][i] == ls[i + 1];
    assert forall i :: 2 <= i < |ls| ==> ls[i] == ls[1..][i - 1];
  }

  lemma StartsWithNewline(ls: seq<Bytes>, nl: Bytes)
    requires Newline(nl) && Lines(ls, nl)
    ensures At(Join(ls, nl) + Blank(nl), nl, 0) <==> ls[0] == []
  {
    var l := ls[0];
    var s := Join(ls, nl) + Blank(nl);
    var rest := if |ls| == 1 then nl else Join(ls[1..], nl) + Blank(nl);
    assert s == l + nl + rest;
    LineIsClean(l, nl);
    CleanIndex(l, nl, rest);
  }

  // ---------------------------------------------------------------- LF blocks and stray CRs

  ghost predicate EndsWithCr(l: Bytes) {
    l != [] && l[|l| - 1] == CR
  }

  /** No two neighbouring LF lines together spell CR LF CR LF. */
  ghost predicate NoCrPair(ls: seq<Bytes>) {
    forall i, j :: 0 <= i < |ls| && 0 <= j < |ls| && j == i + 1 ==> !(EndsWithCr(ls[i]) && ls[j] == [CR])
  }

  lemma AtCrlf2(s: Bytes, i: int)
    ensures At(s, CRLF2, i) <==>
            0 <= i && i + 4 <= |s| && s[i] == CR && s[i + 1] == LF && s[i + 2] == CR && s[i + 3] == LF
  {
    if 0 <= i && i + 4 <= |s| {
      assert s[i..i + 4] == [s[i], s[i + 1], s[i + 2], s[i + 3]];
    }
  }

  lemma NoLf(l: Bytes, i: int)
    requires Free(l, NL) && 0 <= i < |l|
    ensures l[i] != LF
  {
    assert l[i..i + 1] == [l[i]];
    assert !At(l, NL, i);
  }

  lemma {:induction false} CrPairs(ls: seq<Bytes>)
    requires Lines(ls, NL)
    ensures Free(Join(ls, NL) + NL, CRLF2) <==> NoCrPair(ls)
  {
    var s := Join(ls, NL) + NL;
    var l := ls[0];
    if |ls| == 1 {
      forall i ensures !At(s, CRLF2, i) {
        AtCrlf2(s, i);
        if At(s, CRLF2, i) { NoLf(l, i + 1); }
      }
    } else {
      var t := Join(ls[1..], NL) + NL;
      assert s == (l + NL) + t;
      assert Lines(ls[1..], NL);
      CrPairs(ls[1..]);
      forall i
        ensures At(s, CRLF2, i) <==>
                (i == |l| - 1 && EndsWithCr(l) && ls[1] == [CR]) || (i > |l| && At(t, CRLF2, i - |l| - 1))
      {
        AtCrlf2(s, i);
        if i > |l| { AtRight(l + NL, t, CRLF2, i); }
        if 0 <= i && i + 1 < |l| { NoLf(l, i + 1); }
        if i == |l| - 1 { CrLine(ls[1..]); }
      }
      if !NoCrPair(ls) {
        var i, j :| 0 <= i < |ls| && 0 <= j < |ls| && j == i + 1 && EndsWithCr(ls[i]) && ls[j] == [CR];
        if i == 0 {
          assert At(s, CRLF2, |l| - 1);
        } else {
          assert EndsWithCr(ls[1..][i - 1]) && ls[1..][j - 1] == [CR];
          var k :| At(t, CRLF2, k);
          assert k + |l| + 1 - |l| - 1 == k;
          assert At(s, CRLF2, k + |l| + 1);
        }
      } else {
        assert forall i :: 0 <= i < |ls[1..]| ==> ls[1..][i] == ls[i + 1];
        assert !(EndsWithCr(ls[0]) && ls[1] == [CR]);
      }
    }
  }

  lemma CrLine(ls: seq<Bytes>)
    requires Lines(ls, NL)
    ensures var t := Join(ls, NL) + NL; |t| >= 2 && t[0] == CR && t[1] == LF <==> ls[0] == [CR]
  {
    var l := ls[0];
    var rest := if |ls| == 1 then [] else Join(ls[1..], NL) + NL;
    assert Join(ls, NL) + NL == l + NL + rest;
    if |l| >= 2 { NoLf(l, 1); }
  }

  /** CR LF CR LF cannot reach across two line feeds. */
  lemma CrlfAcross(a: Bytes, b: Bytes)
    ensures Free(a + NL + NL + b, CRLF2) <==> Free(a + NL, CRLF2) && Free(b, CRLF2)
  {
    var s := a + NL + NL + b;
    assert s == (a + NL) + (NL + b) == (a + NL + NL) + b;
    forall i
      ensures At(s, CRLF2, i) <==> At(a + NL, CRLF2, i) || (i >= |a| + 2 && At(b, CRLF2, i - |a| - 2))
    {
      if i + 4 <= |a| + 1 { AtLeft(a + NL, NL + b, CRLF2, i); }
      if i >= |a| + 2 { AtRight(a + NL + NL, b, CRLF2, i); }
      AtCrlf2(s, i);
      AtCrlf2(a + NL, i);
      assert s[|a|] == LF && s[|a| + 1] == LF;
    }
    if !Free(b, CRLF2) {
      var i :| At(b, CRLF2, i);
      assert i + |a| + 2 - |a| - 2 == i;
      assert At(s, CRLF2, i + |a| + 2);
    }
  }

  // ---------------------------------------------------------------- editing a header block

  /** `to` keeps each line of `from` or writes a plain line in its place, and may append plain lines. */
  ghost predicate Edited(from: seq<Bytes>, to: seq<Bytes>) {
    |to| >= |from| && forall i :: 0 <= i < |to| ==> (i < |from| && to[i] == from[i]) || Plain(to[i])
  }

  lemma PlainHasNoNewline(l: Bytes, nl: Bytes)
    requires Plain(l) && Newline(nl)
    ensures Free(l, nl)
  {
    forall i ensures !At(l, nl, i) {
      if At(l, nl, i) { AtCovers(l, nl, i, i); }
    }
  }

  lemma PlainHasNoDashes(l: Bytes, p: Bytes)
    requires Plain(l) && |p| >= 2 && p[0] == DASH && p[1] == DASH
    ensures Free(l, p)
  {
    forall i ensures !At(l, p, i) {
      if At(l, p, i) {
        AtCovers(l, p, i, i);
        AtCovers(l, p, i, i + 1);
      }
    }
  }

  lemma EditedLines(from: seq<Bytes>, to: seq<Bytes>, nl: Bytes)
    requires Newline(nl) && Lines(from, nl) && Edited(from, to)
    ensures Lines(to, nl)
    ensures NoBlankLine(from) ==> NoBlankLine(to)
    ensures NoCrPair(from) ==> NoCrPair(to)
  {
    forall i | 0 <= i < |to| ensures Free(to[i], nl) {
      if Plain(to[i]) { PlainHasNoNewline(to[i], nl); }
    }
    if NoCrPair(from) {
      forall i, j | 0 <= i < |to| && 0 <= j < |to| && j == i + 1
        ensures !(EndsWithCr(to[i]) && to[j] == [CR])
      {
        if Plain(to[j]) { assert to[j][0] >= SPACE; }
      }
    }
  }

  /** An edited block with a new body is found again by splitSIP, with the edited lines. */
  lemma EditedSplit(e: Entity, to: seq<Bytes>, body: Bytes)
    requires CutAtBlank(e) && Edited(Split(e.headers, e.nl), to)
    requires e.nl == NL ==> Free(body, CRLF2)
    ensures var f := Entity(Join(to, e.nl), e.nl, body);
            CutAtBlank(f) && SplitSip(Unsplit(f)) == Some(f) && Split(f.headers, e.nl) == to
  {
    var nl := e.nl;
    var from := Split(e.headers, nl);
    var f := Entity(Join(to, nl), nl, body);
    SplitLines(e.headers, nl);
    BlankLines(from, nl);
    EditedLines(from, to, nl);
    JoinLines(to, nl);
    BlankLines(to, nl);
    if nl == NL {
      CrlfAcross(e.headers, e.body);
      CrPairs(from);
      CrPairs(to);
      CrlfAcross(f.headers, body);
    }
    SplitSipFinds(f);
  }

  /** An edited block is as free of a delimiter as the block was. */
  lemma EditedFree(headers: Bytes, nl: Bytes, to: seq<Bytes>, p: Bytes)
    requires Newline(nl) && Edited(Split(headers, nl), to) && Free(headers, p)
    requires |p| >= 2 && p[0] == DASH && p[1] == DASH && CR !in p && LF !in p
    ensures Free(Join(to, nl), p)
  {
    var from := Split(headers, nl);
    SplitLines(headers, nl);
    FreeJoin(from, nl, p);
    forall i | 0 <= i < |to| ensures Free(to[i], p) {
      if Plain(to[i]) { PlainHasNoDashes(to[i], p); }
    }
    FreeJoin(to, nl, p);
  }
}
