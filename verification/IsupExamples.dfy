/**
  Messages that do not come back (src/isup/preserve.go): one input for each way in which attaching does
  not undo detaching. All are SIP-I messages with the compact header names of RFC 3261, section 7.3.3.
  */
module IsupExamples {
  import opened Octets
  import opened Text
  import opened SipText
  import opened Utf8
  import opened IsupPreserve
  import opened IsupCarried
  import opened Segments
  import opened Envelope
  import opened IsupHex
  import opened IsupRoundTrip
  import opened IsupExact

  /** "multipart/mixed" */
  const MIXED: Bytes := [109, 117, 108, 116, 105, 112, 97, 114, 116, 47, 109, 105, 120, 101, 100]
  /** "b" */
  const BOUNDARY: Bytes := [98]

  /** mime.ParseMediaType on the two types used here; the boundary parameter is not written out. */
  ghost predicate Parses(mime: Mime) {
    && mime(APPLICATION_ISUP) == Media(APPLICATION_ISUP, [], [])
    && mime(MIXED) == Media(MIXED, BOUNDARY, [])
  }

  /** "c: " and the type. */
  function TypeLine(kind: Bytes): Bytes {
    [99] + [COLON, SPACE] + kind
  }

  /** A type without line breaks, dashes or white space at its ends. */
  predicate TypeName(kind: Bytes) {
    kind != [] && Graphic(kind[0]) && Graphic(kind[|kind| - 1]) && CR !in kind && LF !in kind && DASH !in kind
  }

  lemma TypeNames()
    ensures TypeName(APPLICATION_ISUP) && TypeName(MIXED)
    ensures !HasPrefix(ToLower(APPLICATION_ISUP), MULTIPART) && HasPrefix(ToLower(MIXED), MULTIPART)
  {
    assert ToLower(APPLICATION_ISUP)[0] == 97;
    assert ToLower(MIXED)[..10] == MULTIPART;
  }

  lemma TypeLineIs(kind: Bytes)
    requires TypeName(kind)
    ensures var l := TypeLine(kind);
            && IsHeader(l, CONTENT_TYPE) && LineValue(l) == kind
            && !IsHeader(l, CONTENT_LENGTH) && !IsHeader(l, BINARY_BODY)
            && CR !in l && LF !in l && DASH !in l && l != []
  {
    hide NamesMatch, SplitHeaderLine;
    HeaderLine([99], kind);
    CompactType();
  }

  lemma CompactType()
    ensures NamesMatch([99], CONTENT_TYPE) && !NamesMatch([99], CONTENT_LENGTH) && !NamesMatch([99], BINARY_BODY)
  {
    assert |ToLower([99])| == 1 && ToLower([99])[0] == 99 && ToLower([108])[0] == 108;
    assert |ToLower(CONTENT_LENGTH)| == 14 && |ToLower(BINARY_BODY)| == 19;
  }

  lemma LineFree(l: Bytes)
    requires CR !in l && LF !in l
    ensures Free(l, CRLF)
  {
    forall i ensures !At(l, CRLF, i) {
      if At(l, CRLF, i) { AtCovers(l, CRLF, i, i); }
    }
  }

  lemma TypeValue(l: Bytes, more: seq<Bytes>)
    requires IsHeader(l, CONTENT_TYPE) && !IsHeader(l, BINARY_BODY)
    requires forall i :: 0 <= i < |more| ==> !IsHeader(more[i], BINARY_BODY)
    ensures FirstValue([l] + more, CONTENT_TYPE) == Some(LineValue(l)) && FirstValue([l] + more, BINARY_BODY) == None
  {
    hide SplitHeaderLine, NamesMatch;
    FirstValueFinds([l] + more, BINARY_BODY);
  }

  /** An entity is found again from its lines. */
  lemma EntityOf(ls: seq<Bytes>, body: Bytes)
    requires ls != [] && forall i :: 0 <= i < |ls| ==> ls[i] != [] && Free(ls[i], CRLF)
    ensures var e := Entity(Join(ls, CRLF), CRLF, body);
            CutAtBlank(e) && SplitSip(Unsplit(e)) == Some(e) && Split(e.headers, CRLF) == ls
  {
    hide Free, Clean, Split, Join, SplitSip, Unsplit;
    JoinLines(ls, CRLF);
    BlankLines(ls, CRLF);
    SplitSipFinds(Entity(Join(ls, CRLF), CRLF, body));
  }

  /** An entity of a type line and other lines. */
  lemma TypedEntity(kind: Bytes, more: seq<Bytes>, body: Bytes)
    requires TypeName(kind)
    requires forall i :: 0 <= i < |more| ==> more[i] != [] && CR !in more[i] && LF !in more[i]
    requires forall i :: 0 <= i < |more| ==> !IsHeader(more[i], BINARY_BODY)
    ensures var e := Entity(Join([TypeLine(kind)] + more, CRLF), CRLF, body);
            && CutAtBlank(e) && SplitSip(Unsplit(e)) == Some(e)
            && Split(e.headers, CRLF) == [TypeLine(kind)] + more
            && ContentType(e) == kind && !Marked(e)
  {
    hide TypeLine, IsHeader, LineValue, Split, Join, SplitSip, Unsplit, CutAtBlank, Free, FirstValue, TypeName;
    var ls := [TypeLine(kind)] + more;
    TypeLineIs(kind);
    forall i | 0 <= i < |ls| ensures ls[i] != [] && Free(ls[i], CRLF) {
      if i > 0 { assert ls[i] == more[i - 1]; }
      LineFree(ls[i]);
    }
    EntityOf(ls, body);
    TypeValue(TypeLine(kind), more);
  }

  // ---------------------------------------------------------------- a length line of another spelling

  /** "Content-Length:5" */
  const LENGTH_LINE: Bytes := CONTENT_LENGTH + [COLON] + [53]

  lemma LengthName()
    ensures CR !in CONTENT_LENGTH && LF !in CONTENT_LENGTH && COLON !in CONTENT_LENGTH
    ensures CONTENT_LENGTH != [] && Graphic(CONTENT_LENGTH[0]) && Graphic(CONTENT_LENGTH[|CONTENT_LENGTH| - 1])
    ensures NamesMatch(CONTENT_LENGTH, CONTENT_LENGTH) && !NamesMatch(CONTENT_LENGTH, BINARY_BODY)
  {
    NameShape(CONTENT_LENGTH, CONTENT_LENGTH);
  }

  lemma LengthLine()
    ensures IsHeader(LENGTH_LINE, CONTENT_LENGTH) && !IsHeader(LENGTH_LINE, BINARY_BODY)
    ensures SplitHeaderLine(LENGTH_LINE).value.name == CONTENT_LENGTH
    ensures CR !in LENGTH_LINE && LF !in LENGTH_LINE && LENGTH_LINE != []
  {
    hide SplitHeaderLine, NamesMatch;
    LengthName();
    LineOf(CONTENT_LENGTH, [53]);
  }

  lemma LineOf(h: Bytes, v: Bytes)
    requires h != [] && Graphic(h[0]) && Graphic(h[|h| - 1]) && COLON !in h && CR !in h && LF !in h
    requires CR !in v && LF !in v
    ensures var l := h + [COLON] + v;
            && SplitHeaderLine(l).Some? && SplitHeaderLine(l).value.name == h
            && CR !in l && LF !in l
  {
    hide TrimSpace, Clean, Free;
    var l := h + [COLON] + v;
    WithoutOctet(h, COLON);
    CleanIndex(h, [COLON], v);
    assert l[..|h|] == h && l[0] == h[0];
    TrimSpaceGraphic(h);
  }

  /** A SIP-I message whose header block is a type and "Content-Length:5". */
  function Unspaced(body: Bytes): Bytes {
    Unsplit(Entity(Join([TypeLine(APPLICATION_ISUP), LENGTH_LINE], CRLF), CRLF, body))
  }

  /** Every such message with a binary body of five octets is detached, and none comes back: a space is written. */
  lemma UnspacedLengthIsLost(mime: Mime, body: Bytes)
    requires Parses(mime) && |body| == 5 && !Safe(body)
    ensures PlainPayload(mime, Unspaced(body)) && CarriesBinary(mime, Unspaced(body))
    ensures var (stored, blob) := Detach(mime, Unspaced(body)); Attach(mime, stored, blob) != Unspaced(body)
  {
    hide *;
    var m := Unspaced(body);
    UnspacedIs(body);
    UnspacedDetaches(mime, m);
    PlainRoundTrip(mime, m);
  }

  lemma UnspacedIs(body: Bytes)
    requires |body| == 5
    ensures var split := SplitSip(Unspaced(body));
            && split.Some? && split.value.nl == CRLF && split.value.body == body
            && ContentType(split.value) == APPLICATION_ISUP && !Marked(split.value) && !Canonical(split.value)
  {
    hide TypeLine, LENGTH_LINE, Itoa, Unsplit, Split, Join, SplitSip, CutAtBlank, SplitHeaderLine, IsHeader;
    var e := Entity(Join([TypeLine(APPLICATION_ISUP), LENGTH_LINE], CRLF), CRLF, body);
    TypeNames();
    LengthLine();
    assert [TypeLine(APPLICATION_ISUP)] + [LENGTH_LINE] == [TypeLine(APPLICATION_ISUP), LENGTH_LINE];
    TypedEntity(APPLICATION_ISUP, [LENGTH_LINE], body);
    assert Split(e.headers, CRLF)[1] == LENGTH_LINE;
    SpellingsDiffer(5);
  }

  /** A message of type application/isup with a binary body gives its body away. */
  lemma UnspacedDetaches(mime: Mime, m: Bytes)
    requires Parses(mime) && SplitSip(m).Some?
    requires var e := SplitSip(m).value;
             ContentType(e) == APPLICATION_ISUP && !Marked(e) && !Safe(e.body)
    ensures PlainPayload(mime, m) && CarriesBinary(mime, m)
  {
    hide Safe, SplitSip, Marked, ContentType, SetSipBody;
    TypeNames();
    SplitSipGives(m);
  }

  lemma SpellingsDiffer(n: nat)
    ensures LENGTH_LINE != CONTENT_LENGTH + [COLON, SPACE] + Itoa(n)
  {
    var a, b := LENGTH_LINE, CONTENT_LENGTH + [COLON, SPACE] + Itoa(n);
    assert |a| == 16 && |b| >= 17;
  }

  // ---------------------------------------------------------------- multipart messages

  /** "--b" */
  const MARKER: Bytes := Marker(BOUNDARY)

  /** A part behind its delimiter, with the newline of the next delimiter when it is closed. */
  function PartSegment(body: Bytes, closed: bool): Bytes {
    CRLF + Unsplit(Entity(TypeLine(APPLICATION_ISUP), CRLF, body)) + (if closed then CRLF else [])
  }

  /** A multipart message of the given segments, from the preamble to the closing delimiter. */
  function Message(segs: seq<Bytes>): Bytes {
    Unsplit(Entity(TypeLine(MIXED), CRLF, Join([[]] + segs + [DASHES], MARKER)))
  }

  lemma MarkerIs()
    ensures MARKER == [DASH, DASH, 98] && IsMarker(MARKER) && MARKER == Marker(BOUNDARY)
  {
  }

  lemma NoDashClean(s: Bytes)
    requires DASH !in s
    ensures Clean(s, MARKER) && Free(s, MARKER)
  {
    hide MARKER;
    MarkerIs();
    forall i | i < |s| ensures !At(s + MARKER, MARKER, i) {
      if At(s + MARKER, MARKER, i) { AtCovers(s + MARKER, MARKER, i, i); }
    }
    CleanIsFree(s, MARKER);
  }

  lemma OneLineEntity(kind: Bytes, body: Bytes)
    requires TypeName(kind)
    ensures var e := Entity(TypeLine(kind), CRLF, body);
            && CutAtBlank(e) && SplitSip(Unsplit(e)) == Some(e) && Split(e.headers, CRLF) == [TypeLine(kind)]
            && ContentType(e) == kind && !Marked(e)
  {
    assert [TypeLine(kind)] + [] == [TypeLine(kind)] && Join([TypeLine(kind)], CRLF) == TypeLine(kind);
    TypedEntity(kind, [], body);
  }

  /** The part of such a segment, where its body does not end the segment in a newline of its own. */
  lemma SegmentHolds(mime: Mime, body: Bytes, closed: bool)
    requires Parses(mime) && body != [] && body[|body| - 1] != LF
    ensures var seg := PartSegment(body, closed);
            && IsupOf(mime, seg, CRLF) == Some(Entity(TypeLine(APPLICATION_ISUP), CRLF, body))
            && Frame(seg, CRLF).trail == if closed then CRLF else []
  {
    hide TypeLine, Safe, SplitSip;
    var e := Entity(TypeLine(APPLICATION_ISUP), CRLF, body);
    var f := Framed(CRLF, Unsplit(e), if closed then CRLF else []);
    TypeNames();
    OneLineEntity(APPLICATION_ISUP, body);
    if !closed { BodyEnds(e); }
    Reframe(f, CRLF);
    assert Unframe(f) == PartSegment(body, closed);
  }

  lemma BodyEnds(e: Entity)
    requires e.body != [] && e.body[|e.body| - 1] != LF
    ensures !HasSuffix(Unsplit(e), CRLF)
  {
    var s := Unsplit(e);
    SuffixEnds(s, CRLF);
    assert s[|s| - 1] == e.body[|e.body| - 1];
  }

  /** How the message is taken apart. */
  lemma MessageIs(mime: Mime, segs: seq<Bytes>)
    requires Parses(mime) && forall i :: 0 <= i < |segs| ==> DASH !in segs[i]
    ensures var m := Message(segs);
            && MultipartPayload(mime, m) && MarkerOf(mime, m) == MARKER
            && SplitSip(m).value.nl == CRLF && !Marked(SplitSip(m).value)
            && SegmentsOf(mime, m) == segs + [DASHES]
            && MultipartBoundary(mime, ContentType(SplitSip(m).value)) == Some(BOUNDARY)
  {
    hide TypeLine, MARKER, SplitSip, Split, Join;
    var ps := [[]] + segs + [DASHES];
    MarkerIs();
    TypeNames();
    OneLineEntity(MIXED, Join(ps, MARKER));
    forall i | 0 <= i < |ps| - 1 ensures Clean(ps[i], MARKER) {
      if i > 0 { assert ps[i] == segs[i - 1]; }
      NoDashClean(ps[i]);
    }
    assert Free(DASHES, MARKER);
    SplitJoin(ps, MARKER);
    assert ps[1..] == segs + [DASHES];
  }

  lemma SegmentHasNoDash(body: Bytes, closed: bool)
    requires DASH !in body
    ensures DASH !in PartSegment(body, closed)
  {
    hide TypeLine, TypeName;
    TypeNames();
    TypeLineIs(APPLICATION_ISUP);
    Inside(CRLF, Unsplit(Entity(TypeLine(APPLICATION_ISUP), CRLF, body)), if closed then CRLF else [], DASH);
    Inside(TypeLine(APPLICATION_ISUP) + CRLF, CRLF, body, DASH);
    Inside([], TypeLine(APPLICATION_ISUP), CRLF, DASH);
    assert [] + TypeLine(APPLICATION_ISUP) == TypeLine(APPLICATION_ISUP);
  }

  lemma Inside(a: Bytes, b: Bytes, c: Bytes, x: Byte)
    ensures x in a + b + c <==> x in a || x in b || x in c
  {
  }

  lemma ClosingIsNoPart(mime: Mime)
    ensures IsupOf(mime, DASHES, CRLF).None?
  {
  }

  /** One binary ISUP body and one of text: two bodies are counted, one is stored. */
  function HalfText(): Bytes {
    Message([PartSegment([0], true), PartSegment([65], true)])
  }

  lemma LetterIsText()
    ensures Safe([65]) && !Safe([0])
  {
    SafeAscii([65]);
  }

  lemma TextBodyIsLost(mime: Mime)
    requires Parses(mime)
    ensures MultipartPayload(mime, HalfText()) && CarriesBinary(mime, HalfText())
    ensures var (stored, blob) := Detach(mime, HalfText()); Attach(mime, stored, blob) != HalfText()
  {
    hide *;
    HalfTextIs(mime);
    HalfTextBodies(mime);
    TwoKinds();
    NotRestorable(mime, HalfText(), [[0], [65]]);
    MultipartRoundTripIff(mime, HalfText());
  }

  lemma HalfTextIs(mime: Mime)
    requires Parses(mime)
    ensures var m := HalfText();
            && MultipartPayload(mime, m) && SplitSip(m).value.nl == CRLF && !Marked(SplitSip(m).value)
            && SegmentsOf(mime, m) == [PartSegment([0], true), PartSegment([65], true), DASHES]
  {
    hide PartSegment, Message, Safe, SplitSip, Split, Marked;
    var segs := [PartSegment([0], true), PartSegment([65], true)];
    SegmentHasNoDash([0], true);
    SegmentHasNoDash([65], true);
    MessageIs(mime, segs);
  }

  lemma HalfTextBodies(mime: Mime)
    requires Parses(mime)
    ensures MultipartPayload(mime, HalfText()) && CarriesBinary(mime, HalfText())
    ensures IsupBodies(mime, SegmentsOf(mime, HalfText()), SplitSip(HalfText()).value.nl) == [[0], [65]]
  {
    hide PartSegment, HalfText, SplitSip, Split, Safe, Frame, SegmentsOf, CarriesBinary, Marked, PartOf, IsIsup;
    LetterIsText();
    HalfTextIs(mime);
    SegmentHolds(mime, [0], true);
    SegmentHolds(mime, [65], true);
    ClosingIsNoPart(mime);
    BodiesOfTwo(mime, PartSegment([0], true), PartSegment([65], true));
    LiftedIs(mime, HalfText(), 0);
  }

  lemma NotRestorable(mime: Mime, m: Bytes, bodies: seq<Bytes>)
    requires MultipartPayload(mime, m) && !Recoverable(bodies)
    requires IsupBodies(mime, SegmentsOf(mime, m), SplitSip(m).value.nl) == bodies
    ensures !Restorable(mime, m)
  {
  }

  lemma TwoKinds()
    ensures !Recoverable([[0], [65]])
  {
    hide Safe, Unenvelope;
    LetterIsText();
    var bodies: seq<Bytes> := [[0], [65]];
    assert Safe(bodies[1]) && bodies[1] != [];
  }

  lemma BodiesOfTwo(mime: Mime, a: Bytes, b: Bytes)
    requires IsupOf(mime, a, CRLF).Some? && IsupOf(mime, b, CRLF).Some? && IsupOf(mime, DASHES, CRLF).None?
    ensures IsupBodies(mime, [a, b, DASHES], CRLF) == [IsupOf(mime, a, CRLF).value.body, IsupOf(mime, b,
            CRLF).value.body]
  {
    hide IsupOf;
    assert [a, b, DASHES][1..] == [b, DASHES] && [b, DASHES][1..] == [DASHES] && [DASHES][1..] == [];
    assert IsupBodies(mime, [DASHES], CRLF) == [];
    assert IsupBodies(mime, [b, DASHES], CRLF) == [IsupOf(mime, b, CRLF).value.body];
  }

  /** A message with a part to lift is detached. */
  lemma LiftedIs(mime: Mime, m: Bytes, k: nat)
    requires MultipartPayload(mime, m) && !Marked(SplitSip(m).value)
    requires k < |SegmentsOf(mime, m)| && Lifts(mime, SegmentsOf(mime, m)[k], SplitSip(m).value.nl)
    ensures CarriesBinary(mime, m)
  {
    hide Lifts, Safe, SplitSip, Split, SegmentIsBinary;
    NamesPartsIff(mime, ContentType(SplitSip(m).value));
    BinaryIff(mime, SegmentsOf(mime, m)[k], SplitSip(m).value.nl);
  }

  // ---------------------------------------------------------------- a part without its newline

  /** The part runs up to the closing delimiter. */
  function Unclosed(): Bytes {
    Message([PartSegment([0], false)])
  }

  lemma UnclosedIsLost(mime: Mime)
    requires Parses(mime)
    ensures MultipartPayload(mime, Unclosed()) && CarriesBinary(mime, Unclosed())
    ensures var (stored, blob) := Detach(mime, Unclosed()); Attach(mime, stored, blob) != Unclosed()
  {
    hide PartSegment, Message, Safe, Detach, Attach;
    var a := PartSegment([0], false);
    var m := Unclosed();
    LetterIsText();
    SegmentHasNoDash([0], false);
    MessageIs(mime, [a]);
    SegmentHolds(mime, [0], false);
    LiftedIs(mime, m, 0);
    UnclosedPartIsLost(mime, m, 0);
  }
}
