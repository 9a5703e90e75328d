/**
  The older form of a preserved body: hex text inside the SIP message, marked by a header
  (src/isup/preserve.go, PreserveBinarySIPPayload and RestoreBinarySIPPayload).

  base64.StdEncoding.DecodeString, which only rows of other origin need, is a parameter.
  */
module IsupHex {
  import opened Octets
  import opened Text
  import opened SipText
  import opened Utf8
  import opened IsupPreserve
  import opened Segments
  import R = IsupRoundTrip

  /** "hex" */
  const HEX: Bytes := [104, 101, 120]
  /** "base64" */
  const BASE64: Bytes := [98, 97, 115, 101, 54, 52]

  type Base64 = Bytes -> Option<Bytes>

  /** "X-Homer-Binary-Body: hex" */
  const MARK_LINE: Bytes := BINARY_BODY + [COLON, SPACE] + HEX

  /** decodeEncodedBody. */
  function DecodeBody(b64: Base64, encoding: Bytes, body: Bytes): Option<Bytes> {
    var s := TrimSpace(body);
    var kind := ToLower(TrimSpace(encoding));
    if kind == HEX then HexDecode(s) else if kind == BASE64 then b64(s) else None
  }

  /** A body is hex or base64 text with white space around it, as its mark says in any case; no other mark is known. */
  lemma BodyForms(b64: Base64, encoding: Bytes, body: Bytes)
    ensures var kind := ToLower(TrimSpace(encoding));
            && (kind == Ascii("hex") ==> DecodeBody(b64, encoding, body) == HexDecode(TrimSpace(body)))
            && (kind == Ascii("base64") ==> DecodeBody(b64, encoding, body) == b64(TrimSpace(body)))
            && (kind != Ascii("hex") && kind != Ascii("base64") ==> DecodeBody(b64, encoding, body) == None)
  {
    hide TrimSpace, HexDecode;
    assert Ascii("hex") == HEX && Ascii("base64") == BASE64;
  }

  /** preservePart; a part that is left alone is returned as it is. */
  function PreservePart(part: Bytes): Bytes {
    match SplitSip(part)
    case None => part
    case Some(e) =>
      if Safe(e.body) || Marked(e) then part
      else
        var encoded := HexEncode(e.body);
        var headers := (if e.headers != [] then e.headers + e.nl else []) + MARK_LINE;
        Relength(headers, e.nl, |encoded|) + e.nl + e.nl + encoded
  }

  /** restorePart; a part that is left alone is returned as it is. */
  function RestorePart(b64: Base64, part: Bytes): Bytes {
    match SplitSip(part)
    case None => part
    case Some(e) =>
      match HeaderValue(e.headers, e.nl, BINARY_BODY)
      case None => part
      case Some(encoding) =>
        match DecodeBody(b64, encoding, e.body)
        case None => part
        case Some(raw) =>
          Relength(RemoveHeader(e.headers, e.nl, BINARY_BODY), e.nl, |raw|) + e.nl + e.nl + raw
  }

  function Restorer(b64: Base64): Bytes -> Bytes {
    p => RestorePart(b64, p)
  }

  /** mapMultipart on one segment. */
  function MapSegment(seg: Bytes, nl: Bytes, fn: Bytes -> Bytes): Bytes {
    if Closing(seg) then seg else WithPart(seg, nl, fn(Frame(seg, nl).part))
  }

  function MapSegments(segs: seq<Bytes>, nl: Bytes, fn: Bytes -> Bytes): (r: seq<Bytes>)
    ensures |r| == |segs|
    ensures forall i :: 0 <= i < |segs| ==> r[i] == MapSegment(segs[i], nl, fn)
  {
    seq(|segs|, i requires 0 <= i < |segs| => MapSegment(segs[i], nl, fn))
  }

  /** The segments of a body with `fn` applied to every part; the preamble stays. */
  function MapBody(body: Bytes, marker: Bytes, nl: Bytes, fn: Bytes -> Bytes): seq<Bytes>
    requires marker != []
  {
    var segs := Split(body, marker);
    [segs[0]] + MapSegments(segs[1..], nl, fn)
  }

  /** A payload with its MIME parts mapped, or as it was when no part changed. */
  function MapPayload(payload: Bytes, e: Entity, marker: Bytes, fn: Bytes -> Bytes): Bytes
    requires e.nl != [] && marker != []
  {
    var to := MapBody(e.body, marker, e.nl, fn);
    if to == Split(e.body, marker) then payload
    else
      var body := Join(to, marker);
      Relength(e.headers, e.nl, |body|) + e.nl + e.nl + body
  }

  /** PreserveBinarySIPPayload. */
  function Preserve(mime: Mime, payload: Bytes): Bytes {
    var split := SplitSip(payload);
    if Safe(payload) || split.None? || Marked(split.value) then payload
    else
      match MultipartBoundary(mime, ContentType(split.value))
      case Some(boundary) => MapPayload(payload, split.value, Marker(boundary), PreservePart)
      case None => PreservePart(payload)
  }

  /** RestoreBinarySIPPayload. */
  function Restore(mime: Mime, b64: Base64, payload: Bytes): Bytes {
    var split := SplitSip(payload);
    if split.None? then payload
    else if Marked(split.value) then RestorePart(b64, payload)
    else
      match MultipartBoundary(mime, ContentType(split.value))
      case Some(boundary) => MapPayload(payload, split.value, Marker(boundary), Restorer(b64))
      case None => payload
  }

  /** mapMultipart with a pure function: the rebuilt body and whether any part changed. */
  method MapMultipart(body: Bytes, boundary: Bytes, nl: Bytes, fn: Bytes -> Bytes)
    returns (r: Bytes, changed: bool)
    ensures var to := MapBody(body, Marker(boundary), nl, fn);
            && (changed <==> to != Split(body, Marker(boundary)))
            && r == Join(to, Marker(boundary))
  {
    var marker := Marker(boundary);
    var segs := Split(body, marker);
    var b := segs[0];
    changed := false;
    ghost var to := MapBody(body, marker, nl, fn);
    assert to[..1] == [segs[0]] && segs[..1] == [segs[0]];
    for i := 1 to |segs|
      invariant |to| == |segs| && b == Join(to[..i], marker)
      invariant changed <==> to[..i] != segs[..i]
    {
      var seg := segs[i];
      MapStep(body, marker, nl, fn, i);
      b := b + marker;
      if Closing(seg) {
        b := b + seg;
      } else {
        var f := Frame(seg, nl);
        var rest := f.part;
        var next := fn(rest);
        if next != rest {
          changed := true;
          rest := next;
        }
        b := b + (f.lead + rest + f.trail);
      }
    }
    assert to[..|segs|] == to && segs[..|segs|] == segs;
    JoinSplit(body, marker);
    r := if changed then b else body;
  }

  lemma MapStep(body: Bytes, marker: Bytes, nl: Bytes, fn: Bytes -> Bytes, i: nat)
    requires marker != [] && 1 <= i < |Split(body, marker)|
    ensures var segs := Split(body, marker);
            var to := MapBody(body, marker, nl, fn);
            var f := Frame(segs[i], nl);
            && to[i] == (if Closing(segs[i]) then segs[i] else f.lead + fn(f.part) + f.trail)
            && (to[i] == segs[i] <==> Closing(segs[i]) || fn(f.part) == f.part)
            && Join(to[..i + 1], marker) == Join(to[..i], marker) + marker + to[i]
            && (to[..i + 1] == segs[..i + 1] <==> to[..i] == segs[..i] && to[i] == segs[i])
  {
    var segs := Split(body, marker);
    var to := MapBody(body, marker, nl, fn);
    var f := Frame(segs[i], nl);
    assert segs[1..][i - 1] == segs[i];
    R.Cancel(f.lead, fn(f.part), f.part, f.trail);
    PrefixStep(to, segs, i, marker);
  }

  lemma PrefixStep(to: seq<Bytes>, segs: seq<Bytes>, i: nat, sep: Bytes)
    requires 1 <= i < |to| == |segs|
    ensures Join(to[..i + 1], sep) == Join(to[..i], sep) + sep + to[i]
    ensures to[..i + 1] == segs[..i + 1] <==> to[..i] == segs[..i] && to[i] == segs[i]
  {
    var a, b := to[..i], segs[..i];
    assert to[..i + 1] == a + [to[i]];
    assert segs[..i + 1] == b + [segs[i]];
    JoinAppend(a, to[i], sep);
    if a + [to[i]] == b + [segs[i]] {
      assert a == (a + [to[i]])[..i] && b == (b + [segs[i]])[..i];
      assert (a + [to[i]])[i] == to[i] && (b + [segs[i]])[i] == segs[i];
    }
  }

  // ---------------------------------------------------------------- one part, there and back

  /** A line `name: value` with a name free of colons and blanks splits into the two. */
  lemma HeaderLine(h: Bytes, v: Bytes)
    requires h != [] && v != [] && Graphic(h[0]) && Graphic(h[|h| - 1])
    requires Graphic(v[0]) && Graphic(v[|v| - 1])
    requires COLON !in h
    ensures SplitHeaderLine(h + [COLON, SPACE] + v) == Some(Header(h, v))
  {
    hide TrimSpace, Index, Clean;
    var line := h + [COLON, SPACE] + v;
    var value := [SPACE] + v;
    assert line == h + [COLON] + value;
    forall i | i < |h| ensures !At(h + [COLON], [COLON], i) {
      if At(h + [COLON], [COLON], i) { AtCovers(h + [COLON], [COLON], i, i); }
    }
    CleanIndex(h, [COLON], value);
    assert line[..|h|] == h;
    assert line[|h| + 1..] == value;
    assert line[0] == h[0];
    TrimSpaceGraphic(h);
    TrimSpaceLead(v);
  }

  lemma MarkLine()
    ensures Plain(MARK_LINE)
    ensures SplitHeaderLine(MARK_LINE) == Some(Header(BINARY_BODY, HEX))
    ensures IsHeader(MARK_LINE, BINARY_BODY) && !IsHeader(MARK_LINE, CONTENT_LENGTH)
    ensures !IsHeader(MARK_LINE, CONTENT_TYPE)
  {
    HeaderLine(BINARY_BODY, HEX);
    NotContentName();
    MarkLinePlain();
  }

  lemma MarkLinePlain()
    ensures Plain(MARK_LINE)
  {
    var line := MARK_LINE;
    assert |line| == 24;
    assert forall i :: 0 <= i < 19 ==> line[i] == BINARY_BODY[i];
  }

  lemma NotContentName()
    ensures !NamesMatch(BINARY_BODY, CONTENT_LENGTH) && !NamesMatch(BINARY_BODY, CONTENT_TYPE)
  {
    assert |ToLower(BINARY_BODY)| == 19;
    assert |ToLower(CONTENT_LENGTH)| == 14 && |ToLower(CONTENT_TYPE)| == 12;
    assert |ToLower([99])| == 1 && |ToLower([108])| == 1;
  }

  /** The lines PreservePart writes. */
  function MarkedLines(lines: seq<Bytes>, headers: Bytes, n: nat): seq<Bytes> {
    ReplaceLines((if headers != [] then lines else []) + [MARK_LINE], CONTENT_LENGTH, Itoa(n))
  }

  lemma {:induction false} FirstValueAppend(ls: seq<Bytes>, line: Bytes, name: Bytes)
    requires FirstValue(ls, name).None? && IsHeader(line, name)
    ensures FirstValue(ls + [line], name) == Some(LineValue(line))
  {
    if ls == [] {
    } else {
      FirstValueAppend(ls[1..], line, name);
      assert (ls + [line])[1..] == ls[1..] + [line];
    }
  }

  lemma {:induction false} FirstValueSkip(ls: seq<Bytes>, line: Bytes, name: Bytes)
    requires !IsHeader(line, name)
    ensures FirstValue(ls + [line], name) == FirstValue(ls, name)
  {
    if ls != [] {
      FirstValueSkip(ls[1..], line, name);
      assert (ls + [line])[1..] == ls[1..] + [line];
    } else {
      assert ([line])[1..] == [];
    }
  }

  lemma {:induction false} RemoveAppended(ls: seq<Bytes>, line: Bytes, name: Bytes)
    requires FirstValue(ls, name).None? && IsHeader(line, name)
    ensures RemoveLines(ls + [line], name) == ls
  {
    if ls != [] {
      RemoveAppended(ls[1..], line, name);
      assert (ls + [line])[1..] == ls[1..] + [line];
      assert [ls[0]] + ls[1..] == ls;
    } else {
      assert ([line])[1..] == [];
    }
  }

  lemma JoinHeaders(headers: Bytes, nl: Bytes)
    requires Newline(nl)
    ensures var ls := (if headers != [] then Split(headers, nl) else []) + [MARK_LINE];
            && Lines(ls, nl)
            && Join(ls, nl) == (if headers != [] then headers + nl else []) + MARK_LINE
            && Split((if headers != [] then headers + nl else []) + MARK_LINE, nl) == ls
  {
    var split := Split(headers, nl);
    var ls := (if headers != [] then split else []) + [MARK_LINE];
    MarkLine();
    PlainHasNoNewline(MARK_LINE, nl);
    SplitLines(headers, nl);
    if headers != [] {
      JoinAppend(split, MARK_LINE, nl);
    }
    JoinLines(ls, nl);
  }

  /** The entity that holds the hex form. */
  function HexEntity(e: Entity): Entity
    requires e.nl != []
  {
    var encoded := HexEncode(e.body);
    Entity(Join(MarkedLines(Split(e.headers, e.nl), e.headers, |encoded|), e.nl), e.nl, encoded)
  }

  lemma MarkedLinesEdit(e: Entity, n: nat)
    requires Newline(e.nl)
    ensures Edited(Split(e.headers, e.nl), MarkedLines(Split(e.headers, e.nl), e.headers, n))
  {
    var ls := Split(e.headers, e.nl);
    var all := (if e.headers != [] then ls else []) + [MARK_LINE];
    var to := MarkedLines(ls, e.headers, n);
    MarkLine();
    ItoaDecimal(n);
    assert e.headers == [] ==> ls == [[]];
    forall i | 0 <= i < |to| ensures (i < |ls| && to[i] == ls[i]) || Plain(to[i]) {
      Rewritten(all[i], Itoa(n), Itoa(n));
    }
  }

  lemma PreservedPart(part: Bytes)
    requires SplitSip(part).Some? && !Safe(SplitSip(part).value.body) && !Marked(SplitSip(part).value)
    ensures PreservePart(part) == Unsplit(HexEntity(SplitSip(part).value))
    ensures HexText(HexEncode(SplitSip(part).value.body))
  {
    var e := SplitSip(part).value;
    JoinHeaders(e.headers, e.nl);
  }

  /** The hex form names its encoding and keeps the content type. */
  lemma HexHeaders(e: Entity)
    requires Newline(e.nl) && !Marked(e)
    requires Split(HexEntity(e).headers, e.nl) == MarkedLines(Split(e.headers, e.nl), e.headers, 2 * |e.body|)
    ensures HeaderValue(HexEntity(e).headers, e.nl, BINARY_BODY) == Some(HEX)
    ensures HeaderValue(HexEntity(e).headers, e.nl, CONTENT_TYPE) == HeaderValue(e.headers, e.nl, CONTENT_TYPE)
  {
    var n := 2 * |e.body|;
    var ls := Split(e.headers, e.nl);
    var base := if e.headers != [] then ls else [];
    MarkLine();
    if e.headers == [] {
      assert ls == [[]] && ls[1..] == [];
    }
    FirstValueAppend(base, MARK_LINE, BINARY_BODY);
    FirstValueSkip(base, MARK_LINE, CONTENT_TYPE);
    ItoaDecimal(n);
    FirstValueKept(base + [MARK_LINE], Itoa(n), BINARY_BODY);
    FirstValueKept(base + [MARK_LINE], Itoa(n), CONTENT_TYPE);
  }

  /** Removing the mark leaves the old lines, with the hex length. */
  lemma UnmarkedHeaders(e: Entity)
    requires Newline(e.nl) && !Marked(e)
    requires Split(HexEntity(e).headers, e.nl) == MarkedLines(Split(e.headers, e.nl), e.headers, 2 * |e.body|)
    ensures RemoveHeader(HexEntity(e).headers, e.nl, BINARY_BODY) == Relength(e.headers, e.nl, 2 * |e.body|)
  {
    var ls := Split(e.headers, e.nl);
    UnmarkedLines(ls, e.headers, 2 * |e.body|);
    if e.headers == [] {
      SetSipBodyIs(e.headers, e.nl, []);
      assert ls == [[]] && ReplaceLines(ls, CONTENT_LENGTH, Itoa(2 * |e.body|)) == [[]];
    }
  }

  lemma UnmarkedLines(ls: seq<Bytes>, headers: Bytes, n: nat)
    requires FirstValue(ls, BINARY_BODY).None?
    ensures RemoveLines(MarkedLines(ls, headers, n), BINARY_BODY) ==
            if headers != [] then ReplaceLines(ls, CONTENT_LENGTH, Itoa(n)) else []
  {
    var base := if headers != [] then ls else [];
    var kept := ReplaceLines(base, CONTENT_LENGTH, Itoa(n));
    MarkLine();
    ItoaDecimal(n);
    FirstValueKept(base, Itoa(n), BINARY_BODY);
    assert MarkedLines(ls, headers, n) == kept + [MARK_LINE];
    RemoveAppended(kept, MARK_LINE, BINARY_BODY);
  }

  lemma HexBody(b64: Base64, body: Bytes)
    ensures DecodeBody(b64, HEX, HexEncode(body)) == Some(body)
  {
    TrimSpaceGraphic(HexEncode(body));
    TrimSpaceGraphic(HEX);
    assert ToLower(HEX) == HEX;
    HexRoundTrip(body);
  }

  /** Restoring a hex entity yields the old body under the old headers, Content-Length rewritten. */
  lemma RestoredPart(b64: Base64, e: Entity)
    requires Newline(e.nl) && !Marked(e)
    requires SplitSip(Unsplit(HexEntity(e))) == Some(HexEntity(e))
    requires Split(HexEntity(e).headers, e.nl) == MarkedLines(Split(e.headers, e.nl), e.headers, 2 * |e.body|)
    ensures RestorePart(b64, Unsplit(HexEntity(e))) ==
            Unsplit(Entity(Relength(e.headers, e.nl, |e.body|), e.nl, e.body))
  {
    HexHeaders(e);
    UnmarkedHeaders(e);
    HexBody(b64, e.body);
    RelengthKeeps(e.headers, e.nl, 2 * |e.body|, |e.body|);
  }
}
