/**
  What survives the rewriting of a MIME part: the delimiters around it are found at the same places
  and its header block is split off again at the same blank line. Delimiters are those of
  RFC 2046, section 5.1.1: they hold no line breaks.
  */
module Segments {
  import opened Octets
  import opened Text
  import opened SipText
  import opened Utf8
  import opened IsupPreserve

  ghost predicate IsMarker(m: Bytes) {
    |m| >= 3 && m[0] == DASH && m[1] == DASH && CR !in m && LF !in m
  }

  /** Lower-case hexadecimal text, possibly empty: all the bodies the codecs write. */
  ghost predicate HexText(body: Bytes) {
    forall i :: 0 <= i < |body| ==> Digit(body[i]) || 97 <= body[i] <= 102
  }

  // ---------------------------------------------------------------- rewriting Content-Length

  lemma ItoaDecimal(n: nat)
    ensures Decimal(Itoa(n))
  {
  }

  lemma {:induction false} FirstValueKept(ls: seq<Bytes>, v: Bytes, name: Bytes)
    requires Decimal(v) && (name == CONTENT_TYPE || name == BINARY_BODY)
    ensures FirstValue(ReplaceLines(ls, CONTENT_LENGTH, v), name) == FirstValue(ls, name)
  {
    if ls == [] {
    } else {
      FirstValueKept(ls[1..], v, name);
      Rewritten(ls[0], v, v);
      assert ReplaceLines(ls, CONTENT_LENGTH, v)[1..] == ReplaceLines(ls[1..], CONTENT_LENGTH, v);
    }
  }

  lemma RelengthLines(headers: Bytes, nl: Bytes, n: nat)
    requires Newline(nl)
    ensures var ls := Split(headers, nl);
            var to := ReplaceLines(ls, CONTENT_LENGTH, Itoa(n));
            Edited(ls, to) && Lines(to, nl) && Split(Relength(headers, nl, n), nl) == to
  {
    var ls := Split(headers, nl);
    var to := ReplaceLines(ls, CONTENT_LENGTH, Itoa(n));
    ItoaDecimal(n);
    forall i | 0 <= i < |to| ensures to[i] == ls[i] || Plain(to[i]) {
      Rewritten(ls[i], Itoa(n), Itoa(n));
    }
    SplitLines(headers, nl);
    EditedLines(ls, to, nl);
    JoinLines(to, nl);
  }

  /** A later length overwrites an earlier one, and the other headers keep their values. */
  lemma RelengthKeeps(headers: Bytes, nl: Bytes, n: nat, k: nat)
    requires Newline(nl)
    ensures Relength(Relength(headers, nl, n), nl, k) == Relength(headers, nl, k)
    ensures forall name :: name == CONTENT_TYPE || name == BINARY_BODY ==>
              HeaderValue(Relength(headers, nl, n), nl, name) == HeaderValue(headers, nl, name)
  {
    var ls := Split(headers, nl);
    var to := ReplaceLines(ls, CONTENT_LENGTH, Itoa(n));
    RelengthLines(headers, nl, n);
    ItoaDecimal(n);
    forall i | 0 <= i < |ls|
      ensures ReplaceLine(to[i], CONTENT_LENGTH, Itoa(k)) == ReplaceLine(ls[i], CONTENT_LENGTH, Itoa(k))
    {
      Rewritten(ls[i], Itoa(n), Itoa(k));
    }
    assert ReplaceLines(to, CONTENT_LENGTH, Itoa(k)) == ReplaceLines(ls, CONTENT_LENGTH, Itoa(k));
    FirstValueKept(ls, Itoa(n), CONTENT_TYPE);
    FirstValueKept(ls, Itoa(n), BINARY_BODY);
  }

  lemma SetSipBodyIs(headers: Bytes, nl: Bytes, body: Bytes)
    requires Newline(nl)
    ensures SetSipBody(headers, nl, body) == Unsplit(Entity(Relength(headers, nl, |body|), nl, body))
  {
    if headers == [] {
      assert Split(headers, nl) == [[]];
      assert ReplaceLines([[]], CONTENT_LENGTH, Itoa(|body|)) == [[]];
    }
  }

  /** An entity with a new length and body is split at the same place and keeps its types. */
  lemma Resplit(e: Entity, n: nat, body: Bytes)
    requires CutAtBlank(e) && (e.nl == NL ==> Free(body, CRLF2))
    ensures var f := Entity(Relength(e.headers, e.nl, n), e.nl, body);
            && CutAtBlank(f) && SplitSip(Unsplit(f)) == Some(f)
            && ContentType(f) == ContentType(e) && Marked(f) == Marked(e)
  {
    RelengthLines(e.headers, e.nl, n);
    RelengthKeeps(e.headers, e.nl, n, n);
    EditedSplit(e, ReplaceLines(Split(e.headers, e.nl), CONTENT_LENGTH, Itoa(n)), body);
  }

  /** Every Content-Length line reads `name: n` with the length of the body; there may be none. */
  ghost predicate Canonical(e: Entity)
    requires e.nl != []
  {
    var ls := Split(e.headers, e.nl);
    forall i :: 0 <= i < |ls| && IsHeader(ls[i], CONTENT_LENGTH) ==>
      ls[i] == SplitHeaderLine(ls[i]).value.name + [COLON, SPACE] + Itoa(|e.body|)
  }

  lemma CanonicalIff(e: Entity)
    requires Newline(e.nl)
    ensures Canonical(e) <==> Relength(e.headers, e.nl, |e.body|) == e.headers
  {
    var ls := Split(e.headers, e.nl);
    var to := ReplaceLines(ls, CONTENT_LENGTH, Itoa(|e.body|));
    SplitLines(e.headers, e.nl);
    RelengthLines(e.headers, e.nl, |e.body|);
    if Relength(e.headers, e.nl, |e.body|) == e.headers {
      assert to == ls;
    }
    if Canonical(e) {
      assert to == ls;
    }
  }

  // ---------------------------------------------------------------- the head of a part

  lemma HeaderHead(ls: seq<Bytes>, nl: Bytes, tail: Bytes)
    requires |ls| >= 1
    ensures HasPrefix(Join(ls, nl) + nl + nl + tail, ls[0] + nl)
  {
    var s := Join(ls, nl) + nl + nl + tail;
    var rest := if |ls| == 1 then nl + tail else Join(ls[1..], nl) + nl + nl + tail;
    assert s == (ls[0] + nl) + rest;
  }

  /** The first line of an edited block does not start with a newline or dashes the old one lacked. */
  lemma EditedHead(from: seq<Bytes>, to: seq<Bytes>, nl: Bytes, t: Bytes, u: Bytes, p: Bytes)
    requires Newline(nl) && |from| >= 1 && Edited(from, to)
    requires p == CRLF || p == NL || p == DASHES
    requires HasPrefix(Join(to, nl) + nl + nl + u, p)
    ensures HasPrefix(Join(from, nl) + nl + nl + t, p)
  {
    HeaderHead(from, nl, t);
    HeaderHead(to, nl, u);
    var after := Join(to, nl) + nl + nl + u;
    var before := Join(from, nl) + nl + nl + t;
    var x := to[0] + nl;
    assert after[..|x|] == x;
    assert after[0] == x[0] == p[0];
    assert |p| == 2 && |x| >= 2 ==> after[1] == x[1] == p[1];
    if !Plain(to[0]) {
      assert before[..|x|] == x;
      assert before[..|p|] == p;
    }
  }

  lemma LeadOf(lead: Bytes, rest: Bytes, nl: Bytes)
    requires lead == nl || (lead == [] && !HasPrefix(rest, nl))
    ensures var s := lead + rest; (if HasPrefix(s, nl) then nl else []) == lead && s[|lead|..] == rest
  {
    var s := lead + rest;
    if lead == nl {
      assert s[..|nl|] == nl;
    } else {
      assert s == rest;
    }
  }

  lemma TrailOf(part: Bytes, trail: Bytes, nl: Bytes)
    requires trail == nl || (trail == [] && !HasSuffix(part, nl))
    ensures var s := part + trail; (if HasSuffix(s, nl) then nl else []) == trail && s[..|s| - |trail|] == part
  {
    var s := part + trail;
    if trail == nl {
      assert s[|s| - |nl|..] == nl;
    } else {
      assert s == part;
    }
  }

  lemma NotClosing(lead: Bytes, rest: Bytes, nl: Bytes)
    requires Newline(nl) && (lead == nl || (lead == [] && !HasPrefix(rest, DASHES)))
    ensures !Closing(lead + rest)
  {
    if lead == nl {
      assert (lead + rest)[0] == nl[0];
    } else {
      assert lead + rest == rest;
    }
  }

  lemma Reframe(f: Framed, nl: Bytes)
    requires Newline(nl)
    requires f.lead == nl || (f.lead == [] && !HasPrefix(f.part + f.trail, nl) && !HasPrefix(f.part + f.trail, DASHES))
    requires f.trail == nl || (f.trail == [] && !HasSuffix(f.part, nl))
    ensures Frame(Unframe(f), nl) == f && !Closing(Unframe(f))
  {
    hide HasPrefix, HasSuffix, Closing, Newline;
    var rest := f.part + f.trail;
    Assoc(f.lead, f.part, f.trail);
    LeadOf(f.lead, rest, nl);
    TrailOf(f.part, f.trail, nl);
    NotClosing(f.lead, rest, nl);
  }

  // ---------------------------------------------------------------- a rewritten segment

  lemma HexTextFree(body: Bytes, p: Bytes)
    requires HexText(body) && p != [] && (p[0] == CR || p[0] == DASH)
    ensures Free(body, p)
  {
    forall i ensures !At(body, p, i) {
      if At(body, p, i) { AtCovers(body, p, i, i); }
    }
  }

  /** Where LF ends the lines of the message, it ends the lines of the part too. */
  lemma PartNewline(seg: Bytes, nl: Bytes)
    requires PartOf(seg, nl).Some? && Free(seg, CRLF2)
    ensures PartOf(seg, nl).value.nl == NL
    ensures CutAtBlank(PartOf(seg, nl).value)
  {
    var f := Frame(seg, nl);
    FreeSub(f.lead, f.part, f.trail, CRLF2);
    SplitSipGives(f.part);
  }

  /** A part ends before the newline of its delimiter, so that the part is found again. */
  ghost predicate EndsInNewline(seg: Bytes, nl: Bytes)
    requires PartOf(seg, nl).Some?
  {
    Frame(seg, nl).trail == nl || PartOf(seg, nl).value.nl != nl
  }

  lemma SuffixEnds(s: Bytes, p: Bytes)
    requires p != []
    ensures HasSuffix(s, p) ==> s[|s| - 1] == p[|p| - 1] && s[|s| - |p|] == p[0]
  {
    if HasSuffix(s, p) {
      var t := s[|s| - |p|..];
      assert t[|p| - 1] == s[|s| - 1] && t[0] == s[|s| - |p|];
    }
  }

  lemma EndOfPart(h: Bytes, pnl: Bytes, body: Bytes, nl: Bytes)
    requires Newline(pnl) && Newline(nl) && HexText(body)
    requires body == [] ==> nl == CRLF && pnl == NL
    ensures !HasSuffix(h + pnl + pnl + body, nl)
  {
    var s := h + pnl + pnl + body;
    SuffixEnds(s, nl);
    if body != [] {
      assert s[|s| - 1] == body[|body| - 1];
    } else {
      assert s[|s| - 1] == LF && s[|s| - 2] == LF;
    }
  }

  lemma EditedLead(f: Framed, e: Entity, nl: Bytes, to: seq<Bytes>, body: Bytes)
    requires Newline(nl) && Newline(e.nl) && f.part == Unsplit(e)
    requires Edited(Split(e.headers, e.nl), to)
    requires !HasPrefix(f.part + f.trail, nl) && !HasPrefix(f.part + f.trail, DASHES)
    ensures var part := Unsplit(Entity(Join(to, e.nl), e.nl, body));
            !HasPrefix(part + f.trail, nl) && !HasPrefix(part + f.trail, DASHES)
  {
    var from := Split(e.headers, e.nl);
    SplitLines(e.headers, e.nl);
    Assoc(e.headers + e.nl + e.nl, e.body, f.trail);
    Assoc(Join(to, e.nl) + e.nl + e.nl, body, f.trail);
    var part := Unsplit(Entity(Join(to, e.nl), e.nl, body));
    if HasPrefix(part + f.trail, nl) {
      EditedHead(from, to, e.nl, e.body + f.trail, body + f.trail, nl);
    }
    if HasPrefix(part + f.trail, DASHES) {
      EditedHead(from, to, e.nl, e.body + f.trail, body + f.trail, DASHES);
    }
  }

  /** A rewritten part keeps its frame. */
  lemma EditedFrame(seg: Bytes, nl: Bytes, to: seq<Bytes>, body: Bytes)
    requires Newline(nl) && PartOf(seg, nl).Some? && HexText(body)
    requires Edited(Split(PartOf(seg, nl).value.headers, PartOf(seg, nl).value.nl), to)
    requires body == [] ==> EndsInNewline(seg, nl)
    requires nl == NL ==> Free(seg, CRLF2)
    ensures var e := PartOf(seg, nl).value;
            var part := Unsplit(Entity(Join(to, e.nl), e.nl, body));
            var s := WithPart(seg, nl, part);
            Frame(s, nl) == Frame(seg, nl).(part := part) && !Closing(s)
  {
    var f := Frame(seg, nl);
    var e := PartOf(seg, nl).value;
    var part := Unsplit(Entity(Join(to, e.nl), e.nl, body));
    SplitSipGives(f.part);
    if nl == NL { PartNewline(seg, nl); }
    if f.lead == [] {
      assert seg == f.part + f.trail;
      EditedLead(f, e, nl, to, body);
    }
    if f.trail == [] {
      EndOfPart(Join(to, e.nl), e.nl, body, nl);
    }
    Reframe(f.(part := part), nl);
  }

  lemma NewlineApart(nl: Bytes, marker: Bytes)
    requires Newline(nl) && IsMarker(marker)
    ensures Apart(nl, marker) && Apart(marker, CRLF2) && Apart(marker, nl)
  {
    assert forall i :: 0 <= i < |marker| ==> marker[i] in marker;
  }

  /** A rewritten part holds no delimiter and runs into none. */
  lemma EditedClean(seg: Bytes, nl: Bytes, to: seq<Bytes>, body: Bytes, marker: Bytes)
    requires Newline(nl) && PartOf(seg, nl).Some? && HexText(body)
    requires Edited(Split(PartOf(seg, nl).value.headers, PartOf(seg, nl).value.nl), to)
    requires IsMarker(marker) && Free(seg, marker)
    ensures var e := PartOf(seg, nl).value;
            Clean(WithPart(seg, nl, Unsplit(Entity(Join(to, e.nl), e.nl, body))), marker)
  {
    var f := Frame(seg, nl);
    var e := PartOf(seg, nl).value;
    var h := Join(to, e.nl);
    SplitSipGives(f.part);
    FreeSub(f.lead, f.part, f.trail, marker);
    HeadersFree(e, marker);
    EditedFree(e.headers, e.nl, to, marker);
    TailClean(body, f.trail, marker);
    CleanPart(h, e.nl, body + f.trail, marker);
    Assoc(h + e.nl + e.nl, body, f.trail);
    Assoc(f.lead, Unsplit(Entity(h, e.nl, body)), f.trail);
    LeadClean(f.lead, Unsplit(Entity(h, e.nl, body)) + f.trail, nl, marker);
  }

  lemma HeadersFree(e: Entity, marker: Bytes)
    requires Newline(e.nl) && IsMarker(marker) && Free(Unsplit(e), marker)
    ensures Free(e.headers, marker)
  {
    NewlineApart(e.nl, marker);
    Assoc(e.headers + e.nl, e.nl, e.body);
    Assoc(e.headers, e.nl, e.nl + e.body);
    FreeApart(e.headers, e.nl, e.nl + e.body, marker);
  }

  lemma LeadClean(lead: Bytes, rest: Bytes, nl: Bytes, marker: Bytes)
    requires Newline(nl) && IsMarker(marker) && Clean(rest, marker) && (lead == [] || lead == nl)
    ensures Clean(lead + rest, marker)
  {
    if lead == [] {
      assert lead + rest == rest;
    } else {
      NewlineApart(nl, marker);
      assert Free([], marker);
      CleanApart([], nl, rest, marker);
      assert [] + nl + rest == nl + rest;
    }
  }

  lemma TailClean(body: Bytes, trail: Bytes, marker: Bytes)
    requires HexText(body) && IsMarker(marker) && (trail == [] || Newline(trail))
    ensures Clean(body + trail, marker)
  {
    var b := body + trail;
    forall i | i < |b| ensures !At(b + marker, marker, i) {
      if At(b + marker, marker, i) { AtCovers(b + marker, marker, i, i); }
    }
  }

  lemma CleanPart(h: Bytes, nl: Bytes, t: Bytes, marker: Bytes)
    requires Newline(nl) && IsMarker(marker) && Free(h, marker) && Clean(t, marker)
    ensures Clean(h + nl + nl + t, marker)
  {
    NewlineApart(nl, marker);
    CleanApart([], nl, t, marker);
    assert [] + nl + t == nl + t;
    CleanApart(h, nl, nl + t, marker);
    Assoc(h + nl, nl, t);
  }

  lemma CleanApart(a: Bytes, sep: Bytes, b: Bytes, p: Bytes)
    requires Apart(sep, p) && Free(a, p) && Clean(b, p)
    ensures Clean(a + sep + b, p)
  {
    var s := a + sep + b;
    var k := |a| + |sep| - 1;
    FreeApart(a, sep, [], p);
    assert a + sep + [] == a + sep;
    Assoc(a + sep, b, p);
    assert (s + p)[k] == sep[|sep| - 1];
    forall i | i < |s| ensures !At(s + p, p, i) {
      if i + |p| <= k + 1 {
        AtLeft(a + sep, b + p, p, i);
      } else if i > k {
        AtRight(a + sep, b + p, p, i);
      } else if At(s + p, p, i) {
        AtCovers(s + p, p, i, k);
      }
    }
  }

  lemma CrlfFrame(lead: Bytes, part: Bytes, trail: Bytes)
    requires (lead == [] || lead == NL) && (trail == [] || trail == NL)
    requires Free(part, CRLF2) && part != [] && part[|part| - 1] != CR
    ensures Free(lead + part + trail, CRLF2)
  {
    var r := part + trail;
    Assoc(lead, part, trail);
    assert r[|part| - 1] != CR;
    forall i ensures !At(r, CRLF2, i) {
      AtCrlf2(r, i);
      if i + 4 <= |part| { AtLeft(part, trail, CRLF2, i); }
    }
    forall i ensures !At(lead + r, CRLF2, i) {
      AtCrlf2(lead + r, i);
      if i >= |lead| { AtRight(lead, r, CRLF2, i); }
    }
  }

  /** Where LF ends the lines, a rewritten segment still holds no CR LF CR LF. */
  lemma EditedCrlfFree(seg: Bytes, to: seq<Bytes>, body: Bytes)
    requires PartOf(seg, NL).Some? && HexText(body) && Free(seg, CRLF2)
    requires Edited(Split(PartOf(seg, NL).value.headers, PartOf(seg, NL).value.nl), to)
    ensures var e := PartOf(seg, NL).value;
            Free(WithPart(seg, NL, Unsplit(Entity(Join(to, e.nl), e.nl, body))), CRLF2)
  {
    var f := Frame(seg, NL);
    var e := PartOf(seg, NL).value;
    PartNewline(seg, NL);
    HexTextFree(body, CRLF2);
    EditedSplit(e, to, body);
    var part := Unsplit(Entity(Join(to, NL), NL, body));
    assert part[|part| - 1] != CR by {
      if body != [] { assert part[|part| - 1] == body[|body| - 1]; }
    }
    CrlfFrame(f.lead, part, f.trail);
  }

  /** Everything about one rewritten segment. */
  lemma SegmentEdited(seg: Bytes, nl: Bytes, to: seq<Bytes>, body: Bytes, marker: Bytes)
    requires Newline(nl) && PartOf(seg, nl).Some? && HexText(body)
    requires Edited(Split(PartOf(seg, nl).value.headers, PartOf(seg, nl).value.nl), to)
    requires body == [] ==> EndsInNewline(seg, nl)
    requires IsMarker(marker) && Free(seg, marker)
    requires nl == NL ==> Free(seg, CRLF2)
    ensures var e := PartOf(seg, nl).value;
            var f := Entity(Join(to, e.nl), e.nl, body);
            var s := WithPart(seg, nl, Unsplit(f));
            && PartOf(s, nl) == Some(f)
            && Frame(s, nl) == Frame(seg, nl).(part := Unsplit(f))
            && Split(f.headers, f.nl) == to
            && Clean(s, marker)
            && (nl == NL ==> Free(s, CRLF2))
  {
    var e := PartOf(seg, nl).value;
    SplitSipGives(Frame(seg, nl).part);
    HexTextFree(body, CRLF2);
    EditedSplit(e, to, body);
    EditedFrame(seg, nl, to, body);
    EditedClean(seg, nl, to, body, marker);
    if nl == NL { EditedCrlfFree(seg, to, body); }
  }

  // ---------------------------------------------------------------- all segments of a body

  /** `to` keeps a segment of `from` or has a clean one in its place; the preamble stays. */
  ghost predicate Recut(from: seq<Bytes>, to: seq<Bytes>, nl: Bytes, marker: Bytes) {
    |from| == |to| && forall i :: 0 <= i < |to| ==>
      to[i] == from[i] || (Clean(to[i], marker) && (nl == NL ==> Free(to[i], CRLF2)))
  }

  lemma RecutHead(segs: seq<Bytes>, ds: seq<Bytes>, nl: Bytes, marker: Bytes)
    requires segs != [] && Recut(segs[1..], ds, nl, marker)
    ensures Recut(segs, [segs[0]] + ds, nl, marker)
  {
    hide Clean, Free;
    var to := [segs[0]] + ds;
    assert forall i :: 1 <= i < |to| ==> to[i] == ds[i - 1] && segs[i] == segs[1..][i - 1];
  }

  lemma RecutPieces(from: seq<Bytes>, to: seq<Bytes>, nl: Bytes, marker: Bytes)
    requires marker != [] && Pieces(from, marker) && Recut(from, to, nl, marker)
    ensures Pieces(to, marker)
  {
    forall i | 0 <= i < |to| ensures i < |to| - 1 ==> Clean(to[i], marker) {
      if to[i] == from[i] && i < |to| - 1 { assert Clean(from[i], marker); }
    }
    var k := |to| - 1;
    if to[k] != from[k] { CleanIsFree(to[k], marker); }
  }

  /** The new body is cut at its markers into the new segments. */
  lemma RecutSplit(body: Bytes, to: seq<Bytes>, nl: Bytes, marker: Bytes)
    requires Newline(nl) && IsMarker(marker) && Recut(Split(body, marker), to, nl, marker)
    requires nl == NL ==> Free(body, CRLF2)
    ensures Split(Join(to, marker), marker) == to
    ensures nl == NL ==> Free(Join(to, marker), CRLF2)
  {
    var from := Split(body, marker);
    JoinSplit(body, marker);
    RecutPieces(from, to, nl, marker);
    SplitJoin(to, marker);
    if nl == NL {
      NewlineApart(nl, marker);
      FreeJoin(from, marker, CRLF2);
      FreeJoin(to, marker, CRLF2);
    }
  }

  lemma SegmentFree(body: Bytes, marker: Bytes, i: nat)
    requires IsMarker(marker) && i < |Split(body, marker)|
    ensures Free(Split(body, marker)[i], marker)
    ensures Free(body, CRLF2) ==> Free(Split(body, marker)[i], CRLF2)
  {
    var segs := Split(body, marker);
    JoinSplit(body, marker);
    if i < |segs| - 1 { CleanIsFree(segs[i], marker); }
    NewlineApart(NL, marker);
    FreeJoin(segs, marker, CRLF2);
  }
}
