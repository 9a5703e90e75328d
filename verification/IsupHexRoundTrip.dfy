/**
  RestoreBinarySIPPayload undoes PreserveBinarySIPPayload, and exactly when it does
  (src/isup/preserve.go).
  */
module IsupHexRoundTrip {
  import opened Octets
  import opened Text
  import opened SipText
  import opened Utf8
  import opened IsupPreserve
  import opened Segments
  import opened IsupHex
  import opened IsupRoundTrip

  // ---------------------------------------------------------------- plain payloads

  lemma HexEntitySplit(e: Entity)
    requires CutAtBlank(e)
    ensures CutAtBlank(HexEntity(e)) && SplitSip(Unsplit(HexEntity(e))) == Some(HexEntity(e))
    ensures Split(HexEntity(e).headers, e.nl) == MarkedLines(Split(e.headers, e.nl), e.headers, 2 * |e.body|)
    ensures HexText(HexEncode(e.body))
  {
    var encoded := HexEncode(e.body);
    MarkedLinesEdit(e, |encoded|);
    HexTextFree(encoded, CRLF2);
    EditedSplit(e, MarkedLines(Split(e.headers, e.nl), e.headers, |encoded|), encoded);
  }

  /** Any unmarked payload that is not multipart comes back when its length line is canonical. */
  lemma PlainHexRoundTrip(mime: Mime, b64: Base64, m: Bytes)
    requires PlainPayload(mime, m) && !Marked(SplitSip(m).value)
    ensures Restore(mime, b64, Preserve(mime, m)) == m <==>
            Safe(m) || Safe(SplitSip(m).value.body) || Canonical(SplitSip(m).value)
  {
    var e := SplitSip(m).value;
    if !Safe(m) && !Safe(e.body) {
      SplitSipGives(m);
      PreservedPart(m);
      HexEntitySplit(e);
      HexHeaders(e);
      RestoredPart(b64, e);
      CanonicalIff(e);
      SameHeaders(Relength(e.headers, e.nl, |e.body|), e.headers, e.nl, e.body);
    }
  }

  // ---------------------------------------------------------------- one segment

  /** Does PreserveBinarySIPPayload rewrite the part in this segment? */
  predicate Rewrites(seg: Bytes, nl: Bytes) {
    PartOf(seg, nl).Some? && !Safe(PartOf(seg, nl).value.body) && !Marked(PartOf(seg, nl).value)
  }

  /** The segment with the Content-Length lines of its rewritten part made canonical. */
  function Renewed(seg: Bytes, nl: Bytes): Bytes {
    if Rewrites(seg, nl) then
      var e := PartOf(seg, nl).value;
      WithPart(seg, nl, Unsplit(Entity(Relength(e.headers, e.nl, |e.body|), e.nl, e.body)))
    else seg
  }

  lemma PreservedSegment(seg: Bytes, nl: Bytes, marker: Bytes)
    requires Segment(seg, nl, marker) && Rewrites(seg, nl)
    ensures var e := PartOf(seg, nl).value;
            var s := MapSegment(seg, nl, PreservePart);
            && CutAtBlank(e) && Unsplit(e) == Frame(seg, nl).part
            && PartOf(s, nl) == Some(HexEntity(e)) && !Closing(s)
            && Frame(s, nl) == Frame(seg, nl).(part := Unsplit(HexEntity(e)))
            && Clean(s, marker) && (nl == NL ==> Free(s, CRLF2))
  {
    var e := PartOf(seg, nl).value;
    SplitSipGives(Frame(seg, nl).part);
    PreservedPart(Frame(seg, nl).part);
    MarkedLinesEdit(e, 2 * |e.body|);
    HexNonempty(e.body);
    SegmentEdited(seg, nl, MarkedLines(Split(e.headers, e.nl), e.headers, 2 * |e.body|), HexEncode(e.body), marker);
  }

  lemma HexNonempty(body: Bytes)
    requires !Safe(body)
    ensures HexEncode(body) != []
  {
  }

  /** One segment, there and back. */
  lemma SegmentThereAndBack(b64: Base64, seg: Bytes, nl: Bytes, marker: Bytes)
    requires Segment(seg, nl, marker)
    requires PartOf(seg, nl).Some? ==> !Marked(PartOf(seg, nl).value)
    ensures var s := MapSegment(seg, nl, PreservePart);
            && (s == seg || (Clean(s, marker) && (nl == NL ==> Free(s, CRLF2))))
            && MapSegment(s, nl, Restorer(b64)) == Renewed(seg, nl)
            && (s != seg <==> Rewrites(seg, nl))
            && (Rewrites(seg, nl) ==> Renewed(seg, nl) != s)
  {
    if Rewrites(seg, nl) {
      var e := PartOf(seg, nl).value;
      PreservedSegment(seg, nl, marker);
      HexEntitySplit(e);
      RestoredPart(b64, e);
      HexDiffers(e);
      var f := Frame(seg, nl);
      Cancel(f.lead, Unsplit(HexEntity(e)), f.part, f.trail);
      Cancel(f.lead, Unsplit(HexEntity(e)), Unsplit(Entity(Relength(e.headers, e.nl, |e.body|), e.nl, e.body)),
              f.trail);
    }
  }

  /** The hex form is a different text: it alone carries the mark. */
  lemma HexDiffers(e: Entity)
    requires CutAtBlank(e) && !Marked(e)
    ensures Unsplit(HexEntity(e)) != Unsplit(e)
    ensures Unsplit(HexEntity(e)) != Unsplit(Entity(Relength(e.headers, e.nl, |e.body|), e.nl, e.body))
  {
    HexEntitySplit(e);
    HexHeaders(e);
    SplitSipFinds(e);
    if e.nl == NL { CrlfAcross(e.headers, e.body); }
    Resplit(e, |e.body|, e.body);
  }

  /** A renewed segment in front of the same text is the segment itself. */
  lemma RenewedCancel(seg: Bytes, nl: Bytes, t: Bytes, u: Bytes)
    requires Newline(nl) && Renewed(seg, nl) + t == seg + u
    ensures Renewed(seg, nl) == seg && t == u
  {
    if Rewrites(seg, nl) {
      var f := Frame(seg, nl);
      var e := PartOf(seg, nl).value;
      SplitSipGives(f.part);
      RelengthClean(e, |e.body|);
      RenewedFront(f, e, Relength(e.headers, e.nl, |e.body|), t, u);
    } else {
      CancelLeft(seg, t, u);
    }
  }

  lemma RenewedFront(f: Framed, e: Entity, h: Bytes, t: Bytes, u: Bytes)
    requires f.part == Unsplit(e) && Clean(h, Blank(e.nl)) && Clean(e.headers, Blank(e.nl))
    requires f.lead + Unsplit(e.(headers := h)) + f.trail + t == f.lead + f.part + f.trail + u
    ensures h == e.headers && t == u
  {
    var y := e.body + f.trail;
    FrontText(f.lead, h, e, f.trail, t);
    FrontText(f.lead, e.headers, e, f.trail, u);
    CancelLeft(f.lead, h + Blank(e.nl) + (y + t), e.headers + Blank(e.nl) + (y + u));
    CleanUnique(h, e.headers, Blank(e.nl), y + t, y + u);
    CancelLeft(y, t, u);
  }

  lemma FrontText(lead: Bytes, h: Bytes, e: Entity, trail: Bytes, t: Bytes)
    ensures lead + Unsplit(e.(headers := h)) + trail + t ==
            lead + (h + Blank(e.nl) + ((e.body + trail) + t))
  {
    Assoc(h, e.nl, e.nl);
    Assoc(h + Blank(e.nl), e.body, trail);
    Assoc(h + Blank(e.nl), e.body + trail, t);
    Assoc(lead, Unsplit(e.(headers := h)), trail);
    Assoc(lead, Unsplit(e.(headers := h)) + trail, t);
  }

  function JoinRest(ps: seq<Bytes>, sep: Bytes): Bytes {
    if ps == [] then [] else sep + Join(ps, sep)
  }

  lemma JoinHead(ps: seq<Bytes>, sep: Bytes)
    requires |ps| >= 1
    ensures Join(ps, sep) == ps[0] + JoinRest(ps[1..], sep)
  {
    if |ps| > 1 { Assoc(ps[0], sep, Join(ps[1..], sep)); }
  }

  /** Texts joined from renewed segments are equal only segment by segment. */
  lemma {:induction false} RenewedJoin(ss: seq<Bytes>, rs: seq<Bytes>, nl: Bytes, marker: Bytes)
    requires Newline(nl) && |ss| == |rs| >= 1
    requires forall i :: 0 <= i < |ss| ==> rs[i] == ss[i] || rs[i] == Renewed(ss[i], nl)
    requires Join(rs, marker) == Join(ss, marker)
    ensures rs == ss
  {
    JoinHead(ss, marker);
    JoinHead(rs, marker);
    var t, u := JoinRest(rs[1..], marker), JoinRest(ss[1..], marker);
    if rs[0] == ss[0] {
      CancelLeft(ss[0], t, u);
    } else {
      RenewedCancel(ss[0], nl, t, u);
    }
    if |ss| > 1 {
      CancelLeft(marker, Join(rs[1..], marker), Join(ss[1..], marker));
      RenewedJoin(ss[1..], rs[1..], nl, marker);
    }
    ConsEq(rs[0], rs[1..], ss);
    assert rs == [rs[0]] + rs[1..];
  }

  lemma RenewedIff(seg: Bytes, nl: Bytes)
    requires Newline(nl)
    ensures Renewed(seg, nl) == seg <==> (Rewrites(seg, nl) ==> Canonical(PartOf(seg, nl).value))
  {
    if Rewrites(seg, nl) {
      var f := Frame(seg, nl);
      var e := PartOf(seg, nl).value;
      var h := Relength(e.headers, e.nl, |e.body|);
      SplitSipGives(f.part);
      CanonicalIff(e);
      SameHeaders(h, e.headers, e.nl, e.body);
      Cancel(f.lead, Unsplit(Entity(h, e.nl, e.body)), f.part, f.trail);
    }
  }

  // ---------------------------------------------------------------- multipart payloads

  /** The pieces between the delimiters of a multipart payload; piece 0 is the preamble. */
  ghost function Cuts(mime: Mime, m: Bytes): seq<Bytes>
    requires MultipartPayload(mime, m)
  {
    Split(SplitSip(m).value.body, MarkerOf(mime, m))
  }

  /** No MIME part carries the mark of the hex form already. */
  ghost predicate NoMarks(segs: seq<Bytes>, nl: Bytes) {
    forall i :: 1 <= i < |segs| && PartOf(segs[i], nl).Some? ==> !Marked(PartOf(segs[i], nl).value)
  }

  ghost predicate RewritesAny(segs: seq<Bytes>, nl: Bytes) {
    exists i :: 1 <= i < |segs| && Rewrites(segs[i], nl)
  }

  /** Every Content-Length line of a rewritten part is canonical. */
  ghost predicate RewrittenCanonical(segs: seq<Bytes>, nl: Bytes) {
    forall i :: 1 <= i < |segs| && Rewrites(segs[i], nl) ==> Canonical(PartOf(segs[i], nl).value)
  }

  function RenewedBody(body: Bytes, marker: Bytes, nl: Bytes): (rs: seq<Bytes>)
    requires marker != []
    ensures |rs| == |Split(body, marker)| && rs[0] == Split(body, marker)[0]
    ensures forall i :: 1 <= i < |rs| ==> rs[i] == Renewed(Split(body, marker)[i], nl)
  {
    var segs := Split(body, marker);
    seq(|segs|, i requires 0 <= i < |segs| => if i == 0 then segs[0] else Renewed(segs[i], nl))
  }

  lemma MapBodyAt(body: Bytes, marker: Bytes, nl: Bytes, fn: Bytes -> Bytes)
    requires marker != []
    ensures var segs := Split(body, marker);
            var to := MapBody(body, marker, nl, fn);
            && |to| == |segs| && to[0] == segs[0]
            && forall i :: 1 <= i < |segs| ==> to[i] == MapSegment(segs[i], nl, fn)
  {
    hide Split, MapSegment, MapSegments;
    var segs := Split(body, marker);
    var more := MapSegments(segs[1..], nl, fn);
    forall i | 1 <= i < |segs| ensures ([segs[0]] + more)[i] == MapSegment(segs[i], nl, fn) {
      ConsAt(segs[0], more, i);
      assert segs[1..][i - 1] == segs[i];
    }
  }

  lemma ConsAt<T>(x: T, xs: seq<T>, i: nat)
    requires 1 <= i <= |xs|
    ensures ([x] + xs)[i] == xs[i - 1]
  {
  }

  lemma PreservedSegments(b64: Base64, e: Entity, marker: Bytes)
    requires CutAtBlank(e) && IsMarker(marker) && NoMarks(Split(e.body, marker), e.nl)
    ensures var segs := Split(e.body, marker);
            forall i :: 1 <= i < |segs| ==>
              var s := MapSegment(segs[i], e.nl, PreservePart);
              && (s == segs[i] || (Clean(s, marker) && (e.nl == NL ==> Free(s, CRLF2))))
              && MapSegment(s, e.nl, Restorer(b64)) == Renewed(segs[i], e.nl)
              && (s != segs[i] <==> Rewrites(segs[i], e.nl))
              && (Rewrites(segs[i], e.nl) ==> Renewed(segs[i], e.nl) != s)
  {
    var segs := Split(e.body, marker);
    AllAreSegments(e, marker);
    forall i | 1 <= i < |segs|
      ensures var s := MapSegment(segs[i], e.nl, PreservePart);
              && (s == segs[i] || (Clean(s, marker) && (e.nl == NL ==> Free(s, CRLF2))))
              && MapSegment(s, e.nl, Restorer(b64)) == Renewed(segs[i], e.nl)
              && (s != segs[i] <==> Rewrites(segs[i], e.nl))
              && (Rewrites(segs[i], e.nl) ==> Renewed(segs[i], e.nl) != s)
    {
      SegmentThereAndBack(b64, segs[i], e.nl, marker);
    }
  }

  /** The preserved body is cut where the body was, and restoring it renews each segment. */
  lemma PreservedBody(b64: Base64, e: Entity, marker: Bytes)
    requires CutAtBlank(e) && IsMarker(marker) && NoMarks(Split(e.body, marker), e.nl)
    ensures var to := MapBody(e.body, marker, e.nl, PreservePart);
            && Split(Join(to, marker), marker) == to
            && (e.nl == NL ==> Free(Join(to, marker), CRLF2))
            && MapBody(Join(to, marker), marker, e.nl, Restorer(b64)) == RenewedBody(e.body, marker, e.nl)
  {
    var to := MapBody(e.body, marker, e.nl, PreservePart);
    AllAreSegments(e, marker);
    PreservedSegments(b64, e, marker);
    MapBodyAt(e.body, marker, e.nl, PreservePart);
    RecutSplit(e.body, to, e.nl, marker);
    MapBodyAt(Join(to, marker), marker, e.nl, Restorer(b64));
  }

  /** The body changes exactly when a part is rewritten, and restoring then changes it again. */
  lemma PreservedChanges(b64: Base64, e: Entity, marker: Bytes)
    requires CutAtBlank(e) && IsMarker(marker) && NoMarks(Split(e.body, marker), e.nl)
    ensures var segs := Split(e.body, marker);
            var to := MapBody(e.body, marker, e.nl, PreservePart);
            && (to != segs <==> RewritesAny(segs, e.nl))
            && (to != segs ==> RenewedBody(e.body, marker, e.nl) != to)
  {
    var segs := Split(e.body, marker);
    var to := MapBody(e.body, marker, e.nl, PreservePart);
    PreservedSegments(b64, e, marker);
    MapBodyAt(e.body, marker, e.nl, PreservePart);
    if i :| 1 <= i < |segs| && Rewrites(segs[i], e.nl) {
      assert to[i] != segs[i] && RenewedBody(e.body, marker, e.nl)[i] != to[i];
    } else {
      assert to == segs;
    }
  }

  lemma RenewedAllIff(segs: seq<Bytes>, nl: Bytes)
    requires Newline(nl) && |segs| >= 1
    ensures (forall i :: 1 <= i < |segs| ==> Renewed(segs[i], nl) == segs[i]) <==> RewrittenCanonical(segs, nl)
  {
    forall i | 1 <= i < |segs|
      ensures Renewed(segs[i], nl) == segs[i] <==> (Rewrites(segs[i], nl) ==> Canonical(PartOf(segs[i], nl).value))
    {
      RenewedIff(segs[i], nl);
    }
  }

  lemma RenewedSame(e: Entity, marker: Bytes)
    requires Newline(e.nl) && IsMarker(marker)
    ensures var rs := RenewedBody(e.body, marker, e.nl); Join(rs, marker) == e.body <==> rs == Split(e.body, marker)
  {
    assert marker != [];
    hide *;
    var rs := RenewedBody(e.body, marker, e.nl);
    JoinSplit(e.body, marker);
    if Join(rs, marker) == e.body { RenewedJoin(Split(e.body, marker), rs, e.nl, marker); }
  }

  lemma RenewedBodyIff(e: Entity, marker: Bytes)
    requires Newline(e.nl) && IsMarker(marker)
    ensures Join(RenewedBody(e.body, marker, e.nl), marker) == e.body <==>
            RewrittenCanonical(Split(e.body, marker), e.nl)
  {
    assert marker != [];
    hide *;
    var segs := Split(e.body, marker);
    RenewedSame(e, marker);
    RenewedAllIff(segs, e.nl);
    assert RenewedBody(e.body, marker, e.nl) == segs <==>
           forall i :: 1 <= i < |segs| ==> Renewed(segs[i], e.nl) == segs[i];
  }

  /**
    A multipart payload without marks comes back from its hex form exactly when nothing was rewritten
    or the lengths that get rewritten are canonical. The newlines around the parts do not matter.
    */
  lemma MultipartHexRoundTrip(mime: Mime, b64: Base64, m: Bytes)
    requires MultipartPayload(mime, m) && !Marked(SplitSip(m).value)
    requires NoMarks(Cuts(mime, m), SplitSip(m).value.nl)
    ensures var e := SplitSip(m).value;
            var segs := Cuts(mime, m);
            Restore(mime, b64, Preserve(mime, m)) == m <==>
            || Safe(m)
            || !RewritesAny(segs, e.nl)
            || (Canonical(e) && RewrittenCanonical(segs, e.nl))
  {
    var e := SplitSip(m).value;
    var marker := MarkerOf(mime, m);
    SplitSipGives(m);
    PreservedChanges(b64, e, marker);
    if Safe(m) || !RewritesAny(Cuts(mime, m), e.nl) {
      assert Preserve(mime, m) == m;
      UnrewrittenRestores(mime, b64, m);
    } else {
      RestoredPayload(mime, b64, m);
      var rs := RenewedBody(e.body, marker, e.nl);
      var back := Join(rs, marker);
      RenewedBodyIff(e, marker);
      CanonicalIff(e);
      if Restore(mime, b64, Preserve(mime, m)) == m {
        RelengthClean(e, |back|);
        Assoc(e.headers, e.nl, e.nl);
        Assoc(Relength(e.headers, e.nl, |back|), e.nl, e.nl);
        CleanUnique(Relength(e.headers, e.nl, |back|), e.headers, Blank(e.nl), back, e.body);
      }
    }
  }

  lemma PreservedPayload(mime: Mime, b64: Base64, m: Bytes)
    requires MultipartPayload(mime, m) && !Marked(SplitSip(m).value) && !Safe(m)
    requires NoMarks(Cuts(mime, m), SplitSip(m).value.nl)
    requires RewritesAny(Cuts(mime, m), SplitSip(m).value.nl)
    ensures var e := SplitSip(m).value;
            var body := Join(MapBody(e.body, MarkerOf(mime, m), e.nl, PreservePart), MarkerOf(mime, m));
            Preserve(mime, m) == Unsplit(Entity(Relength(e.headers, e.nl, |body|), e.nl, body))
  {
    SplitSipGives(m);
    PreservedChanges(b64, SplitSip(m).value, MarkerOf(mime, m));
  }

  lemma RestoredPayload(mime: Mime, b64: Base64, m: Bytes)
    requires MultipartPayload(mime, m) && !Marked(SplitSip(m).value) && !Safe(m)
    requires NoMarks(Cuts(mime, m), SplitSip(m).value.nl)
    requires RewritesAny(Cuts(mime, m), SplitSip(m).value.nl)
    ensures var e := SplitSip(m).value;
            var back := Join(RenewedBody(e.body, MarkerOf(mime, m), e.nl), MarkerOf(mime, m));
            Restore(mime, b64, Preserve(mime, m)) == Unsplit(Entity(Relength(e.headers, e.nl, |back|), e.nl, back))
  {
    var e := SplitSip(m).value;
    var marker := MarkerOf(mime, m);
    var to := MapBody(e.body, marker, e.nl, PreservePart);
    var body := Join(to, marker);
    SplitSipGives(m);
    PreservedPayload(mime, b64, m);
    PreservedBody(b64, e, marker);
    assert RenewedBody(e.body, marker, e.nl) != to by { PreservedChanges(b64, e, marker); }
    Resplit(e, |body|, body);
    RelengthKeeps(e.headers, e.nl, |body|, |Join(RenewedBody(e.body, marker, e.nl), marker)|);
  }

  /** Text without hex parts is restored to itself. */
  lemma UnrewrittenRestores(mime: Mime, b64: Base64, m: Bytes)
    requires MultipartPayload(mime, m) && !Marked(SplitSip(m).value)
    requires NoMarks(Cuts(mime, m), SplitSip(m).value.nl)
    ensures Restore(mime, b64, m) == m
  {
    var e := SplitSip(m).value;
    var marker := MarkerOf(mime, m);
    var segs := Split(e.body, marker);
    var to := MapBody(e.body, marker, e.nl, Restorer(b64));
    MapBodyAt(e.body, marker, e.nl, Restorer(b64));
    assert to == segs;
  }
}
