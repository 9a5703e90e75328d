/**
  Nothing is lost: AttachISUPBody undoes DetachISUPBody (src/isup/preserve.go) on plain messages
  exactly when it should, and on all multipart messages that are restorable.
  */
module IsupRoundTrip {
  import opened Octets
  import opened Text
  import opened SipText
  import opened Utf8
  import opened IsupPreserve
  import opened IsupCarried
  import opened Segments
  import opened Envelope

  // ---------------------------------------------------------------- the ISUP parts of a body

  /** The bodies of all application/isup parts, in order. */
  function IsupBodies(mime: Mime, segs: seq<Bytes>, nl: Bytes): seq<Bytes> {
    if segs == [] then []
    else
      (match IsupOf(mime, segs[0], nl) case None => [] case Some(e) => [e.body]) +
      IsupBodies(mime, segs[1..], nl)
  }

  /** Every ISUP part ends before the newline of the next delimiter. */
  ghost predicate PartsEnd(mime: Mime, segs: seq<Bytes>, nl: Bytes) {
    forall i :: 0 <= i < |segs| && IsupOf(mime, segs[i], nl).Some? ==> EndsInNewline(segs[i], nl)
  }

  /** The same for the parts that are lifted. */
  ghost predicate LiftedEnd(mime: Mime, segs: seq<Bytes>, nl: Bytes) {
    forall i :: 0 <= i < |segs| && Lifts(mime, segs[i], nl) ==> EndsInNewline(segs[i], nl)
  }

  /** Every Content-Length line of an ISUP part is canonical. */
  ghost predicate PartsCanonical(mime: Mime, segs: seq<Bytes>, nl: Bytes) {
    forall i :: 0 <= i < |segs| && IsupOf(mime, segs[i], nl).Some? ==> Canonical(IsupOf(mime, segs[i], nl).value)
  }

  lemma {:induction false} LiftedAreUnsafe(mime: Mime, segs: seq<Bytes>, nl: Bytes)
    ensures LiftedBodies(mime, segs, nl) == UnsafeOnly(IsupBodies(mime, segs, nl))
    ensures |IsupBodies(mime, segs, nl)| == IsupCount(mime, segs, nl)
  {
    if segs == [] {
    } else {
      LiftedAreUnsafe(mime, segs[1..], nl);
      var e := IsupOf(mime, segs[0], nl);
      var rest := IsupBodies(mime, segs[1..], nl);
      if e.Some? {
        var bodies := [e.value.body] + rest;
        assert bodies[0] == e.value.body && bodies[1..] == rest;
        assert IsupBodies(mime, segs, nl) == bodies;
      } else {
        assert [] + rest == rest;
      }
    }
  }

  // ---------------------------------------------------------------- one segment

  /** Content of a body in which the delimiters can be told apart. */
  ghost predicate Segment(seg: Bytes, nl: Bytes, marker: Bytes) {
    Newline(nl) && IsMarker(marker) && Free(seg, marker) && (nl == NL ==> Free(seg, CRLF2))
  }

  lemma PartSplit(mime: Mime, seg: Bytes, nl: Bytes)
    requires IsupOf(mime, seg, nl).Some?
    ensures var e := IsupOf(mime, seg, nl).value; CutAtBlank(e) && Unsplit(e) == Frame(seg, nl).part
  {
    SplitSipGives(Frame(seg, nl).part);
  }

  /** An entity without its body has the types it had, and takes a body as it did. */
  lemma Emptied(mime: Mime, e: Entity, raw: Bytes)
    requires Newline(e.nl)
    ensures var f := Entity(Relength(e.headers, e.nl, 0), e.nl, []);
            && SetSipBody(e.headers, e.nl, []) == Unsplit(f)
            && IsIsup(mime, f) == IsIsup(mime, e)
            && SetSipBody(f.headers, e.nl, raw) == SetSipBody(e.headers, e.nl, raw)
            && SetSipBody(e.headers, e.nl, raw) == Unsplit(Entity(Relength(e.headers, e.nl, |raw|), e.nl, raw))
  {
    RelengthKeeps(e.headers, e.nl, 0, |raw|);
    SetSipBodyIs(e.headers, e.nl, []);
    SetSipBodyIs(e.headers, e.nl, raw);
    SetSipBodyIs(Relength(e.headers, e.nl, 0), e.nl, raw);
  }

  /** The same, for the segment around the entity. */
  lemma EmptiedSegment(mime: Mime, seg: Bytes, nl: Bytes, marker: Bytes)
    requires Segment(seg, nl, marker) && IsupOf(mime, seg, nl).Some? && EndsInNewline(seg, nl)
    ensures var e := IsupOf(mime, seg, nl).value;
            var f := Entity(Relength(e.headers, e.nl, 0), e.nl, []);
            var s := WithPart(seg, nl, SetSipBody(e.headers, e.nl, []));
            && Clean(s, marker) && (nl == NL ==> Free(s, CRLF2))
            && IsupOf(mime, s, nl) == Some(f)
            && Frame(s, nl) == Frame(seg, nl).(part := Unsplit(f))
  {
    var e := IsupOf(mime, seg, nl).value;
    RelengthLines(e.headers, e.nl, 0);
    SegmentEdited(seg, nl, ReplaceLines(Split(e.headers, e.nl), CONTENT_LENGTH, Itoa(0)), [], marker);
    Emptied(mime, e, []);
  }

  /** Detaching leaves the delimiters where they were. */
  lemma DetachedClean(mime: Mime, seg: Bytes, nl: Bytes, marker: Bytes)
    requires Segment(seg, nl, marker)
    ensures var s := DetachSegment(mime, seg, nl); s == seg || (Clean(s, marker) && (nl == NL ==> Free(s, CRLF2)))
  {
    if Lifts(mime, seg, nl) {
      var e := IsupOf(mime, seg, nl).value;
      var to := ReplaceLines(Split(e.headers, e.nl), CONTENT_LENGTH, Itoa(0));
      RelengthLines(e.headers, e.nl, 0);
      SetSipBodyIs(e.headers, e.nl, []);
      EditedClean(seg, nl, to, [], marker);
      if nl == NL { EditedCrlfFree(seg, to, []); }
    }
  }

  /** Where the lifted part ends in its newline, the part is found again. */
  lemma DetachedSegment(mime: Mime, seg: Bytes, nl: Bytes, marker: Bytes, raw: Bytes)
    requires Segment(seg, nl, marker)
    requires Lifts(mime, seg, nl) ==> EndsInNewline(seg, nl)
    ensures var s := DetachSegment(mime, seg, nl);
            && IsupOf(mime, s, nl).Some? == IsupOf(mime, seg, nl).Some?
            && AttachSegment(mime, s, nl, raw) == AttachSegment(mime, seg, nl, raw)
  {
    if Lifts(mime, seg, nl) {
      EmptiedSegment(mime, seg, nl, marker);
      Emptied(mime, IsupOf(mime, seg, nl).value, raw);
    }
  }

  /** Attaching gives the segment back exactly when it attaches the old body under the old length. */
  lemma AttachedSegment(mime: Mime, seg: Bytes, nl: Bytes, raw: Bytes)
    requires IsupOf(mime, seg, nl).Some?
    ensures var e := IsupOf(mime, seg, nl).value;
            AttachSegment(mime, seg, nl, raw) == seg <==> raw == e.body && Canonical(e)
  {
    var f := Frame(seg, nl);
    var e := IsupOf(mime, seg, nl).value;
    PartSplit(mime, seg, nl);
    SetSipBodyIs(e.headers, e.nl, raw);
    CanonicalIff(e);
    RelengthClean(e, |raw|);
    var part := Unsplit(Entity(Relength(e.headers, e.nl, |raw|), e.nl, raw));
    assert AttachSegment(mime, seg, nl, raw) == f.lead + part + f.trail;
    Cancel(f.lead, part, f.part, f.trail);
    if part == f.part {
      Assoc(e.headers, e.nl, e.nl);
      Assoc(Relength(e.headers, e.nl, |raw|), e.nl, e.nl);
      CleanUnique(e.headers, Relength(e.headers, e.nl, |raw|), Blank(e.nl), e.body, raw);
    }
  }

  lemma RelengthClean(e: Entity, n: nat)
    requires CutAtBlank(e)
    ensures Clean(Relength(e.headers, e.nl, n), Blank(e.nl))
  {
    var ls := Split(e.headers, e.nl);
    var to := ReplaceLines(ls, CONTENT_LENGTH, Itoa(n));
    RelengthLines(e.headers, e.nl, n);
    SplitLines(e.headers, e.nl);
    BlankLines(ls, e.nl);
    EditedLines(ls, to, e.nl);
    BlankLines(to, e.nl);
  }

  lemma Cancel(lead: Bytes, a: Bytes, b: Bytes, trail: Bytes)
    ensures lead + a + trail == lead + b + trail <==> a == b
  {
    if lead + a + trail == lead + b + trail {
      assert a == (lead + a + trail)[|lead|..|lead| + |a|];
      assert b == (lead + b + trail)[|lead|..|lead| + |b|];
      assert |a| == |b|;
    }
  }

  // ---------------------------------------------------------------- all segments

  ghost predicate AllSegments(segs: seq<Bytes>, nl: Bytes, marker: Bytes) {
    forall i :: 0 <= i < |segs| ==> Segment(segs[i], nl, marker)
  }

  lemma {:induction false} DetachedRecut(mime: Mime, segs: seq<Bytes>, nl: Bytes, marker: Bytes)
    requires AllSegments(segs, nl, marker)
    ensures Recut(segs, DetachSegments(mime, segs, nl), nl, marker)
  {
    if segs == [] {
    } else {
      hide DetachSegment, Segment, Clean, Free;
      var ds := DetachSegments(mime, segs, nl);
      assert forall i :: 0 <= i < |segs[1..]| ==> segs[1..][i] == segs[i + 1];
      DetachedClean(mime, segs[0], nl, marker);
      DetachedRecut(mime, segs[1..], nl, marker);
      assert ds[1..] == DetachSegments(mime, segs[1..], nl);
      assert forall i :: 1 <= i < |ds| ==> ds[i] == ds[1..][i - 1];
    }
  }

  /** Where every lifted part ends in its newline, all parts are found again. */
  lemma {:induction false} DetachedSegments(mime: Mime, segs: seq<Bytes>, nl: Bytes, marker: Bytes, bodies: seq<Bytes>)
    requires AllSegments(segs, nl, marker) && LiftedEnd(mime, segs, nl)
    ensures var ds := DetachSegments(mime, segs, nl);
            && IsupCount(mime, ds, nl) == IsupCount(mime, segs, nl)
            && AttachSegments(mime, ds, nl, bodies) == AttachSegments(mime, segs, nl, bodies)
  {
    if segs == [] {
    } else {
      hide DetachSegment, AttachSegment, Segment, Lifts, IsupOf;
      var ds := DetachSegments(mime, segs, nl);
      var raw := if bodies == [] then [] else bodies[0];
      var later := if IsupOf(mime, segs[0], nl).None? || bodies == [] then bodies else bodies[1..];
      assert forall i :: 0 <= i < |segs[1..]| ==> segs[1..][i] == segs[i + 1];
      DetachedSegment(mime, segs[0], nl, marker, raw);
      DetachedSegments(mime, segs[1..], nl, marker, later);
      assert ds[1..] == DetachSegments(mime, segs[1..], nl);
    }
  }

  /** Attaching gives all segments back exactly when every ISUP part gets its own body back. */
  lemma {:induction false} AttachedSegments(mime: Mime, segs: seq<Bytes>, nl: Bytes, bodies: seq<Bytes>)
    requires |bodies| == IsupCount(mime, segs, nl)
    ensures AttachSegments(mime, segs, nl, bodies) == segs <==>
            bodies == IsupBodies(mime, segs, nl) && PartsCanonical(mime, segs, nl)
  {
    if segs == [] {
    } else {
      var e := IsupOf(mime, segs[0], nl);
      var rest := segs[1..];
      var raw := if bodies == [] then [] else bodies[0];
      var later := if e.None? || bodies == [] then bodies else bodies[1..];
      AttachedSegments(mime, rest, nl, later);
      var a := AttachSegment(mime, segs[0], nl, raw);
      var more := AttachSegments(mime, rest, nl, later);
      ConsEq(a, more, segs);
      assert PartsCanonical(mime, segs, nl) <==>
             (e.Some? ==> Canonical(e.value)) && PartsCanonical(mime, rest, nl) by {
        assert forall i :: 0 <= i < |rest| ==> rest[i] == segs[i + 1];
        assert forall i :: 1 <= i < |segs| ==> segs[i] == rest[i - 1];
      }
      if e.Some? {
        AttachedSegment(mime, segs[0], nl, raw);
        ConsEq(e.value.body, IsupBodies(mime, rest, nl), bodies);
      } else {
        assert [] + IsupBodies(mime, rest, nl) == IsupBodies(mime, rest, nl);
      }
    }
  }

  lemma ConsEq<T>(x: T, xs: seq<T>, ys: seq<T>)
    requires ys != []
    ensures [x] + xs == ys <==> x == ys[0] && xs == ys[1..]
  {
    assert ys == [ys[0]] + ys[1..];
    if [x] + xs == ys {
      assert xs == ([x] + xs)[1..];
    }
  }

  // ---------------------------------------------------------------- messages

  /** A payload whose body is text or ISUP, not MIME parts. */
  ghost predicate PlainPayload(mime: Mime, m: Bytes) {
    SplitSip(m).Some? && MultipartBoundary(mime, ContentType(SplitSip(m).value)).None?
  }

  /** The MIME entity of a multipart payload and its boundary; delimiters hold no line break. */
  ghost predicate MultipartPayload(mime: Mime, m: Bytes) {
    SplitSip(m).Some? &&
    var b := MultipartBoundary(mime, ContentType(SplitSip(m).value));
    b.Some? && IsMarker(Marker(b.value))
  }

  ghost function MarkerOf(mime: Mime, m: Bytes): Bytes
    requires MultipartPayload(mime, m)
  {
    Marker(MultipartBoundary(mime, ContentType(SplitSip(m).value)).value)
  }

  /** The segments behind the preamble. */
  ghost function SegmentsOf(mime: Mime, m: Bytes): seq<Bytes>
    requires MultipartPayload(mime, m)
  {
    Split(SplitSip(m).value.body, MarkerOf(mime, m))[1..]
  }

  lemma SameHeaders(g: Bytes, h: Bytes, nl: Bytes, b: Bytes)
    ensures g + nl + nl + b == h + nl + nl + b <==> g == h
  {
    var t := nl + nl + b;
    assert g + nl + nl + b == [] + g + t && h + nl + nl + b == [] + h + t;
    Cancel([], g, h, t);
  }

  lemma PlainRestored(mime: Mime, m: Bytes)
    requires PlainPayload(mime, m) && CarriesBinary(mime, m)
    ensures var (stored, body) := Detach(mime, m);
            var e := SplitSip(m).value;
            Attach(mime, stored, body) == Unsplit(Entity(Relength(e.headers, e.nl, |e.body|), e.nl, e.body))
  {
    var e := SplitSip(m).value;
    PlainDetaches(mime, m);
    SplitSipGives(m);
    Resplit(e, 0, []);
    Emptied(mime, e, e.body);
  }

  /** A plain SIP-I payload comes back exactly when its Content-Length is canonical or absent. */
  lemma PlainRoundTrip(mime: Mime, m: Bytes)
    requires PlainPayload(mime, m) && CarriesBinary(mime, m)
    ensures var (stored, body) := Detach(mime, m);
            Attach(mime, stored, body) == m <==> Canonical(SplitSip(m).value)
  {
    var e := SplitSip(m).value;
    SplitSipGives(m);
    PlainRestored(mime, m);
    CanonicalIff(e);
    SameHeaders(Relength(e.headers, e.nl, |e.body|), e.headers, e.nl, e.body);
  }

  /** The segments of a multipart payload after it was stored and restored. */
  ghost function RestoredSegments(mime: Mime, m: Bytes): (r: seq<Bytes>)
    requires MultipartPayload(mime, m)
    ensures |r| == |SegmentsOf(mime, m)|
  {
    var nl := SplitSip(m).value.nl;
    var ds := DetachSegments(mime, SegmentsOf(mime, m), nl);
    AttachSegments(mime, ds, nl, Unpack(Detach(mime, m).1, IsupCount(mime, ds, nl)))
  }

  /** The body that attaching the stored octets to a multipart payload yields. */
  ghost function RestoredBody(mime: Mime, m: Bytes): Bytes
    requires MultipartPayload(mime, m)
  {
    Join([Split(SplitSip(m).value.body, MarkerOf(mime, m))[0]] + RestoredSegments(mime, m), MarkerOf(mime, m))
  }

  lemma AllAreSegments(e: Entity, marker: Bytes)
    requires CutAtBlank(e) && IsMarker(marker)
    ensures AllSegments(Split(e.body, marker), e.nl, marker)
    ensures e.nl == NL ==> Free(e.body, CRLF2)
  {
    if e.nl == NL { CrlfAcross(e.headers, e.body); }
    forall i | 0 <= i < |Split(e.body, marker)| ensures Segment(Split(e.body, marker)[i], e.nl, marker) {
      SegmentFree(e.body, marker, i);
    }
  }

  /** The stored payload of a multipart message is split and cut where the message was. */
  lemma StoredMultipart(mime: Mime, m: Bytes)
    requires MultipartPayload(mime, m)
    ensures var e := SplitSip(m).value;
            var marker := MarkerOf(mime, m);
            var segs := Split(e.body, marker);
            var to := [segs[0]] + DetachSegments(mime, segs[1..], e.nl);
            var body := Join(to, marker);
            var f := Entity(Relength(e.headers, e.nl, |body|), e.nl, body);
            && SplitSip(Unsplit(f)) == Some(f)
            && ContentType(f) == ContentType(e) && Marked(f) == Marked(e)
            && Split(body, marker) == to
  {
    hide Split, Detach, DetachSegments, Relength;
    var e := SplitSip(m).value;
    var marker := MarkerOf(mime, m);
    var segs := Split(e.body, marker);
    SplitSipGives(m);
    AllAreSegments(e, marker);
    DetachedRecut(mime, segs[1..], e.nl, marker);
    var ds := DetachSegments(mime, segs[1..], e.nl);
    RecutHead(segs, ds, e.nl, marker);
    RecutSplit(e.body, [segs[0]] + ds, e.nl, marker);
    Resplit(e, |Join([segs[0]] + ds, marker)|, Join([segs[0]] + ds, marker));
  }

  /** What Detach makes of a multipart payload. */
  lemma DetachIs(mime: Mime, m: Bytes)
    requires MultipartPayload(mime, m) && CarriesBinary(mime, m)
    ensures var e := SplitSip(m).value;
            var segs := SegmentsOf(mime, m);
            var marker := MarkerOf(mime, m);
            var body := Join([Split(e.body, marker)[0]] + DetachSegments(mime, segs, e.nl), marker);
            && Detach(mime, m).0 == Unsplit(Entity(Relength(e.headers, e.nl, |body|), e.nl, body))
            && Detach(mime, m).1 == Pack(LiftedBodies(mime, segs, e.nl)) != []
            && LiftedBodies(mime, segs, e.nl) != []
  {
    hide Split, DetachSegments, Relength, LiftedBodies, Pack, Join, CarriesBinary;
    DetachesIff(mime, m);
  }

  /** What a multipart payload looks like after it was stored and restored. */
  lemma RestoredIs(mime: Mime, m: Bytes)
    requires MultipartPayload(mime, m) && CarriesBinary(mime, m)
    ensures var (stored, body) := Detach(mime, m);
            var e := SplitSip(m).value;
            var back := RestoredBody(mime, m);
            Attach(mime, stored, body) == Unsplit(Entity(Relength(e.headers, e.nl, |back|), e.nl, back))
  {
    hide Split, Detach, CarriesBinary, DetachSegments, AttachSegments, Relength, LiftedBodies, Pack, Join, SplitSip;
    var e := SplitSip(m).value;
    var marker := MarkerOf(mime, m);
    var segs := Split(e.body, marker);
    var ds := DetachSegments(mime, segs[1..], e.nl);
    var newBody := Join([segs[0]] + ds, marker);
    DetachIs(mime, m);
    StoredMultipart(mime, m);
    assert ([segs[0]] + ds)[1..] == ds;
    var back := RestoredBody(mime, m);
    assert AttachMultipart(mime, newBody, marker, e.nl, Detach(mime, m).1) == back;
    RelengthKeeps(e.headers, e.nl, |newBody|, |back|);
  }

  /** What a multipart payload must be for its bytes to come back. */
  ghost predicate Restorable(mime: Mime, m: Bytes)
    requires MultipartPayload(mime, m)
  {
    var e := SplitSip(m).value;
    var segs := SegmentsOf(mime, m);
    && Canonical(e) && PartsCanonical(mime, segs, e.nl) && PartsEnd(mime, segs, e.nl)
    && Recoverable(IsupBodies(mime, segs, e.nl))
  }

  lemma BodiesUnpacked(mime: Mime, m: Bytes)
    requires MultipartPayload(mime, m) && CarriesBinary(mime, m)
    ensures var bodies := IsupBodies(mime, SegmentsOf(mime, m), SplitSip(m).value.nl);
            && UnsafeOnly(bodies) != [] && Pack(UnsafeOnly(bodies)) == Detach(mime, m).1
            && |bodies| == IsupCount(mime, SegmentsOf(mime, m), SplitSip(m).value.nl) >= 1
  {
    hide Detach, Pack;
    LiftedAreUnsafe(mime, SegmentsOf(mime, m), SplitSip(m).value.nl);
    DetachIs(mime, m);
  }

  /** Where every lifted part ends in its newline, every ISUP part gets a body. */
  lemma RestoredSegmentsAre(mime: Mime, m: Bytes)
    requires MultipartPayload(mime, m) && CarriesBinary(mime, m)
    requires LiftedEnd(mime, SegmentsOf(mime, m), SplitSip(m).value.nl)
    ensures var nl := SplitSip(m).value.nl;
            var bodies := IsupBodies(mime, SegmentsOf(mime, m), nl);
            RestoredSegments(mime, m) ==
            AttachSegments(mime, SegmentsOf(mime, m), nl, Unpack(Pack(UnsafeOnly(bodies)), |bodies|))
  {
    hide Split, Detach, DetachSegments, AttachSegments, Pack, Unpack, LiftedEnd;
    var e := SplitSip(m).value;
    var segs := SegmentsOf(mime, m);
    var bodies := IsupBodies(mime, segs, e.nl);
    SplitSipGives(m);
    BodiesUnpacked(mime, m);
    AllAreSegments(e, MarkerOf(mime, m));
    DetachedSegments(mime, segs, e.nl, MarkerOf(mime, m), Unpack(Pack(UnsafeOnly(bodies)), |bodies|));
  }

  /** Every restorable multipart payload comes back byte for byte. */
  lemma MultipartRoundTrip(mime: Mime, m: Bytes)
    requires MultipartPayload(mime, m) && CarriesBinary(mime, m) && Restorable(mime, m)
    ensures var (stored, body) := Detach(mime, m); Attach(mime, stored, body) == m
  {
    hide Detach, CarriesBinary, Split, AttachSegments, Recoverable, Unpack, Pack;
    var e := SplitSip(m).value;
    var segs := Split(e.body, MarkerOf(mime, m));
    var bodies := IsupBodies(mime, segs[1..], e.nl);
    SplitSipGives(m);
    RestoredIs(mime, m);
    RestoredSegmentsAre(mime, m);
    BodiesUnpacked(mime, m);
    BodiesComeBack(bodies);
    AttachedSegments(mime, segs[1..], e.nl, bodies);
    assert [segs[0]] + segs[1..] == segs;
    JoinSplit(e.body, MarkerOf(mime, m));
    CanonicalIff(e);
  }
}
