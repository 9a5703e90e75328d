/**
  End to end: what the decoder stores of a SIP payload (src/decoder/decoder.go, normPayload) gives
  the captured message back (src/isup/preserve.go, MessageBytes).
  */
module IsupStorage {
  import opened Octets
  import opened Text
  import opened SipText
  import opened Utf8
  import opened IsupPreserve
  import opened IsupCarried
  import opened Segments
  import opened Envelope
  import opened IsupHex
  import opened IsupRoundTrip
  import opened IsupExact
  import opened IsupHexRoundTrip

  /** normPayload for ProtoType 1: the text column and the isup_body column. */
  function Store(mime: Mime, payload: Bytes): (Bytes, Bytes) {
    var (stored, body) := Detach(mime, payload);
    (ToUtf8(stored, []), body)
  }

  /** MessageBytes, for an isup_body cell that DuckDB returns as octets. */
  function MessageBytes(mime: Mime, b64: Base64, payload: Bytes, body: Bytes): Bytes {
    var restored := Restore(mime, b64, payload);
    if body == [] then restored else Attach(mime, restored, body)
  }

  // ---------------------------------------------------------------- the stored text is safe

  lemma {:induction false} SafeLines(ls: seq<Bytes>, nl: Bytes)
    requires Newline(nl) && |ls| >= 1
    ensures Safe(Join(ls, nl)) <==> forall i :: 0 <= i < |ls| ==> Safe(ls[i])
  {
    if |ls| <= 1 {
    } else {
      var t := Join(ls[1..], nl);
      SafeLines(ls[1..], nl);
      SafeNewline(ls[0], nl, t);
      assert forall i :: 0 <= i < |ls[1..]| ==> ls[1..][i] == ls[i + 1];
      assert forall i :: 1 <= i < |ls| ==> ls[i] == ls[1..][i - 1];
    }
  }

  lemma SafeNewline(a: Bytes, nl: Bytes, b: Bytes)
    requires Newline(nl)
    ensures Safe(a + nl + b) <==> Safe(a) && Safe(b)
  {
    if nl == NL {
      SafeAround(a, LF, b);
    } else {
      assert a + nl + b == a + [CR] + ([] + [LF] + b);
      SafeAround(a, CR, [] + [LF] + b);
      SafeAround([], LF, b);
    }
  }

  lemma {:induction false} SafeJoin(ps: seq<Bytes>, sep: Bytes)
    requires Safe(sep) && forall i :: 0 <= i < |ps| ==> Safe(ps[i])
    ensures Safe(Join(ps, sep))
  {
    if |ps| <= 1 {
    } else {
      SafeJoin(ps[1..], sep);
      SafeConcat(ps[0], sep);
      SafeConcat(ps[0] + sep, Join(ps[1..], sep));
    }
  }

  lemma SafeRelength(headers: Bytes, nl: Bytes, n: nat)
    requires Newline(nl) && Safe(headers)
    ensures Safe(Relength(headers, nl, n))
  {
    var ls := Split(headers, nl);
    var to := ReplaceLines(ls, CONTENT_LENGTH, Itoa(n));
    SplitLines(headers, nl);
    SafeLines(ls, nl);
    RelengthLines(headers, nl, n);
    forall i | 0 <= i < |to| ensures Safe(to[i]) {
      if Plain(to[i]) { SafeAscii(to[i]); }
    }
    SafeLines(to, nl);
  }

  lemma SafeMessage(headers: Bytes, nl: Bytes, n: nat, body: Bytes)
    requires Newline(nl) && Safe(headers) && Safe(body)
    ensures Safe(Relength(headers, nl, n) + nl + nl + body)
  {
    var h := Relength(headers, nl, n);
    SafeRelength(headers, nl, n);
    SafeNewline([], nl, body);
    assert [] + nl + body == nl + body;
    SafeNewline(h, nl, nl + body);
    Assoc(h + nl, nl, body);
  }

  // ---------------------------------------------------------------- messages without binary bodies

  /** An ordinary SIP payload is stored and read back byte for byte. */
  lemma TextStored(mime: Mime, b64: Base64, m: Bytes)
    requires Safe(m)
    requires SplitSip(m).Some? ==> !Marked(SplitSip(m).value)
    requires MultipartPayload(mime, m) ==> NoMarks(Cuts(mime, m), SplitSip(m).value.nl)
    requires MultipartPayload(mime, m) || SplitSip(m).None? || PlainPayload(mime, m)
    ensures var (stored, body) := Store(mime, m);
            stored == m && body == [] && MessageBytes(mime, b64, stored, body) == m
  {
    if MultipartPayload(mime, m) { UnrewrittenRestores(mime, b64, m); }
  }

  // ---------------------------------------------------------------- plain SIP-I messages

  /** A plain SIP-I payload with text headers is read back exactly when its length line is canonical. */
  lemma PlainStored(mime: Mime, b64: Base64, m: Bytes)
    requires PlainPayload(mime, m) && CarriesBinary(mime, m) && Safe(SplitSip(m).value.headers)
    ensures var (stored, body) := Store(mime, m);
            MessageBytes(mime, b64, stored, body) == m <==> Canonical(SplitSip(m).value)
  {
    hide CarriesBinary, Detach, Attach, Safe, SplitSip, Relength, Itoa, Canonical, ContentType, Marked;
    var e := SplitSip(m).value;
    PlainDetaches(mime, m);
    DetachesIff(mime, m);
    CarriedUnmarked(mime, m);
    SplitSipGives(m);
    Resplit(e, 0, []);
    SetSipBodyIs(e.headers, e.nl, []);
    SafeMessage(e.headers, e.nl, 0, []);
    StoredUnchanged(Detach(mime, m).0);
    PlainRoundTrip(mime, m);
  }

  // ---------------------------------------------------------------- multipart SIP-I messages

  /** Headers and text parts are NUL-free UTF-8: only the bodies that are lifted may be binary. */
  ghost predicate TextOutside(mime: Mime, m: Bytes)
    requires MultipartPayload(mime, m)
  {
    var e := SplitSip(m).value;
    var cuts := Cuts(mime, m);
    && Safe(e.headers) && Safe(MarkerOf(mime, m)) && Safe(cuts[0])
    && forall i :: 1 <= i < |cuts| ==>
         if Lifts(mime, cuts[i], e.nl) then Safe(IsupOf(mime, cuts[i], e.nl).value.headers) else Safe(cuts[i])
  }

  lemma SafeSegment(mime: Mime, seg: Bytes, nl: Bytes)
    requires Newline(nl)
    requires if Lifts(mime, seg, nl) then Safe(IsupOf(mime, seg, nl).value.headers) else Safe(seg)
    ensures Safe(DetachSegment(mime, seg, nl))
  {
    if Lifts(mime, seg, nl) {
      var f := Frame(seg, nl);
      var e := IsupOf(mime, seg, nl).value;
      SetSipBodyIs(e.headers, e.nl, []);
      SafeMessage(e.headers, e.nl, 0, []);
      SafeFrame(f.lead, SetSipBody(e.headers, e.nl, []), f.trail, nl);
    }
  }

  lemma SafeFrame(lead: Bytes, part: Bytes, trail: Bytes, nl: Bytes)
    requires Newline(nl) && (lead == [] || lead == nl) && (trail == [] || trail == nl) && Safe(part)
    ensures Safe(lead + part + trail)
  {
    SafeAscii(lead);
    SafeAscii(trail);
    SafeConcat(lead, part);
    SafeConcat(lead + part, trail);
  }

  /** The segments of the stored body. */
  ghost function StoredCuts(mime: Mime, m: Bytes): seq<Bytes>
    requires MultipartPayload(mime, m)
  {
    var cuts := Cuts(mime, m);
    [cuts[0]] + DetachSegments(mime, cuts[1..], SplitSip(m).value.nl)
  }

  lemma StoredCutsAt(mime: Mime, m: Bytes, i: nat)
    requires MultipartPayload(mime, m) && 1 <= i < |Cuts(mime, m)|
    ensures StoredCuts(mime, m)[i] == DetachSegment(mime, Cuts(mime, m)[i], SplitSip(m).value.nl)
  {
    DetachAt(mime, Cuts(mime, m)[1..], SplitSip(m).value.nl, i - 1);
  }

  lemma SafeStoredBody(mime: Mime, m: Bytes)
    requires MultipartPayload(mime, m) && TextOutside(mime, m)
    ensures Safe(Join(StoredCuts(mime, m), MarkerOf(mime, m))) && Safe(SplitSip(m).value.headers)
  {
    hide Safe, Split, SplitSip, Join, DetachSegments;
    var e := SplitSip(m).value;
    var cuts := Cuts(mime, m);
    var to := StoredCuts(mime, m);
    forall i | 0 <= i < |to| ensures Safe(to[i]) {
      if i > 0 {
        StoredCutsAt(mime, m, i);
        SafeSegment(mime, cuts[i], e.nl);
      }
    }
    SafeJoin(to, MarkerOf(mime, m));
  }

  lemma SafeStored(mime: Mime, m: Bytes)
    requires MultipartPayload(mime, m) && TextOutside(mime, m) && CarriesBinary(mime, m)
    ensures Safe(Detach(mime, m).0)
  {
    hide Safe, Detach, CarriesBinary, Split, SplitSip, Join, DetachSegments, Relength, TextOutside;
    var e := SplitSip(m).value;
    var body := Join(StoredCuts(mime, m), MarkerOf(mime, m));
    SafeStoredBody(mime, m);
    DetachIs(mime, m);
    SafeMessage(e.headers, e.nl, |body|, body);
  }

  lemma DetachedMark(mime: Mime, seg: Bytes, nl: Bytes, marker: Bytes)
    requires Segment(seg, nl, marker)
    requires Lifts(mime, seg, nl) ==> EndsInNewline(seg, nl)
    requires PartOf(seg, nl).Some? ==> !Marked(PartOf(seg, nl).value)
    ensures var s := DetachSegment(mime, seg, nl); PartOf(s, nl).Some? ==> !Marked(PartOf(s, nl).value)
  {
    if Lifts(mime, seg, nl) {
      var e := IsupOf(mime, seg, nl).value;
      EmptiedSegment(mime, seg, nl, marker);
      RelengthKeeps(e.headers, e.nl, 0, 0);
    }
  }

  lemma StoredUnmarked(mime: Mime, m: Bytes, i: nat)
    requires MultipartPayload(mime, m) && CarriesBinary(mime, m) && 1 <= i < |StoredCuts(mime, m)|
    requires LiftedEnd(mime, SegmentsOf(mime, m), SplitSip(m).value.nl)
    requires NoMarks(Cuts(mime, m), SplitSip(m).value.nl)
    ensures var part := PartOf(StoredCuts(mime, m)[i], SplitSip(m).value.nl); part.Some? ==> !Marked(part.value)
  {
    var e := SplitSip(m).value;
    var cuts := Cuts(mime, m);
    SplitSipGives(m);
    AllAreSegments(e, MarkerOf(mime, m));
    StoredCutsAt(mime, m, i);
    assert cuts[1..][i - 1] == cuts[i];
    DetachedMark(mime, cuts[i], e.nl, MarkerOf(mime, m));
  }

  /** What the stored text looks like to the reader. */
  lemma StoredForm(mime: Mime, m: Bytes)
    requires MultipartPayload(mime, m) && CarriesBinary(mime, m)
    ensures var stored := Detach(mime, m).0;
            && MultipartPayload(mime, stored) && !Marked(SplitSip(stored).value)
            && SplitSip(stored).value.nl == SplitSip(m).value.nl && Cuts(mime, stored) == StoredCuts(mime, m)
  {
    hide CarriesBinary, Detach, Split, SplitSip, Join, DetachSegments, Relength;
    DetachIs(mime, m);
    StoredMultipart(mime, m);
    SplitSipGives(m);
    CarriedUnmarked(mime, m);
  }

  lemma CarriedUnmarked(mime: Mime, m: Bytes)
    requires CarriesBinary(mime, m)
    ensures SplitSip(m).Some? && !Marked(SplitSip(m).value)
  {
  }

  /** No stored part is marked when none was and every lifted part ends before a newline. */
  lemma StoredNoMarks(mime: Mime, m: Bytes)
    requires MultipartPayload(mime, m) && CarriesBinary(mime, m)
    requires LiftedEnd(mime, SegmentsOf(mime, m), SplitSip(m).value.nl)
    requires NoMarks(Cuts(mime, m), SplitSip(m).value.nl)
    ensures NoMarks(StoredCuts(mime, m), SplitSip(m).value.nl)
  {
    hide PartOf, StoredCuts, Cuts, CarriesBinary, LiftedEnd, Marked, SplitSip;
    var to, nl := StoredCuts(mime, m), SplitSip(m).value.nl;
    forall i | 1 <= i < |to|
      ensures PartOf(to[i], nl).Some? ==> !Marked(PartOf(to[i], nl).value)
    {
      StoredUnmarked(mime, m, i);
    }
  }

  /** The stored text holds no hex form, so reading it back starts with attaching. */
  lemma StoredRestores(mime: Mime, b64: Base64, m: Bytes)
    requires MultipartPayload(mime, m) && CarriesBinary(mime, m)
    requires NoMarks(StoredCuts(mime, m), SplitSip(m).value.nl)
    ensures Restore(mime, b64, Detach(mime, m).0) == Detach(mime, m).0
  {
    hide *;
    StoredForm(mime, m);
    UnrewrittenRestores(mime, b64, Detach(mime, m).0);
  }

  /**
    A multipart SIP-I payload whose headers and text parts are text survives storage in a text column
    exactly when it is restorable: then what is read back is the captured message, byte for byte.
    No part of the stored text may be marked as a hex form, since reading back would decode it.
    */
  lemma MultipartStored(mime: Mime, b64: Base64, m: Bytes)
    requires MultipartPayload(mime, m) && CarriesBinary(mime, m) && TextOutside(mime, m)
    requires NoMarks(StoredCuts(mime, m), SplitSip(m).value.nl)
    ensures var (stored, body) := Store(mime, m); MessageBytes(mime, b64, stored, body) == m <==> Restorable(mime, m)
  {
    hide Restorable, CarriesBinary, Attach, Restore, Detach, TextOutside, NoMarks, StoredCuts, Cuts, SegmentsOf,
            SplitSip,
      ToUtf8;
    SafeStored(mime, m);
    DetachesIff(mime, m);
    StoredUnchanged(Detach(mime, m).0);
    StoredRestores(mime, b64, m);
    MultipartRoundTripIff(mime, m);
  }
}
