/**
  Which messages give binary ISUP bodies away (src/isup/preserve.go, DetachISUPBody), said of the message
  alone: its content types, its mark and its octets.
  */
module IsupCarried {
  import opened Octets
  import opened Text
  import opened SipText
  import opened Utf8
  import opened IsupPreserve

  /**
    The content type is application/isup in any case, whatever its parameters. A type that cannot be parsed
    has to hold that name somewhere.
    */
  ghost predicate NamesIsup(mime: Mime, contentType: Bytes) {
    match mime(contentType)
    case BadMedia => exists i :: At(ToLower(contentType), APPLICATION_ISUP, i)
    case Media(kind, _, _) => ToLower(kind) == APPLICATION_ISUP
  }

  /** The content type announces MIME parts and names the boundary between them. */
  ghost predicate NamesParts(mime: Mime, contentType: Bytes) {
    && mime(contentType).Media? && mime(contentType).boundary != []
    && At(ToLower(mime(contentType).kind), MULTIPART, 0)
  }

  /** An ISUP entity whose body is not text. */
  ghost predicate BinaryIsup(mime: Mime, e: Entity)
    requires e.nl != []
  {
    NamesIsup(mime, ContentType(e)) && !Safe(e.body)
  }

  /** The payload is an unmarked SIP message with such a body, or with such a MIME part. */
  ghost predicate CarriesBinary(mime: Mime, m: Bytes) {
    SplitSip(m).Some? &&
    var e := SplitSip(m).value;
    && !Marked(e)
    && if NamesParts(mime, ContentType(e))
       then PartIsBinary(mime, Split(e.body, Marker(mime(ContentType(e)).boundary))[1..], e.nl)
       else BinaryIsup(mime, e)
  }

  /** One of the segments holds such a part. */
  ghost predicate PartIsBinary(mime: Mime, segs: seq<Bytes>, nl: Bytes) {
    exists i :: 0 <= i < |segs| && SegmentIsBinary(mime, segs[i], nl)
  }

  ghost predicate SegmentIsBinary(mime: Mime, seg: Bytes, nl: Bytes) {
    var part := PartOf(seg, nl);
    part.Some? && BinaryIsup(mime, part.value)
  }

  // ---------------------------------------------------------------- content types

  lemma NamesIsupIff(mime: Mime, e: Entity)
    requires e.nl != []
    ensures IsIsup(mime, e) <==> NamesIsup(mime, ContentType(e))
  {
    hide ContentType;
    assert ToLower(APPLICATION_ISUP) == APPLICATION_ISUP;
    ContainsIff(ToLower(ContentType(e)), APPLICATION_ISUP);
  }

  lemma NamesPartsIff(mime: Mime, contentType: Bytes)
    ensures MultipartBoundary(mime, contentType) ==
            if NamesParts(mime, contentType) then Some(mime(contentType).boundary) else None
  {
  }

  lemma ContainsIff(s: Bytes, p: Bytes)
    ensures Index(s, p) >= 0 <==> exists i :: At(s, p, i)
  {
  }

  lemma BinaryIff(mime: Mime, seg: Bytes, nl: Bytes)
    ensures Lifts(mime, seg, nl) <==> SegmentIsBinary(mime, seg, nl)
  {
    hide Safe, ContentType, NamesIsup, IsIsup;
    var part := PartOf(seg, nl);
    if part.Some? { NamesIsupIff(mime, part.value); }
  }

  lemma {:induction false} LiftedIff(mime: Mime, segs: seq<Bytes>, nl: Bytes)
    ensures LiftedBodies(mime, segs, nl) != [] <==> PartIsBinary(mime, segs, nl)
  {
    hide Lifts, IsupOf, SegmentIsBinary;
    if segs == [] {
    } else {
      var rest := segs[1..];
      BinaryIff(mime, segs[0], nl);
      LiftedIff(mime, rest, nl);
      assert forall i :: 0 <= i < |rest| ==> rest[i] == segs[i + 1];
      assert forall i :: 1 <= i < |segs| ==> segs[i] == rest[i - 1];
    }
  }

  /** What is lifted is never text, so the octets to store are never empty. */
  lemma {:induction false} LiftedUnsafe(mime: Mime, segs: seq<Bytes>, nl: Bytes)
    ensures forall i :: 0 <= i < |LiftedBodies(mime, segs, nl)| ==> !Safe(LiftedBodies(mime, segs, nl)[i])
  {
    hide IsupOf, Safe;
    if segs != [] { LiftedUnsafe(mime, segs[1..], nl); }
  }

  lemma PackedNonempty(mime: Mime, segs: seq<Bytes>, nl: Bytes)
    ensures var us := LiftedBodies(mime, segs, nl); us != [] ==> Pack(us) != []
  {
    LiftedUnsafe(mime, segs, nl);
    var us := LiftedBodies(mime, segs, nl);
    if |us| == 1 { assert us[0] != []; }
  }

  // ---------------------------------------------------------------- binary bodies in a payload

  /** A text between a newline and an ASCII octet is text when the whole is. */
  lemma SafeInside(a: Bytes, b: Bytes, c: Bytes)
    requires c != [] ==> 0 < c[0] < 0x80
    ensures Safe(a + [LF] + (b + c)) ==> Safe(b)
  {
    hide Safe;
    SafeAround(a, LF, b + c);
    if c == [] {
      assert b + c == b;
    } else {
      assert b + c == b + [c[0]] + c[1..];
      SafeAround(b, c[0], c[1..]);
    }
  }

  /** The body of an entity, with `x` in front of the entity and `y` behind it. */
  lemma BodyInside(e: Entity, x: Bytes, y: Bytes)
    requires Newline(e.nl) && (y != [] ==> 0 < y[0] < 0x80)
    ensures Safe(x + Unsplit(e) + y) ==> Safe(e.body)
  {
    hide Safe;
    var h := x + e.headers + e.nl + e.nl[..|e.nl| - 1];
    assert e.nl == e.nl[..|e.nl| - 1] + [LF];
    assert x + Unsplit(e) + y == h + [LF] + (e.body + y);
    SafeInside(h, e.body, y);
  }

  /** Where a segment stands in the joined text: a separator follows, or nothing. */
  lemma {:induction false} JoinAround(ps: seq<Bytes>, sep: Bytes, i: nat) returns (x: Bytes, y: Bytes)
    requires i < |ps|
    ensures Join(ps, sep) == x + ps[i] + y && (y == [] || HasPrefix(y, sep))
  {
    if i == 0 {
      x := [];
      y := if |ps| == 1 then [] else sep + Join(ps[1..], sep);
      if |ps| > 1 { Assoc(ps[0], sep, Join(ps[1..], sep)); }
      assert [] + ps[0] == ps[0] && ps[0] + [] == ps[0];
    } else {
      var z;
      z, y := JoinAround(ps[1..], sep, i - 1);
      x := ps[0] + sep + z;
      Assoc(ps[0] + sep, z + ps[i], y);
      Assoc(ps[0] + sep, z, ps[i]);
    }
  }

  lemma PartInside(e: Entity, boundary: Bytes, i: nat)
    requires Newline(e.nl) && i < |Split(e.body, Marker(boundary))|
    requires PartOf(Split(e.body, Marker(boundary))[i], e.nl).Some?
    ensures Safe(Unsplit(e)) ==> Safe(PartOf(Split(e.body, Marker(boundary))[i], e.nl).value.body)
  {
    hide *;
    MarkerFirst(boundary);
    var segs := Split(e.body, Marker(boundary));
    var f := Frame(segs[i], e.nl);
    JoinSplit(e.body, Marker(boundary));
    var x, y := JoinAround(segs, Marker(boundary), i);
    PartIs(segs[i], e.nl);
    FrameInside(e, x, f, y);
    AfterFrame(segs[i], e.nl, boundary, y);
    BodyInside(PartOf(segs[i], e.nl).value, e.headers + e.nl + e.nl + x + f.lead, f.trail + y);
  }

  lemma MarkerFirst(boundary: Bytes)
    ensures Marker(boundary) != []
  {
  }

  lemma PartIs(seg: Bytes, nl: Bytes)
    requires PartOf(seg, nl).Some?
    ensures Unsplit(PartOf(seg, nl).value) == Frame(seg, nl).part && Newline(PartOf(seg, nl).value.nl)
    ensures Unframe(Frame(seg, nl)) == seg
  {
    hide SplitSip;
    SplitSipGives(Frame(seg, nl).part);
  }

  lemma FrameInside(e: Entity, x: Bytes, f: Framed, y: Bytes)
    requires e.body == x + Unframe(f) + y
    ensures Unsplit(e) == e.headers + e.nl + e.nl + x + f.lead + f.part + (f.trail + y)
  {
  }

  /** A newline or a delimiter follows the part. */
  lemma AfterFrame(seg: Bytes, nl: Bytes, boundary: Bytes, y: Bytes)
    requires Newline(nl) && (y == [] || HasPrefix(y, Marker(boundary)))
    ensures var t := Frame(seg, nl).trail + y; t != [] ==> 0 < t[0] < 0x80
  {
    if y != [] { assert y[0] == Marker(boundary)[0] == DASH; }
  }

  /** A text payload carries nothing binary. */
  lemma TextCarriesNothing(mime: Mime, m: Bytes)
    requires Safe(m)
    ensures !CarriesBinary(mime, m)
  {
    hide Safe, Split, SplitSip, NamesIsup, ContentType, Marked;
    if SplitSip(m).Some? {
      var e := SplitSip(m).value;
      SplitSipGives(m);
      assert [] + Unsplit(e) + [] == m;
      BodyInside(e, [], []);
      if NamesParts(mime, ContentType(e)) {
        var boundary := mime(ContentType(e)).boundary;
        var segs := Split(e.body, Marker(boundary));
        forall i | 0 <= i < |segs[1..]| ensures !SegmentIsBinary(mime, segs[1..][i], e.nl) {
          assert segs[1..][i] == segs[i + 1];
          if PartOf(segs[i + 1], e.nl).Some? { PartInside(e, boundary, i + 1); }
        }
      }
    }
  }

  // ---------------------------------------------------------------- what is detached

  /** Exactly the payloads that carry a binary ISUP body give octets away; every other one is left as it is. */
  lemma DetachesIff(mime: Mime, m: Bytes)
    ensures Detach(mime, m).1 != [] <==> CarriesBinary(mime, m)
    ensures !CarriesBinary(mime, m) ==> Detach(mime, m) == (m, [])
  {
    hide Safe, Split, SplitSip, NamesIsup, ContentType, Marked, MultipartBoundary, IsIsup, PartIsBinary,
      LiftedBodies, DetachSegments, Pack, Join, Relength, SetSipBody;
    if Safe(m) {
      TextCarriesNothing(mime, m);
    } else if SplitSip(m).Some? {
      var e := SplitSip(m).value;
      NamesIsupIff(mime, e);
      NamesPartsIff(mime, ContentType(e));
      EmptyIsSafe();
      var boundary := MultipartBoundary(mime, ContentType(e));
      if boundary.Some? {
        var segs := Split(e.body, Marker(boundary.value));
        LiftedIff(mime, segs[1..], e.nl);
        PackedNonempty(mime, segs[1..], e.nl);
      }
    }
  }

  /** A plain message of another type is returned as it is, whatever octets are stored with it. */
  lemma AttachesNothing(mime: Mime, m: Bytes, blob: Bytes)
    requires SplitSip(m).Some? && !NamesParts(mime, ContentType(SplitSip(m).value))
    requires !NamesIsup(mime, ContentType(SplitSip(m).value))
    ensures Attach(mime, m, blob) == m
  {
    hide SplitSip, ContentType, NamesIsup, SetSipBody;
    NamesIsupIff(mime, SplitSip(m).value);
    NamesPartsIff(mime, ContentType(SplitSip(m).value));
  }

  lemma EmptyIsSafe()
    ensures Safe([])
  {
  }

  /** A plain message that carries a binary body gives that body away, whatever the version of its type. */
  lemma PlainDetaches(mime: Mime, m: Bytes)
    requires CarriesBinary(mime, m) && !NamesParts(mime, ContentType(SplitSip(m).value))
    ensures var e := SplitSip(m).value; Detach(mime, m) == (SetSipBody(e.headers, e.nl, []), e.body)
  {
    hide Safe, SplitSip, ContentType, MultipartBoundary, SetSipBody, Marked, NamesIsup, IsIsup;
    DetachesIff(mime, m);
    NamesIsupIff(mime, SplitSip(m).value);
    NamesPartsIff(mime, ContentType(SplitSip(m).value));
  }
}
