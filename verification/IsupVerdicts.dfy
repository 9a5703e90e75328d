/**
  What DecodeSIP (src/isup/decode.go) finds in a SIP message: an entry for each ISUP entity, in order, with
  the fields of an ITU message, or with the octets of an ANSI one.
  */
module IsupVerdicts {
  import opened Octets
  import opened Text
  import opened SipText
  import opened IsupPreserve
  import opened IsupCarried
  import opened IsupHex
  import opened IsupRoundTrip
  import opened IsupDecodeSip
  import D = IsupDecode
  import M = IsupMessages

  /** The version names ANSI, in any case. */
  ghost predicate NamesAnsi(version: Bytes) {
    exists i :: At(ToLower(version), ANSI, i)
  }

  /** The version parameter of a content type; there is none when the type cannot be parsed. */
  ghost function VersionOf(mime: Mime, contentType: Bytes): Bytes {
    if mime(contentType).Media? then mime(contentType).version else []
  }

  /** What has to be reported of a body: ANSI octets are handed on, everything else is decoded. */
  ghost predicate Verdict(d: Decoding, version: Bytes, raw: Bytes) {
    if NamesAnsi(version) then d == AnsiIsup(raw) else d == ItuIsup(D.Decode(raw))
  }

  lemma VerdictIs(version: Bytes, raw: Bytes)
    ensures Verdict(DecodeOrReject(version, raw), version, raw)
  {
    hide D.Decode;
    ContainsIff(ToLower(version), ANSI);
  }

  lemma VersionIs(mime: Mime, e: Entity)
    requires e.nl != [] && NamesIsup(mime, ContentType(e))
    ensures IsupVersion(mime, ContentType(e)) == Some(VersionOf(mime, ContentType(e)))
  {
    hide ContentType;
    NamesIsupIff(mime, e);
  }

  // ---------------------------------------------------------------- plain messages

  /** A plain message gives its one body, as it is or in hex form; a message of another type gives nothing. */
  lemma PlainVerdict(mime: Mime, b64: Base64, m: Bytes)
    requires SplitSip(m).Some? && !Marked(SplitSip(m).value) && !NamesParts(mime, ContentType(SplitSip(m).value))
    ensures DecodeSip(mime, b64, Preserve(mime, m)) == DecodeSip(mime, b64, m)
    ensures var e := SplitSip(m).value;
            var version := VersionOf(mime, ContentType(e));
            match DecodeSip(mime, b64, m)
            case None => !NamesIsup(mime, ContentType(e))
            case Some(r) =>
              && NamesIsup(mime, ContentType(e)) && r.contentType == ContentType(e) && r.version == version
              && !r.failed && |r.messages| == 1 && Verdict(r.messages[0], version, e.body)
  {
    hide Preserve, SplitSip, ContentType, NamesIsup, NamesParts, Verdict, DecodeOrReject, IsupVersion;
    var e := SplitSip(m).value;
    NamesPartsIff(mime, ContentType(e));
    NamesIsupIff(mime, e);
    DecodeCommutes(mime, b64, m);
    if NamesIsup(mime, ContentType(e)) {
      VersionIs(mime, e);
      VerdictIs(VersionOf(mime, ContentType(e)), e.body);
    }
  }

  /** The body of a plain message is an encoded ITU message: the one entry holds its fields. */
  lemma PlainSays(mime: Mime, b64: Base64, m: Bytes, kind: Byte, fixed: Bytes, variable: seq<Bytes>,
                  opts: seq<D.Optional>)
    requires SplitSip(m).Some? && !Marked(SplitSip(m).value) && !NamesParts(mime, ContentType(SplitSip(m).value))
    requires NamesIsup(mime, ContentType(SplitSip(m).value))
    requires !NamesAnsi(VersionOf(mime, ContentType(SplitSip(m).value)))
    requires D.LayoutOf(kind).Some? && (D.LayoutOf(kind).value.opt || opts == [])
    requires |fixed| == D.LayoutOf(kind).value.fixed && |variable| == |D.LayoutOf(kind).value.vars|
    requires |variable| == 1 ==> D.Pointed(variable[0], opts)
    requires D.GoodOptionals(opts)
    requires SplitSip(m).value.body == D.EncodeMessage(kind, fixed, variable, opts)
    ensures var r := DecodeSip(mime, b64, m);
            && r.Some? && |r.value.messages| == 1 && r.value.messages[0].ItuIsup?
            && var d := r.value.messages[0].message;
            d.kind == kind && d.error == D.NoError && M.Says(d.fields, kind, fixed, variable, opts)
  {
    hide SplitSip, ContentType, NamesIsup, NamesParts, Verdict, NamesAnsi, DecodeSip, Preserve, D.EncodeMessage,
            D.Decode,
      M.Says, D.LayoutOf, D.Pointed;
    PlainVerdict(mime, b64, m);
    VerdictItu(DecodeSip(mime, b64, m).value.messages[0], VersionOf(mime, ContentType(SplitSip(m).value)),
               SplitSip(m).value.body);
    M.MessageSays(kind, fixed, variable, opts);
  }

  lemma VerdictItu(d: Decoding, version: Bytes, raw: Bytes)
    requires Verdict(d, version, raw) && !NamesAnsi(version)
    ensures d == ItuIsup(D.Decode(raw))
  {
  }

  // ---------------------------------------------------------------- multipart messages

  /** The segment holds an ISUP part. */
  ghost predicate HoldsIsup(mime: Mime, seg: Bytes, nl: Bytes) {
    var part := PartOf(seg, nl);
    part.Some? && NamesIsup(mime, ContentType(part.value))
  }

  /** How many of the first `i` segments do. */
  ghost function IsupBefore(mime: Mime, segs: seq<Bytes>, nl: Bytes, i: nat): nat
    requires i <= |segs|
  {
    if i == 0 then 0 else IsupBefore(mime, segs, nl, i - 1) + if HoldsIsup(mime, segs[i - 1], nl) then 1 else 0
  }

  /** The entry for a part: of its octets, whatever form they are stored in, unless that form cannot be read. */
  ghost predicate PartVerdict(mime: Mime, b64: Base64, d: Decoding, e: Entity)
    requires e.nl != []
  {
    var version := VersionOf(mime, ContentType(e));
    if !Marked(e) then Verdict(d, version, e.body)
    else match DecodeBody(b64, HeaderValue(e.headers, e.nl, BINARY_BODY).value, e.body)
         case None => d.Undecodable?
         case Some(raw) => Verdict(d, version, raw)
  }

  ghost predicate SegmentVerdict(mime: Mime, b64: Base64, d: Decoding, seg: Bytes, nl: Bytes) {
    PartOf(seg, nl).Some? && PartVerdict(mime, b64, d, PartOf(seg, nl).value)
  }

  lemma HoldsIsupIff(mime: Mime, seg: Bytes, nl: Bytes)
    ensures IsupOf(mime, seg, nl) == if HoldsIsup(mime, seg, nl) then PartOf(seg, nl) else None
  {
    hide IsIsup, NamesIsup, ContentType;
    if PartOf(seg, nl).Some? { NamesIsupIff(mime, PartOf(seg, nl).value); }
  }

  lemma EntityVerdict(mime: Mime, b64: Base64, e: Entity)
    requires e.nl != [] && NamesIsup(mime, ContentType(e)) && IsIsup(mime, e)
    ensures PartVerdict(mime, b64, DecodeEntity(mime, b64, e), e)
  {
    hide ContentType, NamesIsup, IsupVersion, DecodeOrReject, Verdict, HeaderValue, DecodeBody;
    VersionIs(mime, e);
    if EntityBody(b64, e).Some? { VerdictIs(VersionOf(mime, ContentType(e)), EntityBody(b64, e).value); }
  }

  lemma {:induction false} SegmentVerdicts(mime: Mime, b64: Base64, segs: seq<Bytes>, nl: Bytes)
    ensures var ds := DecodeSegments(mime, b64, segs, nl);
            && |ds| == IsupBefore(mime, segs, nl, |segs|)
            && forall i :: 0 <= i < |segs| && HoldsIsup(mime, segs[i], nl) ==>
                 var k := IsupBefore(mime, segs, nl, i);
                 k < |ds| && SegmentVerdict(mime, b64, ds[k], segs[i], nl)
  {
    hide HoldsIsup, SegmentVerdict, DecodeEntity, IsupOf, PartOf;
    if segs != [] {
      var rest := segs[1..];
      var here := if HoldsIsup(mime, segs[0], nl) then 1 else 0;
      SegmentVerdicts(mime, b64, rest, nl);
      FirstVerdict(mime, b64, segs, nl);
      forall i | 0 <= i <= |rest|
        ensures IsupBefore(mime, segs, nl, i + 1) == here + IsupBefore(mime, rest, nl, i)
      {
        CountedOn(mime, segs, nl, i);
      }
      var ds := DecodeSegments(mime, b64, segs, nl);
      forall i | 0 <= i < |segs| && HoldsIsup(mime, segs[i], nl)
        ensures var k := IsupBefore(mime, segs, nl, i);
                k < |ds| && SegmentVerdict(mime, b64, ds[k], segs[i], nl)
      {
        if i > 0 {
          assert rest[i - 1] == segs[i];
          assert IsupBefore(mime, segs, nl, (i - 1) + 1) == here + IsupBefore(mime, rest, nl, i - 1);
        }
      }
    }
  }

  lemma FirstVerdict(mime: Mime, b64: Base64, segs: seq<Bytes>, nl: Bytes)
    requires segs != []
    ensures var ds := DecodeSegments(mime, b64, segs, nl);
            var more := DecodeSegments(mime, b64, segs[1..], nl);
            if HoldsIsup(mime, segs[0], nl)
            then |ds| == 1 + |more| && ds[1..] == more && SegmentVerdict(mime, b64, ds[0], segs[0], nl)
            else ds == more
  {
    hide PartVerdict, DecodeEntity, PartOf;
    HoldsIsupIff(mime, segs[0], nl);
    if HoldsIsup(mime, segs[0], nl) { EntityVerdict(mime, b64, PartOf(segs[0], nl).value); }
  }

  lemma {:induction false} CountedOn(mime: Mime, segs: seq<Bytes>, nl: Bytes, i: nat)
    requires i < |segs|
    ensures IsupBefore(mime, segs, nl, i + 1) ==
            (if HoldsIsup(mime, segs[0], nl) then 1 else 0) + IsupBefore(mime, segs[1..], nl, i)
  {
    hide HoldsIsup;
    if i > 0 {
      CountedOn(mime, segs, nl, i - 1);
      assert segs[1..][i - 1] == segs[i];
    }
  }

  /** The result is named after the first ISUP part when that has a type. */
  lemma {:induction false} FirstNames(mime: Mime, segs: seq<Bytes>, nl: Bytes, i: nat)
    requires i < |segs| && HoldsIsup(mime, segs[i], nl) && forall k :: 0 <= k < i ==> !HoldsIsup(mime, segs[k], nl)
    requires ContentType(PartOf(segs[i], nl).value) != []
    ensures var ct := ContentType(PartOf(segs[i], nl).value);
            NamedType(mime, PartTypes(mime, segs, nl), [], []) == (ct, VersionOf(mime, ct))
  {
    hide HoldsIsup, IsupOf, PartOf, ContentType, IsupVersion;
    HasVersion(mime, segs[i], nl);
    var ct := ContentType(PartOf(segs[i], nl).value);
    HoldsIsupIff(mime, segs[0], nl);
    if i == 0 {
      HasVersion(mime, segs[0], nl);
      assert PartTypes(mime, segs, nl)[1..] == PartTypes(mime, segs[1..], nl);
    } else {
      assert forall k :: 0 <= k < i ==> segs[1..][k] == segs[k + 1];
      FirstNames(mime, segs[1..], nl, i - 1);
      assert [] + PartTypes(mime, segs[1..], nl) == PartTypes(mime, segs[1..], nl);
    }
  }

  lemma HasVersion(mime: Mime, seg: Bytes, nl: Bytes)
    requires HoldsIsup(mime, seg, nl)
    ensures PartOf(seg, nl).Some?
    ensures var ct := ContentType(PartOf(seg, nl).value); IsupVersion(mime, ct) == Some(VersionOf(mime, ct))
  {
    VersionIs(mime, PartOf(seg, nl).value);
  }

  /** The segments of a multipart message behind its preamble. */
  ghost function PartsOf(mime: Mime, m: Bytes): seq<Bytes>
    requires SplitSip(m).Some? && NamesParts(mime, ContentType(SplitSip(m).value))
  {
    var e := SplitSip(m).value;
    Split(e.body, Marker(mime(ContentType(e)).boundary))[1..]
  }

  /**
    A multipart message gives one entry for each ISUP part, in their order, each with what has to be said of
    its octets, and no result exactly when it holds no such part.
    */
  lemma MultipartVerdicts(mime: Mime, b64: Base64, m: Bytes)
    requires SplitSip(m).Some? && NamesParts(mime, ContentType(SplitSip(m).value))
    ensures var segs, nl := PartsOf(mime, m), SplitSip(m).value.nl;
            match DecodeSip(mime, b64, m)
            case None => forall i :: 0 <= i < |segs| ==> !HoldsIsup(mime, segs[i], nl)
            case Some(r) =>
              && !r.failed && r.messages != []
              && |r.messages| == IsupBefore(mime, segs, nl, |segs|)
              && forall i :: 0 <= i < |segs| && HoldsIsup(mime, segs[i], nl) ==>
                   var k := IsupBefore(mime, segs, nl, i);
                   k < |r.messages| && SegmentVerdict(mime, b64, r.messages[k], segs[i], nl)
  {
    hide SplitSip, Split, ContentType, HoldsIsup, SegmentVerdict, PartOf, DecodeSegments, NamedType, PartTypes,
            NamesParts,
      MultipartBoundary;
    NamesPartsIff(mime, ContentType(SplitSip(m).value));
    SegmentVerdicts(mime, b64, PartsOf(mime, m), SplitSip(m).value.nl);
  }

  /** The content type and the version of the result are those of the first ISUP part, when that has a type. */
  lemma MultipartNamed(mime: Mime, b64: Base64, m: Bytes, i: nat)
    requires SplitSip(m).Some? && NamesParts(mime, ContentType(SplitSip(m).value))
    requires i < |PartsOf(mime, m)| && HoldsIsup(mime, PartsOf(mime, m)[i], SplitSip(m).value.nl)
    requires forall k :: 0 <= k < i ==> !HoldsIsup(mime, PartsOf(mime, m)[k], SplitSip(m).value.nl)
    requires ContentType(PartOf(PartsOf(mime, m)[i], SplitSip(m).value.nl).value) != []
    ensures var ct := ContentType(PartOf(PartsOf(mime, m)[i], SplitSip(m).value.nl).value);
            var r := DecodeSip(mime, b64, m);
            r.Some? && r.value.contentType == ct && r.value.version == VersionOf(mime, ct)
  {
    hide SplitSip, Split, ContentType, HoldsIsup, SegmentVerdict, PartOf, DecodeSegments, NamedType, PartTypes,
            NamesParts,
      MultipartBoundary;
    NamesPartsIff(mime, ContentType(SplitSip(m).value));
    SegmentVerdicts(mime, b64, PartsOf(mime, m), SplitSip(m).value.nl);
    FirstNames(mime, PartsOf(mime, m), SplitSip(m).value.nl, i);
  }
}
