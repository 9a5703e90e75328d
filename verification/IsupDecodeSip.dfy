/**
  Finding and decoding the ISUP bodies of a SIP message (src/isup/decode.go, DecodeSIP), and why the
  hex form of a body decodes to the same result as the body.
  */
module IsupDecodeSip {
  import opened Octets
  import opened Text
  import opened SipText
  import opened Utf8
  import opened IsupPreserve
  import opened Segments
  import opened IsupHex
  import opened IsupRoundTrip
  import opened IsupHexRoundTrip
  import D = IsupDecode

  /** "ansi" */
  const ANSI: Bytes := [97, 110, 115, 105]

  /** One entry of Result.Messages. */
  datatype Decoding = Undecodable | AnsiIsup(octets: Bytes) | ItuIsup(message: D.Decoded)

  datatype Result = Result(contentType: Bytes, version: Bytes, messages: seq<Decoding>, failed: bool)

  /** entityBody: the octets of the body, whatever form it is stored in. */
  function EntityBody(b64: Base64, e: Entity): Option<Bytes>
    requires e.nl != []
  {
    match HeaderValue(e.headers, e.nl, BINARY_BODY)
    case None => Some(e.body)
    case Some(encoding) => DecodeBody(b64, encoding, e.body)
  }

  /** decodeOrReject. */
  function DecodeOrReject(version: Bytes, raw: Bytes): Decoding {
    if Index(ToLower(version), ANSI) >= 0 then AnsiIsup(raw) else ItuIsup(D.Decode(raw))
  }

  function DecodeEntity(mime: Mime, b64: Base64, e: Entity): Decoding
    requires e.nl != [] && IsIsup(mime, e)
  {
    match EntityBody(b64, e)
    case None => Undecodable
    case Some(raw) => DecodeOrReject(IsupVersion(mime, ContentType(e)).value, raw)
  }

  /** The decodings of the ISUP parts in these segments, in order. */
  function DecodeSegments(mime: Mime, b64: Base64, segs: seq<Bytes>, nl: Bytes): seq<Decoding> {
    if segs == [] then []
    else
      (match IsupOf(mime, segs[0], nl) case None => [] case Some(e) => [DecodeEntity(mime, b64, e)]) +
      DecodeSegments(mime, b64, segs[1..], nl)
  }

  /** Content types of the ISUP parts, in order. */
  function PartTypes(mime: Mime, segs: seq<Bytes>, nl: Bytes): seq<Bytes> {
    if segs == [] then []
    else
      (match IsupOf(mime, segs[0], nl) case None => [] case Some(e) => [ContentType(e)]) +
      PartTypes(mime, segs[1..], nl)
  }

  /** The content type and version that go with the result: of the first part that names a type. */
  function NamedType(mime: Mime, types: seq<Bytes>, ct: Bytes, version: Bytes): (Bytes, Bytes) {
    if types == [] || ct != [] then (ct, version)
    else
      var v := IsupVersion(mime, types[0]);
      NamedType(mime, types[1..], types[0], if v.Some? then v.value else version)
  }

  /** decodeMultipart: nothing when the body holds no ISUP part. */
  function DecodeMultipart(mime: Mime, b64: Base64, body: Bytes, marker: Bytes, nl: Bytes,
          topType: Bytes): Option<Result>
    requires marker != []
  {
    var segs := Split(body, marker)[1..];
    var messages := DecodeSegments(mime, b64, segs, nl);
    var (ct, version) := NamedType(mime, PartTypes(mime, segs, nl), [], []);
    if messages == [] then None else Some(Result(if ct == [] then topType else ct, version, messages, false))
  }

  /** DecodeSIP. */
  function DecodeSip(mime: Mime, b64: Base64, payload: Bytes): Option<Result> {
    match SplitSip(payload)
    case None => None
    case Some(e) =>
      var ct := ContentType(e);
      match MultipartBoundary(mime, ct)
      case Some(boundary) => DecodeMultipart(mime, b64, e.body, Marker(boundary), e.nl, ct)
      case None =>
        match IsupVersion(mime, ct)
        case None => None
        case Some(version) =>
          match EntityBody(b64, e)
          case None => Some(Result(ct, version, [], true))
          case Some(raw) => Some(Result(ct, version, [DecodeOrReject(version, raw)], false))
  }

  /** decodeMultipart as the loop of the source, over the parts behind the preamble. */
  method DecodeMultipartLoop(mime: Mime, b64: Base64, body: Bytes, boundary: Bytes, nl: Bytes, topType: Bytes)
    returns (r: Option<Result>)
    ensures r == DecodeMultipart(mime, b64, body, Marker(boundary), nl, topType)
  {
    hide Split, Marker, DecodeSegments, DecodeEntity, PartTypes, NamedType, DecodeMultipart, PartOf, ContentType,
            IsupVersion;
    MarkerHasDashes(boundary);
    var parts := Split(body, Marker(boundary));
    var messages: seq<Decoding> := [];
    var version, partType: Bytes := [], [];
    var found := false;
    ghost var segs := parts[1..];
    var i := 1;
    while i < |parts|
      invariant 1 <= i <= |parts|
      invariant messages + DecodeSegments(mime, b64, parts[i..], nl) == DecodeSegments(mime, b64, segs, nl)
      invariant found <==> messages != []
      invariant NamedType(mime, PartTypes(mime, parts[i..], nl), partType, version) ==
                NamedType(mime, PartTypes(mime, segs, nl), [], [])
    {
      SegmentStep(mime, b64, parts, i, nl);
      var e := IsupOf(mime, parts[i], nl);
      if e.Some? {
        found := true;
        NamedStep(mime, ContentType(e.value), PartTypes(mime, parts[i + 1..], nl), partType, version);
        if partType == [] {
          partType := ContentType(e.value);
          version := IsupVersion(mime, partType).value;
        }
        var d := DecodeEntity(mime, b64, e.value);
        Assoc(messages, [d], DecodeSegments(mime, b64, parts[i + 1..], nl));
        messages := messages + [d];
      } else {
        assert [] + PartTypes(mime, parts[i + 1..], nl) == PartTypes(mime, parts[i + 1..], nl);
        assert [] + DecodeSegments(mime, b64, parts[i + 1..], nl) == DecodeSegments(mime, b64, parts[i + 1..], nl);
      }
      i := i + 1;
    }
    NothingMore(mime, b64, nl, partType, version);
    assert parts[i..] == [] && messages + [] == messages;
    CollectedIs(mime, b64, body, Marker(boundary), nl, topType, messages, partType, version);
    if !found {
      return None;
    }
    r := Some(Result(if partType == [] then topType else partType, version, messages, false));
  }

  lemma MarkerHasDashes(boundary: Bytes)
    ensures Marker(boundary) != []
  {
  }

  lemma NothingMore(mime: Mime, b64: Base64, nl: Bytes, ct: Bytes, version: Bytes)
    ensures DecodeSegments(mime, b64, [], nl) == [] && PartTypes(mime, [], nl) == []
    ensures NamedType(mime, [], ct, version) == (ct, version)
  {
  }

  /** The result from what the loop has collected. */
  lemma CollectedIs(mime: Mime, b64: Base64, body: Bytes, marker: Bytes, nl: Bytes, topType: Bytes,
                    messages: seq<Decoding>, ct: Bytes, version: Bytes)
    requires marker != [] && messages == DecodeSegments(mime, b64, Split(body, marker)[1..], nl)
    requires NamedType(mime, PartTypes(mime, Split(body, marker)[1..], nl), [], []) == (ct, version)
    ensures DecodeMultipart(mime, b64, body, marker, nl, topType) ==
            if messages == [] then None else Some(Result(if ct == [] then topType else ct, version, messages, false))
  {
    hide Split, DecodeSegments, PartTypes, NamedType;
  }

  lemma NamedStep(mime: Mime, t: Bytes, rest: seq<Bytes>, ct: Bytes, version: Bytes)
    requires IsupVersion(mime, t).Some?
    ensures NamedType(mime, [t] + rest, ct, version) ==
            if ct == [] then NamedType(mime, rest, t, IsupVersion(mime, t).value) else NamedType(mime, rest, ct,
                    version)
  {
    assert ([t] + rest)[1..] == rest;
  }

  lemma SegmentStep(mime: Mime, b64: Base64, segs: seq<Bytes>, i: nat, nl: Bytes)
    requires i < |segs|
    ensures var e := IsupOf(mime, segs[i], nl);
            && DecodeSegments(mime, b64, segs[i..], nl) ==
               (if e.None? then [] else [DecodeEntity(mime, b64, e.value)]) + DecodeSegments(mime, b64,
                       segs[i + 1..], nl)
            && PartTypes(mime, segs[i..], nl) ==
               (if e.None? then [] else [ContentType(e.value)]) + PartTypes(mime, segs[i + 1..], nl)
  {
    assert segs[i..][1..] == segs[i + 1..];
  }

  // ---------------------------------------------------------------- the hex form decodes alike

  /** The hex entity has the content type and, decoded, the body of the entity. */
  lemma HexEntityDecodes(mime: Mime, b64: Base64, e: Entity)
    requires CutAtBlank(e) && !Marked(e)
    ensures ContentType(HexEntity(e)) == ContentType(e)
    ensures EntityBody(b64, HexEntity(e)) == EntityBody(b64, e)
  {
    HexEntitySplit(e);
    HexHeaders(e);
    HexBody(b64, e.body);
  }

  /** The same ISUP part, or none, as far as decoding goes. */
  ghost predicate Alike(mime: Mime, b64: Base64, s: Bytes, t: Bytes, nl: Bytes) {
    var d, e := IsupOf(mime, s, nl), IsupOf(mime, t, nl);
    && d.Some? == e.Some?
    && (e.Some? ==> ContentType(d.value) == ContentType(e.value) && EntityBody(b64, d.value) == EntityBody(b64,
            e.value))
  }

  lemma RewrittenDecodes(mime: Mime, b64: Base64, seg: Bytes, nl: Bytes, marker: Bytes)
    requires Segment(seg, nl, marker) && Rewrites(seg, nl)
    ensures Alike(mime, b64, MapSegment(seg, nl, PreservePart), seg, nl)
  {
    var e := PartOf(seg, nl).value;
    var s := MapSegment(seg, nl, PreservePart);
    assert PartOf(s, nl) == Some(HexEntity(e)) && CutAtBlank(e) by { PreservedSegment(seg, nl, marker); }
    HexEntityDecodes(mime, b64, e);
    assert IsIsup(mime, HexEntity(e)) == IsIsup(mime, e);
    assert IsupOf(mime, s, nl) == if IsIsup(mime, e) then Some(HexEntity(e)) else None;
    assert IsupOf(mime, seg, nl) == if IsIsup(mime, e) then Some(e) else None;
  }

  lemma SegmentDecodes(mime: Mime, b64: Base64, seg: Bytes, nl: Bytes, marker: Bytes)
    requires Segment(seg, nl, marker)
    ensures var s := MapSegment(seg, nl, PreservePart);
            && (s == seg || (Clean(s, marker) && (nl == NL ==> Free(s, CRLF2))))
            && Alike(mime, b64, s, seg, nl)
  {
    if Rewrites(seg, nl) {
      PreservedSegment(seg, nl, marker);
      RewrittenDecodes(mime, b64, seg, nl, marker);
    }
  }

  lemma {:induction false} SegmentsDecode(mime: Mime, b64: Base64, segs: seq<Bytes>, nl: Bytes, marker: Bytes)
    requires AllSegments(segs, nl, marker)
    ensures var to := MapSegments(segs, nl, PreservePart);
            && DecodeSegments(mime, b64, to, nl) == DecodeSegments(mime, b64, segs, nl)
            && PartTypes(mime, to, nl) == PartTypes(mime, segs, nl)
            && Recut(segs, to, nl, marker)
  {
    if segs == [] {
    } else {
      hide DecodeEntity, IsupOf, PartOf, MapSegment, Segment, Clean, Free, DecodeSegments, PartTypes;
      var s := MapSegment(segs[0], nl, PreservePart);
      var more := MapSegments(segs[1..], nl, PreservePart);
      assert forall i :: 0 <= i < |segs[1..]| ==> segs[1..][i] == segs[i + 1];
      SegmentsDecode(mime, b64, segs[1..], nl, marker);
      SegmentDecodes(mime, b64, segs[0], nl, marker);
      MapCons(segs, nl);
      AlikeFirst(mime, b64, s, more, segs, nl);
      RecutCons(s, more, segs, nl, marker);
    }
  }

  lemma MapCons(segs: seq<Bytes>, nl: Bytes)
    requires segs != []
    ensures MapSegments(segs, nl, PreservePart) ==
            [MapSegment(segs[0], nl, PreservePart)] + MapSegments(segs[1..], nl, PreservePart)
  {
  }

  lemma RecutCons(s: Bytes, more: seq<Bytes>, segs: seq<Bytes>, nl: Bytes, marker: Bytes)
    requires segs != [] && Recut(segs[1..], more, nl, marker)
    requires s == segs[0] || (Clean(s, marker) && (nl == NL ==> Free(s, CRLF2)))
    ensures Recut(segs, [s] + more, nl, marker)
  {
    hide Clean, Free;
    var to := [s] + more;
    assert forall i :: 1 <= i < |to| ==> to[i] == more[i - 1] && segs[i] == segs[1..][i - 1];
  }

  lemma AlikeFirst(mime: Mime, b64: Base64, s: Bytes, more: seq<Bytes>, segs: seq<Bytes>, nl: Bytes)
    requires segs != [] && Alike(mime, b64, s, segs[0], nl)
    requires DecodeSegments(mime, b64, more, nl) == DecodeSegments(mime, b64, segs[1..], nl)
    requires PartTypes(mime, more, nl) == PartTypes(mime, segs[1..], nl)
    ensures DecodeSegments(mime, b64, [s] + more, nl) == DecodeSegments(mime, b64, segs, nl)
    ensures PartTypes(mime, [s] + more, nl) == PartTypes(mime, segs, nl)
  {
    hide IsupOf, EntityBody;
    assert ([s] + more)[1..] == more;
  }

  /** Decoding commutes with the hex form: every payload decodes as its preserved form does. */
  lemma DecodeCommutes(mime: Mime, b64: Base64, m: Bytes)
    requires PlainPayload(mime, m) || MultipartPayload(mime, m) || SplitSip(m).None?
    ensures DecodeSip(mime, b64, Preserve(mime, m)) == DecodeSip(mime, b64, m)
  {
    if Preserve(mime, m) != m {
      var e := SplitSip(m).value;
      SplitSipGives(m);
      if PlainPayload(mime, m) {
        PreservedPart(m);
        HexEntitySplit(e);
        HexEntityDecodes(mime, b64, e);
      } else {
        MultipartCommutes(mime, b64, m);
      }
    }
  }

  lemma MultipartDecodes(mime: Mime, b64: Base64, f: Entity, boundary: Bytes)
    requires SplitSip(Unsplit(f)) == Some(f) && MultipartBoundary(mime, ContentType(f)) == Some(boundary)
    ensures DecodeSip(mime, b64, Unsplit(f)) ==
            DecodeMultipart(mime, b64, f.body, Marker(boundary), f.nl, ContentType(f))
  {
  }

  lemma BodiesCut(mime: Mime, b64: Base64, e: Entity, marker: Bytes)
    requires CutAtBlank(e) && IsMarker(marker)
    ensures var segs := Split(e.body, marker);
            var to := MapBody(e.body, marker, e.nl, PreservePart);
            && (e.nl == NL ==> Free(Join(to, marker), CRLF2))
            && Split(Join(to, marker), marker) == to
            && DecodeSegments(mime, b64, to[1..], e.nl) == DecodeSegments(mime, b64, segs[1..], e.nl)
            && PartTypes(mime, to[1..], e.nl) == PartTypes(mime, segs[1..], e.nl)
  {
    hide Split, MapSegments, Join, Free, Clean, DecodeSegments, PartTypes, Segment;
    var segs := Split(e.body, marker);
    var more := MapSegments(segs[1..], e.nl, PreservePart);
    var to := [segs[0]] + more;
    AllAreSegments(e, marker);
    SegmentsDecode(mime, b64, segs[1..], e.nl, marker);
    RecutHead(segs, more, e.nl, marker);
    RecutSplit(e.body, to, e.nl, marker);
    assert to[1..] == more;
  }

  lemma BodiesDecode(mime: Mime, b64: Base64, e: Entity, marker: Bytes, topType: Bytes)
    requires CutAtBlank(e) && IsMarker(marker)
    ensures var to := MapBody(e.body, marker, e.nl, PreservePart);
            && (e.nl == NL ==> Free(Join(to, marker), CRLF2))
            && DecodeMultipart(mime, b64, Join(to, marker), marker, e.nl, topType) ==
               DecodeMultipart(mime, b64, e.body, marker, e.nl, topType)
  {
    hide Split, MapBody, Join, Free, DecodeSegments, PartTypes, NamedType, CutAtBlank;
    BodiesCut(mime, b64, e, marker);
  }

  lemma MultipartCommutes(mime: Mime, b64: Base64, m: Bytes)
    requires MultipartPayload(mime, m) && Preserve(mime, m) != m
    ensures DecodeSip(mime, b64, Preserve(mime, m)) == DecodeSip(mime, b64, m)
  {
    var e := SplitSip(m).value;
    var boundary := MultipartBoundary(mime, ContentType(e)).value;
    var body := Join(MapBody(e.body, Marker(boundary), e.nl, PreservePart), Marker(boundary));
    SplitSipGives(m);
    BodiesDecode(mime, b64, e, Marker(boundary), ContentType(e));
    Resplit(e, |body|, body);
    MultipartDecodes(mime, b64, Entity(Relength(e.headers, e.nl, |body|), e.nl, body), boundary);
    MultipartDecodes(mime, b64, e, boundary);
  }
}
