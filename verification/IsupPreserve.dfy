/**
  Lifting binary ISUP bodies out of SIP-I messages and putting them back
  (src/isup/preserve.go: DetachISUPBody, AttachISUPBody, MessageBytes and what they call).

  mime.ParseMediaType is a parameter: any deterministic function of the Content-Type value.
  */
module IsupPreserve {
  import opened Octets
  import opened Text
  import opened SipText
  import opened Utf8

  /** "application/isup" */
  const APPLICATION_ISUP: Bytes := [97, 112, 112, 108, 105, 99, 97, 116, 105, 111, 110, 47, 105, 115, 117, 112]
  /** "multipart/" */
  const MULTIPART: Bytes := [109, 117, 108, 116, 105, 112, 97, 114, 116, 47]
  /** "ISI1" */
  const MAGIC: Bytes := [73, 83, 73, 49]
  const DASHES: Bytes := [45, 45]

  /** The result of mime.ParseMediaType; absent parameters are empty. */
  datatype Media = BadMedia | Media(kind: Bytes, boundary: Bytes, version: Bytes)
  type Mime = Bytes -> Media

  /** multipartBoundary. */
  function MultipartBoundary(mime: Mime, contentType: Bytes): (b: Option<Bytes>)
    ensures b.Some? ==> b.value != []
  {
    match mime(contentType)
    case BadMedia => None
    case Media(kind, boundary, _) =>
      if !HasPrefix(ToLower(kind), MULTIPART) || boundary == [] then None else Some(boundary)
  }

  /** isISUPType: the version parameter of an ISUP content type. */
  function IsupVersion(mime: Mime, contentType: Bytes): Option<Bytes> {
    match mime(contentType)
    case BadMedia => if Index(ToLower(contentType), APPLICATION_ISUP) >= 0 then Some([]) else None
    case Media(kind, _, version) => if EqualFold(kind, APPLICATION_ISUP) then Some(version) else None
  }

  /** The Content-Type value, empty when the header is missing. */
  function ContentType(e: Entity): Bytes
    requires e.nl != []
  {
    match HeaderValue(e.headers, e.nl, CONTENT_TYPE)
    case Some(v) => v
    case None => []
  }

  predicate IsIsup(mime: Mime, e: Entity)
    requires e.nl != []
  {
    IsupVersion(mime, ContentType(e)).Some?
  }

  /** Is the entity marked as rewritten by PreserveBinarySIPPayload? */
  predicate Marked(e: Entity)
    requires e.nl != []
  {
    HeaderValue(e.headers, e.nl, BINARY_BODY).Some?
  }

  /** The headers with every Content-Length line set to `n`. */
  function Relength(headers: Bytes, nl: Bytes, n: nat): Bytes
    requires nl != []
  {
    ReplaceHeader(headers, nl, CONTENT_LENGTH, Itoa(n))
  }

  /** setSIPBody. */
  function SetSipBody(headers: Bytes, nl: Bytes, body: Bytes): Bytes
    requires nl != []
  {
    (if headers != [] then Relength(headers, nl, |body|) else headers) + nl + nl + body
  }

  // ---------------------------------------------------------------- the ISI1 envelope

  function Records(parts: seq<Bytes>): Bytes {
    if parts == [] then [] else Be32(|parts[0]| % 0x1_0000_0000) + parts[0] + Records(parts[1..])
  }

  /** packISUPBodies: one part is stored raw, several in an envelope with a 16-bit count. */
  function Pack(parts: seq<Bytes>): Bytes {
    if |parts| == 0 then []
    else if |parts| == 1 then parts[0]
    else MAGIC + Be16(|parts| % 0x1_0000) + Records(parts)
  }

  /** `n` records and nothing behind them. */
  function ReadRecords(s: Bytes, n: nat): Option<seq<Bytes>>
    decreases n
  {
    if n == 0 then (if s == [] then Some([]) else None)
    else if |s| < 4 then None
    else
      var l := FromBe32(s[..4]);
      if |s| - 4 < l then None
      else
        match ReadRecords(s[4 + l..], n - 1)
        case None => None
        case Some(rest) => Some([s[4..4 + l]] + rest)
  }

  /** unpackISUPEnvelope. */
  function Unenvelope(blob: Bytes): Option<seq<Bytes>> {
    if |blob| < 6 || blob[..4] != MAGIC || FromBe16(blob[4..6]) <= 1 then None
    else ReadRecords(blob[6..], FromBe16(blob[4..6]))
  }

  /** unpackISUPBodies. */
  function Unpack(blob: Bytes, nparts: nat): (bodies: seq<Bytes>)
    ensures nparts >= 1 ==> |bodies| == nparts
  {
    if nparts <= 1 then [blob]
    else
      var decoded := Unenvelope(blob);
      if decoded.Some? && |decoded.value| == nparts then decoded.value
      else seq(nparts, i => if i == 0 then blob else [])
  }

  // ---------------------------------------------------------------- multipart segments

  function Marker(boundary: Bytes): Bytes {
    DASHES + boundary
  }

  /** A segment between two markers: the newlines at its ends belong to the delimiters. */
  datatype Framed = Framed(lead: Bytes, part: Bytes, trail: Bytes)

  function Unframe(f: Framed): Bytes {
    f.lead + f.part + f.trail
  }

  function Frame(seg: Bytes, nl: Bytes): (f: Framed)
    ensures Unframe(f) == seg
  {
    var lead := if HasPrefix(seg, nl) then nl else [];
    var rest := seg[|lead|..];
    var trail := if HasSuffix(rest, nl) then nl else [];
    Framed(lead, rest[..|rest| - |trail|], trail)
  }

  /** The closing delimiter and what follows it are copied verbatim. */
  predicate Closing(seg: Bytes) {
    HasPrefix(seg, DASHES)
  }

  /** The MIME part in a segment, when it has a header block. */
  function PartOf(seg: Bytes, nl: Bytes): (r: Option<Entity>)
    ensures r.Some? ==> r.value.nl == CRLF || r.value.nl == NL
  {
    if Closing(seg) then None else SplitSip(Frame(seg, nl).part)
  }

  /** The application/isup part in a segment. */
  function IsupOf(mime: Mime, seg: Bytes, nl: Bytes): (r: Option<Entity>)
    ensures r.Some? ==> r.value.nl == CRLF || r.value.nl == NL
  {
    var e := PartOf(seg, nl);
    if e.Some? && IsIsup(mime, e.value) then e else None
  }

  /** The segment with the text of its part replaced. */
  function WithPart(seg: Bytes, nl: Bytes, part: Bytes): Bytes {
    Unframe(Frame(seg, nl).(part := part))
  }

  // ---------------------------------------------------------------- detaching

  /** Does detachMultipartISUP take the body of this segment? */
  predicate Lifts(mime: Mime, seg: Bytes, nl: Bytes) {
    var e := IsupOf(mime, seg, nl);
    e.Some? && !Safe(e.value.body)
  }

  function DetachSegment(mime: Mime, seg: Bytes, nl: Bytes): Bytes {
    if Lifts(mime, seg, nl) then
      var e := IsupOf(mime, seg, nl).value;
      WithPart(seg, nl, SetSipBody(e.headers, e.nl, []))
    else seg
  }

  function DetachSegments(mime: Mime, segs: seq<Bytes>, nl: Bytes): (r: seq<Bytes>)
    ensures |r| == |segs|
  {
    if segs == [] then [] else [DetachSegment(mime, segs[0], nl)] + DetachSegments(mime, segs[1..], nl)
  }

  function LiftedBodies(mime: Mime, segs: seq<Bytes>, nl: Bytes): seq<Bytes> {
    if segs == [] then []
    else
      (if Lifts(mime, segs[0], nl) then [IsupOf(mime, segs[0], nl).value.body] else []) +
      LiftedBodies(mime, segs[1..], nl)
  }

  /** DetachISUPBody: the payload to store and the octets for isup_body, empty for nil. */
  function Detach(mime: Mime, payload: Bytes): (Bytes, Bytes) {
    var split := SplitSip(payload);
    if Safe(payload) || split.None? || Marked(split.value) then (payload, [])
    else
      var e := split.value;
      match MultipartBoundary(mime, ContentType(e))
      case Some(boundary) =>
        var segs := Split(e.body, Marker(boundary));
        var parts := LiftedBodies(mime, segs[1..], e.nl);
        if parts == [] then (payload, [])
        else
          var body := Join([segs[0]] + DetachSegments(mime, segs[1..], e.nl), Marker(boundary));
          (Relength(e.headers, e.nl, |body|) + e.nl + e.nl + body, Pack(parts))
      case None =>
        if !IsIsup(mime, e) || Safe(e.body) then (payload, [])
        else (SetSipBody(e.headers, e.nl, []), e.body)
  }

  // ---------------------------------------------------------------- attaching

  function IsupCount(mime: Mime, segs: seq<Bytes>, nl: Bytes): nat {
    if segs == [] then 0
    else (if IsupOf(mime, segs[0], nl).Some? then 1 else 0) + IsupCount(mime, segs[1..], nl)
  }

  function AttachSegment(mime: Mime, seg: Bytes, nl: Bytes, body: Bytes): Bytes {
    match IsupOf(mime, seg, nl)
    case None => seg
    case Some(e) => WithPart(seg, nl, SetSipBody(e.headers, e.nl, body))
  }

  /** Each ISUP part takes the next body; parts beyond the last body become empty. */
  function AttachSegments(mime: Mime, segs: seq<Bytes>, nl: Bytes, bodies: seq<Bytes>): (r: seq<Bytes>)
    ensures |r| == |segs|
  {
    if segs == [] then []
    else
      var raw := if bodies == [] then [] else bodies[0];
      var later := if IsupOf(mime, segs[0], nl).None? || bodies == [] then bodies else bodies[1..];
      [AttachSegment(mime, segs[0], nl, raw)] + AttachSegments(mime, segs[1..], nl, later)
  }

  /** attachMultipartISUP. */
  function AttachMultipart(mime: Mime, body: Bytes, marker: Bytes, nl: Bytes, blob: Bytes): Bytes
    requires marker != []
  {
    var segs := Split(body, marker);
    var bodies := Unpack(blob, IsupCount(mime, segs[1..], nl));
    Join([segs[0]] + AttachSegments(mime, segs[1..], nl, bodies), marker)
  }

  /** AttachISUPBody. */
  function Attach(mime: Mime, payload: Bytes, blob: Bytes): Bytes {
    var split := SplitSip(payload);
    if blob == [] || split.None? then payload
    else
      var e := split.value;
      match MultipartBoundary(mime, ContentType(e))
      case Some(boundary) =>
        var body := AttachMultipart(mime, e.body, Marker(boundary), e.nl, blob);
        Relength(e.headers, e.nl, |body|) + e.nl + e.nl + body
      case None =>
        if !IsIsup(mime, e) then payload else SetSipBody(e.headers, e.nl, Unpack(blob, 1)[0])
  }

  // ---------------------------------------------------------------- the loops of the source

  /** packISUPBodies, appending one length-prefixed record after the other. */
  method PackBodies(parts: seq<Bytes>) returns (out: Bytes)
    ensures out == Pack(parts)
  {
    if |parts| == 0 {
      return [];
    }
    if |parts| == 1 {
      return parts[0];
    }
    ghost var head := MAGIC + Be16(|parts| % 0x1_0000);
    out := MAGIC + Be16(|parts| % 0x1_0000);
    assert parts[0..] == parts;
    for i := 0 to |parts|
      invariant out + Records(parts[i..]) == head + Records(parts)
    {
      ghost var rest := Records(parts[i + 1..]);
      var record := Be32(|parts[i]| % 0x1_0000_0000) + parts[i];
      assert parts[i..][0] == parts[i] && parts[i..][1..] == parts[i + 1..];
      Assoc(out, record, rest);
      out := out + record;
    }
    assert out + [] == out;
  }

  /** unpackISUPEnvelope, cutting one record after the other off `rest`. */
  method UnpackEnvelope(blob: Bytes) returns (r: Option<seq<Bytes>>)
    ensures r == Unenvelope(blob)
  {
    if |blob| < 6 || blob[..4] != MAGIC {
      return None;
    }
    var n := FromBe16(blob[4..6]);
    if n <= 1 {
      return None;
    }
    var rest := blob[6..];
    var out: seq<Bytes> := [];
    ghost var all := ReadRecords(rest, n);
    assert all.Some? ==> [] + all.value == all.value;
    for i := 0 to n
      invariant Unenvelope(blob) ==
                match ReadRecords(rest, n - i) { case None => None case Some(more) => Some(out + more) }
    {
      if |rest| < 4 {
        return None;
      }
      var l := FromBe32(rest[..4]);
      if |rest| - 4 < l {
        return None;
      }
      ghost var more := ReadRecords(rest[4 + l..], n - i - 1);
      if more.Some? {
        Assoc(out, [rest[4..4 + l]], more.value);
      }
      out := out + [rest[4..4 + l]];
      rest := rest[4 + l..];
    }
    if rest != [] {
      return None;
    }
    assert out + [] == out;
    r := Some(out);
  }

  /** The closure of detachMultipartISUP: the part without its body, and the body it takes. */
  method DetachPart(mime: Mime, part: Bytes) returns (next: Bytes, lifted: seq<Bytes>)
    ensures var e := SplitSip(part);
            if e.Some? && IsIsup(mime, e.value) && !Safe(e.value.body)
            then next == SetSipBody(e.value.headers, e.value.nl, []) && lifted == [e.value.body]
            else next == part && lifted == []
  {
    var e := SplitSip(part);
    if e.None? || !IsIsup(mime, e.value) || Safe(e.value.body) {
      return part, [];
    }
    next, lifted := SetSipBody(e.value.headers, e.value.nl, []), [e.value.body];
  }

  lemma DetachStep(mime: Mime, segs: seq<Bytes>, i: nat, nl: Bytes)
    requires i < |segs|
    ensures DetachSegments(mime, segs[i..], nl) ==
            [DetachSegment(mime, segs[i], nl)] + DetachSegments(mime, segs[i + 1..], nl)
    ensures LiftedBodies(mime, segs[i..], nl) ==
            (if Lifts(mime, segs[i], nl) then [IsupOf(mime, segs[i], nl).value.body] else []) +
            LiftedBodies(mime, segs[i + 1..], nl)
  {
    assert segs[i..][1..] == segs[i + 1..];
  }

  /** detachMultipartISUP: mapMultipart with the closure that collects `parts`. */
  method DetachMultipart(mime: Mime, body: Bytes, boundary: Bytes, nl: Bytes)
    returns (newBody: Bytes, parts: seq<Bytes>)
    ensures var segs := Split(body, Marker(boundary));
            && parts == LiftedBodies(mime, segs[1..], nl)
            && newBody == Join([segs[0]] + DetachSegments(mime, segs[1..], nl), Marker(boundary))
  {
    hide Split, Frame, SplitSip, Safe, IsIsup, SetSipBody;
    var marker := Marker(boundary);
    var segs := Split(body, marker);
    parts := [];
    newBody := segs[0];
    ghost var done: seq<Bytes> := [segs[0]];
    var i := 1;
    while i < |segs|
      invariant 1 <= i <= |segs|
      invariant parts + LiftedBodies(mime, segs[i..], nl) == LiftedBodies(mime, segs[1..], nl)
      invariant done + DetachSegments(mime, segs[i..], nl) == [segs[0]] + DetachSegments(mime, segs[1..], nl)
      invariant |done| >= 1 && newBody == Join(done, marker)
    {
      var seg := segs[i];
      var now, lifted := seg, [];
      if !Closing(seg) {
        var frame := Frame(seg, nl);
        var next;
        next, lifted := DetachPart(mime, frame.part);
        now := frame.lead + next + frame.trail;
      }
      DetachStep(mime, segs, i, nl);
      assert now == DetachSegment(mime, seg, nl);
      Assoc(parts, lifted, LiftedBodies(mime, segs[i + 1..], nl));
      Assoc(done, [now], DetachSegments(mime, segs[i + 1..], nl));
      JoinAppend(done, now, marker);
      parts := parts + lifted;
      newBody := newBody + marker + now;
      done := done + [now];
      i := i + 1;
    }
    assert done + [] == done && parts + [] == parts;
  }

  /** attachMultipartISUP: one pass counts the ISUP parts, the second hands out the bodies. */
  method AttachMultipartLoop(mime: Mime, body: Bytes, boundary: Bytes, nl: Bytes, blob: Bytes)
    returns (newBody: Bytes)
    ensures newBody == AttachMultipart(mime, body, Marker(boundary), nl, blob)
  {
    hide Split, Frame, PartOf, IsIsup, SetSipBody, Unpack;
    var marker := Marker(boundary);
    var segs := Split(body, marker);
    var nparts := 0;
    var i := 1;
    while i < |segs|
      invariant 1 <= i <= |segs|
      invariant nparts + IsupCount(mime, segs[i..], nl) == IsupCount(mime, segs[1..], nl)
    {
      assert segs[i..][0] == segs[i] && segs[i..][1..] == segs[i + 1..];
      if IsupOf(mime, segs[i], nl).Some? {
        nparts := nparts + 1;
      }
      i := i + 1;
    }
    var bodies := Unpack(blob, nparts);
    newBody := segs[0];
    ghost var done: seq<Bytes> := [segs[0]];
    ghost var all := [segs[0]] + AttachSegments(mime, segs[1..], nl, bodies);
    var idx := 0;
    i := 1;
    assert bodies[0..] == bodies;
    while i < |segs|
      invariant 1 <= i <= |segs| && 0 <= idx
      invariant done + AttachSegments(mime, segs[i..], nl, Rest(bodies, idx)) == all
      invariant |done| >= 1 && newBody == Join(done, marker)
    {
      var seg := segs[i];
      var raw := if idx < |bodies| then bodies[idx] else [];
      AttachStep(mime, segs, i, nl, bodies, idx);
      var e := IsupOf(mime, seg, nl);
      var now := seg;
      if e.Some? {
        idx := idx + 1;
        now := WithPart(seg, nl, SetSipBody(e.value.headers, e.value.nl, raw));
      }
      Assoc(done, [now], AttachSegments(mime, segs[i + 1..], nl, Rest(bodies, idx)));
      JoinAppend(done, now, marker);
      newBody := newBody + marker + now;
      done := done + [now];
      i := i + 1;
    }
    assert done + [] == done;
  }

  lemma AttachStep(mime: Mime, segs: seq<Bytes>, i: nat, nl: Bytes, bodies: seq<Bytes>, idx: nat)
    requires i < |segs|
    ensures var raw := if idx < |bodies| then bodies[idx] else [];
            AttachSegments(mime, segs[i..], nl, Rest(bodies, idx)) ==
            [AttachSegment(mime, segs[i], nl, raw)] +
            AttachSegments(mime, segs[i + 1..], nl,
                           Rest(bodies, if IsupOf(mime, segs[i], nl).Some? then idx + 1 else idx))
  {
    assert segs[i..][1..] == segs[i + 1..];
    if idx < |bodies| {
      assert Rest(bodies, idx)[1..] == bodies[idx + 1..];
    }
  }

  ghost function Rest(bodies: seq<Bytes>, idx: nat): seq<Bytes> {
    if idx <= |bodies| then bodies[idx..] else []
  }
}
