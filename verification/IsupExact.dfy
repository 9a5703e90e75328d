/**
  Which multipart SIP-I messages come back (src/isup/preserve.go): the restorable ones and no other.

  The restored text is cut anew at its delimiters, and nothing says beforehand that the cuts fall
  where the segments end: a lifted part may be lost, a body may be given to another part, and a body
  may run into the delimiter behind it. The proof walks over both texts from the left.
  */
module IsupExact {
  import opened Octets
  import opened Text
  import opened SipText
  import opened Utf8
  import opened IsupPreserve
  import opened IsupCarried
  import opened Segments
  import opened Envelope
  import opened IsupRoundTrip

  // ---------------------------------------------------------------- two ways to cut one text

  ghost predicate OneLine(y: Bytes) {
    CR !in y && LF !in y
  }

  /** The two pieces differ by what their delimiters are apart, and delimiters hold no line break. */
  ghost predicate Shifted(r: Bytes, s: Bytes) {
    exists y, z :: OneLine(y) && OneLine(z) && y + r == s + z
  }

  /** Where `r` does not run on into the delimiter behind `s`. */
  ghost predicate NoLonger(r: Bytes, s: Bytes) {
    forall z :: OneLine(z) && r == s + z ==> z == []
  }

  lemma TooFar(u: Bytes, s: Bytes, marker: Bytes, rt: Bytes, st: Bytes)
    requires marker != [] && u + marker + rt == s + marker + st && |u| >= |s| + |marker|
    ensures |Split(st, marker)| >= 1 + |Split(rt, marker)|
  {
    hide Split;
    var t := s + marker + st;
    var k := |s| + |marker|;
    assert st == t[k..] == (u + marker + rt)[k..] == u[k..] + marker + rt;
    CutPieces(u[k..], marker, rt);
  }

  lemma NotBefore(u: Bytes, s: Bytes, marker: Bytes, rt: Bytes, st: Bytes)
    requires Clean(s, marker) && u + marker + rt == s + marker + st
    ensures |s| <= |u|
  {
    CleanIndex(s, marker, st);
    assert At(u + marker + rt, marker, |u|);
    FirstIndex(s + marker + st, marker, |u|);
  }

  /** One piece on either side: how far the second delimiters are apart. */
  lemma ShiftStep(y: Bytes, r: Bytes, rt: Bytes, s: Bytes, st: Bytes, marker: Bytes) returns (y2: Bytes, z: Bytes)
    requires IsMarker(marker) && Clean(s, marker)
    requires y + (r + marker + rt) == s + marker + st
    requires |Split(rt, marker)| >= |Split(st, marker)|
    ensures OneLine(y2) && OneLine(z) && |y2| == |z|
    ensures y + r == s + z && y2 + rt == st
  {
    hide Clean, Split;
    assert y + (r + marker + rt) == (y + r) + marker + rt;
    NotBefore(y + r, s, marker, rt, st);
    if |y + r| >= |s| + |marker| { TooFar(y + r, s, marker, rt, st); }
    var d := |y + r| - |s|;
    z := marker[..d];
    y2 := marker[|marker| - d..];
    ShiftedBy(y + r, s, marker, rt, st, d);
  }

  lemma ShiftedBy(u: Bytes, s: Bytes, marker: Bytes, rt: Bytes, st: Bytes, d: nat)
    requires u + marker + rt == s + marker + st && |u| == |s| + d && d <= |marker|
    ensures u == s + marker[..d]
    ensures st == marker[|marker| - d..] + rt
  {
    var t := s + marker + st;
    var n := |marker|;
    assert u == t[..|u|] == s + marker[..d];
    assert st == t[|s| + n..];
    assert st[..d] == t[|s| + n..|u| + n] == (u + marker)[|s| + n..];
    assert (u + marker)[|s| + n..] == marker[n - d..];
    assert st[d..] == t[|u| + n..] == rt;
    assert st == st[..d] + st[d..];
  }

  lemma JoinCons(ps: seq<Bytes>, sep: Bytes)
    requires |ps| >= 2
    ensures Join(ps, sep) == ps[0] + sep + Join(ps[1..], sep)
  {
  }

  /** The restored pieces are the old ones up to shifts, one by one. */
  lemma {:induction false} Walk(y: Bytes, rs: seq<Bytes>, ss: seq<Bytes>, marker: Bytes)
    requires IsMarker(marker) && Pieces(ss, marker) && |rs| == |ss| && OneLine(y)
    requires y + Join(rs, marker) == Join(ss, marker)
    ensures forall k :: 0 <= k < |ss| ==> Shifted(rs[k], ss[k])
    decreases |ss|
  {
    if |ss| == 1 {
      assert OneLine([]) && ss[0] + [] == ss[0];
    } else {
      hide Join, Pieces, IsMarker, OneLine;
      JoinCons(rs, marker);
      JoinCons(ss, marker);
      PiecesTail(ss, marker);
      MarkerNotEmpty(marker);
      SplitJoin(ss[1..], marker);
      JoinPieces(rs[1..], marker);
      var y2, z := ShiftStep(y, rs[0], Join(rs[1..], marker), ss[0], Join(ss[1..], marker), marker);
      Walk(y2, rs[1..], ss[1..], marker);
      assert Shifted(rs[0], ss[0]);
      forall k | 0 <= k < |ss| ensures Shifted(rs[k], ss[k]) {
        if k > 0 { assert rs[k] == rs[1..][k - 1] && ss[k] == ss[1..][k - 1]; }
      }
    }
  }

  lemma MarkerNotEmpty(marker: Bytes)
    requires IsMarker(marker)
    ensures marker != []
  {
  }

  lemma NoShift(r: Bytes, rt: Bytes, s: Bytes, st: Bytes, marker: Bytes)
    requires IsMarker(marker) && Clean(s, marker) && NoLonger(r, s)
    requires r + marker + rt == s + marker + st
    requires |Split(rt, marker)| >= |Split(st, marker)|
    ensures r == s && rt == st
  {
    hide Clean, Split, IsMarker;
    var t := r + marker + rt;
    assert [] + t == t && [] + r == r && [] + rt == rt && s + [] == s;
    var y2, z := ShiftStep([], r, rt, s, st, marker);
    assert y2 == [];
  }

  /** Where no piece runs on, there are no shifts. */
  lemma {:induction false} WalkSame(rs: seq<Bytes>, ss: seq<Bytes>, marker: Bytes)
    requires IsMarker(marker) && Pieces(ss, marker) && AllNoLonger(rs, ss)
    requires Join(rs, marker) == Join(ss, marker)
    ensures rs == ss
  {
    if |ss| == 1 {
      assert rs == [rs[0]] && ss == [ss[0]];
    } else {
      hide Join, Pieces, IsMarker, NoLonger;
      JoinCons(rs, marker);
      JoinCons(ss, marker);
      PiecesTail(ss, marker);
      MarkerNotEmpty(marker);
      SplitJoin(ss[1..], marker);
      JoinPieces(rs[1..], marker);
      NoShift(rs[0], Join(rs[1..], marker), ss[0], Join(ss[1..], marker), marker);
      AllNoLongerTail(rs, ss);
      WalkSame(rs[1..], ss[1..], marker);
      assert rs == [rs[0]] + rs[1..] && ss == [ss[0]] + ss[1..];
    }
  }

  ghost predicate AllNoLonger(rs: seq<Bytes>, ss: seq<Bytes>) {
    |rs| == |ss| && forall k :: 0 <= k < |ss| ==> NoLonger(rs[k], ss[k])
  }

  lemma AllNoLongerTail(rs: seq<Bytes>, ss: seq<Bytes>)
    requires ss != [] && AllNoLonger(rs, ss)
    ensures AllNoLonger(rs[1..], ss[1..])
  {
    hide NoLonger;
    forall k | 0 <= k < |ss[1..]| ensures NoLonger(rs[1..][k], ss[1..][k]) {
      assert NoLonger(rs[k + 1], ss[k + 1]);
    }
  }

  // ---------------------------------------------------------------- one segment

  lemma CleanBehind(y: Bytes, h: Bytes, p: Bytes)
    requires OneLine(y) && Clean(h, p) && p != [] && (p[0] == CR || p[0] == LF)
    ensures Clean(y + h, p)
  {
    Assoc(y, h, p);
    forall i | i < |y + h| ensures !At(y + h + p, p, i) {
      if i < |y| {
        if At(y + h + p, p, i) { AtCovers(y + h + p, p, i, i); }
      } else {
        AtRight(y, h + p, p, i);
      }
    }
  }

  /** The header block tells where the body starts, also behind a shift. */
  lemma SameBodyStart(y: Bytes, g: Bytes, h: Bytes, nl: Bytes, t: Bytes, u: Bytes)
    requires Newline(nl) && OneLine(y) && Clean(g, Blank(nl)) && Clean(h, Blank(nl))
    requires y + (g + nl + nl + t) == h + nl + nl + u
    ensures t == u
  {
    CleanBehind(y, g, Blank(nl));
    Assoc(g, nl, nl);
    Assoc(h, nl, nl);
    Assoc(y, g + Blank(nl), t);
    Assoc(y, g, Blank(nl));
    CleanUnique(y + g, h, Blank(nl), t, u);
  }

  lemma FirstOctet(y: Bytes, a: Bytes, x: Bytes, b: Bytes)
    requires y != [] && x != [] && y + a == x + b
    ensures x[0] in y
  {
    assert (y + a)[0] == y[0];
  }

  lemma LastOctet(a: Bytes, x: Bytes, b: Bytes, z: Bytes)
    requires x != [] && z != [] && a + x == b + z
    ensures x[|x| - 1] in z
  {
    assert (a + x)[|a + x| - 1] == x[|x| - 1];
    assert (b + z)[|b + z| - 1] == z[|z| - 1];
  }

  /** The same for the segments around two entities. */
  lemma SameTail(y: Bytes, z: Bytes, lead: Bytes, g: Bytes, h: Bytes, nl: Bytes, a: Bytes, b: Bytes, trail: Bytes,
                 delimiter: Bytes)
    requires Newline(nl) && Newline(delimiter) && OneLine(y) && Clean(g, Blank(nl)) && Clean(h, Blank(nl))
    requires lead == [] || lead == delimiter
    requires y + (lead + (g + nl + nl + a) + trail) == lead + (h + nl + nl + b) + trail + z
    ensures a + trail == b + trail + z
  {
    var x := lead + (h + nl + nl + b) + trail + z;
    Assoc(lead, g + nl + nl + a, trail);
    Assoc(lead, h + nl + nl + b, trail);
    Assoc(lead, h + nl + nl + b + trail, z);
    if lead != [] && y != [] { FirstOctet(y, lead + (g + nl + nl + a) + trail, lead, x[|lead|..]); }
    if lead == [] {
      assert [] + (g + nl + nl + a + trail) == g + nl + nl + a + trail;
      assert [] + (h + nl + nl + b + trail + z) == h + nl + nl + b + trail + z;
    } else {
      assert [] + (lead + (g + nl + nl + a + trail)) == lead + (g + nl + nl + a + trail);
      CancelLeft(lead, g + nl + nl + a + trail, h + nl + nl + b + trail + z);
      assert [] + (g + nl + nl + a + trail) == g + nl + nl + a + trail;
    }
    Assoc(g + nl + nl, a, trail);
    Assoc(h + nl + nl, b, trail);
    Assoc(h + nl + nl, b + trail, z);
    SameBodyStart(y, g, h, nl, a + trail, b + trail + z);
  }

  /** What two bodies of one part have to do with each other when the segments are shifted. */
  lemma ShiftedBodies(mime: Mime, seg: Bytes, nl: Bytes, raw: Bytes, y: Bytes, z: Bytes)
    requires Newline(nl) && IsupOf(mime, seg, nl).Some? && OneLine(y)
    requires y + AttachSegment(mime, seg, nl, raw) == seg + z
    ensures var trail := Frame(seg, nl).trail; raw + trail == IsupOf(mime, seg, nl).value.body + trail + z
  {
    hide Relength, Clean;
    var e := IsupOf(mime, seg, nl).value;
    var f := Frame(seg, nl);
    PartSplit(mime, seg, nl);
    SetSipBodyIs(e.headers, e.nl, raw);
    RelengthClean(e, |raw|);
    SameTail(y, z, f.lead, Relength(e.headers, e.nl, |raw|), e.headers, e.nl, raw, e.body, f.trail, nl);
  }

  lemma BodyNotShorter(mime: Mime, seg: Bytes, nl: Bytes, raw: Bytes)
    requires Newline(nl) && IsupOf(mime, seg, nl).Some?
    requires Shifted(AttachSegment(mime, seg, nl, raw), seg)
    ensures |IsupOf(mime, seg, nl).value.body| <= |raw|
  {
    hide AttachSegment, IsupOf;
    var y, z :| OneLine(y) && OneLine(z) && y + AttachSegment(mime, seg, nl, raw) == seg + z;
    ShiftedBodies(mime, seg, nl, raw, y, z);
    var e := IsupOf(mime, seg, nl).value;
    var trail := Frame(seg, nl).trail;
    assert |raw + trail| == |raw| + |trail| && |e.body + trail + z| == |e.body| + |trail| + |z|;
  }

  lemma OwnBodyNoLonger(mime: Mime, seg: Bytes, nl: Bytes)
    requires Newline(nl)
    ensures var raw := if IsupOf(mime, seg, nl).Some? then IsupOf(mime, seg, nl).value.body else [];
            NoLonger(AttachSegment(mime, seg, nl, raw), seg)
  {
    hide IsupOf;
    var e := IsupOf(mime, seg, nl);
    var raw := if e.Some? then e.value.body else [];
    forall z | OneLine(z) && AttachSegment(mime, seg, nl, raw) == seg + z ensures z == [] {
      if e.Some? {
        var r := AttachSegment(mime, seg, nl, raw);
        assert [] + r == r && OneLine([]);
        ShiftedBodies(mime, seg, nl, raw, [], z);
      }
    }
  }

  // ---------------------------------------------------------------- a lifted part without its newline

  lemma EndsSo(x: Bytes, nl: Bytes)
    ensures HasSuffix(x + nl, nl)
  {
  }

  lemma FrameEnds(seg: Bytes, nl: Bytes)
    requires Newline(nl) && |seg| >= 2 * |nl|
    ensures HasSuffix(seg, nl) <==> Frame(seg, nl).trail == nl
  {
    var lead := if HasPrefix(seg, nl) then nl else [];
    var rest := seg[|lead|..];
    assert |rest| >= |nl| && rest[|rest| - |nl|..] == seg[|seg| - |nl|..];
  }

  /** Whatever takes the place of its part, a segment keeps its last newline. */
  lemma WithPartEnds(seg: Bytes, nl: Bytes, part: Bytes)
    requires Newline(nl) && |seg| >= 2 * |nl| && HasSuffix(seg, nl)
    ensures HasSuffix(WithPart(seg, nl, part), nl)
  {
    FrameEnds(seg, nl);
    EndsSo(Frame(seg, nl).lead + part, nl);
  }

  /** What is left of the part ends in the newline, and so does what is made of that. */
  lemma LostEnds(mime: Mime, seg: Bytes, nl: Bytes, raw: Bytes)
    requires Newline(nl) && Lifts(mime, seg, nl) && !EndsInNewline(seg, nl)
    ensures HasSuffix(AttachSegment(mime, DetachSegment(mime, seg, nl), nl, raw), nl)
    ensures !HasSuffix(seg, nl) && |seg| >= |nl|
  {
    hide SetSipBody, SplitSip, WithPart, Safe, Frame;
    var s := DetachSegment(mime, seg, nl);
    LostLeaves(mime, seg, nl);
    if IsupOf(mime, s, nl).Some? {
      var g := IsupOf(mime, s, nl).value;
      WithPartEnds(s, nl, SetSipBody(g.headers, g.nl, raw));
    }
  }

  lemma LostLeaves(mime: Mime, seg: Bytes, nl: Bytes)
    requires Newline(nl) && Lifts(mime, seg, nl) && !EndsInNewline(seg, nl)
    ensures var s := DetachSegment(mime, seg, nl); HasSuffix(s, nl) && |s| >= 2 * |nl|
    ensures !HasSuffix(seg, nl) && |seg| >= |nl|
  {
    hide SetSipBody, SplitSip, Safe, Relength, Frame, HasSuffix;
    var f := Frame(seg, nl);
    var e := IsupOf(mime, seg, nl).value;
    PartSplit(mime, seg, nl);
    SetSipBodyIs(e.headers, e.nl, []);
    UnsplitLength(f, e);
    FrameEnds(seg, nl);
    NoTrail(seg, nl);
    HeadersEnd(f.lead, Relength(e.headers, nl, 0), nl);
  }

  lemma UnsplitLength(f: Framed, e: Entity)
    requires f.part == Unsplit(e)
    ensures |Unframe(f)| >= 2 * |e.nl|
  {
  }

  lemma NoTrail(seg: Bytes, nl: Bytes)
    ensures Frame(seg, nl).trail == nl || Frame(seg, nl).trail == []
  {
  }

  lemma HeadersEnd(lead: Bytes, h: Bytes, nl: Bytes)
    ensures var s := lead + Unsplit(Entity(h, nl, [])) + []; HasSuffix(s, nl) && |s| >= 2 * |nl|
  {
    var s := lead + Unsplit(Entity(h, nl, [])) + [];
    assert s == lead + h + nl + nl;
    EndsSo(lead + h + nl, nl);
  }

  lemma LostDiffers(mime: Mime, seg: Bytes, nl: Bytes, raw: Bytes)
    requires Newline(nl) && Lifts(mime, seg, nl) && !EndsInNewline(seg, nl)
    ensures !Shifted(AttachSegment(mime, DetachSegment(mime, seg, nl), nl, raw), seg)
  {
    hide AttachSegment, DetachSegment;
    LostEnds(mime, seg, nl, raw);
    var r := AttachSegment(mime, DetachSegment(mime, seg, nl), nl, raw);
    forall y, z | OneLine(y) && OneLine(z)
      ensures y + r != seg + z
    {
      if y + r == seg + z { EndsAlike(y, r, seg, z, nl); }
    }
  }

  lemma EndsAlike(y: Bytes, r: Bytes, s: Bytes, z: Bytes, nl: Bytes)
    requires Newline(nl) && OneLine(z) && y + r == s + z && HasSuffix(r, nl) && |s| >= |nl|
    ensures HasSuffix(s, nl)
  {
    var t := y + r;
    SuffixEnds(r, nl);
    if z != [] { LastOctet(y, r, s, z); }
    assert s + [] == s;
    assert t[|t| - |nl|..] == r[|r| - |nl|..];
  }

  // ---------------------------------------------------------------- all segments

  lemma {:induction false} AttachAt(mime: Mime, segs: seq<Bytes>, nl: Bytes, bodies: seq<Bytes>, k: nat)
    returns (raw: Bytes)
    requires k < |segs|
    ensures AttachSegments(mime, segs, nl, bodies)[k] == AttachSegment(mime, segs[k], nl, raw)
  {
    hide AttachSegment, IsupOf;
    raw := if bodies == [] then [] else bodies[0];
    if k == 0 {
    } else {
      var later := if IsupOf(mime, segs[0], nl).None? || bodies == [] then bodies else bodies[1..];
      raw := AttachAt(mime, segs[1..], nl, later, k - 1);
    }
  }

  lemma {:induction false} DetachAt(mime: Mime, segs: seq<Bytes>, nl: Bytes, k: nat)
    requires k < |segs|
    ensures DetachSegments(mime, segs, nl)[k] == DetachSegment(mime, segs[k], nl)
  {
    hide DetachSegment;
    if k == 0 {
    } else {
      DetachAt(mime, segs[1..], nl, k - 1);
    }
  }

  ghost predicate AllShifted(rs: seq<Bytes>, ss: seq<Bytes>) {
    |rs| == |ss| && forall k :: 0 <= k < |ss| ==> Shifted(rs[k], ss[k])
  }

  ghost predicate NotShorterThan(raws: seq<Bytes>, bodies: seq<Bytes>) {
    |raws| == |bodies| && forall j :: 0 <= j < |bodies| ==> |bodies[j]| <= |raws[j]|
  }

  lemma AllShiftedTail(r: Bytes, rs: seq<Bytes>, ss: seq<Bytes>)
    requires ss != [] && AllShifted([r] + rs, ss)
    ensures Shifted(r, ss[0]) && AllShifted(rs, ss[1..])
  {
    hide Shifted;
    var all := [r] + rs;
    assert Shifted(all[0], ss[0]);
    forall k | 0 <= k < |rs| ensures Shifted(rs[k], ss[1..][k]) {
      assert Shifted(all[k + 1], ss[k + 1]);
    }
  }

  /** No ISUP part gets a body shorter than its own. */
  lemma {:induction false} BodiesNotShorter(mime: Mime, segs: seq<Bytes>, nl: Bytes, raws: seq<Bytes>)
    requires Newline(nl) && |raws| == IsupCount(mime, segs, nl)
    requires AllShifted(AttachSegments(mime, segs, nl, raws), segs)
    ensures NotShorterThan(raws, IsupBodies(mime, segs, nl))
  {
    if segs == [] {
    } else {
      hide AttachSegment, IsupOf, Shifted;
      var e := IsupOf(mime, segs[0], nl);
      var raw := if raws == [] then [] else raws[0];
      var later := if e.None? || raws == [] then raws else raws[1..];
      var rest := IsupBodies(mime, segs[1..], nl);
      AllShiftedTail(AttachSegment(mime, segs[0], nl, raw), AttachSegments(mime, segs[1..], nl, later), segs);
      BodiesNotShorter(mime, segs[1..], nl, later);
      if e.Some? {
        BodyNotShorter(mime, segs[0], nl, raw);
        NotShorterCons(raws, e.value.body, rest);
      } else {
        assert [] + rest == rest;
      }
    }
  }

  lemma NotShorterCons(raws: seq<Bytes>, body: Bytes, rest: seq<Bytes>)
    requires raws != [] && |body| <= |raws[0]| && NotShorterThan(raws[1..], rest)
    ensures NotShorterThan(raws, [body] + rest)
  {
    var all := [body] + rest;
    forall j | 0 <= j < |all| ensures |all[j]| <= |raws[j]| {
      if j > 0 { assert all[j] == rest[j - 1] && raws[j] == raws[1..][j - 1]; }
    }
  }

  lemma AllNoLongerCons(r: Bytes, rs: seq<Bytes>, ss: seq<Bytes>)
    requires ss != [] && NoLonger(r, ss[0]) && AllNoLonger(rs, ss[1..])
    ensures AllNoLonger([r] + rs, ss)
  {
    hide NoLonger;
    var all := [r] + rs;
    forall k | 0 <= k < |ss| ensures NoLonger(all[k], ss[k]) {
      if k > 0 { assert all[k] == rs[k - 1] && ss[k] == ss[1..][k - 1]; }
    }
  }

  /** With its own body no part runs on into its delimiter. */
  lemma {:induction false} OwnBodiesNoLonger(mime: Mime, segs: seq<Bytes>, nl: Bytes)
    requires Newline(nl)
    ensures AllNoLonger(AttachSegments(mime, segs, nl, IsupBodies(mime, segs, nl)), segs)
  {
    if segs == [] {
    } else {
      hide AttachSegment, IsupOf, NoLonger;
      var e := IsupOf(mime, segs[0], nl);
      var rest := IsupBodies(mime, segs[1..], nl);
      var bodies := IsupBodies(mime, segs, nl);
      OwnBodyNoLonger(mime, segs[0], nl);
      OwnBodiesNoLonger(mime, segs[1..], nl);
      if e.Some? {
        assert bodies == [e.value.body] + rest && bodies[1..] == rest;
        AllNoLongerCons(AttachSegment(mime, segs[0], nl, e.value.body), AttachSegments(mime, segs[1..], nl, rest),
                segs);
      } else {
        var raw := if bodies == [] then [] else bodies[0];
        assert bodies == rest;
        NotIsup(mime, segs[0], nl, raw);
        AllNoLongerCons(AttachSegment(mime, segs[0], nl, raw), AttachSegments(mime, segs[1..], nl, rest), segs);
      }
    }
  }

  lemma NotIsup(mime: Mime, seg: Bytes, nl: Bytes, raw: Bytes)
    requires IsupOf(mime, seg, nl).None?
    ensures NoLonger(AttachSegment(mime, seg, nl, raw), seg)
  {
  }

  // ---------------------------------------------------------------- messages

  lemma RestoredAt(mime: Mime, m: Bytes, k: nat) returns (raw: Bytes)
    requires MultipartPayload(mime, m) && k < |SegmentsOf(mime, m)|
    ensures var nl := SplitSip(m).value.nl;
            RestoredSegments(mime, m)[k] ==
            AttachSegment(mime, DetachSegment(mime, SegmentsOf(mime, m)[k], nl), nl, raw)
  {
    hide Detach, Unpack, AttachSegment, DetachSegment, AttachSegments, DetachSegments;
    var nl := SplitSip(m).value.nl;
    var ds := DetachSegments(mime, SegmentsOf(mime, m), nl);
    raw := AttachAt(mime, ds, nl, Unpack(Detach(mime, m).1, IsupCount(mime, ds, nl)), k);
    DetachAt(mime, SegmentsOf(mime, m), nl, k);
  }

  /** The two texts, walked over segment by segment. */
  lemma SameText(mime: Mime, m: Bytes)
    requires MultipartPayload(mime, m) && RestoredBody(mime, m) == SplitSip(m).value.body
    ensures AllShifted(RestoredSegments(mime, m), SegmentsOf(mime, m))
  {
    hide RestoredSegments, Shifted, Split;
    var marker := MarkerOf(mime, m);
    var ss := Split(SplitSip(m).value.body, marker);
    var rs := [ss[0]] + RestoredSegments(mime, m);
    JoinSplit(SplitSip(m).value.body, marker);
    assert [] + Join(rs, marker) == Join(rs, marker);
    Walk([], rs, ss, marker);
    assert ss == [ss[0]] + ss[1..];
    AllShiftedTail(ss[0], RestoredSegments(mime, m), ss);
  }

  lemma NoneLost(mime: Mime, m: Bytes)
    requires MultipartPayload(mime, m) && RestoredBody(mime, m) == SplitSip(m).value.body
    ensures LiftedEnd(mime, SegmentsOf(mime, m), SplitSip(m).value.nl)
  {
    hide RestoredSegments, RestoredBody, Shifted, SegmentsOf, SplitSip, Frame, AttachSegment, DetachSegment;
    var segs := SegmentsOf(mime, m);
    var nl := SplitSip(m).value.nl;
    SameText(mime, m);
    forall k | 0 <= k < |segs| && Lifts(mime, segs[k], nl) ensures EndsInNewline(segs[k], nl) {
      if !EndsInNewline(segs[k], nl) {
        var raw := RestoredAt(mime, m, k);
        assert Shifted(RestoredSegments(mime, m)[k], segs[k]);
        LostDiffers(mime, segs[k], nl, raw);
      }
    }
  }

  /** Every ISUP part has its own body back. */
  lemma BodiesAreBack(mime: Mime, m: Bytes)
    requires MultipartPayload(mime, m) && CarriesBinary(mime, m)
    requires RestoredBody(mime, m) == SplitSip(m).value.body
    ensures var nl := SplitSip(m).value.nl;
            var bodies := IsupBodies(mime, SegmentsOf(mime, m), nl);
            && Unpack(Pack(UnsafeOnly(bodies)), |bodies|) == bodies
            && RestoredSegments(mime, m) == AttachSegments(mime, SegmentsOf(mime, m), nl, bodies)
  {
    hide RestoredSegments, RestoredBody, SegmentsOf, CarriesBinary, AttachSegments, Pack, Unpack, LiftedEnd, Shifted;
    var segs := SegmentsOf(mime, m);
    var nl := SplitSip(m).value.nl;
    var bodies := IsupBodies(mime, segs, nl);
    SameText(mime, m);
    NoneLost(mime, m);
    RestoredSegmentsAre(mime, m);
    BodiesUnpacked(mime, m);
    BodiesNotShorter(mime, segs, nl, Unpack(Pack(UnsafeOnly(bodies)), |bodies|));
    NoneShorter(bodies);
  }

  /** The restored segments are the old ones. */
  lemma SegmentsAreBack(mime: Mime, m: Bytes)
    requires MultipartPayload(mime, m) && CarriesBinary(mime, m)
    requires RestoredBody(mime, m) == SplitSip(m).value.body
    ensures RestoredSegments(mime, m) == SegmentsOf(mime, m)
  {
    hide RestoredSegments, CarriesBinary, AttachSegments, Pack, Unpack, NoLonger, Split, IsupBodies;
    var marker := MarkerOf(mime, m);
    var nl := SplitSip(m).value.nl;
    var ss := Split(SplitSip(m).value.body, marker);
    var rs := [ss[0]] + RestoredSegments(mime, m);
    JoinSplit(SplitSip(m).value.body, marker);
    BodiesAreBack(mime, m);
    OwnBodiesNoLonger(mime, ss[1..], nl);
    ItselfNoLonger(ss[0]);
    AllNoLongerCons(ss[0], RestoredSegments(mime, m), ss);
    WalkSame(rs, ss, marker);
    assert rs[1..] == RestoredSegments(mime, m);
  }

  lemma ItselfNoLonger(s: Bytes)
    ensures NoLonger(s, s)
  {
  }

  /** Parts that are not lifted end in their newline too, when all bodies can be told apart. */
  lemma RecoverableEnds(mime: Mime, segs: seq<Bytes>, nl: Bytes)
    requires Newline(nl) && LiftedEnd(mime, segs, nl) && Recoverable(IsupBodies(mime, segs, nl))
    ensures PartsEnd(mime, segs, nl)
  {
    hide SplitSip, Frame, Safe;
    forall k | 0 <= k < |segs| && IsupOf(mime, segs[k], nl).Some? ensures EndsInNewline(segs[k], nl) {
      if !Lifts(mime, segs[k], nl) {
        var j := BodyAt(mime, segs, nl, k);
        EmptyEnds(mime, segs[k], nl);
      }
    }
  }

  lemma {:induction false} BodyAt(mime: Mime, segs: seq<Bytes>, nl: Bytes, k: nat) returns (j: nat)
    requires k < |segs| && IsupOf(mime, segs[k], nl).Some?
    ensures j < |IsupBodies(mime, segs, nl)| &&
            IsupBodies(mime, segs, nl)[j] == IsupOf(mime, segs[k], nl).value.body
  {
    hide IsupOf;
    if k == 0 {
      j := 0;
    } else {
      var i := BodyAt(mime, segs[1..], nl, k - 1);
      j := i + if IsupOf(mime, segs[0], nl).Some? then 1 else 0;
    }
  }

  lemma TrailTaken(seg: Bytes, nl: Bytes)
    ensures nl != [] && HasSuffix(Frame(seg, nl).part, nl) ==> Frame(seg, nl).trail == nl
  {
    var f := Frame(seg, nl);
    if f.trail == [] { assert seg[|f.lead|..] == f.part; }
  }

  lemma EmptyEnds(mime: Mime, seg: Bytes, nl: Bytes)
    requires Newline(nl) && IsupOf(mime, seg, nl).Some? && IsupOf(mime, seg, nl).value.body == []
    ensures EndsInNewline(seg, nl)
  {
    var e := IsupOf(mime, seg, nl).value;
    var f := Frame(seg, nl);
    PartSplit(mime, seg, nl);
    if e.nl == nl {
      assert f.part == e.headers + nl + nl;
      EndsSo(e.headers + nl, nl);
      TrailTaken(seg, nl);
    }
  }

  /** Whatever comes back byte for byte was restorable. */
  lemma OnlyRestorable(mime: Mime, m: Bytes)
    requires MultipartPayload(mime, m) && CarriesBinary(mime, m)
    requires Attach(mime, Detach(mime, m).0, Detach(mime, m).1) == m
    ensures RestoredBody(mime, m) == SplitSip(m).value.body
    ensures Restorable(mime, m)
  {
    hide RestoredSegments, RestoredBody, Detach, Attach, AttachSegments, Pack, Unpack, Split, Recoverable, Canonical,
      PartsCanonical, PartsEnd, LiftedEnd;
    var e := SplitSip(m).value;
    var segs := SegmentsOf(mime, m);
    var bodies := IsupBodies(mime, segs, e.nl);
    SplitSipGives(m);
    RestoredIs(mime, m);
    SameMessage(e, RestoredBody(mime, m));
    NoneLost(mime, m);
    BodiesAreBack(mime, m);
    SegmentsAreBack(mime, m);
    BodiesUnpacked(mime, m);
    BodiesComeBack(bodies);
    AttachedSegments(mime, segs, e.nl, bodies);
    RecoverableEnds(mime, segs, e.nl);
  }

  lemma SameMessage(e: Entity, back: Bytes)
    requires CutAtBlank(e) && Unsplit(Entity(Relength(e.headers, e.nl, |back|), e.nl, back)) == Unsplit(e)
    ensures back == e.body && Canonical(e)
  {
    hide Relength, Canonical;
    var h := Relength(e.headers, e.nl, |back|);
    RelengthClean(e, |back|);
    Assoc(e.headers, e.nl, e.nl);
    Assoc(h, e.nl, e.nl);
    CleanUnique(h, e.headers, Blank(e.nl), back, e.body);
    CanonicalIff(e);
  }

  /**
    Exactly the restorable multipart payloads come back: every ISUP part ends before a newline, its
    length lines and those of the message are canonical, and the bodies can be told apart.
    */
  lemma MultipartRoundTripIff(mime: Mime, m: Bytes)
    requires MultipartPayload(mime, m) && CarriesBinary(mime, m)
    ensures var (stored, body) := Detach(mime, m);
            Attach(mime, stored, body) == m <==> Restorable(mime, m)
  {
    hide *;
    if Restorable(mime, m) {
      MultipartRoundTrip(mime, m);
    }
    if Attach(mime, Detach(mime, m).0, Detach(mime, m).1) == m {
      OnlyRestorable(mime, m);
    }
  }

  /** A message with a lifted part that runs up to its delimiter without a newline never comes back. */
  lemma UnclosedPartIsLost(mime: Mime, m: Bytes, k: nat)
    requires MultipartPayload(mime, m) && CarriesBinary(mime, m) && k < |SegmentsOf(mime, m)|
    requires var seg, nl := SegmentsOf(mime, m)[k], SplitSip(m).value.nl;
             Lifts(mime, seg, nl) && !EndsInNewline(seg, nl)
    ensures var (stored, body) := Detach(mime, m); Attach(mime, stored, body) != m
  {
    hide Detach, Attach, RestoredBody, SplitSip, Frame, SegmentsOf;
    if Attach(mime, Detach(mime, m).0, Detach(mime, m).1) == m {
      OnlyRestorable(mime, m);
      NoneLost(mime, m);
    }
  }
}
