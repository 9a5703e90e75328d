/**
  The `ISI1` envelope that stores several ISUP bodies in one column, and exactly when the bodies
  come back (src/isup/preserve.go, packISUPBodies and unpackISUPBodies).
  */
module Envelope {
  import opened Octets
  import opened Text
  import opened Utf8
  import opened IsupPreserve

  /** Record lengths fit their 32 bits. */
  ghost predicate Short(parts: seq<Bytes>) {
    forall i :: 0 <= i < |parts| ==> |parts[i]| < 0x1_0000_0000
  }

  /** One record, read from the front of a text. */
  lemma ReadRecord(part: Bytes, rest: Bytes, n: nat)
    requires |part| < 0x1_0000_0000 && n >= 1
    ensures ReadRecords(Be32(|part|) + part + rest, n) ==
            match ReadRecords(rest, n - 1) { case None => None case Some(ps) => Some([part] + ps) }
  {
    var l := |part|;
    var s := Be32(l) + part + rest;
    Be32Inverse(l);
    assert s[..4] == Be32(l);
    assert s[4..4 + l] == part;
    assert s[4 + l..] == rest;
  }

  lemma RecordsHead(parts: seq<Bytes>)
    requires parts != [] && |parts[0]| < 0x1_0000_0000
    ensures Records(parts) == Be32(|parts[0]|) + parts[0] + Records(parts[1..])
  {
    assert |parts[0]| % 0x1_0000_0000 == |parts[0]|;
  }

  lemma {:induction false} ReadBack(parts: seq<Bytes>, t: nat)
    requires Short(parts) && t <= |parts|
    ensures ReadRecords(Records(parts), t) == if t == |parts| then Some(parts) else None
  {
    if t == 0 {
    } else {
      RecordsHead(parts);
      ReadRecord(parts[0], Records(parts[1..]), t);
      ReadBack(parts[1..], t - 1);
      assert [parts[0]] + parts[1..] == parts;
    }
  }

  lemma RecordCut(s: Bytes)
    requires |s| >= 4 && FromBe32(s[..4]) <= |s| - 4
    ensures var l := FromBe32(s[..4]); s == Be32(l) + s[4..4 + l] + s[4 + l..]
  {
    Be32Onto(s[..4]);
  }

  lemma {:induction false} ReadExactly(s: Bytes, n: nat)
    requires ReadRecords(s, n).Some?
    ensures var ps := ReadRecords(s, n).value;
            && |ps| == n && Records(ps) == s
            && forall i :: 0 <= i < n ==> |ps[i]| < |s| && |ps[i]| < 0x1_0000_0000
    decreases n
  {
    if n == 0 {
    } else {
      var l := FromBe32(s[..4]);
      var part := s[4..4 + l];
      var rest := s[4 + l..];
      ReadExactly(rest, n - 1);
      var qs := ReadRecords(rest, n - 1).value;
      var ps := [part] + qs;
      assert ReadRecords(s, n) == Some(ps);
      assert ps[0] == part && ps[1..] == qs;
      RecordCut(s);
      RecordsHead(ps);
      assert forall i :: 1 <= i < n ==> ps[i] == qs[i - 1];
    }
  }

  /** Packing and unpacking are mutually inverse on 2 to 65535 parts. */
  lemma EnvelopeInverse(parts: seq<Bytes>)
    requires 2 <= |parts| <= 65535 && Short(parts)
    ensures Unenvelope(Pack(parts)) == Some(parts)
  {
    var blob := Pack(parts);
    PackedHead(parts);
    assert |parts| % 0x1_0000 == |parts|;
    ReadBack(parts, |parts|);
    assert ReadRecords(blob[6..], FromBe16(blob[4..6])) == Some(parts);
  }

  lemma EnvelopeOnto(blob: Bytes)
    requires Unenvelope(blob).Some?
    ensures var ps := Unenvelope(blob).value; 2 <= |ps| <= 65535 && Short(ps) && Pack(ps) == blob
  {
    hide FromBe16, ReadRecords;
    var n := FromBe16(blob[4..6]);
    ReadExactly(blob[6..], n);
    EnvelopeCut(blob);
  }

  lemma EnvelopeCut(blob: Bytes)
    requires |blob| >= 6
    ensures var n := FromBe16(blob[4..6]); n % 0x1_0000 == n && blob == blob[..4] + Be16(n) + blob[6..]
  {
    Be16Onto(blob[4..6]);
    assert blob == blob[..4] + blob[4..6] + blob[6..];
  }

  lemma PackedHead(parts: seq<Bytes>)
    requires |parts| >= 2
    ensures var blob := Pack(parts);
            |blob| >= 6 && blob[..4] == MAGIC && FromBe16(blob[4..6]) == |parts| % 0x1_0000 &&
            blob[6..] == Records(parts)
  {
    var blob := Pack(parts);
    assert blob[..4] == MAGIC;
    assert blob[4..6] == Be16(|parts| % 0x1_0000);
    Be16Inverse(|parts| % 0x1_0000);
  }

  /** With more than 65535 parts the 16-bit count is wrong and the envelope cannot be read. */
  lemma TooManyParts(parts: seq<Bytes>)
    requires |parts| > 65535 && Short(parts)
    ensures Unenvelope(Pack(parts)).None?
  {
    PackedHead(parts);
    if |parts| % 0x1_0000 > 1 { ReadBack(parts, |parts| % 0x1_0000); }
  }

  // ---------------------------------------------------------------- which bodies come back

  /** The bodies a UTF-8 column cannot hold: the ones that are lifted. */
  function UnsafeOnly(bodies: seq<Bytes>): (r: seq<Bytes>)
    ensures |r| <= |bodies|
    ensures forall i :: 0 <= i < |r| ==> !Safe(r[i]) && r[i] in bodies
  {
    if bodies == [] then []
    else (if Safe(bodies[0]) then [] else [bodies[0]]) + UnsafeOnly(bodies[1..])
  }

  ghost predicate AllUnsafe(bodies: seq<Bytes>) {
    forall i :: 0 <= i < |bodies| ==> !Safe(bodies[i])
  }

  ghost predicate OnlyFirst(bodies: seq<Bytes>) {
    forall i :: 1 <= i < |bodies| ==> bodies[i] == []
  }

  /** Would unpackISUPBodies read `blob` as an envelope of `n` parts? */
  predicate ReadsAs(blob: Bytes, n: nat) {
    Unenvelope(blob).Some? && |Unenvelope(blob).value| == n
  }

  /**
    Either all ISUP bodies are binary and, when there are several, their number fits 16 bits and their
    lengths 32; or only the first is binary, the others are empty, and it is not itself an envelope
    of as many parts.
    */
  ghost predicate Recoverable(bodies: seq<Bytes>) {
    || (AllUnsafe(bodies) && (|bodies| == 1 || (|bodies| <= 65535 && Short(bodies))))
    || (|bodies| >= 2 && !Safe(bodies[0]) && OnlyFirst(bodies) && !ReadsAs(bodies[0], |bodies|))
  }

  lemma {:induction false} UnsafeOnlyAll(bodies: seq<Bytes>)
    ensures |UnsafeOnly(bodies)| == |bodies| <==> AllUnsafe(bodies)
    ensures AllUnsafe(bodies) ==> UnsafeOnly(bodies) == bodies
  {
    if bodies == [] {
    } else {
      UnsafeOnlyAll(bodies[1..]);
      assert AllUnsafe(bodies) <==> !Safe(bodies[0]) && AllUnsafe(bodies[1..]) by {
        assert forall i :: 0 <= i < |bodies[1..]| ==> bodies[1..][i] == bodies[i + 1];
        assert forall i :: 1 <= i < |bodies| ==> bodies[i] == bodies[1..][i - 1];
      }
      assert [bodies[0]] + bodies[1..] == bodies;
    }
  }

  lemma {:induction false} NoneUnsafe(bodies: seq<Bytes>)
    requires forall i :: 0 <= i < |bodies| ==> bodies[i] == []
    ensures UnsafeOnly(bodies) == []
  {
    if bodies == [] {
    } else {
      NoneUnsafe(bodies[1..]);
    }
  }

  lemma OnlyFirstUnsafe(bodies: seq<Bytes>)
    requires |bodies| >= 1 && OnlyFirst(bodies)
    ensures UnsafeOnly(bodies) == if Safe(bodies[0]) then [] else [bodies[0]]
  {
    NoneUnsafe(bodies[1..]);
  }

  /** What Unpack answers when the blob is no envelope of `n` parts. */
  lemma UnpackFallback(blob: Bytes, bodies: seq<Bytes>)
    requires |bodies| >= 2 && !ReadsAs(blob, |bodies|)
    ensures Unpack(blob, |bodies|) == bodies <==> bodies[0] == blob && OnlyFirst(bodies)
  {
    var u := Unpack(blob, |bodies|);
    assert u[0] == blob && forall i :: 1 <= i < |u| ==> u[i] == [];
    if bodies[0] == blob && OnlyFirst(bodies) {
      assert u == bodies;
    }
    if u == bodies {
      assert OnlyFirst(bodies);
    }
  }

  /**
    The ISUP bodies of a message are given back by the column exactly when they are recoverable:
    counting all ISUP parts but lifting only the binary ones loses the rest of the cases.
    */
  lemma BodiesComeBack(bodies: seq<Bytes>)
    requires UnsafeOnly(bodies) != []
    ensures Unpack(Pack(UnsafeOnly(bodies)), |bodies|) == bodies <==> Recoverable(bodies)
  {
    UnsafeOnlyAll(bodies);
    if AllUnsafe(bodies) {
      AllComeBack(bodies);
    } else {
      SomeComeBack(bodies);
    }
  }

  lemma AllComeBack(bodies: seq<Bytes>)
    requires bodies != [] && AllUnsafe(bodies)
    ensures Unpack(Pack(bodies), |bodies|) == bodies <==> Recoverable(bodies)
  {
    if |bodies| == 1 {
      assert bodies == [bodies[0]];
    } else {
      assert !OnlyFirst(bodies) by { assert bodies[1] != []; }
      if ReadsAs(Pack(bodies), |bodies|) {
        ReadsShort(Pack(bodies), bodies);
      } else {
        UnpackFallback(Pack(bodies), bodies);
      }
      if |bodies| <= 65535 && Short(bodies) { EnvelopeInverse(bodies); }
    }
  }

  /** What is read from an envelope is short, and shorter than the envelope. */
  lemma ReadsShort(blob: Bytes, bodies: seq<Bytes>)
    requires ReadsAs(blob, |bodies|)
    ensures var ps := Unenvelope(blob).value;
            && 2 <= |bodies| <= 65535 && Unpack(blob, |bodies|) == ps && (ps == bodies ==> Short(bodies))
            && forall j :: 0 <= j < |bodies| ==> |ps[j]| < |blob| && |ps[j]| < 0x1_0000_0000
  {
    hide FromBe16, ReadRecords;
    ReadExactly(blob[6..], FromBe16(blob[4..6]));
  }

  /** A blob of several parts never reads as an envelope of more parts than it packs. */
  lemma PackedCount(us: seq<Bytes>, n: nat)
    requires 2 <= |us| < n
    ensures !ReadsAs(Pack(us), n)
  {
    hide Pack, ReadRecords, FromBe16, Records;
    PackedHead(us);
    var blob := Pack(us);
    if Unenvelope(blob).Some? { ReadExactly(blob[6..], FromBe16(blob[4..6])); }
  }

  /** The records of an envelope are shorter than the envelope. */
  lemma NotItsOwnPart(blob: Bytes, bodies: seq<Bytes>)
    requires blob in bodies
    ensures Unenvelope(blob) != Some(bodies)
  {
    if Unenvelope(blob).Some? {
      ReadExactly(blob[6..], FromBe16(blob[4..6]));
      var ps := Unenvelope(blob).value;
      assert forall k :: 0 <= k < |ps| ==> ps[k] != blob;
    }
  }

  lemma SomeComeBack(bodies: seq<Bytes>)
    requires 1 <= |UnsafeOnly(bodies)| < |bodies| && !AllUnsafe(bodies)
    ensures Unpack(Pack(UnsafeOnly(bodies)), |bodies|) == bodies <==> Recoverable(bodies)
  {
    var us := UnsafeOnly(bodies);
    if OnlyFirst(bodies) { OnlyFirstUnsafe(bodies); }
    if |us| >= 2 {
      PackedCount(us, |bodies|);
      UnpackFallback(Pack(us), bodies);
    } else if ReadsAs(us[0], |bodies|) {
      NotItsOwnPart(us[0], bodies);
    } else {
      UnpackFallback(us[0], bodies);
    }
  }

  /** Bodies that come back no shorter than they were come back as they were. */
  lemma NoneShorter(bodies: seq<Bytes>)
    requires UnsafeOnly(bodies) != []
    requires var raws := Unpack(Pack(UnsafeOnly(bodies)), |bodies|);
             forall j :: 0 <= j < |bodies| ==> |bodies[j]| <= |raws[j]|
    ensures Unpack(Pack(UnsafeOnly(bodies)), |bodies|) == bodies
  {
    hide Pack, ReadRecords, Unenvelope;
    var us := UnsafeOnly(bodies);
    UnsafeOnlyAll(bodies);
    if |bodies| == 1 {
      assert us == bodies == [bodies[0]];
      PackOne(bodies[0]);
    } else if ReadsAs(Pack(us), |bodies|) {
      ReadsShort(Pack(us), bodies);
      NotShorter(bodies, us);
    } else {
      assert OnlyFirst(bodies);
      OnlyFirstUnsafe(bodies);
      PackOne(bodies[0]);
      UnpackFallback(Pack(us), bodies);
    }
  }

  lemma PackOne(body: Bytes)
    ensures Pack([body]) == body
  {
  }

  lemma NotShorter(bodies: seq<Bytes>, us: seq<Bytes>)
    requires us == UnsafeOnly(bodies) != [] && ReadsAs(Pack(us), |bodies|)
    requires forall j :: 0 <= j < |bodies| ==>
               |bodies[j]| <= |Unpack(Pack(us), |bodies|)[j]| < |Pack(us)| &&
               |Unpack(Pack(us), |bodies|)[j]| < 0x1_0000_0000
    requires 2 <= |bodies| <= 65535
    ensures Unpack(Pack(us), |bodies|) == bodies
  {
    hide Pack, ReadRecords, Unenvelope, Unpack;
    UnsafeOnlyAll(bodies);
    if |us| == |bodies| {
      EnvelopeInverse(bodies);
      AllComeBack(bodies);
    } else if |us| >= 2 {
      PackedCount(us, |bodies|);
    } else {
      assert us == [us[0]];
      PackOne(us[0]);
    }
  }
}
