/**
  The deduplication window of the decoder (normPayload, src/decoder/decoder.go): a cache from the hash
  of a payload to the time stamp of the last packet let through. The cache may forget entries.
  */
module Dedup {
  import opened Octets

  /** 500 ms in nanoseconds. */
  const WINDOW: nat := 500_000_000

  type Stamp = n: int | 0 <= n < 0x1_0000_0000_0000_0000

  /** One packet that came by: the hash of its payload, its time, and whether it was let through. */
  datatype Seen = Seen(hash: nat, ts: Stamp, accepted: bool)

  function Distance(a: Stamp, b: Stamp): (d: nat)
    ensures a + d == b || b + d == a
  {
    if a > b then a - b else b - a
  }

  /** The time of the last packet of a hash that was let through. */
  function LastAccepted(log: seq<Seen>, hash: nat): Option<Stamp> {
    if log == [] then None
    else
      var p := log[|log| - 1];
      if p.accepted && p.hash == hash then Some(p.ts) else LastAccepted(log[..|log| - 1], hash)
  }

  lemma LastAcceptedMore(log: seq<Seen>, p: Seen, hash: nat)
    ensures LastAccepted(log + [p], hash) ==
            if p.accepted && p.hash == hash then Some(p.ts) else LastAccepted(log, hash)
  {
    assert (log + [p])[..|log|] == log;
  }

  /** Packet `j` was dropped only because the last one let through was less than 500 ms away. */
  ghost predicate Justified(log: seq<Seen>) {
    forall j :: 0 <= j < |log| && !log[j].accepted ==>
      match LastAccepted(log[..j], log[j].hash)
      case None => false
      case Some(t) => Distance(log[j].ts, t) < WINDOW
  }

  /** Packet `j` was let through only because the last one was at least 500 ms away. */
  ghost predicate Spaced(log: seq<Seen>) {
    forall j :: 0 <= j < |log| && log[j].accepted ==>
      match LastAccepted(log[..j], log[j].hash)
      case None => true
      case Some(t) => Distance(log[j].ts, t) >= WINDOW
  }

  lemma JustifiedMore(log: seq<Seen>, p: Seen)
    requires Justified(log)
    requires !p.accepted ==> LastAccepted(log, p.hash).Some? && Distance(p.ts, LastAccepted(log, p.hash).value) < WINDOW
    ensures Justified(log + [p])
  {
    forall j | 0 <= j < |log + [p]| && !(log + [p])[j].accepted
      ensures var last := LastAccepted((log + [p])[..j], (log + [p])[j].hash);
              last.Some? && Distance((log + [p])[j].ts, last.value) < WINDOW
    {
      assert (log + [p])[..j] == log[..j];
      if j == |log| { assert log[..j] == log; }
    }
  }

  lemma SpacedMore(log: seq<Seen>, p: Seen)
    requires Spaced(log)
    requires p.accepted && LastAccepted(log, p.hash).Some? ==> Distance(p.ts, LastAccepted(log, p.hash).value) >= WINDOW
    ensures Spaced(log + [p])
  {
    forall j | 0 <= j < |log + [p]| && (log + [p])[j].accepted
      ensures var last := LastAccepted((log + [p])[..j], (log + [p])[j].hash);
              last.Some? ==> Distance((log + [p])[j].ts, last.value) >= WINDOW
    {
      assert (log + [p])[..j] == log[..j];
      if j == |log| { assert log[..j] == log; }
    }
  }

  /** The cache with everything that has passed it. */
  class Window {
    var cache: map<nat, Stamp>
    ghost var log: seq<Seen>
    ghost var lossless: bool

    constructor ()
      ensures Valid() && log == [] && lossless
    {
      cache, log, lossless := map[], [], true;
    }

    /**
      Entries are the times of the last packets let through; while nothing has been forgotten, none
      is missing. Over the whole run every drop was justified, and without loss the packets of one
      hash that were let through keep their distance.
      */
    ghost predicate Valid()
      reads this
    {
      && (forall h :: h in cache ==> LastAccepted(log, h) == Some(cache[h]))
      && (lossless ==> forall h :: LastAccepted(log, h).Some? ==> h in cache)
      && Justified(log) && (lossless ==> Spaced(log))
    }

    /** The deduplicating part of normPayload: whether the packet goes on. */
    method Offer(hash: nat, ts: Stamp) returns (accepted: bool)
      requires Valid()
      modifies this
      ensures Valid() && log == old(log) + [Seen(hash, ts, accepted)] && lossless == old(lossless)
    {
      accepted := true;
      if hash in cache {
        var i := cache[hash];
        var d := ts - i;
        if i > ts { d := i - ts; }
        if d < WINDOW { accepted := false; }
      }
      ghost var p := Seen(hash, ts, accepted);
      JustifiedMore(log, p);
      if lossless { SpacedMore(log, p); }
      forall h
        ensures LastAccepted(log + [p], h) == if accepted && hash == h then Some(ts) else LastAccepted(log, h)
      {
        LastAcceptedMore(log, p, h);
      }
      if accepted { cache := cache[hash := ts]; }
      log := log + [p];
    }

    /** The cache is bounded and may drop any entries. */
    method Forget(hashes: set<nat>)
      requires Valid()
      modifies this
      ensures Valid() && log == old(log) && cache == old(cache) - hashes
    {
      cache := cache - hashes;
      lossless := false;
    }
  }

  lemma {:induction false} LastAcceptedIs(log: seq<Seen>, hash: nat)
    ensures match LastAccepted(log, hash)
            case None => forall i :: 0 <= i < |log| ==> !(log[i].accepted && log[i].hash == hash)
            case Some(t) => exists i :: 0 <= i < |log| && log[i] == Seen(hash, t, true) &&
                              forall k :: i < k < |log| ==> !(log[k].accepted && log[k].hash == hash)
  {
    if log == [] {
    } else {
      var n := |log| - 1;
      if log[n].accepted && log[n].hash == hash {
        assert log[n] == Seen(hash, log[n].ts, true);
      } else {
        LastAcceptedIs(log[..n], hash);
        if LastAccepted(log, hash).Some? {
          var t := LastAccepted(log, hash).value;
          var i :| 0 <= i < n && log[..n][i] == Seen(hash, t, true) &&
                   forall k :: i < k < n ==> !(log[..n][k].accepted && log[..n][k].hash == hash);
          assert log[i] == Seen(hash, t, true);
          forall k | i < k < |log|
            ensures !(log[k].accepted && log[k].hash == hash)
          {
            if k < n { assert log[..n][k] == log[k]; }
          }
        } else {
          forall k | 0 <= k < |log|
            ensures !(log[k].accepted && log[k].hash == hash)
          {
            if k < n { assert log[..n][k] == log[k]; }
          }
        }
      }
    }
  }

  /** Every packet that was dropped has an earlier one of its hash, let through less than 500 ms away. */
  lemma DroppedHasWitness(log: seq<Seen>, j: nat)
    requires Justified(log) && j < |log| && !log[j].accepted
    ensures exists i :: 0 <= i < j && log[i].accepted && log[i].hash == log[j].hash &&
                        Distance(log[j].ts, log[i].ts) < WINDOW
  {
    var hash := log[j].hash;
    LastAcceptedIs(log[..j], hash);
    var t := LastAccepted(log[..j], hash).value;
    var i :| 0 <= i < j && log[..j][i] == Seen(hash, t, true);
    assert log[i] == Seen(hash, t, true);
  }

  /** Two consecutive packets of one hash that were let through are at least 500 ms apart. */
  lemma ConsecutiveAreSpaced(log: seq<Seen>, i: nat, j: nat)
    requires Spaced(log) && i < j < |log|
    requires log[i].accepted && log[j].accepted && log[i].hash == log[j].hash
    requires forall k :: i < k < j ==> !(log[k].accepted && log[k].hash == log[j].hash)
    ensures Distance(log[j].ts, log[i].ts) >= WINDOW
  {
    LastBefore(log[..j], i, log[j].hash);
  }

  lemma {:induction false} LastBefore(log: seq<Seen>, i: nat, hash: nat)
    requires i < |log| && log[i].accepted && log[i].hash == hash
    requires forall k :: i < k < |log| ==> !(log[k].accepted && log[k].hash == hash)
    ensures LastAccepted(log, hash) == Some(log[i].ts)
  {
    var n := |log| - 1;
    if i >= n {
    } else {
      LastBefore(log[..n], i, hash);
    }
  }
}
