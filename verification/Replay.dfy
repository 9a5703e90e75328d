/**
  Replaying stored rows with a checkpoint (src/cli/migrate_hep.go): batches of rows in the order of
  their ids, a sink that may fail, and one checkpoint per table. These are real runs, not dry ones.
  */
module Replay {
  import opened Octets

  type Name = Bytes

  /** A row of a source table and its packet; None when the row has no payload and is skipped. */
  datatype Row = Row(id: int, packet: Option<Bytes>)

  /** Ids are a primary key, and rows come in their order. */
  ghost predicate Ascending(rows: seq<Row>) {
    forall i, j :: 0 <= i < j < |rows| ==> rows[i].id < rows[j].id
  }

  /** The rows with a greater id. */
  function After(rows: seq<Row>, id: int): (rest: seq<Row>)
    ensures |rest| <= |rows| && rest == rows[|rows| - |rest|..]
  {
    if rows == [] || rows[0].id > id then rows else After(rows[1..], id)
  }

  /** selectHEPBatch: the next rows, as many as the batch may hold. */
  function Batch(rows: seq<Row>, after: int, limit: nat): seq<Row> {
    var rest := After(rows, after);
    if |rest| <= limit then rest else rest[..limit]
  }

  /** The rows that have a packet to send. */
  function Loaded(rows: seq<Row>): (ls: seq<Row>)
    ensures |ls| <= |rows|
  {
    if rows == [] then []
    else Loaded(rows[..|rows| - 1]) + (if rows[|rows| - 1].packet.Some? then [rows[|rows| - 1]] else [])
  }

  function LastId(rows: seq<Row>, before: int): int {
    if rows == [] then before else rows[|rows| - 1].id
  }

  lemma LoadedMore(rows: seq<Row>, r: Row)
    ensures r.packet.Some? ==> Loaded(rows + [r]) == Loaded(rows) + [r]
    ensures r.packet.None? ==> Loaded(rows + [r]) == Loaded(rows)
  {
    assert (rows + [r])[..|rows|] == rows;
  }

  lemma {:induction false} LoadedConcat(a: seq<Row>, b: seq<Row>)
    ensures Loaded(a + b) == Loaded(a) + Loaded(b)
  {
    if b == [] {
      assert a + b == a;
    } else {
      var n := |b| - 1;
      assert (a + b)[..|a + b| - 1] == a + b[..n];
      LoadedConcat(a, b[..n]);
    }
  }

  lemma {:induction false} LoadedHas(rows: seq<Row>, i: nat)
    requires i < |rows| && rows[i].packet.Some?
    ensures rows[i] in Loaded(rows)
  {
    var n := |rows| - 1;
    if i >= n {
    } else {
      LoadedHas(rows[..n], i);
      assert rows[..n][i] == rows[i];
    }
  }

  // ---------------------------------------------------------------- checkpoints

  lemma {:induction false} AfterIsAfter(rows: seq<Row>, id: int)
    requires Ascending(rows)
    ensures forall i :: 0 <= i < |rows| ==> (rows[i].id > id <==> i >= |rows| - |After(rows, id)|)
  {
    if rows == [] || rows[0].id > id {
    } else {
      AfterIsAfter(rows[1..], id);
      forall i | 0 <= i < |rows|
        ensures rows[i].id > id <==> i >= |rows| - |After(rows, id)|
      {
        if i > 0 { assert rows[i] == rows[1..][i - 1]; }
      }
    }
  }

  /** The cut between smaller and greater ids is unique. */
  lemma AfterIs(rows: seq<Row>, id: int, k: nat)
    requires Ascending(rows) && k <= |rows|
    requires k > 0 ==> rows[k - 1].id <= id
    requires k < |rows| ==> rows[k].id > id
    ensures After(rows, id) == rows[k..]
  {
    hide After;
    AfterIsAfter(rows, id);
  }

  /** Going on from the last row of a prefix means going on behind that prefix. */
  lemma Resume(rows: seq<Row>, id: int, k: nat)
    requires Ascending(rows) && k <= |After(rows, id)|
    ensures var rest := After(rows, id); After(rows, LastId(rest[..k], id)) == rest[k..]
  {
    hide After;
    var rest := After(rows, id);
    var n := |rows| - |rest|;
    if k > 0 {
      assert LastId(rest[..k], id) == rows[n + k - 1].id;
      AfterIs(rows, rows[n + k - 1].id, n + k);
      Dropped(rows, n, k);
    } else {
      assert rest[..0] == [] && rest[0..] == rest;
    }
  }

  lemma Dropped(rows: seq<Row>, n: nat, k: nat)
    requires n + k <= |rows|
    ensures rows[n..][k..] == rows[n + k..]
  {
  }

  // ---------------------------------------------------------------- what a clean run covers

  /** The rows up to the one with packet number `k`. */
  function UpTo(rows: seq<Row>, k: nat): (covered: seq<Row>)
    ensures |covered| <= |rows| && covered == rows[..|covered|]
  {
    if k == 0 || rows == [] then []
    else
      var rest := UpTo(rows[1..], if rows[0].packet.Some? then k - 1 else k);
      assert rows[..1 + |rest|] == [rows[0]] + rows[1..][..|rest|];
      [rows[0]] + rest
  }

  /** A limit of 0 is no limit. */
  function Covered(rows: seq<Row>, limit: nat): (covered: seq<Row>)
    ensures |covered| <= |rows| && covered == rows[..|covered|]
  {
    if limit == 0 then rows else UpTo(rows, limit)
  }

  /** Rows with fewer packets than asked for are all covered, and the search goes on behind them. */
  lemma {:induction false} UpToBeyond(a: seq<Row>, b: seq<Row>, k: nat)
    requires |Loaded(a)| < k
    ensures UpTo(a + b, k) == a + UpTo(b, k - |Loaded(a)|)
  {
    if a == [] {
      assert a + b == b;
    } else {
      var more := if a[0].packet.Some? then k - 1 else k;
      assert a == [a[0]] + a[1..];
      LoadedConcat([a[0]], a[1..]);
      assert Loaded([a[0]]) == if a[0].packet.Some? then [a[0]] else [];
      assert (a + b)[1..] == a[1..] + b;
      UpToBeyond(a[1..], b, more);
    }
  }

  /** The row that brings the last packet ends the covered part. */
  lemma UpToExactly(a: seq<Row>, r: Row, b: seq<Row>)
    requires r.packet.Some?
    ensures UpTo(a + [r] + b, |Loaded(a)| + 1) == a + [r]
  {
    UpToBeyond(a, [r] + b, |Loaded(a)| + 1);
    Assoc(a, [r], b);
    assert ([r] + b)[1..] == b && UpTo(b, 0) == [];
    assert UpTo([r] + b, 1) == [r] + [];
  }

  // ---------------------------------------------------------------- chained runs

  /** A clean run from a checkpoint: the rows sent and the new checkpoint. */
  function CleanRun(rows: seq<Row>, from: int, limit: nat): (seq<Row>, int) {
    var covered := Covered(After(rows, from), limit);
    (Loaded(covered), LastId(covered, from))
  }

  /** Runs one after the other, each from the checkpoint of the one before. */
  function Chain(rows: seq<Row>, from: int, limits: seq<nat>): (seq<Row>, int)
    decreases |limits|
  {
    if limits == [] then ([], from)
    else
      var first := CleanRun(rows, from, limits[0]);
      var rest := Chain(rows, first.1, limits[1..]);
      (first.0 + rest.0, rest.1)
  }

  /** Whatever the limits, a chain sends the packets of the rows between its checkpoints, each once, in order. */
  lemma {:induction false} ChainSends(rows: seq<Row>, from: int, limits: seq<nat>) returns (k: nat)
    requires Ascending(rows)
    ensures var rest := After(rows, from);
            k <= |rest| && Chain(rows, from, limits) == (Loaded(rest[..k]), LastId(rest[..k], from))
    decreases |limits|
  {
    hide *;
    var rest := After(rows, from);
    if limits == [] {
      k := 0;
      NoRuns(rows, from, limits);
      assert rest[..0] == [];
    } else {
      var covered := Covered(rest, limits[0]);
      var n := |covered|;
      Resume(rows, from, n);
      ChainCons(rows, from, limits);
      var m := ChainSends(rows, LastId(covered, from), limits[1..]);
      k := n + m;
      TwoParts(rest, from, n, m);
    }
  }

  lemma NoRuns(rows: seq<Row>, from: int, limits: seq<nat>)
    requires limits == []
    ensures Chain(rows, from, limits) == (Loaded([]), LastId([], from))
  {
  }

  lemma ChainCons(rows: seq<Row>, from: int, limits: seq<nat>)
    requires limits != []
    ensures var covered := Covered(After(rows, from), limits[0]);
            var rest := Chain(rows, LastId(covered, from), limits[1..]);
            Chain(rows, from, limits) == (Loaded(covered) + rest.0, rest.1)
  {
  }

  /** Two parts one after the other: their packets, and the id they end with. */
  lemma TwoParts(rest: seq<Row>, from: int, n: nat, m: nat)
    requires n + m <= |rest|
    ensures Loaded(rest[..n]) + Loaded(rest[n..][..m]) == Loaded(rest[..n + m])
    ensures LastId(rest[n..][..m], LastId(rest[..n], from)) == LastId(rest[..n + m], from)
  {
    hide Loaded;
    assert rest[..n] + rest[n..][..m] == rest[..n + m];
    LoadedConcat(rest[..n], rest[n..][..m]);
  }

  lemma Unlimited(rows: seq<Row>, from: int)
    ensures var rest := After(rows, from);
            Covered(rest, 0) == rest && CleanRun(rows, from, 0) == (Loaded(rest), LastId(rest, from))
    ensures LastId([], LastId(After(rows, from), from)) == LastId(After(rows, from), from)
  {
  }

  // ---------------------------------------------------------------- the run of one table

  function Tagged(table: Name, rows: seq<Row>): (ts: seq<(Name, Row)>)
    ensures |ts| == |rows|
  {
    seq(|rows|, i requires 0 <= i < |rows| => (table, rows[i]))
  }

  /** The sink: the log tells of which row each packet is; the list says which sends succeed. */
  class Sink {
    var log: seq<(Name, Row)>
    var outcomes: seq<bool>

    method Send(table: Name, row: Row) returns (ok: bool)
      modifies this
      ensures log == if ok then old(log) + [(table, row)] else old(log)
      ensures old(outcomes) == [] ==> ok && outcomes == []
    {
      if outcomes == [] {
        ok := true;
      } else {
        ok, outcomes := outcomes[0], outcomes[1..];
      }
      if ok { log := log + [(table, row)]; }
    }
  }

  type Checkpoint = map<Name, int>

  /** A table that was never replayed starts behind id 0. */
  function Mark(cp: Checkpoint, table: Name): int {
    if table in cp then cp[table] else 0
  }

  /** The rows sent so far of the run of one table. */
  ghost predicate Sent(before: seq<(Name, Row)>, after: seq<(Name, Row)>, table: Name, rows: seq<Row>) {
    after == before + Tagged(table, Loaded(rows))
  }

  lemma SentMore(a: seq<(Name, Row)>, b: seq<(Name, Row)>, table: Name, rows: seq<Row>, r: Row)
    requires Sent(a, b, table, rows)
    ensures r.packet.Some? ==> Sent(a, b + [(table, r)], table, rows + [r])
    ensures r.packet.None? ==> Sent(a, b, table, rows + [r])
  {
    LoadedMore(rows, r);
  }

  /** One turn over the rows: the limit has not been reached before, and is perhaps reached now. */
  lemma CoveredStep(rest: seq<Row>, n: nat, limit: nat)
    requires n < |rest| && limit > 0 && |Loaded(rest[..n])| < limit
    ensures rest[n].packet.Some? && |Loaded(rest[..n])| + 1 == limit ==> Covered(rest, limit) == rest[..n + 1]
  {
    if rest[n].packet.Some? && |Loaded(rest[..n])| + 1 == limit {
      assert rest == rest[..n] + [rest[n]] + rest[n + 1..];
      UpToExactly(rest[..n], rest[n], rest[n + 1..]);
      assert rest[..n + 1] == rest[..n] + [rest[n]];
    }
  }

  lemma CoveredAll(rest: seq<Row>, limit: nat)
    requires limit > 0 ==> |Loaded(rest)| < limit
    ensures Covered(rest, limit) == rest
  {
    if limit > 0 {
      UpToBeyond(rest, [], limit);
      assert rest + [] == rest && UpTo([], limit - |Loaded(rest)|) == [];
    }
  }

  /**
    The outcome of the run of one table: rows up to `done` are covered by the checkpoint, up to `seen` they
    were sent.
    */
  ghost predicate TableRun(rest: seq<Row>, from: int, mark: int, done: nat, seen: nat, limit: nat) {
    && done <= seen <= |rest|
    && mark == LastId(rest[..done], from)
    && (limit > 0 ==> |Loaded(rest[..seen])| <= limit)
  }

  /**
    replayTable, without dry run. Every row up to the new checkpoint has been sent; after a failed
    send, the rows sent since the last batch lie behind the checkpoint. Without a failure the rows
    covered do not depend on the batch size.
    */
  method ReplayTable(sink: Sink, cp: Checkpoint, table: Name, rows: seq<Row>, batchSize: nat, limit: nat)
    returns (sent: nat, skipped: nat, ok: bool, cp2: Checkpoint, ghost done: nat, ghost seen: nat)
    requires Ascending(rows)
    modifies sink
    ensures var rest := After(rows, Mark(cp, table));
            && TableRun(rest, Mark(cp, table), Mark(cp2, table), done, seen, limit)
            && Sent(old(sink.log), sink.log, table, rest[..seen])
            && sent == |Loaded(rest[..seen])| && sent + skipped == seen
            && (ok ==> done == seen)
            && (ok && batchSize > 0 ==> rest[..done] == Covered(rest, limit))
    ensures Only(cp, cp2, table) && (ok ==> cp2 == cp[table := Mark(cp2, table)])
    ensures old(sink.outcomes) == [] ==> ok && sink.outcomes == []
  {
    hide *;
    ghost var from := Mark(cp, table);
    ghost var rest := After(rows, from);
    var lastID := Mark(cp, table);
    sent, skipped, cp2, ok := 0, 0, cp, true;
    done, seen := 0, 0;
    Start(sink.log, table, rest, from);
    while true
      invariant done == seen <= |rest| && lastID == LastId(rest[..done], from)
      invariant Mark(cp2, table) == lastID && Only(cp, cp2, table) && Moved(cp, cp2, table)
      invariant Sent(old(sink.log), sink.log, table, rest[..seen])
      invariant sent == |Loaded(rest[..seen])| && sent + skipped == seen
      invariant limit > 0 ==> sent < limit
      invariant old(sink.outcomes) == [] ==> sink.outcomes == []
      decreases |rest| - seen
    {
      var n, reached;
      Resume(rows, from, done);
      var batch := Batch(rows, lastID, batchSize);
      BatchIs(rows, lastID, batchSize);
      sent, skipped, ok, n, reached :=
        SendBatch(sink, table, batch, old(sink.log), rest, done, sent, skipped, limit);
      seen := done + n;
      KeptRun(rest, from, done, seen, limit);
      if !ok { return; }
      TwoParts(rest, from, done, n);
      assert batch[..n] == rest[done..][..n];
      lastID := LastId(batch[..n], lastID);
      MarkIs(cp, cp2, table, lastID);
      cp2 := cp2[table := lastID];
      done := seen;
      KeptRun(rest, from, done, seen, limit);
      if reached { return; }
      if |batch| == 0 {
        if batchSize > 0 {
          assert rest[..done] == rest;
          CoveredAll(rest, limit);
        }
        return;
      }
    }
  }

  /** No other table's mark is touched. */
  ghost predicate Only(cp: Checkpoint, cp2: Checkpoint, table: Name) {
    forall t :: t != table ==> Mark(cp2, t) == Mark(cp, t)
  }

  lemma Start(log: seq<(Name, Row)>, table: Name, rest: seq<Row>, from: int)
    ensures Sent(log, log, table, rest[..0]) && |Loaded(rest[..0])| == 0 && LastId(rest[..0], from) == from
    ensures forall cp :: Only(cp, cp, table) && Moved(cp, cp, table)
  {
  }

  lemma BatchIs(rows: seq<Row>, after: int, limit: nat)
    ensures var rest := After(rows, after);
            var b := Batch(rows, after, limit);
            |b| <= |rest| && b == rest[..|b|] && |b| <= limit && (|b| < limit ==> b == rest)
  {
  }

  /** At most the mark of the table has been set. */
  ghost predicate Moved(cp: Checkpoint, cp2: Checkpoint, table: Name) {
    cp2 == cp || cp2 == cp[table := Mark(cp2, table)]
  }

  lemma MarkIs(cp: Checkpoint, cp2: Checkpoint, table: Name, id: int)
    requires Only(cp, cp2, table) && Moved(cp, cp2, table)
    ensures Mark(cp2[table := id], table) == id && Only(cp, cp2[table := id], table)
    ensures Moved(cp, cp2[table := id], table) && cp2[table := id] == cp[table := id]
  {
  }

  lemma KeptRun(rest: seq<Row>, from: int, done: nat, seen: nat, limit: nat)
    requires done <= seen <= |rest| && (limit > 0 ==> |Loaded(rest[..seen])| <= limit)
    ensures TableRun(rest, from, LastId(rest[..done], from), done, seen, limit)
  {
  }

  /** The inner loop: the rows of one batch, until it ends, a send fails or the limit is reached. */
  method SendBatch(sink: Sink, table: Name, batch: seq<Row>, ghost before: seq<(Name, Row)>,
                   ghost rest: seq<Row>, ghost done: nat, sent0: nat, skipped0: nat, limit: nat)
    returns (sent: nat, skipped: nat, ok: bool, n: nat, reached: bool)
    requires done + |batch| <= |rest| && batch == rest[done..][..|batch|]
    requires sent0 == |Loaded(rest[..done])| && sent0 + skipped0 == done && (limit > 0 ==> sent0 < limit)
    requires Sent(before, sink.log, table, rest[..done])
    modifies sink
    ensures n <= |batch| && (ok && !reached ==> n == |batch|)
    ensures Sent(before, sink.log, table, rest[..done + n])
    ensures sent == |Loaded(rest[..done + n])| && sent + skipped == done + n
    ensures limit > 0 ==> if ok && reached then sent == limit else sent < limit
    ensures ok && reached ==> limit > 0 && Covered(rest, limit) == rest[..done + n]
    ensures old(sink.outcomes) == [] ==> ok && sink.outcomes == []
  {
    hide *;
    sent, skipped, n, ok, reached := sent0, skipped0, 0, true, false;
    while n < |batch|
      invariant n <= |batch| && ok && !reached
      invariant Sent(before, sink.log, table, rest[..done + n])
      invariant sent == |Loaded(rest[..done + n])| && sent + skipped == done + n
      invariant limit > 0 ==> sent < limit
      invariant old(sink.outcomes) == [] ==> sink.outcomes == []
    {
      var row := batch[n];
      assert row == rest[done + n] && rest[..done + (n + 1)] == rest[..done + n] + [row];
      LoadedMore(rest[..done + n], row);
      SentMore(before, sink.log, table, rest[..done + n], row);
      if limit > 0 { CoveredStep(rest, done + n, limit); }
      if row.packet.None? {
        skipped := skipped + 1;
        n := n + 1;
      } else {
        ok := sink.Send(table, row);
        if !ok { return; }
        sent := sent + 1;
        n := n + 1;
        if limit > 0 && sent >= limit {
          reached := true;
          return;
        }
      }
    }
  }
}
