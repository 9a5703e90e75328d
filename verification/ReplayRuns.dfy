/**
  The table loop of RunMigrateHEP (src/cli/migrate_hep.go): one run over several tables with one limit,
  and runs chained through the checkpoint file.
  */
module ReplayRuns {
  import opened Octets
  import opened Replay

  type Source = map<Name, seq<Row>>

  ghost predicate Ordered(db: Source) {
    forall t :: t in db ==> Ascending(db[t])
  }

  /** Every row with a packet between the two marks of a table is in the log. */
  ghost predicate TableKept(rows: seq<Row>, table: Name, from: int, mark: int, log: seq<(Name, Row)>) {
    forall i :: 0 <= i < |rows| && from < rows[i].id <= mark && rows[i].packet.Some? ==> (table, rows[i]) in log
  }

  /** No row is lost between two checkpoints. */
  ghost predicate NoLoss(db: Source, from: Checkpoint, mark: Checkpoint, log: seq<(Name, Row)>) {
    forall t :: t in db ==> TableKept(db[t], t, Mark(from, t), Mark(mark, t), log)
  }

  ghost predicate Extends(a: seq<(Name, Row)>, b: seq<(Name, Row)>, n: nat) {
    |b| == |a| + n && b[..|a|] == a
  }

  lemma KeptLonger(rows: seq<Row>, table: Name, from: int, mark: int, a: seq<(Name, Row)>, b: seq<(Name, Row)>, n: nat)
    requires TableKept(rows, table, from, mark, a) && Extends(a, b, n)
    ensures TableKept(rows, table, from, mark, b)
  {
    forall i | 0 <= i < |rows| && from < rows[i].id <= mark && rows[i].packet.Some?
      ensures (table, rows[i]) in b
    {
      var k :| 0 <= k < |a| && a[k] == (table, rows[i]);
      assert b[..|a|][k] == b[k];
    }
  }

  /** The run of one table loses nothing between its marks. */
  lemma RunKept(rows: seq<Row>, table: Name, from: int, mark: int, done: nat, seen: nat, limit: nat,
                before: seq<(Name, Row)>, after: seq<(Name, Row)>)
    requires Ascending(rows) && TableRun(After(rows, from), from, mark, done, seen, limit)
    requires Sent(before, after, table, After(rows, from)[..seen])
    ensures TableKept(rows, table, from, mark, after) && Extends(before, after, |Loaded(After(rows, from)[..seen])|)
    ensures mark >= from
  {
    hide After, Loaded;
    var rest := After(rows, from);
    AfterIsAfter(rows, from);
    var n := |rows| - |rest|;
    assert done > 0 ==> mark == rows[n + done - 1].id;
    forall i | 0 <= i < |rows| && from < rows[i].id <= mark && rows[i].packet.Some?
      ensures (table, rows[i]) in after
    {
      assert i < n + done;
      assert rest[..seen][i - n] == rows[i];
      LoadedHas(rest[..seen], i - n);
      InTagged(table, Loaded(rest[..seen]), rows[i]);
    }
  }

  lemma InTagged(table: Name, rows: seq<Row>, r: Row)
    requires r in rows
    ensures (table, r) in Tagged(table, rows)
  {
    var i :| 0 <= i < |rows| && rows[i] == r;
    assert Tagged(table, rows)[i] == (table, r);
  }

  lemma LossStep(db: Source, from: Checkpoint, cp: Checkpoint, cp2: Checkpoint, table: Name,
                 a: seq<(Name, Row)>, b: seq<(Name, Row)>, n: nat)
    requires NoLoss(db, from, cp, a) && Extends(a, b, n) && Only(cp, cp2, table)
    requires table in db && TableKept(db[table], table, Mark(cp, table), Mark(cp2, table), b)
    ensures NoLoss(db, from, cp2, b)
  {
    forall t | t in db
      ensures TableKept(db[t], t, Mark(from, t), Mark(cp2, t), b)
    {
      KeptLonger(db[t], t, Mark(from, t), Mark(cp, t), a, b, n);
    }
  }

  lemma LossLonger(db: Source, from: Checkpoint, mark: Checkpoint, a: seq<(Name, Row)>, b: seq<(Name, Row)>, n: nat)
    requires NoLoss(db, from, mark, a) && Extends(a, b, n)
    ensures NoLoss(db, from, mark, b)
  {
    forall t | t in db
      ensures TableKept(db[t], t, Mark(from, t), Mark(mark, t), b)
    {
      KeptLonger(db[t], t, Mark(from, t), Mark(mark, t), a, b, n);
    }
  }

  lemma ExtendsMore(a: seq<(Name, Row)>, b: seq<(Name, Row)>, c: seq<(Name, Row)>, n: nat, m: nat)
    requires Extends(a, b, n) && Extends(b, c, m)
    ensures Extends(a, c, n + m)
  {
    assert c[..|a|] == c[..|b|][..|a|];
  }

  lemma AtTheStart(db: Source, cp: Checkpoint, log: seq<(Name, Row)>)
    ensures NoLoss(db, cp, cp, log) && Extends(log, log, 0)
  {
  }

  // ---------------------------------------------------------------- clean runs over all tables

  /**
    What a clean run sends, and its checkpoint. The limit is given to each table anew; the run ends at
    the first table with which the total reaches it.
    */
  function RunAll(tables: seq<Name>, db: Source, cp: Checkpoint, limit: nat, total: nat): (seq<(Name, Row)>, Checkpoint)
    decreases |tables|
  {
    if tables == [] then ([], cp)
    else
      var t := tables[0];
      var one := if t in db then CleanRun(db[t], Mark(cp, t), limit) else ([], Mark(cp, t));
      var sent := Tagged(t, one.0);
      var cp2 := if t in db then cp[t := one.1] else cp;
      if limit > 0 && total + |sent| >= limit then (sent, cp2)
      else
        var rest := RunAll(tables[1..], db, cp2, limit, total + |sent|);
        (sent + rest.0, rest.1)
  }

  /** Runs one after the other, each from the checkpoint of the one before. */
  function ChainAll(tables: seq<Name>, db: Source, cp: Checkpoint, limits: seq<nat>): (seq<(Name, Row)>, Checkpoint)
    decreases |limits|
  {
    if limits == [] then ([], cp)
    else
      var first := RunAll(tables, db, cp, limits[0], 0);
      var rest := ChainAll(tables, db, first.1, limits[1..]);
      (first.0 + rest.0, rest.1)
  }

  /** The packets and the mark of one table, which may be absent. */
  function TableSends(db: Source, cp: Checkpoint, t: Name, limit: nat): seq<(Name, Row)> {
    if t in db then Tagged(t, CleanRun(db[t], Mark(cp, t), limit).0) else []
  }

  function TableMarks(db: Source, cp: Checkpoint, t: Name, limit: nat): Checkpoint {
    if t in db then cp[t := CleanRun(db[t], Mark(cp, t), limit).1] else cp
  }

  lemma RunNil(db: Source, cp: Checkpoint, limit: nat, total: nat)
    ensures RunAll([], db, cp, limit, total).0 == [] && RunAll([], db, cp, limit, total).1 == cp
  {
  }

  lemma RunCons(tables: seq<Name>, db: Source, cp: Checkpoint, limit: nat, total: nat)
    requires tables != []
    ensures var sent := TableSends(db, cp, tables[0], limit);
            var cp2 := TableMarks(db, cp, tables[0], limit);
            RunAll(tables, db, cp, limit, total) ==
            if limit > 0 && total + |sent| >= limit then (sent, cp2)
            else (sent + RunAll(tables[1..], db, cp2, limit, total + |sent|).0,
                  RunAll(tables[1..], db, cp2, limit, total + |sent|).1)
  {
    hide CleanRun;
    assert Tagged(tables[0], []) == [];
  }

  lemma TaggedConcat(t: Name, a: seq<Row>, b: seq<Row>)
    ensures Tagged(t, a + b) == Tagged(t, a) + Tagged(t, b)
  {
  }

  /** A table cut at a limit and taken up again without one. */
  lemma TableResumes(db: Source, cp: Checkpoint, t: Name, limit: nat)
    requires Ordered(db)
    ensures var cp2 := TableMarks(db, cp, t, limit);
            && TableSends(db, cp, t, limit) + TableSends(db, cp2, t, 0) == TableSends(db, cp, t, 0)
            && TableMarks(db, cp2, t, 0) == TableMarks(db, cp, t, 0)
  {
    hide After, Loaded, Covered, LastId, Tagged, Ordered;
    if t in db {
      var from := Mark(cp, t);
      var rest := After(db[t], from);
      var covered := Covered(rest, limit);
      var n := |covered|;
      OrderedAt(db, t);
      Resume(db[t], from, n);
      Unlimited(db[t], from);
      Unlimited(db[t], LastId(covered, from));
      TwoParts(rest, from, n, |rest| - n);
      assert rest[n..][..|rest| - n] == rest[n..] && rest[..n + (|rest| - n)] == rest;
      TaggedConcat(t, Loaded(covered), Loaded(rest[n..]));
    }
  }

  /** Nothing is left of the table behind its mark. */
  ghost predicate Finished(db: Source, cp: Checkpoint, t: Name) {
    t in db ==> t in cp && After(db[t], cp[t]) == []
  }

  /** A table that did not reach the limit is finished. */
  lemma BelowLimit(db: Source, cp: Checkpoint, t: Name, limit: nat)
    requires Ordered(db) && (limit > 0 ==> |TableSends(db, cp, t, limit)| < limit)
    ensures TableSends(db, cp, t, limit) == TableSends(db, cp, t, 0)
    ensures TableMarks(db, cp, t, limit) == TableMarks(db, cp, t, 0)
    ensures Finished(db, TableMarks(db, cp, t, limit), t)
  {
    hide After, Loaded, LastId, Ordered, UpTo;
    if t in db {
      var from := Mark(cp, t);
      var rest := After(db[t], from);
      OrderedAt(db, t);
      if limit > 0 { UpToAll(rest, limit); }
      Resume(db[t], from, |rest|);
      assert rest[..|rest|] == rest && rest[|rest|..] == [];
    }
  }

  lemma {:induction false} UpToAll(rows: seq<Row>, k: nat)
    requires |Loaded(UpTo(rows, k))| < k
    ensures UpTo(rows, k) == rows
  {
    if rows == [] {
    } else {
      hide Loaded;
      var more := if rows[0].packet.Some? then k - 1 else k;
      var rest := UpTo(rows[1..], more);
      LoadedConcat([rows[0]], rest);
      LoadedOne(rows[0]);
      UpToAll(rows[1..], more);
      assert rows == [rows[0]] + rows[1..];
    }
  }

  lemma LoadedOne(r: Row)
    ensures |Loaded([r])| == if r.packet.Some? then 1 else 0
  {
  }

  /** A finished table sends nothing and keeps its mark, in whatever run. */
  lemma FinishedIdle(db: Source, cp: Checkpoint, t: Name, limit: nat)
    requires Finished(db, cp, t)
    ensures TableSends(db, cp, t, limit) == [] && TableMarks(db, cp, t, limit) == cp
  {
  }

  lemma MarksFinished(db: Source, cp: Checkpoint, u: Name, limit: nat, t: Name)
    requires Finished(db, cp, t)
    ensures Finished(db, TableMarks(db, cp, u, limit), t)
  {
    if u == t { FinishedIdle(db, cp, t, limit); }
  }

  lemma {:induction false} FinishedStays(tables: seq<Name>, db: Source, cp: Checkpoint, limit: nat, total: nat, t: Name)
    requires Finished(db, cp, t)
    ensures Finished(db, RunAll(tables, db, cp, limit, total).1, t)
    decreases |tables|
  {
    hide *;
    if tables == [] {
      RunNil(db, cp, limit, total);
    } else {
      var u := tables[0];
      RunCons(tables, db, cp, limit, total);
      MarksFinished(db, cp, u, limit, t);
      var sent := TableSends(db, cp, u, limit);
      FinishedStays(tables[1..], db, TableMarks(db, cp, u, limit), limit, total + |sent|, t);
    }
  }

  /** One table that reaches the limit, and the rest of the tables without one. */
  lemma StopResumes(tables: seq<Name>, db: Source, cp: Checkpoint, limit: nat)
    requires tables != [] && Ordered(db)
    ensures var rest := RunAll(tables, db, TableMarks(db, cp, tables[0], limit), 0, 0);
            && TableSends(db, cp, tables[0], limit) + rest.0 == RunAll(tables, db, cp, 0, 0).0
            && rest.1 == RunAll(tables, db, cp, 0, 0).1
  {
    hide *;
    var t := tables[0];
    var cp2 := TableMarks(db, cp, t, limit);
    Unbounded(tables, db, cp);
    Unbounded(tables, db, cp2);
    TableResumes(db, cp, t, limit);
    Assoc(TableSends(db, cp, t, limit), TableSends(db, cp2, t, 0), RunAll(tables[1..], db, TableMarks(db, cp, t, 0),
            0, 0).0);
  }

  lemma Unbounded(tables: seq<Name>, db: Source, cp: Checkpoint)
    requires tables != []
    ensures var rest := RunAll(tables[1..], db, TableMarks(db, cp, tables[0], 0), 0, 0);
            && RunAll(tables, db, cp, 0, 0).0 == TableSends(db, cp, tables[0], 0) + rest.0
            && RunAll(tables, db, cp, 0, 0).1 == rest.1
  {
    hide *;
    RunCons(tables, db, cp, 0, 0);
    NoTotal(tables[1..], db, TableMarks(db, cp, tables[0], 0), |TableSends(db, cp, tables[0], 0)|);
  }

  /** The first table is finished, so the unlimited run goes on with the others. */
  lemma SkipsFinished(tables: seq<Name>, db: Source, cp: Checkpoint)
    requires tables != [] && Finished(db, cp, tables[0])
    ensures RunAll(tables, db, cp, 0, 0).0 == RunAll(tables[1..], db, cp, 0, 0).0
    ensures RunAll(tables, db, cp, 0, 0).1 == RunAll(tables[1..], db, cp, 0, 0).1
  {
    hide *;
    Unbounded(tables, db, cp);
    FinishedIdle(db, cp, tables[0], 0);
    NothingFirst(RunAll(tables[1..], db, cp, 0, 0).0);
  }

  /** A limited run and an unlimited one behind it are one unlimited run. */
  lemma {:induction false} RunResumes(tables: seq<Name>, db: Source, cp: Checkpoint, limit: nat, total: nat)
    requires Ordered(db)
    ensures var first := RunAll(tables, db, cp, limit, total);
            var rest := RunAll(tables, db, first.1, 0, 0);
            && first.0 + rest.0 == RunAll(tables, db, cp, 0, 0).0
            && rest.1 == RunAll(tables, db, cp, 0, 0).1
    decreases |tables|
  {
    hide *;
    if tables == [] {
      RunNil(db, cp, limit, total);
      RunNil(db, cp, 0, 0);
      NothingFirst(RunAll(tables, db, cp, 0, 0).0);
    } else {
      var t := tables[0];
      var sent := TableSends(db, cp, t, limit);
      var cp2 := TableMarks(db, cp, t, limit);
      RunCons(tables, db, cp, limit, total);
      if limit > 0 && total + |sent| >= limit {
        StopResumes(tables, db, cp, limit);
      } else {
        var more := RunAll(tables[1..], db, cp2, limit, total + |sent|);
        BelowLimit(db, cp, t, limit);
        FinishedStays(tables[1..], db, cp2, limit, total + |sent|, t);
        SkipsFinished(tables, db, more.1);
        Unbounded(tables, db, cp);
        RunResumes(tables[1..], db, cp2, limit, total + |sent|);
        Assoc(sent, more.0, RunAll(tables[1..], db, more.1, 0, 0).0);
      }
    }
  }

  lemma NothingLast<T>(s: seq<T>)
    ensures s + [] == s
  {
  }

  lemma NothingFirst<T>(s: seq<T>)
    ensures [] + s == s
  {
  }

  /** Without a limit the total does not matter. */
  lemma {:induction false} NoTotal(tables: seq<Name>, db: Source, cp: Checkpoint, total: nat)
    ensures RunAll(tables, db, cp, 0, total) == RunAll(tables, db, cp, 0, 0)
    decreases |tables|
  {
    hide *;
    if tables == [] {
      RunNil(db, cp, 0, total);
      RunNil(db, cp, 0, 0);
    } else {
      var sent := TableSends(db, cp, tables[0], 0);
      RunCons(tables, db, cp, 0, total);
      RunCons(tables, db, cp, 0, 0);
      NoTotal(tables[1..], db, TableMarks(db, cp, tables[0], 0), total + |sent|);
      NoTotal(tables[1..], db, TableMarks(db, cp, tables[0], 0), |sent|);
    }
  }

  lemma ChainAllCons(tables: seq<Name>, db: Source, cp: Checkpoint, limits: seq<nat>)
    requires limits != []
    ensures var first := RunAll(tables, db, cp, limits[0], 0);
            var rest := ChainAll(tables, db, first.1, limits[1..]);
            ChainAll(tables, db, cp, limits) == (first.0 + rest.0, rest.1)
    ensures |limits| == 1 ==> ChainAll(tables, db, cp, limits) == RunAll(tables, db, cp, limits[0], 0)
  {
    hide RunAll;
    NothingLast(RunAll(tables, db, cp, limits[0], 0).0);
  }

  /**
    Clean runs with any limits, chained through their checkpoints and closed by one without a limit,
    send exactly the sequence of one unlimited run, and end with its checkpoint. Tables may be
    missing or named twice.
    */
  lemma {:induction false} ChainAllIsOneRun(tables: seq<Name>, db: Source, cp: Checkpoint, limits: seq<nat>)
    requires Ordered(db)
    ensures ChainAll(tables, db, cp, limits + [0]) == RunAll(tables, db, cp, 0, 0)
    decreases |limits|
  {
    hide *;
    ChainAllCons(tables, db, cp, limits + [0]);
    if limits == [] {
      assert [] + [0] == [0];
    } else {
      assert (limits + [0])[1..] == limits[1..] + [0] && (limits + [0])[0] == limits[0];
      ChainAllIsOneRun(tables, db, RunAll(tables, db, cp, limits[0], 0).1, limits[1..]);
      RunResumes(tables, db, cp, limits[0], 0);
    }
  }

  // ---------------------------------------------------------------- when the limit is exceeded

  /** The packets behind the mark of a table. */
  function Behind(db: Source, cp: Checkpoint, t: Name): nat {
    if t in db then |Loaded(After(db[t], Mark(cp, t)))| else 0
  }

  function Pending(tables: seq<Name>, db: Source, cp: Checkpoint): nat {
    if tables == [] then 0 else Pending(tables[..|tables| - 1], db, cp) + Behind(db, cp, tables[|tables| - 1])
  }

  ghost predicate Distinct(tables: seq<Name>) {
    forall i, j :: 0 <= i < j < |tables| ==> tables[i] != tables[j]
  }

  function Min(a: nat, b: nat): nat {
    if a < b then a else b
  }

  lemma PendingMore(tables: seq<Name>, db: Source, cp: Checkpoint, k: nat)
    requires k < |tables|
    ensures Pending(tables[..k + 1], db, cp) == Pending(tables[..k], db, cp) + Behind(db, cp, tables[k])
  {
    assert tables[..k + 1][..k] == tables[..k];
  }

  lemma {:induction false} PendingGrows(tables: seq<Name>, db: Source, cp: Checkpoint, j: nat, k: nat)
    requires j <= k <= |tables|
    ensures Pending(tables[..j], db, cp) <= Pending(tables[..k], db, cp)
    decreases k
  {
    if j == k {
    } else {
      PendingMore(tables, db, cp, k - 1);
      PendingGrows(tables, db, cp, j, k - 1);
    }
  }

  /** A limited run of one table sends its packets up to the limit. */
  lemma TableCount(db: Source, cp: Checkpoint, t: Name, limit: nat)
    requires limit > 0
    ensures |TableSends(db, cp, t, limit)| == Min(Behind(db, cp, t), limit)
  {
    if t in db { UpToCounts(After(db[t], Mark(cp, t)), limit); }
  }

  lemma {:induction false} UpToCounts(rows: seq<Row>, k: nat)
    ensures |Loaded(UpTo(rows, k))| == Min(|Loaded(rows)|, k)
  {
    if k == 0 || rows == [] {
    } else {
      hide Loaded;
      var more := if rows[0].packet.Some? then k - 1 else k;
      LoadedConcat([rows[0]], UpTo(rows[1..], more));
      LoadedConcat([rows[0]], rows[1..]);
      LoadedOne(rows[0]);
      assert rows == [rows[0]] + rows[1..];
      UpToCounts(rows[1..], more);
    }
  }

  /** The marks of later tables are the ones the run began with. */
  ghost predicate SameMarks(tables: seq<Name>, a: Checkpoint, b: Checkpoint) {
    forall i :: 0 <= i < |tables| ==> Mark(a, tables[i]) == Mark(b, tables[i])
  }

  lemma SameMarksNext(tables: seq<Name>, db: Source, a: Checkpoint, b: Checkpoint, limit: nat)
    requires tables != [] && Distinct(tables) && SameMarks(tables, a, b)
    ensures Distinct(tables[1..]) && SameMarks(tables[1..], TableMarks(db, a, tables[0], limit), b)
    ensures Behind(db, a, tables[0]) == Behind(db, b, tables[0])
  {
    hide CleanRun, Loaded, After;
    var rest := tables[1..];
    assert forall i :: 0 <= i < |rest| ==> rest[i] == tables[i + 1];
    assert Mark(a, tables[0]) == Mark(b, tables[0]);
  }

  /** Where a run over the tables ends: the table that reaches the limit, or behind the last. */
  ghost predicate EndsAt(tables: seq<Name>, db: Source, cp: Checkpoint, limit: nat, i: nat, total: nat) {
    && i <= |tables|
    && if i == |tables| then total == Pending(tables, db, cp) < limit
       else Pending(tables[..i], db, cp) < limit <= Pending(tables[..i + 1], db, cp) &&
            total == Pending(tables[..i], db, cp) + Min(Behind(db, cp, tables[i]), limit)
  }

  /** Behind the first `k` tables the run stands at `cp`, and it has sent all they had. */
  lemma {:induction false} RunCounts(tables: seq<Name>, db: Source, start: Checkpoint, cp: Checkpoint, limit: nat,
          k: nat)
    returns (i: nat)
    requires limit > 0 && k <= |tables| && Distinct(tables[k..]) && SameMarks(tables[k..], cp, start)
    requires Pending(tables[..k], db, start) < limit
    ensures var total := Pending(tables[..k], db, start);
            EndsAt(tables, db, start, limit, i, total + |RunAll(tables[k..], db, cp, limit, total).0|)
    decreases |tables| - k
  {
    hide *;
    if k == |tables| {
      i := k;
      assert tables[..k] == tables && tables[k..] == [];
      RunNil(db, cp, limit, Pending(tables, db, start));
      EndsBehind(tables, db, start, limit);
    } else {
      var t := tables[k];
      var total := Pending(tables[..k], db, start);
      var n := |TableSends(db, cp, t, limit)|;
      assert tables[k..][0] == t && tables[k..][1..] == tables[k + 1..];
      RunCons(tables[k..], db, cp, limit, total);
      SameMarksNext(tables[k..], db, cp, start, limit);
      TableCount(db, cp, t, limit);
      if total + n >= limit {
        i := k;
        EndsHere(tables, db, start, limit, k);
      } else {
        var cp2 := TableMarks(db, cp, t, limit);
        PendingMore(tables, db, start, k);
        MinIs(Behind(db, start, t), limit);
        i := RunCounts(tables, db, start, cp2, limit, k + 1);
        SumIs(TableSends(db, cp, t, limit), RunAll(tables[k + 1..], db, cp2, limit, total + n).0);
      }
    }
  }

  lemma EndsBehind(tables: seq<Name>, db: Source, start: Checkpoint, limit: nat)
    requires Pending(tables, db, start) < limit
    ensures EndsAt(tables, db, start, limit, |tables|, Pending(tables, db, start))
  {
  }

  lemma SumIs<T>(a: seq<T>, b: seq<T>)
    ensures |a + b| == |a| + |b|
  {
  }

  lemma EndsHere(tables: seq<Name>, db: Source, start: Checkpoint, limit: nat, k: nat)
    requires k < |tables| && Pending(tables[..k], db, start) < limit
    requires Pending(tables[..k], db, start) + Min(Behind(db, start, tables[k]), limit) >= limit
    ensures EndsAt(tables, db, start, limit, k,
                   Pending(tables[..k], db, start) + Min(Behind(db, start, tables[k]), limit))
  {
    hide Pending, Behind;
    PendingMore(tables, db, start, k);
  }

  lemma MinIs(a: nat, b: nat)
    ensures Min(a, b) == if a < b then a else b
  {
  }

  /**
    What a clean run over distinct tables sends: all there is, when that is below the limit; else all of
    the first tables, and of the one that reaches the limit as many packets as the limit allows.
    */
  lemma TotalIs(tables: seq<Name>, db: Source, cp: Checkpoint, limit: nat) returns (i: nat)
    requires limit > 0 && Distinct(tables)
    ensures EndsAt(tables, db, cp, limit, i, |RunAll(tables, db, cp, limit, 0).0|)
  {
    hide RunAll, Behind;
    assert tables[0..] == tables && tables[..0] == [];
    i := RunCounts(tables, db, cp, cp, limit, 0);
  }

  /** The table with which the total passes the limit, when others have sent before it. */
  ghost predicate Passes(tables: seq<Name>, db: Source, cp: Checkpoint, limit: nat, i: int) {
    0 <= i < |tables| && 0 < Pending(tables[..i], db, cp) < limit < Pending(tables[..i + 1], db, cp)
  }

  /** A clean run over distinct tables sends more than its limit exactly when there is such a table. */
  lemma LimitExceededIff(tables: seq<Name>, db: Source, cp: Checkpoint, limit: nat)
    requires limit > 0 && Distinct(tables)
    ensures |RunAll(tables, db, cp, limit, 0).0| > limit <==> exists i :: Passes(tables, db, cp, limit, i)
  {
    hide RunAll, Behind, Pending;
    var i := TotalIs(tables, db, cp, limit);
    if i < |tables| { PendingMore(tables, db, cp, i); }
    forall j | Passes(tables, db, cp, limit, j) ensures i == j {
      assert tables[..|tables|] == tables;
      if j < i { PendingGrows(tables, db, cp, j + 1, i); }
      if i < j { PendingGrows(tables, db, cp, i + 1, j); }
    }
    if i < |tables| && |RunAll(tables, db, cp, limit, 0).0| > limit { assert Passes(tables, db, cp, limit, i); }
  }

  function Packets(n: nat): (rows: seq<Row>)
    ensures |rows| == n && |Loaded(rows)| == n
    ensures forall i :: 0 <= i < n ==> rows[i] == Row(i + 1, Some([]))
  {
    if n == 0 then []
    else
      var rows := Packets(n - 1);
      assert (rows + [Row(n, Some([]))])[..n - 1] == rows;
      rows + [Row(n, Some([]))]
  }

  /** Two tables from which a run sends twice its limit less one. */
  function Worst(a: Name, b: Name, limit: nat): Source
    requires limit > 0
  {
    map[a := Packets(limit - 1), b := Packets(limit)]
  }

  lemma WorstCounts(a: Name, b: Name, limit: nat)
    requires limit > 0 && a != b
    ensures Ordered(Worst(a, b, limit))
    ensures Behind(Worst(a, b, limit), map[], a) == limit - 1 && Behind(Worst(a, b, limit), map[], b) == limit
  {
    hide Packets, Worst, Ascending, Behind;
    WorstAt(a, b, limit);
    InOrder(limit - 1);
    InOrder(limit);
    AllBehind(Worst(a, b, limit), a, Packets(limit - 1));
    AllBehind(Worst(a, b, limit), b, Packets(limit));
  }

  lemma WorstAt(a: Name, b: Name, limit: nat)
    requires limit > 0 && a != b
    ensures var db := Worst(a, b, limit);
            && (forall t :: t in db <==> t == a || t == b)
            && db[a] == Packets(limit - 1) && db[b] == Packets(limit)
  {
    hide Packets;
  }

  /** Behind the mark of a table that was never replayed stand all its rows. */
  lemma AllBehind(db: Source, t: Name, rows: seq<Row>)
    requires t in db && db[t] == rows && (rows != [] ==> rows[0].id > 0)
    ensures Behind(db, map[], t) == |Loaded(rows)|
  {
    hide Loaded;
    FromTheStart(rows);
  }

  lemma InOrder(n: nat)
    ensures Ascending(Packets(n)) && (n > 0 ==> Packets(n)[0].id > 0)
  {
    hide Packets;
    var rows := Packets(n);
    assert forall i :: 0 <= i < n ==> rows[i].id == i + 1;
  }

  /** The bound is reached, for every limit and any two tables. */
  lemma BoundIsReached(a: Name, b: Name, limit: nat)
    requires limit > 0 && a != b
    ensures Ordered(Worst(a, b, limit))
    ensures |RunAll([a, b], Worst(a, b, limit), map[], limit, 0).0| == 2 * limit - 1
  {
    hide RunAll, Worst, Behind, Ordered;
    var db := Worst(a, b, limit);
    var tables := [a, b];
    assert tables[..0] == [] && tables[..2] == tables;
    WorstCounts(a, b, limit);
    PendingMore(tables, db, map[], 0);
    PendingMore(tables, db, map[], 1);
    var i := TotalIs(tables, db, map[], limit);
  }

  lemma FromTheStart(rows: seq<Row>)
    requires rows != [] ==> rows[0].id > 0
    ensures After(rows, 0) == rows
  {
  }

  // ---------------------------------------------------------------- the loop of the source

  /** What is left of the clean run makes the log what the whole run makes it. */
  ghost predicate OnCourse(tables: seq<Name>, db: Source, start: Checkpoint, limit: nat, before: seq<(Name, Row)>,
                           i: nat, cp: Checkpoint, total: nat, log: seq<(Name, Row)>)
  {
    i <= |tables| &&
    var whole := RunAll(tables, db, start, limit, 0);
    var rest := RunAll(tables[i..], db, cp, limit, total);
    log + rest.0 == before + whole.0 && rest.1 == whole.1
  }

  ghost predicate Done(tables: seq<Name>, db: Source, start: Checkpoint, limit: nat, before: seq<(Name, Row)>,
                       cp: Checkpoint, log: seq<(Name, Row)>)
  {
    var whole := RunAll(tables, db, start, limit, 0);
    log == before + whole.0 && cp == whole.1
  }

  lemma CourseStart(tables: seq<Name>, db: Source, start: Checkpoint, limit: nat, before: seq<(Name, Row)>)
    ensures OnCourse(tables, db, start, limit, before, 0, start, 0, before)
  {
    assert tables[0..] == tables;
  }

  lemma CourseEnd(tables: seq<Name>, db: Source, start: Checkpoint, limit: nat, before: seq<(Name, Row)>,
                  cp: Checkpoint, total: nat, log: seq<(Name, Row)>)
    requires OnCourse(tables, db, start, limit, before, |tables|, cp, total, log)
    ensures Done(tables, db, start, limit, before, cp, log)
  {
    NothingLast(log);
  }

  lemma CourseStep(tables: seq<Name>, db: Source, start: Checkpoint, limit: nat, before: seq<(Name, Row)>,
                   i: nat, cp: Checkpoint, total: nat, log: seq<(Name, Row)>)
    requires i < |tables| && OnCourse(tables, db, start, limit, before, i, cp, total, log)
    ensures var sent := TableSends(db, cp, tables[i], limit);
            var cp2 := TableMarks(db, cp, tables[i], limit);
            if limit > 0 && total + |sent| >= limit then Done(tables, db, start, limit, before, cp2, log + sent)
            else OnCourse(tables, db, start, limit, before, i + 1, cp2, total + |sent|, log + sent)
  {
    hide TableSends, TableMarks, RunAll;
    assert tables[i..][0] == tables[i] && tables[i..][1..] == tables[i + 1..];
    RunCons(tables[i..], db, cp, limit, total);
    var sent := TableSends(db, cp, tables[i], limit);
    Assoc(log, sent, RunAll(tables[i + 1..], db, TableMarks(db, cp, tables[i], limit), limit, total + |sent|).0);
  }

  lemma MissingTable(db: Source, cp: Checkpoint, t: Name, limit: nat, log: seq<(Name, Row)>)
    requires t !in db
    ensures log + TableSends(db, cp, t, limit) == log && |TableSends(db, cp, t, limit)| == 0
    ensures TableMarks(db, cp, t, limit) == cp
  {
  }

  /** The clean run of one table is the one of the functions. */
  lemma TableRunIs(db: Source, cp: Checkpoint, cp2: Checkpoint, t: Name, limit: nat, done: nat,
                   before: seq<(Name, Row)>, after: seq<(Name, Row)>)
    requires t in db && done <= |After(db[t], Mark(cp, t))| && cp2 == cp[t := Mark(cp2, t)]
    requires var rest := After(db[t], Mark(cp, t));
             && Sent(before, after, t, rest[..done]) && rest[..done] == Covered(rest, limit)
             && Mark(cp2, t) == LastId(rest[..done], Mark(cp, t))
    ensures after == before + TableSends(db, cp, t, limit) && cp2 == TableMarks(db, cp, t, limit)
    ensures |TableSends(db, cp, t, limit)| == |Loaded(After(db[t], Mark(cp, t))[..done])|
  {
    hide After, Loaded, Covered, LastId;
  }

  /** One table of the loop, when its replay was clean. */
  lemma TableDone(tables: seq<Name>, db: Source, start: Checkpoint, limit: nat, log0: seq<(Name, Row)>, i: nat,
                  cp: Checkpoint, total: nat, before: seq<(Name, Row)>, cp2: Checkpoint, done: nat, sent: nat,
                  after: seq<(Name, Row)>)
    requires i < |tables| && OnCourse(tables, db, start, limit, log0, i, cp, total, before) && tables[i] in db
    requires var rest := After(db[tables[i]], Mark(cp, tables[i]));
             && TableRun(rest, Mark(cp, tables[i]), Mark(cp2, tables[i]), done, done, limit)
             && Sent(before, after, tables[i], rest[..done]) && rest[..done] == Covered(rest, limit)
             && sent == |Loaded(rest[..done])| && cp2 == cp[tables[i] := Mark(cp2, tables[i])]
    ensures if limit > 0 && total + sent >= limit then Done(tables, db, start, limit, log0, cp2, after)
            else OnCourse(tables, db, start, limit, log0, i + 1, cp2, total + sent, after)
  {
    hide *;
    RunIs(After(db[tables[i]], Mark(cp, tables[i])), Mark(cp, tables[i]), Mark(cp2, tables[i]), done, limit);
    TableRunIs(db, cp, cp2, tables[i], limit, done, before, after);
    CourseStep(tables, db, start, limit, log0, i, cp, total, before);
  }

  lemma RunIs(rest: seq<Row>, from: int, mark: int, done: nat, limit: nat)
    requires TableRun(rest, from, mark, done, done, limit)
    ensures done <= |rest| && mark == LastId(rest[..done], from)
  {
  }

  lemma TableMissing(tables: seq<Name>, db: Source, start: Checkpoint, limit: nat, log0: seq<(Name, Row)>, i: nat,
                     cp: Checkpoint, total: nat, log: seq<(Name, Row)>)
    requires i < |tables| && OnCourse(tables, db, start, limit, log0, i, cp, total, log) && tables[i] !in db
    requires limit > 0 ==> total < limit
    ensures OnCourse(tables, db, start, limit, log0, i + 1, cp, total, log)
  {
    hide *;
    MissingTable(db, cp, tables[i], limit, log);
    CourseStep(tables, db, start, limit, log0, i, cp, total, log);
  }

  /**
    The table loop of RunMigrateHEP, in real runs. `saves` says which of the checkpoint files could be
    written; `file` is the one on disk at the end. A run without error sends what RunAll says, whatever
    the batch size. Nothing is lost between the checkpoint of the start and the one in memory, nor the
    one on disk, however the run ends; and since the limit is tested table by table, all tables
    together send at most 2 * limit - 1 packets.
    */
  method RunMigrate(sink: Sink, start: Checkpoint, tables: seq<Name>, db: Source, safe: Name -> bool,
                    batchSize: nat, limit: nat, saves: seq<bool>)
    returns (total: nat, ok: bool, cp: Checkpoint, file: Checkpoint)
    requires Ordered(db)
    modifies sink
    ensures ok && batchSize > 0 ==> Done(tables, db, start, limit, old(sink.log), cp, sink.log)
    ensures NoLoss(db, start, cp, sink.log) && NoLoss(db, start, file, sink.log)
    ensures Extends(old(sink.log), sink.log, total)
    ensures limit > 0 ==> total <= 2 * limit - 1
    ensures old(sink.outcomes) == [] && (forall i :: 0 <= i < |tables| ==> safe(tables[i])) ==> ok
  {
    hide *;
    total, ok, cp, file := 0, true, start, start;
    AtTheStart(db, start, sink.log);
    CourseStart(tables, db, start, limit, sink.log);
    for i := 0 to |tables|
      invariant NoLoss(db, start, cp, sink.log) && NoLoss(db, start, file, sink.log)
      invariant batchSize > 0 ==> OnCourse(tables, db, start, limit, old(sink.log), i, cp, total, sink.log)
      invariant Extends(old(sink.log), sink.log, total)
      invariant limit > 0 ==> total < limit
      invariant ok && (old(sink.outcomes) == [] ==> sink.outcomes == [])
    {
      var table := tables[i];
      if !safe(table) {
        ok := false;
      } else if table in db {
        ghost var before, was := sink.log, cp;
        var sent, skipped;
        ghost var done, seen;
        OrderedAt(db, table);
        sent, skipped, ok, cp, done, seen := ReplayTable(sink, cp, table, db[table], batchSize, limit);
        RunKept(db[table], table, Mark(was, table), Mark(cp, table), done, seen, limit, before, sink.log);
        LossStep(db, start, was, cp, table, before, sink.log, sent);
        LossLonger(db, start, file, before, sink.log, sent);
        ExtendsMore(old(sink.log), before, sink.log, total, sent);
        AtMostLimit(After(db[table], Mark(was, table)), Mark(was, table), Mark(cp, table), done, seen, limit);
        if ok && batchSize > 0 {
          TableDone(tables, db, start, limit, old(sink.log), i, was, total, before, cp, done, sent, sink.log);
        }
        total := total + sent;
      } else if batchSize > 0 {
        TableMissing(tables, db, start, limit, old(sink.log), i, cp, total, sink.log);
      }
      if i >= |saves| || saves[i] { file := cp; }
      if !ok { return; }
      if limit > 0 && total >= limit { return; }
    }
    if batchSize > 0 { CourseEnd(tables, db, start, limit, old(sink.log), cp, total, sink.log); }
  }

  lemma OrderedAt(db: Source, table: Name)
    requires Ordered(db) && table in db
    ensures Ascending(db[table])
  {
  }

  lemma AtMostLimit(rest: seq<Row>, from: int, mark: int, done: nat, seen: nat, limit: nat)
    requires TableRun(rest, from, mark, done, seen, limit)
    ensures seen <= |rest| && (limit > 0 ==> |Loaded(rest[..seen])| <= limit)
  {
  }
}
