/**
  The ingester (src/lineprotoreceiver/ingest.go): points become rows, rows are grouped by table and by
  column signature, and written in statements of at most 500 rows. The lake is an object that
  remembers its tables and the rows stored, and answers each statement as its list of outcomes says.
  */
module Ingest {
  import opened Octets
  import opened LineProtocol
  import opened Ident
  import opened Catalogs
  import opened Statements

  // ---------------------------------------------------------------- the lake

  function Tagged(table: Name, rows: seq<Row>): (ts: seq<(Name, Row)>)
    ensures |ts| == |rows|
  {
    seq(|rows|, i requires 0 <= i < |rows| => (table, rows[i]))
  }

  /** What the lake holds after `rows` were stored in `table`. */
  ghost function With(stored: seq<(Name, Row)>, table: Name, rows: seq<Row>): seq<(Name, Row)> {
    stored + Tagged(table, rows)
  }

  lemma WithNone(stored: seq<(Name, Row)>, table: Name)
    ensures With(stored, table, []) == stored
  {
  }

  lemma WithMore(stored: seq<(Name, Row)>, table: Name, a: seq<Row>, b: seq<Row>)
    ensures With(With(stored, table, a), table, b) == With(stored, table, a + b)
  {
    assert Tagged(table, a + b) == Tagged(table, a) + Tagged(table, b);
    Assoc(stored, Tagged(table, a), Tagged(table, b));
  }

  class Lake {
    var tables: Catalog
    var stored: seq<(Name, Row)>
    /** How the coming statements end; when the list is used up, they succeed. */
    var outcomes: seq<bool>

    constructor (faults: seq<bool>)
      ensures tables == map[] && stored == [] && outcomes == faults
    {
      tables, stored, outcomes := map[], [], faults;
    }

    method Answer() returns (ok: bool)
      modifies this`outcomes
      ensures old(outcomes) == [] ==> ok && outcomes == []
    {
      if outcomes == [] { return true; }
      ok, outcomes := outcomes[0], outcomes[1..];
    }

    /** CREATE TABLE IF NOT EXISTS. */
    method CreateTable(table: Name, cols: Columns) returns (ok: bool)
      modifies this`outcomes, this`tables
      ensures tables == if ok && table !in old(tables) then old(tables)[table := cols] else old(tables)
      ensures old(outcomes) == [] ==> ok && outcomes == []
    {
      ok := Answer();
      if ok && table !in tables { tables := tables[table := cols]; }
    }

    /** ALTER TABLE ... ADD COLUMN IF NOT EXISTS. */
    method AddColumn(table: Name, col: Name) returns (ok: bool)
      requires table in tables
      modifies this`outcomes, this`tables
      ensures tables == if ok then old(tables)[table := old(tables)[table] + {col}] else old(tables)
      ensures old(outcomes) == [] ==> ok && outcomes == []
    {
      ok := Answer();
      if ok { tables := tables[table := tables[table] + {col}]; }
    }

    /** INSERT of at most 500 rows. It is refused when a column is missing. */
    method Insert(table: Name, cols: seq<Name>, args: seq<Cell>) returns (ok: bool)
      requires cols != [] && |args| <= CHUNK * |cols|
      modifies this`outcomes, this`stored
      ensures stored == if ok then With(old(stored), table, Unpack(cols, args)) else old(stored)
      ensures ok ==> table in tables && Elements(cols) <= tables[table]
      ensures old(outcomes) == [] && table in tables && Elements(cols) <= tables[table] ==> ok && outcomes == []
    {
      ok := Answer();
      if table !in tables || !(Elements(cols) <= tables[table]) { return false; }
      if ok { stored := stored + Tagged(table, Unpack(cols, args)); }
    }
  }

  // ---------------------------------------------------------------- groups

  /** All rows of the groups. */
  ghost function Total<V>(m: map<Bytes, seq<V>>): multiset<V>
    decreases m.Keys
  {
    if m == map[] then multiset{} else
      var k :| k in m.Keys;
      assert (m - {k}).Keys < m.Keys by { assert k in m.Keys && k !in (m - {k}).Keys; }
      multiset(m[k]) + Total(m - {k})
  }

  lemma {:induction false} TotalWithout<V>(m: map<Bytes, seq<V>>, k: Bytes)
    requires k in m
    ensures Total(m) == multiset(m[k]) + Total(m - {k})
    decreases m.Keys
  {
    var j :| j in m.Keys && Total(m) == multiset(m[j]) + Total(m - {j});
    hide Total;
    if j == k {
    } else {
      Fewer(m, j);
      Fewer(m, k);
      TotalWithout(m - {j}, k);
      TotalWithout(m - {k}, j);
      BothOut(m, j, k);
    }
  }

  lemma Fewer<V>(m: map<Bytes, seq<V>>, k: Bytes)
    requires k in m
    ensures (m - {k}).Keys < m.Keys
  {
    assert k in m.Keys && k !in (m - {k}).Keys;
  }

  lemma BothOut<V>(m: map<Bytes, seq<V>>, j: Bytes, k: Bytes)
    ensures m - {j} - {k} == m - {k} - {j}
  {
  }

  /** The loop body `out[key] = append(out[key], v)`. */
  function Append<V>(m: map<Bytes, seq<V>>, k: Bytes, v: V): map<Bytes, seq<V>> {
    m[k := (if k in m then m[k] else []) + [v]]
  }

  lemma TotalAppend<V>(m: map<Bytes, seq<V>>, k: Bytes, v: V)
    ensures Total(Append(m, k, v)) == Total(m) + multiset{v}
  {
    hide Total;
    var n := Append(m, k, v);
    TotalWithout(n, k);
    assert n - {k} == m - {k};
    if k in m {
      TotalWithout(m, k);
    } else {
      assert m - {k} == m;
    }
  }

  // ---------------------------------------------------------------- rows

  /** The day is filled from `ts` where the table is partitioned by it and the row has none. */
  function Dated(r: Row, fill: bool): Row {
    if fill && DATE !in r && TS in r && r[TS].Time? then r[DATE := Day(r[TS].ns)] else r
  }

  /**
    The date is filled in only where the table asks for it, only where it is missing and there is a time, and
    it is the day of that time; every other column stays as it was.
    */
  lemma DatedIs(r: Row, fill: bool)
    ensures var d := Dated(r, fill);
            && d.Keys - {DATE} == r.Keys - {DATE}
            && (forall c :: c in r ==> c in d && d[c] == r[c])
            && (DATE in d <==> DATE in r || (fill && TS in r && r[TS].Time?))
            && (DATE in d && DATE !in r ==> d[DATE] == Day(r[TS].ns))
  {
  }

  function DatedRows(rows: seq<Row>, fill: bool): (ds: seq<Row>)
    ensures |ds| == |rows| && forall i :: 0 <= i < |rows| ==> ds[i] == Dated(rows[i], fill)
  {
    seq(|rows|, i requires 0 <= i < |rows| => Dated(rows[i], fill))
  }

  ghost predicate Named(r: Row) {
    Identifiers(r.Keys)
  }

  lemma DatedNamed(r: Row, fill: bool)
    requires Named(r)
    ensures Named(Dated(r, fill)) && Dated(r, fill).Keys <= r.Keys + {DATE}
    ensures !fill ==> Dated(r, fill) == r
  {
    assert Identifier(DATE);
  }

  /** A bucket holds rows of one column set, the one its signature stands for. */
  ghost predicate Bucket(sig: Bytes, rows: seq<Row>) {
    rows != [] && Named(rows[0]) && SignatureOf(rows[0].Keys, sig) && SameColumns(rows[0].Keys, rows)
  }

  ghost predicate Bucketed(buckets: map<Bytes, seq<Row>>) {
    forall sig :: sig in buckets ==> Bucket(sig, buckets[sig])
  }

  lemma BucketAppend(buckets: map<Bytes, seq<Row>>, sig: Bytes, r: Row)
    requires Bucketed(buckets) && Named(r) && SignatureOf(r.Keys, sig)
    ensures Bucketed(Append(buckets, sig, r))
  {
    hide SignatureOf, Named;
    if sig in buckets {
      assert Bucket(sig, buckets[sig]);
      SameNamed(r, buckets[sig][0], sig);
    }
    assert Bucket(sig, Append(buckets, sig, r)[sig]);
  }

  lemma SameNamed(r: Row, q: Row, sig: Bytes)
    requires Named(r) && Named(q) && SignatureOf(r.Keys, sig) && SignatureOf(q.Keys, sig)
    ensures r.Keys == q.Keys
  {
    SameSignatureIff(r.Keys, q.Keys, sig, sig);
  }

  /** The loop that buckets the rows by signature. */
  method Bucketize(rows: seq<Row>) returns (buckets: map<Bytes, seq<Row>>)
    requires forall i :: 0 <= i < |rows| ==> Named(rows[i])
    ensures Bucketed(buckets) && Total(buckets) == multiset(rows)
  {
    hide Bucketed, Total, Append, Named, SignatureOf;
    buckets := map[];
    NothingYet();
    assert rows[..0] == [];
    for i := 0 to |rows|
      invariant Bucketed(buckets) && Total(buckets) == multiset(rows[..i])
    {
      var sig := ColSignature(rows[i].Keys);
      BucketAppend(buckets, sig, rows[i]);
      TotalAppend(buckets, sig, rows[i]);
      assert rows[..i + 1] == rows[..i] + [rows[i]];
      buckets := Append(buckets, sig, rows[i]);
    }
    assert rows[..|rows|] == rows;
  }

  lemma NothingYet()
    ensures Bucketed(map[]) && Total<Row>(map[]) == multiset{}
  {
  }

  lemma AscendingDistinct(cols: seq<Name>)
    requires Ascending(cols)
    ensures Distinct(cols)
  {
    forall i, j | 0 <= i < j < |cols|
      ensures cols[i] != cols[j]
    {
      assert Less(cols[i], cols[j]);
      LessTotal(cols[i], cols[j]);
    }
  }

  // ---------------------------------------------------------------- the ingester

  function ColumnsOf(rows: seq<Row>): (cols: Columns)
    ensures forall i :: 0 <= i < |rows| ==> rows[i].Keys <= cols
  {
    if rows == [] then {} else rows[0].Keys + ColumnsOf(rows[1..])
  }

  class Ingester {
    const db: Lake
    const duckLake: bool
    var memo: Catalog
    var dateFill: set<Name>

    constructor (db: Lake, duckLake: bool)
      requires db.tables == map[]
      ensures this.db == db && this.duckLake == duckLake && Valid()
    {
      this.db, this.duckLake, memo, dateFill := db, duckLake, map[], {};
    }

    /** The memo is what the lake has; a table unknown to the ingester does not exist. */
    ghost predicate Valid()
      reads this, db
    {
      && (forall t :: t in memo <==> t in db.tables)
      && (forall t :: t in memo ==> memo[t] <= db.tables[t])
      && (forall t :: t in dateFill ==> t in memo && DATE in memo[t])
    }

    /** EnsureDatePartition: whether the writers must fill the day. */
    method EnsureDatePartition(table: Name) returns (fill: bool)
      requires table in db.tables
      modifies db`outcomes, db`tables
      ensures Grows(old(db.tables), db.tables) && db.tables.Keys == old(db.tables).Keys
      ensures fill ==> DATE in db.tables[table]
      ensures old(db.outcomes) == [] ==> db.outcomes == []
    {
      var usable := db.Answer();
      if !usable { return false; }
      if DATE !in db.tables[table] {
        var added := db.AddColumn(table, DATE);
        if !added { return false; }
      }
      var partitioned := db.Answer();
      fill := true;
    }

    /** The first half of ensureTable: a table seen for the first time. */
    method CreateFirst(table: Name, cols: Columns) returns (ok: bool)
      requires Valid() && table !in memo
      modifies this, db`outcomes, db`tables
      ensures Valid() && Grows(old(db.tables), db.tables) && Grows(old(memo), memo)
      ensures dateFill - {table} == old(dateFill) - {table}
      ensures ok ==> table in memo && cols <= memo[table]
      ensures old(db.outcomes) == [] ==> ok && db.outcomes == []
    {
      var all := cols + {TS} + (if duckLake then {DATE} else {});
      ok := db.CreateTable(table, all);
      if !ok { return; }
      memo := memo[table := all];
      if duckLake {
        var fill := EnsureDatePartition(table);
        if fill {
          dateFill := dateFill + {table};
          memo := memo[table := memo[table] + {DATE}];
        }
      }
    }

    /** The second half: the columns that are still missing, in the arbitrary order of a map. */
    method AddMissing(table: Name, cols: Columns) returns (ok: bool)
      requires Valid() && table in memo
      modifies this`memo, db`outcomes, db`tables
      ensures Valid() && Grows(old(db.tables), db.tables) && Grows(old(memo), memo)
      ensures ok ==> table in memo && cols <= memo[table]
      ensures old(db.outcomes) == [] ==> ok && db.outcomes == []
    {
      var missing := cols - memo[table];
      while missing != {}
        invariant Valid() && Grows(old(db.tables), db.tables) && Grows(old(memo), memo)
        invariant table in memo && cols <= memo[table] + missing
        invariant old(db.outcomes) == [] ==> db.outcomes == []
        decreases |missing|
      {
        var col :| col in missing;
        ok := db.AddColumn(table, col);
        if !ok { return; }
        memo := memo[table := memo[table] + {col}];
        missing := missing - {col};
      }
      ok := true;
    }

    /** ensureTable. */
    method EnsureTable(table: Name, cols: Columns) returns (ok: bool)
      requires Valid()
      modifies this, db`outcomes, db`tables
      ensures Valid() && Grows(old(db.tables), db.tables) && Grows(old(memo), memo)
      ensures dateFill - {table} == old(dateFill) - {table}
      ensures ok ==> table in memo && cols <= memo[table]
      ensures old(db.outcomes) == [] ==> ok && db.outcomes == []
    {
      hide Valid, Grows;
      if table !in memo {
        ok := CreateFirst(table, cols);
      } else {
        ok := AddMissing(table, cols);
      }
    }

    /** One statement of insertBucket. */
    method InsertChunk(table: Name, cols: seq<Name>, bucket: seq<Row>, start: nat, end: nat) returns (ok: bool)
      requires cols != [] && Distinct(cols) && SameColumns(Elements(cols), bucket)
      requires start <= end <= |bucket| && end - start <= CHUNK
      modifies db`outcomes, db`stored
      ensures db.stored == if ok then With(old(db.stored), table, bucket[start..end]) else old(db.stored)
      ensures old(db.outcomes) == [] && table in db.tables && Elements(cols) <= db.tables[table] ==>
              ok && db.outcomes == []
    {
      hide With, Unpack, Args, SameColumns, Distinct;
      var args := CollectArgs(cols, bucket[start..end]);
      ChunkBack(cols, bucket, start, end);
      ok := db.Insert(table, cols, args);
    }

    /**
      insertBucket: chunks of at most 500 rows. The count is right even when a statement fails: then
      a whole number of chunks has been stored.
      */
    method InsertBucket(table: Name, cols: seq<Name>, bucket: seq<Row>) returns (inserted: nat, ok: bool)
      requires cols != [] && Distinct(cols) && SameColumns(Elements(cols), bucket)
      modifies db`outcomes, db`stored
      ensures inserted <= |bucket| && (ok ==> inserted == |bucket|)
      ensures !ok ==> inserted < |bucket| && inserted % CHUNK == 0
      ensures db.stored == With(old(db.stored), table, bucket[..inserted])
      ensures old(db.outcomes) == [] && table in db.tables && Elements(cols) <= db.tables[table] ==>
              ok && db.outcomes == []
    {
      hide With, SameColumns, Distinct;
      inserted := 0;
      var start := 0;
      assert bucket[..0] == [];
      WithNone(old(db.stored), table);
      while start < |bucket|
        invariant inserted == if start < |bucket| then start else |bucket|
        invariant start % CHUNK == 0
        invariant db.stored == With(old(db.stored), table, bucket[..inserted])
        invariant old(db.outcomes) == [] && table in db.tables && Elements(cols) <= db.tables[table] ==>
                  db.outcomes == []
        decreases |bucket| - start
      {
        var end := if start + CHUNK > |bucket| then |bucket| else start + CHUNK;
        ok := InsertChunk(table, cols, bucket, start, end);
        if !ok { return; }
        WithMore(old(db.stored), table, bucket[..start], bucket[start..end]);
        assert bucket[..start] + bucket[start..end] == bucket[..end];
        inserted := inserted + (end - start);
        start := start + CHUNK;
      }
      ok := true;
    }

    /** One bucket, with its sorted columns. */
    method WriteBucket(table: Name, bucket: seq<Row>) returns (inserted: nat, ok: bool)
      requires bucket != [] && bucket[0].Keys != {} && SameColumns(bucket[0].Keys, bucket)
      modifies db`outcomes, db`stored
      ensures inserted <= |bucket| && (ok ==> inserted == |bucket|)
      ensures db.stored == With(old(db.stored), table, bucket[..inserted])
      ensures old(db.outcomes) == [] && table in db.tables && bucket[0].Keys <= db.tables[table] ==>
              ok && db.outcomes == []
    {
      hide With, SameColumns, Ascending;
      var cols := SortedKeys(bucket[0].Keys);
      AscendingDistinct(cols);
      EmptyElements(cols);
      inserted, ok := InsertBucket(table, cols, bucket);
    }

    /** The loop of writeRows over the buckets, in the arbitrary order of a map. */
    method WriteBuckets(table: Name, groups: map<Bytes, seq<Row>>, ghost all: multiset<Row>)
      returns (inserted: nat, ok: bool, ghost written: seq<Row>)
      requires Bucketed(groups) && Total(groups) == all
      requires table in db.tables && Fit(all, db.tables[table])
      modifies db`outcomes, db`stored
      ensures db.stored == With(old(db.stored), table, written) && inserted == |written|
      ensures multiset(written) <= all && (ok ==> multiset(written) == all)
      ensures old(db.outcomes) == [] ==> ok && db.outcomes == []
    {
      hide Bucketed, Total, Bucket, With, SameColumns, Fit;
      ghost var known := db.tables[table];
      written := [];
      inserted := 0;
      WithNone(old(db.stored), table);
      var buckets := groups;
      while buckets != map[]
        invariant Bucketed(buckets) && multiset(written) + Total(buckets) == all
        invariant db.stored == With(old(db.stored), table, written) && inserted == |written|
        invariant old(db.outcomes) == [] ==> db.outcomes == []
        decreases |buckets|
      {
        var sig :| sig in buckets.Keys;
        var bucket := buckets[sig];
        TakeBucket(buckets, sig);
        OneOf(bucket, multiset(written), Total(buckets - {sig}), all, known);
        var n: nat;
        n, ok := WriteBucket(table, bucket);
        WithMore(old(db.stored), table, written, bucket[..n]);
        Progress(written, bucket, n, Total(buckets - {sig}), all);
        written := written + bucket[..n];
        inserted := inserted + n;
        if !ok { return; }
        buckets := buckets - {sig};
      }
      NothingYet();
      ok := true;
    }

    /** What writeRows does before it writes: the table is made ready and the rows are dated. */
    method Prepare(table: Name, rows: seq<Row>) returns (ok: bool, dated: seq<Row>)
      requires Valid() && forall i :: 0 <= i < |rows| ==> Named(rows[i])
      modifies this, db`outcomes, db`tables
      ensures Valid() && dated == DatedRows(rows, table in dateFill)
      ensures dateFill - {table} == old(dateFill) - {table}
      ensures ok ==> table in db.tables &&
                     forall i :: 0 <= i < |dated| ==> Named(dated[i]) && dated[i].Keys <= db.tables[table]
      ensures old(db.outcomes) == [] ==> ok && db.outcomes == []
    {
      hide Named, Dated, Grows;
      ok := EnsureTable(table, ColumnsOf(rows));
      dated := DatedRows(rows, table in dateFill);
      if ok {
        assert memo[table] <= db.tables[table];
        forall i | 0 <= i < |dated|
          ensures Named(dated[i]) && dated[i].Keys <= db.tables[table]
        {
          DatedNamed(rows[i], table in dateFill);
        }
      }
    }

    /**
      writeRows: as a multiset, the rows stored are the rows given, dated where the table asks for
      it; after an error they are a part of them, and the count is theirs.
      */
    method WriteRows(table: Name, rows: seq<Row>) returns (inserted: nat, ok: bool, ghost written: seq<Row>)
      requires Valid() && forall i :: 0 <= i < |rows| ==> Named(rows[i])
      modifies this, db
      ensures Valid() && dateFill - {table} == old(dateFill) - {table}
      ensures db.stored == With(old(db.stored), table, written) && inserted == |written|
      ensures multiset(written) <= multiset(DatedRows(rows, table in dateFill))
      ensures ok ==> multiset(written) == multiset(DatedRows(rows, table in dateFill)) && inserted == |rows|
      ensures old(db.outcomes) == [] ==> ok && db.outcomes == []
    {
      hide Named, Total, Bucketed, DatedRows, With, Fit;
      written, inserted := [], 0;
      WithNone(old(db.stored), table);
      if rows == [] {
        ok := true;
        return;
      }
      var dated: seq<Row>;
      ok, dated := Prepare(table, rows);
      if !ok { return; }
      var buckets := Bucketize(dated);
      FitAll(dated, db.tables[table]);
      inserted, ok, written := WriteBuckets(table, buckets, multiset(dated));
      if ok { SameSize(written, dated); }
    }
  }

  lemma TakeBucket(buckets: map<Bytes, seq<Row>>, sig: Bytes)
    requires Bucketed(buckets) && sig in buckets
    ensures Total(buckets) == multiset(buckets[sig]) + Total(buckets - {sig})
    ensures Bucketed(buckets - {sig}) && |buckets - {sig}| < |buckets|
    ensures buckets[sig] != [] && buckets[sig][0].Keys != {} && SameColumns(buckets[sig][0].Keys, buckets[sig])
  {
    TotalWithout(buckets, sig);
    assert Bucket(sig, buckets[sig]);
    assert (buckets - {sig}).Keys == buckets.Keys - {sig};
  }

  /** All rows have columns from `cols` only. */
  ghost predicate Fit(rows: multiset<Row>, cols: Columns) {
    forall r :: r in rows ==> r.Keys <= cols
  }

  lemma FitAll(rows: seq<Row>, cols: Columns)
    requires forall i :: 0 <= i < |rows| ==> rows[i].Keys <= cols
    ensures Fit(multiset(rows), cols)
  {
    forall r | r in multiset(rows)
      ensures r.Keys <= cols
    {
      assert r in rows;
    }
  }

  lemma OneOf(bucket: seq<Row>, written: multiset<Row>, rest: multiset<Row>, all: multiset<Row>,
              cols: Columns)
    requires bucket != [] && written + (multiset(bucket) + rest) == all && Fit(all, cols)
    ensures bucket[0].Keys <= cols
  {
    assert bucket[0] in multiset(bucket);
  }

  lemma Progress(written: seq<Row>, bucket: seq<Row>, n: nat, rest: multiset<Row>, all: multiset<Row>)
    requires n <= |bucket| && multiset(written) + (multiset(bucket) + rest) == all
    ensures multiset(written + bucket[..n]) <= all
    ensures n == |bucket| ==> multiset(written + bucket[..n]) + rest == all
  {
    assert bucket == bucket[..n] + bucket[n..];
    assert multiset(bucket) == multiset(bucket[..n]) + multiset(bucket[n..]);
  }

  lemma SameSize(a: seq<Row>, b: seq<Row>)
    requires multiset(a) == multiset(b)
    ensures |a| == |b|
  {
    assert |multiset(a)| == |multiset(b)|;
  }
}
