/**
  From parsed points to stored rows (Ingest and groupByTable, src/lineprotoreceiver/ingest.go): each
  point becomes one row of one table, and the rows are written table by table.
  */
module IngestPoints {
  import opened Octets
  import opened LineProtocol
  import opened Ident
  import opened Catalogs
  import opened Statements
  import opened Ingest

  /** Where the points go: lake name, optional schema, table prefix. */
  datatype Target = Target(lake: Bytes, schema: Bytes, prefix: Bytes)

  /** The qualified name of the table of a point. */
  function TableOf(p: Point, to: Target): Name {
    to.lake + [DOT] + (if to.schema == [] then [] else to.schema + [DOT]) + to.prefix + Sanitized(p.measurement)
  }

  /** The parts of a qualified name, with dots between them. */
  function TableNamed(to: Target, name: Name): Name {
    Join((if to.schema == [] then [to.lake] else [to.lake, to.schema]) + [to.prefix + name], [DOT])
  }

  /** Every point goes to the table named after its measurement; points share one when their measurements do. */
  lemma OwnTable(p: Point, q: Point, to: Target)
    ensures TableOf(p, to) == TableNamed(to, Sanitized(p.measurement))
    ensures Identifier(p.measurement) ==> TableOf(p, to) == TableNamed(to, p.measurement)
    ensures TableOf(p, to) == TableOf(q, to) <==> Sanitized(p.measurement) == Sanitized(q.measurement)
  {
    hide Identifier, Sanitized;
    TableText(p, to);
    TableText(q, to);
    SanitizedIff(p.measurement);
    var front := if to.schema == [] then to.lake + [DOT] else to.lake + [DOT] + to.schema + [DOT];
    CancelLeft(front + to.prefix, Sanitized(p.measurement), Sanitized(q.measurement));
  }

  lemma TableText(p: Point, to: Target)
    ensures var front := if to.schema == [] then to.lake + [DOT] else to.lake + [DOT] + to.schema + [DOT];
            TableOf(p, to) == TableNamed(to, Sanitized(p.measurement)) == front + to.prefix + Sanitized(p.measurement)
  {
    hide Sanitized, Join;
    var name := Sanitized(p.measurement);
    var last := to.prefix + name;
    if to.schema == [] {
      assert [to.lake] + [last] == [to.lake, last];
      JoinTwo(to.lake, last);
      assert to.lake + [DOT] + [] == to.lake + [DOT];
      Assoc(to.lake + [DOT], to.prefix, name);
    } else {
      assert [to.lake, to.schema] + [last] == [to.lake, to.schema, last];
      JoinThree(to.lake, to.schema, last);
      assert to.lake + [DOT] + (to.schema + [DOT]) == to.lake + [DOT] + to.schema + [DOT];
      Assoc(to.lake + [DOT] + to.schema + [DOT], to.prefix, name);
    }
  }

  lemma JoinTwo(a: Bytes, b: Bytes)
    ensures Join([a, b], [DOT]) == a + [DOT] + b
  {
    assert [a, b][1..] == [b];
  }

  lemma JoinThree(a: Bytes, b: Bytes, c: Bytes)
    ensures Join([a, b, c], [DOT]) == a + [DOT] + b + [DOT] + c
  {
    JoinTwo(b, c);
    assert [a, b, c][1..] == [b, c];
    Assoc(a + [DOT], b + [DOT], c);
    Assoc(a + [DOT], b, [DOT]);
  }

  function Names(keys: set<Bytes>): set<Name> {
    set k | k in keys :: Sanitized(k)
  }

  lemma NamesMore(keys: set<Bytes>, k: Bytes)
    ensures Names(keys + {k}) == Names(keys) + {Sanitized(k)}
  {
  }

  /** The cell is the value of one of the fields of that name. */
  ghost predicate FieldCell(p: Point, c: Name, cell: Cell) {
    exists f :: f in p.fields && Sanitized(f) == c && cell == Data(p.fields[f])
  }

  ghost predicate TagCell(p: Point, c: Name, cell: Cell) {
    exists t :: t in p.tags && Sanitized(t) == c && cell == Data(Text(p.tags[t]))
  }

  /** A row is right for its point: fields override tags, and `ts` is always the time. */
  ghost predicate RowOf(p: Point, r: Row, now: int) {
    && r.Keys == Names(p.tags.Keys) + Names(p.fields.Keys) + {TS}
    && r[TS] == Time(if p.ts == 0 then now else p.ts)
    && forall c :: c in r && c != TS ==>
         if c in Names(p.fields.Keys) then FieldCell(p, c, r[c]) else TagCell(p, c, r[c])
  }

  /** The body of groupByTable: the maps are walked in arbitrary order. */
  method MakeRow(p: Point, now: int) returns (row: Row)
    ensures RowOf(p, row, now)
  {
    row := TagCells(p);
    row := FieldCells(p, row);
    row := row[TS := Time(if p.ts == 0 then now else p.ts)];
  }

  method TagCells(p: Point) returns (row: Row)
    ensures row.Keys == Names(p.tags.Keys)
    ensures forall c :: c in row ==> TagCell(p, c, row[c])
  {
    row := map[];
    var done: set<Bytes> := {};
    var rest := p.tags.Keys;
    while rest != {}
      invariant done + rest == p.tags.Keys && row.Keys == Names(done)
      invariant forall c :: c in row ==> TagCell(p, c, row[c])
      decreases |rest|
    {
      hide TagCell;
      var k :| k in rest;
      NamesMore(done, k);
      IsTagCell(p, k);
      row := row[Sanitized(k) := Data(Text(p.tags[k]))];
      done, rest := done + {k}, rest - {k};
    }
  }

  lemma IsTagCell(p: Point, k: Bytes)
    requires k in p.tags
    ensures TagCell(p, Sanitized(k), Data(Text(p.tags[k])))
  {
  }

  method FieldCells(p: Point, tags: Row) returns (row: Row)
    ensures row.Keys == tags.Keys + Names(p.fields.Keys)
    ensures forall c :: c in row ==>
              if c in Names(p.fields.Keys) then FieldCell(p, c, row[c]) else c in tags && row[c] == tags[c]
  {
    row := tags;
    var done: set<Bytes> := {};
    var rest := p.fields.Keys;
    while rest != {}
      invariant done + rest == p.fields.Keys && row.Keys == tags.Keys + Names(done)
      invariant forall c :: c in row ==>
                  if c in Names(done) then FieldCell(p, c, row[c]) else c in tags && row[c] == tags[c]
      decreases |rest|
    {
      hide FieldCell;
      var k :| k in rest;
      NamesMore(done, k);
      IsFieldCell(p, k);
      row := row[Sanitized(k) := Data(p.fields[k])];
      done, rest := done + {k}, rest - {k};
    }
  }

  lemma IsFieldCell(p: Point, k: Bytes)
    requires k in p.fields
    ensures FieldCell(p, Sanitized(k), Data(p.fields[k]))
  {
  }

  lemma RowNamed(p: Point, r: Row, now: int)
    requires RowOf(p, r, now)
    ensures Named(r)
  {
    assert Identifier(TS) && TS in r.Keys;
    forall c | c in r.Keys
      ensures Identifier(c)
    {
      if c in Names(p.tags.Keys) {
        var k :| k in p.tags.Keys && Sanitized(k) == c;
        SanitizedIff(k);
      } else if c in Names(p.fields.Keys) {
        var k :| k in p.fields.Keys && Sanitized(k) == c;
        SanitizedIff(k);
      }
    }
  }

  // ---------------------------------------------------------------- grouping

  /** The rows of one table, in the order of their points. */
  function Select(pts: seq<Point>, rows: seq<Row>, table: Name, to: Target): seq<Row>
    requires |rows| == |pts|
  {
    if pts == [] then []
    else
      var n := |pts| - 1;
      Select(pts[..n], rows[..n], table, to) + (if TableOf(pts[n], to) == table then [rows[n]] else [])
  }

  ghost predicate RowsOf(pts: seq<Point>, rows: seq<Row>, now: int) {
    |rows| == |pts| && forall i :: 0 <= i < |pts| ==> RowOf(pts[i], rows[i], now)
  }

  /** Every table has its own rows, in order, and no other. */
  ghost predicate Grouped(groups: map<Name, seq<Row>>, pts: seq<Point>, rows: seq<Row>, to: Target)
    requires |rows| == |pts|
  {
    && (forall t :: t in groups ==> groups[t] == Select(pts, rows, t, to))
    && (forall i :: 0 <= i < |pts| ==> TableOf(pts[i], to) in groups)
  }

  lemma SelectMore(pts: seq<Point>, rows: seq<Row>, p: Point, r: Row, table: Name, to: Target)
    requires |rows| == |pts|
    ensures Select(pts + [p], rows + [r], table, to) ==
            Select(pts, rows, table, to) + (if TableOf(p, to) == table then [r] else [])
  {
    assert (pts + [p])[..|pts|] == pts && (rows + [r])[..|pts|] == rows;
  }

  lemma {:induction false} SelectNone(pts: seq<Point>, rows: seq<Row>, table: Name, to: Target)
    requires |rows| == |pts| && forall i :: 0 <= i < |pts| ==> TableOf(pts[i], to) != table
    ensures Select(pts, rows, table, to) == []
  {
    if pts == [] {
    } else {
      SelectNone(pts[..|pts| - 1], rows[..|pts| - 1], table, to);
    }
  }

  lemma GroupedMore(groups: map<Name, seq<Row>>, pts: seq<Point>, rows: seq<Row>, p: Point, r: Row, to: Target)
    requires |rows| == |pts| && Grouped(groups, pts, rows, to)
    requires forall t :: t in groups ==> exists i :: 0 <= i < |pts| && TableOf(pts[i], to) == t
    ensures Grouped(Append(groups, TableOf(p, to), r), pts + [p], rows + [r], to)
  {
    hide Select, TableOf;
    var t := TableOf(p, to);
    var after := Append(groups, t, r);
    if t !in groups { SelectNone(pts, rows, t, to); }
    forall u | u in after
      ensures after[u] == Select(pts + [p], rows + [r], u, to)
    {
      SelectMore(pts, rows, p, r, u, to);
    }
    forall i | 0 <= i < |pts + [p]|
      ensures TableOf((pts + [p])[i], to) in after
    {
      if i < |pts| { assert (pts + [p])[i] == pts[i]; }
    }
  }

  ghost predicate FromPoints(groups: map<Name, seq<Row>>, pts: seq<Point>, to: Target) {
    forall t :: t in groups ==> exists i :: 0 <= i < |pts| && TableOf(pts[i], to) == t
  }

  lemma FromMore(groups: map<Name, seq<Row>>, pts: seq<Point>, p: Point, r: Row, to: Target)
    requires FromPoints(groups, pts, to)
    ensures FromPoints(Append(groups, TableOf(p, to), r), pts + [p], to)
  {
    var after := Append(groups, TableOf(p, to), r);
    forall t | t in after
      ensures exists i :: 0 <= i < |pts + [p]| && TableOf((pts + [p])[i], to) == t
    {
      if t == TableOf(p, to) {
        assert (pts + [p])[|pts|] == p;
      } else {
        var i :| 0 <= i < |pts| && TableOf(pts[i], to) == t;
        assert (pts + [p])[i] == pts[i];
      }
    }
  }

  lemma RowsMore(pts: seq<Point>, rows: seq<Row>, p: Point, r: Row, now: int)
    requires RowsOf(pts, rows, now) && RowOf(p, r, now)
    ensures RowsOf(pts + [p], rows + [r], now)
  {
  }

  lemma NoPoints(to: Target, now: int)
    ensures RowsOf([], [], now) && Grouped(map[], [], [], to) && FromPoints(map[], [], to)
    ensures Total<Row>(map[]) == multiset{}
  {
  }

  /** One row for every point, in the group of its table, and no other. */
  ghost predicate GroupsOf(groups: map<Name, seq<Row>>, pts: seq<Point>, to: Target, now: int) {
    exists rows ::
      RowsOf(pts, rows, now) && Grouped(groups, pts, rows, to) && Total(groups) == multiset(rows)
  }

  /** groupByTable. */
  method GroupByTable(pts: seq<Point>, to: Target, now: int) returns (groups: map<Name, seq<Row>>)
    ensures GroupsOf(groups, pts, to, now)
  {
    hide RowsOf, RowOf, Grouped, FromPoints, Total, Append, TableOf;
    ghost var rows: seq<Row> := [];
    groups := map[];
    NoPoints(to, now);
    assert pts[..0] == [];
    for i := 0 to |pts|
      invariant |rows| == i && RowsOf(pts[..i], rows, now)
      invariant Grouped(groups, pts[..i], rows, to) && FromPoints(groups, pts[..i], to)
      invariant Total(groups) == multiset(rows)
    {
      var p := pts[i];
      var r := MakeRow(p, now);
      RowsMore(pts[..i], rows, p, r, now);
      FromIsKnown(groups, pts[..i], to);
      GroupedMore(groups, pts[..i], rows, p, r, to);
      FromMore(groups, pts[..i], p, r, to);
      TotalAppend(groups, TableOf(p, to), r);
      assert pts[..i + 1] == pts[..i] + [p];
      groups := Append(groups, TableOf(p, to), r);
      rows := rows + [r];
    }
    assert pts[..|pts|] == pts;
  }

  lemma FromIsKnown(groups: map<Name, seq<Row>>, pts: seq<Point>, to: Target)
    requires FromPoints(groups, pts, to)
    ensures forall t :: t in groups ==> exists i :: 0 <= i < |pts| && TableOf(pts[i], to) == t
  {
  }

  // ---------------------------------------------------------------- writing the groups

  ghost predicate AllNamed(rows: multiset<Row>) {
    forall r :: r in rows ==> Named(r)
  }

  lemma RowsNamed(pts: seq<Point>, rows: seq<Row>, now: int)
    requires RowsOf(pts, rows, now)
    ensures AllNamed(multiset(rows))
  {
    hide RowOf, Named;
    forall r | r in multiset(rows)
      ensures Named(r)
    {
      var i :| 0 <= i < |rows| && rows[i] == r;
      RowNamed(pts[i], r, now);
    }
  }

  lemma TakeGroup(groups: map<Name, seq<Row>>, t: Name)
    requires t in groups && AllNamed(Total(groups))
    ensures forall i :: 0 <= i < |groups[t]| ==> Named(groups[t][i])
    ensures AllNamed(Total(groups - {t}))
    ensures |Total(groups)| == |groups[t]| + |Total(groups - {t})|
  {
    hide Total, Named;
    TotalWithout(groups, t);
    assert (groups - {t}).Keys == groups.Keys - {t};
    forall i | 0 <= i < |groups[t]|
      ensures Named(groups[t][i])
    {
      assert groups[t][i] in multiset(groups[t]);
    }
  }

  /** The rows before are untouched, and `n` more are stored. */
  ghost predicate Stored(before: seq<(Name, Row)>, after: seq<(Name, Row)>, n: nat) {
    |after| == |before| + n && after[..|before|] == before
  }

  lemma StoredWith(stored: seq<(Name, Row)>, t: Name, rows: seq<Row>)
    ensures Stored(stored, With(stored, t, rows), |rows|)
  {
  }

  lemma StoredMore(a: seq<(Name, Row)>, b: seq<(Name, Row)>, c: seq<(Name, Row)>, n: nat, m: nat)
    requires Stored(a, b, n) && Stored(b, c, m)
    ensures Stored(a, c, n + m)
  {
    assert c[..|a|] == b[..|a|];
  }

  /** The rows of one table, in the order in which they were stored. */
  function RowsAt(stored: seq<(Name, Row)>, t: Name): seq<Row> {
    if stored == [] then []
    else
      var n := |stored| - 1;
      RowsAt(stored[..n], t) + (if stored[n].0 == t then [stored[n].1] else [])
  }

  lemma {:induction false} RowsAtWith(stored: seq<(Name, Row)>, u: Name, rows: seq<Row>, t: Name)
    ensures RowsAt(With(stored, u, rows), t) == RowsAt(stored, t) + (if u == t then rows else [])
  {
    if rows == [] {
      WithNone(stored, u);
    } else {
      var n := |rows| - 1;
      var after := With(stored, u, rows);
      assert after[..|after| - 1] == With(stored, u, rows[..n]);
      RowsAtWith(stored, u, rows[..n], t);
      assert rows == rows[..n] + [rows[n]];
    }
  }

  /** The rows a table is to receive, dated where it asks for it. */
  function Due(groups: map<Name, seq<Row>>, fill: set<Name>, t: Name): seq<Row> {
    if t in groups then DatedRows(groups[t], t in fill) else []
  }

  /** Every table has received its rows and no other. */
  ghost predicate Received(before: seq<(Name, Row)>, after: seq<(Name, Row)>, groups: map<Name, seq<Row>>,
                           fill: set<Name>)
  {
    forall t ::
      multiset(RowsAt(after, t)) == multiset(RowsAt(before, t)) + multiset(Due(groups, fill, t))
  }

  /** Every table has received some of its rows and no other. */
  ghost predicate ReceivedPart(before: seq<(Name, Row)>, after: seq<(Name, Row)>,
                               groups: map<Name, seq<Row>>, fill: set<Name>)
  {
    forall t ::
      multiset(RowsAt(after, t)) <= multiset(RowsAt(before, t)) + multiset(Due(groups, fill, t))
  }

  lemma ReceivedMore(before: seq<(Name, Row)>, mid: seq<(Name, Row)>, groups: map<Name, seq<Row>>,
                     was: set<Name>, fill: set<Name>, u: Name, rows: seq<Row>, written: seq<Row>)
    requires Received(before, mid, groups, was) && u !in groups && fill - {u} == was - {u}
    requires multiset(written) <= multiset(DatedRows(rows, u in fill))
    ensures ReceivedPart(before, With(mid, u, written), groups[u := rows], fill)
    ensures multiset(written) == multiset(DatedRows(rows, u in fill)) ==>
              Received(before, With(mid, u, written), groups[u := rows], fill)
  {
    hide With, RowsAt, Due, DatedRows;
    var after := With(mid, u, written);
    forall t
      ensures multiset(RowsAt(after, t)) == multiset(RowsAt(mid, t)) + if u == t then multiset(written) else multiset{}
      ensures t != u ==> Due(groups[u := rows], fill, t) == Due(groups, was, t)
    {
      RowsAtWith(mid, u, written, t);
      DueMore(groups, was, fill, u, rows, t);
    }
    DueMore(groups, was, fill, u, rows, u);
  }

  lemma DueMore(groups: map<Name, seq<Row>>, was: set<Name>, fill: set<Name>, u: Name, rows: seq<Row>, t: Name)
    requires u !in groups && fill - {u} == was - {u}
    ensures t != u ==> Due(groups[u := rows], fill, t) == Due(groups, was, t)
    ensures t == u ==> Due(groups[u := rows], fill, t) == DatedRows(rows, u in fill) && Due(groups, was, t) == []
  {
    hide DatedRows;
    if t != u { assert t in fill - {u} <==> t in was - {u}; }
  }

  /** The groups written and those still to come. */
  ghost predicate Parted(all: map<Name, seq<Row>>, done: map<Name, seq<Row>>, rest: map<Name, seq<Row>>) {
    all == done + rest && done.Keys !! rest.Keys
  }

  lemma PartedMore(all: map<Name, seq<Row>>, done: map<Name, seq<Row>>, rest: map<Name, seq<Row>>, t: Name)
    requires Parted(all, done, rest) && t in rest
    ensures t !in done && Parted(all, done[t := rest[t]], rest - {t})
  {
  }

  /** What the groups still to come are owed may be added. */
  lemma PartOfMore(before: seq<(Name, Row)>, after: seq<(Name, Row)>, all: map<Name, seq<Row>>,
                   done: map<Name, seq<Row>>, rest: map<Name, seq<Row>>, fill: set<Name>)
    requires ReceivedPart(before, after, done, fill) && Parted(all, done, rest)
    ensures ReceivedPart(before, after, all, fill)
  {
    hide RowsAt;
    forall t
      ensures multiset(RowsAt(after, t)) <= multiset(RowsAt(before, t)) + multiset(Due(all, fill, t))
    {
      assert multiset(Due(done, fill, t)) <= multiset(Due(all, fill, t));
    }
  }

  /** One table: it joins those that have received their rows. */
  method WriteGroup(to: Ingester, t: Name, rows: seq<Row>, ghost start: seq<(Name, Row)>,
                    ghost done: map<Name, seq<Row>>)
    returns (n: nat, ok: bool)
    requires to.Valid() && t !in done && forall i :: 0 <= i < |rows| ==> Named(rows[i])
    requires Received(start, to.db.stored, done, to.dateFill)
    modifies to, to.db
    ensures to.Valid() && Stored(old(to.db.stored), to.db.stored, n)
    ensures ReceivedPart(start, to.db.stored, done[t := rows], to.dateFill)
    ensures ok ==> n == |rows| && Received(start, to.db.stored, done[t := rows], to.dateFill)
    ensures old(to.db.outcomes) == [] ==> ok && to.db.outcomes == []
  {
    hide *;
    ghost var before, was := to.db.stored, to.dateFill;
    ghost var written: seq<Row>;
    n, ok, written := to.WriteRows(t, rows);
    StoredWith(before, t, written);
    ReceivedMore(start, before, done, was, to.dateFill, t, rows, written);
  }

  /** Between two tables: what is done has been received and counted. */
  ghost predicate Midway(start: seq<(Name, Row)>, now: seq<(Name, Row)>, fill: set<Name>, total: nat,
                         all: map<Name, seq<Row>>, done: map<Name, seq<Row>>, rest: map<Name, seq<Row>>)
  {
    && Parted(all, done, rest) && Received(start, now, done, fill)
    && Stored(start, now, total)
    && AllNamed(Total(rest)) && total + |Total(rest)| == |Total(all)|
  }

  lemma MidwayFirst(start: seq<(Name, Row)>, fill: set<Name>, all: map<Name, seq<Row>>)
    requires AllNamed(Total(all))
    ensures Midway(start, start, fill, 0, all, map[], all)
  {
    hide AllNamed, Total, RowsAt;
  }

  lemma MidwayNext(start: seq<(Name, Row)>, now: seq<(Name, Row)>, fill: set<Name>, total: nat,
                   all: map<Name, seq<Row>>, done: map<Name, seq<Row>>, rest: map<Name, seq<Row>>, t: Name)
    requires Midway(start, now, fill, total, all, done, rest) && t in rest
    ensures t !in done && Received(start, now, done, fill)
    ensures forall i :: 0 <= i < |rest[t]| ==> Named(rest[t][i])
  {
    hide Received, Stored, AllNamed, Total, Named;
    TakeGroup(rest, t);
  }

  lemma MidwayMore(start: seq<(Name, Row)>, mid: seq<(Name, Row)>, now: seq<(Name, Row)>, was: set<Name>,
                   fill: set<Name>, total: nat, n: nat, all: map<Name, seq<Row>>, done: map<Name, seq<Row>>,
                   rest: map<Name, seq<Row>>, t: Name)
    requires Midway(start, mid, was, total, all, done, rest) && t in rest && Stored(mid, now, n)
    ensures Stored(start, now, total + n)
    ensures ReceivedPart(start, now, done[t := rest[t]], fill) ==> ReceivedPart(start, now, all, fill)
    ensures n == |rest[t]| && Received(start, now, done[t := rest[t]], fill) ==>
              Midway(start, now, fill, total + n, all, done[t := rest[t]], rest - {t})
  {
    hide Received, ReceivedPart, Stored, AllNamed, Total, Named, Parted;
    StoredMore(start, mid, now, total, n);
    TakeGroup(rest, t);
    PartedMore(all, done, rest, t);
    if ReceivedPart(start, now, done[t := rest[t]], fill) {
      PartOfMore(start, now, all, done[t := rest[t]], rest - {t}, fill);
    }
  }

  lemma MidwayLast(start: seq<(Name, Row)>, now: seq<(Name, Row)>, fill: set<Name>, total: nat,
                   all: map<Name, seq<Row>>, done: map<Name, seq<Row>>)
    requires Midway(start, now, fill, total, all, done, map[])
    ensures Stored(start, now, total) && total == |Total(all)|
    ensures Received(start, now, all, fill) && ReceivedPart(start, now, all, fill)
  {
    hide RowsAt, Due, Stored, AllNamed;
    assert done == all;
  }

  /** The loop over the tables, in the arbitrary order of a map. */
  method WriteGroups(to: Ingester, all: map<Name, seq<Row>>) returns (total: nat, ok: bool)
    requires to.Valid() && AllNamed(Total(all))
    modifies to, to.db
    ensures to.Valid() && Stored(old(to.db.stored), to.db.stored, total)
    ensures ReceivedPart(old(to.db.stored), to.db.stored, all, to.dateFill)
    ensures ok ==> total == |Total(all)| && Received(old(to.db.stored), to.db.stored, all, to.dateFill)
    ensures old(to.db.outcomes) == [] ==> ok
  {
    hide *;
    total := 0;
    ghost var start := to.db.stored;
    ghost var done: map<Name, seq<Row>> := map[];
    MidwayFirst(start, to.dateFill, all);
    var groups := all;
    while groups != map[]
      invariant to.Valid() && Midway(start, to.db.stored, to.dateFill, total, all, done, groups)
      invariant old(to.db.outcomes) == [] ==> to.db.outcomes == []
      decreases groups.Keys
    {
      var t :| t in groups.Keys;
      MidwayNext(start, to.db.stored, to.dateFill, total, all, done, groups, t);
      ghost var before, was := to.db.stored, to.dateFill;
      var n: nat;
      n, ok := WriteGroup(to, t, groups[t], start, done);
      MidwayMore(start, before, to.db.stored, was, to.dateFill, total, n, all, done, groups, t);
      total := total + n;
      if !ok { return; }
      Fewer(groups, t);
      done, groups := done[t := groups[t]], groups - {t};
    }
    MidwayLast(start, to.db.stored, to.dateFill, total, all, done);
    ok := true;
  }

  /** What a table receives from the rows of the points: its own rows, dated where it asks for it. */
  ghost predicate Delivered(before: seq<(Name, Row)>, after: seq<(Name, Row)>, pts: seq<Point>,
                            rows: seq<Row>, to: Target, fill: set<Name>)
    requires |rows| == |pts|
  {
    forall t ::
      multiset(RowsAt(after, t)) ==
      multiset(RowsAt(before, t)) + multiset(DatedRows(Select(pts, rows, t, to), t in fill))
  }

  ghost predicate DeliveredPart(before: seq<(Name, Row)>, after: seq<(Name, Row)>, pts: seq<Point>,
                                rows: seq<Row>, to: Target, fill: set<Name>)
    requires |rows| == |pts|
  {
    forall t ::
      multiset(RowsAt(after, t)) <=
      multiset(RowsAt(before, t)) + multiset(DatedRows(Select(pts, rows, t, to), t in fill))
  }

  lemma GroupsDeliver(before: seq<(Name, Row)>, after: seq<(Name, Row)>, groups: map<Name, seq<Row>>,
                      pts: seq<Point>, rows: seq<Row>, to: Target, fill: set<Name>)
    requires |rows| == |pts| && Grouped(groups, pts, rows, to)
    ensures ReceivedPart(before, after, groups, fill) ==> DeliveredPart(before, after, pts, rows, to, fill)
    ensures Received(before, after, groups, fill) ==> Delivered(before, after, pts, rows, to, fill)
  {
    hide RowsAt, Select, TableOf;
    forall t
      ensures Due(groups, fill, t) == DatedRows(Select(pts, rows, t, to), t in fill)
    {
      if t !in groups { SelectNone(pts, rows, t, to); }
    }
  }

  /** The rows of the points of one measurement, in their order. */
  function OfMeasurement(pts: seq<Point>, rows: seq<Row>, name: Name): seq<Row>
    requires |rows| == |pts|
  {
    if pts == [] then []
    else
      var n := |pts| - 1;
      OfMeasurement(pts[..n], rows[..n], name) + (if Sanitized(pts[n].measurement) == name then [rows[n]] else [])
  }

  lemma {:induction false} SelectIs(pts: seq<Point>, rows: seq<Row>, name: Name, to: Target)
    requires |rows| == |pts| && Identifier(name)
    ensures Select(pts, rows, TableNamed(to, name), to) == OfMeasurement(pts, rows, name)
  {
    hide TableNamed, TableOf, Sanitized, Identifier;
    if pts != [] {
      var n := |pts| - 1;
      SelectIs(pts[..n], rows[..n], name, to);
      SanitizedIff(name);
      var p := pts[n].(measurement := name);
      OwnTable(p, pts[n], to);
    }
  }

  /** The same, measurement by measurement: the table of a measurement receives the rows of its points. */
  ghost predicate DeliveredByName(before: seq<(Name, Row)>, after: seq<(Name, Row)>, pts: seq<Point>,
                                  rows: seq<Row>, to: Target, fill: set<Name>)
    requires |rows| == |pts|
  {
    forall name :: Identifier(name) ==>
      var t := TableNamed(to, name);
      multiset(RowsAt(after, t)) ==
      multiset(RowsAt(before, t)) + multiset(DatedRows(OfMeasurement(pts, rows, name), t in fill))
  }

  lemma MeasurementDelivered(before: seq<(Name, Row)>, after: seq<(Name, Row)>, pts: seq<Point>, rows: seq<Row>,
                             to: Target, fill: set<Name>)
    requires |rows| == |pts| && Delivered(before, after, pts, rows, to, fill)
    ensures DeliveredByName(before, after, pts, rows, to, fill)
  {
    hide TableNamed, Select, OfMeasurement, RowsAt, DatedRows, Identifier;
    forall name | Identifier(name)
      ensures var t := TableNamed(to, name);
              multiset(RowsAt(after, t)) ==
              multiset(RowsAt(before, t)) + multiset(DatedRows(OfMeasurement(pts, rows, name), t in fill))
    {
      SelectIs(pts, rows, name, to);
    }
  }

  /**
    Ingest, after parsing: every point becomes one row, and on success every table has received just
    the rows of its points. After a failed statement each table has a part of them, and the count
    returned is the number of rows stored all the same.
    */
  method WritePoints(to: Ingester, pts: seq<Point>, target: Target, now: int) returns (total: nat, ok: bool)
    requires to.Valid()
    modifies to, to.db
    ensures to.Valid() && Stored(old(to.db.stored), to.db.stored, total)
    ensures exists rows ::
              && RowsOf(pts, rows, now)
              && DeliveredPart(old(to.db.stored), to.db.stored, pts, rows, target, to.dateFill)
              && (ok ==> Delivered(old(to.db.stored), to.db.stored, pts, rows, target, to.dateFill) &&
                         DeliveredByName(old(to.db.stored), to.db.stored, pts, rows, target, to.dateFill))
    ensures ok ==> total == |pts|
    ensures old(to.db.outcomes) == [] ==> ok
  {
    hide *;
    var groups := GroupByTable(pts, target, now);
    ghost var rows := RowsBehind(groups, pts, target, now);
    RowsNamed(pts, rows, now);
    SameCount(pts, rows, now);
    total, ok := WriteGroups(to, groups);
    GroupsDeliver(old(to.db.stored), to.db.stored, groups, pts, rows, target, to.dateFill);
    if ok { MeasurementDelivered(old(to.db.stored), to.db.stored, pts, rows, target, to.dateFill); }
  }

  ghost function RowsBehind(groups: map<Name, seq<Row>>, pts: seq<Point>, to: Target, now: int): (rows: seq<Row>)
    requires GroupsOf(groups, pts, to, now)
    ensures |rows| == |pts| && RowsOf(pts, rows, now) && Grouped(groups, pts, rows, to)
    ensures Total(groups) == multiset(rows)
  {
    hide RowOf, Grouped, Total;
    var rows :| RowsOf(pts, rows, now) && Grouped(groups, pts, rows, to) && Total(groups) == multiset(rows);
    rows
  }

  lemma SameCount(pts: seq<Point>, rows: seq<Row>, now: int)
    requires RowsOf(pts, rows, now)
    ensures |multiset(rows)| == |pts|
  {
  }
}
