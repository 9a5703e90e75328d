/**
  The INSERT statements of the ingester (src/lineprotoreceiver/ingest.go): the cells of rows laid out as
  one flat argument list, and the rows the lake makes of it.
  */
module Statements {
  import opened Octets
  import opened LineProtocol
  import opened Ident
  import opened Catalogs

  const CHUNK: nat := 500

  /** A cell: a value, a point in time, its UTC day, or the NULL of an absent key. */
  datatype Cell = Data(v: Value) | Time(ns: int) | Day(ns: int) | Null

  type Row = map<Name, Cell>

  function ArgsOf(cols: seq<Name>, r: Row): (args: seq<Cell>)
    ensures |args| == |cols|
  {
    seq(|cols|, j requires 0 <= j < |cols| => if cols[j] in r then r[cols[j]] else Null)
  }

  /** The arguments of a statement, row by row. */
  function Args(cols: seq<Name>, rows: seq<Row>): (args: seq<Cell>)
    ensures |args| == |rows| * |cols|
  {
    if rows == [] then []
    else
      assert |rows| * |cols| == |cols| + (|rows| - 1) * |cols|;
      ArgsOf(cols, rows[0]) + Args(cols, rows[1..])
  }

  function Zip(cols: seq<Name>, args: seq<Cell>): Row
    requires |cols| == |args|
  {
    if cols == [] then map[] else Zip(cols[1..], args[1..])[cols[0] := args[0]]
  }

  /** What the lake makes of a statement: one row for every |cols| arguments. */
  function Unpack(cols: seq<Name>, args: seq<Cell>): seq<Row>
    requires cols != []
    decreases |args|
  {
    if |args| < |cols| then [] else [Zip(cols, args[..|cols|])] + Unpack(cols, args[|cols|..])
  }

  /** Argument k * width + j of a statement is column j of row k. */
  lemma {:induction false} ArgumentAt(cols: seq<Name>, rows: seq<Row>, k: nat, j: nat)
    requires k < |rows| && j < |cols|
    ensures k * |cols| + j < |rows| * |cols|
    ensures Args(cols, rows)[k * |cols| + j] == if cols[j] in rows[k] then rows[k][cols[j]] else Null
  {
    if k > 0 {
      ArgumentAt(cols, rows[1..], k - 1, j);
      Step(k, |cols|);
      Step(|rows|, |cols|);
      assert k * |cols| + j == |cols| + ((k - 1) * |cols| + j);
    } else {
      Step(|rows|, |cols|);
    }
  }

  lemma Step(k: nat, w: nat)
    requires k > 0
    ensures k * w == w + (k - 1) * w && (k - 1) * w >= 0
  {
  }

  ghost predicate Distinct(cols: seq<Name>) {
    forall i, j :: 0 <= i < j < |cols| ==> cols[i] != cols[j]
  }

  lemma DistinctTail(cols: seq<Name>)
    requires Distinct(cols) && cols != []
    ensures Distinct(cols[1..])
  {
  }

  lemma ElementsCons(cols: seq<Name>)
    requires cols != []
    ensures Elements(cols) == Elements(cols[1..]) + {cols[0]}
  {
    assert cols == [cols[0]] + cols[1..];
  }

  lemma {:induction false} ZipArgs(cols: seq<Name>, args: seq<Cell>)
    requires Distinct(cols) && |cols| == |args|
    ensures Zip(cols, args).Keys == Elements(cols)
    ensures forall j :: 0 <= j < |cols| ==> cols[j] in Zip(cols, args) && Zip(cols, args)[cols[j]] == args[j]
  {
    if cols == [] {
    } else {
      hide Elements;
      DistinctTail(cols);
      ZipArgs(cols[1..], args[1..]);
      forall j | 0 <= j < |cols|
        ensures cols[j] in Zip(cols, args) && Zip(cols, args)[cols[j]] == args[j]
      {
        if j > 0 { assert cols[1..][j - 1] == cols[j] && args[1..][j - 1] == args[j]; }
      }
      ElementsCons(cols);
    }
  }

  lemma RowBack(cols: seq<Name>, r: Row)
    requires Distinct(cols) && r.Keys == Elements(cols)
    ensures Zip(cols, ArgsOf(cols, r)) == r
  {
    var z := Zip(cols, ArgsOf(cols, r));
    ZipArgs(cols, ArgsOf(cols, r));
    forall k | k in r
      ensures z[k] == r[k]
    {
      var j :| 0 <= j < |cols| && cols[j] == k;
      assert z[cols[j]] == r[cols[j]];
    }
  }

  /** Rows that have exactly the columns of the statement come back from its arguments. */
  lemma {:induction false} UnpackArgs(cols: seq<Name>, rows: seq<Row>)
    requires cols != [] && Distinct(cols)
    requires forall i :: 0 <= i < |rows| ==> rows[i].Keys == Elements(cols)
    ensures Unpack(cols, Args(cols, rows)) == rows
  {
    if rows == [] {
    } else {
      var a, rest := ArgsOf(cols, rows[0]), Args(cols, rows[1..]);
      Step(|rows|, |cols|);
      RowBack(cols, rows[0]);
      UnpackArgs(cols, rows[1..]);
      assert (a + rest)[..|cols|] == a && (a + rest)[|cols|..] == rest;
      assert [rows[0]] + rows[1..] == rows;
    }
  }

  lemma {:induction false} ArgsSnoc(cols: seq<Name>, rows: seq<Row>, r: Row)
    ensures Args(cols, rows + [r]) == Args(cols, rows) + ArgsOf(cols, r)
  {
    if rows == [] {
      assert rows + [r] == [r] && [r][1..] == [];
      assert ArgsOf(cols, r) + [] == ArgsOf(cols, r);
    } else {
      assert (rows + [r])[1..] == rows[1..] + [r];
      ArgsSnoc(cols, rows[1..], r);
      Assoc(ArgsOf(cols, rows[0]), Args(cols, rows[1..]), ArgsOf(cols, r));
    }
  }

  /** The two inner loops of insertBucket. */
  method CollectArgs(cols: seq<Name>, rows: seq<Row>) returns (args: seq<Cell>)
    ensures args == Args(cols, rows)
  {
    args := [];
    assert rows[..0] == [];
    for k := 0 to |rows|
      invariant args == Args(cols, rows[..k])
    {
      ghost var done := args;
      for j := 0 to |cols|
        invariant args == done + ArgsOf(cols, rows[k])[..j]
      {
        var cell := if cols[j] in rows[k] then rows[k][cols[j]] else Null;
        Assoc(done, ArgsOf(cols, rows[k])[..j], [cell]);
        assert ArgsOf(cols, rows[k])[..j + 1] == ArgsOf(cols, rows[k])[..j] + [cell];
        args := args + [cell];
      }
      assert ArgsOf(cols, rows[k])[..|cols|] == ArgsOf(cols, rows[k]);
      ArgsSnoc(cols, rows[..k], rows[k]);
      assert rows[..k + 1] == rows[..k] + [rows[k]];
    }
    assert rows[..|rows|] == rows;
  }

  ghost predicate SameColumns(cols: Columns, rows: seq<Row>) {
    forall i :: 0 <= i < |rows| ==> rows[i].Keys == cols
  }

  /** A chunk fits one statement and comes back from it. */
  lemma ChunkBack(cols: seq<Name>, bucket: seq<Row>, start: nat, end: nat)
    requires cols != [] && Distinct(cols) && SameColumns(Elements(cols), bucket)
    requires start <= end <= |bucket| && end - start <= CHUNK
    ensures |Args(cols, bucket[start..end])| <= CHUNK * |cols|
    ensures Unpack(cols, Args(cols, bucket[start..end])) == bucket[start..end]
  {
    UnpackArgs(cols, bucket[start..end]);
    AtMost(end - start, CHUNK, |cols|);
  }

  lemma AtMost(n: nat, m: nat, w: nat)
    requires n <= m
    ensures n * w <= m * w
  {
  }
}
