/**
  Concurrent calls of AddHEP (src/flight/catalog.go): the schema is locked for reading only, and each
  table has a lock of its own, so calls interleave between the table of all packets and that of the
  class. The tables are their histories here; the ring keeps the last packets of each.
  */
module FlightProtocol {
  import opened Octets
  import opened Flight

  /** What was added to each table, and the calls that are between their two additions. */
  datatype State = State(tables: map<Table, seq<Packet>>, pending: seq<Packet>)

  predicate Init(s: State) {
    s == State(map[Packets := [], Sip := [], Rtcp := [], Logs := []], [])
  }

  predicate Complete(s: State) {
    s.tables.Keys == TABLES
  }

  /** The table of a packet's class. */
  function ClassOf(p: Packet): (t: Option<Table>)
    ensures t.Some? ==> t.value != Packets && Belongs(p, t.value)
    ensures forall u :: u != Packets && Belongs(p, u) ==> t == Some(u)
  {
    match p.protoType
    case 1 => Some(Sip)
    case 5 => Some(Rtcp)
    case 100 => Some(Logs)
    case _ => None
  }

  datatype Event = First(p: Packet) | Second(i: nat)

  predicate Enabled(s: State, e: Event) {
    match e
    case First(_) => Complete(s)
    case Second(i) => Complete(s) && i < |s.pending| && ClassOf(s.pending[i]).Some?
  }

  function Put(s: State, t: Table, p: Packet): map<Table, seq<Packet>>
    requires t in s.tables
  {
    s.tables[t := s.tables[t] + [p]]
  }

  function Step(s: State, e: Event): State
    requires Enabled(s, e)
  {
    match e
    case First(p) => State(Put(s, Packets, p), if ClassOf(p).Some? then s.pending + [p] else s.pending)
    case Second(i) =>
      State(Put(s, ClassOf(s.pending[i]).value, s.pending[i]), s.pending[..i] + s.pending[i + 1..])
  }

  /** The addition to the table of a class is that of the first call pending in the class. */
  predicate InTurn(s: State, e: Event, t: Table) {
    e.Second? && e.i < |s.pending| && Belongs(s.pending[e.i], t) ==>
      forall j :: 0 <= j < e.i ==> !Belongs(s.pending[j], t)
  }

  // ---------------------------------------------------------------- the packets of a class

  lemma {:induction false} OfConcat(t: Table, a: seq<Packet>, b: seq<Packet>)
    ensures Of(t, a + b) == Of(t, a) + Of(t, b)
  {
    if b == [] {
      assert a + b == a;
    } else {
      var n := |b| - 1;
      assert (a + b)[..|a + b| - 1] == a + b[..n];
      OfConcat(t, a, b[..n]);
    }
  }

  lemma OfOne(t: Table, p: Packet)
    ensures Of(t, [p]) == if Belongs(p, t) then [p] else []
  {
    assert [p][..0] == [];
  }

  lemma {:induction false} OfNone(t: Table, a: seq<Packet>)
    requires forall i :: 0 <= i < |a| ==> !Belongs(a[i], t)
    ensures Of(t, a) == []
  {
    if a == [] {
    } else {
      OfNone(t, a[..|a| - 1]);
    }
  }

  /** Taking a call out of those that are pending. */
  lemma OfWithout(t: Table, ps: seq<Packet>, i: nat)
    requires i < |ps|
    ensures Of(t, ps) == Of(t, ps[..i]) + (if Belongs(ps[i], t) then [ps[i]] else []) + Of(t, ps[i + 1..])
    ensures Of(t, ps[..i] + ps[i + 1..]) == Of(t, ps[..i]) + Of(t, ps[i + 1..])
  {
    assert ps == ps[..i] + [ps[i]] + ps[i + 1..];
    OfConcat(t, ps[..i] + [ps[i]], ps[i + 1..]);
    OfConcat(t, ps[..i], [ps[i]]);
    OfOne(t, ps[i]);
    OfConcat(t, ps[..i], ps[i + 1..]);
  }

  // ---------------------------------------------------------------- what every interleaving keeps

  /** Each packet is in the table of its class or on the way to it, as often as in the table of all. */
  ghost predicate Conserved(s: State) {
    Complete(s) && forall t :: t in TABLES && t != Packets ==>
      multiset(Of(t, s.tables[Packets])) == multiset(s.tables[t]) + multiset(Of(t, s.pending))
  }

  /** And in the same order. */
  ghost predicate InOrder(s: State, t: Table) {
    Complete(s) && t in s.tables && Of(t, s.tables[Packets]) == s.tables[t] + Of(t, s.pending)
  }

  /** What one step does to the histories of a class. */
  lemma ClassStep(s: State, e: Event, t: Table)
    requires Enabled(s, e) && t in TABLES && t != Packets
    ensures Complete(Step(s, e))
    ensures e.First? ==>
              var x := if Belongs(e.p, t) then [e.p] else [];
              && Of(t, Step(s, e).tables[Packets]) == Of(t, s.tables[Packets]) + x
              && Of(t, Step(s, e).pending) == Of(t, s.pending) + x && Step(s, e).tables[t] == s.tables[t]
    ensures e.Second? ==>
              var x := if Belongs(s.pending[e.i], t) then [s.pending[e.i]] else [];
              var a, b := Of(t, s.pending[..e.i]), Of(t, s.pending[e.i + 1..]);
              && Step(s, e).tables[Packets] == s.tables[Packets] && Step(s, e).tables[t] == s.tables[t] + x
              && Of(t, s.pending) == a + x + b && Of(t, Step(s, e).pending) == a + b
  {
    hide Of;
    match e
    case First(p) =>
      OfMore(t, s.tables[Packets], p);
      OfMore(t, s.pending, p);
      assert Of(t, s.tables[Packets]) + [] == Of(t, s.tables[Packets]) && Of(t, s.pending) + [] == Of(t, s.pending);
    case Second(i) =>
      OfWithout(t, s.pending, i);
      assert s.tables[t] + [] == s.tables[t];
  }

  lemma ConservedStep(s: State, e: Event)
    requires Conserved(s) && Enabled(s, e)
    ensures Conserved(Step(s, e))
  {
    hide Of, Step, Enabled, Belongs;
    forall t | t in TABLES && t != Packets
      ensures Complete(Step(s, e)) && multiset(Of(t, Step(s, e).tables[Packets])) ==
              multiset(Step(s, e).tables[t]) + multiset(Of(t, Step(s, e).pending))
    {
      ClassStep(s, e, t);
    }
  }

  lemma InOrderStep(s: State, e: Event, t: Table)
    requires InOrder(s, t) && Enabled(s, e) && InTurn(s, e, t) && t != Packets
    ensures InOrder(Step(s, e), t)
  {
    hide Of, Step;
    ClassStep(s, e, t);
    if e.First? {
      Assoc(s.tables[t], Of(t, s.pending), if Belongs(e.p, t) then [e.p] else []);
    } else if Belongs(s.pending[e.i], t) {
      OfNone(t, s.pending[..e.i]);
      var x, b := [s.pending[e.i]], Of(t, s.pending[e.i + 1..]);
      assert [] + x + b == x + b && [] + b == b;
      Assoc(s.tables[t], x, b);
    } else {
      var a, b := Of(t, s.pending[..e.i]), Of(t, s.pending[e.i + 1..]);
      assert a + [] + b == a + b;
    }
  }

  // ---------------------------------------------------------------- runs

  ghost predicate Runs(s: State, es: seq<Event>)
    decreases |es|
  {
    es == [] || (Enabled(s, es[0]) && Runs(Step(s, es[0]), es[1..]))
  }

  ghost function After(s: State, es: seq<Event>): State
    requires Runs(s, es)
    decreases |es|
  {
    if es == [] then s else After(Step(s, es[0]), es[1..])
  }

  ghost predicate AllInTurn(s: State, es: seq<Event>, t: Table)
    requires Runs(s, es)
    decreases |es|
  {
    es == [] || (InTurn(s, es[0], t) && AllInTurn(Step(s, es[0]), es[1..], t))
  }

  lemma {:induction false} RunConserves(s: State, es: seq<Event>)
    requires Conserved(s) && Runs(s, es)
    ensures Conserved(After(s, es))
    decreases |es|
  {
    hide Conserved, Step, Enabled;
    if es == [] {
    } else {
      ConservedStep(s, es[0]);
      RunConserves(Step(s, es[0]), es[1..]);
    }
  }

  lemma {:induction false} RunInOrder(s: State, es: seq<Event>, t: Table)
    requires InOrder(s, t) && Runs(s, es) && AllInTurn(s, es, t) && t != Packets
    ensures InOrder(After(s, es), t)
    decreases |es|
  {
    hide InOrder, InTurn, Step, Enabled;
    if es == [] {
    } else {
      InOrderStep(s, es[0], t);
      RunInOrder(Step(s, es[0]), es[1..], t);
    }
  }

  /** Over every interleaving nothing is lost or doubled: at rest each class table holds its packets. */
  lemma EveryInterleavingConserves(s: State, es: seq<Event>, t: Table)
    requires Init(s) && Runs(s, es) && After(s, es).pending == [] && t != Packets
    ensures Complete(After(s, es))
    ensures multiset(After(s, es).tables[t]) == multiset(Of(t, After(s, es).tables[Packets]))
  {
    hide Runs, After, Of;
    NothingYet(s);
    RunConserves(s, es);
    assert Of(t, []) == [] by { OfNone(t, []); }
  }

  lemma NothingYet(s: State)
    requires Init(s)
    ensures Conserved(s) && forall t: Table :: t != Packets ==> InOrder(s, t)
  {
    forall t: Table | t != Packets ensures InOrder(s, t) {
      assert t in TABLES && s.tables[t] == [] && Of(t, []) == [];
    }
  }

  // ---------------------------------------------------------------- exactly when the order is kept

  /** Histories only grow. */
  lemma {:induction false} RunGrows(s: State, es: seq<Event>, t: Table)
    requires Complete(s) && Runs(s, es) && t != Packets
    ensures Complete(After(s, es)) && s.tables[t] <= After(s, es).tables[t]
    ensures Of(t, s.tables[Packets]) <= Of(t, After(s, es).tables[Packets])
    decreases |es|
  {
    hide Of, Step, Enabled, Belongs;
    if es == [] {
    } else {
      ClassStep(s, es[0], t);
      RunGrows(Step(s, es[0]), es[1..], t);
    }
  }

  /** No packet of the class was added twice: every call brings a packet of its own. */
  ghost predicate Different(ps: seq<Packet>) {
    forall i, j :: 0 <= i < j < |ps| ==> ps[i] != ps[j]
  }

  /** An overtaking puts another packet at the end of the class table than the table of all has there. */
  lemma OvertakingShows(h: seq<Packet>, a: seq<Packet>, x: Packet, b: seq<Packet>, end: seq<Packet>)
    requires a != [] && Different(end) && h + [x] <= end
    ensures !(h + (a + [x] + b) <= end)
  {
    var k := |h|;
    assert (h + [x])[k] == x;
    assert (h + (a + [x] + b))[k] == a[0] && (h + (a + [x] + b))[k + |a|] == x;
  }

  lemma {:induction false} HasSome(t: Table, ps: seq<Packet>, j: nat)
    requires j < |ps| && Belongs(ps[j], t)
    ensures Of(t, ps) != []
  {
    if j == |ps| - 1 {
    } else {
      HasSome(t, ps[..|ps| - 1], j);
    }
  }

  /** A step out of turn is never made good. */
  lemma OutOfTurn(s: State, e: Event, es: seq<Event>, t: Table)
    requires InOrder(s, t) && Enabled(s, e) && !InTurn(s, e, t) && t != Packets && Runs(Step(s, e), es)
    ensures Complete(After(Step(s, e), es))
    ensures var end := After(Step(s, e), es);
            Different(end.tables[t]) ==> end.tables[t] != Of(t, end.tables[Packets])
  {
    hide Of, Step, Runs, After, Different;
    ClassStep(s, e, t);
    RunGrows(Step(s, e), es, t);
    var j :| 0 <= j < e.i && Belongs(s.pending[j], t);
    assert s.pending[..e.i][j] == s.pending[j];
    HasSome(t, s.pending[..e.i], j);
    var end := After(Step(s, e), es);
    if Different(end.tables[t]) {
      OvertakingShows(s.tables[t], Of(t, s.pending[..e.i]), s.pending[e.i], Of(t, s.pending[e.i + 1..]), end.tables[t]);
    }
  }

  lemma {:induction false} OnlyInTurn(s: State, es: seq<Event>, t: Table)
    requires InOrder(s, t) && Runs(s, es) && t != Packets && Complete(After(s, es))
    requires Different(After(s, es).tables[t]) && After(s, es).tables[t] == Of(t, After(s, es).tables[Packets])
    ensures AllInTurn(s, es, t)
    decreases |es|
  {
    hide InOrder, InTurn, Step, Enabled, Of, Different;
    if es == [] {
    } else {
      if !InTurn(s, es[0], t) {
        OutOfTurn(s, es[0], es[1..], t);
      } else {
        InOrderStep(s, es[0], t);
        OnlyInTurn(Step(s, es[0]), es[1..], t);
      }
    }
  }

  /**
    While no packet is added twice, the table of a class holds the packets of the class in the order of the table
    of all if and only if every addition to it was in turn and no call of the class is pending.
    */
  lemma SameOrderIff(s: State, es: seq<Event>, t: Table)
    requires Init(s) && Runs(s, es) && t != Packets
    ensures Complete(After(s, es))
    ensures var end := After(s, es);
            Different(Of(t, end.tables[Packets])) ==>
              (end.tables[t] == Of(t, end.tables[Packets]) <==> AllInTurn(s, es, t) && Of(t, end.pending) == [])
  {
    hide Of, Runs, After, AllInTurn, Different, Init;
    var end := After(s, es);
    NothingYet(s);
    RunGrows(s, es, t);
    if Different(Of(t, end.tables[Packets])) && end.tables[t] == Of(t, end.tables[Packets]) { OnlyInTurn(s, es, t); }
    if AllInTurn(s, es, t) {
      RunInOrder(s, es, t);
      assert end.tables[t] + [] == end.tables[t];
      if end.tables[t] == Of(t, end.tables[Packets]) { CancelLeft(end.tables[t], Of(t, end.pending), []); }
    }
  }

  /** When no call of the class overtakes another, its table at rest is that of calls one after the other. */
  lemma InTurnIsSequential(s: State, es: seq<Event>, n: nat, t: Table)
    requires Init(s) && Runs(s, es) && t != Packets && AllInTurn(s, es, t)
    requires Of(t, After(s, es).pending) == []
    ensures Complete(After(s, es))
    ensures Last(After(s, es).tables[t], n) == Expected(After(s, es).tables[Packets], n)[t]
    ensures IsSuffix(Of(t, Last(After(s, es).tables[Packets], n)), Last(After(s, es).tables[t], n))
  {
    hide Expected, Runs, After, AllInTurn, Last, IsSuffix, Of;
    NothingYet(s);
    RunInOrder(s, es, t);
    var end := After(s, es);
    ExpectedAt(end.tables[Packets], n, t);
    assert end.tables[t] + [] == end.tables[t];
    ClassIsSuffix(t, end.tables[Packets], n);
  }

  /** Two SIP packets, the second call overtaking the first: the two tables disagree on their order. */
  lemma OvertakingBreaksTheOrder(s: State, a: Packet, b: Packet, n: nat)
    requires Init(s) && a.protoType == b.protoType == 1 && a != b && n >= 2
    ensures var es := [First(a), First(b), Second(1), Second(0)];
            && Runs(s, es) && Complete(After(s, es)) && After(s, es).pending == []
            && !IsSuffix(Of(Sip, Last(After(s, es).tables[Packets], n)), Last(After(s, es).tables[Sip], n))
  {
    hide Of, Last, IsSuffix, Runs, After;
    Overtaking(s, a, b);
    FourSteps(s, First(a), First(b), Second(1), Second(0));
    OrdersDiffer(a, b, n);
  }

  function Histories(all: seq<Packet>, sip: seq<Packet>): map<Table, seq<Packet>> {
    map[Packets := all, Sip := sip, Rtcp := [], Logs := []]
  }

  lemma StepOf(all: seq<Packet>, sip: seq<Packet>, pending: seq<Packet>, p: Packet)
    requires p.protoType == 1
    ensures var s := State(Histories(all, sip), pending);
            Enabled(s, First(p)) && Step(s, First(p)) == State(Histories(all + [p], sip), pending + [p])
    ensures forall i: nat :: i < |pending| && pending[i] == p ==>
              var s := State(Histories(all, sip), pending);
              && Enabled(s, Second(i))
              && Step(s, Second(i)) == State(Histories(all, sip + [p]), pending[..i] + pending[i + 1..])
  {
  }

  lemma Overtaking(s: State, a: Packet, b: Packet)
    requires Init(s) && a.protoType == b.protoType == 1
    ensures var s2 := State(Histories([a, b], []), [a, b]);
            var s3 := State(Histories([a, b], [b]), [a]);
            && Enabled(s, First(a)) && Enabled(Step(s, First(a)), First(b)) && Step(Step(s, First(a)), First(b)) == s2
            && Enabled(s2, Second(1)) && Step(s2, Second(1)) == s3
            && Enabled(s3, Second(0)) && Step(s3, Second(0)) == State(Histories([a, b], [b, a]), [])
  {
    assert s == State(Histories([], []), []);
    hide Enabled, Step, Histories;
    assert [] + [a] == [a] && [a] + [b] == [a, b] && [] + [b] == [b] && [b] + [a] == [b, a];
    assert [a, b][..1] + [a, b][2..] == [a] && [a][..0] + [a][1..] == [];
    StepOf([], [], [], a);
    StepOf([a], [], [a], b);
    StepOf([a, b], [], [a, b], b);
    StepOf([a, b], [b], [a], a);
  }

  lemma OrdersDiffer(a: Packet, b: Packet, n: nat)
    requires a.protoType == b.protoType == 1 && a != b && n >= 2
    ensures !IsSuffix(Of(Sip, Last([a, b], n)), Last([b, a], n))
  {
    hide Of;
    BothSip(a, b);
    var x, y := [a, b], [b, a];
    assert Last(x, n) == x && Last(y, n) == y && y[0..] == y && x[0] != y[0];
  }

  lemma BothSip(a: Packet, b: Packet)
    requires a.protoType == b.protoType == 1
    ensures Of(Sip, [a, b]) == [a, b]
  {
    hide Of;
    OfOne(Sip, a);
    OfMore(Sip, [a], b);
    assert [a] + [b] == [a, b];
  }

  lemma RunCons(s: State, e: Event, rest: seq<Event>)
    requires Enabled(s, e) && Runs(Step(s, e), rest)
    ensures Runs(s, [e] + rest) && After(s, [e] + rest) == After(Step(s, e), rest)
  {
    hide Enabled, Step;
    assert ([e] + rest)[1..] == rest;
  }

  lemma FourSteps(s: State, a: Event, b: Event, c: Event, d: Event)
    requires Enabled(s, a) && Enabled(Step(s, a), b) && Enabled(Step(Step(s, a), b), c)
    requires Enabled(Step(Step(Step(s, a), b), c), d)
    ensures Runs(s, [a, b, c, d]) && After(s, [a, b, c, d]) == Step(Step(Step(Step(s, a), b), c), d)
  {
    hide Enabled, Step;
    RunCons(Step(Step(Step(s, a), b), c), d, []);
    RunCons(Step(Step(s, a), b), c, [d]);
    RunCons(Step(s, a), b, [c, d]);
    RunCons(s, a, [b, c, d]);
    assert [d] + [] == [d] && [c] + [d] == [c, d] && [b] + [c, d] == [b, c, d] && [a] + [b, c, d] == [a, b, c, d];
  }
}
