/**
  The in-memory packet tables (src/flight): a ring buffer with an array, a head and a count, and the
  schema that adds each packet to the table of all packets and to the table of its class.
  */
module Flight {
  import opened Octets
  import Text
  import Hep3

  datatype Packet = Packet(protoType: nat, cid: Bytes)

  /** The last `n` elements. */
  function Last<T>(s: seq<T>, n: nat): (t: seq<T>)
    ensures |t| == if |s| < n then |s| else n
  {
    if |s| < n then s else s[|s| - n..]
  }

  predicate IsSuffix<T(==)>(a: seq<T>, b: seq<T>) {
    |a| <= |b| && b[|b| - |a|..] == a
  }

  /** Keeping the last `n` after every addition keeps the last `n` of all. */
  lemma LastMore<T>(s: seq<T>, n: nat, x: T)
    ensures Last(Last(s, n) + [x], n) == Last(s + [x], n)
  {
  }

  // ---------------------------------------------------------------- the ring buffer

  class RingBuffer {
    const data: array<Option<Packet>>
    const size: nat
    var head: nat
    var count: nat

    /** NewRingBuffer. Add divides by the size, so it is not 0. */
    constructor (n: nat)
      requires n > 0
      ensures Valid() && size == n && Contents() == [] && fresh(data)
    {
      size, head, count := n, 0, 0;
      data := new Option<Packet>[n](_ => None);
    }

    ghost predicate Valid()
      reads this, data
    {
      data.Length == size && Ring(data[..], head, count)
    }

    /** The packets held, oldest first. */
    ghost function Contents(): (s: seq<Packet>)
      requires Valid()
      reads this, data
      ensures |s| == count
    {
      Held(data[..], head, count)
    }

    /** Add: the oldest packet makes room when the buffer is full. */
    method Add(hep: Packet)
      requires Valid()
      modifies this, data
      ensures Valid() && Contents() == Last(old(Contents()) + [hep], size)
    {
      AddKeepsLast(data[..], head, count, hep);
      Wrapped(head + 1, size);
      data[head] := Some(hep);
      head := (head + 1) % size;
      if count < size { count := count + 1; }
    }

    /** GetAll. */
    method GetAll() returns (result: seq<Packet>)
      requires Valid()
      ensures result == Contents()
    {
      result := [];
      if count == 0 { return; }
      if count < size {
        for i := 0 to count
          invariant result == Contents()[..i]
        {
          assert Slot(head, count, size, i) == i && data[..][i] == data[i];
          assert data[..][Slot(head, count, size, i)].Some?;
          result := result + [data[i].value];
        }
      } else {
        var start := head;
        for i := 0 to count
          invariant result == Contents()[..i]
        {
          Wrapped(start + i, size);
          assert data[..][Slot(head, count, size, i)].Some?;
          result := result + [data[(start + i) % size].value];
        }
      }
    }

    /** Clear. */
    method Clear()
      requires Valid()
      modifies this, data
      ensures Valid() && Contents() == []
      ensures forall i :: 0 <= i < data.Length ==> data[i] == None
    {
      head, count := 0, 0;
      for i := 0 to data.Length
        invariant head == 0 && count == 0 && forall j :: 0 <= j < i ==> data[j] == None
      {
        data[i] := None;
      }
    }
  }

  /** Where packet number `i`, counted from the oldest, stands. */
  function Slot(head: nat, count: nat, size: nat, i: nat): nat {
    if count < size then i else if head + i < size then head + i else head + i - size
  }

  /** The head runs ahead of the packets, and the packets held are there. */
  ghost predicate Ring(data: seq<Option<Packet>>, head: nat, count: nat) {
    var size := |data|;
    && head < size && count <= size && (count < size ==> head == count)
    && forall i :: 0 <= i < count ==> data[Slot(head, count, size, i)].Some?
  }

  ghost function Held(data: seq<Option<Packet>>, head: nat, count: nat): (s: seq<Packet>)
    requires Ring(data, head, count)
    ensures |s| == count
  {
    seq(count, i requires 0 <= i < count => data[Slot(head, count, |data|, i)].value)
  }

  lemma AddKeepsLast(data: seq<Option<Packet>>, head: nat, count: nat, x: Packet)
    requires Ring(data, head, count)
    ensures var after := data[head := Some(x)];
            var h := if head + 1 < |data| then head + 1 else 0;
            var c := if count < |data| then count + 1 else count;
            Ring(after, h, c) && Held(after, h, c) == Last(Held(data, head, count) + [x], |data|)
  {
    var n := |data|;
    var after := data[head := Some(x)];
    var h := if head + 1 < n then head + 1 else 0;
    var c := if count < n then count + 1 else count;
    var kept := Last(Held(data, head, count) + [x], n);
    forall i | 0 <= i < c
      ensures after[Slot(h, c, n, i)] == Some(kept[i])
    {
      if count == n && i < n - 1 {
        assert Slot(h, c, n, i) == Slot(head, count, n, i + 1);
      } else if count < n && i < count {
        assert Slot(h, c, n, i) == Slot(head, count, n, i);
      }
    }
  }

  lemma Wrapped(k: nat, n: nat)
    requires 0 < n && k < 2 * n
    ensures k % n == if k < n then k else k - n
  {
    var q, r := k / n, k % n;
    assert k == q * n + r;
    if k >= n {
      AtLeastTwo(q, n);
    }
  }

  lemma AtLeastTwo(q: int, n: nat)
    ensures q >= 2 ==> q * n >= 2 * n
    ensures q <= 0 ==> q * n <= 0
  {
  }

  // ---------------------------------------------------------------- the tables

  datatype Table = Packets | Sip | Rtcp | Logs

  const TABLES: set<Table> := {Packets, Sip, Rtcp, Logs}

  /** Whether packets of this kind belong into the table. */
  predicate Belongs(p: Packet, t: Table) {
    match t
    case Packets => true
    case Sip => p.protoType == 1
    case Rtcp => p.protoType == 5
    case Logs => p.protoType == 100
  }

  /** The class tables hold the types that the decoder names after them. */
  lemma ClassNames(p: Packet)
    ensures Belongs(p, Sip) <==> Hep3.ProtoName(p.protoType) == Text.Ascii("sip")
    ensures Belongs(p, Rtcp) <==> Hep3.ProtoName(p.protoType) == Text.Ascii("rtcp")
    ensures Belongs(p, Logs) <==> Hep3.ProtoName(p.protoType) == Text.Ascii("log")
  {
    Hep3.ProtoNames();
    assert Text.Ascii("sip")[0] == 115 && Text.Ascii("rtcp")[0] == 114 && Text.Ascii("log")[0] == 108;
    assert |Text.Ascii("rtcp")| == 4 && |Text.Ascii("rtcpxr")| == 6 && |Text.Ascii("rtpagent")| == 8;
    assert Text.Ascii("horaclifix")[0] == 104 && Text.Ascii("dns")[0] == 100 && Text.Ascii("diameter")[0] == 100;
    if p.protoType !in {1, 5, 34, 35, 38, 53, 56, 100} {
      assert Hep3.ProtoName(p.protoType) == Text.Itoa(p.protoType);
      assert Text.Digit(Text.Itoa(p.protoType)[0]);
    }
  }

  /** The packets of a table among those that arrived. */
  function Of(t: Table, history: seq<Packet>): seq<Packet> {
    if history == [] then []
    else
      var n := |history| - 1;
      Of(t, history[..n]) + (if Belongs(history[n], t) then [history[n]] else [])
  }

  lemma OfMore(t: Table, history: seq<Packet>, p: Packet)
    ensures Belongs(p, t) ==> Of(t, history + [p]) == Of(t, history) + [p]
    ensures !Belongs(p, t) ==> Of(t, history + [p]) == Of(t, history)
  {
    assert (history + [p])[..|history|] == history;
  }

  class Schema {
    const tables: map<Table, RingBuffer>
    const bufferSize: nat
    /** All packets added, in order. */
    ghost var history: seq<Packet>

    /** NewHEPSchema: four tables of one size. */
    constructor (n: nat)
      requires n > 0
      ensures Valid() && bufferSize == n && history == [] && fresh(Buffers())
    {
      hide *;
      var a := new RingBuffer(n);
      var b := new RingBuffer(n);
      var c := new RingBuffer(n);
      var d := new RingBuffer(n);
      tables := map[Packets := a, Sip := b, Rtcp := c, Logs := d];
      bufferSize := n;
      history := [];
      new;
      FourApart(a, b, c, d);
      AllEmpty(a, b, c, d);
    }

    lemma FourApart(a: RingBuffer, b: RingBuffer, c: RingBuffer, d: RingBuffer)
      requires tables == map[Packets := a, Sip := b, Rtcp := c, Logs := d]
      requires a != b && a != c && a != d && b != c && b != d && c != d
      requires a.data != b.data && a.data != c.data && a.data != d.data && b.data != c.data && b.data != d.data
      requires c.data != d.data
      ensures Apart() && Buffers() == {a, b, c, d, a.data, b.data, c.data, d.data}
    {
      assert tables[Packets] == a && tables[Sip] == b && tables[Rtcp] == c && tables[Logs] == d;
    }

    lemma AllEmpty(a: RingBuffer, b: RingBuffer, c: RingBuffer, d: RingBuffer)
      requires tables == map[Packets := a, Sip := b, Rtcp := c, Logs := d] && Apart() && history == []
      requires a.Valid() && b.Valid() && c.Valid() && d.Valid()
      requires a.size == bufferSize && b.size == bufferSize && c.size == bufferSize && d.size == bufferSize
      requires a.Contents() == [] && b.Contents() == [] && c.Contents() == [] && d.Contents() == []
      ensures Valid()
    {
      hide Apart, RingBuffer.Valid, RingBuffer.Contents, Expected;
      assert Ready();
      forall t | t in TABLES
        ensures Expected([], bufferSize)[t] == [] && All()[t] == []
      {
        ExpectedAt([], bufferSize, t);
      }
    }

    ghost function Buffers(): set<object> {
      (set t | t in tables :: tables[t] as object) + (set t | t in tables :: tables[t].data as object)
    }

    /** The buffers are four different ones. */
    ghost predicate Apart() {
      && tables.Keys == TABLES && this !in Buffers()
      && forall t, u :: t in tables && u in tables && t != u ==>
           tables[t] != tables[u] && tables[t].data != tables[u].data
    }

    ghost predicate Ready()
      reads Buffers()
    {
      Apart() && forall t :: t in tables ==> tables[t].Valid() && tables[t].size == bufferSize
    }

    /** What the tables hold. */
    ghost function All(): (m: map<Table, seq<Packet>>)
      requires Ready()
      reads Buffers()
      ensures m.Keys == TABLES
    {
      map t | t in tables :: tables[t].Contents()
    }

    /** At all times, every table holds the last packets of its class, oldest first. */
    ghost predicate Valid()
      reads this, Buffers()
    {
      Ready() && All() == Expected(history, bufferSize)
    }

    /** AddHEP: the table of all packets, and the table of the packet's class. */
    method AddHEP(hep: Packet)
      requires Valid()
      modifies this, Buffers()
      ensures Valid() && history == old(history) + [hep]
    {
      hide Ready, All, Apart, Buffers, Expected, Added, Last, Of, RingBuffer.Valid, RingBuffer.Contents;
      ExpectedMore(history, hep, bufferSize);
      Writable(Packets);
      Put(Packets, hep);
      match hep.protoType {
        case 1 =>
          Writable(Sip);
          Put(Sip, hep);
        case 5 =>
          Writable(Rtcp);
          Put(Rtcp, hep);
        case 100 =>
          Writable(Logs);
          Put(Logs, hep);
        case _ =>
      }
      history := history + [hep];
    }

    lemma Writable(t: Table)
      requires Ready()
      ensures t in tables && tables[t] in Buffers() && tables[t].data in Buffers() && this !in Buffers()
    {
    }

    method Put(t: Table, hep: Packet)
      requires Ready() && t in tables
      modifies tables[t], tables[t].data
      ensures Ready() && history == old(history)
      ensures All() == Added(old(All()), t, hep, bufferSize)
    {
      hide RingBuffer.Valid, RingBuffer.Contents, Last;
      tables[t].Add(hep);
    }
  }

  /** What the tables should hold. */
  function Expected(history: seq<Packet>, n: nat): (m: map<Table, seq<Packet>>)
    ensures m.Keys == TABLES
  {
    map t | t in TABLES :: Last(Of(t, history), n)
  }

  function Added(m: map<Table, seq<Packet>>, t: Table, p: Packet, n: nat): map<Table, seq<Packet>>
    requires t in m
  {
    m[t := Last(m[t] + [p], n)]
  }

  /** The class table of a packet, if it has one. */
  lemma ExpectedMore(history: seq<Packet>, p: Packet, n: nat)
    ensures var all := Added(Expected(history, n), Packets, p, n);
            Expected(history + [p], n) ==
            if p.protoType == 1 then Added(all, Sip, p, n)
            else if p.protoType == 5 then Added(all, Rtcp, p, n)
            else if p.protoType == 100 then Added(all, Logs, p, n)
            else all
  {
    hide Last, Of, Expected;
    var old0, new0, all := Expected(history, n), Expected(history + [p], n), Added(Expected(history, n), Packets, p, n);
    forall t | t in TABLES
      ensures new0[t] == if Belongs(p, t) then Last(old0[t] + [p], n) else old0[t]
    {
      ExpectedAt(history, n, t);
      ExpectedAt(history + [p], n, t);
      OfMore(t, history, p);
      LastMore(Of(t, history), n, p);
    }
  }

  lemma ExpectedAt(history: seq<Packet>, n: nat, t: Table)
    ensures t in TABLES && Expected(history, n)[t] == Last(Of(t, history), n)
  {
  }

  // ---------------------------------------------------------------- packets against its class tables

  lemma SuffixInit(a: seq<Packet>, b: seq<Packet>)
    requires IsSuffix(a, b) && a != []
    ensures b != [] && a[|a| - 1] == b[|b| - 1] && IsSuffix(a[..|a| - 1], b[..|b| - 1])
  {
    var n, m := |a| - 1, |b| - 1;
    assert b[m - n..][n] == b[m];
    assert b[..m][m - n..] == a[..n];
  }

  lemma SuffixSnoc(a: seq<Packet>, b: seq<Packet>, x: seq<Packet>)
    requires IsSuffix(a, b)
    ensures IsSuffix(a + x, b + x)
  {
    assert (b + x)[|b| - |a|..] == b[|b| - |a|..] + x;
  }

  lemma OfLast(t: Table, history: seq<Packet>)
    requires history != []
    ensures var n := |history| - 1;
            Of(t, history) == Of(t, history[..n]) + (if Belongs(history[n], t) then [history[n]] else [])
  {
  }

  lemma {:induction false} OfSuffix(t: Table, a: seq<Packet>, b: seq<Packet>)
    requires IsSuffix(a, b)
    ensures IsSuffix(Of(t, a), Of(t, b)) && |Of(t, a)| <= |a|
  {
    if a == [] {
    } else {
      hide Of, IsSuffix;
      var n, m := |a| - 1, |b| - 1;
      SuffixInit(a, b);
      OfSuffix(t, a[..n], b[..m]);
      OfLast(t, a);
      OfLast(t, b);
      SuffixSnoc(Of(t, a[..n]), Of(t, b[..m]), if Belongs(a[n], t) then [a[n]] else []);
    }
  }

  lemma SuffixOfLast(a: seq<Packet>, b: seq<Packet>, n: nat)
    requires IsSuffix(a, b) && |a| <= n
    ensures IsSuffix(a, Last(b, n))
  {
  }

  /** The SIP packets among the last packets are the newest packets of the `sip` table; so for every class. */
  lemma ClassIsSuffix(t: Table, history: seq<Packet>, n: nat)
    ensures IsSuffix(Of(t, Last(history, n)), Last(Of(t, history), n))
  {
    OfSuffix(t, Last(history, n), history);
    SuffixOfLast(Of(t, Last(history, n)), Of(t, history), n);
  }
}
