/**
  Writers that share one Ingester (src/lineprotoreceiver/ingest.go): table creation and extension
  under a mutex, the memo of known columns, and INSERTs outside the mutex, as a state machine whose
  steps are the single statements sent to the database.
  */
module IngestProtocol {
  import opened Octets
  import opened Catalogs

  /** One call of writeRows: the table and the column sets of its rows. */
  datatype Job = Job(table: Name, rows: seq<Columns>)

  function AllColumns(rows: seq<Columns>): (cols: Columns)
    ensures forall i :: 0 <= i < |rows| ==> rows[i] <= cols
  {
    if rows == [] then {} else rows[0] + AllColumns(rows[1..])
  }

  /** Where a writer stands. The phases from Deciding to Adding hold the mutex. */
  datatype Phase =
    | Idle
    | Waiting(job: Job)
    | Deciding(job: Job)
    | Creating(job: Job, cols: Columns)
    | Partitioning(job: Job, dated: bool)
    | Adding(job: Job, missing: Columns)
    | Ensured(job: Job)
    | Inserting(job: Job, statements: seq<Columns>)

  predicate HoldsMutex(p: Phase) {
    p.Deciding? || p.Creating? || p.Partitioning? || p.Adding?
  }

  /**
    The tables as they are, the memo of the process (tablesState), the tables whose `date` the
    writers fill (dateFill), the holder of the mutex and the writers.
    */
  datatype State = State(
    tables: Catalog, memo: Catalog, dateFill: set<Name>, holder: Option<nat>, writers: seq<Phase>)

  /** A new process: nothing known, nobody at work. */
  predicate Init(s: State) {
    s.memo == map[] && s.dateFill == {} && s.holder == None && forall w :: 0 <= w < |s.writers| ==> s.writers[w].Idle?
  }

  /** CREATE TABLE IF NOT EXISTS. */
  function Create(tables: Catalog, table: Name, cols: Columns): Catalog {
    if table in tables then tables else tables[table := cols]
  }

  /** ALTER TABLE ... ADD COLUMN IF NOT EXISTS. */
  function AddColumn(tables: Catalog, table: Name, col: Name): Catalog {
    if table in tables then tables[table := tables[table] + {col}] else tables
  }

  datatype Event =
    | Begin(job: Job)
    | Lock
    | Decide
    | CreateOk
    | CreateFails(applied: bool)
    | PartitionAddsDate
    | PartitionDone(fill: bool)
    | AddOk(col: Name)
    | AddFails(col: Name, applied: bool)
    | Unlock
    | ReadFill
    | Insert(ok: bool)
    | Done

  /** The mutex is given back on every way out of ensureTable. */
  function Leave(s: State, w: nat, p: Phase): State
    requires w < |s.writers|
  {
    s.(holder := None, writers := s.writers[w := p])
  }

  function Move(s: State, w: nat, p: Phase): State
    requires w < |s.writers|
  {
    s.(writers := s.writers[w := p])
  }

  predicate Enabled(s: State, w: nat, e: Event, lake: bool) {
    w < |s.writers| &&
    var p := s.writers[w];
    match e
    case Begin(job) => p.Idle? && forall i :: 0 <= i < |job.rows| ==> TS in job.rows[i]
    case Lock => p.Waiting? && s.holder == None
    case Decide => p.Deciding?
    case CreateOk => p.Creating?
    case CreateFails(_) => p.Creating?
    case PartitionAddsDate => p.Partitioning? && lake
    case PartitionDone(fill) => p.Partitioning? && (fill ==> lake && p.dated)
    case AddOk(col) => p.Adding? && col in p.missing
    case AddFails(col, _) => p.Adding? && col in p.missing
    case Unlock => p.Adding? && p.missing == {}
    case ReadFill => p.Ensured? && s.holder == None
    case Insert(_) => p.Inserting? && p.statements != []
    case Done => p.Inserting? && p.statements == []
  }

  /** The columns of the statements: `date` is added where the writers fill it. */
  function Dated(rows: seq<Columns>, fill: bool): (ds: seq<Columns>)
    ensures |ds| == |rows|
    ensures forall i :: 0 <= i < |rows| ==> ds[i] == if fill then rows[i] + {DATE} else rows[i]
  {
    seq(|rows|, i requires 0 <= i < |rows| => if fill then rows[i] + {DATE} else rows[i])
  }

  /** One step of writer `w`. A statement that fails may have been applied all the same. */
  function Step(s: State, w: nat, e: Event, lake: bool): State
    requires Enabled(s, w, e, lake)
  {
    var p := s.writers[w];
    match e
    case Begin(job) => Move(s, w, Waiting(job))
    case Lock => Move(s, w, Deciding(p.job)).(holder := Some(w))
    case Decide =>
      var cols := AllColumns(p.job.rows);
      if p.job.table in s.memo then Move(s, w, Adding(p.job, cols - s.memo[p.job.table]))
      else Move(s, w, Creating(p.job, cols + {TS} + (if lake then {DATE} else {})))
    case CreateOk =>
      var t := p.job.table;
      var created := s.(tables := Create(s.tables, t, p.cols), memo := s.memo[t := p.cols]);
      Move(created, w, Partitioning(p.job, DATE in Create(s.tables, t, p.cols)[t]))
    case CreateFails(applied) =>
      Leave(if applied then s.(tables := Create(s.tables, p.job.table, p.cols)) else s, w, Idle)
    case PartitionAddsDate =>
      Move(s.(tables := AddColumn(s.tables, p.job.table, DATE)), w, Partitioning(p.job, true))
    case PartitionDone(fill) =>
      var t := p.job.table;
      var known := if fill && t in s.memo then s.memo[t := s.memo[t] + {DATE}] else s.memo;
      Leave(s.(memo := known, dateFill := if fill then s.dateFill + {t} else s.dateFill), w, Ensured(p.job))
    case AddOk(col) =>
      var t := p.job.table;
      var known := if t in s.memo then s.memo[t := s.memo[t] + {col}] else s.memo;
      Move(s.(tables := AddColumn(s.tables, t, col), memo := known), w, Adding(p.job, p.missing - {col}))
    case AddFails(col, applied) =>
      Leave(if applied then s.(tables := AddColumn(s.tables, p.job.table, col)) else s, w, Idle)
    case Unlock => Leave(s, w, Ensured(p.job))
    case ReadFill => Move(s, w, Inserting(p.job, Dated(p.job.rows, p.job.table in s.dateFill)))
    case Insert(ok) => Move(s, w, if ok then Inserting(p.job, p.statements[1..]) else Idle)
    case Done => Move(s, w, Idle)
  }

  // ---------------------------------------------------------------- the invariant

  ghost predicate Known(s: State, table: Name, cols: Columns) {
    table in s.memo && cols <= s.memo[table]
  }

  /** What a phase may rely on. */
  ghost predicate PhaseOk(s: State, p: Phase) {
    match p
    case Creating(job, cols) => job.table !in s.tables && job.table !in s.memo && AllColumns(job.rows) <= cols
    case Partitioning(job, dated) =>
      Known(s, job.table, AllColumns(job.rows)) && job.table in s.tables && (dated ==> DATE in s.tables[job.table])
    case Adding(job, missing) =>
      job.table in s.memo && AllColumns(job.rows) <= s.memo[job.table] + missing
    case Ensured(job) => Known(s, job.table, AllColumns(job.rows))
    case Inserting(job, statements) =>
      forall i :: 0 <= i < |statements| ==> Known(s, job.table, statements[i])
    case _ => true
  }

  /** The table that a writer is at work on. */
  function JobTable(p: Phase): Option<Name> {
    match p
    case Idle => None
    case Waiting(job) => Some(job.table)
    case Deciding(job) => Some(job.table)
    case Creating(job, _) => Some(job.table)
    case Partitioning(job, _) => Some(job.table)
    case Adding(job, _) => Some(job.table)
    case Ensured(job) => Some(job.table)
    case Inserting(job, _) => Some(job.table)
  }

  /** What is kept about one table, whatever happens to the others. */
  ghost predicate Inv(s: State, t: Name) {
    // the memo is never ahead of the table
    && (t in s.memo ==> t in s.tables && s.memo[t] <= s.tables[t])
    // a table unknown to the process does not exist
    && (t in s.tables ==> t in s.memo)
    && (t in s.dateFill ==> t in s.memo && DATE in s.memo[t])
    && OneHolder(s)
    && (forall w :: 0 <= w < |s.writers| && JobTable(s.writers[w]) == Some(t) ==> PhaseOk(s, s.writers[w]))
  }

  /** The writer in the critical section is the holder of the mutex. */
  ghost predicate OneHolder(s: State) {
    forall w :: 0 <= w < |s.writers| ==> (HoldsMutex(s.writers[w]) <==> s.holder == Some(w))
  }

  /** A CREATE of the table that was reported as failed left no table. */
  predicate Honest(s: State, w: nat, e: Event, t: Name) {
    w < |s.writers| && e == CreateFails(true) ==> JobTable(s.writers[w]) != Some(t)
  }

  /** The table and its columns are never dropped. */
  ghost predicate GrowsAt(a: Catalog, b: Catalog, t: Name) {
    t in a ==> t in b && a[t] <= b[t]
  }

  lemma StepGrows(s: State, w: nat, e: Event, lake: bool, t: Name)
    requires Enabled(s, w, e, lake) && Inv(s, t)
    ensures var n := Step(s, w, e, lake); GrowsAt(s.tables, n.tables, t) && GrowsAt(s.memo, n.memo, t)
  {
    if JobTable(s.writers[w]) == Some(t) { assert PhaseOk(s, s.writers[w]); }
  }

  /** Writers outside the mutex keep what they rely on while the memo grows. */
  lemma PhaseStays(s: State, n: State, p: Phase, t: Name)
    requires PhaseOk(s, p) && !HoldsMutex(p) && JobTable(p) == Some(t) && GrowsAt(s.memo, n.memo, t)
    ensures PhaseOk(n, p)
  {
  }

  lemma DatedKnown(s: State, job: Job)
    requires Known(s, job.table, AllColumns(job.rows))
    requires job.table in s.dateFill ==> DATE in s.memo[job.table]
    ensures PhaseOk(s, Inserting(job, Dated(job.rows, job.table in s.dateFill)))
  {
    var ds := Dated(job.rows, job.table in s.dateFill);
    forall i | 0 <= i < |ds|
      ensures Known(s, job.table, ds[i])
    {
      assert job.rows[i] <= AllColumns(job.rows);
    }
  }

  /** The writer that moved finds what its new phase relies on. */
  lemma OwnPhase(s: State, w: nat, e: Event, lake: bool, t: Name)
    requires Inv(s, t) && Enabled(s, w, e, lake) && Honest(s, w, e, t)
    ensures var n := Step(s, w, e, lake); JobTable(n.writers[w]) == Some(t) ==> PhaseOk(n, n.writers[w])
  {
    var p := s.writers[w];
    if JobTable(p) == Some(t) {
      assert PhaseOk(s, p);
      if e.ReadFill? {
        DatedKnown(s, p.job);
        PhaseStays(s, Step(s, w, e, lake), Step(s, w, e, lake).writers[w], t);
      }
    }
  }

  lemma CatalogsKept(s: State, w: nat, e: Event, lake: bool, t: Name)
    requires Inv(s, t) && Enabled(s, w, e, lake) && Honest(s, w, e, t)
    ensures var n := Step(s, w, e, lake);
            && (t in n.memo ==> t in n.tables && n.memo[t] <= n.tables[t])
            && (t in n.tables ==> t in n.memo)
            && (t in n.dateFill ==> t in n.memo && DATE in n.memo[t])
  {
    if JobTable(s.writers[w]) == Some(t) { assert PhaseOk(s, s.writers[w]); }
  }

  lemma InvStep(s: State, w: nat, e: Event, lake: bool, t: Name)
    requires Inv(s, t) && Enabled(s, w, e, lake) && Honest(s, w, e, t)
    ensures Inv(Step(s, w, e, lake), t)
  {
    hide Enabled, Step, PhaseOk;
    var n := Step(s, w, e, lake);
    CatalogsKept(s, w, e, lake, t);
    OwnPhase(s, w, e, lake, t);
    StepGrows(s, w, e, lake, t);
    HolderStep(s, w, e, lake);
    OthersStay(s, w, e, lake);
    forall v | 0 <= v < |n.writers| && JobTable(n.writers[v]) == Some(t)
      ensures PhaseOk(n, n.writers[v])
    {
      if v != w {
        assert n.writers[v] == s.writers[v] && PhaseOk(s, s.writers[v]);
        if HoldsMutex(s.writers[v]) {
          HolderUndisturbed(s, w, e, lake);
          SameCatalogs(s, n, s.writers[v]);
        } else {
          PhaseStays(s, n, s.writers[v], t);
        }
      }
    }
  }

  lemma OthersStay(s: State, w: nat, e: Event, lake: bool)
    requires Enabled(s, w, e, lake)
    ensures var n := Step(s, w, e, lake);
            && w < |s.writers| == |n.writers|
            && forall v :: 0 <= v < |s.writers| && v != w ==> n.writers[v] == s.writers[v]
  {
  }

  lemma SameCatalogs(s: State, n: State, p: Phase)
    requires PhaseOk(s, p) && n.tables == s.tables && n.memo == s.memo
    ensures PhaseOk(n, p)
  {
  }

  lemma HolderStep(s: State, w: nat, e: Event, lake: bool)
    requires OneHolder(s) && Enabled(s, w, e, lake)
    ensures OneHolder(Step(s, w, e, lake))
  {
  }

  /** While another writer holds the mutex, a step changes neither tables nor memo. */
  lemma HolderUndisturbed(s: State, w: nat, e: Event, lake: bool)
    requires OneHolder(s) && Enabled(s, w, e, lake) && s.holder.Some? && s.holder != Some(w)
    ensures Step(s, w, e, lake).tables == s.tables && Step(s, w, e, lake).memo == s.memo
  {
  }

  // ---------------------------------------------------------------- runs

  /** A run: the steps of any writers in any order. */
  datatype Action = Action(w: nat, e: Event)

  ghost predicate Runs(s: State, actions: seq<Action>, lake: bool)
    decreases |actions|
  {
    actions == [] ||
    (Enabled(s, actions[0].w, actions[0].e, lake) &&
     Runs(Step(s, actions[0].w, actions[0].e, lake), actions[1..], lake))
  }

  ghost function After(s: State, actions: seq<Action>, lake: bool): State
    requires Runs(s, actions, lake)
    decreases |actions|
  {
    if actions == [] then s else After(Step(s, actions[0].w, actions[0].e, lake), actions[1..], lake)
  }

  /** No CREATE of the table is applied and reported as failed. */
  ghost predicate HonestRun(s: State, actions: seq<Action>, lake: bool, t: Name)
    requires Runs(s, actions, lake)
    decreases |actions|
  {
    actions == [] ||
    (Honest(s, actions[0].w, actions[0].e, t) &&
     HonestRun(Step(s, actions[0].w, actions[0].e, lake), actions[1..], lake, t))
  }

  ghost predicate AllHonest(actions: seq<Action>) {
    forall i :: 0 <= i < |actions| ==> actions[i].e != CreateFails(true)
  }

  lemma {:induction false} AllHonestRun(s: State, actions: seq<Action>, lake: bool, t: Name)
    requires Runs(s, actions, lake) && AllHonest(actions)
    ensures HonestRun(s, actions, lake, t)
    decreases |actions|
  {
    hide Enabled, Step;
    if actions == [] {
    } else {
      assert actions[0].e != CreateFails(true);
      AllHonestRun(Step(s, actions[0].w, actions[0].e, lake), actions[1..], lake, t);
    }
  }

  lemma {:induction false} RunInv(s: State, actions: seq<Action>, lake: bool, t: Name)
    requires Inv(s, t) && Runs(s, actions, lake) && HonestRun(s, actions, lake, t)
    ensures Inv(After(s, actions, lake), t)
    decreases |actions|
  {
    hide Inv, Enabled, Step, Honest;
    if actions == [] {
    } else {
      InvStep(s, actions[0].w, actions[0].e, lake, t);
      RunInv(Step(s, actions[0].w, actions[0].e, lake), actions[1..], lake, t);
    }
  }

  ghost predicate StatementsFit(tables: Catalog, p: Phase) {
    p.Inserting? && p.statements != [] ==>
      p.job.table in tables && forall i :: 0 <= i < |p.statements| ==> p.statements[i] <= tables[p.job.table]
  }

  /** No INSERT that a writer is about to send names a column that the table does not have. */
  ghost predicate InsertsFit(s: State) {
    forall w :: 0 <= w < |s.writers| ==> StatementsFit(s.tables, s.writers[w])
  }

  /** The same for the INSERTs into one table. */
  ghost predicate InsertsFitAt(s: State, t: Name) {
    forall w :: 0 <= w < |s.writers| && JobTable(s.writers[w]) == Some(t) ==> StatementsFit(s.tables, s.writers[w])
  }

  lemma InvInserts(s: State, t: Name)
    requires Inv(s, t)
    ensures InsertsFitAt(s, t)
  {
    forall w | 0 <= w < |s.writers| && JobTable(s.writers[w]) == Some(t)
      ensures StatementsFit(s.tables, s.writers[w])
    {
      PhaseFits(s, s.writers[w], t);
    }
  }

  lemma PhaseFits(s: State, p: Phase, t: Name)
    requires Inv(s, t) && PhaseOk(s, p) && JobTable(p) == Some(t)
    ensures StatementsFit(s.tables, p)
  {
    if p.Inserting? && p.statements != [] {
      assert Known(s, p.job.table, p.statements[0]);
      forall i | 0 <= i < |p.statements|
        ensures p.statements[i] <= s.tables[p.job.table]
      {
        assert Known(s, p.job.table, p.statements[i]);
      }
    }
  }

  lemma AbsentAtFirst(s: State, t: Name)
    requires Init(s) && t !in s.tables
    ensures Inv(s, t)
  {
  }

  /**
    A table that did not exist at the start: every interleaving keeps its memo right and every INSERT into it possible,
    whatever other tables there were.
    */
  lemma AbsentTableIsSafe(s: State, actions: seq<Action>, lake: bool, t: Name)
    requires Init(s) && t !in s.tables && Runs(s, actions, lake) && HonestRun(s, actions, lake, t)
    ensures var n := After(s, actions, lake);
            InsertsFitAt(n, t) && (t in n.memo ==> t in n.tables && n.memo[t] <= n.tables[t])
  {
    AbsentAtFirst(s, t);
    RunInv(s, actions, lake, t);
    InvInserts(After(s, actions, lake), t);
  }

  /** From an empty lake, every interleaving keeps the memo right and every INSERT possible. */
  lemma EmptyLakeIsSafe(s: State, actions: seq<Action>, lake: bool)
    requires Init(s) && s.tables == map[] && Runs(s, actions, lake) && AllHonest(actions)
    ensures var n := After(s, actions, lake);
            InsertsFit(n) && forall t :: t in n.memo ==> t in n.tables && n.memo[t] <= n.tables[t]
  {
    hide Runs, After, AllHonest, HonestRun, StatementsFit;
    var n := After(s, actions, lake);
    forall t ensures InsertsFitAt(n, t) && (t in n.memo ==> t in n.tables && n.memo[t] <= n.tables[t]) {
      AllHonestRun(s, actions, lake, t);
      AbsentTableIsSafe(s, actions, lake, t);
    }
    forall w | 0 <= w < |n.writers| ensures StatementsFit(n.tables, n.writers[w]) {
      if JobTable(n.writers[w]).Some? {
        assert InsertsFitAt(n, JobTable(n.writers[w]).value);
      } else {
        IdleFits(n.tables, n.writers[w]);
      }
    }
  }

  lemma IdleFits(tables: Catalog, p: Phase)
    requires JobTable(p).None?
    ensures StatementsFit(tables, p)
  {
  }

  /** Over such a run the columns of the table only grow, in the lake and in the memo. */
  lemma {:induction false} ColumnsGrow(s: State, actions: seq<Action>, lake: bool, t: Name)
    requires Inv(s, t) && Runs(s, actions, lake) && HonestRun(s, actions, lake, t)
    ensures GrowsAt(s.tables, After(s, actions, lake).tables, t) && GrowsAt(s.memo, After(s, actions, lake).memo, t)
    decreases |actions|
  {
    hide Enabled, Step, Inv, Honest;
    if actions == [] {
    } else {
      var a := actions[0];
      var n := Step(s, a.w, a.e, lake);
      InvStep(s, a.w, a.e, lake, t);
      StepGrows(s, a.w, a.e, lake, t);
      ColumnsGrow(n, actions[1..], lake, t);
    }
  }

  // ---------------------------------------------------------------- what a writer has sent

  /** What one writer has done for its latest job: whether it fills dates, and the rows it has stored. */
  datatype History = History(begun: Option<Job>, fill: bool, sent: seq<Columns>)

  /** One step, written down for writer `w`. */
  ghost function Note(h: History, s: State, a: Action, w: nat, lake: bool): History
    requires Enabled(s, a.w, a.e, lake)
  {
    if a.w != w then h
    else
      match a.e
      case Begin(job) => History(Some(job), false, [])
      case ReadFill => History(h.begun, s.writers[w].job.table in s.dateFill, [])
      case Insert(ok) => if ok then h.(sent := h.sent + [s.writers[w].statements[0]]) else h
      case _ => h
  }

  ghost function Notes(h: History, s: State, actions: seq<Action>, w: nat, lake: bool): History
    requires Runs(s, actions, lake)
    decreases |actions|
  {
    if actions == [] then h
    else
      var a := actions[0];
      Notes(Note(h, s, a, w, lake), Step(s, a.w, a.e, lake), actions[1..], w, lake)
  }

  /** A writer at work is at work on the job it has begun; what it has sent and what it will send are its rows. */
  ghost predicate Agrees(p: Phase, h: History) {
    && (!p.Idle? ==> h.begun == Some(p.job))
    && (p.Inserting? ==> h.sent + p.statements == Dated(p.job.rows, h.fill))
  }

  lemma NoteStep(h: History, s: State, a: Action, w: nat, lake: bool)
    requires Enabled(s, a.w, a.e, lake) && w < |s.writers| && Agrees(s.writers[w], h)
    ensures var n := Step(s, a.w, a.e, lake);
            |n.writers| == |s.writers| && Agrees(n.writers[w], Note(h, s, a, w, lake))
  {
    hide AllColumns, Create, AddColumn;
    if a.w == w && a.e.Insert? && a.e.ok {
      var statements := s.writers[w].statements;
      assert statements == [statements[0]] + statements[1..];
      Assoc(h.sent, [statements[0]], statements[1..]);
    }
  }

  lemma {:induction false} NotesAgree(h: History, s: State, actions: seq<Action>, w: nat, lake: bool)
    requires Runs(s, actions, lake) && w < |s.writers| && Agrees(s.writers[w], h)
    ensures var n := After(s, actions, lake);
            w < |n.writers| && Agrees(n.writers[w], Notes(h, s, actions, w, lake))
    decreases |actions|
  {
    hide Enabled, Step, Agrees, Note;
    if actions != [] {
      var a := actions[0];
      NoteStep(h, s, a, w, lake);
      NotesAgree(Note(h, s, a, w, lake), Step(s, a.w, a.e, lake), actions[1..], w, lake);
    }
  }

  /**
    Whatever the other writers do: a writer that comes to the end of its job has sent one statement for each of
    its rows, in order, all of them with a date or none.
    */
  lemma DoneHasSentAll(s: State, actions: seq<Action>, w: nat, lake: bool)
    requires Init(s) && Runs(s, actions, lake) && w < |s.writers|
    ensures var h := Notes(History(None, false, []), s, actions, w, lake);
            Enabled(After(s, actions, lake), w, Done, lake) ==>
              h.begun.Some? && h.sent == Dated(h.begun.value.rows, h.fill)
  {
    hide Runs, After, Notes, Dated;
    NotesAgree(History(None, false, []), s, actions, w, lake);
    var h := Notes(History(None, false, []), s, actions, w, lake);
    assert h.sent + [] == h.sent;
  }

  // ---------------------------------------------------------------- the mutex never blocks for good

  lemma {:induction false} RunHolder(s: State, actions: seq<Action>, lake: bool)
    requires OneHolder(s) && Runs(s, actions, lake)
    ensures OneHolder(After(s, actions, lake))
    ensures |After(s, actions, lake).writers| == |s.writers|
    ensures HolderAtWork(s) ==> HolderAtWork(After(s, actions, lake))
    decreases |actions|
  {
    hide Enabled, Step, OneHolder, HolderAtWork;
    if actions != [] {
      var a := actions[0];
      HolderStep(s, a.w, a.e, lake);
      WorkStep(s, a.w, a.e, lake);
      RunHolder(Step(s, a.w, a.e, lake), actions[1..], lake);
    }
  }

  ghost predicate HolderAtWork(s: State) {
    s.holder.Some? ==> s.holder.value < |s.writers|
  }

  lemma WorkStep(s: State, w: nat, e: Event, lake: bool)
    requires Enabled(s, w, e, lake)
    ensures |Step(s, w, e, lake).writers| == |s.writers|
    ensures HolderAtWork(s) ==> HolderAtWork(Step(s, w, e, lake))
  {
    hide AllColumns, Create, AddColumn, Dated;
  }

  /** The statements that are answered without an error. */
  predicate Succeeds(e: Event) {
    match e
    case Begin(_) => false
    case CreateFails(_) => false
    case AddFails(_, _) => false
    case Insert(ok) => ok
    case _ => true
  }

  /** The step that a writer takes next when all goes well. */
  ghost function Next(p: Phase): Event
    requires !p.Idle?
  {
    match p
    case Waiting(_) => Lock
    case Deciding(_) => Decide
    case Creating(_, _) => CreateOk
    case Partitioning(_, _) => PartitionDone(false)
    case Adding(_, missing) => if missing == {} then Unlock else var col :| col in missing; AddOk(col)
    case Ensured(_) => ReadFill
    case Inserting(_, statements) => if statements == [] then Done else Insert(true)
  }

  /** No deadlock: in every run, as long as a writer is at work, some writer can take a step that succeeds. */
  lemma NeverStuck(s: State, actions: seq<Action>, lake: bool) returns (v: nat, e: Event)
    requires Init(s) && Runs(s, actions, lake)
    requires exists w :: 0 <= w < |After(s, actions, lake).writers| && !After(s, actions, lake).writers[w].Idle?
    ensures Succeeds(e) && Enabled(After(s, actions, lake), v, e, lake)
  {
    hide Runs, After;
    var n := After(s, actions, lake);
    RunHolder(s, actions, lake);
    var w :| 0 <= w < |n.writers| && !n.writers[w].Idle?;
    v := if n.holder.Some? then n.holder.value else w;
    e := Next(n.writers[v]);
  }

  /** How far a writer is from the end of its job: its stage, and what is left to do there. */
  ghost function Distance(p: Phase): (nat, nat) {
    match p
    case Idle => (0, 0)
    case Waiting(_) => (7, 0)
    case Deciding(_) => (6, 0)
    case Creating(_, _) => (5, 0)
    case Partitioning(_, _) => (4, 0)
    case Adding(_, missing) => (3, |missing|)
    case Ensured(_) => (2, 0)
    case Inserting(_, statements) => (1, |statements|)
  }

  /** Each step that succeeds brings the writer nearer to its end, whatever the others have done. */
  lemma NextMovesOn(s: State, w: nat, lake: bool)
    requires w < |s.writers| && !s.writers[w].Idle? && Enabled(s, w, Next(s.writers[w]), lake)
    ensures var p, n := s.writers[w], Step(s, w, Next(s.writers[w]), lake).writers[w];
            Distance(n).0 < Distance(p).0 || (Distance(n).0 == Distance(p).0 && Distance(n).1 < Distance(p).1)
  {
    hide AllColumns, Create, AddColumn, Dated;
  }

  // ---------------------------------------------------------------- columns that are added

  /** Only columns that the memo does not list are added. */
  ghost predicate AddsNeeded(s: State) {
    forall w :: 0 <= w < |s.writers| && s.writers[w].Adding? ==> Needed(s, s.writers[w])
  }

  ghost predicate Needed(s: State, p: Phase)
    requires p.Adding?
  {
    p.job.table in s.memo && p.missing !! s.memo[p.job.table]
  }

  lemma AddsNeededStep(s: State, w: nat, e: Event, lake: bool)
    requires AddsNeeded(s) && OneHolder(s) && Enabled(s, w, e, lake)
    ensures AddsNeeded(Step(s, w, e, lake))
  {
    hide Enabled, Step, OneHolder, Needed;
    var n := Step(s, w, e, lake);
    OthersStay(s, w, e, lake);
    forall v | 0 <= v < |n.writers| && n.writers[v].Adding?
      ensures Needed(n, n.writers[v])
    {
      if v == w {
        OwnNeeded(s, w, e, lake);
      } else {
        HolderIs(s, v);
        HolderUndisturbed(s, w, e, lake);
        SameNeeded(s, n, s.writers[v]);
      }
    }
  }

  lemma SameNeeded(s: State, n: State, p: Phase)
    requires p.Adding? && Needed(s, p) && n.memo == s.memo
    ensures Needed(n, p)
  {
  }

  lemma HolderIs(s: State, v: nat)
    requires OneHolder(s) && v < |s.writers| && s.writers[v].Adding?
    ensures s.holder == Some(v)
  {
  }

  lemma OwnNeeded(s: State, w: nat, e: Event, lake: bool)
    requires AddsNeeded(s) && Enabled(s, w, e, lake)
    ensures var n := Step(s, w, e, lake); w < |n.writers| && (n.writers[w].Adding? ==> Needed(n, n.writers[w]))
  {
    hide AllColumns, Create, AddColumn, Dated;
  }

  /** Over every run no ALTER is sent for a column that the process knows of. */
  lemma {:induction false} NoNeedlessAlter(s: State, actions: seq<Action>, lake: bool)
    requires AddsNeeded(s) && OneHolder(s) && Runs(s, actions, lake)
    ensures AddsNeeded(After(s, actions, lake))
    decreases |actions|
  {
    hide Enabled, Step, OneHolder, AddsNeeded;
    if actions != [] {
      var a := actions[0];
      AddsNeededStep(s, a.w, a.e, lake);
      HolderStep(s, a.w, a.e, lake);
      NoNeedlessAlter(Step(s, a.w, a.e, lake), actions[1..], lake);
    }
  }

  // ---------------------------------------------------------------- tables left by an earlier process

  /** No run names a missing column; `faults` says whether a CREATE may be applied and reported as failed. */
  ghost predicate SafeFrom(tables: Catalog, lake: bool, faults: bool) {
    forall s, actions ::
      Init(s) && s.tables == tables && Runs(s, actions, lake) && (faults || AllHonest(actions)) ==>
        InsertsFit(After(s, actions, lake))
  }

  /** No run names a missing column of the table; `faults` speaks of a CREATE of this table. */
  ghost predicate TableSafeFrom(tables: Catalog, t: Name, lake: bool, faults: bool) {
    forall s, actions ::
      Init(s) && s.tables == tables && Runs(s, actions, lake) && (faults || HonestRun(s, actions, lake, t)) ==>
        InsertsFitAt(After(s, actions, lake), t)
  }

  lemma {:induction false} LongerName(cols: Columns) returns (c: Name)
    ensures c !in cols && forall d :: d in cols ==> |d| < |c|
  {
    if cols == {} {
      c := [95];
    } else {
      var d :| d in cols;
      var e := LongerName(cols - {d});
      c := e + d + [95];
      assert forall x :: x in cols ==> x == d || x in cols - {d};
    }
  }

  /** The run in which one writer meets a table it did not create, with a column that table lacks. */
  function Meeting(job: Job): seq<Action> {
    [Action(0, Begin(job)), Action(0, Lock), Action(0, Decide), Action(0, CreateOk), Action(0, PartitionDone(false)),
     Action(0, ReadFill)]
  }

  ghost predicate StepTo(s: State, a: Action, n: State, lake: bool) {
    Enabled(s, a.w, a.e, lake) && n == Step(s, a.w, a.e, lake)
  }

  lemma RunCons(s: State, a: Action, n: State, rest: seq<Action>, lake: bool)
    requires StepTo(s, a, n, lake) && Runs(n, rest, lake)
    ensures Runs(s, [a] + rest, lake) && After(s, [a] + rest, lake) == After(n, rest, lake)
  {
    hide Enabled, Step;
    assert ([a] + rest)[1..] == rest;
  }

  /** A process with one idle writer that knows of no table. */
  function Fresh(tables: Catalog): State {
    State(tables, map[], {}, None, [Idle])
  }

  /** The writer at work on its job. */
  function Stage(tables: Catalog, memo: Catalog, held: bool, p: Phase): State {
    State(tables, memo, {}, if held then Some(0) else None, [p])
  }

  lemma MeetingBegins(tables: Catalog, job: Job, lake: bool)
    requires |job.rows| == 1 && TS in job.rows[0]
    ensures StepTo(Fresh(tables), Action(0, Begin(job)), Stage(tables, map[], false, Waiting(job)), lake)
    ensures StepTo(Stage(tables, map[], false, Waiting(job)), Action(0, Lock),
                   Stage(tables, map[], true, Deciding(job)), lake)
    ensures StepTo(Stage(tables, map[], true, Deciding(job)), Action(0, Decide),
                   Stage(tables, map[], true, Creating(job, Wanted(job, lake))), lake)
  {
  }

  lemma MeetingEnds(tables: Catalog, job: Job, lake: bool)
    requires job.table in tables
    ensures var memo := map[job.table := Wanted(job, lake)];
            var dated := DATE in tables[job.table];
            && StepTo(Stage(tables, map[], true, Creating(job, Wanted(job, lake))), Action(0, CreateOk),
                      Stage(tables, memo, true, Partitioning(job, dated)), lake)
            && StepTo(Stage(tables, memo, true, Partitioning(job, dated)), Action(0, PartitionDone(false)),
                      Stage(tables, memo, false, Ensured(job)), lake)
            && StepTo(Stage(tables, memo, false, Ensured(job)), Action(0, ReadFill),
                      Stage(tables, memo, false, Inserting(job, Dated(job.rows, false))), lake)
  {
  }

  lemma MeetingRuns(tables: Catalog, job: Job, lake: bool)
    requires job.table in tables && |job.rows| == 1 && TS in job.rows[0]
    ensures var s := Fresh(tables);
            && Runs(s, Meeting(job), lake)
            && After(s, Meeting(job), lake).tables == tables
            && After(s, Meeting(job), lake).writers == [Inserting(job, Dated(job.rows, false))]
  {
    hide StepTo, Fresh;
    MeetingBegins(tables, job, lake);
    MeetingEnds(tables, job, lake);
    var memo := map[job.table := Wanted(job, lake)];
    var last := Stage(tables, memo, false, Inserting(job, Dated(job.rows, false)));
    var m := Meeting(job);
    SixActions(m);
    var waiting, deciding := Stage(tables, map[], false, Waiting(job)), Stage(tables, map[], true, Deciding(job));
    var creating := Stage(tables, map[], true, Creating(job, Wanted(job, lake)));
    var partitioning := Stage(tables, memo, true, Partitioning(job, DATE in tables[job.table]));
    var ensured := Stage(tables, memo, false, Ensured(job));
    RunCons(ensured, m[5], last, [], lake);
    RunCons(partitioning, m[4], ensured, m[5..], lake);
    RunCons(creating, m[3], partitioning, m[4..], lake);
    RunCons(deciding, m[2], creating, m[3..], lake);
    RunCons(waiting, m[1], deciding, m[2..], lake);
    RunCons(Fresh(tables), m[0], waiting, m[1..], lake);
  }

  lemma SixActions<T>(m: seq<T>)
    requires |m| == 6
    ensures [m[5]] + [] == m[5..] && [m[4]] + m[5..] == m[4..] && [m[3]] + m[4..] == m[3..]
    ensures [m[2]] + m[3..] == m[2..] && [m[1]] + m[2..] == m[1..] && [m[0]] + m[1..] == m
  {
  }

  /** A table is created and reported as not; the process does not know it. */
  function Unreported(job: Job): seq<Action> {
    [Action(0, Begin(job)), Action(0, Lock), Action(0, Decide), Action(0, CreateFails(true))]
  }

  lemma UnreportedStep(tables: Catalog, job: Job, lake: bool)
    requires job.table !in tables
    ensures StepTo(Stage(tables, map[], true, Creating(job, Wanted(job, lake))), Action(0, CreateFails(true)),
                   Fresh(tables[job.table := Wanted(job, lake)]), lake)
  {
  }

  lemma UnreportedRuns(tables: Catalog, job: Job, lake: bool, rest: seq<Action>)
    requires |job.rows| == 1 && TS in job.rows[0] && job.table !in tables
    requires Runs(Fresh(tables[job.table := Wanted(job, lake)]), rest, lake)
    ensures var s := Fresh(tables);
            && Runs(s, Unreported(job) + rest, lake)
            && After(s, Unreported(job) + rest, lake) == After(Fresh(tables[job.table := Wanted(job, lake)]), rest,
                    lake)
  {
    hide StepTo, Fresh, Stage;
    MeetingBegins(tables, job, lake);
    UnreportedStep(tables, job, lake);
    var m := Unreported(job);
    var waiting, deciding := Stage(tables, map[], false, Waiting(job)), Stage(tables, map[], true, Deciding(job));
    var creating := Stage(tables, map[], true, Creating(job, Wanted(job, lake)));
    RunCons(creating, m[3], Fresh(tables[job.table := Wanted(job, lake)]), rest, lake);
    RunCons(deciding, m[2], creating, [m[3]] + rest, lake);
    RunCons(waiting, m[1], deciding, [m[2]] + ([m[3]] + rest), lake);
    RunCons(Fresh(tables), m[0], waiting, [m[1]] + ([m[2]] + ([m[3]] + rest)), lake);
    assert m + rest == [m[0]] + ([m[1]] + ([m[2]] + ([m[3]] + rest)));
  }

  function Wanted(job: Job, lake: bool): Columns {
    AllColumns(job.rows) + {TS} + (if lake then {DATE} else {})
  }

  /** Such a table has the effect of one left by an earlier process. */
  lemma UnreportedTableBreaks(tables: Catalog, t: Name, lake: bool)
    requires t !in tables
    ensures !TableSafeFrom(tables, t, lake, true)
  {
    hide Runs, After;
    var first := Job(t, [{TS}]);
    var cols := Wanted(first, lake);
    var c := LongerName(cols);
    var job := Job(t, [{TS, c}]);
    MeetingMisses(tables[t := cols], job, c, lake);
    UnreportedRuns(tables, first, lake, Meeting(job));
    assert Init(Fresh(tables));
  }

  lemma MeetingMisses(tables: Catalog, job: Job, c: Name, lake: bool)
    requires job.table in tables && |job.rows| == 1 && TS in job.rows[0] && c in job.rows[0] && c !in tables[job.table]
    ensures var s := Fresh(tables);
            Runs(s, Meeting(job), lake) && !InsertsFitAt(After(s, Meeting(job), lake), job.table)
  {
    hide Enabled, Step, Runs, After;
    MeetingRuns(tables, job, lake);
    var n := After(Fresh(tables), Meeting(job), lake);
    assert c in n.writers[0].statements[0];
    assert !StatementsFit(n.tables, n.writers[0]);
  }

  lemma LeftoverTableBreaks(tables: Catalog, t: Name, lake: bool, faults: bool)
    requires t in tables
    ensures !TableSafeFrom(tables, t, lake, faults) && !SafeFrom(tables, lake, faults)
  {
    hide Runs, After, HonestRun;
    var c := LongerName(tables[t]);
    var job := Job(t, [{TS, c}]);
    MeetingMisses(tables, job, c, lake);
    assert Init(Fresh(tables));
    assert AllHonest(Meeting(job));
    AllHonestRun(Fresh(tables), Meeting(job), lake, t);
    FitAt(After(Fresh(tables), Meeting(job), lake), t);
  }

  lemma FitAt(s: State, t: Name)
    ensures InsertsFit(s) ==> InsertsFitAt(s, t)
  {
  }

  /**
    The exact condition for one table: all runs are safe for it if and only if it did not exist at the start and no
    CREATE of it is applied and reported as failed. CREATE TABLE IF NOT EXISTS leaves an old table as it is, but the
    memo then lists the new columns.
    */
  lemma TableSafeIff(tables: Catalog, t: Name, lake: bool, faults: bool)
    ensures TableSafeFrom(tables, t, lake, faults) <==> t !in tables && !faults
  {
    hide Runs, After, InsertsFitAt, HonestRun;
    if t in tables {
      LeftoverTableBreaks(tables, t, lake, faults);
    } else if faults {
      UnreportedTableBreaks(tables, t, lake);
    } else {
      forall s, actions | Init(s) && s.tables == tables && Runs(s, actions, lake) && HonestRun(s, actions, lake, t)
        ensures InsertsFitAt(After(s, actions, lake), t)
      {
        AbsentTableIsSafe(s, actions, lake, t);
      }
    }
  }

  /**
    For all tables: if and only if the lake holds none at the start and no CREATE is applied and reported
    as failed.
    */
  lemma SafeIffEmpty(tables: Catalog, lake: bool, faults: bool)
    ensures SafeFrom(tables, lake, faults) <==> tables == map[] && !faults
  {
    hide Runs, After, InsertsFit, InsertsFitAt;
    if tables != map[] {
      var t :| t in tables;
      LeftoverTableBreaks(tables, t, lake, faults);
    } else if faults {
      UnreportedTableBreaks(tables, [TAB], lake);
      FaultySafe(tables, [TAB], lake);
    } else {
      forall s, actions | Init(s) && s.tables == tables && Runs(s, actions, lake) && AllHonest(actions)
        ensures InsertsFit(After(s, actions, lake))
      {
        EmptyLakeIsSafe(s, actions, lake);
      }
    }
  }

  lemma FaultySafe(tables: Catalog, t: Name, lake: bool)
    ensures SafeFrom(tables, lake, true) ==> TableSafeFrom(tables, t, lake, true)
  {
    hide Runs, After, InsertsFit, InsertsFitAt;
    forall s, actions | Init(s) && Runs(s, actions, lake)
      ensures InsertsFit(After(s, actions, lake)) ==> InsertsFitAt(After(s, actions, lake), t)
    {
      FitAt(After(s, actions, lake), t);
    }
  }
}
