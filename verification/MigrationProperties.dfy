/** What the NOT NULL migration keeps and what a completed run achieves. */
module MigrationProperties {
  import opened NullabilityMigration
  import opened Wrappers

  // ---------- Invariants of a table ----------

  /** NOT NULL columns store no NULL. */
  ghost predicate Sound<V>(t: Table<V>) {
    forall c :: c in t && !t[c].nullable ==> !HasNull(t[c].cells)
  }

  /** Same columns and rows, and every value that was there is still there. */
  ghost predicate KeepsData<V>(t: Table<V>, t': Table<V>) {
    && t.Keys == t'.Keys
    && (forall c :: c in t ==> |t'[c].cells| == |t[c].cells|)
    && (forall c, i :: c in t && 0 <= i < |t[c].cells| && t[c].cells[i].Some? ==> t'[c].cells[i] == t[c].cells[i])
  }

  lemma ExecKeeps<V>(t: Table<V>, s: Statement<V>)
    requires Exec(t, s).Success?
    ensures KeepsData(t, Exec(t, s).value)
    ensures Sound(t) ==> Sound(Exec(t, s).value)
  {
    assert Exec(t, s).value.Keys == t.Keys + {s.column} == t.Keys;
  }

  lemma {:induction false} ExecAllKeeps<V>(t: Table<V>, statements: seq<Statement<V>>)
    requires ExecAll(t, statements).Success?
    ensures KeepsData(t, ExecAll(t, statements).value)
    ensures Sound(t) ==> Sound(ExecAll(t, statements).value)
  {
    if statements != [] {
      var init := statements[..|statements| - 1];
      ExecAllKeeps(t, init);
      ExecKeeps(ExecAll(t, init).value, statements[|statements| - 1]);
    }
  }

  /** A batch either takes full effect or leaves its table as it was. */
  lemma {:induction false} BatchIsAtomic<V>(t: Table<V>, statements: seq<Statement<V>>, faults: seq<Fault>, attempt: nat)
    requires attempt < MAX_ATTEMPTS
    ensures var r := RunBatchFrom(t, statements, faults, attempt);
            if r.ok then ExecAll(t, statements) == Success(r.table) else r.table == t
    decreases MAX_ATTEMPTS - attempt
  {
    if attempt + 1 < MAX_ATTEMPTS {
      BatchIsAtomic(t, statements, faults, attempt + 1);
    }
  }

  // ---------- Invariants of a run ----------

  ghost predicate SoundDatabase<V>(db: Database<V>) {
    forall name :: name in db ==> Sound(db[name])
  }

  ghost predicate KeepsAllData<V>(db: Database<V>, db': Database<V>) {
    db.Keys == db'.Keys && forall name :: name in db ==> KeepsData(db[name], db'[name])
  }

  lemma MigrateBatchKeeps<V>(db: Database<V>, batch: Batch<V>, faults: seq<Fault>, up: bool)
    ensures KeepsAllData(db, MigrateBatch(db, batch, faults, up).database)
    ensures SoundDatabase(db) ==> SoundDatabase(MigrateBatch(db, batch, faults, up).database)
  {
    var name := batch.table;
    if name in db && Todo(db[name], batch, up) != [] {
      var statements := Todo(db[name], batch, up);
      BatchIsAtomic(db[name], statements, faults, 0);
      if RunBatchFrom(db[name], statements, faults, 0).ok {
        ExecAllKeeps(db[name], statements);
      }
      assert MigrateBatch(db, batch, faults, up).database.Keys == db.Keys + {name} == db.Keys;
    }
  }

  /** Whatever goes wrong, a run in either direction keeps NOT NULL columns free of NULL and alters no value. */
  lemma {:induction false} RunKeeps<V>(db: Database<V>, batches: seq<Batch<V>>, faults: seq<seq<Fault>>, up: bool)
    ensures KeepsAllData(db, Migrate(db, batches, faults, up).database)
    ensures SoundDatabase(db) ==> SoundDatabase(Migrate(db, batches, faults, up).database)
  {
    if batches != [] {
      var n := |batches| - 1;
      RunKeeps(db, batches[..n], faults, up);
      var before := Migrate(db, batches[..n], faults, up);
      if before.ok {
        MigrateBatchKeeps(before.database, batches[n], FaultsOf(faults, n), up);
        DataComposes(db, before.database, Migrate(db, batches, faults, up).database);
      }
    }
  }

  lemma DataComposes<V>(a: Database<V>, b: Database<V>, c: Database<V>)
    requires KeepsAllData(a, b) && KeepsAllData(b, c)
    ensures KeepsAllData(a, c)
  {
    forall name | name in a
      ensures KeepsData(a[name], c[name])
    {
      var s, t, u := a[name], b[name], c[name];
      assert KeepsData(s, t) && KeepsData(t, u);
    }
  }

  // ---------- What a batch achieves ----------

  /** The column exists and has the wanted nullability. */
  ghost predicate Done<V>(t: Table<V>, column: Name, up: bool) {
    column in t ==> t[column].nullable != up
  }

  lemma {:induction false} OpenMembers<V>(t: Table<V>, targets: seq<Target<V>>, up: bool)
    ensures forall g :: g in Open(t, targets, up) ==> g in targets && g.column in t && t[g.column].nullable == up
    ensures forall i :: 0 <= i < |targets| && targets[i].column in t && t[targets[i].column].nullable == up ==>
              targets[i] in Open(t, targets, up)
  {
    if targets != [] {
      OpenMembers(t, targets[..|targets| - 1], up);
    }
  }

  ghost predicate HasColumn<V>(open: seq<Target<V>>, c: Name) {
    exists i :: 0 <= i < |open| && open[i].column == c
  }

  lemma OneMoreColumn<V>(init: seq<Target<V>>, last: Target<V>, c: Name)
    ensures HasColumn(init + [last], c) <==> HasColumn(init, c) || c == last.column
  {
    var all := init + [last];
    assert all[|init|] == last && forall i :: 0 <= i < |init| ==> all[i] == init[i];
  }

  lemma ExecPush<V>(t: Table<V>, statements: seq<Statement<V>>, s: Statement<V>)
    requires ExecAll(t, statements).Success?
    ensures ExecAll(t, statements + [s]) == Exec(ExecAll(t, statements).value, s)
  {
    assert (statements + [s])[..|statements|] == statements;
  }

  lemma LastTarget<V>(open: seq<Target<V>>) returns (init: seq<Target<V>>, last: Target<V>)
    requires open != []
    ensures open == init + [last] && |init| < |open|
    ensures forall i :: 0 <= i < |init| ==> init[i] == open[i]
    ensures last == open[|open| - 1]
  {
    init, last := open[..|open| - 1], open[|open| - 1];
  }

  /** The open columns hold no NULL any more; nothing else changed. */
  ghost predicate Backfilled<V>(t: Table<V>, r: Table<V>, open: seq<Target<V>>) {
    && r.Keys == t.Keys
    && (forall c :: c in t ==> r[c].nullable == t[c].nullable)
    && (forall c :: c in t && HasColumn(open, c) ==> !HasNull(r[c].cells))
    && (forall c :: c in t && !HasColumn(open, c) ==> r[c] == t[c])
  }

  lemma OneBackfill<V>(t: Table<V>, before: Table<V>, init: seq<Target<V>>, last: Target<V>)
    requires Backfilled(t, before, init) && last.column in t
    ensures var r := Exec(before, Backfill(last.column, last.fill));
            r.Success? && Backfilled(t, r.value, init + [last])
  {
    var after := Exec(before, Backfill(last.column, last.fill)).value;
    assert after.Keys == before.Keys + {last.column} == t.Keys;
    forall c | c in t
      ensures HasColumn(init + [last], c) <==> HasColumn(init, c) || c == last.column
    {
      OneMoreColumn(init, last, c);
    }
  }

  /** Every open column exists, so the backfills succeed. */
  lemma {:induction false} BackfillsSucceed<V>(t: Table<V>, open: seq<Target<V>>)
    requires forall i :: 0 <= i < |open| ==> open[i].column in t
    ensures var r := ExecAll(t, Backfills(open)); r.Success? && Backfilled(t, r.value, open)
    decreases |open|
  {
    if open != [] {
      var init, last := LastTarget(open);
      BackfillsSucceed(t, init);
      assert Backfills(open) == Backfills(init) + [Backfill(last.column, last.fill)];
      ExecPush(t, Backfills(init), Backfill(last.column, last.fill));
      OneBackfill(t, ExecAll(t, Backfills(init)).value, init, last);
    }
  }

  /** The open columns have the wanted nullability; nothing else changed. */
  ghost predicate Altered<V>(t: Table<V>, r: Table<V>, open: seq<Target<V>>, up: bool) {
    && r.Keys == t.Keys
    && (forall c :: c in t ==> r[c].cells == t[c].cells)
    && (forall c :: c in t ==> r[c].nullable == if HasColumn(open, c) then !up else t[c].nullable)
  }

  lemma OneAlter<V>(t: Table<V>, before: Table<V>, init: seq<Target<V>>, last: Target<V>, up: bool)
    requires Altered(t, before, init, up) && last.column in t && (up ==> !HasNull(t[last.column].cells))
    ensures var r := Exec(before, Alter(last, up)); r.Success? && Altered(t, r.value, init + [last], up)
  {
    var after := Exec(before, Alter(last, up)).value;
    assert after.Keys == before.Keys + {last.column} == t.Keys;
    forall c | c in t
      ensures HasColumn(init + [last], c) <==> HasColumn(init, c) || c == last.column
    {
      OneMoreColumn(init, last, c);
    }
  }

  /** Altering columns that exist, and hold no NULL on the way up, succeeds. */
  lemma {:induction false} AltersSucceed<V>(t: Table<V>, open: seq<Target<V>>, up: bool)
    requires forall i :: 0 <= i < |open| ==> open[i].column in t && (up ==> !HasNull(t[open[i].column].cells))
    ensures var r := ExecAll(t, Alters(open, up)); r.Success? && Altered(t, r.value, open, up)
    decreases |open|
  {
    if open != [] {
      var init, last := LastTarget(open);
      AltersSucceed(t, init, up);
      assert Alters(open, up) == Alters(init, up) + [Alter(last, up)];
      ExecPush(t, Alters(init, up), Alter(last, up));
      OneAlter(t, ExecAll(t, Alters(init, up)).value, init, last, up);
    }
  }

  lemma {:induction false} ExecAllAppend<V>(t: Table<V>, a: seq<Statement<V>>, b: seq<Statement<V>>)
    requires ExecAll(t, a).Success?
    ensures ExecAll(t, a + b) == ExecAll(ExecAll(t, a).value, b)
  {
    if b == [] {
      assert a + b == a;
    } else {
      ExecAllAppend(t, a, b[..|b| - 1]);
      assert (a + b)[..|a + b| - 1] == a + b[..|b| - 1];
    }
  }

  /** On the way up the columns are first rid of their NULLs. */
  ghost predicate Prepared<V>(t: Table<V>, filled: Table<V>, open: seq<Target<V>>, up: bool) {
    if up then Backfilled(t, filled, open) else filled == t
  }

  /** A batch prepares its open columns and then alters them. */
  lemma TodoRuns<V>(t: Table<V>, batch: Batch<V>, open: seq<Target<V>>, up: bool) returns (filled: Table<V>)
    requires open == Open(t, batch.targets, up) && forall i :: 0 <= i < |open| ==> open[i].column in t
    ensures var r := ExecAll(t, Todo(t, batch, up));
            r.Success? && Prepared(t, filled, open, up) && Altered(filled, r.value, open, up)
  {
    filled := t;
    if up {
      BackfillsSucceed(t, open);
      filled := ExecAll(t, Backfills(open)).value;
      ExecAllAppend(t, Backfills(open), Alters(open, true));
    }
    forall i | 0 <= i < |open|
      ensures open[i].column in filled && (up ==> !HasNull(filled[open[i].column].cells))
    {
      assert HasColumn(open, open[i].column);
    }
    AltersSucceed(filled, open, up);
  }

  /** Every target is done, and columns that are no target or already done are as they were in that respect. */
  ghost predicate Achieved<V>(t: Table<V>, r: Table<V>, targets: seq<Target<V>>, up: bool) {
    && r.Keys == t.Keys
    && (forall i :: 0 <= i < |targets| ==> Done(r, targets[i].column, up))
    && (forall c :: c in t && !HasColumn(targets, c) ==> r[c] == t[c])
    && (forall c :: c in t && t[c].nullable != up ==> r[c].nullable != up)
  }

  /** The open columns are exactly those of the targets that are not done. */
  lemma OpenColumns<V>(t: Table<V>, targets: seq<Target<V>>, up: bool, open: seq<Target<V>>)
    requires open == Open(t, targets, up)
    ensures forall i :: 0 <= i < |open| ==> open[i].column in t
    ensures forall c :: HasColumn(open, c) <==> HasColumn(targets, c) && c in t && t[c].nullable == up
  {
    OpenMembers(t, targets, up);
    forall i | 0 <= i < |open|
      ensures open[i] in targets && open[i].column in t && t[open[i].column].nullable == up
    {
      assert open[i] in open;
    }
    forall c
      ensures HasColumn(open, c) <==> HasColumn(targets, c) && c in t && t[c].nullable == up
    {
      if HasColumn(open, c) {
        var k :| 0 <= k < |open| && open[k].column == c;
        var i :| 0 <= i < |targets| && targets[i] == open[k];
      }
      if HasColumn(targets, c) && c in t && t[c].nullable == up {
        var i :| 0 <= i < |targets| && targets[i].column == c;
        assert targets[i] in open;
        var k :| 0 <= k < |open| && open[k] == targets[i];
      }
    }
  }

  lemma AlteredAchieves<V>(t: Table<V>, filled: Table<V>, r: Table<V>, targets: seq<Target<V>>, open: seq<Target<V>>, up: bool)
    requires Prepared(t, filled, open, up) && Altered(filled, r, open, up)
    requires forall c :: HasColumn(open, c) <==> HasColumn(targets, c) && c in t && t[c].nullable == up
    ensures Achieved(t, r, targets, up)
  {
    forall i | 0 <= i < |targets|
      ensures Done(r, targets[i].column, up)
    {
      assert HasColumn(targets, targets[i].column);
    }
  }

  /** The statements of a batch cannot fail on stored rows, and bring every existing target to the wanted state. */
  lemma TodoSucceeds<V>(t: Table<V>, batch: Batch<V>, up: bool)
    ensures var r := ExecAll(t, Todo(t, batch, up)); r.Success? && Achieved(t, r.value, batch.targets, up)
  {
    var open := Open(t, batch.targets, up);
    OpenColumns(t, batch.targets, up, open);
    var filled := TodoRuns(t, batch, open, up);
    AlteredAchieves(t, filled, ExecAll(t, Todo(t, batch, up)).value, batch.targets, open, up);
  }

  lemma NoWorkMeansDone<V>(t: Table<V>, batch: Batch<V>, up: bool)
    ensures Todo(t, batch, up) == [] <==> forall i :: 0 <= i < |batch.targets| ==> Done(t, batch.targets[i].column, up)
  {
    OpenMembers(t, batch.targets, up);
    var open := Open(t, batch.targets, up);
    assert |Todo(t, batch, up)| == if up then 2 * |open| else |open|;
    if open != [] {
      assert open[0] in open;
      var i :| 0 <= i < |batch.targets| && batch.targets[i] == open[0];
      assert !Done(t, batch.targets[i].column, up);
    }
  }

  // ---------- What a completed run achieves ----------

  ghost predicate BatchDone<V>(db: Database<V>, batch: Batch<V>, up: bool) {
    batch.table in db ==> forall i :: 0 <= i < |batch.targets| ==> Done(db[batch.table], batch.targets[i].column, up)
  }

  /** A completed batch is done, and undoes no earlier batch. */
  lemma CompletedBatch<V>(db: Database<V>, batch: Batch<V>, faults: seq<Fault>, up: bool)
    requires MigrateBatch(db, batch, faults, up).ok
    ensures var db' := MigrateBatch(db, batch, faults, up).database;
            && BatchDone(db', batch, up)
            && forall other: Batch<V> :: BatchDone(db, other, up) ==> BatchDone(db', other, up)
  {
    var name := batch.table;
    if name in db {
      NoWorkMeansDone(db[name], batch, up);
      if Todo(db[name], batch, up) != [] {
        BatchIsAtomic(db[name], Todo(db[name], batch, up), faults, 0);
        TodoSucceeds(db[name], batch, up);
      }
    }
  }

  /** A run that completes makes every existing target column NOT NULL (or, on the way down, nullable). */
  lemma {:induction false} CompletedRun<V>(db: Database<V>, batches: seq<Batch<V>>, faults: seq<seq<Fault>>, up: bool)
    requires Migrate(db, batches, faults, up).ok
    ensures forall k :: 0 <= k < |batches| ==> BatchDone(Migrate(db, batches, faults, up).database, batches[k], up)
  {
    if batches != [] {
      var n := |batches| - 1;
      CompletedRun(db, batches[..n], faults, up);
      CompletedBatch(Migrate(db, batches[..n], faults, up).database, batches[n], FaultsOf(faults, n), up);
    }
  }

  lemma {:induction false} NothingToDo<V>(db: Database<V>, batches: seq<Batch<V>>, faults: seq<seq<Fault>>, up: bool)
    requires forall k :: 0 <= k < |batches| ==> BatchDone(db, batches[k], up)
    ensures Migrate(db, batches, faults, up) == MigrationOutcome(db, true)
  {
    if batches != [] {
      var n := |batches| - 1;
      NothingToDo(db, batches[..n], faults, up);
      if batches[n].table in db {
        NoWorkMeansDone(db[batches[n].table], batches[n], up);
      }
    }
  }

  // ---------- Interrupted runs ----------

  /** The database after a series of upgrade attempts, each cut short by whatever faults it met. */
  function AfterUpgrades<V>(db: Database<V>, batches: seq<Batch<V>>, runs: seq<seq<seq<Fault>>>): Database<V> {
    if runs == [] then db
    else Migrate(AfterUpgrades(db, batches, runs[..|runs| - 1]), batches, runs[|runs| - 1], true).database
  }

  /**
   * After any number of interrupted upgrades no value has changed; one upgrade that completes then makes
   * every existing target NOT NULL with no NULL stored, and any further upgrade changes nothing.
   */
  lemma {:induction false} ResumeCompletes<V>(db: Database<V>, batches: seq<Batch<V>>, runs: seq<seq<seq<Fault>>>,
                                              last: seq<seq<Fault>>, again: seq<seq<Fault>>)
    requires SoundDatabase(db)
    ensures var middle := AfterUpgrades(db, batches, runs);
            var end := Migrate(middle, batches, last, true);
            && SoundDatabase(end.database) && KeepsAllData(db, end.database)
            && (end.ok ==>
                  && (forall k :: 0 <= k < |batches| ==> BatchDone(end.database, batches[k], true))
                  && Migrate(end.database, batches, again, true) == MigrationOutcome(end.database, true))
    decreases |runs|
  {
    var middle := AfterUpgrades(db, batches, runs);
    if runs == [] {
      assert KeepsAllData(db, middle);
    } else {
      ResumeCompletes(db, batches, runs[..|runs| - 1], runs[|runs| - 1], again);
    }
    var end := Migrate(middle, batches, last, true);
    RunKeeps(middle, batches, last, true);
    DataComposes(db, middle, end.database);
    if end.ok {
      CompletedRun(middle, batches, last, true);
      NothingToDo(end.database, batches, again, true);
    }
  }

  /** Deadlocks, lock and statement timeouts and serialization failures. */
  ghost predicate IsTransient(s: SqlState) {
    s == Deadlock || s == LockNotAvailable || s == QueryCanceled || s == SerializationFailure
  }

  /** The fault hits one of the n statements or the commit. */
  ghost predicate Strikes(fault: Fault, n: nat) {
    fault.FailAt? && fault.step <= n
  }

  lemma PrefixSucceeds<V>(t: Table<V>, statements: seq<Statement<V>>, k: nat)
    requires k <= |statements| && ExecAll(t, statements).Success?
    ensures ExecAll(t, statements[..k]).Success?
  {
    var r := ExecAll(t, statements[..k]);
    if r.Failure? {
      FailureIsFinal(t, statements, k, r.error);
    }
  }

  lemma AttemptOutcome<V>(t: Table<V>, statements: seq<Statement<V>>, fault: Fault)
    requires ExecAll(t, statements).Success?
    ensures if Strikes(fault, |statements|) then Attempt(t, statements, fault) == Failure(fault.state)
            else Attempt(t, statements, fault).Success?
  {
    if Strikes(fault, |statements|) {
      PrefixSucceeds(t, statements, fault.step);
    }
  }

  /** Some attempt before the fourth is not hit, and only transient errors hit those before it. */
  ghost predicate Survivable(faults: seq<Fault>, n: nat, attempt: nat) {
    exists q :: attempt <= q < 3 && SurvivesAt(faults, n, attempt, q)
  }

  ghost predicate SurvivesAt(faults: seq<Fault>, n: nat, attempt: nat, q: nat) {
    && !Strikes(FaultOf(faults, q), n)
    && forall i :: attempt <= i < q ==> Strikes(FaultOf(faults, i), n) && IsTransient(FaultOf(faults, i).state)
  }

  /** A batch on stored rows completes exactly when its faults are survivable. */
  lemma {:induction false} BatchSurvives<V>(t: Table<V>, batch: Batch<V>, up: bool, faults: seq<Fault>, attempt: nat)
    requires attempt < 3
    ensures var todo := Todo(t, batch, up);
            RunBatchFrom(t, todo, faults, attempt).ok <==> Survivable(faults, |todo|, attempt)
    decreases 3 - attempt
  {
    var todo, fault := Todo(t, batch, up), FaultOf(faults, attempt);
    TodoSucceeds(t, batch, up);
    AttemptOutcome(t, todo, fault);
    if !Strikes(fault, |todo|) {
      assert SurvivesAt(faults, |todo|, attempt, attempt);
    } else if IsTransient(fault.state) && attempt < 2 {
      BatchSurvives(t, batch, up, faults, attempt + 1);
      LaterSurvival(faults, |todo|, attempt, attempt + 1);
    }
  }

  lemma LaterSurvival(faults: seq<Fault>, n: nat, attempt: nat, next: nat)
    requires next == attempt + 1
    requires Strikes(FaultOf(faults, attempt), n) && IsTransient(FaultOf(faults, attempt).state)
    ensures Survivable(faults, n, attempt) <==> Survivable(faults, n, next)
  {
    if q :| attempt <= q < 3 && SurvivesAt(faults, n, attempt, q) {
      assert SurvivesAt(faults, n, next, q);
    }
    if q :| next <= q < 3 && SurvivesAt(faults, n, next, q) {
      assert SurvivesAt(faults, n, attempt, q);
    }
  }

  /** A quiet attempt within the allowed number, with only retryable errors before it, completes the batch. */
  lemma {:induction false} RetryableFaultsAreSurvived<V>(t: Table<V>, batch: Batch<V>, up: bool, faults: seq<Fault>,
                                                         attempt: nat, quiet: nat)
    requires attempt <= quiet < 3 && FaultOf(faults, quiet).Quiet?
    requires forall i :: attempt <= i < quiet ==> FaultOf(faults, i).FailAt? ==> IsTransient(FaultOf(faults, i).state)
    ensures RunBatchFrom(t, Todo(t, batch, up), faults, attempt).ok
    decreases quiet - attempt
  {
    TodoSucceeds(t, batch, up);
    if attempt < quiet {
      RetryableFaultsAreSurvived(t, batch, up, faults, attempt + 1, quiet);
    }
  }

  /** Without faults a run always completes: the migration cannot fail on existing rows. */
  lemma {:induction false} QuietRunCompletes<V>(db: Database<V>, batches: seq<Batch<V>>, up: bool)
    ensures Migrate(db, batches, [], up).ok
  {
    if batches != [] {
      var n := |batches| - 1;
      QuietRunCompletes(db, batches[..n], up);
      var before := Migrate(db, batches[..n], [], up).database;
      if batches[n].table in before {
        RetryableFaultsAreSurvived(before[batches[n].table], batches[n], up, [], 0, 0);
      }
    }
  }

  ghost predicate IsTarget<V>(batches: seq<Batch<V>>, table: Name, c: Name) {
    exists k :: 0 <= k < |batches| && batches[k].table == table && HasColumn(batches[k].targets, c)
  }

  lemma OtherColumnsInBatch<V>(db: Database<V>, batch: Batch<V>, faults: seq<Fault>, up: bool, table: Name, c: Name)
    requires table in db && c in db[table] && !(batch.table == table && HasColumn(batch.targets, c))
    ensures var db' := MigrateBatch(db, batch, faults, up).database;
            table in db' && c in db'[table] && db'[table][c] == db[table][c]
  {
    if batch.table in db {
      BatchIsAtomic(db[batch.table], Todo(db[batch.table], batch, up), faults, 0);
      TodoSucceeds(db[batch.table], batch, up);
    }
  }

  /** A run touches no column that is not a target. */
  lemma {:induction false} OtherColumnsStay<V>(db: Database<V>, batches: seq<Batch<V>>, faults: seq<seq<Fault>>,
                                               up: bool, table: Name, c: Name)
    requires table in db && c in db[table] && !IsTarget(batches, table, c)
    ensures var db' := Migrate(db, batches, faults, up).database;
            table in db' && c in db'[table] && db'[table][c] == db[table][c]
  {
    if batches != [] {
      var n := |batches| - 1;
      OtherColumnsStay(db, batches[..n], faults, up, table, c);
      var before := Migrate(db, batches[..n], faults, up);
      OtherColumnsInBatch(before.database, batches[n], FaultsOf(faults, n), up, table, c);
    }
  }

  /** A target column that is NOT NULL before and after keeps its whole content. */
  lemma TargetColumnReturns<V>(db: Database<V>, db': Database<V>, batches: seq<Batch<V>>, table: Name, c: Name)
    requires KeepsAllData(db, db') && SoundDatabase(db) && table in db && c in db[table]
    requires IsTarget(batches, table, c)
    requires forall k :: 0 <= k < |batches| ==> BatchDone(db, batches[k], true) && BatchDone(db', batches[k], true)
    ensures db'[table][c] == db[table][c]
  {
    var k :| 0 <= k < |batches| && batches[k].table == table && HasColumn(batches[k].targets, c);
    var i :| 0 <= i < |batches[k].targets| && batches[k].targets[i].column == c;
    assert KeepsData(db[table], db'[table]) && Sound(db[table]);
    assert Done(db[table], c, true) && Done(db'[table], c, true);
    assert db'[table][c].cells == db[table][c].cells;
  }

  /** Undoing a completed upgrade and upgrading again gives back the upgraded database. */
  lemma DownAndUpAgain<V>(db: Database<V>, batches: seq<Batch<V>>)
    requires SoundDatabase(db)
    ensures var up := Migrate(db, batches, [], true).database;
            var down := Migrate(up, batches, [], false).database;
            && (forall k :: 0 <= k < |batches| ==> BatchDone(down, batches[k], false))
            && Migrate(down, batches, [], true) == MigrationOutcome(up, true)
  {
    var up := Migrate(db, batches, [], true).database;
    var down := Migrate(up, batches, [], false).database;
    var again := Migrate(down, batches, [], true).database;
    RunKeeps(db, batches, [], true);
    RunKeeps(up, batches, [], false);
    RunKeeps(down, batches, [], true);
    DataComposes(up, down, again);
    QuietRunCompletes(db, batches, true);
    QuietRunCompletes(up, batches, false);
    QuietRunCompletes(down, batches, true);
    CompletedRun(db, batches, [], true);
    CompletedRun(up, batches, [], false);
    CompletedRun(down, batches, [], true);
    forall table | table in up
      ensures again[table] == up[table]
    {
      assert KeepsData(up[table], down[table]) && KeepsData(up[table], again[table]);
      forall c | c in up[table]
        ensures again[table][c] == up[table][c]
      {
        if IsTarget(batches, table, c) {
          TargetColumnReturns(up, again, batches, table, c);
        } else {
          OtherColumnsStay(up, batches, [], false, table, c);
          OtherColumnsStay(down, batches, [], true, table, c);
        }
      }
    }
  }

  // ---------- What NULLs become ----------

  /** The value is the fill of a target for that column. */
  ghost predicate IsFill<V>(batches: seq<Batch<V>>, table: Name, c: Name, v: V) {
    exists k :: 0 <= k < |batches| && batches[k].table == table && HasFill(batches[k].targets, c, v)
  }

  ghost predicate HasFill<V>(targets: seq<Target<V>>, c: Name, v: V) {
    exists i :: 0 <= i < |targets| && targets[i].column == c && targets[i].fill == v
  }

  /** Cells that were NULL and are not any more hold fills of their own column. */
  ghost predicate FillsNulls<V>(t: Table<V>, t': Table<V>, batches: seq<Batch<V>>, table: Name)
    requires KeepsData(t, t')
  {
    forall c, i :: c in t && 0 <= i < |t[c].cells| && t[c].cells[i].None? && t'[c].cells[i].Some? ==>
      IsFill(batches, table, c, t'[c].cells[i].value)
  }

  lemma FillsCompose<V>(a: Table<V>, b: Table<V>, c: Table<V>, batches: seq<Batch<V>>, table: Name)
    requires KeepsData(a, b) && KeepsData(b, c) && FillsNulls(a, b, batches, table) && FillsNulls(b, c, batches, table)
    ensures KeepsData(a, c) && FillsNulls(a, c, batches, table)
  {
    forall x, i | x in a && 0 <= i < |a[x].cells| && a[x].cells[i].None? && c[x].cells[i].Some?
      ensures IsFill(batches, table, x, c[x].cells[i].value)
    {
      if b[x].cells[i].Some? {
        assert c[x].cells[i] == b[x].cells[i];
      }
    }
  }

  ghost predicate FromTargets<V>(s: Statement<V>, batches: seq<Batch<V>>, table: Name) {
    s.Backfill? ==> IsFill(batches, table, s.column, s.fill)
  }

  lemma ExecFills<V>(t: Table<V>, s: Statement<V>, batches: seq<Batch<V>>, table: Name)
    requires Exec(t, s).Success? && FromTargets(s, batches, table)
    ensures KeepsData(t, Exec(t, s).value) && FillsNulls(t, Exec(t, s).value, batches, table)
  {
    ExecKeeps(t, s);
  }

  lemma {:induction false} ExecAllFills<V>(t: Table<V>, statements: seq<Statement<V>>, batches: seq<Batch<V>>, table: Name)
    requires ExecAll(t, statements).Success?
    requires forall i :: 0 <= i < |statements| ==> FromTargets(statements[i], batches, table)
    ensures KeepsData(t, ExecAll(t, statements).value) && FillsNulls(t, ExecAll(t, statements).value, batches, table)
  {
    if statements != [] {
      var init, last := statements[..|statements| - 1], statements[|statements| - 1];
      ExecAllFills(t, init, batches, table);
      ExecFills(ExecAll(t, init).value, last, batches, table);
      FillsCompose(t, ExecAll(t, init).value, ExecAll(t, statements).value, batches, table);
    }
  }

  lemma TodoIsFromTargets<V>(t: Table<V>, batches: seq<Batch<V>>, k: nat, up: bool)
    requires k < |batches|
    ensures forall i :: 0 <= i < |Todo(t, batches[k], up)| ==> FromTargets(Todo(t, batches[k], up)[i], batches, batches[k].table)
  {
    var batch, open, todo := batches[k], Open(t, batches[k].targets, up), Todo(t, batches[k], up);
    OpenMembers(t, batch.targets, up);
    forall i | 0 <= i < |todo| && todo[i].Backfill?
      ensures IsFill(batches, batch.table, todo[i].column, todo[i].fill)
    {
      assert open[i] in open;
      var j :| 0 <= j < |batch.targets| && batch.targets[j] == open[i];
      assert HasFill(batch.targets, todo[i].column, todo[i].fill);
    }
  }

  ghost predicate FillsAllNulls<V>(db: Database<V>, db': Database<V>, batches: seq<Batch<V>>)
    requires KeepsAllData(db, db')
  {
    forall name :: name in db ==> FillsNulls(db[name], db'[name], batches, name)
  }

  lemma BatchFills<V>(db: Database<V>, batches: seq<Batch<V>>, k: nat, faults: seq<Fault>, up: bool)
    requires k < |batches|
    ensures var db' := MigrateBatch(db, batches[k], faults, up).database;
            KeepsAllData(db, db') && FillsAllNulls(db, db', batches)
  {
    MigrateBatchKeeps(db, batches[k], faults, up);
    var name := batches[k].table;
    if name in db {
      var statements := Todo(db[name], batches[k], up);
      BatchIsAtomic(db[name], statements, faults, 0);
      if RunBatchFrom(db[name], statements, faults, 0).ok {
        TodoIsFromTargets(db[name], batches, k, up);
        ExecAllFills(db[name], statements, batches, name);
      }
    }
  }

  lemma DatabaseFillsCompose<V>(a: Database<V>, b: Database<V>, c: Database<V>, batches: seq<Batch<V>>)
    requires KeepsAllData(a, b) && KeepsAllData(b, c) && FillsAllNulls(a, b, batches) && FillsAllNulls(b, c, batches)
    ensures KeepsAllData(a, c) && FillsAllNulls(a, c, batches)
  {
    forall name | name in a
      ensures KeepsData(a[name], c[name]) && FillsNulls(a[name], c[name], batches, name)
    {
      FillsCompose(a[name], b[name], c[name], batches, name);
    }
  }

  lemma NothingFilled<V>(db: Database<V>, batches: seq<Batch<V>>)
    ensures KeepsAllData(db, db) && FillsAllNulls(db, db, batches)
  {
  }

  /** Under every fault and in both directions, a NULL that a run replaces becomes a fill of its own column. */
  lemma {:induction false} RunFillsFromTargets<V>(db: Database<V>, batches: seq<Batch<V>>, n: nat,
                                                   faults: seq<seq<Fault>>, up: bool)
    requires n <= |batches|
    ensures var db' := Migrate(db, batches[..n], faults, up).database;
            KeepsAllData(db, db') && FillsAllNulls(db, db', batches)
  {
    if n == 0 {
      NothingFilled(db, batches);
    } else {
      RunFillsFromTargets(db, batches, n - 1, faults, up);
      assert batches[..n][..n - 1] == batches[..n - 1];
      var before := Migrate(db, batches[..n - 1], faults, up);
      if before.ok {
        BatchFills(before.database, batches, n - 1, FaultsOf(faults, n - 1), up);
        DatabaseFillsCompose(db, before.database, Migrate(db, batches[..n], faults, up).database, batches);
      }
    }
  }
}
