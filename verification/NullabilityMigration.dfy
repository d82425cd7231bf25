/** The resumable NOT NULL migration: one short retried transaction per table. */
module NullabilityMigration {
  import opened SortedKeys
  import opened Wrappers

  type Name = Key

  const MAX_ATTEMPTS := 3

  /** A column's cells row by row; an absent cell is NULL. */
  datatype Column<V> = Column(nullable: bool, cells: seq<Option<V>>)

  type Table<V> = map<Name, Column<V>>
  type Database<V> = map<Name, Table<V>>

  datatype Target<V> = Target(column: Name, fill: V)
  datatype Batch<V> = Batch(table: Name, targets: seq<Target<V>>)

  datatype Statement<V> = Backfill(column: Name, fill: V) | SetNotNull(column: Name) | DropNotNull(column: Name)

  datatype SqlState = Deadlock | LockNotAvailable | QueryCanceled | SerializationFailure | NotNullViolation | Other

  predicate Retryable(s: SqlState) {
    s.Deadlock? || s.LockNotAvailable? || s.QueryCanceled? || s.SerializationFailure?
  }

  /** What the surroundings do to one attempt: nothing, or an error at some step; step |statements| is the commit. */
  datatype Fault = Quiet | FailAt(step: nat, state: SqlState)

  // ---------- Statements ----------

  function Filled<V>(cells: seq<Option<V>>, fill: V): (r: seq<Option<V>>)
    ensures |r| == |cells|
    ensures forall i :: 0 <= i < |r| ==> r[i] == if cells[i].None? then Some(fill) else cells[i]
  {
    seq(|cells|, i requires 0 <= i < |cells| => if cells[i].None? then Some(fill) else cells[i])
  }

  predicate HasNull<V>(cells: seq<Option<V>>) {
    exists i :: 0 <= i < |cells| && cells[i].None?
  }

  /** A statement fails on an unknown column, and SET NOT NULL on a column that stores a NULL. */
  function Exec<V>(t: Table<V>, s: Statement<V>): Result<Table<V>, SqlState> {
    if s.column !in t then Failure(Other)
    else
      var c := t[s.column];
      match s
      case Backfill(name, fill) => Success(t[name := Column(c.nullable, Filled(c.cells, fill))])
      case SetNotNull(name) =>
        if HasNull(c.cells) then Failure(NotNullViolation) else Success(t[name := Column(false, c.cells)])
      case DropNotNull(name) => Success(t[name := Column(true, c.cells)])
  }

  function ExecAll<V>(t: Table<V>, statements: seq<Statement<V>>): Result<Table<V>, SqlState> {
    if statements == [] then Success(t)
    else
      var before :- ExecAll(t, statements[..|statements| - 1]);
      Exec(before, statements[|statements| - 1])
  }

  /** One transaction: all statements and the commit, or no effect. */
  function Attempt<V>(t: Table<V>, statements: seq<Statement<V>>, fault: Fault): Result<Table<V>, SqlState> {
    if fault.FailAt? && fault.step <= |statements| && ExecAll(t, statements[..fault.step]).Success? then
      Failure(fault.state)
    else ExecAll(t, statements)
  }

  datatype Outcome<V> = Outcome(table: Table<V>, ok: bool)

  /** The given faults strike the attempts in turn; later attempts are undisturbed. */
  function FaultOf(faults: seq<Fault>, attempt: nat): (fault: Fault)
    ensures attempt < |faults| ==> fault == faults[attempt]
  {
    if attempt < |faults| then faults[attempt] else Quiet
  }

  /** The attempts from number `attempt` on. */
  function RunBatchFrom<V>(t: Table<V>, statements: seq<Statement<V>>, faults: seq<Fault>, attempt: nat): Outcome<V>
    requires attempt < MAX_ATTEMPTS
    decreases MAX_ATTEMPTS - attempt
  {
    match Attempt(t, statements, FaultOf(faults, attempt))
    case Success(t') => Outcome(t', true)
    case Failure(state) =>
      if Retryable(state) && attempt + 1 < MAX_ATTEMPTS then RunBatchFrom(t, statements, faults, attempt + 1)
      else Outcome(t, false)
  }

  // ---------- The connection ----------

  class Connection<V> {
    var database: Database<V>
    // The uncommitted contents of the table the open transaction works on.
    var working: Option<Table<V>>

    constructor (database: Database<V>)
      ensures this.database == database && working.None?
    {
      this.database := database;
      working := None;
    }

    method Begin(table: Name)
      requires table in database
      modifies this`working
      ensures working == Some(database[table])
    {
      working := Some(database[table]);
    }

    method Execute(s: Statement<V>) returns (error: Option<SqlState>)
      requires working.Some?
      modifies this`working
      ensures match Exec(old(working).value, s)
              case Success(t) => error.None? && working == Some(t)
              case Failure(state) => error == Some(state) && working == old(working)
    {
      match Exec(working.value, s)
      case Success(t) => working := Some(t); error := None;
      case Failure(state) => error := Some(state);
    }

    method Commit(table: Name)
      requires working.Some?
      modifies this
      ensures database == old(database)[table := old(working).value] && working.None?
    {
      database := database[table := working.value];
      working := None;
    }

    method Rollback()
      modifies this`working
      ensures working.None?
    {
      working := None;
    }

    /** One attempt under the given fault. */
    method TryBatch(table: Name, statements: seq<Statement<V>>, fault: Fault) returns (error: Option<SqlState>)
      requires table in database
      modifies this
      ensures match Attempt(old(database)[table], statements, fault)
              case Success(t) => error.None? && database == old(database)[table := t]
              case Failure(state) => error == Some(state) && database == old(database)
    {
      Begin(table);
      var i := 0;
      while i < |statements|
        invariant i <= |statements| && database == old(database)
        invariant working.Some? && ExecAll(database[table], statements[..i]) == Success(working.value)
        invariant fault.FailAt? ==> fault.step >= i
      {
        if fault.FailAt? && fault.step == i {
          Rollback();
          return Some(fault.state);
        }
        assert statements[..i + 1][..i] == statements[..i];
        var failed := Execute(statements[i]);
        if failed.Some? {
          Rollback();
          FailureIsFinal(database[table], statements, i + 1, failed.value);
          assert fault.FailAt? && fault.step <= |statements| ==> ExecAll(database[table], statements[..fault.step]).Failure?
            by {
              if fault.FailAt? && fault.step <= |statements| {
                PrefixFailure(database[table], statements, i + 1, fault.step, failed.value);
              }
            }
          return failed;
        }
        i := i + 1;
      }
      assert statements[..|statements|] == statements;
      if fault.FailAt? && fault.step == i {
        Rollback();
        return Some(fault.state);
      }
      Commit(table);
      error := None;
    }

    /** The retry loop. */
    method RunBatch(table: Name, statements: seq<Statement<V>>, faults: seq<Fault>) returns (ok: bool)
      requires table in database
      modifies this
      ensures table in database && database == old(database)[table := database[table]]
      ensures Outcome(database[table], ok) == RunBatchFrom(old(database)[table], statements, faults, 0)
    {
      var attempt := 0;
      while true
        invariant attempt < MAX_ATTEMPTS && database == old(database)
        invariant RunBatchFrom(database[table], statements, faults, attempt)
               == RunBatchFrom(old(database)[table], statements, faults, 0)
        decreases MAX_ATTEMPTS - attempt
      {
        var error := TryBatch(table, statements, FaultOf(faults, attempt));
        if error.None? {
          return true;
        }
        if !(Retryable(error.value) && attempt + 1 < MAX_ATTEMPTS) {
          assert database == old(database)[table := database[table]];
          return false;
        }
        attempt := attempt + 1;
      }
    }

    method Upgrade(batches: seq<Batch<V>>, faults: seq<seq<Fault>>) returns (ok: bool)
      modifies this
      ensures MigrationOutcome(database, ok) == Migrate(old(database), batches, faults, true)
    {
      ok := Run(batches, faults, true);
    }

    method Downgrade(batches: seq<Batch<V>>, faults: seq<seq<Fault>>) returns (ok: bool)
      modifies this
      ensures MigrationOutcome(database, ok) == Migrate(old(database), batches, faults, false)
    {
      ok := Run(batches, faults, false);
    }

    /** Table after table; the first batch that cannot be completed ends the run. */
    method Run(batches: seq<Batch<V>>, faults: seq<seq<Fault>>, up: bool) returns (ok: bool)
      modifies this
      ensures MigrationOutcome(database, ok) == Migrate(old(database), batches, faults, up)
    {
      for k := 0 to |batches|
        invariant Migrate(old(database), batches[..k], faults, up) == MigrationOutcome(database, true)
      {
        var batch := batches[k];
        assert batches[..k + 1][..k] == batches[..k];
        if batch.table in database {
          var statements := Todo(database[batch.table], batch, up);
          if statements != [] {
            ok := RunBatch(batch.table, statements, FaultsOf(faults, k));
            if !ok {
              StoppedRun(old(database), batches, faults, up, k + 1);
              return false;
            }
          }
        }
      }
      assert batches[..|batches|] == batches;
      ok := true;
    }
  }

  // ---------- A whole run ----------

  /** The targets that still have to change. */
  function Open<V>(t: Table<V>, targets: seq<Target<V>>, up: bool): seq<Target<V>> {
    if targets == [] then []
    else
      var last := targets[|targets| - 1];
      Open(t, targets[..|targets| - 1], up)
      + (if last.column in t && t[last.column].nullable == up then [last] else [])
  }

  function Backfills<V>(targets: seq<Target<V>>): seq<Statement<V>> {
    seq(|targets|, i requires 0 <= i < |targets| => Backfill(targets[i].column, targets[i].fill))
  }

  function Alter<V>(g: Target<V>, up: bool): Statement<V> {
    if up then SetNotNull(g.column) else DropNotNull(g.column)
  }

  function Alters<V>(targets: seq<Target<V>>, up: bool): seq<Statement<V>> {
    seq(|targets|, i requires 0 <= i < |targets| => Alter(targets[i], up))
  }

  /** The statements of one batch: on the way up every column is backfilled before any is altered. */
  function Todo<V>(t: Table<V>, batch: Batch<V>, up: bool): seq<Statement<V>> {
    var open := Open(t, batch.targets, up);
    if up then Backfills(open) + Alters(open, true) else Alters(open, false)
  }

  datatype MigrationOutcome<V> = MigrationOutcome(database: Database<V>, ok: bool)

  function FaultsOf(faults: seq<seq<Fault>>, k: nat): (r: seq<Fault>)
    ensures k < |faults| ==> r == faults[k]
  {
    if k < |faults| then faults[k] else []
  }

  function MigrateBatch<V>(db: Database<V>, batch: Batch<V>, faults: seq<Fault>, up: bool): MigrationOutcome<V> {
    if batch.table !in db || Todo(db[batch.table], batch, up) == [] then MigrationOutcome(db, true)
    else
      var r := RunBatchFrom(db[batch.table], Todo(db[batch.table], batch, up), faults, 0);
      MigrationOutcome(db[batch.table := r.table], r.ok)
  }

  function Migrate<V>(db: Database<V>, batches: seq<Batch<V>>, faults: seq<seq<Fault>>, up: bool): MigrationOutcome<V> {
    if batches == [] then MigrationOutcome(db, true)
    else
      var n := |batches| - 1;
      var before := Migrate(db, batches[..n], faults, up);
      if !before.ok then before else MigrateBatch(before.database, batches[n], FaultsOf(faults, n), up)
  }

  // ---------- Facts about the loops ----------

  lemma {:induction false} FailureIsFinal<V>(t: Table<V>, statements: seq<Statement<V>>, k: nat, state: SqlState)
    requires k <= |statements| && ExecAll(t, statements[..k]) == Failure(state)
    ensures ExecAll(t, statements) == Failure(state)
    decreases |statements|
  {
    if k < |statements| {
      var init := statements[..|statements| - 1];
      assert init[..k] == statements[..k];
      FailureIsFinal(t, init, k, state);
    } else {
      assert statements[..k] == statements;
    }
  }

  lemma PrefixFailure<V>(t: Table<V>, statements: seq<Statement<V>>, k: nat, n: nat, state: SqlState)
    requires k <= n <= |statements| && ExecAll(t, statements[..k]) == Failure(state)
    ensures ExecAll(t, statements[..n]) == Failure(state)
  {
    assert statements[..n][..k] == statements[..k];
    FailureIsFinal(t, statements[..n], k, state);
  }

  lemma {:induction false} StoppedRun<V>(db: Database<V>, batches: seq<Batch<V>>, faults: seq<seq<Fault>>, up: bool, k: nat)
    requires k <= |batches| && !Migrate(db, batches[..k], faults, up).ok
    ensures Migrate(db, batches, faults, up) == Migrate(db, batches[..k], faults, up)
    decreases |batches|
  {
    if k < |batches| {
      var init := batches[..|batches| - 1];
      assert init[..k] == batches[..k];
      StoppedRun(db, init, faults, up, k);
    } else {
      assert batches[..k] == batches;
    }
  }
}
