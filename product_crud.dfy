/**
 * The Product CRUD program of javaexp3.java. It has one JDBC connection with
 * auto-commit switched off. Every change runs one parameterised statement.
 * A statement that affected a row is followed by a commit, and one that
 * affected none by a rollback. Every SQLException in a change goes to a
 * rollback.
 *
 * The database is a value with two tables:
 *  - committed: what a commit has made durable;
 *  - working: what this connection sees, its own uncommitted changes included.
 * It also holds the AUTO_INCREMENT counter and the list of commit and
 * rollback calls the program made, in order. Each SQLException that JDBC
 * could raise is a flag given to the operation that meets it.
 */
module ProductCrud {
  import opened Wrappers
  import opened MenuLoop

  /** A Product row without its key. The price is in cents, as DECIMAL(10, 2) stores it. */
  datatype Product = Product(name: string, price: int, quantity: int)

  type Table = map<int, Product>

  datatype Call = Commit | Rollback

  datatype Db = Db(committed: Table, working: Table, nextId: int, log: seq<Call>)

  /** Every key, committed or pending, is one the counter has already handed out. */
  predicate Valid(db: Db) {
    && (forall k :: k in db.committed ==> k < db.nextId)
    && (forall k :: k in db.working ==> k < db.nextId)
  }

  // ---------------------------------------------------------------------
  // The three statements
  // ---------------------------------------------------------------------

  /** SQL_INSERT, SQL_UPDATE and SQL_DELETE with their parameters bound. */
  datatype Statement = Insert(row: Product) | Update(id: int, row: Product) | Delete(id: int)

  /** What executeUpdate leaves behind: the table, the counter and the affected-row count. */
  datatype Executed = Executed(table: Table, nextId: int, affected: nat)

  /** The key a statement writes: the next counter value for an insert, the given ProductID otherwise. */
  function Target(s: Statement, nextId: int): int {
    if s.Insert? then nextId else s.id
  }

  /** executeUpdate on the working table. */
  function Execute(t: Table, nextId: int, s: Statement): (r: Executed)
    ensures s.Insert? ==> && r.affected == 1 && r.nextId == nextId + 1
                          && r.table.Keys == t.Keys + {nextId} && r.table[nextId] == s.row
    ensures s.Update? ==> && (r.affected == 1 <==> s.id in t) && r.affected <= 1
                          && r.table.Keys == t.Keys && (s.id in t ==> r.table[s.id] == s.row)
    ensures s.Delete? ==> && (r.affected == 1 <==> s.id in t) && r.affected <= 1
                          && r.table.Keys == t.Keys - {s.id}
    ensures !s.Insert? ==> r.nextId == nextId
    ensures forall k :: k in t && k != Target(s, nextId) ==> k in r.table && r.table[k] == t[k]
  {
    match s
    case Insert(row) => Executed(t[nextId := row], nextId + 1, 1)
    case Update(id, row) => if id in t then Executed(t[id := row], nextId, 1) else Executed(t, nextId, 0)
    case Delete(id) => if id in t then Executed(t - {id}, nextId, 1) else Executed(t, nextId, 0)
  }

  /** The row an insert adds has a key no row had before, and the counter moves past it. */
  lemma InsertIsFresh(db: Db, row: Product)
    requires Valid(db)
    ensures db.nextId !in db.working
    ensures var r := Execute(db.working, db.nextId, Insert(row));
      forall k :: k in r.table ==> k < r.nextId
  {
  }

  // ---------------------------------------------------------------------
  // The transaction around a statement
  // ---------------------------------------------------------------------

  /**
   * The SQLExceptions one operation can meet, each from the JDBC call it
   * names. rollback is the call in the zero-row branch, close the
   * PreparedStatement's close() at the end of the try-with-resources block,
   * recovery the rollback in handleTransactionFailure. fetch = k says that
   * readAllProducts reads k rows and then the next rs.next() or a getter
   * throws; with n rows, k = n is the last rs.next(), the one that would
   * have answered false.
   */
  datatype Faults = Faults(prepare: bool, execute: bool, commit: bool, rollback: bool,
                           close: bool, recovery: bool, fetch: Option<nat>)

  const NoFaults := Faults(false, false, false, false, false, false, None)

  /** Which message an operation ends with. */
  datatype Outcome =
    | Committed            // [SUCCESS] ... transaction committed.
    | NothingChanged       // [WARNING] ... Transaction rolled back.
    | FailedRolledBack     // [ERROR], then [TRANSACTION] Rollback successful due to error.
    | FailedCritical       // [ERROR], then [CRITICAL] Could not execute rollback.
    | FailedUnconnected    // [ERROR] with no connection: no rollback is tried.
    | InputRejected        // [ERROR] Invalid number format ...

  /** handleTransactionFailure: a rollback when there is a connection; a failing rollback is only reported. */
  function Recover(db: Db, connected: bool, rollbackFails: bool): (r: (Db, Outcome))
    ensures connected <==> r.0.log == db.log + [Rollback]
    ensures !connected ==> r == (db, FailedUnconnected)
    ensures r.0.committed == db.committed && r.0.nextId == db.nextId
    ensures r.1 == FailedRolledBack ==> r.0.working == r.0.committed
    ensures connected ==> (r.1 == FailedCritical <==> rollbackFails)
    ensures r.1 == FailedCritical ==> r.0.working == db.working
  {
    if !connected then (db, FailedUnconnected)
    else if rollbackFails then (db.(log := db.log + [Rollback]), FailedCritical)
    else (db.(working := db.committed, log := db.log + [Rollback]), FailedRolledBack)
  }

  /**
   * The end of a try-with-resources body that completed: a close() that
   * throws goes to the helper as well. When the body itself throws, close()'s
   * exception is suppressed, and when prepareStatement throws there is
   * nothing to close.
   */
  function Close(r: (Db, Outcome), f: Faults): (Db, Outcome) {
    if f.close then Recover(r.0, true, f.recovery) else r
  }

  /** The try-with-resources block of createProduct, updateProduct and deleteProduct. */
  function Transact(db: Db, s: Statement, f: Faults): (Db, Outcome) {
    if f.prepare || f.execute then Recover(db, true, f.recovery)
    else
      var e := Execute(db.working, db.nextId, s);
      var executed := db.(working := e.table, nextId := e.nextId);
      if e.affected > 0 then
        var committing := executed.(log := executed.log + [Commit]);
        if f.commit then Recover(committing, true, f.recovery)
        else Close((committing.(committed := committing.working), Committed), f)
      else
        var rollingBack := executed.(log := executed.log + [Rollback]);
        if f.rollback then Recover(rollingBack, true, f.recovery)
        else Close((rollingBack.(working := rollingBack.committed), NothingChanged), f)
  }

  /** A statement that affected a row is followed by one commit and no rollback, and the change is durable. */
  lemma CommitWhenRowAffected(db: Db, s: Statement)
    requires Execute(db.working, db.nextId, s).affected > 0
    ensures var r := Transact(db, s, NoFaults);
      && r.1 == Committed
      && r.0.log == db.log + [Commit]
      && r.0.committed == r.0.working == Execute(db.working, db.nextId, s).table
  {
  }

  /** A statement that affected no row is followed by one rollback and no commit, and nothing changes. */
  lemma RollbackWhenNoRow(db: Db, s: Statement)
    requires Execute(db.working, db.nextId, s).affected == 0
    ensures var r := Transact(db, s, NoFaults);
      && r.1 == NothingChanged
      && r.0.log == db.log + [Rollback]
      && r.0.committed == r.0.working == db.committed
  {
  }

  /** An insert always affects its row, so its "creation failed" warning cannot be reached. */
  lemma InsertNeverWarns(db: Db, row: Product, f: Faults)
    ensures Transact(db, Insert(row), f).1 != NothingChanged
  {
  }

  /** An SQLException from prepareStatement or executeUpdate leads to a single rollback; the statement has no effect. */
  lemma StatementFailureRollsBack(db: Db, s: Statement, f: Faults)
    requires f.prepare || f.execute
    ensures var r := Transact(db, s, f);
      && r.0.log == db.log + [Rollback]
      && r.0.committed == db.committed && r.0.nextId == db.nextId
      && (r.1 == FailedCritical <==> f.recovery)
      && (r.1 == FailedRolledBack <==> !f.recovery)
  {
  }

  /** When commit throws, the helper rolls back: the log shows a commit call followed by a rollback call. */
  lemma CommitFailureRollsBack(db: Db, s: Statement, f: Faults)
    requires !f.prepare && !f.execute && f.commit
    requires Execute(db.working, db.nextId, s).affected > 0
    ensures var r := Transact(db, s, f);
      && r.0.log == db.log + [Commit, Rollback]
      && r.0.committed == db.committed
      && (r.1 == FailedCritical <==> f.recovery)
  {
  }

  /**
   * When the rollback after a zero-row statement throws, the helper tries a
   * second rollback. Critical is reported only when that one throws too;
   * otherwise the pending work is discarded.
   */
  lemma FailedRollbackIsRetried(db: Db, s: Statement, f: Faults)
    requires !f.prepare && !f.execute && f.rollback
    requires Execute(db.working, db.nextId, s).affected == 0
    ensures var r := Transact(db, s, f);
      && r.0.log == db.log + [Rollback, Rollback]
      && r.1 == (if f.recovery then FailedCritical else FailedRolledBack)
      && (!f.recovery ==> r.0.working == r.0.committed == db.committed)
  {
  }

  /**
   * When close() throws after a successful commit, the helper still rolls
   * back and reports the failure, but the change is already durable.
   */
  lemma CloseFailureAfterCommit(db: Db, s: Statement, f: Faults)
    requires !f.prepare && !f.execute && !f.commit && f.close
    requires Execute(db.working, db.nextId, s).affected > 0
    ensures var r := Transact(db, s, f);
      && r.0.log == db.log + [Commit, Rollback]
      && r.0.committed == Execute(db.working, db.nextId, s).table
      && r.1 == (if f.recovery then FailedCritical else FailedRolledBack)
  {
  }

  /**
   * Unless the helper's rollback failed, no uncommitted change is left
   * behind. Only a successful commit changes the committed table, and then
   * to the table the statement produced; the operation reports Committed
   * unless close() threw afterwards.
   */
  lemma NoPendingChanges(db: Db, s: Statement, f: Faults)
    ensures var r := Transact(db, s, f);
      && (r.1 != FailedCritical ==> r.0.working == r.0.committed)
      && (r.1 == FailedCritical ==> f.recovery)
      && (r.0.committed == db.committed || r.0.committed == Execute(db.working, db.nextId, s).table)
      && (r.1 != Committed && !f.close ==> r.0.committed == db.committed)
      && (r.1 == Committed ==> r.0.committed == Execute(db.working, db.nextId, s).table)
  {
  }

  /** Each operation ends with exactly one commit or rollback call when nothing fails, and at most two otherwise. */
  lemma CallsPerOperation(db: Db, s: Statement, f: Faults)
    ensures var r := Transact(db, s, f);
      && |db.log| + 1 <= |r.0.log| <= |db.log| + 2
      && r.0.log[..|db.log|] == db.log
      && (f == NoFaults ==> |r.0.log| == |db.log| + 1)
  {
  }

  /** The counter only grows, and no committed or pending key reaches it. */
  lemma TransactValid(db: Db, s: Statement, f: Faults)
    requires Valid(db)
    ensures Valid(Transact(db, s, f).0)
    ensures Transact(db, s, f).0.nextId >= db.nextId
  {
  }

  // ---------------------------------------------------------------------
  // What the operations read from the console
  // ---------------------------------------------------------------------

  /**
   * The values an operation reads. A number is None when nextInt or
   * nextDouble throws InputMismatchException. createProduct reads name,
   * price and quantity; updateProduct reads id, name, price and quantity;
   * deleteProduct reads the id.
   */
  datatype Form = Form(id: Option<int>, name: string, price: Option<int>, quantity: Option<int>)

  /** The statement createProduct prepares, or None when a number fails to read. */
  function CreateStatement(form: Form): Option<Statement> {
    if form.price.None? || form.quantity.None? then None
    else Some(Insert(Product(form.name, form.price.value, form.quantity.value)))
  }

  function UpdateStatement(form: Form): Option<Statement> {
    if form.id.None? || form.price.None? || form.quantity.None? then None
    else Some(Update(form.id.value, Product(form.name, form.price.value, form.quantity.value)))
  }

  function DeleteStatement(form: Form): Option<Statement> {
    if form.id.None? then None else Some(Delete(form.id.value))
  }

  /** An operation as a whole: malformed input is caught before prepareStatement, so nothing is run. */
  function Operation(db: Db, s: Option<Statement>, f: Faults): (Db, Outcome) {
    if s.None? then (db, InputRejected) else Transact(db, s.value, f)
  }

  // ---------------------------------------------------------------------
  // readAllProducts: SELECT ... ORDER BY ProductID
  // ---------------------------------------------------------------------

  /** m is the smallest key of the set. */
  predicate IsLeast(m: int, keys: set<int>) {
    m in keys && forall k :: k in keys ==> m <= k
  }

  function MinKey(keys: set<int>): (m: int)
    requires keys != {}
    ensures m in keys && forall k :: k in keys ==> m <= k
  {
    MinExists(keys);
    var m :| IsLeast(m, keys);
    m
  }

  lemma {:induction false} MinExists(keys: set<int>)
    requires keys != {}
    ensures exists m :: IsLeast(m, keys)
  {
    NonEmpty(keys);
    var x :| x in keys;
    var rest := keys - {x};
    if rest == {} {
      forall k | k in keys ensures x <= k {
        assert k !in rest;
      }
      assert IsLeast(x, keys);
    } else {
      MinExists(rest);
      var m :| IsLeast(m, rest);
      var least := if x < m then x else m;
      forall k | k in keys ensures least <= k {
        if k != x { assert k in rest; }
      }
      assert IsLeast(least, keys);
    }
  }

  lemma NonEmpty(keys: set<int>)
    requires keys != {}
    ensures exists x :: x in keys
  {
    if forall x :: x !in keys {
      assert false;
    }
  }

  /** The rows of a table in ascending key order, each with its key. */
  function RowsById(t: Table): (rows: seq<(int, Product)>)
    ensures forall i :: 0 <= i < |rows| ==> rows[i].0 in t && t[rows[i].0] == rows[i].1
    ensures forall i, j :: 0 <= i < j < |rows| ==> rows[i].0 < rows[j].0
    decreases t.Keys
  {
    if t.Keys == {} then []
    else
      var m := MinKey(t.Keys);
      var rest := RowsById(t - {m});
      [(m, t[m])] + rest
  }

  /** The listing has one entry per key. */
  lemma {:induction false} RowsByIdLength(t: Table)
    ensures |RowsById(t)| == |t.Keys|
    decreases t.Keys
  {
    if t.Keys != {} {
      var m := MinKey(t.Keys);
      var rest := t - {m};
      RowsByIdLength(rest);
      assert t.Keys == rest.Keys + {m} && m !in rest.Keys;
    }
  }

  /** Some row of the listing carries key k. */
  predicate Lists(rows: seq<(int, Product)>, k: int) {
    exists i :: 0 <= i < |rows| && rows[i].0 == k
  }

  /** Every row of the table is listed. */
  lemma {:induction false} RowsByIdComplete(t: Table)
    ensures forall k :: k in t ==> Lists(RowsById(t), k)
    decreases t.Keys
  {
    if t.Keys != {} {
      var m := MinKey(t.Keys);
      var rest := t - {m};
      RowsByIdComplete(rest);
      var tail := RowsById(rest);
      var rows := RowsById(t);
      assert rows == [(m, t[m])] + tail;
      forall k | k in t ensures Lists(rows, k) {
        if k == m {
          assert rows[0].0 == k;
        } else {
          assert k in rest;
          assert Lists(tail, k);
          var i :| 0 <= i < |tail| && tail[i].0 == k;
          assert rows[i + 1].0 == k;
        }
      }
    }
  }

  /** "No products found." is printed exactly when the table is empty. */
  lemma NoProductsFound(t: Table)
    ensures RowsById(t) == [] <==> t == map[]
  {
    RowsByIdLength(t);
    if t != map[] {
      var k :| k in t;
    }
  }

  // ---------------------------------------------------------------------
  // The menu loop of main
  // ---------------------------------------------------------------------

  /** One pass of the menu: a token nextInt refuses, or a choice with what that operation then reads and meets. */
  datatype Request = NotANumber | Pick(choice: int, form: Form, faults: Faults)

  /** What a pass prints: the end of an operation, or a listing (None when the query fails). */
  datatype Report = Done(outcome: Outcome) | Listed(listing: Listing)

  /** The rows readAllProducts prints, and whether it got to the end without an error. */
  datatype Listing = Listing(rows: seq<(int, Product)>, complete: bool)

  predicate IsExit(r: Request) {
    r.Pick? && r.choice == 5
  }

  /**
   * The listing readAllProducts prints: nothing when the query fails, the
   * rows before the failing rs.next() or getter, or every row. Closing the
   * ResultSet and the statement can still throw after the last row.
   */
  function Query(db: Db, f: Faults): Listing {
    if f.prepare || f.execute then Listing([], false)
    else
      var all := RowsById(db.working);
      if FetchFails(f, |all|) then Listing(all[..f.fetch.value], false)
      else Listing(all, !f.close)
  }

  /**
   * Whether a fetch throws in a listing of n rows: the loop makes n + 1
   * calls of rs.next(), and none when the table is empty, because the
   * isBeforeFirst() check returns first.
   */
  predicate FetchFails(f: Faults, n: nat) {
    n > 0 && f.fetch.Some? && f.fetch.value <= n
  }

  /** The listing is an ascending prefix of the table's rows, and all of them unless an error cut it short. */
  lemma QueryPrefix(db: Db, f: Faults)
    ensures var q := Query(db, f);
      && q.rows <= RowsById(db.working)
      && (q.complete <==> && !f.prepare && !f.execute && !f.close
                          && (f.fetch.None? || f.fetch.value > |RowsById(db.working)| || db.working == map[]))
      && (q.complete ==> q.rows == RowsById(db.working))
      && (!f.prepare && !f.execute && f.fetch.Some? && f.fetch.value <= |RowsById(db.working)| && db.working != map[]
          ==> |q.rows| == f.fetch.value)
  {
    NoProductsFound(db.working);
  }

  /**
   * When the last rs.next() of a non-empty listing throws, every row has
   * been printed, but the error is reported and the closing rule is not.
   */
  lemma FinalFetchFailure(db: Db, f: Faults)
    requires db.working != map[] && !f.prepare && !f.execute
    requires f.fetch == Some(|RowsById(db.working)|)
    ensures Query(db, f) == Listing(RowsById(db.working), false)
  {
  }

  /** One pass through the switch. */
  function Step(db: Db, r: Request): (Db, seq<Report>) {
    if r.NotANumber? then (db, [])
    else if r.choice == 1 then
      var o := Operation(db, CreateStatement(r.form), r.faults); (o.0, [Done(o.1)])
    else if r.choice == 2 then (db, [Listed(Query(db, r.faults))])
    else if r.choice == 3 then
      var o := Operation(db, UpdateStatement(r.form), r.faults); (o.0, [Done(o.1)])
    else if r.choice == 4 then
      var o := Operation(db, DeleteStatement(r.form), r.faults); (o.0, [Done(o.1)])
    else (db, [])
  }

  function Replay(db: Db, rs: seq<Request>): (Db, seq<Report>) {
    if rs == [] then (db, [])
    else
      var before := Replay(db, rs[..|rs| - 1]);
      var last := Step(before.0, rs[|rs| - 1]);
      (last.0, before.1 + last.1)
  }

  /** A whole session keeps the key invariant and never lowers the counter. */
  lemma {:induction false} ReplayValid(db: Db, rs: seq<Request>)
    requires Valid(db)
    ensures Valid(Replay(db, rs).0)
  {
    if rs != [] {
      ReplayValid(db, rs[..|rs| - 1]);
      var before := Replay(db, rs[..|rs| - 1]).0;
      var r := rs[|rs| - 1];
      if r.Pick? {
        var s := if r.choice == 1 then CreateStatement(r.form)
          else if r.choice == 3 then UpdateStatement(r.form) else DeleteStatement(r.form);
        if s.Some? {
          TransactValid(before, s.value, r.faults);
        }
      }
    }
  }

  /** Listing the products changes nothing: no commit, no rollback, no row. */
  lemma ReadChangesNothing(db: Db, form: Form, f: Faults)
    ensures Step(db, Pick(2, form, f)).0 == db
    ensures Step(db, Pick(2, form, f)).1 == [Listed(Query(db, f))]
  {
  }

  /** How DriverManager.getConnection and setAutoCommit(false) turn out. */
  datatype Connect = Refused | AutoCommitRefused | Established

  /** The connection field: null, open, or after close(). */
  datatype Connection = Null | Open | Closed

  class App {
    var connection: Connection
    var db: Db

    constructor (initial: Db)
      ensures connection == Null && db == initial
    {
      connection := Null;
      db := initial;
    }

    /** handleTransactionFailure */
    method HandleTransactionFailure(rollbackFails: bool) returns (outcome: Outcome)
      modifies this
      ensures connection == old(connection)
      ensures (db, outcome) == Recover(old(db), old(connection) != Null, rollbackFails)
    {
      if connection == Null {
        return FailedUnconnected;
      }
      db := db.(log := db.log + [Rollback]);
      if rollbackFails {
        return FailedCritical;
      }
      db := db.(working := db.committed);
      outcome := FailedRolledBack;
    }

    /** prepareStatement, executeUpdate, then commit or rollback by the affected-row count, then close(). */
    method RunStatement(s: Statement, f: Faults) returns (outcome: Outcome)
      requires connection == Open
      modifies this
      ensures connection == Open
      ensures (db, outcome) == Transact(old(db), s, f)
    {
      if f.prepare || f.execute {
        outcome := HandleTransactionFailure(f.recovery);
        return;
      }
      var e := Execute(db.working, db.nextId, s);
      db := db.(working := e.table, nextId := e.nextId);
      if e.affected > 0 {
        db := db.(log := db.log + [Commit]);
        if f.commit {
          outcome := HandleTransactionFailure(f.recovery);
          return;
        }
        db := db.(committed := db.working);
        outcome := Committed;
      } else {
        db := db.(log := db.log + [Rollback]);
        if f.rollback {
          outcome := HandleTransactionFailure(f.recovery);
          return;
        }
        db := db.(working := db.committed);
        outcome := NothingChanged;
      }
      if f.close {
        outcome := HandleTransactionFailure(f.recovery);
      }
    }

    /** createProduct */
    method CreateProduct(form: Form, f: Faults) returns (outcome: Outcome)
      requires connection == Open
      modifies this
      ensures connection == Open
      ensures (db, outcome) == Operation(old(db), CreateStatement(form), f)
    {
      if form.price.None? || form.quantity.None? {
        return InputRejected;
      }
      outcome := RunStatement(Insert(Product(form.name, form.price.value, form.quantity.value)), f);
    }

    /** updateProduct */
    method UpdateProduct(form: Form, f: Faults) returns (outcome: Outcome)
      requires connection == Open
      modifies this
      ensures connection == Open
      ensures (db, outcome) == Operation(old(db), UpdateStatement(form), f)
    {
      if form.id.None? || form.price.None? || form.quantity.None? {
        return InputRejected;
      }
      outcome := RunStatement(Update(form.id.value, Product(form.name, form.price.value, form.quantity.value)), f);
    }

    /** deleteProduct */
    method DeleteProduct(form: Form, f: Faults) returns (outcome: Outcome)
      requires connection == Open
      modifies this
      ensures connection == Open
      ensures (db, outcome) == Operation(old(db), DeleteStatement(form), f)
    {
      if form.id.None? {
        return InputRejected;
      }
      outcome := RunStatement(Delete(form.id.value), f);
    }

    /** readAllProducts: the rows in ascending ProductID, cut short where the query or a fetch throws. */
    method ReadAllProducts(f: Faults) returns (listing: Listing)
      requires connection == Open
      ensures listing == Query(db, f)
      ensures listing.complete ==> (listing.rows == [] <==> db.working == map[])
    {
      if f.prepare || f.execute {
        return Listing([], false);
      }
      NoProductsFound(db.working);
      var all := RowsById(db.working);
      if FetchFails(f, |all|) {
        return Listing(all[..f.fetch.value], false);
      }
      listing := Listing(all, !f.close);
    }

    /** closeConnection: closes only a connection that was opened. */
    method CloseConnection()
      modifies this
      ensures connection == if old(connection) == Null then Null else Closed
      ensures db == old(db)
    {
      if connection != Null {
        connection := Closed;
      }
    }

    /**
     * main: connect, switch auto-commit off, run the menu until choice 5,
     * and close the connection in the finally block whatever happened.
     * When input runs out before choice 5, Scanner throws and the finally
     * block still runs.
     */
    method RunSession(how: Connect, requests: seq<Request>) returns (exited: bool, reports: seq<Report>)
      requires connection == Null
      modifies this
      ensures connection == if how == Refused then Null else Closed
      ensures how != Established ==> db == old(db) && reports == [] && !exited
      ensures how == Established ==> (exited <==> FirstExit(requests, IsExit) < |requests|)
      ensures how == Established ==> (db, reports) == Replay(old(db), requests[..FirstExit(requests, IsExit)])
    {
      exited := false;
      reports := [];
      if how == Refused {
        CloseConnection();
        return;
      }
      connection := Open;
      if how == AutoCommitRefused {
        CloseConnection();
        return;
      }
      ghost var start := db;
      var i := 0;
      while i < |requests|
        invariant i <= FirstExit(requests, IsExit)
        invariant connection == Open
        invariant (db, reports) == Replay(start, requests[..i])
      {
        var r := requests[i];
        assert requests[..i + 1][..i] == requests[..i];
        ghost var next := Step(db, r);
        assert Replay(start, requests[..i + 1]) == (next.0, reports + next.1);
        if r.NotANumber? || !(1 <= r.choice <= 4) {
          assert next == (db, []) && reports + [] == reports;
        }
        if r.Pick? {
          if r.choice == 1 {
            var o := CreateProduct(r.form, r.faults);
            reports := reports + [Done(o)];
          } else if r.choice == 2 {
            var listing := ReadAllProducts(r.faults);
            reports := reports + [Listed(listing)];
          } else if r.choice == 3 {
            var o := UpdateProduct(r.form, r.faults);
            reports := reports + [Done(o)];
          } else if r.choice == 4 {
            var o := DeleteProduct(r.form, r.faults);
            reports := reports + [Done(o)];
          } else if r.choice == 5 {
            exited := true;
            break;
          }
        }
        i := i + 1;
      }
      assert !exited ==> requests[..i] == requests;
      CloseConnection();
    }
  }
}
