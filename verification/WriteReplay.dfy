/** Replaying a captured write: a savepoint, delete and retry loop inside a transaction that
    is always rolled back, without and with row-level security. */
module WriteReplay {
  import opened Text
  import opened Conflict
  import opened Verdicts

  /** A stored row under its unique key. */
  datatype Stored = Stored(tenant: string, body: string)

  datatype NewRow = NewRow(key: Key, tenant: string, body: string)

  type Table = map<Key, Stored>

  datatype Error =
    | UniqueViolation(detail: Option<Key>)  // the violated key, when the server tells it
    | RowSecurity
    | TransactionAborted
    | NotAdmitted
    | GaveUp
    | Other(message: string)

  datatype Outcome = Done(table: Table, affected: nat) | Failed(error: Error)

  /** What executing a statement does to the table it sees. */
  type Statement = Table -> Outcome

  const MAX_CONFLICT_RETRIES := 3

  // ----- the database's side of a transaction

  datatype Command = Savepoint | RollbackTo | Execute | Rollback

  datatype Issued = Issued(command: Command, whileAborted: bool)

  class Server {
    var table: Table

    constructor (table: Table)
      ensures this.table == table
    {
      this.table := table;
    }
  }

  /** A transaction: its view of the table, its savepoints, and whether an error has aborted it. */
  class Tx {
    const server: Server
    var table: Table
    var savepoints: seq<Table>
    var aborted: bool
    var open: bool
    ghost var log: seq<Issued>

    constructor (server: Server)
      ensures this.server == server && table == server.table && savepoints == [] && !aborted && open && log == []
    {
      this.server, table, savepoints, aborted, open, log := server, server.table, [], false, true, [];
    }

    method SetSavepoint() returns (err: Option<Error>)
      requires open
      modifies this
      ensures open && table == old(table) && aborted == old(aborted)
      ensures log == old(log) + [Issued(Savepoint, old(aborted))]
      ensures old(aborted) ==> err == Some(TransactionAborted) && savepoints == old(savepoints)
      ensures !old(aborted) ==> err == None && savepoints == old(savepoints) + [old(table)]
    {
      log := log + [Issued(Savepoint, aborted)];
      if aborted {
        return Some(TransactionAborted);
      }
      savepoints := savepoints + [table];
      err := None;
    }

    method RollbackToSavepoint() returns (err: Option<Error>)
      requires open
      modifies this
      ensures open && savepoints == old(savepoints)
      ensures log == old(log) + [Issued(RollbackTo, old(aborted))]
      ensures if old(savepoints) == [] then err.Some? && aborted && table == old(table)
              else err == None && !aborted && table == old(savepoints)[|old(savepoints)| - 1]
    {
      log := log + [Issued(RollbackTo, aborted)];
      if savepoints == [] {
        aborted := true;
        return Some(Other("savepoint does not exist"));
      }
      table, aborted := savepoints[|savepoints| - 1], false;
      err := None;
    }

    method Exec(stmt: Statement) returns (r: Outcome)
      requires open
      modifies this
      ensures open && savepoints == old(savepoints)
      ensures log == old(log) + [Issued(Execute, old(aborted))]
      ensures r == if old(aborted) then Failed(TransactionAborted) else stmt(old(table))
      ensures if r.Done? then table == r.table && aborted == old(aborted) else table == old(table) && aborted
    {
      log := log + [Issued(Execute, aborted)];
      if aborted {
        return Failed(TransactionAborted);
      }
      r := stmt(table);
      match r
      case Done(t, _) => table := t;
      case Failed(_) => aborted := true;
    }

    method Rollback()
      requires open
      modifies this
      ensures !open && log == old(log) + [Issued(Command.Rollback, old(aborted))]
    {
      log := log + [Issued(Command.Rollback, aborted)];
      table, savepoints, aborted, open := server.table, [], false, false;
    }

    method Commit()
      requires open
      modifies this, server
      ensures !open && server.table == if old(aborted) then old(server.table) else old(table)
    {
      if !aborted {
        server.table := table;
      }
      savepoints, aborted, open := [], false, false;
    }
  }

  /** While the transaction is aborted only a rollback is issued. */
  predicate RollsBackWhenAborted(log: seq<Issued>) {
    forall i :: 0 <= i < |log| && log[i].whileAborted ==> log[i].command == RollbackTo || log[i].command == Rollback
  }

  // ----- the unrestricted leg

  /** Deletes the row under `key`, as a role that sees every row. */
  function DeleteKey(key: Key): Statement {
    (t: Table) => if key in t then Done(t - {key}, 1) else Done(t, 0)
  }

  datatype Replayed =
    | Success(table: Table, affected: nat, resolved: Option<Key>)
    | Failure(error: Error, resolved: Option<Key>)

  /** What the loop computes: the statement runs on the table without the rows removed so far. */
  function Replay(t: Table, stmt: Statement, attempt: nat, resolved: Option<Key>): Replayed
    requires attempt <= MAX_CONFLICT_RETRIES
    decreases MAX_CONFLICT_RETRIES - attempt
  {
    if attempt == MAX_CONFLICT_RETRIES then Failure(GaveUp, resolved)
    else match stmt(t)
      case Done(after, n) => Success(after, n, resolved)
      case Failed(e) =>
        match AsConflictKey(e)
        case None => Failure(e, resolved)
        case Some(key) =>
          if key !in t then Failure(e, resolved) else Replay(t - {key}, stmt, attempt + 1, Some(key))
  }

  function AsConflictKey(e: Error): Option<Key> {
    if e.UniqueViolation? && e.detail.Some? then ConflictKey(e.detail.value) else None
  }

  method RetryLoop(tx: Tx, stmt: Statement) returns (r: Replayed)
    requires tx.open && !tx.aborted && tx.log == []
    modifies tx
    ensures tx.open && RollsBackWhenAborted(tx.log)
    ensures r == Replay(old(tx.table), stmt, 0, None)
    ensures r.Success? ==> tx.table == r.table
  {
    hide ConflictKey;
    var resolved := None;
    var attempt := 0;
    while attempt < MAX_CONFLICT_RETRIES
      invariant 0 <= attempt <= MAX_CONFLICT_RETRIES
      invariant tx.open && !tx.aborted && RollsBackWhenAborted(tx.log)
      invariant Replay(old(tx.table), stmt, 0, None) == Replay(tx.table, stmt, attempt, resolved)
    {
      ghost var table := tx.table;
      var err := tx.SetSavepoint();
      if err.Some? {
        return Failure(TransactionAborted, resolved);
      }
      var res := tx.Exec(stmt);
      if res.Done? {
        return Success(res.table, res.affected, resolved);
      }
      var error := res.error;
      err := tx.RollbackToSavepoint();
      if err.Some? {
        return Failure(error, resolved);
      }
      assert tx.table == table;
      var ck := AsConflictKey(error);
      if ck == None {
        return Failure(error, resolved);
      }
      var deleted := tx.Exec(DeleteKey(ck.value));
      if deleted.Failed? || deleted.affected == 0 {
        return Failure(error, resolved);
      }
      resolved := ck;
      attempt := attempt + 1;
    }
    return Failure(GaveUp, resolved);
  }

  /** Replays the statement without row-level security. Nothing durable changes. */
  method ExecRolledBack(server: Server, stmt: Statement) returns (r: Replayed, ghost log: seq<Issued>)
    modifies server
    ensures server.table == old(server.table)
    ensures r == Replay(server.table, stmt, 0, None)
    ensures RollsBackWhenAborted(log) && log != [] && log[|log| - 1].command == Rollback
  {
    var tx := new Tx(server);
    r := RetryLoop(tx, stmt);
    tx.Rollback();
    log := tx.log;
  }

  // ----- the restricted leg

  /** Deletes the row under `key` if the policy shows it to this tenant. */
  function DeleteKeyAs(tenant: string, key: Key): Statement {
    (t: Table) => if key in t && t[key].tenant == tenant then Done(t - {key}, 1) else Done(t, 0)
  }

  datatype Restricted = Accepted(affected: nat) | Rejected(error: Error)

  function ReplayAs(t: Table, tenant: string, stmt: Statement, known: Option<Key>): Restricted {
    if known.Some? && !(known.value in t && t[known.value].tenant == tenant) then Rejected(NotAdmitted)
    else match stmt(if known.Some? then t - {known.value} else t)
      case Done(_, n) => Accepted(n)
      case Failed(e) => Rejected(e)
  }

  /** Replays the statement as the restricted role; `known` is the conflict the other leg resolved. */
  method ExecRolledBackAsTenant(server: Server, tenant: string, stmt: Statement, known: Option<Key>)
    returns (r: Restricted, ghost log: seq<Issued>)
    modifies server
    ensures server.table == old(server.table)
    ensures r == ReplayAs(server.table, tenant, stmt, known)
    ensures RollsBackWhenAborted(log) && log != [] && log[|log| - 1].command == Rollback
    ensures r != Rejected(NotAdmitted) ==> |log| >= 2 && log[|log| - 2].command == Execute
  {
    var tx := new Tx(server);
    if known.Some? {
      var deleted := tx.Exec(DeleteKeyAs(tenant, known.value));
      if deleted.Failed? || deleted.affected == 0 {
        tx.Rollback();
        return Rejected(NotAdmitted), tx.log;
      }
    }
    var res := tx.Exec(stmt);
    r := match res case Done(_, n) => Accepted(n) case Failed(e) => Rejected(e);
    tx.Rollback();
    log := tx.log;
  }

  // ----- the verdict

  predicate Contains(s: string, part: string) {
    part <= s || (s != "" && Contains(s[1..], part))
  }

  /** The server's row-security rejection, recognised by its message. */
  predicate IsRowSecurityViolation(e: Error) {
    e.RowSecurity? || (e.Other? && Contains(e.message, "row-level security"))
  }

  function Judge(tenant: string, affected: nat, restricted: Restricted): Result {
    match restricted
    case Accepted(n) => Result(Safe, tenant, 0, affected == 0 && n == 0)
    case Rejected(e) => if IsRowSecurityViolation(e) then Result(Leak, tenant, 1, false) else UNATTRIBUTABLE
  }

  /** The verdict on a write, given what it does without and with row-level security. */
  function WriteVerdict(t: Table, tenant: string, stmt: Statement, stmtAs: Statement): Result {
    match Replay(t, stmt, 0, None)
    case Failure(_, _) => UNATTRIBUTABLE
    case Success(_, affected, resolved) => Judge(tenant, affected, ReplayAs(t, tenant, stmtAs, resolved))
  }

  /** Containing a phrase means being some text, the phrase, and some text. */
  lemma {:induction false} ContainsMeans(s: string, part: string)
    ensures Contains(s, part) <==> exists i :: 0 <= i <= |s| && part <= s[i..]
    decreases |s|
  {
    if part <= s {
      assert s[0..] == s;
    } else if s != "" {
      ContainsMeans(s[1..], part);
      if Contains(s[1..], part) {
        var i :| 0 <= i <= |s| - 1 && part <= s[1..][i..];
        assert s[i + 1..] == s[1..][i..];
      }
      if i :| 0 <= i <= |s| && part <= s[i..] {
        assert i > 0 && s[1..][i - 1..] == s[i..];
      }
    }
  }

  /** The verdict on any write, by what its two legs do: unattributable unless the unrestricted one succeeds;
      then SAFE when the restricted one does, vacuous when neither affected a row; LEAK when its error
      speaks of row-level security; unattributable on any other error. */
  lemma WriteVerdictCases(t: Table, tenant: string, stmt: Statement, stmtAs: Statement)
    ensures var v, legs := WriteVerdict(t, tenant, stmt, stmtAs), Replay(t, stmt, 0, None);
            if legs.Failure? then v == UNATTRIBUTABLE
            else
              var restricted := ReplayAs(t, tenant, stmtAs, legs.resolved);
              if restricted.Accepted? then v == Result(Safe, tenant, 0, legs.affected == 0 && restricted.affected == 0)
              else
                var e := restricted.error;
                if e == RowSecurity
                   || (e.Other? && exists i :: 0 <= i <= |e.message| && "row-level security" <= e.message[i..])
                then v == Result(Leak, tenant, 1, false)
                else v == UNATTRIBUTABLE
  {
    var legs := Replay(t, stmt, 0, None);
    if legs.Success? {
      var restricted := ReplayAs(t, tenant, stmtAs, legs.resolved);
      if restricted.Rejected? && restricted.error.Other? {
        ContainsMeans(restricted.error.message, "row-level security");
      }
    }
    hide Replay, ReplayAs, Contains;
  }

  method DiffWrite(server: Server, tenant: string, stmt: Statement, stmtAs: Statement) returns (r: Result)
    modifies server
    ensures server.table == old(server.table)
    ensures r == WriteVerdict(server.table, tenant, stmt, stmtAs)
  {
    var unrestricted, _ := ExecRolledBack(server, stmt);
    if unrestricted.Failure? {
      return UNATTRIBUTABLE;
    }
    var restricted, _ := ExecRolledBackAsTenant(server, tenant, stmtAs, unrestricted.resolved);
    r := Judge(tenant, unrestricted.affected, restricted);
  }
}
