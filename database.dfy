/** The connection lifecycle of the reader's database: connect, disconnect,
    the guarded connection accessor, and transactions that commit on success
    and roll back on failure. */
module Database {
  import opened Wrappers
  import opened Schema

  /** The error the connection accessor raises when nothing is connected. */
  const NotConnected: string := "Database not connected. Call connect() first."

  /** The error SQLite raises when a write breaks a constraint of the schema. */
  const ConstraintFailed: string := "IntegrityError: constraint failed"

  /** What the tables hold once a transaction body has run against `t`: its
      writes when it finished and they keep the schema's constraints, the
      tables as they were otherwise; the outcome is the body's error, or the
      constraint error, or success. Only what SQLite checks decides: writes
      that are not lower-case are committed like any others. */
  function Commit(t: Tables, body: Result<Tables, string>): (r: (Tables, Result<(), string>))
    ensures r.1.Success? <==> body.Success? && SchemaConsistent(body.value)
    ensures r.1.Success? ==> r.0 == body.value
    ensures r.1.Failure? ==> r.0 == t
    ensures body.Failure? ==> r.1 == Failure(body.error)
    ensures body.Success? && !SchemaConsistent(body.value) ==> r.1 == Failure(ConstraintFailed)
  {
    match body
    case Failure(e) => (t, Failure(e))
    case Success(t') => if SchemaConsistent(t') then (t', Success(())) else (t, Failure(ConstraintFailed))
  }

  /** A body that writes an upper-case key to empty tables is committed:
      the schema has no lower-case rule. */
  lemma CommitKeepsUpperCaseKey()
    ensures var empty := Tables(map[], map[], {}, map[], map[]);
      var written := empty.(users := map[1 := UserRow("ABC", 0)]);
      Commit(empty, Success(written)) == (written, Success(()))
  {
    var written := Tables(map[1 := UserRow("ABC", 0)], map[], {}, map[], map[]);
    assert SchemaConsistent(written);
  }

  class Database {
    /** The open connection, None before `connect` and after `disconnect`. */
    var connection: Option<Store>

    /** A database that is not yet connected. */
    constructor ()
      ensures connection.None?
    {
      connection := None;
    }

    /** `connect`: opens the file, whose tables hold `onDisk`, and makes it
      the current connection; the schema's tables are created only where
      missing, so existing rows are kept. */
    method Connect(onDisk: Tables)
      modifies this
      ensures connection.Some? && fresh(connection.value)
      ensures connection.value.Snapshot() == onDisk
    {
      var store := new Store();
      store.Load(onDisk);
      connection := Some(store);
    }

    /** `disconnect`: closes and forgets the connection; a no-op when there
      is none. */
    method Disconnect()
      modifies this
      ensures connection.None?
    {
      if connection.Some? {
        connection := None;
      }
    }

    /** The `connection` property: the open connection, or the not-connected
      error when there is none. */
    function Connection(): (r: Result<Store, string>)
      reads this
      ensures r.Failure? <==> connection.None?
      ensures r.Failure? ==> r.error == NotConnected
      ensures r.Success? ==> r.value == connection.value
    {
      match connection
      case None => Failure(NotConnected)
      case Some(store) => Success(store)
    }

    /** `transaction`: runs `body` on the connection's tables; its writes are
      committed when it finishes and keep the schema's constraints, and
      rolled back otherwise, in which case its error is raised again. The
      store stays `Valid` when the writes also keep keys and labels
      lower-case. Without a
      connection the not-connected error is raised and nothing changes. */
    method Transaction(body: Tables -> Result<Tables, string>) returns (r: Result<(), string>)
      modifies if connection.Some? then {connection.value} else {}
      ensures connection == old(connection)
      ensures connection.None? ==> r == Failure(NotConnected)
      ensures connection.Some? ==>
        var t := old(connection.value.Snapshot());
        (connection.value.Snapshot(), r) == Commit(t, body(t))
      ensures connection.Some? && old(connection.value.Valid()) ==> SchemaConsistent(connection.value.Snapshot())
      ensures connection.Some? && old(connection.value.Valid()) && StoredLowerCase(connection.value.Snapshot()) ==>
        connection.value.Valid()
    {
      if connection.None? {
        return Failure(NotConnected);
      }
      var store := connection.value;
      var t := store.Snapshot();
      var outcome := Commit(t, body(t));
      store.Load(outcome.0);
      r := outcome.1;
    }
  }
}
