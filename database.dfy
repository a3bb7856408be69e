/** The `users` table of `users.db` and `setup_database`, which creates it and
    seeds it with two users when it is empty. */
module Database {

  datatype Option<T> = None | Some(value: T)

  /** One row of `users (id INTEGER PRIMARY KEY, name TEXT NOT NULL, email TEXT NOT NULL UNIQUE)`.
      A Dafny string is never null, so the NOT NULL constraints hold by typing. */
  datatype User = User(id: int, name: string, email: string)

  /** The emails present in the table. */
  function Emails(rows: seq<User>): set<string>
  {
    set u | u in rows :: u.email
  }

  /** The table's constraints and its scan order: rowids are unique and the rows are held
      in ascending rowid order, which is the order a full scan of a rowid table returns;
      emails are unique, so there are exactly as many distinct emails as rows. */
  predicate TableInvariant(rows: seq<User>): (r: bool)
    ensures r ==> |Emails(rows)| == |rows|
  {
    var unique :=
      (forall i, j | 0 <= i < j < |rows| :: rows[i].id < rows[j].id) &&
      (forall i, j | 0 <= i < j < |rows| :: rows[i].email != rows[j].email);
    if unique then DistinctEmailsCount(rows); unique else unique
  }

  lemma {:induction false} DistinctEmailsCount(rows: seq<User>)
    requires forall i, j | 0 <= i < j < |rows| :: rows[i].email != rows[j].email
    ensures |Emails(rows)| == |rows|
    decreases |rows|
  {
    if |rows| > 0 {
      var init, last := rows[..|rows| - 1], rows[|rows| - 1];
      assert rows == init + [last];
      DistinctEmailsCount(init);
      assert Emails(rows) == Emails(init) + {last.email};
      assert last.email !in Emails(init);
    }
  }

  /** The largest rowid in a non-empty table (0 for an empty one). */
  function MaxId(rows: seq<User>): (m: int)
    ensures forall i | 0 <= i < |rows| :: rows[i].id <= m
    ensures |rows| > 0 ==> exists i | 0 <= i < |rows| :: rows[i].id == m
    ensures |rows| == 0 ==> m == 0
  {
    if |rows| == 0 then 0
    else if |rows| == 1 then rows[0].id
    else
      var m := MaxId(rows[..|rows| - 1]);
      var last := rows[|rows| - 1].id;
      assert forall i | 0 <= i < |rows| - 1 :: rows[..|rows| - 1][i] == rows[i];
      if last > m then last else m
  }

  /** The rowid SQLite gives a row inserted without one: 1 in an empty table, otherwise
      one more than the largest in use. */
  function NextId(rows: seq<User>): (id: int)
    ensures forall i | 0 <= i < |rows| :: rows[i].id < id
    ensures |rows| > 0 ==> exists i | 0 <= i < |rows| :: rows[i].id == id - 1
    ensures |rows| == 0 ==> id == 1
  {
    if |rows| == 0 then 1 else MaxId(rows) + 1
  }

  /** In a table that keeps its invariant the last row holds the largest rowid, so the next
      insert takes the rowid one past the last row's: appending is inserting in rowid order. */
  lemma NextIdFollowsLast(rows: seq<User>)
    requires TableInvariant(rows) && |rows| > 0
    ensures NextId(rows) == rows[|rows| - 1].id + 1
  {
    var i :| 0 <= i < |rows| && rows[i].id == MaxId(rows);
    assert i < |rows| - 1 ==> rows[i].id < rows[|rows| - 1].id;
  }

  /** `INSERT INTO users (name, email) VALUES (?, ?)`: the new table, or None when
      the UNIQUE constraint on email rejects the row. */
  function Inserted(rows: seq<User>, name: string, email: string): (r: Option<seq<User>>)
    ensures r.None? <==> exists i | 0 <= i < |rows| :: rows[i].email == email
    ensures r.Some? ==> |r.value| == |rows| + 1 && r.value[..|rows|] == rows
    ensures r.Some? ==> r.value[|rows|].name == name && r.value[|rows|].email == email
    ensures r.Some? ==> forall i | 0 <= i < |rows| :: r.value[|rows|].id != rows[i].id
    ensures r.Some? && TableInvariant(rows) ==> TableInvariant(r.value)
  {
    EmailsHeld(rows, email);
    if email in Emails(rows) then None
    else
      var u := User(NextId(rows), name, email);
      AppendKeepsInvariant(rows, u);
      Some(rows + [u])
  }

  /** An email is in the table exactly when some row holds it. */
  lemma EmailsHeld(rows: seq<User>, email: string)
    ensures email in Emails(rows) <==> exists i | 0 <= i < |rows| :: rows[i].email == email
  {
    if email in Emails(rows) {
      var u :| u in rows && u.email == email;
      var i :| 0 <= i < |rows| && rows[i] == u;
    }
    assert forall i | 0 <= i < |rows| :: rows[i] in rows;
  }

  /** Appending a row whose rowid exceeds every rowid in use and whose email is new keeps
      the constraints. */
  lemma AppendKeepsInvariant(rows: seq<User>, u: User)
    requires forall i | 0 <= i < |rows| :: rows[i].id < u.id && rows[i].email != u.email
    ensures TableInvariant(rows) ==> TableInvariant(rows + [u])
  {
    var after := rows + [u];
    assert forall i | 0 <= i < |rows| :: after[i] == rows[i];
  }

  /** The two rows `setup_database` seeds an empty table with, as (name, email). */
  const InitialUsers: seq<(string, string)> :=
    [("Alice", "alice@wonderland.io"), ("Charlie", "charlie@factory.com")]

  /** The rows an empty table holds after seeding: rowids 1 and 2 in insertion order. */
  const SeedRows: seq<User> :=
    [User(1, "Alice", "alice@wonderland.io"), User(2, "Charlie", "charlie@factory.com")]

  /** The table `setup_database` leaves behind, given the one it found. */
  function AfterSetup(rows: seq<User>): (r: seq<User>)
    ensures |r| > 0
    ensures |rows| > 0 ==> r == rows
    ensures |rows| == 0 ==>
      |r| == |InitialUsers| && forall i | 0 <= i < |r| :: (r[i].name, r[i].email) == InitialUsers[i]
  {
    if |rows| == 0 then SeedRows else rows
  }

  /** Seeding is the two INSERTs of `executemany` on an empty table, and neither can fail. */
  lemma SeedingSucceeds()
    ensures Inserted([], InitialUsers[0].0, InitialUsers[0].1) == Some(SeedRows[..1])
    ensures Inserted(SeedRows[..1], InitialUsers[1].0, InitialUsers[1].1) == Some(SeedRows)
    ensures TableInvariant(SeedRows)
  {
    var first := SeedRows[..1];
    assert first == [User(1, "Alice", "alice@wonderland.io")];
    assert NextId([]) == 1;
    assert Inserted([], "Alice", "alice@wonderland.io") == Some(first);
    assert NextId(first) == 2;
    assert Emails(first) == {"alice@wonderland.io"};
    assert "charlie@factory.com" != "alice@wonderland.io";
    assert SeedRows == first + [User(2, "Charlie", "charlie@factory.com")];
    assert TableInvariant([]);
  }

  /** Running setup a second time changes nothing. */
  lemma SetupIdempotent(rows: seq<User>)
    ensures AfterSetup(AfterSetup(rows)) == AfterSetup(rows)
  {
  }

  /** The `users.db` file as far as the tools see it: whether the table exists, and its rows
      in scan order. */
  class UsersTable {
    var created: bool
    var rows: seq<User>

    /** Only an existing table holds rows, and the rows keep the table's constraints. */
    ghost predicate Valid()
      reads this
      ensures Valid() ==> |Emails(rows)| == |rows|
    {
      (created || rows == []) && TableInvariant(rows)
    }

    /** A database file in which no `users` table exists yet. */
    constructor ()
      ensures Valid() && !created && rows == []
    {
      created := false;
      rows := [];
    }

    /** `CREATE TABLE IF NOT EXISTS users (...)`. */
    method CreateIfNotExists()
      requires Valid()
      modifies this
      ensures Valid() && created && rows == old(rows)
    {
      created := true;
    }

    /** In a table that keeps its invariant the last row holds the largest rowid, so the next
      insert takes the rowid one past the last row's: appending is inserting in rowid order. */
  lemma NextIdFollowsLast(rows: seq<User>)
    requires TableInvariant(rows) && |rows| > 0
    ensures NextId(rows) == rows[|rows| - 1].id + 1
  {
    var i :| 0 <= i < |rows| && rows[i].id == MaxId(rows);
    assert i < |rows| - 1 ==> rows[i].id < rows[|rows| - 1].id;
  }

  /** `INSERT INTO users (name, email) VALUES (?, ?)`; `ok` is false when the
        UNIQUE constraint on email raises an integrity error, and then nothing changes. */
    method Insert(name: string, email: string) returns (ok: bool)
      requires Valid() && created
      modifies this
      ensures Valid() && created
      ensures ok <==> Inserted(old(rows), name, email).Some?
      ensures ok ==> rows == Inserted(old(rows), name, email).value
      ensures !ok ==> rows == old(rows)
    {
      var r := Inserted(rows, name, email);
      if r.Some? {
        rows := r.value;
        ok := true;
      } else {
        ok := false;
      }
    }
  }

  /** `setup_database`: create the table if it is missing, then, if it holds no rows,
      insert the initial users one by one. */
  method SetupDatabase(db: UsersTable)
    requires db.Valid()
    modifies db
    ensures db.Valid() && db.created
    ensures db.rows == AfterSetup(old(db.rows))
  {
    db.CreateIfNotExists();
    if |db.rows| == 0 {
      SeedingSucceeds();
      var i := 0;
      while i < |InitialUsers|
        invariant 0 <= i <= |InitialUsers|
        invariant db.Valid() && db.created
        invariant db.rows == SeedRows[..i]
      {
        assert Inserted(db.rows, InitialUsers[i].0, InitialUsers[i].1) == Some(SeedRows[..i + 1]) by {
          if i == 1 {
            assert SeedRows[..2] == SeedRows;
          }
        }
        var ok := db.Insert(InitialUsers[i].0, InitialUsers[i].1);
        assert ok;
        i := i + 1;
      }
    }
  }
}
