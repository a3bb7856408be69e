/** The four tools the assistant can call. `list_all_users`, `get_user_details` and
    `greet_user` only read the table, so they are functions of its rows;
    `add_new_user` inserts a row and is a method on the table. */
module Tools {
  import opened Text
  import opened Database

  const NoUsersMessage: string := "There are no users in the database."

  /** The line `list_all_users` gives for one user: `- {name} ({email})`. It holds a
      newline only when the name or the email does. */
  function UserLine(u: User): (line: string)
    ensures '\n' !in u.name && '\n' !in u.email ==> '\n' !in line
  {
    "- " + u.name + " (" + u.email + ")"
  }

  function UserLines(rows: seq<User>): seq<string>
  {
    seq(|rows|, i requires 0 <= i < |rows| => UserLine(rows[i]))
  }

  /** `list_all_users`: one line per row in scan order, joined by newlines, or the fixed
      "no users" text for an empty table. */
  function ListAllUsers(rows: seq<User>): (r: string)
    ensures r == NoUsersMessage <==> |rows| == 0
    ensures |rows| > 0 ==> |r| > 0 && r[0] == '-' && r[|r| - 1] == ')'
  {
    if |rows| == 0 then NoUsersMessage
    else
      var lines := UserLines(rows);
      assert lines[0][0] == '-';
      var last := lines[|lines| - 1];
      assert last[|last| - 1] == ')';
      Join(lines, '\n')
  }

  /** When no name or email holds a newline, the listing splits back into exactly
      one line per row, each line naming that row's user and email. */
  lemma ListingHasOneLinePerUser(rows: seq<User>)
    requires |rows| > 0
    requires forall i | 0 <= i < |rows| :: '\n' !in rows[i].name && '\n' !in rows[i].email
    ensures |Split(ListAllUsers(rows), '\n')| == |rows|
    ensures forall i | 0 <= i < |rows| ::
      Split(ListAllUsers(rows), '\n')[i] == "- " + rows[i].name + " (" + rows[i].email + ")"
  {
    var lines := UserLines(rows);
    forall i | 0 <= i < |lines| ensures '\n' !in lines[i] {
      assert lines[i] == UserLine(rows[i]);
    }
    SplitJoin(lines, '\n');
  }

  /** A row appended to a non-empty table shows up as one more line at the end. */
  lemma ListingAfterAppend(rows: seq<User>, u: User)
    requires |rows| > 0
    ensures ListAllUsers(rows + [u]) == ListAllUsers(rows) + "\n" + UserLine(u)
  {
    assert UserLines(rows + [u]) == UserLines(rows) + [UserLine(u)];
    JoinAppend(UserLines(rows), UserLine(u), '\n');
  }

  /** Right after seeding, the listing is the two seed users in insertion order. */
  lemma ListingAfterSeed()
    ensures Split(ListAllUsers(SeedRows), '\n') ==
      ["- " + "Alice" + " (" + "alice@wonderland.io" + ")",
       "- " + "Charlie" + " (" + "charlie@factory.com" + ")"]
  {
    forall i | 0 <= i < |SeedRows| ensures '\n' !in SeedRows[i].name && '\n' !in SeedRows[i].email {
      SeedRowHasNoNewline(i);
    }
    ListingHasOneLinePerUser(SeedRows);
  }

  lemma SeedRowHasNoNewline(i: nat)
    requires i < |SeedRows|
    ensures '\n' !in SeedRows[i].name && '\n' !in SeedRows[i].email
  {
    if i == 0 {
      assert SeedRows[i] == User(1, "Alice", "alice@wonderland.io");
    } else {
      assert SeedRows[i] == User(2, "Charlie", "charlie@factory.com");
    }
  }

  /** `name LIKE '%q%'`, the filter of `get_user_details`. Without wildcards in the
      query it is ASCII-case-insensitive containment, and every name matches itself. */
  predicate Matches(q: string, name: string): (r: bool)
    ensures NoWildcards(q) ==> (r <==> FoldedContains(name, q))
    ensures q == name ==> r
  {
    NameMatchesItself(name);
    if NoWildcards(q) then LikeContains(q, name); Like("%" + q + "%", name)
    else Like("%" + q + "%", name)
  }

  lemma NameMatchesItself(name: string)
    ensures Like("%" + name + "%", name)
  {
    var p := "%" + name + "%";
    assert p[0] == '%' && p[1..] == name + "%";
    LikeSelfPrefix(name, "");
    assert name + "" == name;
  }

  /** The index of the first row, in scan order, whose name matches `q`. */
  function FirstMatch(rows: seq<User>, q: string): (r: Option<nat>)
    ensures r.Some? ==> r.value < |rows| && Matches(q, rows[r.value].name)
    ensures r.Some? ==> forall j | 0 <= j < r.value :: !Matches(q, rows[j].name)
    ensures r.None? ==> forall j | 0 <= j < |rows| :: !Matches(q, rows[j].name)
  {
    if |rows| == 0 then None
    else if Matches(q, rows[0].name) then Some(0)
    else
      match FirstMatch(rows[1..], q)
      case Some(k) => Some(k + 1)
      case None => None
  }

  function NotFoundMessage(q: string): string
  {
    "No user found with the name '" + q + "'."
  }

  function DetailsMessage(u: User): string
  {
    "User Details: Name=" + u.name + ", Email=" + u.email
  }

  /** `get_user_details`: the details of the first row whose name matches `q`,
      or the not-found text exactly when no row's name matches. */
  function GetUserDetails(rows: seq<User>, q: string): (r: string)
    ensures r == NotFoundMessage(q) <==> forall j | 0 <= j < |rows| :: !Matches(q, rows[j].name)
    ensures forall i | 0 <= i < |rows| && Matches(q, rows[i].name) &&
      (forall j | 0 <= j < i :: !Matches(q, rows[j].name)) :: r == DetailsMessage(rows[i])
  {
    FirstMatchIsUnique(rows, q);
    match FirstMatch(rows, q)
    case None => NotFoundMessage(q)
    case Some(i) =>
      DetailsAreNotNotFound(rows[i], q);
      DetailsMessage(rows[i])
  }

  /** Any row that matches with no match before it is the one `FirstMatch` finds. */
  lemma FirstMatchIsUnique(rows: seq<User>, q: string)
    ensures forall i | 0 <= i < |rows| && Matches(q, rows[i].name) &&
      (forall j | 0 <= j < i :: !Matches(q, rows[j].name)) :: FirstMatch(rows, q) == Some(i)
  {
  }

  /** The details text starts with 'U' and the not-found text with 'N'. */
  lemma DetailsAreNotNotFound(u: User, q: string)
    ensures DetailsMessage(u) != NotFoundMessage(q)
  {
    assert DetailsMessage(u)[0] == 'U' && NotFoundMessage(q)[0] == 'N';
  }

  /** An empty query matches every name, so it finds the first row of a non-empty table. */
  lemma EmptyQueryFindsFirstUser(rows: seq<User>)
    requires |rows| > 0
    ensures GetUserDetails(rows, "") == DetailsMessage(rows[0])
  {
    assert "%" + "" + "%" == "%%";
    PercentMatchesAll(rows[0].name);
  }

  function AddedMessage(name: string): string
  {
    "User '" + name + "' was successfully added to the database."
  }

  function DuplicateMessage(email: string): string
  {
    "Error: A user with the email '" + email + "' already exists."
  }

  /** `add_new_user`: insert the row and report success, or report the duplicate
      email and leave the table as it was. */
  method AddNewUser(db: UsersTable, name: string, email: string) returns (msg: string)
    requires db.Valid() && db.created
    modifies db
    ensures db.Valid() && db.created
    ensures (exists i | 0 <= i < |old(db.rows)| :: old(db.rows)[i].email == email) ==>
      msg == DuplicateMessage(email) && db.rows == old(db.rows)
    ensures (forall i | 0 <= i < |old(db.rows)| :: old(db.rows)[i].email != email) ==>
      msg == AddedMessage(name) &&
      db.rows == old(db.rows) + [User(NextId(old(db.rows)), name, email)]
  {
    var ok := db.Insert(name, email);
    if ok {
      msg := AddedMessage(name);
    } else {
      msg := DuplicateMessage(email);
    }
  }

  /** Two adds with the same email: the first appends its row, the second is rejected
      and leaves the table as the first add left it. */
  method AddSameEmailTwice(db: UsersTable, first: string, second: string, email: string)
    returns (msg1: string, msg2: string)
    requires db.Valid() && db.created
    requires forall i | 0 <= i < |db.rows| :: db.rows[i].email != email
    modifies db
    ensures db.Valid() && db.created
    ensures msg1 == AddedMessage(first) && msg2 == DuplicateMessage(email)
    ensures db.rows == old(db.rows) + [User(NextId(old(db.rows)), first, email)]
  {
    msg1 := AddNewUser(db, first, email);
    assert db.rows[|db.rows| - 1].email == email;
    msg2 := AddNewUser(db, second, email);
  }

  /** After a successful add, looking the new name up never answers "not found", and
      it returns the new user when no earlier row's name matches. */
  lemma AddedUserIsFound(rows: seq<User>, name: string, email: string)
    requires Inserted(rows, name, email).Some?
    ensures GetUserDetails(Inserted(rows, name, email).value, name) != NotFoundMessage(name)
    ensures (forall j | 0 <= j < |rows| :: !Matches(name, rows[j].name)) ==>
      GetUserDetails(Inserted(rows, name, email).value, name) ==
      DetailsMessage(Inserted(rows, name, email).value[|rows|])
  {
    var after := Inserted(rows, name, email).value;
    assert Matches(name, after[|rows|].name);
    assert forall j | 0 <= j < |rows| :: after[j] == rows[j];
  }

  /** The greeting's five lines. The first is written as two literals only because the
      verifier checks a short literal for a newline far more cheaply than a long one. */
  const GreetingLines: seq<string> := [
    "Hello! I am a user " + "database management assistant.",
    "I can help you with the following tasks:",
    "- List all users",
    "- Find a specific user by name",
    "- Add a new user to the database"
  ]

  /** `greet_user`: a fixed text, independent of the table, made of the greeting's lines. */
  function GreetUser(): (r: string)
    ensures Split(r, '\n') == GreetingLines
  {
    GreetingLinesAreClean();
    SplitJoin(GreetingLines, '\n');
    Join(GreetingLines, '\n')
  }

  /** No line of the greeting holds a newline, so joining them keeps five lines.
      Checking a string literal for a newline is costly for the verifier, and checking
      all five lines in one proof comes close to its resource limit; so each line gets a
      small lemma of its own, and `GreetingLineHasNoNewline` dispatches to them. */
  lemma GreetingLinesAreClean()
    ensures forall i | 0 <= i < |GreetingLines| :: '\n' !in GreetingLines[i]
  {
    forall i | 0 <= i < |GreetingLines| ensures '\n' !in GreetingLines[i] {
      GreetingLineHasNoNewline(i);
    }
  }

  lemma GreetingLineHasNoNewline(i: nat)
    requires i < |GreetingLines|
    ensures '\n' !in GreetingLines[i]
  {
    if i == 0 {
      NoNewlineInGreeting0();
    } else if i == 1 {
      NoNewlineInGreeting1();
    } else if i == 2 {
      assert '\n' !in "- List all users";
    } else if i == 3 {
      NoNewlineInGreeting3();
    } else {
      NoNewlineInGreeting4();
    }
  }

  lemma NoNewlineInGreeting0()
    ensures '\n' !in GreetingLines[0]
  {
    assert '\n' !in "Hello! I am a user " && '\n' !in "database management assistant.";
  }

  lemma NoNewlineInGreeting1()
    ensures '\n' !in GreetingLines[1]
  {
    assert '\n' !in "I can help you with the following tasks:";
  }

  lemma NoNewlineInGreeting3()
    ensures '\n' !in GreetingLines[3]
  {
    assert '\n' !in "- Find a specific user by name";
  }

  lemma NoNewlineInGreeting4()
    ensures '\n' !in GreetingLines[4]
  {
    assert '\n' !in "- Add a new user to the database";
  }

}
