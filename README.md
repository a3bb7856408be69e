# User table of the Groq user-management assistant, in Dafny

The assistant keeps its users in one SQLite table, `users (id INTEGER PRIMARY KEY,
name TEXT NOT NULL, email TEXT NOT NULL UNIQUE)` in `users.db`. `setup_database`
creates the table and seeds it with Alice and Charlie when it is empty. The
language model can call four tools on the table:

- `list_all_users` returns one line per user.
- `get_user_details` finds the first user whose name is `LIKE '%q%'`.
- `add_new_user` inserts a user, or reports a duplicate email.
- `greet_user` returns a fixed capability text.

This project models that table and those operations and proves what they promise.

- `text.dfy` (module `Text`) holds SQLite's `LIKE` matcher and Python's `str.join` and
  `str.split`. The matcher has ASCII-only case folding, `%` and `_` wildcards and no
  ESCAPE clause. Split is used only to state that the listing has one line per user.
- `database.dfy` (module `Database`) holds the `User` row and the table's key and
  uniqueness constraints. It also holds SQLite's rowid choice for an insert (1 in an
  empty table, otherwise one more than the largest rowid), the `INSERT` with its UNIQUE check, and `setup_database`.
  The `users.db` file is the class `UsersTable`. Its fields are `created` and `rows`,
  and `rows` is kept in scan order.
- `tools.dfy` (module `Tools`) holds the four tools. The three read-only tools are
  functions of the table's rows, so they cannot change the table. `add_new_user` is a
  method that changes the table in place.

Assumptions:

- `SELECT` without `ORDER BY` is taken to return rows as a full scan of a rowid table
  does, in ascending rowid order. SQLite does not promise an order without `ORDER BY`.
  The table invariant keeps the sequence in ascending rowid order. That is also
  insertion order, because every new rowid is one more than the largest.
- The tools run only after `setup_database` has created the table, as `main.py` does
  at start-up.

## Model

| member | source | states |
|---|---|---|
| `Database.TableInvariant` | database.py:15-19 | the PRIMARY KEY and the UNIQUE email column: rowids strictly ascend along the rows (scan order is rowid order, so no two rows share a rowid) and no two rows share an email; when it holds there are exactly as many distinct emails as rows |
| `Database.NextIdFollowsLast` | database.py:16 | in a table that keeps the invariant, the next rowid is one more than the last row's, so appending a row keeps the rows in rowid order |
| `Database.UsersTable.Valid` | database.py:13-19 | only a created table holds rows, and its rows keep the table's constraints, so it has as many distinct emails as rows |
| `Database.MaxId` | database.py:16 | the result is at least every rowid in the table and is one of them when the table is non-empty; it is 0 for an empty table |
| `Database.NextId` | database.py:16 | the rowid given to an inserted row is 1 in an empty table and otherwise exactly one more than the largest rowid in use, so it is fresh |
| `Database.Inserted` | database.py:18 | an INSERT is rejected exactly when some row already has that email; otherwise it appends one row with that name and email and a fresh id after the unchanged old rows, and it keeps the unique-id and unique-email invariant |
| `Database.AfterSetup` | database.py:24-32 | after setup the table is non-empty; a non-empty table is left as it was; an empty one holds the initial users in order |
| `Database.SeedingSucceeds` | database.py:26-32 | both seed INSERTs on an empty table succeed, give Alice rowid 1 and then Charlie rowid 2, and the seed rows satisfy the table invariant |
| `Database.SetupIdempotent` | database.py:23-25 | running setup on the table setup left behind changes nothing |
| `Database.UsersTable.constructor` | database.py:9 | a fresh database file has no users table and no rows |
| `Database.UsersTable.CreateIfNotExists` | database.py:13-21 | after CREATE TABLE IF NOT EXISTS the table exists and its rows are unchanged |
| `Database.UsersTable.Insert` | database.py:18 | the insert succeeds exactly when the email is new; on success the rows become the appended table, on failure they are unchanged; the invariant is kept |
| `Database.SetupDatabase` | database.py:3-36 | the table exists afterwards and holds AfterSetup of the old rows; the seeding loop inserts the initial users one by one and neither insert fails |
| `Text.Like` | tools.py:36 | SQLite's `LIKE`: `%` matches any run of characters, `_` one character, anything else itself up to ASCII case; a match needs at least one string character per non-`%` pattern character, and exactly as many when the pattern has no `%` |
| `Text.LikePrefix` | tools.py:36 | for a query without wildcards, `LIKE 'q%'` holds exactly when q is an ASCII-case-insensitive prefix |
| `Text.LikeContains` | tools.py:36 | for a query without wildcards, `LIKE '%q%'` holds exactly when q occurs in the name up to ASCII case |
| `Text.LikeSelfPrefix` | tools.py:36 | a pattern followed by `%` matches every string that starts with it, wildcards included |
| `Text.Join` | tools.py:28 | a non-empty join starts with the first line and ends with the last line |
| `Text.Split` | tools.py:28 | splitting gives one more piece than there are separators |
| `Text.SplitJoin` | tools.py:28 | splitting a newline join of newline-free lines gives back exactly those lines |
| `Tools.UserLine` | tools.py:28 | the line `- {name} ({email})` for one user, which holds no newline when neither field does |
| `Tools.ListAllUsers` | tools.py:19-28 | the result is the "no users" text exactly when the table is empty; otherwise it starts with "-" and ends with ")", so there is no trailing newline |
| `Tools.ListingHasOneLinePerUser` | tools.py:28 | when no name or email holds a newline, the listing has exactly as many lines as rows, and line i is `- {name} ({email})` of row i |
| `Tools.ListingAfterAppend` | tools.py:23-28 | a row appended to a non-empty table adds one line at the end of the listing, so the listing is in insertion order |
| `Tools.ListingAfterSeed` | database.py:26-29 | right after seeding, the listing is the Alice line and then the Charlie line |
| `Tools.Matches` | tools.py:36 | the filter `name LIKE '%q%'`; for a query without wildcards it holds exactly when q occurs in the name up to ASCII case, and every name matches the query made of itself |
| `Tools.FirstMatch` | tools.py:36-37 | the result is the first matching row in scan order, or None exactly when no row matches |
| `Tools.GetUserDetails` | tools.py:32-41 | the result is the not-found text exactly when no row's name matches; otherwise it is the details of the first matching row |
| `Tools.EmptyQueryFindsFirstUser` | tools.py:36 | an empty query matches every name, so it returns the first row of a non-empty table |
| `Tools.AddNewUser` | tools.py:45-56 | with a new email: the success text, and exactly one row (name, email, fresh id) is appended after the unchanged old rows; with an email in use: the duplicate-email text and an unchanged table; the invariant holds either way |
| `Tools.AddSameEmailTwice` | tools.py:50-54 | with a new email, the first add returns the success text and appends its row; the second add with the same email returns the duplicate-email text and leaves the table exactly as the first add left it; the invariant holds afterwards |
| `Tools.AddedUserIsFound` | tools.py:36-52 | after a successful add, looking up the new name never answers not-found; it returns the new user when no earlier row's name matches |
| `Tools.GreetUser` | tools.py:59-70 | the greeting is exactly its five fixed lines; it takes no table, so no table contents can change it |

## Left out

- `agent.py` is not modelled. It builds the prompt and the Groq client, and picks tools with an external language model. Its rule to ask for missing arguments exists only as prompt text.
- `main.py` is not modelled. It is the input/print loop, the `.env` loading, the chat history and the `exit` check.
- Connections, `commit`, `close` and the `finally` block are left out. The table is a field of `UsersTable`, and every change is immediate and durable. The "seeded" print is also left out.
- LangChain's `@tool`, `return_direct` and `args_schema`, and the pydantic `Field` descriptions, are left out. The schemas only make every argument a required string, and Dafny's types already give that.
- The code has no update or delete tool; the greeting advertises only list, find and add (tools.py:67-69).
- `Tools.AddNewUser` requires that the table exists. Without it, SQLite raises an OperationalError that the tool does not catch; that path is not modelled because `main.py` runs `setup_database` first.
- `Database.NextId` does not model SQLite's random choice of rowid once the largest rowid reaches 2^63-1. Rowids are unbounded integers here.
- `Text.Like` does not model `PRAGMA case_sensitive_like` or a custom LIKE function. It models SQLite's default LIKE on text without NUL characters. SQLite compares NUL-terminated text, so a U+0000 in the name or the pattern ends the comparison there. For example, `"Al\0ice" LIKE '%ice%'` is false in SQLite but `Like` holds. Patterns longer than SQLite's limit (`SQLITE_MAX_LIKE_PATTERN_LENGTH`, 50,000 bytes by default) raise an error that `Like` does not model.
- `Tools.GetUserDetails` does not model the uncaught `sqlite3.OperationalError` ("LIKE or GLOB pattern too complex") that tools.py:36 raises on a non-empty table when `%q%` is longer than 50,000 UTF-8 bytes. The model answers with a details or not-found text instead. It also inherits `Text.Like`'s treatment of NUL characters: a name or query with a U+0000 can match in the model where SQLite stops comparing at the NUL.
- `Tools.ListingHasOneLinePerUser` requires names and emails without newlines. A newline inside a field would make the listing show more lines than there are rows.
- The NOT NULL constraints are not modelled as checks, because a Dafny string cannot be null.
