/**
  The `users` table: rows of (id, username, email, password), with `id` an
  AUTOINCREMENT key and `username` and `email` each UNIQUE. Only the two
  statements the handlers run are modelled: the insert of a new user and the
  lookup of a user by email.
 */
module UserStore {
  import opened Wrappers

  datatype UserRecord = UserRecord(id: nat, username: string, email: string, password: string)

  /** The rows in insertion order, and the id the next insert will receive. */
  datatype Store = Store(users: seq<UserRecord>, nextId: nat)

  const Empty := Store([], 1)

  /** The table's own constraints: ids below the counter and distinct; usernames distinct; emails distinct. */
  ghost predicate Valid(st: Store)
  {
    && (forall i :: 0 <= i < |st.users| ==> st.users[i].id < st.nextId)
    && (forall i, j :: 0 <= i < j < |st.users| ==>
          && st.users[i].id != st.users[j].id
          && st.users[i].username != st.users[j].username
          && st.users[i].email != st.users[j].email)
  }

  /** The first of `users` whose email is `email`. */
  function FindFirst(users: seq<UserRecord>, email: string): (r: Option<UserRecord>)
    ensures r.None? <==> forall i :: 0 <= i < |users| ==> users[i].email != email
    ensures r.Some? ==> exists i :: 0 <= i < |users| && users[i] == r.value && r.value.email == email
                                    && forall j :: 0 <= j < i ==> users[j].email != email
  {
    if users == [] then None
    else if users[0].email == email then Some(users[0])
    else
      var r := FindFirst(users[1..], email);
      if r.Some? then
        var i :| 0 <= i < |users[1..]| && users[1..][i] == r.value && r.value.email == email
                 && forall j :: 0 <= j < i ==> users[1..][j].email != email;
        assert users[i + 1] == r.value;
        r
      else r
  }

  /** `SELECT * FROM users WHERE email = ?` followed by `.get`: the first matching row, if any. */
  function FindByEmail(st: Store, email: string): (r: Option<UserRecord>)
    ensures r.None? <==> forall i :: 0 <= i < |st.users| ==> st.users[i].email != email
    ensures r.Some? ==> r.value in st.users && r.value.email == email
  {
    FindFirst(st.users, email)
  }

  /** Some row already holds this username or this email. */
  predicate Taken(st: Store, username: string, email: string)
  {
    exists i :: 0 <= i < |st.users| && (st.users[i].username == username || st.users[i].email == email)
  }

  /**
    `INSERT INTO users (username, email, password) VALUES (?, ?, ?)`: the new row
    takes the next id; a UNIQUE violation makes the statement fail and leaves
    the table as it was.
   */
  function Insert(st: Store, username: string, email: string, password: string): (r: Option<Store>)
    ensures r.None? <==> Taken(st, username, email)
    ensures r.Some? ==> |r.value.users| == |st.users| + 1 && r.value.users[..|st.users|] == st.users
    ensures r.Some? ==> r.value.users[|st.users|] == UserRecord(st.nextId, username, email, password)
  {
    if Taken(st, username, email) then None
    else Some(Store(st.users + [UserRecord(st.nextId, username, email, password)], st.nextId + 1))
  }

  lemma EmptyIsValid()
    ensures Valid(Empty)
  {
  }

  /** A successful insert keeps the table's constraints. */
  lemma InsertPreservesValid(st: Store, username: string, email: string, password: string)
    requires Valid(st)
    requires Insert(st, username, email, password).Some?
    ensures Valid(Insert(st, username, email, password).value)
  {
  }

  /** After a successful insert, looking up its email finds the new row, and every other email finds what it found before. */
  lemma {:induction false} FindAfterInsert(st: Store, username: string, email: string, password: string, other: string)
    requires Insert(st, username, email, password).Some?
    ensures FindByEmail(Insert(st, username, email, password).value, email) == Some(UserRecord(st.nextId, username, email, password))
    ensures other != email ==> FindByEmail(Insert(st, username, email, password).value, other) == FindByEmail(st, other)
  {
    var rec := UserRecord(st.nextId, username, email, password);
    FindFirstAppend(st.users, rec, email);
    FindFirstAppend(st.users, rec, other);
    assert forall i :: 0 <= i < |st.users| ==> st.users[i].email != email;
  }

  lemma {:induction false} FindFirstAppend(users: seq<UserRecord>, rec: UserRecord, email: string)
    ensures FindFirst(users + [rec], email) ==
      if FindFirst(users, email).Some? then FindFirst(users, email)
      else if rec.email == email then Some(rec) else None
    decreases |users|
  {
    if users != [] {
      assert (users + [rec])[1..] == users[1..] + [rec];
      FindFirstAppend(users[1..], rec, email);
    } else {
      assert [rec][1..] == [];
    }
  }

  /** In a valid store, a lookup finds the one row with that email. */
  lemma FindByEmailUnique(st: Store, email: string, i: nat)
    requires Valid(st)
    requires i < |st.users| && st.users[i].email == email
    ensures FindByEmail(st, email) == Some(st.users[i])
  {
  }
}
