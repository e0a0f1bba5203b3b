/** The lookups and the insert of the user table that the authentication
    service relies on. */
module UserQueries {
  import opened Common
  import opened Tables
  import opened Model
  import opened Database

  function HasEmail(email: string): User -> bool
  {
    (u: User) => u.email == email
  }

  /** `findByEmail`: the account with that email, if any. */
  function FindByEmail(rows: seq<User>, email: string): (r: Option<User>)
    ensures r.Some? ==> r.value in rows && r.value.email == email
    ensures r.None? <==> forall i :: 0 <= i < |rows| ==> rows[i].email != email
  {
    Find(rows, HasEmail(email))
  }

  /** `create`: inserts an account under a fresh id and returns it. */
  method Create(db: Store, email: string, name: Option<string>, passwordHash: string, role: UserRole) returns (u: User)
    modifies db
    ensures u == User(old(db.nextId), email, name, passwordHash, role)
    ensures db.State() == old(db.State()).(users := old(db.users) + [u], nextId := old(db.nextId) + 1)
  {
    var id := db.FreshId();
    u := User(id, email, name, passwordHash, role);
    db.users := db.users + [u];
  }
}
