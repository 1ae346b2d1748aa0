/**
 * The browser-side account store: registered users and the current session,
 * kept in two storage slots. The slots are the fields of a `Store`; their
 * JSON encoding is not modelled, and an empty slot reads as no users and
 * no session.
 */
module Auth {
  import opened Wrappers

  /** A registered user, as stored; `id` is the registration time as a string. */
  datatype User = User(
    id: string,
    name: string,
    email: string,
    password: string,
    role: string,
    phone: string,
    experience: string,
    company: string)

  /** The session slot holds these four fields of the signed-in user. */
  datatype Session = Session(id: string, name: string, email: string, role: string)

  /** The registration form. */
  datatype Registration = Registration(
    name: string,
    email: string,
    password: string,
    role: string,
    phone: string,
    experience: string,
    company: string)

  function SessionOf(u: User): Session {
    Session(u.id, u.name, u.email, u.role)
  }

  function NewUser(reg: Registration, id: string): User {
    User(id, reg.name, reg.email, reg.password, reg.role, reg.phone, reg.experience, reg.company)
  }

  /** No two stored users share an email. */
  predicate DistinctEmails(users: seq<User>) {
    forall i, j :: 0 <= i < j < |users| ==> users[i].email != users[j].email
  }

  /** The first user satisfying `matches`: `users.find(...)`, as an index. */
  function Find(users: seq<User>, matches: User -> bool): (r: Option<nat>)
    ensures r.Some? ==>
      && r.value < |users| && matches(users[r.value])
      && forall j :: 0 <= j < r.value ==> !matches(users[j])
    ensures r.None? ==> forall j :: 0 <= j < |users| ==> !matches(users[j])
  {
    if users == [] then None
    else if matches(users[0]) then Some(0)
    else
      var rest := Find(users[1..], matches);
      if rest.Some? then Some(rest.value + 1) else None
  }

  predicate HasEmail(email: string, u: User) { u.email == email }

  predicate HasCredentials(email: string, password: string, u: User) {
    u.email == email && u.password == password
  }

  /** Adding a user whose email is new keeps the emails distinct. */
  lemma AppendKeepsDistinct(users: seq<User>, u: User)
    requires DistinctEmails(users)
    requires Find(users, (v: User) => HasEmail(u.email, v)).None?
    ensures DistinctEmails(users + [u])
  {
    var all := users + [u];
    forall i, j | 0 <= i < j < |all| ensures all[i].email != all[j].email {
      if j == |users| {
        assert !HasEmail(u.email, users[i]);
      } else {
        assert all[i] == users[i] && all[j] == users[j];
      }
    }
  }

  /** With distinct emails, a login can only ever select the one user holding that email. */
  lemma LoginSelectsEmailOwner(users: seq<User>, email: string, password: string, i: nat)
    requires DistinctEmails(users)
    requires i < |users| && users[i].email == email
    ensures Find(users, (u: User) => HasCredentials(email, password, u)) ==
      if users[i].password == password then Some(i) else None
  {
    var r := Find(users, (u: User) => HasCredentials(email, password, u));
    if r.Some? {
      assert users[r.value].email == email;
      assert r.value == i;
    }
  }

  class Store {
    /** The users slot. */
    var users: seq<User>
    /** The session slot; None when it is empty. */
    var session: Option<Session>

    /** Empty storage. */
    constructor ()
      ensures users == [] && session == None
    {
      users := [];
      session := None;
    }

    predicate Valid()
      reads this
    {
      DistinctEmails(users)
    }

    /**
     * register: an email already stored is refused and nothing changes;
     * otherwise the new user is appended and becomes the session.
     */
    method Register(reg: Registration, id: string) returns (r: Result<User, string>)
      modifies this
      ensures Find(old(users), (u: User) => HasEmail(reg.email, u)).Some? ==>
        r == Err("Email already registered") && users == old(users) && session == old(session)
      ensures Find(old(users), (u: User) => HasEmail(reg.email, u)).None? ==>
        r == Ok(NewUser(reg, id)) && users == old(users) + [NewUser(reg, id)]
        && session == Some(SessionOf(NewUser(reg, id)))
      ensures old(Valid()) ==> Valid()
    {
      if Find(users, (u: User) => HasEmail(reg.email, u)).Some? {
        return Err("Email already registered");
      }
      var user := NewUser(reg, id);
      if Valid() {
        AppendKeepsDistinct(users, user);
      }
      users := users + [user];
      session := Some(SessionOf(user));
      return Ok(user);
    }

    /**
     * login: the first user with that email and password becomes the
     * session; with none, 'Invalid credentials' and nothing changes.
     */
    method Login(email: string, password: string) returns (r: Result<User, string>)
      modifies this
      ensures users == old(users)
      ensures Find(users, (u: User) => HasCredentials(email, password, u)).None? ==>
        r == Err("Invalid credentials") && session == old(session)
      ensures Find(users, (u: User) => HasCredentials(email, password, u)).Some? ==>
        var i := Find(users, (u: User) => HasCredentials(email, password, u)).value;
        r == Ok(users[i]) && session == Some(SessionOf(users[i]))
    {
      var found := Find(users, (u: User) => HasCredentials(email, password, u));
      if found.None? {
        return Err("Invalid credentials");
      }
      var user := users[found.value];
      session := Some(SessionOf(user));
      return Ok(user);
    }

    /** logout: the session slot is emptied; the users stay. */
    method Logout()
      modifies this
      ensures session == None && CurrentUser() == None
      ensures users == old(users)
    {
      session := None;
    }

    /** currentUser: the stored session, or none. */
    function CurrentUser(): (r: Option<Session>)
      reads this
      ensures r == session
    {
      session
    }
  }

  /** Registering two users with one email: the second is refused and the first stays signed in. */
  method RegisterTwice(reg: Registration, other: Registration, id1: string, id2: string)
    returns (first: Result<User, string>, second: Result<User, string>, signedIn: Option<Session>)
    requires other.email == reg.email
    ensures first == Ok(NewUser(reg, id1))
    ensures second == Err("Email already registered")
    ensures signedIn == Some(SessionOf(NewUser(reg, id1)))
  {
    var store := new Store();
    first := store.Register(reg, id1);
    assert HasEmail(other.email, store.users[0]);
    second := store.Register(other, id2);
    signedIn := store.CurrentUser();
  }
}
