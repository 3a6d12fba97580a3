/** The `Users` table: accounts keyed by an auto-incremented `user_id`, with a
    unique email, a nullable password hash, and optional links to social
    providers. */
module UserModel {
  import opened Common
  import opened Credentials

  /** The authType column. Only these values are ever written: "local" (the
      column default), "google+local" and "facebook". */
  datatype AuthType = Local | GoogleLocal | Facebook

  datatype User = User(
    id: nat,                    // user_id, the primary key
    name: string,               // never null
    email: string,              // never null, unique
    password: Option<Digest>,   // nullable: social accounts start without one
    profilePic: Option<string>,
    authType: AuthType,         // defaults to Local
    passwordSet: bool,          // defaults to false
    githubId: Option<string>,
    facebookId: Option<string>)

  /** The table, with the next value of its auto-increment counter. */
  datatype UserStore = UserStore(users: map<nat, User>, nextId: nat)

  /** Every id in use was handed out by the counter. */
  predicate Bounded(s: UserStore) {
    forall id :: id in s.users ==> id < s.nextId
  }

  /** No two accounts share an email: the unique index on the column. */
  predicate EmailsUnique(s: UserStore) {
    forall a, b :: a in s.users && b in s.users && s.users[a].email == s.users[b].email ==> a == b
  }

  /** The table's integrity: counter-issued keys, each row under its own id,
      unique emails, and a password flag that is set only with a password. */
  predicate Valid(s: UserStore) {
    && Bounded(s)
    && (forall id :: id in s.users ==> s.users[id].id == id)
    && EmailsUnique(s)
    && (forall id :: id in s.users && s.users[id].passwordSet ==> s.users[id].password.Some?)
  }

  predicate EmailTaken(s: UserStore, email: string) {
    exists id :: id in s.users && s.users[id].email == email
  }

  /** The columns a `User.create` call is given; the others take their defaults. */
  datatype Draft = Draft(
    name: Option<string>,
    email: Option<string>,
    password: Option<Digest>,
    authType: AuthType,
    githubId: Option<string>,
    facebookId: Option<string>)

  /** `User.create`: the NOT NULL columns must be given and the email must be
      free, otherwise the insert fails. */
  function Create(s: UserStore, d: Draft): (r: Option<(User, UserStore)>)
    ensures r.None? <==> d.name.None? || d.email.None? || EmailTaken(s, d.email.value)
    ensures r.Some? ==>
      && var (u, s') := r.value;
      && u.id == s.nextId && s'.nextId == s.nextId + 1
      && u.name == d.name.value && u.email == d.email.value
      && u.password == d.password && u.authType == d.authType
      && u.githubId == d.githubId && u.facebookId == d.facebookId
      && u.profilePic.None? && !u.passwordSet
      && s'.users == s.users[u.id := u]
    ensures r.Some? && Valid(s) ==> Valid(r.value.1) && r.value.0.id !in s.users
  {
    if d.name.None? || d.email.None? || EmailTaken(s, d.email.value) then None
    else
      var u := User(s.nextId, d.name.value, d.email.value, d.password, None,
                    d.authType, false, d.githubId, d.facebookId);
      Some((u, UserStore(s.users[u.id := u], s.nextId + 1)))
  }

  /** The lowest id below `n` whose row satisfies `p`. */
  function FirstBelow(users: map<nat, User>, n: nat, p: User -> bool): (r: Option<nat>)
    ensures r.Some? ==> r.value < n && r.value in users && p(users[r.value])
    ensures r.Some? ==> forall id :: id < r.value && id in users ==> !p(users[id])
    ensures r.None? ==> forall id :: id < n && id in users ==> !p(users[id])
  {
    if n == 0 then None
    else match FirstBelow(users, n - 1, p)
      case Some(id) => Some(id)
      case None => if n - 1 in users && p(users[n - 1]) then Some(n - 1) else None
  }

  /** `findOne({ where: { email } })`: the id of the account with that email. */
  function FindByEmail(s: UserStore, email: string): (r: Option<nat>)
    ensures r.Some? ==> r.value in s.users && s.users[r.value].email == email
    ensures Bounded(s) ==> (r.None? <==> !EmailTaken(s, email))
  {
    FirstBelow(s.users, s.nextId, (u: User) => u.email == email)
  }

  /** `findOne({ where: { github_id } })`: the first account linked to that
      GitHub id. */
  function FindByGithubId(s: UserStore, githubId: string): (r: Option<nat>)
    ensures r.Some? ==> r.value in s.users && s.users[r.value].githubId == Some(githubId)
    ensures Bounded(s) && r.None? ==> forall id :: id in s.users ==> s.users[id].githubId != Some(githubId)
  {
    FirstBelow(s.users, s.nextId, (u: User) => u.githubId == Some(githubId))
  }

  /** With unique emails the lookup is exact: it finds precisely the account
      holding the email. */
  lemma FindByEmailExact(s: UserStore, email: string, id: nat)
    requires Valid(s)
    ensures FindByEmail(s, email) == Some(id) <==> id in s.users && s.users[id].email == email
  {
  }

  /** The lookup reads only the ids and the column it filters on: two tables
      with the same ids that agree on `p` row by row give the same answer. */
  lemma {:induction false} FirstBelowDependsOnlyOnFilter(a: map<nat, User>, b: map<nat, User>, n: nat, p: User -> bool)
    requires a.Keys == b.Keys
    requires forall id :: id in a ==> p(a[id]) == p(b[id])
    ensures FirstBelow(a, n, p) == FirstBelow(b, n, p)
  {
    if n > 0 {
      FirstBelowDependsOnlyOnFilter(a, b, n - 1, p);
    }
  }

  /** Rewriting one account without touching its email leaves every email
      lookup as it was. */
  lemma FindByEmailIgnoresOtherColumns(s: UserStore, id: nat, u: User, email: string)
    requires id in s.users && u.email == s.users[id].email
    ensures FindByEmail(s.(users := s.users[id := u]), email) == FindByEmail(s, email)
  {
    var s' := s.(users := s.users[id := u]);
    assert s'.users.Keys == s.users.Keys;
    FirstBelowDependsOnlyOnFilter(s'.users, s.users, s.nextId, (v: User) => v.email == email);
  }
}
