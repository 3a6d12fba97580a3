/** GitHub sign-in (POST /auth/github): after the authorization-code exchange
    the profile and the email list are inputs; the account is found by the
    primary verified email, or by GitHub id when there is none, then created
    or given its missing GitHub link. */
module GithubAuth {
  import opened Common
  import opened Credentials
  import opened UserModel

  datatype GithubEmail = GithubEmail(email: Option<string>, primary: bool, verified: bool)
  datatype GithubProfile = GithubProfile(id: string, name: Option<string>, login: string)

  /** What the three provider requests return, taken together. */
  datatype GithubIdentity = GithubIdentity(profile: GithubProfile, emails: seq<GithubEmail>)

  /** The reply: a token and the resolved account's email and name. */
  datatype GithubLogin = GithubLogin(token: Token, email: string, name: string)

  const Failed: Reply<GithubLogin> := Fail(401, "GitHub authentication failed")

  predicate PrimaryVerified(e: GithubEmail) {
    e.primary && e.verified
  }

  /** `emails.find(e => e.primary && e.verified)`, as an index from `from` on. */
  function FindPrimaryFrom(emails: seq<GithubEmail>, from: nat): (r: Option<nat>)
    requires from <= |emails|
    ensures r.Some? ==> from <= r.value < |emails| && PrimaryVerified(emails[r.value])
    ensures r.Some? ==> forall j :: from <= j < r.value ==> !PrimaryVerified(emails[j])
    ensures r.None? ==> forall j :: from <= j < |emails| ==> !PrimaryVerified(emails[j])
    decreases |emails| - from
  {
    if from == |emails| then None
    else if PrimaryVerified(emails[from]) then Some(from)
    else FindPrimaryFrom(emails, from + 1)
  }

  /** `find(...)?.email || null`: the email of the first primary verified
      entry, or none when there is no such entry or its email is empty. */
  function ChosenEmail(emails: seq<GithubEmail>): (r: Option<string>)
    ensures r.Some? ==>
      && r.value != ""
      && exists i :: 0 <= i < |emails| && PrimaryVerified(emails[i]) && emails[i].email == r
                  && forall j :: 0 <= j < i ==> !PrimaryVerified(emails[j])
    ensures (forall i :: 0 <= i < |emails| ==> !PrimaryVerified(emails[i])) ==> r.None?
    // the first primary verified entry decides: its email when non-empty
    ensures forall i :: 0 <= i < |emails| && PrimaryVerified(emails[i])
                     && (forall j :: 0 <= j < i ==> !PrimaryVerified(emails[j]))
                     ==> r == (if Truthy(emails[i].email) then emails[i].email else None)
  {
    match FindPrimaryFrom(emails, 0)
    case None => None
    case Some(i) => if Truthy(emails[i].email) then emails[i].email else None
  }

  /** `githubUser.name || githubUser.login`. */
  function DisplayName(p: GithubProfile): string {
    if Truthy(p.name) then p.name.value else p.login
  }

  /** The account lookup: by the chosen email when there is one, otherwise by
      GitHub id. */
  function Lookup(s: UserStore, identity: GithubIdentity): Option<nat> {
    match ChosenEmail(identity.emails)
    case Some(email) => FindByEmail(s, email)
    case None => FindByGithubId(s, identity.profile.id)
  }

  /** `identity` is None when a provider request fails. A missing code is
      refused before anything else; every later failure answers 401 and
      writes nothing. */
  function GithubLoginFlow(s: UserStore, code: Option<string>, identity: Option<GithubIdentity>)
    : (r: (Reply<GithubLogin>, UserStore))
    ensures r.0.Fail? ==> r.1 == s
    ensures !Truthy(code) ==> r.0 == Fail(400, "No code provided")
    ensures Truthy(code) && r.0.Fail? ==> r.0 == Failed
    // a found account: the same row, with its GitHub id filled in if it had none
    ensures r.0.Ok? && identity.Some? && Lookup(s, identity.value).Some? ==>
      && var id := Lookup(s, identity.value).value;
      && var u := s.users[id];
      && r.0 == Ok(200, GithubLogin(Token(u.id, u.email), u.email, u.name))
      && (Truthy(u.githubId) ==> r.1 == s)
      && (!Truthy(u.githubId) ==>
            r.1 == s.(users := s.users[id := u.(githubId := Some(identity.value.profile.id))]))
    // no account: exactly one is created, and only when there is an email
    ensures r.0.Ok? && identity.Some? && Lookup(s, identity.value).None? ==>
      && var p := identity.value.profile;
      && var email := ChosenEmail(identity.value.emails);
      && email.Some?
      && r.1.nextId == s.nextId + 1 && s.nextId in r.1.users
      && r.1.users == s.users[s.nextId := r.1.users[s.nextId]]
      && var name := if Truthy(p.name) then p.name.value else p.login;
      && r.1.users[s.nextId] == User(s.nextId, name, email.value, None, None, Local, false, Some(p.id), None)
      && r.0 == Ok(200, GithubLogin(Token(s.nextId, email.value), email.value, name))
    // the key of the lookup: the chosen email when there is one ...
    ensures r.0.Ok? && identity.Some? && ChosenEmail(identity.value.emails).Some? ==>
      r.0.body.email == ChosenEmail(identity.value.emails).value
    // ... and otherwise an account already linked to the GitHub id
    ensures r.0.Ok? && identity.Some? && ChosenEmail(identity.value.emails).None? ==>
      exists id :: id in s.users && s.users[id].githubId == Some(identity.value.profile.id)
                && r.0.body.token == Token(s.users[id].id, s.users[id].email)
    ensures r.0.Ok? ==> Truthy(code) && identity.Some?
    // after a successful exchange the sign-in succeeds exactly when an account
    // is found or there is an email to create one with
    ensures Truthy(code) && identity.Some? && Bounded(s) ==>
      (r.0.Ok? <==> Lookup(s, identity.value).Some? || ChosenEmail(identity.value.emails).Some?)
    ensures Valid(s) ==> Valid(r.1)
  {
    if !Truthy(code) then (Fail(400, "No code provided"), s)
    else if identity.None? then (Failed, s)
    else
      var p := identity.value.profile;
      var email := ChosenEmail(identity.value.emails);
      match Lookup(s, identity.value)
      case None =>
        (match Create(s, Draft(Some(DisplayName(p)), email, None, Local, Some(p.id), None))
         case None => (Failed, s)
         case Some((u, s')) => (Ok(200, GithubLogin(Token(u.id, u.email), u.email, u.name)), s'))
      case Some(id) =>
        assert email.None? ==> FindByGithubId(s, p.id) == Some(id) && s.users[id].githubId == Some(p.id);
        var u := s.users[id];
        var reply := Ok(200, GithubLogin(Token(u.id, u.email), u.email, u.name));
        if Truthy(u.githubId) then (reply, s)
        else (reply, s.(users := s.users[id := u.(githubId := Some(p.id))]))
  }

  /** Without a primary verified email, an account not already linked to the
      GitHub id cannot be created: the email column is NOT NULL. */
  lemma NoEmailNoNewAccount(s: UserStore, code: Option<string>, identity: GithubIdentity)
    requires Truthy(code)
    requires ChosenEmail(identity.emails).None?
    requires FindByGithubId(s, identity.profile.id).None?
    ensures GithubLoginFlow(s, code, Some(identity)) == (Failed, s)
  {
  }

  /** Signing in twice with the same identity gives the same answer and writes
      nothing the second time. */
  lemma GithubLoginIdempotent(s: UserStore, code: Option<string>, identity: GithubIdentity)
    requires Valid(s)
    ensures var (first, s1) := GithubLoginFlow(s, code, Some(identity));
      GithubLoginFlow(s1, code, Some(identity)) == (first, s1)
  {
    var (first, s1) := GithubLoginFlow(s, code, Some(identity));
    var p := identity.profile;
    var email := ChosenEmail(identity.emails);
    if first.Ok? {
      match Lookup(s, identity)
      case None =>
        FindByEmailExact(s1, email.value, s.nextId);
        assert Lookup(s1, identity) == Some(s.nextId);
        var u1 := s1.users[s.nextId];
        assert s1.users[s.nextId := u1.(githubId := Some(p.id))] == s1.users;
      case Some(id) =>
        var u := s.users[id];
        if !Truthy(u.githubId) {
          var u' := u.(githubId := Some(p.id));
          if email.Some? {
            FindByEmailIgnoresOtherColumns(s, id, u', email.value);
          } else {
            GithubIdLookupStable(s, id, p.id);
          }
          assert s1.users[id] == u';
          assert s1.users[id := u'.(githubId := Some(p.id))] == s1.users;
        }
    }
  }

  /** Linking the first account found by a GitHub id to that id does not move
      the lookup. */
  lemma GithubIdLookupStable(s: UserStore, id: nat, githubId: string)
    requires FindByGithubId(s, githubId) == Some(id)
    ensures FindByGithubId(s.(users := s.users[id := s.users[id].(githubId := Some(githubId))]), githubId)
         == Some(id)
  {
    var s' := s.(users := s.users[id := s.users[id].(githubId := Some(githubId))]);
    var p := (u: User) => u.githubId == Some(githubId);
    assert s'.users.Keys == s.users.Keys;
    assert forall k :: k in s.users ==> p(s'.users[k]) == p(s.users[k]);
    FirstBelowDependsOnlyOnFilter(s'.users, s.users, s.nextId, p);
  }
}
