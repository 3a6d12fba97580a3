/** Facebook sign-in (POST /auth/facebook): after the code exchange the Graph
    profile is an input; the account is found by email only, or created as a
    "facebook" account. The code itself is not checked by the handler: it only
    reaches the exchange, whose outcome is the profile input. */
module FacebookAuth {
  import opened Common
  import opened Credentials
  import opened UserModel

  datatype FacebookProfile = FacebookProfile(id: string, name: Option<string>, email: Option<string>)

  const Failed: Reply<Token> := Fail(401, "Facebook login failed")

  /** `profile` is None when the code exchange or the profile request fails. */
  function FacebookLoginFlow(s: UserStore, profile: Option<FacebookProfile>): (r: (Reply<Token>, UserStore))
    ensures r.0.Fail? ==> r.0 == Failed && r.1 == s
    ensures r.0.Ok? ==> r.0.status == 200 && profile.Some? && profile.value.email.Some?
    ensures r.0.Ok? ==> r.0.body.email == profile.value.email.value
    // an existing account is used as it is: no facebook_id is filled in
    ensures r.0.Ok? && r.1 == s ==>
      exists id :: id in s.users && s.users[id].email == profile.value.email.value
                && r.0.body == Token(s.users[id].id, s.users[id].email)
    // otherwise exactly one "facebook" account is added
    ensures r.1 != s ==>
      && r.0.Ok? && profile.value.name.Some?
      && var p := profile.value;
      && r.1.nextId == s.nextId + 1 && s.nextId in r.1.users
      && r.1.users == s.users[s.nextId := r.1.users[s.nextId]]
      && r.1.users[s.nextId] == User(s.nextId, p.name.value, p.email.value, None, None, Facebook, false, None, Some(p.id))
      && r.0.body == Token(s.nextId, p.email.value)
    ensures Bounded(s) && r.0.Ok? ==> (r.1 == s <==> EmailTaken(s, profile.value.email.value))
    // a profile with an email signs in exactly when an account holds that
    // email or the profile carries the name a new account needs
    ensures profile.Some? && profile.value.email.Some? && Bounded(s) ==>
      (r.0.Ok? <==> EmailTaken(s, profile.value.email.value) || profile.value.name.Some?)
    ensures Valid(s) ==> Valid(r.1)
  {
    if profile.None? || profile.value.email.None? then (Failed, s)
    else
      var p := profile.value;
      match FindByEmail(s, p.email.value)
      case Some(id) =>
        var u := s.users[id];
        (Ok(200, Token(u.id, u.email)), s)
      case None =>
        match Create(s, Draft(p.name, p.email, None, Facebook, None, Some(p.id)))
        case None => (Failed, s)
        case Some((u, s')) => (Ok(200, Token(u.id, u.email)), s')
  }

  /** An account that already holds the email is reused untouched, even one
      without a Facebook link or created by another provider. */
  lemma ExistingAccountNotLinked(s: UserStore, p: FacebookProfile, id: nat)
    requires Valid(s) && p.email.Some?
    requires id in s.users && s.users[id].email == p.email.value
    ensures FacebookLoginFlow(s, Some(p)) == (Ok(200, Token(id, p.email.value)), s)
  {
    FindByEmailExact(s, p.email.value, id);
  }

  /** Signing in twice with the same profile gives the same answer and adds no
      second account. */
  lemma FacebookLoginIdempotent(s: UserStore, p: FacebookProfile)
    requires Valid(s)
    ensures var (first, s1) := FacebookLoginFlow(s, Some(p));
      FacebookLoginFlow(s1, Some(p)) == (first, s1)
  {
  }
}
