/** Google sign-in (POST /auth/google): the ID token has been verified by
    Google's library, whose outcome is an input; the account is found by email
    or created from the token's name and email. */
module GoogleAuth {
  import opened Common
  import opened Credentials
  import opened UserModel

  /** The claims of a verified ID token that the handler reads. */
  datatype GooglePayload = GooglePayload(email: Option<string>, name: Option<string>,
                                         picture: Option<string>, sub: string)

  /** The `user` object of the reply: the token's claims, echoed. */
  datatype GoogleUser = GoogleUser(email: Option<string>, name: Option<string>, picture: Option<string>)

  datatype GoogleLogin = GoogleLogin(token: Token, user: GoogleUser)

  const Failed: Reply<GoogleLogin> := Fail(401, "Google authentication failed")

  function Echo(p: GooglePayload): GoogleUser {
    GoogleUser(p.email, p.name, p.picture)
  }

  /** `verified` is None when the ID token is rejected. Every failure after
      the credential check, including a lookup with no email and an insert
      with no name, answers 401 and writes nothing. */
  function GoogleLoginFlow(s: UserStore, credential: Option<string>, verified: Option<GooglePayload>)
    : (r: (Reply<GoogleLogin>, UserStore))
    ensures r.0.Fail? ==> r.1 == s
    ensures !Truthy(credential) ==> r.0 == Fail(400, "No credential provided")
    ensures Truthy(credential) && r.0.Fail? ==> r.0 == Failed
    ensures r.0.Ok? ==>
      && verified.Some? && verified.value.email.Some?
      && var p := verified.value;
      && r.0.status == 200
      && r.0.body.user == Echo(p)
      && r.0.body.token.email == p.email.value
    // an existing account is used as it is
    ensures r.0.Ok? && r.1 == s ==>
      exists id :: id in s.users && s.users[id].email == verified.value.email.value
                && r.0.body.token == Token(s.users[id].id, s.users[id].email)
    // otherwise exactly one account is added, with name and email only
    ensures r.1 != s ==>
      && r.0.Ok? && verified.value.name.Some?
      && var p := verified.value;
      && r.1.nextId == s.nextId + 1 && s.nextId in r.1.users
      && r.1.users == s.users[s.nextId := r.1.users[s.nextId]]
      && r.1.users[s.nextId] == User(s.nextId, p.name.value, p.email.value, None, None, Local, false, None, None)
      && r.0.body.token == Token(s.nextId, p.email.value)
    ensures Bounded(s) && r.0.Ok? ==> (r.1 == s <==> EmailTaken(s, verified.value.email.value))
    // a verified token with an email signs in exactly when an account holds
    // that email or the token carries the name a new account needs
    ensures Truthy(credential) && verified.Some? && verified.value.email.Some? && Bounded(s) ==>
      (r.0.Ok? <==> EmailTaken(s, verified.value.email.value) || verified.value.name.Some?)
    ensures Valid(s) ==> Valid(r.1)
  {
    if !Truthy(credential) then (Fail(400, "No credential provided"), s)
    else if verified.None? || verified.value.email.None? then (Failed, s)
    else
      var p := verified.value;
      match FindByEmail(s, p.email.value)
      case Some(id) =>
        var u := s.users[id];
        (Ok(200, GoogleLogin(Token(u.id, u.email), Echo(p))), s)
      case None =>
        match Create(s, Draft(p.name, p.email, None, Local, None, None))
        case None => (Failed, s)
        case Some((u, s')) => (Ok(200, GoogleLogin(Token(u.id, u.email), Echo(p))), s')
  }

  /** Signing in twice with the same token gives the same answer and adds no
      second account. */
  lemma GoogleLoginIdempotent(s: UserStore, credential: Option<string>, p: GooglePayload)
    requires Valid(s)
    ensures var (first, s1) := GoogleLoginFlow(s, credential, Some(p));
      GoogleLoginFlow(s1, credential, Some(p)) == (first, s1)
  {
  }
}
