/** The local-account routes: register and login with a password, set or
    change that password, and read or edit the caller's profile. */
module UserController {
  import opened Common
  import opened Credentials
  import opened UserModel

  const InvalidCredentials: Reply<Token> := Fail(400, "Invalid credentials")
  const NoPassword: Reply<Token> := Fail(400, "Please login with Google or set a password")
  const UserNotFound := "User not found"

  // ---------------------------------------------------------------- register

  /** POST /users/register. A lookup with a missing email, hashing a missing
      password and inserting a missing name all throw, which answers 500. */
  function Register(s: UserStore, name: Option<string>, email: Option<string>, password: Option<string>)
    : (r: (Reply<Token>, UserStore))
    ensures r.0.Fail? ==> r.1 == s
    ensures Bounded(s) ==>
      (r.0 == Fail(400, "User already exists") <==> email.Some? && EmailTaken(s, email.value))
    ensures Bounded(s) ==>
      (r.0.Ok? <==> name.Some? && email.Some? && password.Some? && !EmailTaken(s, email.value))
    // a lookup with no email, hashing no password and inserting no name all throw
    ensures email.None? ==> r.0 == Fail(500, "Error registering user")
    ensures Bounded(s) && email.Some? && !EmailTaken(s, email.value) && (name.None? || password.None?) ==>
      r.0 == Fail(500, "Error registering user")
    ensures r.0.Ok? ==>
      && r.0.status == 201
      && name.Some? && email.Some? && password.Some?
      && r.1.nextId == s.nextId + 1
      && s.nextId in r.1.users
      && var u := r.1.users[s.nextId];
      && r.1.users == s.users[s.nextId := u]
      && u.name == name.value && u.email == email.value
      && u.password == Some(Hash(password.value))
      && !u.passwordSet && u.authType == Local
      && u.githubId.None? && u.facebookId.None? && u.profilePic.None?
      && r.0.body == Token(s.nextId, email.value)
    ensures Valid(s) ==> Valid(r.1)
  {
    if email.None? then (Fail(500, "Error registering user"), s)
    else if FindByEmail(s, email.value).Some? then (Fail(400, "User already exists"), s)
    else if password.None? then (Fail(500, "Error registering user"), s)
    else match Create(s, Draft(name, email, Some(Hash(password.value)), Local, None, None))
      case None => (Fail(500, "Error registering user"), s)
      case Some((u, s')) => (Ok(201, Token(u.id, u.email)), s')
  }

  // ---------------------------------------------------------------- login

  /** POST /users/login. It reads the table only: the store is not an output.
      The passwordSet flag is not consulted, only whether a hash is stored. */
  function Login(s: UserStore, email: Option<string>, password: Option<string>): (r: Reply<Token>)
    ensures r.Ok? ==>
      && r.status == 200 && email.Some? && password.Some?
      && r.body.email == email.value
      && exists id :: id in s.users && s.users[id].email == email.value
                   && s.users[id].password.Some?
                   && Matches(password.value, s.users[id].password.value)
                   && r.body.userId == s.users[id].id
    ensures Valid(s) ==>
      (r.Ok? <==>
        && email.Some? && password.Some?
        && exists id :: id in s.users && s.users[id].email == email.value
                     && s.users[id].password.Some?
                     && Matches(password.value, s.users[id].password.value))
    ensures Bounded(s) && email.Some? && !EmailTaken(s, email.value) ==> r == InvalidCredentials
    ensures r == NoPassword ==>
      email.Some? && exists id :: id in s.users && s.users[id].email == email.value && s.users[id].password.None?
    // a lookup with no email throws
    ensures email.None? ==> r == Fail(500, "Error logging in")
    // the account holding the email decides the answer
    ensures Valid(s) && email.Some? ==>
      forall id :: id in s.users && s.users[id].email == email.value ==>
        var hash := s.users[id].password;
        && (hash.None? ==> r == NoPassword)
        && (hash.Some? && password.None? ==> r == Fail(500, "Error logging in"))
        && (hash.Some? && password.Some? && !Matches(password.value, hash.value) ==> r == InvalidCredentials)
        && (hash.Some? && password.Some? && Matches(password.value, hash.value) ==>
              r == Ok(200, Token(id, email.value)))
  {
    if email.None? then Fail(500, "Error logging in")
    else match FindByEmail(s, email.value)
      case None => InvalidCredentials
      case Some(id) =>
        var u := s.users[id];
        if u.password.None? then NoPassword
        else if password.None? then Fail(500, "Error logging in")
        else if !Matches(password.value, u.password.value) then InvalidCredentials
        else Ok(200, Token(u.id, u.email))
  }

  // ---------------------------------------------------------------- passwords

  /** POST /users/set-password: allowed once, while passwordSet is false; it
      stores the hash, raises the flag and marks the account "google+local". */
  function SetPassword(s: UserStore, caller: nat, password: Option<string>): (r: (Reply<string>, UserStore))
    ensures r.0.Fail? ==> r.1 == s
    ensures caller !in s.users ==> r.0 == Fail(404, UserNotFound)
    ensures caller in s.users && s.users[caller].passwordSet ==>
      r.0 == Fail(400, "Password already set : Change password")
    ensures r.0.Ok? <==> caller in s.users && !s.users[caller].passwordSet && password.Some?
    // hashing a missing password throws
    ensures caller in s.users && !s.users[caller].passwordSet && password.None? ==>
      r.0 == Fail(500, "Server error")
    ensures r.0.Ok? ==>
      && r.0 == Ok(200, "Password set")
      && var u := s.users[caller];
      && r.1 == s.(users := s.users[caller := u.(password := Some(Hash(password.value)),
                                                 passwordSet := true,
                                                 authType := GoogleLocal)])
    ensures Valid(s) ==> Valid(r.1)
  {
    if caller !in s.users then (Fail(404, UserNotFound), s)
    else
      var u := s.users[caller];
      if u.passwordSet then (Fail(400, "Password already set : Change password"), s)
      else if password.None? then (Fail(500, "Server error"), s)
      else (Ok(200, "Password set"),
            s.(users := s.users[caller := u.(password := Some(Hash(password.value)),
                                             passwordSet := true,
                                             authType := GoogleLocal)]))
  }

  /** POST /users/change-password: needs passwordSet and the current password;
      replaces the hash and nothing else. */
  function ChangePassword(s: UserStore, caller: nat, current: Option<string>, newPassword: Option<string>)
    : (r: (Reply<string>, UserStore))
    ensures r.0.Fail? ==> r.1 == s
    ensures caller !in s.users || !s.users[caller].passwordSet ==> r.0 == Fail(400, "Password not set yet")
    ensures r.0.Ok? <==>
      && caller in s.users && s.users[caller].passwordSet
      && s.users[caller].password.Some? && current.Some? && newPassword.Some?
      && Matches(current.value, s.users[caller].password.value)
    ensures caller in s.users && s.users[caller].password.Some? && current.Some?
         && !Matches(current.value, s.users[caller].password.value) && s.users[caller].passwordSet
         ==> r.0 == Fail(400, "Current password is incorrect")
    // bcrypt throws on a missing argument: comparing without the current
    // password or the stored hash, or hashing a missing new password
    ensures caller in s.users && s.users[caller].passwordSet ==>
      && (current.None? || s.users[caller].password.None? ==> r.0 == Fail(500, "Server error"))
      && (current.Some? && s.users[caller].password.Some?
          && Matches(current.value, s.users[caller].password.value) && newPassword.None?
          ==> r.0 == Fail(500, "Server error"))
    ensures r.0.Ok? ==>
      && r.0 == Ok(200, "Password changed successfully")
      && r.1 == s.(users := s.users[caller := s.users[caller].(password := Some(Hash(newPassword.value)))])
    ensures Valid(s) ==> Valid(r.1)
  {
    if caller !in s.users || !s.users[caller].passwordSet then (Fail(400, "Password not set yet"), s)
    else
      var u := s.users[caller];
      // bcrypt.compare throws on a missing argument
      if current.None? || u.password.None? then (Fail(500, "Server error"), s)
      else if !Matches(current.value, u.password.value) then (Fail(400, "Current password is incorrect"), s)
      else if newPassword.None? then (Fail(500, "Server error"), s)
      else (Ok(200, "Password changed successfully"),
            s.(users := s.users[caller := u.(password := Some(Hash(newPassword.value)))]))
  }

  // ---------------------------------------------------------------- profile

  datatype Profile = Profile(id: nat, name: string, email: string, profilePic: Option<string>)

  /** GET /users/me: exactly the four public columns of the caller. */
  function GetProfile(s: UserStore, caller: nat): (r: Reply<Profile>)
    ensures r.Ok? <==> caller in s.users
    ensures r.Fail? ==> r == Fail(404, UserNotFound)
    ensures r.Ok? ==>
      && r.status == 200
      && var u := s.users[caller];
      && r.body == Profile(u.id, u.name, u.email, u.profilePic)
  {
    if caller !in s.users then Fail(404, UserNotFound)
    else
      var u := s.users[caller];
      Ok(200, Profile(u.id, u.name, u.email, u.profilePic))
  }

  datatype ProfileUpdate = ProfileUpdate(name: string, email: string)

  /** The email an update leaves the account with: a non-empty new email that
      differs from the current one replaces it. */
  predicate ChangesEmail(u: User, email: Option<string>) {
    Truthy(email) && email.value != u.email
  }

  /** PUT /users/me. A new email held by another account is refused before
      anything is written; an empty or missing name or email is skipped. */
  function UpdateProfile(s: UserStore, caller: nat, name: Option<string>, email: Option<string>)
    : (r: (Reply<ProfileUpdate>, UserStore))
    ensures r.0.Fail? ==> r.1 == s
    ensures caller !in s.users ==> r.0 == Fail(404, UserNotFound)
    ensures Bounded(s) ==>
      (r.0 == Fail(400, "User already exists") <==>
        caller in s.users && ChangesEmail(s.users[caller], email) && EmailTaken(s, email.value))
    ensures Bounded(s) ==>
      (r.0.Ok? <==>
        caller in s.users && !(ChangesEmail(s.users[caller], email) && EmailTaken(s, email.value)))
    ensures r.0.Ok? ==>
      && caller in s.users
      && var u := s.users[caller];
      && caller in r.1.users
      && var u' := r.1.users[caller];
      && r.1 == s.(users := s.users[caller := u'])
      && u' == u.(name := u'.name, email := u'.email)
      && u'.email == (if ChangesEmail(u, email) then email.value else u.email)
      // an absent or empty email is skipped; any other one is the result
      && (!Truthy(email) ==> u'.email == u.email)
      && (Truthy(email) ==> u'.email == email.value)
      && (!Truthy(name) ==> u'.name == u.name)
      && u'.name == (if Truthy(name) then name.value else u.name)
      && r.0 == Ok(200, ProfileUpdate(u'.name, u'.email))
    ensures Valid(s) ==> Valid(r.1)
  {
    if caller !in s.users then (Fail(404, UserNotFound), s)
    else
      var u := s.users[caller];
      if ChangesEmail(u, email) && FindByEmail(s, email.value).Some? then
        (Fail(400, "User already exists"), s)
      else
        var u' := u.(email := if ChangesEmail(u, email) then email.value else u.email,
                     name := if Truthy(name) then name.value else u.name);
        (Ok(200, ProfileUpdate(u'.name, u'.email)), s.(users := s.users[caller := u']))
  }

  /** POST /users/upload-profile-pic/:id. The account written is the one the
      path names, which need not be the caller's; the upload's file name
      becomes its picture path. */
  function UpdateProfilePic(s: UserStore, pathId: nat, filename: Option<string>): (r: (Reply<string>, UserStore))
    ensures r.0.Fail? ==> r.1 == s
    ensures filename.None? ==> r.0 == Fail(400, "No image uploaded")
    ensures filename.Some? && pathId !in s.users ==> r.0 == Fail(404, UserNotFound)
    ensures r.0.Ok? <==> filename.Some? && pathId in s.users
    ensures r.0.Ok? ==>
      && r.0 == Ok(200, "/uploads/" + filename.value)
      && r.1 == s.(users := s.users[pathId := s.users[pathId].(profilePic := Some("/uploads/" + filename.value))])
    ensures Valid(s) ==> Valid(r.1)
  {
    if filename.None? then (Fail(400, "No image uploaded"), s)
    else
      var path := "/uploads/" + filename.value;
      if pathId !in s.users then (Fail(404, UserNotFound), s)
      else (Ok(200, path), s.(users := s.users[pathId := s.users[pathId].(profilePic := Some(path))]))
  }

  // ---------------------------------------------------------------- account lifecycle

  /** A registered account can log in with the password it registered. */
  lemma RegisterThenLogin(s: UserStore, name: string, email: string, password: string)
    requires Valid(s) && !EmailTaken(s, email)
    ensures var (reply, s') := Register(s, Some(name), Some(email), Some(password));
      && reply.Ok?
      && Login(s', Some(email), Some(password)) == Ok(200, reply.body)
  {
  }

  /** A second registration with the same email is refused, whatever the name
      and password, and changes nothing. */
  lemma RegisterTwiceRefused(s: UserStore, name: string, email: string, password: string,
                             name2: Option<string>, password2: Option<string>)
    requires Valid(s) && !EmailTaken(s, email)
    ensures var s' := Register(s, Some(name), Some(email), Some(password)).1;
      Register(s', name2, Some(email), password2) == (Fail(400, "User already exists"), s')
  {
  }

  /** A freshly registered account has passwordSet false, so change-password
      refuses it and set-password accepts it without the current password. */
  lemma RegisteredAccountPasswordFlags(s: UserStore, name: string, email: string, password: string,
                                       current: Option<string>, newPassword: Option<string>, other: string)
    requires Valid(s) && !EmailTaken(s, email)
    ensures var (reply, s') := Register(s, Some(name), Some(email), Some(password));
      && ChangePassword(s', reply.body.userId, current, newPassword) == (Fail(400, "Password not set yet"), s')
      && SetPassword(s', reply.body.userId, Some(other)).0 == Ok(200, "Password set")
  {
  }

  /** Set-password refuses every second call, whatever the password. */
  lemma SetPasswordOnce(s: UserStore, caller: nat, first: string, second: Option<string>)
    requires caller in s.users && !s.users[caller].passwordSet
    ensures var s' := SetPassword(s, caller, Some(first)).1;
      SetPassword(s', caller, second) == (Fail(400, "Password already set : Change password"), s')
  {
  }

  /** After set-password the account logs in with the new password. */
  lemma SetPasswordThenLogin(s: UserStore, caller: nat, password: string)
    requires Valid(s) && caller in s.users && !s.users[caller].passwordSet
    ensures var s' := SetPassword(s, caller, Some(password)).1;
      Login(s', Some(s.users[caller].email), Some(password)) == Ok(200, Token(caller, s.users[caller].email))
  {
    var u := s.users[caller];
    var s' := SetPassword(s, caller, Some(password)).1;
    FindByEmailExact(s', u.email, caller);
  }

  /** After change-password the account logs in with the new password. */
  lemma ChangePasswordThenLogin(s: UserStore, caller: nat, current: string, newPassword: string)
    requires Valid(s)
    requires ChangePassword(s, caller, Some(current), Some(newPassword)).0.Ok?
    ensures var s' := ChangePassword(s, caller, Some(current), Some(newPassword)).1;
      Login(s', Some(s.users[caller].email), Some(newPassword)) == Ok(200, Token(caller, s.users[caller].email))
  {
    var u := s.users[caller];
    var s' := ChangePassword(s, caller, Some(current), Some(newPassword)).1;
    FindByEmailExact(s', u.email, caller);
  }

  /** Login does not read passwordSet: flipping the flag of any account
      changes no login answer. */
  lemma LoginIgnoresPasswordSet(s: UserStore, id: nat, flag: bool, email: Option<string>, password: Option<string>)
    requires id in s.users
    ensures Login(s.(users := s.users[id := s.users[id].(passwordSet := flag)]), email, password)
         == Login(s, email, password)
  {
    var s' := s.(users := s.users[id := s.users[id].(passwordSet := flag)]);
    if email.Some? {
      FindByEmailIgnoresOtherColumns(s, id, s.users[id].(passwordSet := flag), email.value);
    }
  }

  /** An accepted profile edit is what the profile then reads back. */
  lemma UpdateProfileThenGetProfile(s: UserStore, caller: nat, name: Option<string>, email: Option<string>)
    requires UpdateProfile(s, caller, name, email).0.Ok?
    ensures var (reply, s') := UpdateProfile(s, caller, name, email);
      && GetProfile(s', caller).Ok?
      && GetProfile(s', caller).body.name == reply.body.name
      && GetProfile(s', caller).body.email == reply.body.email
      && GetProfile(s', caller).body.profilePic == s.users[caller].profilePic
  {
  }
}
