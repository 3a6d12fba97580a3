/** Vocabulary shared by every controller: optional values, the JavaScript
    truthiness of request fields, and the replies a route handler sends. */
module Common {

  /** A value that may be missing. For a request field, `None` is a field the
      body does not contain (`undefined` in JavaScript); an explicit JSON
      `null` is not represented. */
  datatype Option<+T> = None | Some(value: T)

  /** A request field read in JavaScript's boolean sense: a missing field and
      the empty string are both falsy. */
  predicate Truthy(field: Option<string>) {
    field.Some? && field.value != ""
  }

  /** What a handler sends back: a success status with its JSON body, or an
      error status with the message of the error body. */
  datatype Reply<+T> = Ok(status: nat, body: T) | Fail(status: nat, message: string)
}

/** bcrypt and JWT, reduced to what the controllers rely on. */
module Credentials {

  /** A stored password hash. bcrypt's salt and cost factor are abstracted
      away: a digest is determined by the password it was made from. */
  datatype Digest = Digest(source: string)

  function Hash(password: string): Digest {
    Digest(password)
  }

  /** `bcrypt.compare(password, digest)`. */
  predicate Matches(password: string, digest: Digest) {
    digest.source == password
  }

  /** A session token. Only its claims matter to the controllers; signing and
      the seven-day expiry are opaque. */
  datatype Token = Token(userId: nat, email: string)
}
