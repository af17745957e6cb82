/** The bearer-token check of v2/auth.js, which the GraphQL resolvers await as `auth(req)`. */
module TokenAuth {
  import opened Wrappers
  import opened Text
  import opened Externals
  import opened Schema
  import opened Promises

  /** `req.header('Authorization') || tok || null`: the first truthy of the two, if any. */
  function Credential(header: Option<string>, tok: Option<string>): (r: Option<string>)
    ensures Present(header) ==> r == header
    ensures !Present(header) && Present(tok) ==> r == tok
    ensures !Present(header) && !Present(tok) ==> r.None?
  {
    if Present(header) then header else if Present(tok) then tok else None
  }

  /**
   * `jwt.verify` of the credential, then `User.findOne({ where: { username: payload.sub } })`
   * with the subject as signed, then the `verified` flag. `lookupFails` is a rejected query.
   * A missing or unverified user resolves to `false`, written `None`.
   */
  function Authenticate(svc: Services, users: map<string, User>, lookupFails: bool,
                        header: Option<string>, tok: Option<string>): (r: Answer<Option<User>>)
    ensures r.Rejected? <==>
      || Credential(header, tok).None?
      || svc.jwtVerify(Credential(header, tok).value).None?
      || lookupFails
    ensures r.Rejected? ==> r.reason == LibraryError
    ensures r.Resolved? && r.value.Some? <==>
      && Credential(header, tok).Some?
      && svc.jwtVerify(Credential(header, tok).value).Some?
      && !lookupFails
      && var sub := svc.jwtVerify(Credential(header, tok).value).value.sub;
         sub in users && users[sub].verified
    ensures r.Resolved? && r.value.Some? ==>
      r.value.value == users[svc.jwtVerify(Credential(header, tok).value).value.sub]
  {
    match Credential(header, tok)
    case None => Rejected(LibraryError)
    case Some(token) =>
      match svc.jwtVerify(token)
      case None => Rejected(LibraryError)
      case Some(claims) =>
        if lookupFails then Rejected(LibraryError)
        else if claims.sub !in users then Resolved(None)
        else if !users[claims.sub].verified then Resolved(None)
        else Resolved(Some(users[claims.sub]))
  }

  /**
   * The subject is looked up as signed. Stored names are lower-case, so a token whose subject
   * has an upper-case letter never authenticates anyone.
   */
  lemma UpperCaseSubjectIsNobody(svc: Services, s: Store, lookupFails: bool, header: Option<string>, tok: Option<string>)
    requires UsersValid(s)
    requires Credential(header, tok).Some? && svc.jwtVerify(Credential(header, tok).value).Some?
    requires !IsLower(svc.jwtVerify(Credential(header, tok).value).value.sub)
    ensures Authenticate(svc, s.users, lookupFails, header, tok) in {Rejected(LibraryError), Resolved(None)}
  {
  }

  /** With no verified account, a token is either rejected or resolves to no user. */
  lemma NobodyAuthenticates(svc: Services, users: map<string, User>, lookupFails: bool, header: Option<string>, tok: Option<string>)
    requires NoneVerified(users)
    ensures var r := Authenticate(svc, users, lookupFails, header, tok);
      r.Rejected? || r == Resolved(None)
  {
  }

}
