/**
 * The handlers of v1.js that differ from the route files: its own Basic check, its own
 * registration, and a fetch that resolves version strings only. `require('./v1')` in the
 * server resolves to this file, so these are the handlers clients reach. Its publish, delete
 * and unpublish are those of `Publishing`.
 */
module LiveRouter {
  import opened Wrappers
  import opened Text
  import opened Externals
  import opened Schema
  import opened Database
  import opened BasicAuth
  import opened UserRoutes
  import opened Publishing

  /** The verify callback of v1.js: like v1/auth.js but without the `verified` check. */
  function Strategy(svc: Services, users: map<string, User>, lookupFails: bool, username: string, password: string): (r: Verdict)
    ensures r.Granted? <==>
      && !lookupFails && Lower(username) in users
      && svc.bcryptCompare(password, users[Lower(username)].password) == Some(true)
    ensures r.Granted? ==> r.user == users[Lower(username)]
    ensures r == Errored <==>
      lookupFails || (Lower(username) in users && svc.bcryptCompare(password, users[Lower(username)].password).None?)
  {
    var key := Lower(username);
    if lookupFails then Errored
    else if key !in users then Denied
    else match svc.bcryptCompare(password, users[key].password)
      case None => Errored
      case Some(match_) => if match_ then Granted(users[key]) else Denied
  }

  /**
   * The live check admits everyone v1/auth.js admits, and exactly the same users once the
   * account is verified; an unverified account with the right password gets in here only.
   */
  lemma StrategyAdmitsUnverified(svc: Services, users: map<string, User>, lookupFails: bool, username: string, password: string)
    ensures Verify(svc, users, lookupFails, username, password).Granted? ==>
      Strategy(svc, users, lookupFails, username, password) == Verify(svc, users, lookupFails, username, password)
    ensures Lower(username) in users && users[Lower(username)].verified ==>
      Strategy(svc, users, lookupFails, username, password) == Verify(svc, users, lookupFails, username, password)
    ensures && !lookupFails && Lower(username) in users && !users[Lower(username)].verified
            && svc.bcryptCompare(password, users[Lower(username)].password) == Some(true) ==>
      Strategy(svc, users, lookupFails, username, password).Granted? && Verify(svc, users, lookupFails, username, password) == Denied
  {
  }

  /** `POST /register` of v1.js: the route-file ladder with the name `search` reserved after the field check. */
  function RegisterStep(svc: Services, s: Store, f: Signup): (r: Step<Reply<User>>)
    ensures r.reply.Fail? ==> r.post == s
    ensures r.reply == Fail(BadRequest, "Invalid username") <==> Complete(f) && Lower(f.username.value) == "search"
    ensures r.reply.Ok? ==> Complete(f) && Lower(f.username.value) != "search"
  {
    if !Complete(f) then Step(s, Fail(BadRequest, "Missing username and/or password and/or email"))
    else if Lower(f.username.value) == "search" then Step(s, Fail(BadRequest, "Invalid username"))
    else match svc.bcryptHash(f.password.value)
      case None => Step(s, Fail(Internal, "Internal server error"))
      case Some(hash) =>
        var name := Lower(f.username.value);
        var email := Lower(f.email.value);
        if Taken(s.users, name, email) then Step(s, Fail(Conflict, "User already exists"))
        else
          var u := User(name, email, hash, false);
          Step(WithUser(s, u), Ok(u))
  }

  /**
   * The two registrations agree on every request except a name that folds to `search`, which
   * v1.js refuses and v1/routes/user.js accepts like any other.
   */
  lemma RegistrationsAgree(svc: Services, s: Store, f: Signup)
    ensures !Complete(f) || Lower(f.username.value) != "search" ==> RegisterStep(svc, s, f) == UserRoutes.RegisterStep(svc, s, f)
    ensures Complete(f) && Lower(f.username.value) == "search" ==>
      && RegisterStep(svc, s, f) == Step(s, Fail(BadRequest, "Invalid username"))
      && UserRoutes.RegisterStep(svc, s, f).reply.Ok? ==
         (svc.bcryptHash(f.password.value).Some? && !Taken(s.users, "search", Lower(f.email.value)))
  {
  }

  method Register(reg: Registry, svc: Services, f: Signup) returns (reply: Reply<User>)
    modifies reg
    ensures Step(reg.Snapshot(), reply) == RegisterStep(svc, old(reg.Snapshot()), f)
    ensures old(reg.Valid()) ==> reg.Valid()
  {
    if !Complete(f) {
      return Fail(BadRequest, "Missing username and/or password and/or email");
    }
    if Lower(f.username.value) == "search" {
      return Fail(BadRequest, "Invalid username");
    }
    reply := UserRoutes.Register(reg, svc, f);
  }

  /** `GET /package/:name/:version` of v1.js: the dist of the row with that version string, no tags. */
  function Fetch(s: Store, name: string, version: string): (r: Reply<Bytes>)
    ensures r.Fail? ==> r.kind == NotFound
    ensures r == Fail(NotFound, "Invalid package") <==> Lower(name) !in s.packages
    ensures r.Ok? <==> Lower(name) in s.packages && FindVersion(s, Lower(name), version).Some?
    ensures r.Ok? ==> r.value == s.versions[VersionKey(Lower(name), version)].dist
  {
    var p := Lower(name);
    if p !in s.packages then Fail(NotFound, "Invalid package")
    else match FindVersion(s, p, version)
      case None => Fail(NotFound, "Invalid version")
      case Some(vid) => Ok(s.versions[vid].dist)
  }

  /** A published archive is served back byte for byte under its version string. */
  lemma PublishThenFetch(svc: Services, s: Store, principal: string, name: string, up: Upload)
    requires PublishStep(svc, s, principal, name, up).reply.Ok?
    ensures Fetch(PublishStep(svc, s, principal, name, up).post, name, up.package.value.version.value) == Ok(up.dist.value)
  {
    PublishRecords(svc, s, principal, name, up);
  }

  /** A tag name is not a version string here: only a row whose version is literally `latest` would answer. */
  lemma FetchIgnoresTags(s: Store, name: string)
    requires VersionsValid(s)
    requires forall id :: id in s.versions ==> s.versions[id].version != Latest
    ensures Fetch(s, name, Latest).Fail?
  {
    var p := Lower(name);
    var id := VersionKey(p, Latest);
    if id in s.versions && s.versions[id].pkg == p {
      VersionKeySplit(p, Latest, s.versions[id].pkg, s.versions[id].version);
    }
  }

  /** The live registration also stores the account unverified. */
  lemma RegisterKeepsNoneVerified(svc: Services, s: Store, f: Signup)
    requires NoneVerified(s.users)
    ensures NoneVerified(RegisterStep(svc, s, f).post.users)
  {
    RegistrationsAgree(svc, s, f);
    UserRoutes.RegisterKeepsNoneVerified(svc, s, f);
  }

}
