/**
 * The HTTP Basic check of v1/auth.js: the verify callback passport calls with the user name
 * and password of the `Authorization` header.
 */
module BasicAuth {
  import opened Wrappers
  import opened Text
  import opened Externals
  import opened Schema

  /** What the callback hands to `done`: a user, `false`, or an error. */
  datatype Verdict = Granted(user: User) | Denied | Errored

  /**
   * `User.findOne({ where: { username: lower(username) } })`, then the `verified` flag, then
   * `bcrypt.compare`. `lookupFails` is a rejected query.
   */
  function Verify(svc: Services, users: map<string, User>, lookupFails: bool, username: string, password: string): (r: Verdict)
    ensures r.Granted? <==>
      && !lookupFails && Lower(username) in users && users[Lower(username)].verified
      && svc.bcryptCompare(password, users[Lower(username)].password) == Some(true)
    ensures r.Granted? ==> r.user == users[Lower(username)]
    ensures r == Errored <==>
      lookupFails || (Lower(username) in users && users[Lower(username)].verified
                      && svc.bcryptCompare(password, users[Lower(username)].password).None?)
    ensures !lookupFails && Lower(username) in users && !users[Lower(username)].verified ==> r == Denied
  {
    var key := Lower(username);
    if lookupFails then Errored
    else if key !in users then Denied
    else if !users[key].verified then Denied
    else match svc.bcryptCompare(password, users[key].password)
      case None => Errored
      case Some(match_) => if match_ then Granted(users[key]) else Denied
  }

  /** With no verified account, the callback never hands a user to `done`. */
  lemma NobodyIsGranted(svc: Services, users: map<string, User>, lookupFails: bool, username: string, password: string)
    requires NoneVerified(users)
    ensures !Verify(svc, users, lookupFails, username, password).Granted?
  {
  }

}
