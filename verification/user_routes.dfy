/** The account handlers of v1/routes/user.js: registration and lookup by name. */
module UserRoutes {
  import opened Wrappers
  import opened Text
  import opened Externals
  import opened Schema
  import opened Database

  /** The form fields of a registration; `None` is a field that was not sent. */
  datatype Signup = Signup(username: Option<string>, password: Option<string>, email: Option<string>)

  /** All three fields are truthy. */
  predicate Complete(f: Signup) {
    Present(f.username) && Present(f.password) && Present(f.email)
  }

  /** `User.findOne({ where: { $or: [{ username }, { email }] } })` finds a row. */
  predicate Taken(users: map<string, User>, username: string, email: string) {
    exists k :: k in users && (users[k].username == username || users[k].email == email)
  }

  /** No two accounts share an e-mail address. */
  ghost predicate EmailsUnique(users: map<string, User>) {
    forall a, b :: a in users && b in users && users[a].email == users[b].email ==> a == b
  }

  /**
   * `POST /register`: the field check, then `bcrypt.hash`, then the duplicate check, then the
   * insert with both names folded and only the hash kept. The stored row is the answer.
   */
  function RegisterStep(svc: Services, s: Store, f: Signup): (r: Step<Reply<User>>)
    ensures r.reply.Fail? ==> r.post == s
    ensures r.reply == Fail(BadRequest, "Missing username and/or password and/or email") <==> !Complete(f)
    ensures r.reply == Fail(Internal, "Internal server error") <==>
      Complete(f) && svc.bcryptHash(f.password.value).None?
    ensures r.reply == Fail(Conflict, "User already exists") <==>
      && Complete(f) && svc.bcryptHash(f.password.value).Some?
      && Taken(s.users, Lower(f.username.value), Lower(f.email.value))
    ensures r.reply.Ok? <==>
      && Complete(f) && svc.bcryptHash(f.password.value).Some?
      && !Taken(s.users, Lower(f.username.value), Lower(f.email.value))
    ensures r.reply.Ok? ==>
      && r.reply.value == User(Lower(f.username.value), Lower(f.email.value), svc.bcryptHash(f.password.value).value, false)
      && r.post == s.(users := s.users[Lower(f.username.value) := r.reply.value])
  {
    if !Complete(f) then Step(s, Fail(BadRequest, "Missing username and/or password and/or email"))
    else match svc.bcryptHash(f.password.value)
      case None => Step(s, Fail(Internal, "Internal server error"))
      case Some(hash) =>
        var name := Lower(f.username.value);
        var email := Lower(f.email.value);
        if Taken(s.users, name, email) then Step(s, Fail(Conflict, "User already exists"))
        else
          var u := User(name, email, hash, false);
          Step(WithUser(s, u), Ok(u))
  }

  /** A registration keeps the store valid: the new key is lower-case and no row is overwritten. */
  lemma RegisterPreservesValid(svc: Services, s: Store, f: Signup)
    requires Valid(s)
    ensures Valid(RegisterStep(svc, s, f).post)
  {
    var r := RegisterStep(svc, s, f);
    if r.reply.Ok? {
      LowerIsLower(f.username.value);
      WithUserValid(s, r.reply.value);
    }
  }

  /** A registration never gives an e-mail address a second account, nor replaces an account. */
  lemma RegisterKeepsAccounts(svc: Services, s: Store, f: Signup)
    requires UsersValid(s) && EmailsUnique(s.users)
    ensures var r := RegisterStep(svc, s, f);
      && EmailsUnique(r.post.users)
      && (forall k :: k in s.users ==> k in r.post.users && r.post.users[k] == s.users[k])
  {
    var r := RegisterStep(svc, s, f);
    if r.reply.Ok? {
      var u := r.reply.value;
      assert u.username !in s.users;
      forall a, b | a in r.post.users && b in r.post.users && r.post.users[a].email == r.post.users[b].email
        ensures a == b
      {
      }
    }
  }

  method Register(reg: Registry, svc: Services, f: Signup) returns (reply: Reply<User>)
    modifies reg
    ensures Step(reg.Snapshot(), reply) == RegisterStep(svc, old(reg.Snapshot()), f)
    ensures old(reg.Valid()) ==> reg.Valid()
  {
    if reg.Valid() {
      RegisterPreservesValid(svc, reg.Snapshot(), f);
    }
    if !Complete(f) {
      return Fail(BadRequest, "Missing username and/or password and/or email");
    }
    var hash := svc.bcryptHash(f.password.value);
    if hash.None? {
      return Fail(Internal, "Internal server error");
    }
    var name := Lower(f.username.value);
    var email := Lower(f.email.value);
    var existing := exists k :: k in reg.users && (reg.users[k].username == name || reg.users[k].email == email);
    if existing {
      return Fail(Conflict, "User already exists");
    }
    var u := User(name, email, hash.value, false);
    reg.CreateUser(u);
    reply := Ok(u);
  }

  /** `GET /user/:name`: `User.findById` with the name as sent. */
  function FindUser(s: Store, name: string): (r: Reply<User>)
    ensures r.Ok? <==> name in s.users
    ensures r.Ok? ==> r.value == s.users[name]
    ensures r.Fail? ==> r == Fail(NotFound, "Invalid user")
  {
    if name in s.users then Ok(s.users[name]) else Fail(NotFound, "Invalid user")
  }

  /**
   * The name is not folded, while registration stores folded names: asking for a registered
   * account with any upper-case letter answers NotFound.
   */
  lemma FindUserIsCaseSensitive(svc: Services, s: Store, f: Signup, name: string)
    requires UsersValid(s)
    requires RegisterStep(svc, s, f).reply.Ok?
    requires Lower(name) == Lower(f.username.value) && name != Lower(name)
    ensures FindUser(RegisterStep(svc, s, f).post, name) == Fail(NotFound, "Invalid user")
    ensures FindUser(RegisterStep(svc, s, f).post, Lower(name)) == RegisterStep(svc, s, f).reply
  {
    var post := RegisterStep(svc, s, f).post;
    if name in post.users {
      LowerIsLower(f.username.value);
      assert name in s.users;
      LowerOfLower(name);
    }
  }

  /** A registration stores the account unverified, so a store with no verified account keeps none. */
  lemma RegisterKeepsNoneVerified(svc: Services, s: Store, f: Signup)
    requires NoneVerified(s.users)
    ensures NoneVerified(RegisterStep(svc, s, f).post.users)
  {
  }

}
