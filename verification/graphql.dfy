/**
 * The resolvers of v2/index.js that read or change the store: the `Package.version` and
 * `Package.tags` lookups and the `Mutation` fields. A mutation receives `viewer`, what
 * `await auth(req)` settled to (see `TokenAuth.Authenticate`), and settles to the package name.
 */
module GraphQL {
  import opened Wrappers
  import opened Text
  import opened Externals
  import opened Schema
  import opened Database
  import opened Promises
  import opened Publishing
  import TokenAuth

  const NullVersion: string := "Cannot read property 'version' of null"

  /** What a successful `login` resolves to. */
  datatype Session = Session(token: string, user: User)

  /**
   * `Mutation.login`: the credentials must be truthy; an unknown or unverified account is
   * refused before the password is compared; the token's subject is the stored name.
   */
  function Login(svc: Services, users: map<string, User>, username: Option<string>, password: Option<string>): (r: Answer<Session>)
    ensures !Present(username) || !Present(password) ==> r == Rejected(Message("Missing username and/or password"))
    ensures Present(username) && Present(password) &&
            (Lower(username.value) !in users || !users[Lower(username.value)].verified) ==>
      r == Rejected(Message("Unauthorized"))
    ensures r.Resolved? <==>
      && Present(username) && Present(password)
      && Lower(username.value) in users && users[Lower(username.value)].verified
      && svc.bcryptCompare(password.value, users[Lower(username.value)].password) == Some(true)
      && svc.jwtSign(Claims(users[Lower(username.value)].username, ThirtyDays)).Some?
    ensures r.Resolved? ==>
      && r.value.user == users[Lower(username.value)]
      && svc.jwtSign(Claims(r.value.user.username, ThirtyDays)) == Some(r.value.token)
    ensures r.Rejected? ==> r.reason in {Message("Missing username and/or password"), Message("Unauthorized"), Message("Internal server error")}
  {
    if !Present(username) || !Present(password) then Rejected(Message("Missing username and/or password"))
    else
      var key := Lower(username.value);
      if key !in users then Rejected(Message("Unauthorized"))
      else if !users[key].verified then Rejected(Message("Unauthorized"))
      else match svc.bcryptCompare(password.value, users[key].password)
        case None => Rejected(Message("Internal server error"))
        case Some(match_) =>
          if !match_ then Rejected(Message("Unauthorized"))
          else match svc.jwtSign(Claims(users[key].username, ThirtyDays))
            case None => Rejected(Message("Internal server error"))
            case Some(token) => Resolved(Session(token, users[key]))
  }

  /**
   * A session is only ever issued to a verified account, under its own name, and the name
   * given at login may be spelled in any case.
   */
  lemma LoginIssuesOwnToken(svc: Services, s: Store, username: Option<string>, password: Option<string>)
    requires UsersValid(s)
    requires Login(svc, s.users, username, password).Resolved?
    ensures var session := Login(svc, s.users, username, password).value;
      && session.user.verified
      && session.user.username == Lower(username.value)
      && svc.jwtSign(Claims(Lower(username.value), ThirtyDays)) == Some(session.token)
  {
  }

  /** `await pkg.hasAuthor(await auth(req))`, once `auth` resolved; `false` is no author. */
  predicate Authorised(s: Store, p: string, viewer: Option<User>)
    requires p in s.packages
  {
    viewer.Some? && viewer.value.username in s.packages[p].authors
  }

  /** Steps that end before anything is written: the answer, and the store as it was. */
  function Refuse<T>(s: Store, reason: Reason): Step<Answer<T>> {
    Step(s, Rejected(reason))
  }

  /** `Mutation.addAuthor`: package, then user, then the viewer's authorship. */
  function AddAuthorStep(s: Store, viewer: Answer<Option<User>>, username: string, name: string): (r: Step<Answer<string>>)
    ensures r.reply.Rejected? ==> r.post == s
    ensures Lower(name) !in s.packages ==> r.reply == Rejected(Message("Invalid package"))
    ensures Lower(name) in s.packages && Lower(username) !in s.users ==> r.reply == Rejected(Message("Invalid user"))
    ensures Lower(name) in s.packages && Lower(username) in s.users && viewer.Rejected? ==> r.reply == Rejected(viewer.reason)
    ensures r.reply.Resolved? <==>
      && Lower(name) in s.packages && Lower(username) in s.users
      && viewer.Resolved? && Authorised(s, Lower(name), viewer.value)
    ensures r.reply.Resolved? ==>
      && r.reply.value == Lower(name)
      && r.post.packages.Keys == s.packages.Keys
      && r.post.packages[Lower(name)].authors == s.packages[Lower(name)].authors + {Lower(username)}
      && (forall q :: q in s.packages && q != Lower(name) ==> r.post.packages[q] == s.packages[q])
      && r.post == s.(packages := r.post.packages)
  {
    var p := Lower(name);
    if p !in s.packages then Refuse(s, Message("Invalid package"))
    else if Lower(username) !in s.users then Refuse(s, Message("Invalid user"))
    else match viewer
      case Rejected(e) => Refuse(s, e)
      case Resolved(who) =>
        if !Authorised(s, p, who) then Refuse(s, Message("Forbidden"))
        else Step(WithAuthor(s, p, Lower(username)), Resolved(p))
  }

  /** `Mutation.removeAuthor`: the same checks, and no test that the user is an author. */
  function RemoveAuthorStep(s: Store, viewer: Answer<Option<User>>, username: string, name: string): (r: Step<Answer<string>>)
    ensures r.reply.Rejected? ==> r.post == s
    ensures Lower(name) !in s.packages ==> r.reply == Rejected(Message("Invalid package"))
    ensures Lower(name) in s.packages && Lower(username) !in s.users ==> r.reply == Rejected(Message("Invalid user"))
    ensures Lower(name) in s.packages && Lower(username) in s.users && viewer.Rejected? ==> r.reply == Rejected(viewer.reason)
    ensures r.reply.Resolved? <==>
      && Lower(name) in s.packages && Lower(username) in s.users
      && viewer.Resolved? && Authorised(s, Lower(name), viewer.value)
    ensures r.reply.Resolved? ==>
      && r.reply.value == Lower(name)
      && r.post.packages.Keys == s.packages.Keys
      && r.post.packages[Lower(name)].authors == s.packages[Lower(name)].authors - {Lower(username)}
      && (forall q :: q in s.packages && q != Lower(name) ==> r.post.packages[q] == s.packages[q])
      && r.post == s.(packages := r.post.packages)
  {
    var p := Lower(name);
    if p !in s.packages then Refuse(s, Message("Invalid package"))
    else if Lower(username) !in s.users then Refuse(s, Message("Invalid user"))
    else match viewer
      case Rejected(e) => Refuse(s, e)
      case Resolved(who) =>
        if !Authorised(s, p, who) then Refuse(s, Message("Forbidden"))
        else Step(WithoutAuthor(s, p, Lower(username)), Resolved(p))
  }

  /** A viewer who is not an author is refused whatever else holds, once package and user exist. */
  lemma StrangersAreForbidden(s: Store, viewer: Option<User>, username: string, name: string)
    requires Lower(name) in s.packages && Lower(username) in s.users && !Authorised(s, Lower(name), viewer)
    ensures AddAuthorStep(s, Resolved(viewer), username, name) == Step(s, Rejected(Message("Forbidden")))
    ensures RemoveAuthorStep(s, Resolved(viewer), username, name) == Step(s, Rejected(Message("Forbidden")))
  {
  }

  /** Adding and then removing a user who was not an author restores the store. */
  lemma AddThenRemoveAuthor(s: Store, viewer: Answer<Option<User>>, username: string, name: string)
    requires AddAuthorStep(s, viewer, username, name).reply.Resolved?
    requires Lower(username) !in s.packages[Lower(name)].authors
    ensures var a := AddAuthorStep(s, viewer, username, name).post;
      RemoveAuthorStep(a, viewer, username, name) == Step(s, Resolved(Lower(name)))
  {
    var p := Lower(name);
    var a := AddAuthorStep(s, viewer, username, name).post;
    assert a.packages[p].authors - {Lower(username)} == s.packages[p].authors;
    assert a.packages[p].(authors := s.packages[p].authors) == s.packages[p];
    assert a.packages[p := s.packages[p]] == s.packages;
  }

  lemma AuthorMutationsPreserveValid(s: Store, viewer: Answer<Option<User>>, username: string, name: string)
    requires Valid(s)
    ensures Valid(AddAuthorStep(s, viewer, username, name).post)
    ensures Valid(RemoveAuthorStep(s, viewer, username, name).post)
  {
    if AddAuthorStep(s, viewer, username, name).reply.Resolved? {
      WithAuthorValid(s, Lower(name), Lower(username));
    }
    if RemoveAuthorStep(s, viewer, username, name).reply.Resolved? {
      WithoutAuthorValid(s, Lower(name), Lower(username));
    }
  }

  method AddAuthor(reg: Registry, viewer: Answer<Option<User>>, username: string, name: string) returns (r: Answer<string>)
    modifies reg
    ensures Step(reg.Snapshot(), r) == AddAuthorStep(old(reg.Snapshot()), viewer, username, name)
    ensures old(reg.Valid()) ==> reg.Valid()
  {
    if reg.Valid() {
      AuthorMutationsPreserveValid(reg.Snapshot(), viewer, username, name);
    }
    var p := Lower(name);
    if p !in reg.packages {
      return Rejected(Message("Invalid package"));
    }
    if Lower(username) !in reg.users {
      return Rejected(Message("Invalid user"));
    }
    if viewer.Rejected? {
      return Rejected(viewer.reason);
    }
    if !Authorised(reg.Snapshot(), p, viewer.value) {
      return Rejected(Message("Forbidden"));
    }
    reg.AddAuthor(p, Lower(username));
    r := Resolved(p);
  }

  method RemoveAuthor(reg: Registry, viewer: Answer<Option<User>>, username: string, name: string) returns (r: Answer<string>)
    modifies reg
    ensures Step(reg.Snapshot(), r) == RemoveAuthorStep(old(reg.Snapshot()), viewer, username, name)
    ensures old(reg.Valid()) ==> reg.Valid()
  {
    if reg.Valid() {
      AuthorMutationsPreserveValid(reg.Snapshot(), viewer, username, name);
    }
    var p := Lower(name);
    if p !in reg.packages {
      return Rejected(Message("Invalid package"));
    }
    if Lower(username) !in reg.users {
      return Rejected(Message("Invalid user"));
    }
    if viewer.Rejected? {
      return Rejected(viewer.reason);
    }
    if !Authorised(reg.Snapshot(), p, viewer.value) {
      return Rejected(Message("Forbidden"));
    }
    reg.RemoveAuthor(p, Lower(username));
    r := Resolved(p);
  }

  /**
   * `Mutation.setTag`: semver, package, authorship and the row are all checked before the
   * tag table is touched; then the first tag of the folded name, or a new one, points at the row.
   */
  function SetTagStep(svc: Services, s: Store, viewer: Answer<Option<User>>, name: string, tag: string, version: string): (r: Step<Answer<string>>)
    ensures r.reply.Rejected? ==> r.post == s
    ensures !svc.semverValid(version) ==> r.reply == Rejected(Message("Invalid version"))
    ensures svc.semverValid(version) && Lower(name) !in s.packages ==> r.reply == Rejected(Message("Invalid package"))
    ensures svc.semverValid(version) && Lower(name) in s.packages && viewer.Rejected? ==> r.reply == Rejected(viewer.reason)
    ensures (&& svc.semverValid(version) && Lower(name) in s.packages && viewer.Resolved? && Authorised(s, Lower(name), viewer.value)
             && FindVersion(s, Lower(name), version).None?) ==> r.reply == Rejected(Message("Invalid version"))
    ensures r.reply.Resolved? <==>
      && svc.semverValid(version) && Lower(name) in s.packages
      && viewer.Resolved? && Authorised(s, Lower(name), viewer.value)
      && FindVersion(s, Lower(name), version).Some?
    ensures r.reply.Resolved? ==>
      && r.reply.value == Lower(name)
      && r.post == Appoint(s, Lower(name), Lower(tag), VersionKey(Lower(name), version))
  {
    if !svc.semverValid(version) then Refuse(s, Message("Invalid version"))
    else
      var p := Lower(name);
      if p !in s.packages then Refuse(s, Message("Invalid package"))
      else match viewer
        case Rejected(e) => Refuse(s, e)
        case Resolved(who) =>
          if !Authorised(s, p, who) then Refuse(s, Message("Forbidden"))
          else match FindVersion(s, p, version)
            case None => Refuse(s, Message("Invalid version"))
            case Some(vid) => Step(Appoint(s, p, Lower(tag), vid), Resolved(p))
  }

  /**
   * After a successful `setTag` the first tag of the folded name points at the row and no other
   * tag does; every other tag keeps its place and target, but the one that held the row loses
   * it. The store stays valid whatever the answer.
   */
  lemma SetTagPoints(svc: Services, s: Store, viewer: Answer<Option<User>>, name: string, tag: string, version: string)
    requires Valid(s)
    ensures var r := SetTagStep(svc, s, viewer, name, tag, version);
      && Valid(r.post)
      && (r.reply.Resolved? ==>
            var vid := VersionKey(Lower(name), version);
            var i := FirstTag(r.post.tags, Lower(name), Lower(tag));
            && i.Some? && r.post.tags[i.value].target == Some(vid)
            && (forall t :: t in r.post.tags && t.target == Some(vid) ==> t.id == r.post.tags[i.value].id)
            && KeepsOthers(s.tags, r.post.tags, r.post.tags[i.value].id, vid))
  {
    var r := SetTagStep(svc, s, viewer, name, tag, version);
    if r.reply.Resolved? {
      var vid := VersionKey(Lower(name), version);
      AppointElects(s, Lower(name), Lower(tag), vid);
      AppointValid(s, Lower(name), Lower(tag), vid);
    }
  }

  /**
   * As written, through `Tag.hasOne(Version)`: pointing any other tag at the row the package's
   * `latest` holds is answered with the package and leaves that `latest` pointing nowhere, so
   * from then on `Package.tags` rejects.
   */
  lemma SetTagStrandsLatest(svc: Services, s: Store, viewer: Answer<Option<User>>, name: string, tag: string, version: string, j: nat)
    requires TagsValid(s) && SetTagStep(svc, s, viewer, name, tag, version).reply.Resolved? && Lower(tag) != Latest
    requires FirstTag(s.tags, Lower(name), Latest) == Some(j)
    requires s.tags[j].target == Some(VersionKey(Lower(name), version))
    ensures var post := SetTagStep(svc, s, viewer, name, tag, version).post;
      && FirstTag(post.tags, Lower(name), Latest) == Some(j)
      && post.tags[j] == s.tags[j].(target := None)
      && TagMap(post, TagsOf(post.tags, Lower(name))).Rejected?
  {
    var p := Lower(name);
    var vid := VersionKey(p, version);
    var post := Appoint(s, p, Lower(tag), vid);
    AppointKeepsOtherNames(s, p, Lower(tag), vid, Latest);
    AppointElects(s, p, Lower(tag), vid);
    var i := FirstTag(post.tags, p, Lower(tag)).value;
    assert s.tags[j] in s.tags;
    if FirstTag(s.tags, p, Lower(tag)).Some? {
      assert s.tags[i] in s.tags && s.tags[i] != s.tags[j];
    }
    assert s.tags[j].id != post.tags[i].id;
    assert post.tags[j] in TagsOf(post.tags, p);
    TagMapResolves(post, TagsOf(post.tags, p));
  }

  method SetTag(reg: Registry, svc: Services, viewer: Answer<Option<User>>, name: string, tag: string, version: string) returns (r: Answer<string>)
    modifies reg
    ensures Step(reg.Snapshot(), r) == SetTagStep(svc, old(reg.Snapshot()), viewer, name, tag, version)
    ensures old(reg.Valid()) ==> reg.Valid()
  {
    if reg.Valid() {
      SetTagPoints(svc, reg.Snapshot(), viewer, name, tag, version);
    }
    if !svc.semverValid(version) {
      return Rejected(Message("Invalid version"));
    }
    var p := Lower(name);
    if p !in reg.packages {
      return Rejected(Message("Invalid package"));
    }
    if viewer.Rejected? {
      return Rejected(viewer.reason);
    }
    if !Authorised(reg.Snapshot(), p, viewer.value) {
      return Rejected(Message("Forbidden"));
    }
    var row := FindVersion(reg.Snapshot(), p, version);
    if row.None? {
      return Rejected(Message("Invalid version"));
    }
    AppointTag(reg, p, Lower(tag), row.value);
    r := Resolved(p);
  }

  /** `Mutation.removeTag`: package, authorship, the tag, and `latest` is refused. */
  function RemoveTagStep(s: Store, viewer: Answer<Option<User>>, name: string, tag: string): (r: Step<Answer<string>>)
    ensures r.reply.Rejected? ==> r.post == s
    ensures Lower(name) !in s.packages ==> r.reply == Rejected(Message("Invalid package"))
    ensures Lower(name) in s.packages && viewer.Rejected? ==> r.reply == Rejected(viewer.reason)
    ensures r.reply.Resolved? <==>
      && Lower(name) in s.packages && viewer.Resolved? && Authorised(s, Lower(name), viewer.value)
      && FirstTag(s.tags, Lower(name), Lower(tag)).Some? && Lower(tag) != Latest
    ensures Lower(name) in s.packages && viewer.Resolved? && Authorised(s, Lower(name), viewer.value) ==>
      && (FirstTag(s.tags, Lower(name), Lower(tag)).None? ==> r.reply == Rejected(Message("Invalid tag")))
      && (FirstTag(s.tags, Lower(name), Lower(tag)).Some? && Lower(tag) == Latest ==>
            r.reply == Rejected(Message("Tag 'latest' cannot be removed")))
    ensures r.reply.Resolved? ==>
      && r.post == s.(tags := r.post.tags)
      && var gone := s.tags[FirstTag(s.tags, Lower(name), Lower(tag)).value];
         forall t :: t in r.post.tags <==> t in s.tags && t.id != gone.id
  {
    var p := Lower(name);
    if p !in s.packages then Refuse(s, Message("Invalid package"))
    else match viewer
      case Rejected(e) => Refuse(s, e)
      case Resolved(who) =>
        if !Authorised(s, p, who) then Refuse(s, Message("Forbidden"))
        else match FirstTag(s.tags, p, Lower(tag))
          case None => Refuse(s, Message("Invalid tag"))
          case Some(i) =>
            if s.tags[i].name == Latest then Refuse(s, Message("Tag 'latest' cannot be removed"))
            else Step(WithoutTag(s, s.tags[i].id), Resolved(p))
  }

  /** On a valid store a removal takes out exactly the row it found, and never a `latest`. */
  lemma RemoveTagOnlyThat(s: Store, viewer: Answer<Option<User>>, name: string, tag: string)
    requires Valid(s)
    ensures var r := RemoveTagStep(s, viewer, name, tag);
      && Valid(r.post)
      && (forall t :: t in s.tags && t.name == Latest ==> t in r.post.tags)
      && (r.reply.Resolved? ==> var gone := s.tags[FirstTag(s.tags, Lower(name), Lower(tag)).value];
            forall t :: t in r.post.tags <==> t in s.tags && t != gone)
  {
    var r := RemoveTagStep(s, viewer, name, tag);
    if r.reply.Resolved? {
      var gone := s.tags[FirstTag(s.tags, Lower(name), Lower(tag)).value];
      assert gone in s.tags;
      FewerTagsValid(s, r.post.tags);
    }
  }

  method RemoveTag(reg: Registry, viewer: Answer<Option<User>>, name: string, tag: string) returns (r: Answer<string>)
    modifies reg
    ensures Step(reg.Snapshot(), r) == RemoveTagStep(old(reg.Snapshot()), viewer, name, tag)
    ensures old(reg.Valid()) ==> reg.Valid()
  {
    if reg.Valid() {
      RemoveTagOnlyThat(reg.Snapshot(), viewer, name, tag);
    }
    var p := Lower(name);
    if p !in reg.packages {
      return Rejected(Message("Invalid package"));
    }
    if viewer.Rejected? {
      return Rejected(viewer.reason);
    }
    if !Authorised(reg.Snapshot(), p, viewer.value) {
      return Rejected(Message("Forbidden"));
    }
    var found := reg.FindTag(p, Lower(tag));
    if found.None? {
      return Rejected(Message("Invalid tag"));
    }
    if reg.tags[found.value].name == Latest {
      return Rejected(Message("Tag 'latest' cannot be removed"));
    }
    reg.DestroyTag(reg.tags[found.value].id);
    r := Resolved(p);
  }

  // Lookups on a package.

  /** `Package.version`: the row whose version string is the folded argument. */
  function PackageVersion(s: Store, p: string, version: string): (r: Option<Version>)
    ensures r.Some? ==> r.value.pkg == p && VersionKey(p, Lower(version)) in s.versions
  {
    match FindVersion(s, p, Lower(version))
    case None => None
    case Some(vid) => Some(s.versions[vid])
  }

  /**
   * On a valid store `Package.version` finds exactly the package's row with the folded version
   * string: a row whose version string has an upper-case letter is never found.
   */
  lemma PackageVersionFolds(s: Store, p: string, version: string)
    requires VersionsValid(s)
    ensures var r := PackageVersion(s, p, version);
      && (r.Some? ==> r.value.version == Lower(version) && IsLower(r.value.version))
      && (r.None? <==> forall id :: id in s.versions && s.versions[id].pkg == p ==> s.versions[id].version != Lower(version))
  {
    var r := PackageVersion(s, p, version);
    LowerIsLower(version);
    var key := VersionKey(p, Lower(version));
    if r.Some? {
      var v := s.versions[key];
      VersionKeySplit(p, Lower(version), v.pkg, v.version);
    } else {
      forall id | id in s.versions && s.versions[id].pkg == p
        ensures s.versions[id].version != Lower(version)
      {
      }
    }
  }

  /**
   * The object `Package.tags` builds over the rows `rows`, in order: each tag's name is mapped
   * to its row's version string, later rows overwriting earlier ones of the same name, and a
   * tag without a row makes the resolver reject.
   */
  function TagMap(s: Store, rows: seq<Tag>): (r: Answer<map<string, string>>)
    ensures r.Rejected? ==> r.reason == Message(NullVersion)
    decreases |rows|
  {
    if rows == [] then Resolved(map[])
    else match TagMap(s, rows[..|rows| - 1])
      case Rejected(e) => Rejected(e)
      case Resolved(m) =>
        var t := rows[|rows| - 1];
        if t.target.None? || t.target.value !in s.versions then Rejected(Message(NullVersion))
        else Resolved(m[t.name := s.versions[t.target.value].version])
  }

  /** Whether a row resolves to a version that is still in the store. */
  predicate Live(s: Store, t: Tag) {
    t.target.Some? && t.target.value in s.versions
  }

  /** No later row carries the name of row `i`. */
  predicate LastOfName(rows: seq<Tag>, i: int)
    requires 0 <= i < |rows|
  {
    forall j :: i < j < |rows| ==> rows[j].name != rows[i].name
  }

  /** `Package.tags` resolves exactly when every tag has a row. */
  lemma {:induction false} TagMapResolves(s: Store, rows: seq<Tag>)
    ensures TagMap(s, rows).Resolved? <==> forall t :: t in rows ==> Live(s, t)
    decreases |rows|
  {
    if rows != [] {
      var init := rows[..|rows| - 1];
      var t := rows[|rows| - 1];
      TagMapResolves(s, init);
      assert TagMap(s, rows).Resolved? <==> TagMap(s, init).Resolved? && Live(s, t);
      assert forall x :: x in rows <==> x in init || x == t;
    }
  }

  /** One more row adds or overwrites the entry of its name. */
  lemma TagMapLast(s: Store, rows: seq<Tag>)
    requires rows != [] && TagMap(s, rows).Resolved?
    ensures TagMap(s, rows[..|rows| - 1]).Resolved? && Live(s, rows[|rows| - 1])
    ensures TagMap(s, rows).value ==
      TagMap(s, rows[..|rows| - 1]).value[rows[|rows| - 1].name := s.versions[rows[|rows| - 1].target.value].version]
  {
  }

  /** When it resolves, its keys are the tag names. */
  lemma {:induction false} TagMapKeys(s: Store, rows: seq<Tag>)
    requires TagMap(s, rows).Resolved?
    ensures TagMap(s, rows).value.Keys == (set t | t in rows :: t.name)
    decreases |rows|
  {
    if rows != [] {
      var init := rows[..|rows| - 1];
      var t := rows[|rows| - 1];
      TagMapLast(s, rows);
      TagMapKeys(s, init);
      assert forall x :: x in rows <==> x in init || x == t;
      assert (set x | x in rows :: x.name) == (set x | x in init :: x.name) + {t.name};
    }
  }

  /** When it resolves, each name maps to the version string of the last tag of that name. */
  lemma {:induction false} TagMapEntries(s: Store, rows: seq<Tag>)
    requires TagMap(s, rows).Resolved?
    ensures forall i :: 0 <= i < |rows| && LastOfName(rows, i) ==>
      && Live(s, rows[i]) && rows[i].name in TagMap(s, rows).value
      && TagMap(s, rows).value[rows[i].name] == s.versions[rows[i].target.value].version
    decreases |rows|
  {
    if rows != [] {
      var init := rows[..|rows| - 1];
      var t := rows[|rows| - 1];
      TagMapLast(s, rows);
      TagMapEntries(s, init);
      var m := TagMap(s, init).value;
      var m' := TagMap(s, rows).value;
      forall i | 0 <= i < |rows| && LastOfName(rows, i)
        ensures Live(s, rows[i]) && rows[i].name in m' && m'[rows[i].name] == s.versions[rows[i].target.value].version
      {
        if i < |rows| - 1 {
          assert rows[i] == init[i];
          assert rows[i].name != t.name;
          assert LastOfName(init, i) by {
            forall j | i < j < |init| ensures init[j].name != init[i].name {
              assert init[j] == rows[j];
            }
          }
        }
      }
    }
  }

  /** `Package.tags` on the package `p`: a loop over `pkg.getTags()` that fills the object. */
  method PackageTags(reg: Registry, p: string) returns (r: Answer<map<string, string>>)
    ensures r == TagMap(reg.Snapshot(), TagsOf(reg.tags, p))
  {
    var rows := reg.TagsOfPackage(p);
    var m: map<string, string> := map[];
    var i := 0;
    while i < |rows|
      invariant 0 <= i <= |rows|
      invariant TagMap(reg.Snapshot(), rows[..i]) == Resolved(m)
    {
      var t := rows[i];
      assert rows[..i + 1][..i] == rows[..i];
      if t.target.None? || t.target.value !in reg.versions {
        TagMapResolves(reg.Snapshot(), rows);
        assert t in rows;
        return Rejected(Message(NullVersion));
      }
      m := m[t.name := reg.versions[t.target.value].version];
      i := i + 1;
    }
    assert rows[..i] == rows;
    r := Resolved(m);
  }

  /** The four mutations touch packages and tags only: the accounts are as they were. */
  lemma MutationsKeepUsers(svc: Services, s: Store, viewer: Answer<Option<User>>, username: string, name: string, tag: string, version: string)
    ensures AddAuthorStep(s, viewer, username, name).post.users == s.users
    ensures RemoveAuthorStep(s, viewer, username, name).post.users == s.users
    ensures SetTagStep(svc, s, viewer, name, tag, version).post.users == s.users
    ensures RemoveTagStep(s, viewer, name, tag).post.users == s.users
  {
  }

  /** With no verified account, no credentials open a session. */
  lemma NobodyLogsIn(svc: Services, users: map<string, User>, username: Option<string>, password: Option<string>)
    requires NoneVerified(users)
    ensures Login(svc, users, username, password).Rejected?
  {
  }

  /**
   * With no verified account, `auth(req)` never yields a user, so every mutation is refused,
   * whatever the token, and nothing changes.
   */
  lemma UnverifiedMutationsRefused(svc: Services, s: Store, lookupFails: bool, header: Option<string>, tok: Option<string>,
                                   username: string, name: string, tag: string, version: string)
    requires NoneVerified(s.users)
    ensures var viewer := TokenAuth.Authenticate(svc, s.users, lookupFails, header, tok);
      && AddAuthorStep(s, viewer, username, name) == Step(s, AddAuthorStep(s, viewer, username, name).reply)
      && AddAuthorStep(s, viewer, username, name).reply.Rejected?
      && RemoveAuthorStep(s, viewer, username, name) == Step(s, RemoveAuthorStep(s, viewer, username, name).reply)
      && RemoveAuthorStep(s, viewer, username, name).reply.Rejected?
      && SetTagStep(svc, s, viewer, name, tag, version) == Step(s, SetTagStep(svc, s, viewer, name, tag, version).reply)
      && SetTagStep(svc, s, viewer, name, tag, version).reply.Rejected?
      && RemoveTagStep(s, viewer, name, tag) == Step(s, RemoveTagStep(s, viewer, name, tag).reply)
      && RemoveTagStep(s, viewer, name, tag).reply.Rejected?
  {
    TokenAuth.NobodyAuthenticates(svc, s.users, lookupFails, header, tok);
  }

}
