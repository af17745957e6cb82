/**
 * The handlers of v1/routes/package.js beyond publish, delete and unpublish: fetch by version
 * or tag, the author list and the tags. Each is one step on the store, and its method on the
 * `Registry` is proved to take exactly that step.
 */
module PackageRoutes {
  import opened Wrappers
  import opened Text
  import opened Externals
  import opened Schema
  import opened Database
  import opened Publishing

  /** The row a tag resolves to, when it has one that is still in the store. */
  predicate Resolves(s: Store, t: Tag) {
    t.target.Some? && t.target.value in s.versions
  }

  /**
   * `GET /package/:name/:version`: the first tag named `version` wins over the row with that
   * version string; a tag whose row is gone leaves `version` null, and reading its `dist` throws.
   */
  function FetchAny(s: Store, name: string, version: string): (r: Reply<Bytes>)
    ensures r == Fail(NotFound, "Invalid package") <==> Lower(name) !in s.packages
    ensures r == Fail(NotFound, "Invalid version/tag") <==>
      Lower(name) in s.packages && FindVersion(s, Lower(name), version).None? && FirstTag(s.tags, Lower(name), version).None?
    ensures r.Fail? && r.kind == Unhandled <==>
      && Lower(name) in s.packages && FirstTag(s.tags, Lower(name), version).Some?
      && !Resolves(s, s.tags[FirstTag(s.tags, Lower(name), version).value])
    ensures FirstTag(s.tags, Lower(name), version).Some? && Resolves(s, s.tags[FirstTag(s.tags, Lower(name), version).value])
            && Lower(name) in s.packages ==>
      r == Ok(s.versions[s.tags[FirstTag(s.tags, Lower(name), version).value].target.value].dist)
    ensures FirstTag(s.tags, Lower(name), version).None? && FindVersion(s, Lower(name), version).Some?
            && Lower(name) in s.packages ==>
      r == Ok(s.versions[VersionKey(Lower(name), version)].dist)
  {
    var p := Lower(name);
    if p !in s.packages then Fail(NotFound, "Invalid package")
    else
      var row := FindVersion(s, p, version);
      var tag := FirstTag(s.tags, p, version);
      if row.None? && tag.None? then Fail(NotFound, "Invalid version/tag")
      else if tag.Some? then
        var t := s.tags[tag.value];
        if !Resolves(s, t) then Fail(Unhandled, "Cannot read property 'dist' of null")
        else Ok(s.versions[t.target.value].dist)
      else Ok(s.versions[row.value].dist)
  }

  /** Right after a publish, `latest` serves the archive just published. */
  lemma PublishThenFetchLatest(svc: Services, s: Store, principal: string, name: string, up: Upload)
    requires PublishStep(svc, s, principal, name, up).reply.Ok?
    ensures FetchAny(PublishStep(svc, s, principal, name, up).post, name, Latest) == Ok(up.dist.value)
  {
    PublishRecords(svc, s, principal, name, up);
    PublishMakesLatest(svc, s, principal, name, up);
  }

  method Fetch(reg: Registry, name: string, version: string) returns (r: Reply<Bytes>)
    ensures r == FetchAny(reg.Snapshot(), name, version)
  {
    var p := Lower(name);
    if p !in reg.packages {
      return Fail(NotFound, "Invalid package");
    }
    var row := FindVersion(reg.Snapshot(), p, version);
    var tag := reg.FindTag(p, version);
    if row.None? && tag.None? {
      return Fail(NotFound, "Invalid version/tag");
    }
    if tag.Some? {
      var t := reg.tags[tag.value];
      if !Resolves(reg.Snapshot(), t) {
        return Fail(Unhandled, "Cannot read property 'dist' of null");
      }
      return Ok(reg.versions[t.target.value].dist);
    }
    r := Ok(reg.versions[row.value].dist);
  }

  // Authors.

  /** `POST /package/:name/author/:user` by the authenticated `principal`. */
  function AddAuthorStep(s: Store, principal: string, name: string, user: string): (r: Step<Reply<()>>)
    ensures r.reply.Fail? ==> r.post == s
    ensures r.reply == Fail(NotFound, "Invalid package") <==> Lower(name) !in s.packages
    ensures r.reply == Fail(BadRequest, "Invalid user") <==> Lower(name) in s.packages && Lower(user) !in s.users
    ensures r.reply == Fail(Forbidden, "Forbidden") <==>
      Lower(name) in s.packages && Lower(user) in s.users && principal !in s.packages[Lower(name)].authors
    ensures r.reply.Ok? ==>
      && r.post.packages.Keys == s.packages.Keys
      && r.post.packages[Lower(name)].authors == s.packages[Lower(name)].authors + {Lower(user)}
      && r.post.packages[Lower(name)].description == s.packages[Lower(name)].description
      && (forall q :: q in s.packages && q != Lower(name) ==> r.post.packages[q] == s.packages[q])
      && r.post == s.(packages := r.post.packages)
  {
    var p := Lower(name);
    if p !in s.packages then Step(s, Fail(NotFound, "Invalid package"))
    else if Lower(user) !in s.users then Step(s, Fail(BadRequest, "Invalid user"))
    else if principal !in s.packages[p].authors then Step(s, Fail(Forbidden, "Forbidden"))
    else Step(WithAuthor(s, p, Lower(user)), Ok(()))
  }

  lemma AddAuthorPreservesValid(s: Store, principal: string, name: string, user: string)
    requires Valid(s)
    ensures Valid(AddAuthorStep(s, principal, name, user).post)
  {
    if AddAuthorStep(s, principal, name, user).reply.Ok? {
      WithAuthorValid(s, Lower(name), Lower(user));
    }
  }

  method AddAuthor(reg: Registry, principal: string, name: string, user: string) returns (reply: Reply<()>)
    modifies reg
    ensures Step(reg.Snapshot(), reply) == AddAuthorStep(old(reg.Snapshot()), principal, name, user)
    ensures old(reg.Valid()) ==> reg.Valid()
  {
    if reg.Valid() {
      AddAuthorPreservesValid(reg.Snapshot(), principal, name, user);
    }
    var p := Lower(name);
    if p !in reg.packages {
      return Fail(NotFound, "Invalid package");
    }
    if Lower(user) !in reg.users {
      return Fail(BadRequest, "Invalid user");
    }
    if principal !in reg.packages[p].authors {
      return Fail(Forbidden, "Forbidden");
    }
    reg.AddAuthor(p, Lower(user));
    reply := Ok(());
  }

  /**
   * `DELETE /package/:name/author/:user`, as written: the "is an author" test negates a
   * promise, which is never falsy, so its BadRequest is never sent.
   */
  function RemoveAuthorStep(s: Store, principal: string, name: string, user: string): (r: Step<Reply<()>>)
    ensures r.reply.Fail? ==> r.post == s
    ensures r.reply == Fail(NotFound, "Invalid package") <==> Lower(name) !in s.packages
    ensures r.reply == Fail(BadRequest, "Invalid user") <==> Lower(name) in s.packages && Lower(user) !in s.users
    ensures r.reply == Fail(Forbidden, "Forbidden") <==>
      Lower(name) in s.packages && Lower(user) in s.users && principal !in s.packages[Lower(name)].authors
    ensures r.reply.Ok? ==>
      && r.post.packages.Keys == s.packages.Keys
      && r.post.packages[Lower(name)].authors == s.packages[Lower(name)].authors - {Lower(user)}
      && r.post.packages[Lower(name)].description == s.packages[Lower(name)].description
      && (forall q :: q in s.packages && q != Lower(name) ==> r.post.packages[q] == s.packages[q])
      && r.post == s.(packages := r.post.packages)
  {
    var p := Lower(name);
    if p !in s.packages then Step(s, Fail(NotFound, "Invalid package"))
    else if Lower(user) !in s.users then Step(s, Fail(BadRequest, "Invalid user"))
    else if principal !in s.packages[p].authors then Step(s, Fail(Forbidden, "Forbidden"))
    else Step(WithoutAuthor(s, p, Lower(user)), Ok(()))
  }

  /**
   * As written, asking to remove someone who is not an author succeeds and changes nothing;
   * the answer "User is not an author" never comes.
   */
  lemma RemoveStrangerSucceeds(s: Store, principal: string, name: string, user: string)
    requires Lower(name) in s.packages && Lower(user) in s.users
    requires principal in s.packages[Lower(name)].authors && Lower(user) !in s.packages[Lower(name)].authors
    ensures RemoveAuthorStep(s, principal, name, user) == Step(s, Ok(()))
  {
    var p := Lower(name);
    assert s.packages[p].(authors := s.packages[p].authors - {Lower(user)}) == s.packages[p];
    assert s.packages[p := s.packages[p]] == s.packages;
  }

  lemma RemoveAuthorPreservesValid(s: Store, principal: string, name: string, user: string)
    requires Valid(s)
    ensures Valid(RemoveAuthorStep(s, principal, name, user).post)
  {
    if RemoveAuthorStep(s, principal, name, user).reply.Ok? {
      WithoutAuthorValid(s, Lower(name), Lower(user));
    }
  }

  method RemoveAuthor(reg: Registry, principal: string, name: string, user: string) returns (reply: Reply<()>)
    modifies reg
    ensures Step(reg.Snapshot(), reply) == RemoveAuthorStep(old(reg.Snapshot()), principal, name, user)
    ensures old(reg.Valid()) ==> reg.Valid()
  {
    if reg.Valid() {
      RemoveAuthorPreservesValid(reg.Snapshot(), principal, name, user);
    }
    var p := Lower(name);
    if p !in reg.packages {
      return Fail(NotFound, "Invalid package");
    }
    if Lower(user) !in reg.users {
      return Fail(BadRequest, "Invalid user");
    }
    if principal !in reg.packages[p].authors {
      return Fail(Forbidden, "Forbidden");
    }
    reg.RemoveAuthor(p, Lower(user));
    reply := Ok(());
  }

  /** The removal with its membership test awaited, as the handler's message intends. */
  function RemoveAuthorIntendedStep(s: Store, principal: string, name: string, user: string): (r: Step<Reply<()>>)
    ensures r.reply.Fail? ==> r.post == s
  {
    var p := Lower(name);
    if p !in s.packages then Step(s, Fail(NotFound, "Invalid package"))
    else if Lower(user) !in s.users then Step(s, Fail(BadRequest, "Invalid user"))
    else if Lower(user) !in s.packages[p].authors then Step(s, Fail(BadRequest, "User is not an author"))
    else if principal !in s.packages[p].authors then Step(s, Fail(Forbidden, "Forbidden"))
    else Step(WithoutAuthor(s, p, Lower(user)), Ok(()))
  }

  /**
   * With the test awaited, a removal succeeds exactly when the written one does and the user
   * really was an author; a stranger gets "User is not an author".
   */
  lemma RemoveAuthorIntendedChecks(s: Store, principal: string, name: string, user: string)
    ensures var r := RemoveAuthorIntendedStep(s, principal, name, user);
      && (r.reply.Ok? <==> RemoveAuthorStep(s, principal, name, user).reply.Ok? && Lower(user) in s.packages[Lower(name)].authors)
      && (r.reply.Ok? ==> r == RemoveAuthorStep(s, principal, name, user))
      && (r.reply == Fail(BadRequest, "User is not an author") <==>
            Lower(name) in s.packages && Lower(user) in s.users && Lower(user) !in s.packages[Lower(name)].authors)
  {
  }

  // Tags.

  /** The name of the tag a request targets: always folded. */
  function TagName(tag: string): string {
    Lower(tag)
  }

  /**
   * `POST /package/:name/tag/:tag`, as written: the tag row is looked up and created when
   * missing before the version is looked up, so an unknown version still leaves the new row.
   */
  function SetTagStep(svc: Services, s: Store, principal: string, name: string, tag: string, version: Option<string>): (r: Step<Reply<()>>)
    ensures r.reply == Fail(BadRequest, "Invalid version") ==>
      r.post == s || (r.post == WithTag(s, Lower(name), TagName(tag)) && FirstTag(s.tags, Lower(name), TagName(tag)).None?)
    ensures r.reply.Fail? && r.reply != Fail(BadRequest, "Invalid version") ==> r.post == s
    ensures r.reply == Fail(NotFound, "Invalid package") <==>
      version.Some? && svc.semverValid(version.value) && Lower(name) !in s.packages
    ensures r.reply == Fail(Forbidden, "Forbidden") <==>
      version.Some? && svc.semverValid(version.value) && Lower(name) in s.packages && principal !in s.packages[Lower(name)].authors
    ensures r.reply.Ok? <==>
      && version.Some? && svc.semverValid(version.value) && Lower(name) in s.packages
      && principal in s.packages[Lower(name)].authors && FindVersion(s, Lower(name), version.value).Some?
    ensures r.reply.Ok? ==> r.post == Appoint(s, Lower(name), TagName(tag), VersionKey(Lower(name), version.value))
  {
    if version.None? || !svc.semverValid(version.value) then Step(s, Fail(BadRequest, "Invalid version"))
    else
      var p := Lower(name);
      if p !in s.packages then Step(s, Fail(NotFound, "Invalid package"))
      else if principal !in s.packages[p].authors then Step(s, Fail(Forbidden, "Forbidden"))
      else
        var tagged := if FirstTag(s.tags, p, TagName(tag)).Some? then s else WithTag(s, p, TagName(tag));
        match FindVersion(tagged, p, version.value)
        case None => Step(tagged, Fail(BadRequest, "Invalid version"))
        case Some(vid) => Step(Appoint(s, p, TagName(tag), vid), Ok(()))
  }

  /**
   * After a successful set-tag the package's first tag of that (folded) name points at the row
   * and no other tag does; every other tag keeps its place and target, but the one that held
   * the row loses it.
   */
  lemma SetTagPoints(svc: Services, s: Store, principal: string, name: string, tag: string, version: Option<string>)
    requires SetTagStep(svc, s, principal, name, tag, version).reply.Ok?
    ensures var post := SetTagStep(svc, s, principal, name, tag, version).post;
      var vid := VersionKey(Lower(name), version.value);
      var i := FirstTag(post.tags, Lower(name), TagName(tag));
      && i.Some? && post.tags[i.value].target == Some(vid)
      && (forall t :: t in post.tags && t.target == Some(vid) ==> t.id == post.tags[i.value].id)
      && KeepsOthers(s.tags, post.tags, post.tags[i.value].id, vid)
  {
    AppointElects(s, Lower(name), TagName(tag), VersionKey(Lower(name), version.value));
  }

  /**
   * As written, through `Tag.hasOne(Version)`: pointing any other tag at the row the package's
   * `latest` holds succeeds and leaves that `latest` pointing nowhere, so from then on fetching
   * `latest` crashes.
   */
  lemma SetTagStrandsLatest(svc: Services, s: Store, principal: string, name: string, tag: string, version: Option<string>, j: nat)
    requires TagsValid(s) && SetTagStep(svc, s, principal, name, tag, version).reply.Ok? && TagName(tag) != Latest
    requires FirstTag(s.tags, Lower(name), Latest) == Some(j)
    requires s.tags[j].target == Some(VersionKey(Lower(name), version.value))
    ensures var post := SetTagStep(svc, s, principal, name, tag, version).post;
      && FirstTag(post.tags, Lower(name), Latest) == Some(j)
      && post.tags[j] == s.tags[j].(target := None)
      && FetchAny(post, name, Latest) == Fail(Unhandled, "Cannot read property 'dist' of null")
  {
    var p := Lower(name);
    var vid := VersionKey(p, version.value);
    var post := Appoint(s, p, TagName(tag), vid);
    AppointKeepsOtherNames(s, p, TagName(tag), vid, Latest);
    AppointElects(s, p, TagName(tag), vid);
    var i := FirstTag(post.tags, p, TagName(tag)).value;
    assert s.tags[j] in s.tags;
    if FirstTag(s.tags, p, TagName(tag)).Some? {
      assert s.tags[i] in s.tags && s.tags[i] != s.tags[j];
    }
    assert s.tags[j].id != post.tags[i].id;
  }

  /** A request that shows it: `latest` on `a@2.0.0`, then `beta` set to `2.0.0`. */
  lemma SetTagStealsLatest(svc: Services)
    requires svc.semverValid("2.0.0")
    ensures var r := SetTagStep(svc, TwoVersions(), "u", "a", "beta", Some("2.0.0"));
      && r.reply == Ok(())
      && r.post.tags == [Tag(0, "a", Latest, None), Tag(1, "a", "beta", Some("a@2.0.0"))]
  {
    var s := TwoVersions();
    assert IsLower("a") && IsLower("beta");
    LowerOfLower("a");
    LowerOfLower("beta");
    assert VersionKey("a", "2.0.0") == "a@2.0.0";
    assert FirstTag(s.tags, "a", "beta").None?;
    AppointElects(s, "a", "beta", "a@2.0.0");
  }

  /** With the link on the tag row, the same request keeps `latest` on its row and points `beta` at it too. */
  lemma SetTagIntendedKeepsLatest()
    ensures AppointIntended(TwoVersions(), "a", "beta", "a@2.0.0").tags
      == [Tag(0, "a", Latest, Some("a@2.0.0")), Tag(1, "a", "beta", Some("a@2.0.0"))]
  {
    var s := TwoVersions();
    assert FirstTag(s.tags, "a", "beta").None?;
    AppointIntendedKeepsOthers(s, "a", "beta", "a@2.0.0");
  }

  /**
   * As written, naming a new tag with a version the package does not have answers BadRequest
   * and still appends a tag row that points nowhere.
   */
  lemma SetTagStrandsTag(svc: Services, s: Store, principal: string, name: string, tag: string, version: string)
    requires svc.semverValid(version) && Lower(name) in s.packages && principal in s.packages[Lower(name)].authors
    requires FirstTag(s.tags, Lower(name), TagName(tag)).None? && FindVersion(s, Lower(name), version).None?
    ensures var r := SetTagStep(svc, s, principal, name, tag, Some(version));
      && r.reply == Fail(BadRequest, "Invalid version")
      && r.post.tags == s.tags + [Tag(s.nextTag, Lower(name), TagName(tag), None)]
  {
  }

  /** A set-tag with the version looked up before the tag is touched, as the GraphQL mutation does it. */
  function SetTagIntendedStep(svc: Services, s: Store, principal: string, name: string, tag: string, version: Option<string>): (r: Step<Reply<()>>)
  {
    if version.None? || !svc.semverValid(version.value) then Step(s, Fail(BadRequest, "Invalid version"))
    else
      var p := Lower(name);
      if p !in s.packages then Step(s, Fail(NotFound, "Invalid package"))
      else if principal !in s.packages[p].authors then Step(s, Fail(Forbidden, "Forbidden"))
      else match FindVersion(s, p, version.value)
        case None => Step(s, Fail(BadRequest, "Invalid version"))
        case Some(vid) => Step(Appoint(s, p, TagName(tag), vid), Ok(()))
  }

  /** Validating first, a refused set-tag changes nothing, and the answers and successes are as written. */
  lemma SetTagIntendedAtomic(svc: Services, s: Store, principal: string, name: string, tag: string, version: Option<string>)
    ensures var r := SetTagIntendedStep(svc, s, principal, name, tag, version);
      && (r.reply.Fail? ==> r.post == s)
      && r.reply == SetTagStep(svc, s, principal, name, tag, version).reply
      && (r.reply.Ok? ==> r == SetTagStep(svc, s, principal, name, tag, version))
  {
  }

  lemma SetTagPreservesValid(svc: Services, s: Store, principal: string, name: string, tag: string, version: Option<string>)
    requires Valid(s)
    ensures Valid(SetTagStep(svc, s, principal, name, tag, version).post)
  {
    var r := SetTagStep(svc, s, principal, name, tag, version);
    var p := Lower(name);
    if r.reply.Ok? {
      AppointValid(s, p, TagName(tag), VersionKey(p, version.value));
    } else if r.post != s {
      WithTagValid(s, p, TagName(tag));
    }
  }

  method SetTag(reg: Registry, svc: Services, principal: string, name: string, tag: string, version: Option<string>) returns (reply: Reply<()>)
    modifies reg
    ensures Step(reg.Snapshot(), reply) == SetTagStep(svc, old(reg.Snapshot()), principal, name, tag, version)
    ensures old(reg.Valid()) ==> reg.Valid()
  {
    if reg.Valid() {
      SetTagPreservesValid(svc, reg.Snapshot(), principal, name, tag, version);
    }
    if version.None? || !svc.semverValid(version.value) {
      return Fail(BadRequest, "Invalid version");
    }
    var p := Lower(name);
    if p !in reg.packages {
      return Fail(NotFound, "Invalid package");
    }
    if principal !in reg.packages[p].authors {
      return Fail(Forbidden, "Forbidden");
    }
    ghost var s0 := reg.Snapshot();
    var found := reg.FindTag(p, TagName(tag));
    var id: nat;
    if found.Some? {
      id := reg.tags[found.value].id;
    } else {
      id := reg.CreateTag(p, TagName(tag));
    }
    var row := FindVersion(reg.Snapshot(), p, version.value);
    if row.None? {
      return Fail(BadRequest, "Invalid version");
    }
    reg.SetVersion(id, row.value);
    reply := Ok(());
  }

  /** `DELETE /package/:name/tag/:tag` by the authenticated `principal`. */
  function RemoveTagStep(s: Store, principal: string, name: string, tag: string): (r: Step<Reply<()>>)
    ensures r.reply.Fail? ==> r.post == s
    ensures r.reply == Fail(NotFound, "Invalid package") <==> Lower(name) !in s.packages
    ensures r.reply == Fail(Forbidden, "Forbidden") <==> Lower(name) in s.packages && principal !in s.packages[Lower(name)].authors
    ensures r.reply == Fail(NotFound, "Invalid tag") <==>
      Lower(name) in s.packages && principal in s.packages[Lower(name)].authors && FirstTag(s.tags, Lower(name), TagName(tag)).None?
    ensures r.reply == Fail(Forbidden, "Tag 'latest' cannot be removed") <==>
      && Lower(name) in s.packages && principal in s.packages[Lower(name)].authors
      && FirstTag(s.tags, Lower(name), TagName(tag)).Some? && TagName(tag) == Latest
    ensures r.reply.Ok? ==>
      && TagName(tag) != Latest
      && r.post == s.(tags := r.post.tags)
      && var gone := s.tags[FirstTag(s.tags, Lower(name), TagName(tag)).value];
         forall t :: t in r.post.tags <==> t in s.tags && t.id != gone.id
  {
    var p := Lower(name);
    if p !in s.packages then Step(s, Fail(NotFound, "Invalid package"))
    else if principal !in s.packages[p].authors then Step(s, Fail(Forbidden, "Forbidden"))
    else match FirstTag(s.tags, p, TagName(tag))
      case None => Step(s, Fail(NotFound, "Invalid tag"))
      case Some(i) =>
        if s.tags[i].name == Latest then Step(s, Fail(Forbidden, "Tag 'latest' cannot be removed"))
        else Step(WithoutTag(s, s.tags[i].id), Ok(()))
  }

  /**
   * On a store with distinct tag ids a removal takes out exactly the one row it found; every
   * `latest` survives it, and the store stays valid.
   */
  lemma RemoveTagOnlyThat(s: Store, principal: string, name: string, tag: string)
    requires Valid(s)
    ensures var r := RemoveTagStep(s, principal, name, tag);
      && Valid(r.post)
      && (forall t :: t in s.tags && t.name == Latest ==> t in r.post.tags)
      && (r.reply.Ok? ==> var gone := s.tags[FirstTag(s.tags, Lower(name), TagName(tag)).value];
            forall t :: t in r.post.tags <==> t in s.tags && t != gone)
  {
    var r := RemoveTagStep(s, principal, name, tag);
    if r.reply.Ok? {
      var gone := s.tags[FirstTag(s.tags, Lower(name), TagName(tag)).value];
      assert gone in s.tags;
      FewerTagsValid(s, r.post.tags);
    }
  }

  method RemoveTag(reg: Registry, principal: string, name: string, tag: string) returns (reply: Reply<()>)
    modifies reg
    ensures Step(reg.Snapshot(), reply) == RemoveTagStep(old(reg.Snapshot()), principal, name, tag)
    ensures old(reg.Valid()) ==> reg.Valid()
  {
    if reg.Valid() {
      RemoveTagOnlyThat(reg.Snapshot(), principal, name, tag);
    }
    var p := Lower(name);
    if p !in reg.packages {
      return Fail(NotFound, "Invalid package");
    }
    if principal !in reg.packages[p].authors {
      return Fail(Forbidden, "Forbidden");
    }
    var found := reg.FindTag(p, TagName(tag));
    if found.None? {
      return Fail(NotFound, "Invalid tag");
    }
    if reg.tags[found.value].name == Latest {
      return Fail(Forbidden, "Tag 'latest' cannot be removed");
    }
    reg.DestroyTag(reg.tags[found.value].id);
    reply := Ok(());
  }

  /** The author and tag routes touch packages and tags only: the accounts are as they were. */
  lemma RoutesKeepUsers(svc: Services, s: Store, principal: string, name: string, user: string, tag: string, version: Option<string>)
    ensures AddAuthorStep(s, principal, name, user).post.users == s.users
    ensures RemoveAuthorStep(s, principal, name, user).post.users == s.users
    ensures SetTagStep(svc, s, principal, name, tag, version).post.users == s.users
    ensures RemoveTagStep(s, principal, name, tag).post.users == s.users
  {
  }

}
