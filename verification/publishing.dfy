/**
 * Publishing, deleting and unpublishing a package. v1.js, the router the server mounts, and
 * v1/routes/package.js carry these three handlers alike, apart from the restify errors v1.js
 * calls without `new` (taken here as the errors meant); each handler is one step on the store,
 * and its method on the `Registry` is proved to take exactly that step.
 */
module Publishing {
  import opened Wrappers
  import opened Text
  import opened Externals
  import opened Schema
  import opened Database

  /** The multipart fields of a publish; `None` is a field that was not sent. `package` arrives parsed. */
  datatype Upload = Upload(package: Option<Manifest>, dist: Option<Bytes>, readme: Option<string>)

  /** The upload passes the three BadRequest checks, which run before the store is read. */
  predicate WellFormed(svc: Services, up: Upload) {
    && up.package.Some? && up.dist.Some?
    && Present(up.package.value.version)
    && svc.semverValid(up.package.value.version.value)
  }

  /** The principal may write the package: it does not exist yet, or they are one of its authors. */
  predicate MayWrite(s: Store, principal: string, p: string) {
    p in s.packages ==> principal in s.packages[p].authors
  }

  /** The text stored in the readme column: the one sent, or the column default. */
  function ReadmeOf(readme: Option<string>): string {
    if Present(readme) then readme.value else NoReadme
  }

  /** The version row a publish creates, before the store stamps it. */
  function NewVersion(svc: Services, p: string, ver: string, up: Upload): Version
    requires up.package.Some? && up.dist.Some?
  {
    Version(p, ver, ReadmeOf(up.readme), up.package.value, svc.sha256Hex(up.dist.value), up.dist.value, None, 0)
  }

  /**
   * The package's first tag called `name`, or a new one when it has none, is pointed at the
   * row `vid`: the `latest` update of a publish and the body of a set-tag.
   */
  function Appoint(s: Store, p: string, name: string, vid: string): (c: Store)
    ensures c == s.(tags := c.tags, nextTag := c.nextTag)
  {
    match FirstTag(s.tags, p, name)
    case Some(i) => WithTarget(s, s.tags[i].id, vid)
    case None => WithTarget(WithTag(s, p, name), s.nextTag, vid)
  }

  /** `POST /package/:name` by the authenticated `principal`; a success answers with the new row's id. */
  function PublishStep(svc: Services, s: Store, principal: string, name: string, up: Upload): (r: Step<Reply<string>>)
    ensures r.reply.Fail? ==> r.post == s
    ensures (r.reply.Fail? && r.reply.kind == BadRequest) <==> !WellFormed(svc, up)
    ensures r.reply == Fail(Forbidden, "Forbidden") <==> WellFormed(svc, up) && !MayWrite(s, principal, Lower(name))
    ensures (r.reply.Fail? && r.reply.kind == Conflict) <==>
      && WellFormed(svc, up) && MayWrite(s, principal, Lower(name))
      && VersionKey(Lower(name), up.package.value.version.value) in s.versions
    ensures r.reply.Ok? <==>
      && WellFormed(svc, up) && MayWrite(s, principal, Lower(name))
      && VersionKey(Lower(name), up.package.value.version.value) !in s.versions
      && (Lower(name) in s.packages || up.package.value.description.Some?)
    ensures r.reply.Ok? ==> r.reply.value == VersionKey(Lower(name), up.package.value.version.value)
  {
    if up.package.None? || up.dist.None? then
      Step(s, Fail(BadRequest, "Missing package.json and/or dist file"))
    else if !Present(up.package.value.version) then
      Step(s, Fail(BadRequest, "Missing package version"))
    else if !svc.semverValid(up.package.value.version.value) then
      Step(s, Fail(BadRequest, "Invalid version"))
    else
      var m := up.package.value;
      var ver := m.version.value;
      var p := Lower(name);
      var id := VersionKey(p, ver);
      if p in s.packages && principal !in s.packages[p].authors then
        Step(s, Fail(Forbidden, "Forbidden"))
      else if id in s.versions then
        Step(s, Fail(Conflict, "Version '" + ver + "' already exists"))
      else if p !in s.packages && m.description.None? then
        // The package row's description is NOT NULL: the insert rejects and nothing is sent.
        Step(s, Fail(Unhandled, "notNull Violation: description cannot be null"))
      else
        var s1 := if p in s.packages then s else WithPackage(s, p, m.description.value, principal);
        Step(Appoint(WithVersion(s1, id, NewVersion(svc, p, ver, up)), p, Latest, id), Ok(id))
  }

  /**
   * A successful publish records the row under `lower(name)@version` with the digest of the
   * dist, the readme or its default, and the next stamp; a first publish creates the package
   * with the publisher as its only author. Users are untouched.
   */
  lemma PublishRecords(svc: Services, s: Store, principal: string, name: string, up: Upload)
    requires PublishStep(svc, s, principal, name, up).reply.Ok?
    ensures var r := PublishStep(svc, s, principal, name, up);
      var p := Lower(name);
      var m := up.package.value;
      var id := VersionKey(p, m.version.value);
      && r.post.versions == s.versions[id := Version(p, m.version.value,
           if Present(up.readme) then up.readme.value else NoReadme,
           m, svc.sha256Hex(up.dist.value), up.dist.value, None, s.clock)]
      && r.post.clock == s.clock + 1
      && (p in s.packages ==> r.post.packages == s.packages)
      && (p !in s.packages ==> r.post.packages == s.packages[p := Package(m.description.value, {principal})])
      && r.post.users == s.users
  {
    var p := Lower(name);
    var m := up.package.value;
    var id := VersionKey(p, m.version.value);
    var s1 := if p in s.packages then s else WithPackage(s, p, m.description.value, principal);
    var s2 := WithVersion(s1, id, NewVersion(svc, p, m.version.value, up));
    assert PublishStep(svc, s, principal, name, up).post == Appoint(s2, p, Latest, id);
  }

  /** A row appended to a table without any row of that name is its first. */
  lemma FirstTagAppend(tags: seq<Tag>, t: Tag, p: string, name: string)
    requires FirstTag(tags, p, name).None? && IsTagOf(t, p, name)
    ensures FirstTag(tags + [t], p, name) == Some(|tags|)
  {
    assert (tags + [t])[|tags|] == t;
  }

  /** Pointing a tag at a row changes no tag's package or name, so the first `latest` stays where it was. */
  lemma RetargetKeepsFirstTag(tags: seq<Tag>, id: nat, vid: string, p: string, name: string)
    ensures FirstTag(Retarget(tags, id, vid), p, name) == FirstTag(tags, p, name)
  {
    FirstTagSameNames(Retarget(tags, id, vid), tags, p, name);
  }

  /**
   * Every tag of `before` but the one with id `chosen` keeps its place, package, name and
   * target in `after`, except that the one that held `vid` loses it (`Tag.hasOne(Version)`).
   */
  predicate KeepsOthers(before: seq<Tag>, after: seq<Tag>, chosen: nat, vid: string) {
    forall k :: 0 <= k < |before| && before[k].id != chosen ==>
      k < |after| && after[k] == (if before[k].target == Some(vid) then before[k].(target := None) else before[k])
  }

  /**
   * After `Appoint` the package's first tag called `name` is the one it had before (or the new
   * row when it had none), it points at `vid`, and no other tag does. Every other tag stays
   * where and what it was, but a tag that held `vid` is left pointing nowhere.
   */
  lemma AppointElects(s: Store, p: string, name: string, vid: string)
    ensures var c := Appoint(s, p, name, vid);
      var i := FirstTag(c.tags, p, name);
      && i.Some? && c.tags[i.value].target == Some(vid)
      && (FirstTag(s.tags, p, name).Some? ==> i == FirstTag(s.tags, p, name) && c.tags[i.value].id == s.tags[i.value].id)
      && (FirstTag(s.tags, p, name).None? ==> i == Some(|s.tags|) && c.tags[i.value].id == s.nextTag)
      && forall t :: t in c.tags && t.target == Some(vid) ==> t.id == c.tags[i.value].id
    ensures var c := Appoint(s, p, name, vid);
      var i := FirstTag(c.tags, p, name);
      && |c.tags| == |s.tags| + (if FirstTag(s.tags, p, name).Some? then 0 else 1)
      && i.Some? && KeepsOthers(s.tags, c.tags, c.tags[i.value].id, vid)
  {
    match FirstTag(s.tags, p, name)
    case Some(i) =>
      RetargetKeepsFirstTag(s.tags, s.tags[i].id, vid, p, name);
      RetargetMembers(s.tags, s.tags[i].id, vid);
    case None =>
      var w := WithTag(s, p, name);
      assert w.tags[|s.tags|] == Tag(s.nextTag, p, name, None);
      FirstTagAppend(s.tags, Tag(s.nextTag, p, name, None), p, name);
      RetargetKeepsFirstTag(w.tags, s.nextTag, vid, p, name);
      RetargetMembers(w.tags, s.nextTag, vid);
      forall k | 0 <= k < |s.tags| ensures w.tags[k] == s.tags[k] {
      }
  }

  /** A row appended under another name leaves the first tag of a name where it was. */
  lemma FirstTagAppendOther(tags: seq<Tag>, t: Tag, p: string, name: string)
    requires !IsTagOf(t, p, name)
    ensures FirstTag(tags + [t], p, name) == FirstTag(tags, p, name)
  {
    var w := tags + [t];
    assert forall k :: 0 <= k < |tags| ==> w[k] == tags[k];
    match FirstTag(tags, p, name)
    case None =>
      assert forall k :: 0 <= k < |w| ==> !IsTagOf(w[k], p, name) by {
        forall k | 0 <= k < |w| ensures !IsTagOf(w[k], p, name) {
          if k < |tags| {
            assert tags[k] in tags;
          }
        }
      }
    case Some(j) =>
  }

  /** `Appoint` changes no tag's package or name, so the first tag of any other name stays where it was. */
  lemma AppointKeepsOtherNames(s: Store, p: string, name: string, vid: string, other: string)
    requires other != name
    ensures FirstTag(Appoint(s, p, name, vid).tags, p, other) == FirstTag(s.tags, p, other)
  {
    match FirstTag(s.tags, p, name)
    case Some(i) =>
      RetargetKeepsFirstTag(s.tags, s.tags[i].id, vid, p, other);
    case None =>
      var w := WithTag(s, p, name);
      RetargetKeepsFirstTag(w.tags, s.nextTag, vid, p, other);
      FirstTagAppendOther(s.tags, Tag(s.nextTag, p, name, None), p, other);
  }

  /** `Appoint` as `Tag.belongsTo(Version)` would make it: the link lives on the tag row, so only the appointed tag changes. */
  function AppointIntended(s: Store, p: string, name: string, vid: string): Store {
    match FirstTag(s.tags, p, name)
    case Some(i) => s.(tags := PointOnly(s.tags, s.tags[i].id, vid))
    case None => var w := WithTag(s, p, name); w.(tags := PointOnly(w.tags, s.nextTag, vid))
  }

  /** `tag.setVersion(v)` with the foreign key on the tag: only the tags with id `id` change. */
  function PointOnly(tags: seq<Tag>, id: nat, vid: string): seq<Tag> {
    seq(|tags|, k requires 0 <= k < |tags| => if tags[k].id == id then tags[k].(target := Some(vid)) else tags[k])
  }

  /**
   * With the link on the tag row, the package's first tag called `name` (or the new row) points
   * at `vid` and every other tag keeps its row and its target, so no `latest` is left stranded.
   */
  lemma AppointIntendedKeepsOthers(s: Store, p: string, name: string, vid: string)
    ensures var c := AppointIntended(s, p, name, vid);
      var i := FirstTag(c.tags, p, name);
      && i.Some? && c.tags[i.value].target == Some(vid)
      && (FirstTag(s.tags, p, name).Some? ==> i == FirstTag(s.tags, p, name))
      && (FirstTag(s.tags, p, name).None? ==> i == Some(|s.tags|) && c.tags[i.value].id == s.nextTag)
      && |c.tags| == |s.tags| + (if FirstTag(s.tags, p, name).Some? then 0 else 1)
      && forall k :: 0 <= k < |s.tags| && s.tags[k].id != c.tags[i.value].id ==> c.tags[k] == s.tags[k]
  {
    match FirstTag(s.tags, p, name)
    case Some(i) =>
      FirstTagSameNames(PointOnly(s.tags, s.tags[i].id, vid), s.tags, p, name);
    case None =>
      var w := WithTag(s, p, name);
      assert w.tags[|s.tags|] == Tag(s.nextTag, p, name, None);
      FirstTagAppend(s.tags, Tag(s.nextTag, p, name, None), p, name);
      FirstTagSameNames(PointOnly(w.tags, s.nextTag, vid), w.tags, p, name);
      forall k | 0 <= k < |s.tags| ensures w.tags[k] == s.tags[k] {
      }
  }

  /**
   * After a successful publish the package's `latest` (the one it already had, or a new one)
   * points at the new row, whatever its place in semver order, and no other tag does.
   */
  lemma PublishMakesLatest(svc: Services, s: Store, principal: string, name: string, up: Upload)
    requires PublishStep(svc, s, principal, name, up).reply.Ok?
    ensures var r := PublishStep(svc, s, principal, name, up);
      var p := Lower(name);
      var id := r.reply.value;
      var i := FirstTag(r.post.tags, p, Latest);
      && i.Some? && r.post.tags[i.value].target == Some(id)
      && (FirstTag(s.tags, p, Latest).Some? ==> r.post.tags[i.value].id == s.tags[FirstTag(s.tags, p, Latest).value].id)
      && (FirstTag(s.tags, p, Latest).None? ==> r.post.tags[i.value].id == s.nextTag)
      && (forall t :: t in r.post.tags && t.target == Some(id) ==> t.id == r.post.tags[i.value].id)
      && KeepsOthers(s.tags, r.post.tags, r.post.tags[i.value].id, id)
  {
    var p := Lower(name);
    var m := up.package.value;
    var id := VersionKey(p, m.version.value);
    var s1 := if p in s.packages then s else WithPackage(s, p, m.description.value, principal);
    var s2 := WithVersion(s1, id, NewVersion(svc, p, m.version.value, up));
    assert s2.tags == s.tags && s2.nextTag == s.nextTag;
    AppointElects(s2, p, Latest, id);
  }

  /** `Appoint` on a valid store, for a row of the package, keeps the store valid. */
  lemma AppointValid(s: Store, p: string, name: string, vid: string)
    requires Valid(s) && p in s.packages
    requires vid in s.versions && s.versions[vid].pkg == p
    ensures Valid(Appoint(s, p, name, vid))
  {
    match FirstTag(s.tags, p, name)
    case Some(i) =>
      assert s.tags[i] in s.tags;
      WithTargetValid(s, s.tags[i], vid);
    case None =>
      WithTagValid(s, p, name);
      var w := WithTag(s, p, name);
      assert w.tags[|s.tags|] in w.tags;
      WithTargetValid(w, w.tags[|s.tags|], vid);
  }

  /** Recording a new row, and for a first publish its package, keeps the store valid. */
  lemma RecordValid(s: Store, p: string, description: Option<string>, principal: string, id: string, v: Version)
    requires Valid(s) && principal in s.users
    requires v.pkg == p && id == VersionKey(p, v.version) && id !in s.versions
    requires p !in s.packages ==> description.Some?
    ensures var s1 := if p in s.packages then s else WithPackage(s, p, description.value, principal);
      Valid(WithVersion(s1, id, v)) && p in WithVersion(s1, id, v).packages
  {
    if p in s.packages {
      WithVersionValid(s, id, v);
    } else {
      FirstVersionValid(s, p, description.value, principal, id, v);
    }
  }

  /** A publish by a registered user keeps the store valid, whatever it answers. */
  lemma PublishPreservesValid(svc: Services, s: Store, principal: string, name: string, up: Upload)
    requires Valid(s) && principal in s.users
    ensures Valid(PublishStep(svc, s, principal, name, up).post)
  {
    var r := PublishStep(svc, s, principal, name, up);
    if r.reply.Ok? {
      var p := Lower(name);
      var m := up.package.value;
      var id := VersionKey(p, m.version.value);
      var v := NewVersion(svc, p, m.version.value, up);
      var s1 := if p in s.packages then s else WithPackage(s, p, m.description.value, principal);
      PublishOkUnfolds(svc, s, principal, name, up);
      RecordValid(s, p, m.description, principal, id, v);
      var s2 := WithVersion(s1, id, v);
      assert id in s2.versions && s2.versions[id].pkg == p;
      AppointValid(s2, p, Latest, id);
    }
  }

  /** A successful publish records the new row, on a new package when needed, and appoints it `latest`. */
  lemma PublishOkUnfolds(svc: Services, s: Store, principal: string, name: string, up: Upload)
    requires PublishStep(svc, s, principal, name, up).reply.Ok?
    ensures up.package.Some? && up.dist.Some? && Present(up.package.value.version)
    ensures var p := Lower(name);
      var m := up.package.value;
      var id := VersionKey(p, m.version.value);
      && id !in s.versions && (p !in s.packages ==> m.description.Some?)
      && var s1 := if p in s.packages then s else WithPackage(s, p, m.description.value, principal);
      PublishStep(svc, s, principal, name, up).post
        == Appoint(WithVersion(s1, id, NewVersion(svc, p, m.version.value, up)), p, Latest, id)
  {
  }

  /** The rows of a package, as `pkg.getVersions()` lists them. */
  function RowsOf(s: Store, p: string): set<string> {
    set k | k in s.versions && s.versions[k].pkg == p
  }

  /** The state the destroy loops of a package delete leave: its rows, then its tags, then the package are gone. */
  function Purged(s: Store, p: string): (r: Store)
    ensures r.packages == s.packages - {p} && r.users == s.users
    ensures forall k :: k in r.versions <==> k in s.versions && s.versions[k].pkg != p
    ensures forall k :: k in r.versions ==> r.versions[k] == s.versions[k]
    ensures forall t :: t in r.tags ==> t.pkg != p
  {
    var rows := RowsOf(s, p);
    var s1 := s.(versions := map k | k in s.versions && k !in rows :: s.versions[k], tags := ClearTargets(s.tags, rows));
    WithoutPackage(s1.(tags := DropTagsOf(s1.tags, p)), p)
  }

  /** `DELETE /package/:name` by the authenticated `principal`. */
  function DeleteStep(s: Store, principal: string, name: string): (r: Step<Reply<()>>)
    ensures r.reply.Fail? ==> r.post == s
    ensures r.reply == Fail(NotFound, "Invalid package") <==> Lower(name) !in s.packages
    ensures r.reply == Fail(Forbidden, "Forbidden") <==>
      Lower(name) in s.packages && principal !in s.packages[Lower(name)].authors
  {
    var p := Lower(name);
    if p !in s.packages then Step(s, Fail(NotFound, "Invalid package"))
    else if principal !in s.packages[p].authors then Step(s, Fail(Forbidden, "Forbidden"))
    else Step(Purged(s, p), Ok(()))
  }

  /** Clearing links into rows that no tag of another package points at leaves those tags as they were. */
  lemma ClearedOthers(tags: seq<Tag>, rows: set<string>, p: string)
    requires forall t :: t in tags && t.pkg != p && t.target.Some? ==> t.target.value !in rows
    ensures forall t :: t in ClearTargets(tags, rows) && t.pkg != p <==> t in tags && t.pkg != p
  {
    var c := ClearTargets(tags, rows);
    forall t ensures t in c && t.pkg != p <==> t in tags && t.pkg != p {
      if t in c && t.pkg != p {
        var i :| 0 <= i < |c| && c[i] == t;
        assert tags[i] in tags && Cleared(tags[i], rows) == t;
      }
      if t in tags && t.pkg != p {
        var i :| 0 <= i < |tags| && tags[i] == t;
        assert c[i] == t;
      }
    }
  }

  /** Purging a package whose tags only point into its own rows keeps exactly the other packages' tags, untouched. */
  lemma PurgedTags(s: Store, p: string)
    requires TagsLinked(s)
    ensures forall t :: t in Purged(s, p).tags <==> t in s.tags && t.pkg != p
  {
    var rows := RowsOf(s, p);
    var c := ClearTargets(s.tags, rows);
    assert Purged(s, p).tags == DropTagsOf(DropTagsOf(c, p), p);
    forall t | t in s.tags && t.pkg != p && t.target.Some? ensures t.target.value !in rows {
      assert s.versions[t.target.value].pkg == t.pkg;
    }
    ClearedOthers(s.tags, rows, p);
  }

  /**
   * On a valid store a successful delete removes the package, exactly its rows and exactly its
   * tags; the other packages, their rows, their tags and the users are as they were.
   */
  lemma DeleteRemovesPackage(s: Store, principal: string, name: string)
    requires Valid(s) && DeleteStep(s, principal, name).reply.Ok?
    ensures var r := DeleteStep(s, principal, name); var p := Lower(name);
      && r.post.packages == s.packages - {p}
      && (forall k :: k in r.post.versions <==> k in s.versions && s.versions[k].pkg != p)
      && (forall k :: k in r.post.versions ==> r.post.versions[k] == s.versions[k])
      && (forall t :: t in r.post.tags <==> t in s.tags && t.pkg != p)
      && r.post.users == s.users
  {
    PurgedTags(s, Lower(name));
  }

  /** A delete keeps a valid store valid. */
  lemma DeletePreservesValid(s: Store, principal: string, name: string)
    requires Valid(s)
    ensures Valid(DeleteStep(s, principal, name).post)
  {
    var r := DeleteStep(s, principal, name);
    if r.reply.Ok? {
      DeleteRemovesPackage(s, principal, name);
      PurgeValid(s, r.post, Lower(name));
    }
  }

  /** A store that lost one package together with exactly its rows and its tags is valid again. */
  lemma PurgeValid(s: Store, r: Store, p: string)
    requires Valid(s)
    requires r.packages == s.packages - {p} && r.users == s.users && r.clock == s.clock && r.nextTag == s.nextTag
    requires forall k :: k in r.versions <==> k in s.versions && s.versions[k].pkg != p
    requires forall k :: k in r.versions ==> r.versions[k] == s.versions[k]
    requires forall t :: t in r.tags <==> t in s.tags && t.pkg != p
    ensures Valid(r)
  {
    assert VersionsValid(r);
    assert PackagesValid(r) by {
      forall q | q in r.packages ensures HasVersions(r, q) && r.packages[q].authors <= r.users.Keys {
        var w :| w in s.versions && s.versions[w].pkg == q;
        assert w in r.versions;
      }
    }
    FewerUnique(s.tags, r.tags);
    assert TagsLinked(r);
  }

  /** The ids of the snapshot's tags that the sweep destroys: those whose row has the version string `ver`. */
  function Doomed(s: Store, pending: seq<Tag>, ver: string): set<nat> {
    set t | t in pending && t.target.Some? && t.target.value in s.versions
      && s.versions[t.target.value].version == ver :: t.id
  }

  /**
   * The tag loop of an unpublish over the snapshot `pending`: a tag whose row has the version
   * string `ver` is destroyed, and a tag with no row makes `getVersion().get('version')` throw.
   */
  function Sweep(s: Store, pending: seq<Tag>, ver: string): (r: Step<Reply<()>>)
    ensures r.post == s.(tags := r.post.tags)
    ensures forall t :: t in r.post.tags ==> t in s.tags
    ensures r.reply.Ok? <==> forall t :: t in pending ==> t.target.Some? && t.target.value in s.versions
    ensures r.reply.Fail? ==> r.reply.kind == Unhandled
    decreases |pending|
  {
    if pending == [] then Step(s, Ok(()))
    else
      var t := pending[0];
      if t.target.None? || t.target.value !in s.versions then
        Step(s, Fail(Unhandled, "Cannot read property 'version' of null"))
      else if s.versions[t.target.value].version == ver then
        Sweep(WithoutTag(s, t.id), pending[1..], ver)
      else
        Sweep(s, pending[1..], ver)
  }

  /** A sweep that completes destroys exactly the tags whose ids it found doomed. */
  lemma {:induction false} SweepDrops(s: Store, pending: seq<Tag>, ver: string)
    requires Sweep(s, pending, ver).reply.Ok?
    ensures forall u :: u in Sweep(s, pending, ver).post.tags <==> u in s.tags && u.id !in Doomed(s, pending, ver)
    decreases |pending|
  {
    if pending != [] {
      var t := pending[0];
      var rest := pending[1..];
      assert forall x :: x in rest ==> x in pending;
      if s.versions[t.target.value].version == ver {
        var w := WithoutTag(s, t.id);
        SweepDrops(w, rest, ver);
        assert Doomed(w, rest, ver) == Doomed(s, rest, ver);
        assert Doomed(s, pending, ver) == Doomed(s, rest, ver) + {t.id};
      } else {
        SweepDrops(s, rest, ver);
        assert Doomed(s, pending, ver) == Doomed(s, rest, ver);
      }
    }
  }

  /** `pkg.hasVersion(id)`: the row exists and belongs to the package. */
  predicate Owns(s: Store, p: string, id: string) {
    id in s.versions && s.versions[id].pkg == p
  }

  /**
   * The checks of an unpublish, the tag sweep and the destroy of the row. The version check
   * builds the row id from the name as sent, not lower-cased.
   */
  function Unlink(svc: Services, s: Store, principal: string, name: string, ver: string): (r: Step<Reply<()>>)
    ensures r.reply == Fail(BadRequest, "Invalid version") <==> !svc.semverValid(ver)
    ensures r.reply == Fail(NotFound, "Invalid package") <==> svc.semverValid(ver) && Lower(name) !in s.packages
    ensures r.reply == Fail(Forbidden, "Forbidden") <==>
      svc.semverValid(ver) && Lower(name) in s.packages && principal !in s.packages[Lower(name)].authors
    ensures r.reply == Fail(NotFound, "Invalid version") <==>
      && svc.semverValid(ver) && Lower(name) in s.packages && principal in s.packages[Lower(name)].authors
      && !Owns(s, Lower(name), VersionKey(name, ver))
    ensures r.reply.Fail? && r.reply.kind != Unhandled ==> r.post == s
  {
    if !svc.semverValid(ver) then Step(s, Fail(BadRequest, "Invalid version"))
    else
      var p := Lower(name);
      if p !in s.packages then Step(s, Fail(NotFound, "Invalid package"))
      else if principal !in s.packages[p].authors then Step(s, Fail(Forbidden, "Forbidden"))
      else if !Owns(s, p, VersionKey(name, ver)) then Step(s, Fail(NotFound, "Invalid version"))
      else
        var swept := Sweep(s, TagsOf(s.tags, p), ver);
        if swept.reply.Fail? then swept
        else match FindVersion(swept.post, p, ver)
          case None => Step(swept.post, Fail(Unhandled, "Cannot read property 'destroy' of undefined"))
          case Some(vid) => Step(WithoutVersion(swept.post, vid), Ok(()))
  }

  /**
   * What follows the destroy of the row, as written: the package goes with its last row;
   * otherwise `[0]` is applied to the promise of `getTags`, finds nothing, and a new `latest`
   * pointing at the most recently created row is added every time. Its `setVersion` takes that
   * row away from the tag that held it, as every `setVersion` does.
   */
  ghost function Reelect(s: Store, p: string): (r: Store)
    ensures r.versions == s.versions && r.users == s.users
    ensures r.packages == if HasVersions(s, p) then s.packages else s.packages - {p}
    ensures HasVersions(s, p) ==>
      && |r.tags| == |s.tags| + 1 && r.tags[|s.tags|] == Tag(s.nextTag, p, Latest, Some(MostRecent(s, p)))
      && KeepsOthers(s.tags, r.tags, s.nextTag, MostRecent(s, p))
    ensures !HasVersions(s, p) ==> forall t :: t in r.tags <==> t in s.tags && t.pkg != p
  {
    if HasVersions(s, p) then WithTarget(WithTag(s, p, Latest), s.nextTag, MostRecent(s, p))
    else WithoutPackage(s, p)
  }

  /** `DELETE /package/:name/:version` by the authenticated `principal`, as written. */
  ghost function UnpublishStep(svc: Services, s: Store, principal: string, name: string, ver: string): (r: Step<Reply<()>>)
    ensures r.reply.Fail? <==> Unlink(svc, s, principal, name, ver).reply.Fail?
    ensures r.reply.Fail? ==> r == Unlink(svc, s, principal, name, ver)
    ensures r.reply.Ok? ==> r.post.versions == Unlink(svc, s, principal, name, ver).post.versions
  {
    var u := Unlink(svc, s, principal, name, ver);
    if u.reply.Ok? then Step(Reelect(u.post, Lower(name)), Ok(())) else u
  }

  /**
   * On a valid store a name with an upper-case letter never passes the version check, even
   * when the package and the row exist: the answer is NotFound and nothing changes.
   */
  lemma UnpublishRawNameNotFound(svc: Services, s: Store, principal: string, name: string, ver: string)
    requires VersionsValid(s) && name != Lower(name)
    requires svc.semverValid(ver) && Lower(name) in s.packages && principal in s.packages[Lower(name)].authors
    ensures UnpublishStep(svc, s, principal, name, ver) == Step(s, Fail(NotFound, "Invalid version"))
  {
    var p := Lower(name);
    var key := VersionKey(name, ver);
    if Owns(s, p, key) {
      VersionKeySplit(name, ver, p, s.versions[key].version);
    }
  }

  /** The checks and removal with the row id built from the folded name, as every other lookup of the handler is. */
  function UnlinkFolded(svc: Services, s: Store, principal: string, name: string, ver: string): Step<Reply<()>> {
    Unlink(svc, s, principal, Lower(name), ver)
  }

  /**
   * With the name folded, a package that has a row with the version string always passes the
   * version check, however the name was spelled.
   */
  lemma UnlinkFoldedFindsRow(svc: Services, s: Store, principal: string, name: string, ver: string, id: string)
    requires VersionsValid(s)
    requires svc.semverValid(ver) && Lower(name) in s.packages && principal in s.packages[Lower(name)].authors
    requires id in s.versions && s.versions[id].pkg == Lower(name) && s.versions[id].version == ver
    ensures UnlinkFolded(svc, s, principal, name, ver).reply != Fail(NotFound, "Invalid version")
  {
    LowerIsLower(name);
    LowerOfLower(Lower(name));
    assert Owns(s, Lower(name), VersionKey(Lower(name), ver));
  }

  /**
   * On a valid store the sweep of an unpublish that gets past the checks destroys exactly the
   * tags whose target is the row `lower(name)@ver`.
   */
  lemma DoomedAreTargeting(s: Store, p: string, ver: string, vid: string)
    requires Valid(s) && vid == VersionKey(p, ver) && Owns(s, p, vid)
    ensures forall x :: x in s.tags ==> (x.id in Doomed(s, TagsOf(s.tags, p), ver) <==> x.target == Some(vid))
  {
    forall x | x in s.tags
      ensures x.id in Doomed(s, TagsOf(s.tags, p), ver) <==> x.target == Some(vid)
    {
      if x.id in Doomed(s, TagsOf(s.tags, p), ver) {
        var t :| t in TagsOf(s.tags, p) && t.target.Some? && t.target.value in s.versions
          && s.versions[t.target.value].version == ver && t.id == x.id;
        assert t == x;
        var w := t.target.value;
        assert w == VersionKey(s.versions[w].pkg, s.versions[w].version);
      }
      if x.target == Some(vid) {
        assert x in TagsOf(s.tags, p);
        VersionKeySplit(p, ver, p, s.versions[vid].version);
      }
    }
  }

  /**
   * On a valid store, past the checks: the name was already lower-case, the row
   * `lower(name)@ver` is destroyed and nothing else is, the tags destroyed are exactly those
   * that pointed at it, and every other tag is kept as it was.
   */
  lemma UnlinkRemovesRow(svc: Services, s: Store, principal: string, name: string, ver: string)
    requires Valid(s) && Unlink(svc, s, principal, name, ver).reply.Ok?
    ensures var u := Unlink(svc, s, principal, name, ver);
      var vid := VersionKey(Lower(name), ver);
      && name == Lower(name)
      && Owns(s, name, vid) && s.versions[vid].version == ver
      && u.post.versions == s.versions - {vid}
      && u.post.packages == s.packages && u.post.users == s.users
      && u.post.nextTag == s.nextTag && u.post.clock == s.clock
      && forall t :: t in u.post.tags <==> t in s.tags && t.target != Some(vid)
  {
    var p := Lower(name);
    var vid := VersionKey(p, ver);
    UnlinkOkUnfolds(svc, s, principal, name, ver);
    VersionKeySplit(p, ver, p, s.versions[vid].version);
    var swept := Sweep(s, TagsOf(s.tags, p), ver);
    SweepDrops(s, TagsOf(s.tags, p), ver);
    DoomedAreTargeting(s, p, ver, vid);
    ClearTargetsNone(swept.post.tags, vid);
  }

  /** A successful unlink was asked with a folded name for a row the package owns, and is its sweep followed by the destroy of that row. */
  lemma UnlinkOkUnfolds(svc: Services, s: Store, principal: string, name: string, ver: string)
    requires VersionsValid(s) && Unlink(svc, s, principal, name, ver).reply.Ok?
    ensures name == Lower(name) && Owns(s, name, VersionKey(name, ver))
    ensures var swept := Sweep(s, TagsOf(s.tags, name), ver);
      && swept.reply.Ok?
      && Unlink(svc, s, principal, name, ver).post == WithoutVersion(swept.post, VersionKey(name, ver))
  {
    if name != Lower(name) {
      UnpublishRawNameNotFound(svc, s, principal, name, ver);
    }
  }

  /** Past the checks, on a valid store: the sweep completed on a valid store holding the row, which is then destroyed. */
  lemma UnlinkShape(svc: Services, s: Store, principal: string, name: string, ver: string)
    requires Valid(s) && Unlink(svc, s, principal, name, ver).reply.Ok?
    ensures var sw := Sweep(s, TagsOf(s.tags, Lower(name)), ver).post;
      var vid := VersionKey(Lower(name), ver);
      && Valid(sw) && Owns(sw, Lower(name), vid)
      && Unlink(svc, s, principal, name, ver).post == WithoutVersion(sw, vid)
  {
    var p := Lower(name);
    UnlinkRemovesRow(svc, s, principal, name, ver);
    var swept := Sweep(s, TagsOf(s.tags, p), ver);
    FewerTagsValid(s, swept.post.tags);
  }

  /** The store after the checks, sweep and destroy of a valid store is valid but for the package possibly left without rows. */
  lemma UnlinkValid(svc: Services, s: Store, principal: string, name: string, ver: string)
    requires Valid(s) && Unlink(svc, s, principal, name, ver).reply.Ok?
    ensures var u := Unlink(svc, s, principal, name, ver);
      HasVersions(u.post, Lower(name)) ==> Valid(u.post)
    ensures var u := Unlink(svc, s, principal, name, ver);
      !HasVersions(u.post, Lower(name)) ==> Valid(WithoutPackage(u.post, Lower(name)))
  {
    var p := Lower(name);
    var vid := VersionKey(p, ver);
    UnlinkShape(svc, s, principal, name, ver);
    var sw := Sweep(s, TagsOf(s.tags, p), ver).post;
    if HasVersions(WithoutVersion(sw, vid), p) {
      WithoutVersionValid(sw, vid);
    } else {
      WithoutLastVersionValid(sw, vid);
    }
  }

  /** A failed unpublish leaves a valid store valid: it changed nothing, or only destroyed tags before it crashed. */
  lemma UnlinkFailValid(svc: Services, s: Store, principal: string, name: string, ver: string)
    requires Valid(s) && Unlink(svc, s, principal, name, ver).reply.Fail?
    ensures Valid(Unlink(svc, s, principal, name, ver).post)
  {
    var p := Lower(name);
    var u := Unlink(svc, s, principal, name, ver);
    if u.post != s {
      var swept := Sweep(s, TagsOf(s.tags, p), ver);
      assert u.post == swept.post;
      FewerTagsValid(s, swept.post.tags);
    }
  }

  /** The re-election keeps the store valid. */
  lemma ReelectValid(s: Store, p: string)
    requires p in s.packages
    requires HasVersions(s, p) ==> Valid(s)
    requires !HasVersions(s, p) ==> Valid(WithoutPackage(s, p))
    ensures Valid(Reelect(s, p))
  {
    if HasVersions(s, p) {
      WithTagValid(s, p, Latest);
      var w := WithTag(s, p, Latest);
      assert w.tags[|s.tags|] in w.tags;
      WithTargetValid(w, w.tags[|s.tags|], MostRecent(s, p));
    }
  }

  /** An unpublish keeps a valid store valid, whatever it answers, a crash in the sweep included. */
  lemma UnpublishPreservesValid(svc: Services, s: Store, principal: string, name: string, ver: string)
    requires Valid(s)
    ensures Valid(UnpublishStep(svc, s, principal, name, ver).post)
  {
    var u := Unlink(svc, s, principal, name, ver);
    if u.reply.Ok? {
      UnlinkValid(svc, s, principal, name, ver);
      UnlinkRemovesRow(svc, s, principal, name, ver);
      ReelectValid(u.post, Lower(name));
    } else {
      UnlinkFailValid(svc, s, principal, name, ver);
    }
  }

  /**
   * A successful unpublish of a valid store: when the row was the package's last, the package
   * and its tags are gone; otherwise a new `latest` is appended pointing at the most recently
   * created remaining row, and a `latest` that was not pointing at the removed row is still
   * there too, so the package then has two.
   */
  lemma UnpublishAlwaysAddsLatest(svc: Services, s: Store, principal: string, name: string, ver: string)
    requires Valid(s) && UnpublishStep(svc, s, principal, name, ver).reply.Ok?
    ensures var r := UnpublishStep(svc, s, principal, name, ver);
      var p := Lower(name);
      var vid := VersionKey(p, ver);
      && (RowsOf(s, p) == {vid} ==> p !in r.post.packages && forall t :: t in r.post.tags ==> t.pkg != p)
      && (RowsOf(s, p) != {vid} ==>
           && p in r.post.packages
           && |r.post.tags| > 0
           && var n := r.post.tags[|r.post.tags| - 1];
              && n.id == s.nextTag && IsTagOf(n, p, Latest)
              && n.target.Some? && IsMostRecent(r.post, p, n.target.value)
              && (forall t :: t in s.tags && IsTagOf(t, p, Latest) && t.target != Some(vid) ==>
                   exists k :: k in r.post.tags && k.id == t.id && IsTagOf(k, p, Latest)))
    ensures var r := UnpublishStep(svc, s, principal, name, ver);
      var p := Lower(name);
      var u := Unlink(svc, s, principal, name, ver).post;
      RowsOf(s, p) != {VersionKey(p, ver)} ==>
        && HasVersions(u, p)
        && KeepsOthers(u.tags, r.post.tags, s.nextTag, MostRecent(u, p))
        && var first := FirstTag(u.tags, p, Latest);
           first.Some? && u.tags[first.value].target == Some(MostRecent(u, p)) ==>
             FirstTag(r.post.tags, p, Latest) == first && r.post.tags[first.value].target.None?
  {
    var p := Lower(name);
    var vid := VersionKey(p, ver);
    var u := Unlink(svc, s, principal, name, ver);
    UnlinkRemovesRow(svc, s, principal, name, ver);
    assert UnpublishStep(svc, s, principal, name, ver).post == Reelect(u.post, p);
    ReelectAfterUnlink(s, u.post, p, vid);
  }

  /** The re-election that follows the removal of the row `vid` of `p` and of the tags aimed at it. */
  lemma ReelectAfterUnlink(s: Store, u: Store, p: string, vid: string)
    requires p in s.packages && vid in RowsOf(s, p)
    requires u.versions == s.versions - {vid} && u.packages == s.packages && u.nextTag == s.nextTag
    requires forall t :: t in u.tags <==> t in s.tags && t.target != Some(vid)
    requires forall t :: t in s.tags ==> t.id < s.nextTag
    ensures var r := Reelect(u, p);
      && (RowsOf(s, p) == {vid} ==> p !in r.packages && forall t :: t in r.tags ==> t.pkg != p)
      && (RowsOf(s, p) != {vid} ==>
           && p in r.packages
           && |r.tags| > 0
           && var n := r.tags[|r.tags| - 1];
              && n.id == s.nextTag && IsTagOf(n, p, Latest)
              && n.target.Some? && IsMostRecent(r, p, n.target.value)
              && forall t :: t in s.tags && IsTagOf(t, p, Latest) && t.target != Some(vid) ==>
                   exists k :: k in r.tags && k.id == t.id && IsTagOf(k, p, Latest))
    ensures var r := Reelect(u, p);
      RowsOf(s, p) != {vid} ==>
        && HasVersions(u, p)
        && KeepsOthers(u.tags, r.tags, s.nextTag, MostRecent(u, p))
        && var first := FirstTag(u.tags, p, Latest);
           first.Some? && u.tags[first.value].target == Some(MostRecent(u, p)) ==>
             FirstTag(r.tags, p, Latest) == first && r.tags[first.value].target.None?
  {
    var r := Reelect(u, p);
    if RowsOf(s, p) == {vid} {
      assert !HasVersions(u, p);
    } else {
      var w :| w in RowsOf(s, p) && w != vid;
      assert w in u.versions;
      ReelectAppends(u, p);
      assert |r.tags| - 1 == |u.tags|;
      forall t | t in s.tags && IsTagOf(t, p, Latest) && t.target != Some(vid)
        ensures exists k :: k in r.tags && k.id == t.id && IsTagOf(k, p, Latest)
      {
        assert t in u.tags;
      }
      var first := FirstTag(u.tags, p, Latest);
      if first.Some? && u.tags[first.value].target == Some(MostRecent(u, p)) {
        assert u.tags[first.value] in s.tags;
        ReelectStrandsLatest(u, p, first.value);
      }
    }
  }

  /**
   * With rows left, the re-election appends a `latest` aimed at the most recent row; every
   * earlier tag keeps its place, id, package and name, and its target unless it held that row.
   */
  lemma ReelectAppends(s: Store, p: string)
    requires HasVersions(s, p)
    ensures var r := Reelect(s, p);
      && r.packages == s.packages && r.versions == s.versions
      && |r.tags| == |s.tags| + 1
      && (var n := r.tags[|s.tags|];
          n.id == s.nextTag && IsTagOf(n, p, Latest) && n.target.Some? && IsMostRecent(r, p, n.target.value))
      && (forall t :: t in s.tags ==> exists k :: k in r.tags && k.id == t.id && IsTagOf(k, t.pkg, t.name))
      && KeepsOthers(s.tags, r.tags, s.nextTag, MostRecent(s, p))
  {
    var m := WithTag(s, p, Latest);
    var mr := MostRecent(s, p);
    var r := WithTarget(m, s.nextTag, mr);
    assert m.tags[|s.tags|] == Tag(s.nextTag, p, Latest, None);
    RetargetMembers(m.tags, s.nextTag, mr);
    forall t | t in s.tags ensures exists k :: k in r.tags && k.id == t.id && IsTagOf(k, t.pkg, t.name) {
      assert t in m.tags;
      assert Aimed(t, s.nextTag, mr) in r.tags;
    }
  }

  /** A match found in a prefix stays the first match once something is appended. */
  lemma FirstTagAppendFound(tags: seq<Tag>, t: Tag, p: string, name: string)
    requires FirstTag(tags, p, name).Some?
    ensures FirstTag(tags + [t], p, name) == FirstTag(tags, p, name)
  {
    var w := tags + [t];
    var j := FirstTag(tags, p, name).value;
    assert w[j] == tags[j];
    assert forall k :: 0 <= k < j ==> w[k] == tags[k];
  }

  /**
   * When the package's first `latest` already holds the most recent row, the appended `latest`
   * takes it away: the old one stays the first `latest`, with no target.
   */
  lemma ReelectStrandsLatest(s: Store, p: string, j: nat)
    requires HasVersions(s, p) && FirstTag(s.tags, p, Latest) == Some(j)
    requires s.tags[j].id < s.nextTag && s.tags[j].target == Some(MostRecent(s, p))
    ensures var r := Reelect(s, p);
      FirstTag(r.tags, p, Latest) == Some(j) && r.tags[j] == s.tags[j].(target := None)
  {
    var m := WithTag(s, p, Latest);
    FirstTagAppendFound(s.tags, Tag(s.nextTag, p, Latest, None), p, Latest);
    RetargetKeepsFirstTag(m.tags, s.nextTag, MostRecent(s, p), p, Latest);
  }

  /** The package has exactly one `latest`, and it points at a row. */
  ghost predicate LatestSound(s: Store, p: string) {
    && (exists t :: t in s.tags && IsTagOf(t, p, Latest) && t.target.Some?)
    && (forall a, b :: a in s.tags && b in s.tags && IsTagOf(a, p, Latest) && IsTagOf(b, p, Latest) ==> a == b)
  }

  /** A package `a` with versions 1.0.0 and 2.0.0, created in that order; its only `latest` points at 2.0.0. */
  function TwoVersions(): Store {
    var v1 := Version("a", "1.0.0", NoReadme, Manifest(Some("1.0.0"), Some(""), "{}"), "", [], None, 0);
    var v2 := Version("a", "2.0.0", NoReadme, Manifest(Some("2.0.0"), Some(""), "{}"), "", [], None, 1);
    Store(map["a" := Package("", {"u"})], map["a@1.0.0" := v1, "a@2.0.0" := v2],
          [Tag(0, "a", Latest, Some("a@2.0.0"))], map["u" := User("u", "u@a", "", false)], 1, 2)
  }

  lemma TwoVersionsVersionsValid()
    ensures VersionsValid(TwoVersions())
  {
    assert VersionKey("a", "1.0.0") == "a@1.0.0" && VersionKey("a", "2.0.0") == "a@2.0.0";
  }

  lemma TwoVersionsPackagesValid()
    ensures PackagesValid(TwoVersions())
  {
    var s := TwoVersions();
    assert "a@1.0.0" in s.versions && s.versions["a@1.0.0"].pkg == "a";
  }

  lemma TwoVersionsTagsValid()
    ensures TagsValid(TwoVersions()) && LatestSound(TwoVersions(), "a")
  {
    var s := TwoVersions();
    assert forall t :: t in s.tags ==> t == s.tags[0];
  }

  lemma TwoVersionsUsersValid()
    ensures UsersValid(TwoVersions())
  {
    assert IsLower("u");
  }

  lemma TwoVersionsValid()
    ensures Valid(TwoVersions()) && LatestSound(TwoVersions(), "a")
  {
    TwoVersionsVersionsValid();
    TwoVersionsPackagesValid();
    TwoVersionsTagsValid();
    TwoVersionsUsersValid();
  }

  /** Unpublishing 1.0.0 of `TwoVersions` gets past the checks, keeps the tag and destroys the row. */
  lemma TwoVersionsUnlink(svc: Services)
    requires svc.semverValid("1.0.0")
    ensures Unlink(svc, TwoVersions(), "u", "a", "1.0.0") == Step(WithoutVersion(TwoVersions(), "a@1.0.0"), Ok(()))
  {
    var s := TwoVersions();
    assert IsLower("a");
    LowerOfLower("a");
    assert VersionKey("a", "1.0.0") == "a@1.0.0";
    var l := s.tags[0];
    assert TagsOf(s.tags, "a") == [l] by {
      assert s.tags == [l] && s.tags[1..] == [];
    }
    assert Sweep(s, [l], "1.0.0") == Sweep(s, [l][1..], "1.0.0");
  }

  /** Re-electing after 1.0.0 is gone appends a `latest` for 2.0.0, which unlinks the old one. */
  lemma TwoVersionsReelect()
    ensures var r := Reelect(WithoutVersion(TwoVersions(), "a@1.0.0"), "a");
      && "a" in r.packages
      && r.tags == [Tag(0, "a", Latest, None), Tag(1, "a", Latest, Some("a@2.0.0"))]
  {
    var s := TwoVersions();
    var l := s.tags[0];
    var u := WithoutVersion(s, "a@1.0.0");
    assert u.tags == [l] by {
      assert ClearTargets(s.tags, {"a@1.0.0"})[0] == l;
    }
    assert "a@2.0.0" in u.versions && u.versions.Keys == {"a@2.0.0"};
    var mr := MostRecent(u, "a");
    assert mr == "a@2.0.0";
    var n := Tag(1, "a", Latest, None);
    var x := Retarget([l, n], 1, mr);
    assert x[0] == Aimed(l, 1, mr) && x[1] == Aimed(n, 1, mr);
    assert Reelect(u, "a").tags == x;
  }

  /**
   * On `TwoVersions`, unpublishing 1.0.0 adds a second `latest`, which takes 2.0.0 away from
   * the first one: the `latest` that lookups find first then points at nothing.
   */
  lemma UnpublishStrandsLatest(svc: Services)
    requires svc.semverValid("1.0.0")
    ensures var r := UnpublishStep(svc, TwoVersions(), "u", "a", "1.0.0");
      && Valid(TwoVersions()) && LatestSound(TwoVersions(), "a")
      && r.reply.Ok? && "a" in r.post.packages
      && FirstTag(r.post.tags, "a", Latest) == Some(0) && r.post.tags[0].target.None?
      && !LatestSound(r.post, "a")
  {
    TwoVersionsValid();
    TwoVersionsUnlink(svc);
    LowerOfLower("a");
    TwoVersionsReelect();
    var r := UnpublishStep(svc, TwoVersions(), "u", "a", "1.0.0");
    assert r.post == Reelect(WithoutVersion(TwoVersions(), "a@1.0.0"), "a");
    assert r.post.tags[1] in r.post.tags && r.post.tags[0] in r.post.tags;
  }

  /**
   * The re-election the code evidently intends, with `[0]` applied to the awaited list: a new
   * `latest` is created only when the package has none left.
   */
  ghost function ReelectIntended(s: Store, p: string): Store {
    if !HasVersions(s, p) then WithoutPackage(s, p)
    else if FirstTag(s.tags, p, Latest).Some? then s
    else WithTarget(WithTag(s, p, Latest), s.nextTag, MostRecent(s, p))
  }

  /** An unpublish with the intended re-election. */
  ghost function UnpublishIntendedStep(svc: Services, s: Store, principal: string, name: string, ver: string): Step<Reply<()>> {
    var u := Unlink(svc, s, principal, name, ver);
    if u.reply.Ok? then Step(ReelectIntended(u.post, Lower(name)), Ok(())) else u
  }

  /**
   * With the intended re-election, an unpublish that leaves the package in place also leaves
   * it exactly one `latest` pointing at a row, when it had one before.
   */
  lemma UnpublishIntendedKeepsLatest(svc: Services, s: Store, principal: string, name: string, ver: string)
    requires Valid(s) && LatestSound(s, Lower(name))
    requires UnpublishIntendedStep(svc, s, principal, name, ver).reply.Ok?
    requires Lower(name) in UnpublishIntendedStep(svc, s, principal, name, ver).post.packages
    ensures LatestSound(UnpublishIntendedStep(svc, s, principal, name, ver).post, Lower(name))
  {
    var p := Lower(name);
    var u := Unlink(svc, s, principal, name, ver);
    UnlinkRemovesRow(svc, s, principal, name, ver);
    assert UnpublishIntendedStep(svc, s, principal, name, ver).post == ReelectIntended(u.post, p);
    ReelectIntendedSound(s, u.post, p, VersionKey(p, ver));
  }

  /**
   * The intended re-election after a sweep that removed exactly the tags aimed at `vid`
   * keeps the package's `latest` unique and aimed at a row.
   */
  lemma ReelectIntendedSound(s: Store, u: Store, p: string, vid: string)
    requires LatestSound(s, p)
    requires forall t :: t in u.tags <==> t in s.tags && t.target != Some(vid)
    requires p in ReelectIntended(u, p).packages
    ensures LatestSound(ReelectIntended(u, p), p)
  {
    assert HasVersions(u, p);
    var l :| l in s.tags && IsTagOf(l, p, Latest) && l.target.Some?;
    if l.target == Some(vid) {
      assert forall t :: t in u.tags ==> !IsTagOf(t, p, Latest);
      FreshLatestSound(u, p);
    } else {
      assert l in u.tags;
    }
  }

  /** A package with rows and no `latest` gets exactly one, pointing at a row. */
  lemma FreshLatestSound(u: Store, p: string)
    requires HasVersions(u, p)
    requires forall t :: t in u.tags ==> !IsTagOf(t, p, Latest)
    ensures LatestSound(WithTarget(WithTag(u, p, Latest), u.nextTag, MostRecent(u, p)), p)
  {
    var nt := Tag(u.nextTag, p, Latest, None);
    var m := WithTag(u, p, Latest);
    var mr := MostRecent(u, p);
    var r := WithTarget(m, u.nextTag, mr);
    assert m.tags[|u.tags|] == nt;
    RetargetMembers(m.tags, u.nextTag, mr);
    assert Aimed(nt, u.nextTag, mr) in r.tags;
    forall a | a in r.tags && IsTagOf(a, p, Latest) ensures a == Aimed(nt, u.nextTag, mr) {
      var x :| x in m.tags && a == Aimed(x, u.nextTag, mr);
      assert x == nt;
    }
  }

  // The handlers, each one sequence of single-row calls on the registry.

  /** The first tag called `name` is looked up, created when missing, and pointed at `vid`. */
  method AppointTag(reg: Registry, p: string, name: string, vid: string)
    modifies reg
    ensures reg.Snapshot() == Appoint(old(reg.Snapshot()), p, name, vid)
  {
    var found := reg.FindTag(p, name);
    var tag: nat;
    if found.Some? {
      tag := reg.tags[found.value].id;
    } else {
      tag := reg.CreateTag(p, name);
    }
    reg.SetVersion(tag, vid);
  }

  /** `POST /package/:name`, lines 36-81 of v1/routes/package.js and 131-176 of v1.js. */
  method Publish(reg: Registry, svc: Services, principal: string, name: string, up: Upload) returns (reply: Reply<string>)
    modifies reg
    ensures Step(reg.Snapshot(), reply) == PublishStep(svc, old(reg.Snapshot()), principal, name, up)
    ensures old(reg.Valid()) && principal in old(reg.users) ==> reg.Valid()
  {
    if reg.Valid() && principal in reg.users {
      PublishPreservesValid(svc, reg.Snapshot(), principal, name, up);
    }
    if up.package.None? || up.dist.None? {
      return Fail(BadRequest, "Missing package.json and/or dist file");
    }
    var m := up.package.value;
    if !Present(m.version) {
      return Fail(BadRequest, "Missing package version");
    }
    var ver := m.version.value;
    if !svc.semverValid(ver) {
      return Fail(BadRequest, "Invalid version");
    }
    var p := Lower(name);
    var id := VersionKey(p, ver);
    if p in reg.packages && principal !in reg.packages[p].authors {
      return Fail(Forbidden, "Forbidden");
    }
    if id in reg.versions {
      return Fail(Conflict, "Version '" + ver + "' already exists");
    }
    if p !in reg.packages {
      if m.description.None? {
        return Fail(Unhandled, "notNull Violation: description cannot be null");
      }
      reg.CreatePackage(p, m.description.value, principal);
    }
    reg.CreateVersion(id, NewVersion(svc, p, ver, up));
    AppointTag(reg, p, Latest, id);
    reply := Ok(id);
  }

  /** The first loop of a delete: each row of `rows` is destroyed, one by one. */
  method DestroyRows(reg: Registry, rows: set<string>)
    modifies reg
    ensures reg.Snapshot() == old(reg.Snapshot()).(
      versions := map k | k in old(reg.versions) && k !in rows :: old(reg.versions)[k],
      tags := ClearTargets(old(reg.tags), rows))
  {
    ghost var s0 := reg.Snapshot();
    var pending := rows;
    ghost var done: set<string> := {};
    while pending != {}
      invariant pending <= rows && done == rows - pending
      invariant reg.Snapshot() == s0.(versions := map k | k in s0.versions && k !in done :: s0.versions[k],
                                       tags := ClearTargets(s0.tags, done))
      decreases |pending|
    {
      var k :| k in pending;
      ClearTargetsTwice(s0.tags, done, {k});
      reg.DestroyVersion(k);
      pending := pending - {k};
      done := done + {k};
    }
  }

  /** The second loop of a delete: each tag of `victims` is destroyed, one by one. */
  method DestroyTags(reg: Registry, victims: seq<Tag>)
    modifies reg
    ensures reg.Snapshot() == old(reg.Snapshot()).(tags := DropIds(old(reg.tags), set t | t in victims :: t.id))
  {
    ghost var s1 := reg.Snapshot();
    ghost var gone: set<nat> := {};
    DropIdsNone(s1.tags);
    var i := 0;
    while i < |victims|
      invariant 0 <= i <= |victims|
      invariant gone == set t | t in victims[..i] :: t.id
      invariant reg.Snapshot() == s1.(tags := DropIds(s1.tags, gone))
    {
      DropTagDropIds(s1.tags, gone, victims[i].id);
      reg.DestroyTag(victims[i].id);
      assert victims[..i + 1] == victims[..i] + [victims[i]];
      gone := gone + {victims[i].id};
      i := i + 1;
    }
    assert victims[..i] == victims;
  }

  /** `DELETE /package/:name`, lines 83-100 of v1/routes/package.js and 190-207 of v1.js. */
  method DeletePackage(reg: Registry, principal: string, name: string) returns (reply: Reply<()>)
    requires reg.Valid()
    modifies reg
    ensures Step(reg.Snapshot(), reply) == DeleteStep(old(reg.Snapshot()), principal, name)
    ensures reg.Valid()
  {
    DeletePreservesValid(reg.Snapshot(), principal, name);
    var p := Lower(name);
    if p !in reg.packages {
      return Fail(NotFound, "Invalid package");
    }
    if principal !in reg.packages[p].authors {
      return Fail(Forbidden, "Forbidden");
    }
    ghost var s0 := reg.Snapshot();
    var rows := set k | k in reg.versions && reg.versions[k].pkg == p;
    assert rows == RowsOf(s0, p);
    DestroyRows(reg, rows);
    ClearedUnique(s0.tags, rows);
    ghost var s1 := reg.Snapshot();
    var victims := reg.TagsOfPackage(p);
    DestroyTags(reg, victims);
    DropIdsOfPackage(s1.tags, set t | t in victims :: t.id, p);
    reg.DestroyPackage(p);
    reply := Ok(());
  }

  /** The tag loop of an unpublish, over the snapshot `victims` of the package's tags. */
  method SweepTags(reg: Registry, victims: seq<Tag>, ver: string) returns (ok: bool)
    modifies reg
    ensures Sweep(old(reg.Snapshot()), victims, ver) ==
      Step(reg.Snapshot(), if ok then Ok(()) else Fail(Unhandled, "Cannot read property 'version' of null"))
  {
    ghost var s0 := reg.Snapshot();
    var i := 0;
    assert victims[0..] == victims;
    while i < |victims|
      invariant 0 <= i <= |victims|
      invariant Sweep(reg.Snapshot(), victims[i..], ver) == Sweep(s0, victims, ver)
    {
      var t := victims[i];
      assert victims[i..][0] == t && victims[i..][1..] == victims[i + 1..];
      if t.target.None? || t.target.value !in reg.versions {
        return false;
      }
      if reg.versions[t.target.value].version == ver {
        reg.DestroyTag(t.id);
      }
      i := i + 1;
    }
    return true;
  }

  /** What follows the destroy of the row, as written: see `Reelect`. */
  method ElectLatest(reg: Registry, p: string)
    requires forall a, b :: a in reg.versions && b in reg.versions && reg.versions[a].created == reg.versions[b].created ==> a == b
    modifies reg
    ensures reg.Snapshot() == Reelect(old(reg.Snapshot()), p)
  {
    ghost var s2 := reg.Snapshot();
    var remaining := reg.HasVersionsOf(p);
    if !remaining {
      reg.DestroyPackage(p);
    } else {
      var tag := reg.CreateTag(p, Latest);
      var newest := reg.NewestVersion(p);
      MostRecentUnique(s2, p, newest, MostRecent(s2, p));
      reg.SetVersion(tag, newest);
    }
  }

  /** `DELETE /package/:name/:version`, lines 102-130 of v1/routes/package.js and 209-237 of v1.js. */
  method Unpublish(reg: Registry, svc: Services, principal: string, name: string, ver: string) returns (reply: Reply<()>)
    requires reg.Valid()
    modifies reg
    ensures Step(reg.Snapshot(), reply) == UnpublishStep(svc, old(reg.Snapshot()), principal, name, ver)
    ensures reg.Valid()
  {
    ghost var s0 := reg.Snapshot();
    UnpublishPreservesValid(svc, s0, principal, name, ver);
    if !svc.semverValid(ver) {
      return Fail(BadRequest, "Invalid version");
    }
    var p := Lower(name);
    if p !in reg.packages {
      return Fail(NotFound, "Invalid package");
    }
    if principal !in reg.packages[p].authors {
      return Fail(Forbidden, "Forbidden");
    }
    var key := VersionKey(name, ver);
    if !(key in reg.versions && reg.versions[key].pkg == p) {
      return Fail(NotFound, "Invalid version");
    }
    var victims := reg.TagsOfPackage(p);
    var ok := SweepTags(reg, victims, ver);
    if !ok {
      return Fail(Unhandled, "Cannot read property 'version' of null");
    }
    var found := FindVersion(reg.Snapshot(), p, ver);
    if found.None? {
      return Fail(Unhandled, "Cannot read property 'destroy' of undefined");
    }
    reg.DestroyVersion(found.value);
    assert reg.versions.Keys <= s0.versions.Keys;
    assert forall k :: k in reg.versions ==> reg.versions[k] == s0.versions[k];
    ghost var u := reg.Snapshot();
    assert u == Unlink(svc, s0, principal, name, ver).post;
    ElectLatest(reg, p);
    reply := Ok(());
  }

  /** Publishing touches packages, versions and tags only: the accounts are as they were. */
  lemma PublishKeepsUsers(svc: Services, s: Store, principal: string, name: string, up: Upload)
    ensures PublishStep(svc, s, principal, name, up).post.users == s.users
  {
    if PublishStep(svc, s, principal, name, up).reply.Ok? {
      PublishRecords(svc, s, principal, name, up);
    }
  }

  /** Deleting a package leaves the accounts as they were. */
  lemma DeleteKeepsUsers(s: Store, principal: string, name: string)
    ensures DeleteStep(s, principal, name).post.users == s.users
  {
  }

  /** Unpublishing, crashes included, leaves the accounts as they were. */
  lemma UnpublishKeepsUsers(svc: Services, s: Store, principal: string, name: string, ver: string)
    ensures UnpublishStep(svc, s, principal, name, ver).post.users == s.users
  {
    var u := Unlink(svc, s, principal, name, ver);
    if svc.semverValid(ver) && Lower(name) in s.packages && principal in s.packages[Lower(name)].authors
       && Owns(s, Lower(name), VersionKey(name, ver)) {
      var swept := Sweep(s, TagsOf(s.tags, Lower(name)), ver);
      assert swept.post.users == s.users;
    }
    assert u.post.users == s.users;
  }
}

