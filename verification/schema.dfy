/**
 * The four tables of db.js (package, version, tag, user, plus the package-author join),
 * the store value that holds them, the single-row operations the handlers perform on
 * them, and the integrity invariant those operations keep.
 */
module Schema {
  import opened Wrappers
  import opened Text
  import opened Externals

  const Latest: string := "latest"
  /** The default of the `readme` column. */
  const NoReadme: string := "No readme!"

  /** The parsed package.json of a publish: the fields the handlers read, and the rest as text. */
  datatype Manifest = Manifest(version: Option<string>, description: Option<string>, json: string)

  /** A package row; `authors` is its part of the UserPackage join table. */
  datatype Package = Package(description: string, authors: set<string>)

  /**
   * A version row, stored under the id `pkg@version`. `cdn` is the stylesheet the
   * post-publish hook writes back; `created` orders rows as `createdAt` does.
   */
  datatype Version = Version(pkg: string, version: string, readme: string, data: Manifest,
                             shasum: string, dist: Bytes, cdn: Option<string>, created: nat)

  /**
   * A tag row. `target` is the version id the tag resolves to. The store keeps that link
   * on the version row (`Tag.hasOne(Version)`), so one version is the target of at most
   * one tag, and a tag whose version was taken or destroyed has no target.
   */
  datatype Tag = Tag(id: nat, pkg: string, name: string, target: Option<string>)

  datatype User = User(username: string, email: string, password: string, verified: bool)

  /** The whole database. `tags` is in store order; `nextTag` and `clock` generate fresh ids and stamps. */
  datatype Store = Store(packages: map<string, Package>, versions: map<string, Version>,
                         tags: seq<Tag>, users: map<string, User>, nextTag: nat, clock: nat)

  /** The restify error classes the v1 handlers answer with; `Unhandled` is a rejected handler, which sends nothing. */
  datatype ErrorKind = BadRequest | Unauthorized | Forbidden | NotFound | Conflict | Internal | Unhandled

  datatype Reply<T> = Ok(value: T) | Fail(kind: ErrorKind, message: string)

  /** The store after a handler ran, and what the handler answered. */
  datatype Step<R> = Step(post: Store, reply: R)

  const EmptyStore: Store := Store(map[], map[], [], map[], 0, 0)

  /** JavaScript truthiness of an optional string parameter. */
  predicate Present(o: Option<string>) {
    o.Some? && o.value != ""
  }

  /** The id of a version row: `${name}@${version}`. */
  function VersionKey(pkg: string, version: string): string {
    pkg + "@" + version
  }

  /** Two ids whose name parts have the same length agree on both parts. */
  lemma VersionKeySplit(a: string, x: string, b: string, y: string)
    requires |a| == |b| && VersionKey(a, x) == VersionKey(b, y)
    ensures a == b && x == y
  {
    assert a == VersionKey(a, x)[..|a|];
    assert b == VersionKey(b, y)[..|b|];
    assert x == VersionKey(a, x)[|a| + 1..];
    assert y == VersionKey(b, y)[|b| + 1..];
  }

  /** `pkg.getVersions({ where: { version } })[0]`, read through the row id. */
  function FindVersion(s: Store, pkg: string, version: string): (r: Option<string>)
    ensures r.Some? ==> r.value in s.versions && s.versions[r.value].pkg == pkg
  {
    var id := VersionKey(pkg, version);
    if id in s.versions && s.versions[id].pkg == pkg then Some(id) else None
  }

  /** `pkg.countVersions() !== 0` */
  ghost predicate HasVersions(s: Store, pkg: string) {
    exists id :: id in s.versions && s.versions[id].pkg == pkg
  }

  predicate IsTagOf(t: Tag, pkg: string, name: string) {
    t.pkg == pkg && t.name == name
  }

  /** `pkg.getTags({ where: { name } })[0]`: the index of the first such row in store order. */
  function FirstTag(tags: seq<Tag>, pkg: string, name: string): (r: Option<nat>)
    ensures r.Some? ==> r.value < |tags| && IsTagOf(tags[r.value], pkg, name)
    ensures r.Some? ==> forall j :: 0 <= j < r.value ==> !IsTagOf(tags[j], pkg, name)
    ensures r.None? ==> forall t :: t in tags ==> !IsTagOf(t, pkg, name)
  {
    if tags == [] then None
    else if IsTagOf(tags[0], pkg, name) then Some(0)
    else match FirstTag(tags[1..], pkg, name)
      case None => None
      case Some(i) => Some(i + 1)
  }

  /** `pkg.getTags()`: the package's tag rows in store order. */
  function TagsOf(tags: seq<Tag>, pkg: string): (r: seq<Tag>)
    ensures forall t :: t in r <==> t in tags && t.pkg == pkg
  {
    if tags == [] then []
    else (if tags[0].pkg == pkg then [tags[0]] else []) + TagsOf(tags[1..], pkg)
  }

  /** `tag.destroy()` */
  function DropTag(tags: seq<Tag>, id: nat): (r: seq<Tag>)
    ensures forall t :: t in r <==> t in tags && t.id != id
    ensures |r| <= |tags|
  {
    if tags == [] then []
    else (if tags[0].id == id then [] else [tags[0]]) + DropTag(tags[1..], id)
  }

  /** The rows a package's deletion leaves reachable. */
  function DropTagsOf(tags: seq<Tag>, pkg: string): (r: seq<Tag>)
    ensures forall t :: t in r <==> t in tags && t.pkg != pkg
  {
    if tags == [] then []
    else (if tags[0].pkg == pkg then [] else [tags[0]]) + DropTagsOf(tags[1..], pkg)
  }

  /** The rows left after the tags with the given ids were destroyed one by one. */
  function DropIds(tags: seq<Tag>, ids: set<nat>): (r: seq<Tag>)
    ensures forall t :: t in r <==> t in tags && t.id !in ids
  {
    if tags == [] then []
    else (if tags[0].id in ids then [] else [tags[0]]) + DropIds(tags[1..], ids)
  }

  /** Destroying no tags leaves the table as it was. */
  lemma {:induction false} DropIdsNone(tags: seq<Tag>)
    ensures DropIds(tags, {}) == tags
  {
    if tags != [] {
      DropIdsNone(tags[1..]);
      assert tags == [tags[0]] + tags[1..];
    }
  }

  /** Destroying one more tag extends the set of destroyed ids. */
  lemma {:induction false} DropTagDropIds(tags: seq<Tag>, ids: set<nat>, id: nat)
    ensures DropTag(DropIds(tags, ids), id) == DropIds(tags, ids + {id})
  {
    if tags != [] {
      DropTagDropIds(tags[1..], ids, id);
      var rest := DropIds(tags[1..], ids);
      if tags[0].id !in ids {
        var l := [tags[0]] + rest;
        assert DropIds(tags, ids) == l;
        assert l[0] == tags[0] && l[1..] == rest;
        assert DropTag(l, id) == (if tags[0].id == id then [] else [tags[0]]) + DropTag(rest, id);
      } else {
        assert DropIds(tags, ids) == rest;
      }
      assert DropIds(tags, ids + {id}) ==
        (if tags[0].id in ids + {id} then [] else [tags[0]]) + DropIds(tags[1..], ids + {id});
    }
  }

  /** When the destroyed ids are exactly those of a package's rows, what is left is the other packages' rows. */
  lemma {:induction false} DropIdsOfPackage(tags: seq<Tag>, ids: set<nat>, pkg: string)
    requires forall t :: t in tags ==> (t.id in ids <==> t.pkg == pkg)
    ensures DropIds(tags, ids) == DropTagsOf(tags, pkg)
  {
    if tags != [] {
      assert tags[0] in tags;
      assert forall t :: t in tags[1..] ==> t in tags;
      DropIdsOfPackage(tags[1..], ids, pkg);
    }
  }

  /** One row after `setVersion(vid)` on the tag `id`: the target moves, and leaves any other tag. */
  function Aimed(t: Tag, id: nat, vid: string): Tag {
    if t.id == id then t.(target := Some(vid))
    else if t.target == Some(vid) then t.(target := None)
    else t
  }

  function Retarget(tags: seq<Tag>, id: nat, vid: string): seq<Tag> {
    seq(|tags|, i requires 0 <= i < |tags| => Aimed(tags[i], id, vid))
  }

  /** One row after the versions in `vids` were destroyed: a link to them is gone. */
  function Cleared(t: Tag, vids: set<string>): Tag {
    if t.target.Some? && t.target.value in vids then t.(target := None) else t
  }

  function ClearTargets(tags: seq<Tag>, vids: set<string>): seq<Tag> {
    seq(|tags|, i requires 0 <= i < |tags| => Cleared(tags[i], vids))
  }

  /** Destroying a row no tag points at leaves the tag table as it was. */
  lemma ClearTargetsNone(tags: seq<Tag>, vid: string)
    requires forall t :: t in tags ==> t.target != Some(vid)
    ensures ClearTargets(tags, {vid}) == tags
  {
    var c := ClearTargets(tags, {vid});
    forall i | 0 <= i < |tags| ensures c[i] == tags[i] {
      assert tags[i] in tags;
    }
  }

  /** Destroying versions in two rounds clears the same links as destroying them at once. */
  lemma ClearTargetsTwice(tags: seq<Tag>, a: set<string>, b: set<string>)
    ensures ClearTargets(ClearTargets(tags, a), b) == ClearTargets(tags, a + b)
  {
    var l := ClearTargets(ClearTargets(tags, a), b);
    var r := ClearTargets(tags, a + b);
    assert |l| == |r|;
    forall i | 0 <= i < |l| ensures l[i] == r[i] {
    }
  }

  /** Two tables whose rows agree on package and name have the same first row of each name. */
  lemma FirstTagSameNames(a: seq<Tag>, b: seq<Tag>, pkg: string, name: string)
    requires |a| == |b|
    requires forall j :: 0 <= j < |a| ==> (IsTagOf(a[j], pkg, name) <==> IsTagOf(b[j], pkg, name))
    ensures FirstTag(a, pkg, name) == FirstTag(b, pkg, name)
  {
  }

  // Single-row operations on the store, one per Sequelize call the handlers make.

  /** `Package.create` followed by `addAuthor` of its publisher. */
  function WithPackage(s: Store, name: string, description: string, author: string): Store {
    s.(packages := s.packages[name := Package(description, {author})])
  }

  function WithAuthor(s: Store, name: string, user: string): Store
    requires name in s.packages
  {
    s.(packages := s.packages[name := s.packages[name].(authors := s.packages[name].authors + {user})])
  }

  function WithoutAuthor(s: Store, name: string, user: string): Store
    requires name in s.packages
  {
    s.(packages := s.packages[name := s.packages[name].(authors := s.packages[name].authors - {user})])
  }

  /** `Version.create`; the row is stamped with the store's clock. */
  function WithVersion(s: Store, id: string, v: Version): Store {
    s.(versions := s.versions[id := v.(created := s.clock)], clock := s.clock + 1)
  }

  /** `Tag.create` + `pkg.addTag`, or `pkg.createTag`: a new row with no target, at the end. */
  function WithTag(s: Store, pkg: string, name: string): Store {
    s.(tags := s.tags + [Tag(s.nextTag, pkg, name, None)], nextTag := s.nextTag + 1)
  }

  /** `tag.setVersion(version)` */
  function WithTarget(s: Store, id: nat, vid: string): Store {
    s.(tags := Retarget(s.tags, id, vid))
  }

  function WithoutTag(s: Store, id: nat): Store {
    s.(tags := DropTag(s.tags, id))
  }

  /** `version.destroy()`: the row and the link a tag had to it disappear. */
  function WithoutVersion(s: Store, vid: string): Store {
    s.(versions := s.versions - {vid}, tags := ClearTargets(s.tags, {vid}))
  }

  /**
   * `pkg.destroy()`: the row and its author links go; tag rows still naming it lose
   * their package and can no longer be reached, so they are dropped.
   */
  function WithoutPackage(s: Store, pkg: string): Store {
    s.(packages := s.packages - {pkg}, tags := DropTagsOf(s.tags, pkg))
  }

  function WithUser(s: Store, u: User): Store {
    s.(users := s.users[u.username := u])
  }

  // The integrity the handlers keep.

  ghost predicate VersionsValid(s: Store) {
    && (forall id :: id in s.versions ==> s.versions[id].pkg in s.packages)
    && (forall id :: id in s.versions ==> id == VersionKey(s.versions[id].pkg, s.versions[id].version))
    && (forall id :: id in s.versions ==> s.versions[id].created < s.clock)
    && (forall a, b :: a in s.versions && b in s.versions && s.versions[a].created == s.versions[b].created ==> a == b)
  }

  /** A package exists only while it has a version, and its authors are users. */
  ghost predicate PackagesValid(s: Store) {
    forall p :: p in s.packages ==> HasVersions(s, p) && s.packages[p].authors <= s.users.Keys
  }

  /** Tag rows have distinct ids. */
  ghost predicate UniqueIds(tags: seq<Tag>) {
    forall t, u :: t in tags && u in tags && t.id == u.id ==> t == u
  }

  /** `Tag.hasOne(Version)`: a version row is the target of at most one tag. */
  ghost predicate UniqueTargets(tags: seq<Tag>) {
    forall t, u :: t in tags && u in tags && t.target.Some? && t.target == u.target ==> t == u
  }

  /** Every tag belongs to a live package, and its target is a live row of that package. */
  ghost predicate TagsLinked(s: Store) {
    && (forall t :: t in s.tags ==> t.id < s.nextTag && t.pkg in s.packages)
    && (forall t :: t in s.tags && t.target.Some? ==>
          t.target.value in s.versions && s.versions[t.target.value].pkg == t.pkg)
  }

  ghost predicate TagsValid(s: Store) {
    TagsLinked(s) && UniqueIds(s.tags) && UniqueTargets(s.tags)
  }

  /** Users are keyed by their lower-cased name. */
  ghost predicate UsersValid(s: Store) {
    forall u :: u in s.users ==> s.users[u].username == u && IsLower(u)
  }

  ghost predicate Valid(s: Store) {
    VersionsValid(s) && PackagesValid(s) && TagsValid(s) && UsersValid(s)
  }

  /**
   * No stored account is verified. `db.js` declares no `verified` column, so the flag reads as
   * undefined on every row; register stores it unset and no handler sets it.
   */
  ghost predicate NoneVerified(users: map<string, User>) {
    forall u :: u in users ==> !users[u].verified
  }

  lemma EmptyStoreValid()
    ensures Valid(EmptyStore)
  {
  }

  /**
   * In a valid store the row found through its id is exactly the package's row with
   * that version string, and no such row exists when none is found.
   */
  lemma FindVersionExact(s: Store, pkg: string, version: string)
    requires Valid(s)
    ensures FindVersion(s, pkg, version).Some? ==> s.versions[FindVersion(s, pkg, version).value].version == version
    ensures FindVersion(s, pkg, version).None? ==>
      forall id :: id in s.versions && s.versions[id].pkg == pkg ==> s.versions[id].version != version
  {
    var key := VersionKey(pkg, version);
    if key in s.versions && s.versions[key].pkg == pkg {
      VersionKeySplit(pkg, s.versions[key].version, pkg, version);
    }
  }

  /** The rows of a package, and the stamp order that picks the most recent one. */
  ghost predicate IsMostRecent(s: Store, pkg: string, id: string) {
    && id in s.versions && s.versions[id].pkg == pkg
    && forall k :: k in s.versions && s.versions[k].pkg == pkg ==> s.versions[k].created <= s.versions[id].created
  }

  lemma {:induction false} MostRecentAmong(s: Store, pkg: string, ks: set<string>)
    requires ks <= s.versions.Keys && ks != {}
    requires forall k :: k in ks ==> s.versions[k].pkg == pkg
    ensures exists id :: id in ks && forall k :: k in ks ==> s.versions[k].created <= s.versions[id].created
  {
    var x :| x in ks;
    if ks != {x} {
      MostRecentAmong(s, pkg, ks - {x});
      var y :| y in ks - {x} && forall k :: k in ks - {x} ==> s.versions[k].created <= s.versions[y].created;
      if s.versions[x].created <= s.versions[y].created {
        assert forall k :: k in ks ==> s.versions[k].created <= s.versions[y].created;
      } else {
        assert forall k :: k in ks ==> s.versions[k].created <= s.versions[x].created;
      }
    }
  }

  lemma MostRecentExists(s: Store, pkg: string)
    requires HasVersions(s, pkg)
    ensures exists id :: IsMostRecent(s, pkg, id)
  {
    var ks := set k | k in s.versions && s.versions[k].pkg == pkg;
    var w :| w in s.versions && s.versions[w].pkg == pkg;
    assert w in ks;
    MostRecentAmong(s, pkg, ks);
    var id :| id in ks && forall k :: k in ks ==> s.versions[k].created <= s.versions[id].created;
    assert IsMostRecent(s, pkg, id);
  }

  /** With distinct stamps the most recent row is unique. */
  lemma MostRecentUnique(s: Store, pkg: string, a: string, b: string)
    requires forall x, y :: x in s.versions && y in s.versions && s.versions[x].created == s.versions[y].created ==> x == y
    requires IsMostRecent(s, pkg, a) && IsMostRecent(s, pkg, b)
    ensures a == b
  {
  }

  /** `Version.findOne({ order: [['createdAt', 'DESC']], where: { package } })` */
  ghost function MostRecent(s: Store, pkg: string): (id: string)
    requires HasVersions(s, pkg)
    ensures IsMostRecent(s, pkg, id)
  {
    MostRecentExists(s, pkg);
    var id :| IsMostRecent(s, pkg, id);
    id
  }

  // Each single-row operation keeps the invariant under the conditions the handlers establish.

  lemma RetargetMembers(tags: seq<Tag>, id: nat, vid: string)
    ensures forall u :: u in Retarget(tags, id, vid) ==> exists t :: t in tags && u == Aimed(t, id, vid)
    ensures forall t :: t in tags ==> Aimed(t, id, vid) in Retarget(tags, id, vid)
  {
    var r := Retarget(tags, id, vid);
    forall u | u in r ensures exists t :: t in tags && u == Aimed(t, id, vid) {
      var i :| 0 <= i < |r| && r[i] == u;
      assert tags[i] in tags;
    }
    forall t | t in tags ensures Aimed(t, id, vid) in r {
      var i :| 0 <= i < |tags| && tags[i] == t;
      assert r[i] == Aimed(t, id, vid);
    }
  }

  lemma ClearTargetsMembers(tags: seq<Tag>, vids: set<string>)
    ensures forall u :: u in ClearTargets(tags, vids) ==> exists t :: t in tags && u == Cleared(t, vids)
    ensures forall t :: t in tags ==> Cleared(t, vids) in ClearTargets(tags, vids)
  {
    var r := ClearTargets(tags, vids);
    forall u | u in r ensures exists t :: t in tags && u == Cleared(t, vids) {
      var i :| 0 <= i < |r| && r[i] == u;
      assert tags[i] in tags;
    }
    forall t | t in tags ensures Cleared(t, vids) in r {
      var i :| 0 <= i < |tags| && tags[i] == t;
      assert r[i] == Cleared(t, vids);
    }
  }

  /** Removing tag rows, or only clearing their targets, keeps the invariant. */
  lemma FewerTagsValid(s: Store, tags: seq<Tag>)
    requires Valid(s)
    requires forall t :: t in tags ==> t in s.tags
    ensures Valid(s.(tags := tags))
  {
    var r := s.(tags := tags);
    TagsOnlyValid(s, r);
    assert TagsValid(r);
  }

  /** A new tag row has a fresh id and no target, so the tag table stays valid. */
  lemma WithTagTagsValid(s: Store, pkg: string, name: string)
    requires TagsValid(s) && pkg in s.packages
    ensures TagsValid(WithTag(s, pkg, name))
  {
    var r := WithTag(s, pkg, name);
    var nt := Tag(s.nextTag, pkg, name, None);
    assert forall t :: t in r.tags <==> t in s.tags || t == nt;
  }

  lemma WithTagValid(s: Store, pkg: string, name: string)
    requires Valid(s) && pkg in s.packages
    ensures Valid(WithTag(s, pkg, name))
  {
    TagsOnlyValid(s, WithTag(s, pkg, name));
    WithTagTagsValid(s, pkg, name);
  }

  lemma RetargetUnique(tags: seq<Tag>, id: nat, vid: string)
    requires UniqueIds(tags) && UniqueTargets(tags)
    ensures UniqueIds(Retarget(tags, id, vid)) && UniqueTargets(Retarget(tags, id, vid))
  {
    var r := Retarget(tags, id, vid);
    RetargetMembers(tags, id, vid);
    forall u, w | u in r && w in r && u.id == w.id
      ensures u == w
    {
      var t :| t in tags && u == Aimed(t, id, vid);
      var t' :| t' in tags && w == Aimed(t', id, vid);
    }
    forall u, w | u in r && w in r && u.target.Some? && u.target == w.target
      ensures u == w
    {
      var t :| t in tags && u == Aimed(t, id, vid);
      var t' :| t' in tags && w == Aimed(t', id, vid);
      if u.target != Some(vid) {
        assert t.target == u.target && t'.target == w.target;
      }
    }
  }

  /** Repointing a tag at a row of its own package keeps every tag linked to a live row of its package. */
  lemma RetargetLinked(s: Store, tag: Tag, vid: string)
    requires TagsLinked(s) && UniqueIds(s.tags) && tag in s.tags
    requires vid in s.versions && s.versions[vid].pkg == tag.pkg
    ensures TagsLinked(s.(tags := Retarget(s.tags, tag.id, vid)))
  {
    var r := s.(tags := Retarget(s.tags, tag.id, vid));
    RetargetMembers(s.tags, tag.id, vid);
    forall u | u in r.tags
      ensures u.id < r.nextTag && u.pkg in r.packages
      ensures u.target.Some? ==> u.target.value in r.versions && r.versions[u.target.value].pkg == u.pkg
    {
      var t :| t in s.tags && u == Aimed(t, tag.id, vid);
      if t.id == tag.id {
        assert t == tag;
      }
    }
  }

  /** `setVersion` to a version of the tag's own package keeps every target live and unshared. */
  lemma WithTargetValid(s: Store, tag: Tag, vid: string)
    requires Valid(s) && tag in s.tags
    requires vid in s.versions && s.versions[vid].pkg == tag.pkg
    ensures Valid(WithTarget(s, tag.id, vid))
  {
    TagsOnlyValid(s, WithTarget(s, tag.id, vid));
    RetargetUnique(s.tags, tag.id, vid);
    RetargetLinked(s, tag, vid);
  }

  /** A change to the tag table alone keeps the invariants of the other tables. */
  lemma TagsOnlyValid(s: Store, r: Store)
    requires VersionsValid(s) && PackagesValid(s) && UsersValid(s)
    requires r.packages == s.packages && r.versions == s.versions && r.users == s.users && r.clock == s.clock
    ensures VersionsValid(r) && PackagesValid(r) && UsersValid(r)
  {
    forall p | p in r.packages ensures HasVersions(r, p) {
      assert HasVersions(s, p);
    }
  }

  /** New version rows and packages, with the old rows unchanged, keep every tag linked. */
  lemma MoreRowsTagsValid(s: Store, r: Store)
    requires TagsValid(s)
    requires r.tags == s.tags && r.nextTag == s.nextTag && s.packages.Keys <= r.packages.Keys
    requires forall k :: k in s.versions ==> k in r.versions && r.versions[k] == s.versions[k]
    ensures TagsValid(r)
  {
  }

  lemma MorePackagesVersionsValid(s: Store, r: Store)
    requires VersionsValid(s)
    requires r.versions == s.versions && r.clock == s.clock && s.packages.Keys <= r.packages.Keys
    ensures VersionsValid(r)
  {
  }

  lemma WithVersionVersionsValid(s: Store, id: string, v: Version)
    requires VersionsValid(s) && v.pkg in s.packages
    requires id == VersionKey(v.pkg, v.version) && id !in s.versions
    ensures VersionsValid(WithVersion(s, id, v))
  {
  }

  lemma WithVersionPackagesValid(s: Store, id: string, v: Version)
    requires PackagesValid(s) && id !in s.versions
    ensures PackagesValid(WithVersion(s, id, v))
  {
    var r := WithVersion(s, id, v);
    forall p | p in r.packages ensures HasVersions(r, p) {
      var w :| w in s.versions && s.versions[w].pkg == p;
      assert r.versions[w] == s.versions[w];
    }
  }

  /** A new row `pkg@version` of an existing package keeps the invariant. */
  lemma WithVersionValid(s: Store, id: string, v: Version)
    requires Valid(s) && v.pkg in s.packages
    requires id == VersionKey(v.pkg, v.version) && id !in s.versions
    ensures Valid(WithVersion(s, id, v))
  {
    WithVersionVersionsValid(s, id, v);
    WithVersionPackagesValid(s, id, v);
    MoreRowsTagsValid(s, WithVersion(s, id, v));
  }

  lemma FirstVersionPackagesValid(s: Store, pkg: string, description: string, author: string, id: string, v: Version)
    requires PackagesValid(s) && author in s.users
    requires v.pkg == pkg && id !in s.versions
    ensures PackagesValid(WithVersion(WithPackage(s, pkg, description, author), id, v))
  {
    var r := WithVersion(WithPackage(s, pkg, description, author), id, v);
    forall p | p in r.packages ensures HasVersions(r, p) && r.packages[p].authors <= r.users.Keys {
      if p == pkg {
        assert r.versions[id].pkg == pkg;
      } else {
        var w :| w in s.versions && s.versions[w].pkg == p;
        assert r.versions[w] == s.versions[w];
      }
    }
  }

  /** The first row of a new package, created together with the package by its publisher. */
  lemma FirstVersionValid(s: Store, pkg: string, description: string, author: string, id: string, v: Version)
    requires Valid(s) && pkg !in s.packages && author in s.users
    requires v.pkg == pkg && id == VersionKey(pkg, v.version) && id !in s.versions
    ensures Valid(WithVersion(WithPackage(s, pkg, description, author), id, v))
  {
    var m := WithPackage(s, pkg, description, author);
    MorePackagesVersionsValid(s, m);
    WithVersionVersionsValid(m, id, v);
    FirstVersionPackagesValid(s, pkg, description, author, id, v);
    MoreRowsTagsValid(s, m);
    MoreRowsTagsValid(m, WithVersion(m, id, v));
  }

  lemma FewerUnique(tags: seq<Tag>, rest: seq<Tag>)
    requires UniqueIds(tags) && UniqueTargets(tags)
    requires forall t :: t in rest ==> t in tags
    ensures UniqueIds(rest) && UniqueTargets(rest)
  {
  }

  lemma ClearedUnique(tags: seq<Tag>, vids: set<string>)
    requires UniqueIds(tags) && UniqueTargets(tags)
    ensures UniqueIds(ClearTargets(tags, vids)) && UniqueTargets(ClearTargets(tags, vids))
  {
    var r := ClearTargets(tags, vids);
    ClearTargetsMembers(tags, vids);
    forall u, w | u in r && w in r && u.id == w.id
      ensures u == w
    {
      var t :| t in tags && u == Cleared(t, vids);
      var t' :| t' in tags && w == Cleared(t', vids);
    }
    forall u, w | u in r && w in r && u.target.Some? && u.target == w.target
      ensures u == w
    {
      var t :| t in tags && u == Cleared(t, vids);
      var t' :| t' in tags && w == Cleared(t', vids);
    }
  }

  /** Clearing the targets into destroyed rows leaves every remaining target live. */
  lemma ClearedLinked(s: Store, vid: string)
    requires TagsLinked(s)
    ensures TagsLinked(WithoutVersion(s, vid))
  {
    var r := WithoutVersion(s, vid);
    ClearTargetsMembers(s.tags, {vid});
    forall u | u in r.tags
      ensures u.id < r.nextTag && u.pkg in r.packages
      ensures u.target.Some? ==> u.target.value in r.versions && r.versions[u.target.value].pkg == u.pkg
    {
      var t :| t in s.tags && u == Cleared(t, {vid});
    }
  }

  lemma WithoutVersionPackagesValid(s: Store, vid: string)
    requires PackagesValid(s) && vid in s.versions
    requires HasVersions(WithoutVersion(s, vid), s.versions[vid].pkg)
    ensures PackagesValid(WithoutVersion(s, vid))
  {
    var r := WithoutVersion(s, vid);
    forall p | p in r.packages ensures HasVersions(r, p) {
      if p != s.versions[vid].pkg {
        var w :| w in s.versions && s.versions[w].pkg == p;
        assert w in r.versions;
      }
    }
  }

  /** Destroying a row that is not its package's last keeps the invariant. */
  lemma WithoutVersionValid(s: Store, vid: string)
    requires Valid(s) && vid in s.versions
    requires HasVersions(WithoutVersion(s, vid), s.versions[vid].pkg)
    ensures Valid(WithoutVersion(s, vid))
  {
    WithoutVersionPackagesValid(s, vid);
    assert VersionsValid(WithoutVersion(s, vid));
    ClearedUnique(s.tags, {vid});
    ClearedLinked(s, vid);
  }

  /** Destroying a package with no rows left, in a store valid everywhere else. */
  lemma WithoutPackageValid(m: Store, p: string)
    requires VersionsValid(m) && TagsValid(m) && UsersValid(m) && !HasVersions(m, p)
    requires forall q :: q in m.packages && q != p ==> HasVersions(m, q) && m.packages[q].authors <= m.users.Keys
    ensures Valid(WithoutPackage(m, p))
  {
    var r := WithoutPackage(m, p);
    assert VersionsValid(r);
    assert PackagesValid(r) by {
      forall q | q in r.packages ensures HasVersions(r, q) && r.packages[q].authors <= r.users.Keys {
        assert HasVersions(m, q);
      }
    }
    FewerUnique(m.tags, r.tags);
    assert TagsLinked(r);
  }

  /** Destroying a package's last row and then the package keeps the invariant. */
  lemma WithoutLastVersionValid(s: Store, vid: string)
    requires Valid(s) && vid in s.versions
    requires !HasVersions(WithoutVersion(s, vid), s.versions[vid].pkg)
    ensures Valid(WithoutPackage(WithoutVersion(s, vid), s.versions[vid].pkg))
  {
    var p := s.versions[vid].pkg;
    var m := WithoutVersion(s, vid);
    assert VersionsValid(m);
    forall q | q in m.packages && q != p
      ensures HasVersions(m, q) && m.packages[q].authors <= m.users.Keys
    {
      var w :| w in s.versions && s.versions[w].pkg == q;
      assert w in m.versions;
    }
    ClearedUnique(s.tags, {vid});
    ClearedLinked(s, vid);
    WithoutPackageValid(m, p);
  }

  lemma WithAuthorValid(s: Store, name: string, user: string)
    requires Valid(s) && name in s.packages && user in s.users
    ensures Valid(WithAuthor(s, name, user))
  {
    var r := WithAuthor(s, name, user);
    assert VersionsValid(r);
    assert PackagesValid(r) by {
      forall p | p in r.packages ensures HasVersions(r, p) && r.packages[p].authors <= r.users.Keys {
        assert HasVersions(s, p);
      }
    }
    assert TagsValid(r);
  }

  lemma WithoutAuthorValid(s: Store, name: string, user: string)
    requires Valid(s) && name in s.packages
    ensures Valid(WithoutAuthor(s, name, user))
  {
    var r := WithoutAuthor(s, name, user);
    assert VersionsValid(r);
    assert PackagesValid(r) by {
      forall p | p in r.packages ensures HasVersions(r, p) && r.packages[p].authors <= r.users.Keys {
        assert HasVersions(s, p);
      }
    }
    assert TagsValid(r);
  }

  lemma WithUserValid(s: Store, u: User)
    requires Valid(s) && u.username !in s.users && IsLower(u.username)
    ensures Valid(WithUser(s, u))
  {
    var r := WithUser(s, u);
    assert VersionsValid(r);
    assert PackagesValid(r) by {
      forall p | p in r.packages ensures HasVersions(r, p) && r.packages[p].authors <= r.users.Keys {
        assert HasVersions(s, p);
      }
    }
    assert TagsValid(r);
  }
}
