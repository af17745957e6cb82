/**
 * The database the handlers share, as an object whose tables they update in place.
 * Each method is one Sequelize call on one row; its new state is the matching
 * single-row operation of `Schema` applied to the old state.
 */
module Database {
  import opened Wrappers
  import opened Schema

  class Registry {
    var packages: map<string, Package>
    var versions: map<string, Version>
    var tags: seq<Tag>
    var users: map<string, User>
    var nextTag: nat
    var clock: nat

    /** The tables as one value. */
    function Snapshot(): Store
      reads this
    {
      Store(packages, versions, tags, users, nextTag, clock)
    }

    ghost predicate Valid()
      reads this
    {
      Schema.Valid(Snapshot())
    }

    /** `db.sync()` on an empty database. */
    constructor ()
      ensures Snapshot() == EmptyStore && Valid()
    {
      packages, versions, tags, users := map[], map[], [], map[];
      nextTag, clock := 0, 0;
    }

    method CreatePackage(name: string, description: string, author: string)
      modifies this
      ensures Snapshot() == WithPackage(old(Snapshot()), name, description, author)
    {
      packages := packages[name := Package(description, {author})];
    }

    /** `pkg.addAuthor(user)` together with `user.addPackage(pkg)`: both write the same join row. */
    method AddAuthor(name: string, user: string)
      requires name in packages
      modifies this
      ensures Snapshot() == WithAuthor(old(Snapshot()), name, user)
    {
      packages := packages[name := packages[name].(authors := packages[name].authors + {user})];
    }

    /** `pkg.removeAuthor(user)` together with `user.removePackage(pkg)`. */
    method RemoveAuthor(name: string, user: string)
      requires name in packages
      modifies this
      ensures Snapshot() == WithoutAuthor(old(Snapshot()), name, user)
    {
      packages := packages[name := packages[name].(authors := packages[name].authors - {user})];
    }

    /** `Version.create(...)` followed by `pkg.addVersion(version)`. */
    method CreateVersion(id: string, v: Version)
      modifies this
      ensures Snapshot() == WithVersion(old(Snapshot()), id, v)
    {
      versions := versions[id := v.(created := clock)];
      clock := clock + 1;
    }

    method CreateTag(pkg: string, name: string) returns (id: nat)
      modifies this
      ensures id == old(nextTag)
      ensures Snapshot() == WithTag(old(Snapshot()), pkg, name)
    {
      id := nextTag;
      tags := tags + [Tag(id, pkg, name, None)];
      nextTag := nextTag + 1;
    }

    method SetVersion(id: nat, vid: string)
      modifies this
      ensures Snapshot() == WithTarget(old(Snapshot()), id, vid)
    {
      tags := Retarget(tags, id, vid);
    }

    method DestroyTag(id: nat)
      modifies this
      ensures Snapshot() == WithoutTag(old(Snapshot()), id)
    {
      tags := DropTag(tags, id);
    }

    method DestroyVersion(vid: string)
      modifies this
      ensures Snapshot() == WithoutVersion(old(Snapshot()), vid)
    {
      versions := versions - {vid};
      tags := ClearTargets(tags, {vid});
    }

    method DestroyPackage(pkg: string)
      modifies this
      ensures Snapshot() == WithoutPackage(old(Snapshot()), pkg)
    {
      packages := packages - {pkg};
      tags := DropTagsOf(tags, pkg);
    }

    method CreateUser(u: User)
      modifies this
      ensures Snapshot() == WithUser(old(Snapshot()), u)
    {
      users := users[u.username := u];
    }

    /** `pkg.getTags({ where: { name } })[0]`, as a scan of the tag table in store order. */
    method FindTag(pkg: string, name: string) returns (r: Option<nat>)
      ensures r == FirstTag(tags, pkg, name)
    {
      var i := 0;
      while i < |tags| && !IsTagOf(tags[i], pkg, name)
        invariant 0 <= i <= |tags|
        invariant forall j :: 0 <= j < i ==> !IsTagOf(tags[j], pkg, name)
      {
        i := i + 1;
      }
      r := if i < |tags| then Some(i) else None;
    }

    /** `pkg.getTags()`: the package's rows, in store order. */
    method TagsOfPackage(pkg: string) returns (r: seq<Tag>)
      ensures r == TagsOf(tags, pkg)
    {
      var rows := tags;
      r := [];
      var i := 0;
      assert rows[0..] == rows;
      while i < |rows|
        invariant 0 <= i <= |rows|
        invariant TagsOf(rows, pkg) == r + TagsOf(rows[i..], pkg)
      {
        var rest := rows[i..];
        assert rest[1..] == rows[i + 1..];
        assert TagsOf(rest, pkg) == (if rows[i].pkg == pkg then [rows[i]] else []) + TagsOf(rows[i + 1..], pkg);
        if rows[i].pkg == pkg {
          r := r + [rows[i]];
        }
        i := i + 1;
      }
    }

    /** `pkg.countVersions() !== 0` */
    method HasVersionsOf(pkg: string) returns (b: bool)
      ensures b <==> HasVersions(Snapshot(), pkg)
    {
      var rows := set k | k in versions && versions[k].pkg == pkg;
      b := |rows| != 0;
      if HasVersions(Snapshot(), pkg) {
        var w :| w in versions && versions[w].pkg == pkg;
        assert w in rows;
      }
    }

    /**
     * `Version.findOne({ order: [['createdAt', 'DESC']], where: { package } })`, as a scan of
     * the package's rows that keeps the latest stamp seen.
     */
    method NewestVersion(pkg: string) returns (id: string)
      requires HasVersions(Snapshot(), pkg)
      ensures IsMostRecent(Snapshot(), pkg, id)
    {
      var rows := set k | k in versions && versions[k].pkg == pkg;
      ghost var w :| w in versions && versions[w].pkg == pkg;
      assert w in rows;
      id :| id in rows;
      var pending := rows - {id};
      while pending != {}
        invariant pending <= rows
        invariant id in versions && versions[id].pkg == pkg
        invariant forall k :: k in rows && k !in pending ==> versions[k].created <= versions[id].created
        decreases |pending|
      {
        var k :| k in pending;
        if versions[k].created > versions[id].created {
          id := k;
        }
        pending := pending - {k};
      }
    }
  }
}
