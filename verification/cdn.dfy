/** The stylesheet handler of v1/routes/cdn.js, for `/:name` and `/:name/:version`. It changes nothing. */
module Cdn {
  import opened Wrappers
  import opened Text
  import opened Schema
  import opened Externals
  import opened Publishing

  /** What the handler sends: a bare 404, the stylesheet, or nothing because it threw. */
  datatype Response = NotFound404 | Css(body: string) | Crash

  /** Where the request leads: nowhere, to a tag without a row, or to a row. */
  datatype Lookup = Missing | Dangling | Row(vid: string)

  /** `req.params.version || 'latest'`: the tag name looked up. */
  function TagWanted(version: Option<string>): string {
    if Present(version) then version.value else Latest
  }

  /**
   * The first tag named `TagWanted(version)` if there is one, else the row with the version
   * string as sent. Neither name is folded. Without a version parameter no row matches.
   */
  function Target(s: Store, p: string, version: Option<string>): (r: Lookup)
    ensures r.Row? ==> r.vid in s.versions
    ensures FirstTag(s.tags, p, TagWanted(version)).Some? ==>
      var t := s.tags[FirstTag(s.tags, p, TagWanted(version)).value];
      r == (if t.target.Some? && t.target.value in s.versions then Row(t.target.value) else Dangling)
    ensures FirstTag(s.tags, p, TagWanted(version)).None? ==>
      r == (if version.Some? && FindVersion(s, p, version.value).Some? then Row(VersionKey(p, version.value)) else Missing)
  {
    match FirstTag(s.tags, p, TagWanted(version))
    case Some(i) =>
      var t := s.tags[i];
      if t.target.Some? && t.target.value in s.versions then Row(t.target.value) else Dangling
    case None =>
      if version.None? then Missing
      else match FindVersion(s, p, version.value)
        case None => Missing
        case Some(vid) => Row(vid)
  }

  /** The body: a one-line banner naming the package and version, a blank line, the payload. */
  function Banner(p: string, version: string, css: string): string {
    "/* " + p + "@" + version + " - Served by diamond CDN */\n\n" + css
  }

  /** `handler`: 404 for an unknown package, for nothing found, and for a row without a payload. */
  function Serve(s: Store, name: string, version: Option<string>): (r: Response)
    ensures Lower(name) !in s.packages ==> r == NotFound404
    ensures r == Crash <==> Lower(name) in s.packages && Target(s, Lower(name), version) == Dangling
    ensures r.Css? <==>
      && Lower(name) in s.packages && Target(s, Lower(name), version).Row?
      && Present(s.versions[Target(s, Lower(name), version).vid].cdn)
    ensures r.Css? ==>
      var v := s.versions[Target(s, Lower(name), version).vid];
      && r.body == Banner(Lower(name), v.version, v.cdn.value)
      && r.body[|r.body| - |v.cdn.value|..] == v.cdn.value
  {
    var p := Lower(name);
    if p !in s.packages then NotFound404
    else match Target(s, p, version)
      case Missing => NotFound404
      case Dangling => Crash
      case Row(vid) =>
        var v := s.versions[vid];
        if !Present(v.cdn) then NotFound404
        else Css(Banner(p, v.version, v.cdn.value))
  }

  /**
   * A tag wins over a row with the same string: when the first tag of that name has a row,
   * that row is served even if another row carries the string as its version.
   */
  lemma TagWins(s: Store, name: string, version: string)
    requires Lower(name) in s.packages && version != ""
    requires var i := FirstTag(s.tags, Lower(name), version);
      (i.Some? && s.tags[i.value].target.Some?
       && s.tags[i.value].target.value in s.versions && Present(s.versions[s.tags[i.value].target.value].cdn))
    ensures var t := s.tags[FirstTag(s.tags, Lower(name), version).value];
      var v := s.versions[t.target.value];
      Serve(s, name, Some(version)) == Css(Banner(Lower(name), v.version, v.cdn.value))
  {
  }

  /**
   * Without a version the package's `latest` is served; on a valid store with no row whose
   * version string is `latest`, that is the same as asking for `latest` by name.
   */
  lemma NoVersionMeansLatest(s: Store, name: string)
    requires VersionsValid(s)
    requires forall id :: id in s.versions ==> s.versions[id].version != Latest
    ensures Serve(s, name, None) == Serve(s, name, Some(Latest))
  {
    var p := Lower(name);
    var key := VersionKey(p, Latest);
    if key in s.versions && s.versions[key].pkg == p {
      VersionKeySplit(p, Latest, s.versions[key].pkg, s.versions[key].version);
    }
  }

  /**
   * A publish stores no stylesheet (the build that fills it in runs later), so right after
   * it `latest` resolves to the new row and the handler answers 404.
   */
  lemma FreshPublishHasNoStylesheet(svc: Services, s: Store, principal: string, name: string, up: Upload)
    requires PublishStep(svc, s, principal, name, up).reply.Ok?
    ensures Serve(PublishStep(svc, s, principal, name, up).post, name, None) == NotFound404
  {
    PublishRecords(svc, s, principal, name, up);
    PublishMakesLatest(svc, s, principal, name, up);
  }
}
