# diamond registry — a Dafny model of its package, version, tag and author state machine

The diamond registry stores packages, their published versions, named tags and the user
accounts that author them. It offers a REST interface and a GraphQL interface. Every handler
reads a few rows, walks a ladder of checks whose failures come in a fixed order, and then
creates, repoints or destroys rows. Publishing and unpublishing are meant to keep a `latest`
tag pointing at a live version.

This project models those handlers as transactions on the four tables, and proves what each
handler promises.

- `Schema` (`schema.dfy`) holds the rows of `db.js` and the store as a value (`Store`).
  - Tags are kept in a sequence in insertion order. `getTags({ where })[0]` then means "the
    first matching row" (`FirstTag`).
  - `Tag.hasOne(Version)` puts the foreign key on the version row, so a version is the target
    of at most one tag. `setVersion` therefore takes the version away from any other tag
    (`Retarget`).
  - `Schema.Valid` is the integrity the handlers keep. A package lives only while it has a
    version. Version ids are `lower(name)@version`. Tag ids are unique, and every tag target
    is a live version of the tag's own package. Users are keyed by their lower-cased name.
- `Database` (`database.dfy`) is the same store as an object (`Registry`) whose fields the
  handlers update in place. It has one method per Sequelize call the handlers make.
- `Publishing` models the publish, delete-package and unpublish handlers. `v1.js` and
  `v1/routes/package.js` share these, since the two files carry the same code for them.
- `PackageRoutes`, `UserRoutes`, `LiveRouter`, `GraphQL`, `Cdn` and `Search` model the rest of
  the REST and GraphQL handlers. `BasicAuth` and `TokenAuth` model the two credential checks.
- `index.js` mounts `require('./v1')`, which resolves to the file `v1.js` rather than the
  directory `v1/`. So `v1.js` (`LiveRouter`) holds the handlers that are actually served. The
  handlers under `v1/routes/` are modelled as well, each in its own module.
- Each handler is a pure `…Step` function from the old store to the new store and a reply.
  - The step function's `ensures` lists the handler's error ladder, one `<==>` per rung.
  - A `method` of the same name carries out the handler on a `Registry`, one table call at a
    time. Its `ensures` ties the new state and the reply to the step function.
  - Lemmas state what the step achieves: the new `latest`, the rows removed, and that
    `Schema.Valid` is kept.
- Errors:
  - restify errors are `Fail(kind, message)`.
  - A thrown TypeError (a handler that reads through `null`, or a `notNull` violation) is
    `Fail(Unhandled, …)`: the request gets no answer the handler chose.
  - GraphQL rejections are `Promises.Answer.Rejected`, with the `Error` message as the reason.
    A rejection coming from a library is `LibraryError`.
- `semver.valid`, sha256, bcrypt and jsonwebtoken are function-valued fields of
  `Externals.Services`, on which nothing is assumed.

Where the registry's design description and the code disagree, the model follows the code:

- The live BasicStrategy (`v1.js`) does not check the `verified` flag.
- `db.js` has no `verified` column and no verification token. A new account is stored
  unverified, and no handler can verify it. Every handler either keeps the accounts or adds an
  unverified one, so no reachable store holds a verified account (`Schema.NoneVerified`).
  Then `v1/auth.js`, the GraphQL `auth(req)` and `login` admit nobody, and every GraphQL
  mutation is refused. Only the live BasicStrategy of `v1.js` lets a user in.
- Unpublish always appends a new `latest`, instead of re-electing only when the removed
  version was the target of `latest`.
- The CDN payload column does not exist in `db.js`. Rows are modelled with an optional `cdn`
  field, and no handler sets it.

## Model

| member | source | states |
|---|---|---|
| `Database.Registry.constructor` | db.js:22-104 | a synced empty database satisfies every table invariant |
| `Database.Registry.CreateVersion` | db.js:34-65 | `Version.create` stamps the row with the next creation time; nothing else changes |
| `Database.Registry.CreatePackage` | v1/routes/package.js:51-57 | `Package.create` followed by `addAuthor` adds the package with its description and the publisher as its only author; nothing else changes |
| `Database.Registry.AddAuthor` | v1/routes/package.js:140-141 | `addAuthor` and `addPackage` write one join row: the user joins the package's authors; nothing else changes |
| `Database.Registry.RemoveAuthor` | v1/routes/package.js:155-156 | `removeAuthor` and `removePackage` delete that join row: the user leaves the package's authors; nothing else changes |
| `Database.Registry.CreateTag` | v1/routes/package.js:171 | `createTag` appends an unlinked tag of the package with the next id and returns that id |
| `Database.Registry.DestroyTag` | v1/routes/package.js:193 | `tag.destroy()` removes the tag with that id and nothing else |
| `Database.Registry.DestroyPackage` | v1/routes/package.js:97 | `pkg.destroy()` removes the package row and its tags |
| `Database.Registry.CreateUser` | v1/routes/user.js:38-42 | `User.create` stores the account under its username; nothing else changes |
| `Database.Registry.SetVersion` | db.js:99 | `tag.setVersion(v)` points the tag at `v` and unlinks `v` from every other tag (one tag per version) |
| `Database.Registry.DestroyVersion` | db.js:96-99 | destroying a version removes the row and unlinks every tag that targeted it |
| `Database.Registry.FindTag` | v1/routes/package.js:72 | `getTags({ where: { name } })[0]` returns the first matching tag in store order, or none when none matches |
| `Database.Registry.TagsOfPackage` | v1/routes/package.js:112 | `pkg.getTags()` returns exactly the package's tags, in store order |
| `Database.Registry.HasVersionsOf` | v1/routes/package.js:118 | `countVersions() === 0` is false exactly when some version row belongs to the package |
| `Database.Registry.NewestVersion` | v1/routes/package.js:124 | the `createdAt DESC` lookup returns a row of the package created no earlier than any other |
| `Schema.VersionKeySplit` | v1/routes/package.js:46 | the key `name@version` determines name and version once the name's length is known |
| `Schema.FindVersionExact` | v1/routes/package.js:174 | `getVersions({ where: { version } })` finds a row with exactly that version string, and misses only when the package has none |
| `Schema.MostRecentExists` | v1/routes/package.js:124 | a package with versions has a most recent one |
| `Schema.MostRecentUnique` | v1/routes/package.js:124 | with distinct creation stamps the most recent version is unique |
| `Schema.ClearTargetsTwice` | v1/routes/package.js:89-91 | unlinking the tags of one set of destroyed versions and then another is the same as unlinking the union |
| `Schema.EmptyStoreValid` | db.js:22-104 | the empty database satisfies every table invariant |
| `Schema.WithTargetValid` | db.js:99 | repointing a tag at a version of its own package keeps every table invariant |
| `Schema.WithoutVersionValid` | db.js:96-99 | destroying a version that is not the package's last keeps every table invariant |
| `Schema.WithoutPackageValid` | v1/routes/package.js:97 | destroying a package with no versions left keeps every table invariant |
| `Publishing.PublishStep` | v1/routes/package.js:36-81 | the error order: BadRequest (missing manifest or dist, missing or invalid version), then Forbidden for a non-author of an existing package, then Conflict for an existing `lower(name)@version`; each failure leaves the store unchanged; success replies with that id |
| `Publishing.PublishRecords` | v1/routes/package.js:49-68 | a successful publish adds one version row with `sha256(dist)`, the readme or `No readme!`, and the next creation stamp; a new package gets the publisher as its only author; users are unchanged |
| `Publishing.Appoint` | v1/routes/package.js:72-78 | electing a tag changes the tag table and the next tag id only |
| `Publishing.AppointElects` | v1/routes/package.js:72-78 | after electing a tag, the first tag of that name points at the version: the old tag if it existed, else a new one with the next id; no other tag points there; every other tag keeps its place and row, except one that held the version, which loses its target (one tag per version, db.js:99) |
| `Publishing.AppointKeepsOtherNames` | v1/routes/package.js:72 | electing a tag leaves the first tag of every other name where it was |
| `Publishing.AppointIntendedKeepsOthers` | db.js:99 | with the link kept on the tag row (`Tag.belongsTo(Version)`), electing a tag repoints that tag alone: every other tag is exactly as it was |
| `Publishing.AppointTag` | v1/routes/package.js:72-78 | the find-or-create and `setVersion` calls reach the state of `Appoint` |
| `Publishing.PublishMakesLatest` | v1/routes/package.js:72-78 | after a successful publish the package's first `latest` (the existing one, or a new one) points at the new version, whatever its semver order, and it is the only tag pointing there; every other tag keeps its place and row, except one that held the version, which loses its target |
| `Publishing.AppointValid` | v1/routes/package.js:72-78 | electing a tag for a live version of the package keeps every table invariant |
| `Publishing.PublishPreservesValid` | v1.js:131-176 | publish (the same code in both routers) keeps every table invariant |
| `Publishing.Publish` | v1.js:131-176 | the handler, one table call at a time, ends in the state and reply of `PublishStep`, and keeps every table invariant when the principal is a stored user |
| `Publishing.PublishKeepsUsers` | v1/routes/package.js:36-81 | publishing never changes the accounts |
| `Publishing.Purged` | v1/routes/package.js:89-97 | after the destroy loops the package is gone, exactly its rows are gone (the others unchanged), none of its tags remain, and the accounts are untouched |
| `Publishing.DestroyRows` | v1/routes/package.js:89-91 | the version loop removes exactly the given rows and unlinks the tags that pointed at them |
| `Publishing.DestroyTags` | v1/routes/package.js:93-95 | the tag loop removes exactly the tags with the victims' ids |
| `Publishing.DeleteStep` | v1/routes/package.js:83-100 | NotFound `Invalid package`, then Forbidden for a non-author; failures change nothing |
| `Publishing.DeleteRemovesPackage` | v1.js:190-207 | a successful delete removes the package, exactly its versions and exactly its tags, and keeps users and the other rows |
| `Publishing.DeletePreservesValid` | v1/routes/package.js:83-100 | delete keeps every table invariant |
| `Publishing.DeletePackage` | v1.js:190-207 | destroying the versions, then the tags, then the package reaches the state and reply of `DeleteStep` and keeps every table invariant |
| `Publishing.DeleteKeepsUsers` | v1/routes/package.js:83-100 | deleting a package never changes the accounts |
| `Publishing.Sweep` | v1/routes/package.js:112-114 | the tag loop only removes tags; it crashes exactly when one of the package's tags has no live target |
| `Publishing.SweepDrops` | v1/routes/package.js:112-114 | when it completes, the loop removes exactly the tags whose target has the given version string |
| `Publishing.SweepTags` | v1/routes/package.js:112-114 | the destroy loop over `getTags()` reaches the state and outcome of `Sweep` |
| `Publishing.Unlink` | v1/routes/package.js:102-116 | the error order: BadRequest (invalid semver), NotFound package, Forbidden, then NotFound version for the key built from the raw name; the checked failures change nothing |
| `Publishing.UnlinkOkUnfolds` | v1/routes/package.js:102-116 | a successful unlink was asked with an already lower-case name for a row the package owns; its sweep of the tags completed and was followed by the destroy of that row |
| `Publishing.UnpublishRawNameNotFound` | v1/routes/package.js:110 | a name with an upper-case letter always gets NotFound `Invalid version` |
| `Publishing.UnlinkFoldedFindsRow` | v1/routes/package.js:110 | with the name lower-cased, an existing version is found, so the NotFound above does not occur |
| `Publishing.DoomedAreTargeting` | v1/routes/package.js:112-114 | in a valid store the loop's victims are exactly the tags pointing at the removed version |
| `Publishing.UnlinkRemovesRow` | v1/routes/package.js:112-116 | a successful unlink removes that version row and exactly the tags that pointed at it, and nothing else |
| `Publishing.UnlinkValid` | v1/routes/package.js:112-116 | after unlinking, the store is valid except that the package may have no versions left |
| `Publishing.UnpublishPreservesValid` | v1/routes/package.js:102-130 | unpublish keeps every table invariant |
| `Publishing.Reelect` | v1/routes/package.js:118-126 | versions and accounts are unchanged; the package stays exactly when it has rows left; then one tag is appended, a `latest` with the next id on the most recent row, and every earlier tag keeps its place and row except one that held that row, which loses its target; else the package and all its tags go |
| `Publishing.UnpublishStep` | v1/routes/package.js:102-130 | it fails exactly when the checks and removal fail, with their answer and state; on success the rows are those the removal left |
| `Publishing.UnpublishAlwaysAddsLatest` | v1/routes/package.js:118-126 | removing the last version destroys the package and its tags; otherwise a new `latest` with the next id is appended, pointing at the most recent remaining version, even when a `latest` survived; the tags left by the removal keep their place and row, except that a first `latest` already on the most recent row stays first with no target |
| `Publishing.ReelectAppends` | v1/routes/package.js:120-125 | re-election appends exactly one tag, a `latest` on the most recent row; every earlier tag keeps its place, id, package and name, and its target unless it held that row |
| `Publishing.ReelectStrandsLatest` | v1/routes/package.js:124 | when the first `latest` already holds the most recent row, the appended `latest` takes it away: the old one stays the first `latest`, with no target |
| `Publishing.TwoVersionsUnlink` | v1/routes/package.js:110-116 | on a package with two versions and its only `latest` on the newer, unlinking the older one removes that row alone and keeps the `latest` on the newer |
| `Publishing.UnpublishStrandsLatest` | v1.js:227 | on that package, unpublish leaves two `latest` tags, and the first one (the one lookups find) points at nothing |
| `Publishing.UnpublishIntendedKeepsLatest` | v1/routes/package.js:120 | with the promise awaited, a package that keeps versions keeps exactly one `latest`, pointing at a live version |
| `Publishing.ReelectIntendedSound` | v1/routes/package.js:120-125 | the corrected re-election restores a sound `latest` after the victims are removed |
| `Publishing.ElectLatest` | v1/routes/package.js:124 | the re-election code reaches the state of `Reelect` |
| `Publishing.Unpublish` | v1.js:209-237 | the handler reaches the state and reply of the unpublish step, including the crash paths, and keeps every table invariant |
| `Publishing.UnpublishKeepsUsers` | v1/routes/package.js:102-130 | unpublishing never changes the accounts |
| `PackageRoutes.FetchAny` | v1/routes/package.js:21-34 | NotFound `Invalid package`, then a tag of that name wins over a version of that string, then NotFound `Invalid version/tag`; a tag with no target crashes |
| `PackageRoutes.PublishThenFetchLatest` | v1/routes/package.js:21-81 | right after a successful publish, fetching `latest` returns the published dist |
| `PackageRoutes.AddAuthorStep` | v1/routes/package.js:132-144 | NotFound package, then BadRequest `Invalid user`, then Forbidden; success adds exactly that user to the authors |
| `PackageRoutes.AddAuthorPreservesValid` | v1/routes/package.js:132-144 | adding an author keeps every table invariant |
| `PackageRoutes.AddAuthor` | v1/routes/package.js:132-144 | the handler reaches the state and reply of `AddAuthorStep` and keeps every table invariant |
| `PackageRoutes.RemoveAuthorStep` | v1/routes/package.js:146-159 | NotFound package, then BadRequest `Invalid user`, then Forbidden; the "not an author" rung never fires; success removes exactly that user |
| `PackageRoutes.RemoveStrangerSucceeds` | v1/routes/package.js:152 | removing a user who is not an author succeeds and changes nothing |
| `PackageRoutes.RemoveAuthorIntendedChecks` | v1/routes/package.js:152 | with the check awaited, removing a non-author gives BadRequest `User is not an author` before the Forbidden rung |
| `PackageRoutes.RemoveAuthorPreservesValid` | v1/routes/package.js:146-159 | removing an author keeps every table invariant |
| `PackageRoutes.RemoveAuthor` | v1/routes/package.js:146-159 | the handler reaches the state and reply of `RemoveAuthorStep` and keeps every table invariant |
| `PackageRoutes.SetTagStep` | v1/routes/package.js:161-180 | BadRequest for invalid semver, NotFound package, Forbidden; success points the lower-cased tag at the version |
| `PackageRoutes.SetTagPoints` | v1/routes/package.js:169-177 | after success, the first tag of the lower-cased name points at the version and is the only tag pointing there; every other tag keeps its place and row, except one that held the version, which loses its target |
| `PackageRoutes.SetTagStrandsLatest` | v1/routes/package.js:177 | setting another tag to the version the package's first `latest` points at leaves that `latest` first but with no target, so fetching `latest` then crashes |
| `PackageRoutes.SetTagStealsLatest` | v1/routes/package.js:161-180 | on package `a` with `latest` on `a@2.0.0`, setting `beta` to `2.0.0` succeeds and leaves `latest` unlinked and `beta` on `a@2.0.0` |
| `PackageRoutes.SetTagIntendedKeepsLatest` | db.js:99 | with the link on the tag row, the same request keeps `latest` on `a@2.0.0` beside `beta` |
| `PackageRoutes.SetTagStrandsTag` | v1/routes/package.js:169-175 | a new tag name with an unknown version gets BadRequest but leaves a new tag with no target behind |
| `PackageRoutes.SetTagIntendedAtomic` | v1/routes/package.js:169-175 | with the version checked first, every failure leaves the store unchanged |
| `PackageRoutes.SetTagPreservesValid` | v1/routes/package.js:161-180 | set-tag keeps every table invariant, including when it strands a tag |
| `PackageRoutes.SetTag` | v1/routes/package.js:161-180 | the handler reaches the state and reply of `SetTagStep` and keeps every table invariant |
| `PackageRoutes.RemoveTagStep` | v1/routes/package.js:182-196 | NotFound package, Forbidden, NotFound `Invalid tag`, Forbidden for `latest`; success destroys that tag |
| `PackageRoutes.RemoveTagOnlyThat` | v1/routes/package.js:193 | remove keeps every table invariant and never removes a `latest`; a successful one takes out exactly the first tag of that name |
| `PackageRoutes.RemoveTag` | v1/routes/package.js:182-196 | the handler reaches the state and reply of `RemoveTagStep` and keeps every table invariant |
| `PackageRoutes.RoutesKeepUsers` | v1/routes/package.js:132-196 | the author and tag routes never change the accounts |
| `PackageRoutes.Fetch` | v1/routes/package.js:21-34 | the handler returns what `FetchAny` says |
| `UserRoutes.RegisterStep` | v1/routes/user.js:21-48 | BadRequest when a field is missing, Internal when hashing fails, Conflict when the lower-cased username or email is taken; success stores both fields lower-cased with only the hash, unverified, with no reserved-name check |
| `UserRoutes.RegisterPreservesValid` | v1/routes/user.js:38-42 | registering keeps every table invariant |
| `UserRoutes.RegisterKeepsAccounts` | v1/routes/user.js:27-42 | registering never overwrites an account and keeps emails unique |
| `UserRoutes.FindUser` | v1/routes/user.js:14-19 | the lookup uses the raw name: found exactly when that key exists, else NotFound `Invalid user` |
| `UserRoutes.FindUserIsCaseSensitive` | v1/routes/user.js:15 | a user who registered as `Alice` is not found under `Alice`, only under `alice` |
| `UserRoutes.Register` | v1/routes/user.js:21-48 | the handler reaches the state and reply of `RegisterStep` and keeps every table invariant |
| `UserRoutes.RegisterKeepsNoneVerified` | v1/routes/user.js:38-42 | the account is created with no `verified` value, so a store with no verified account keeps none |
| `LiveRouter.Strategy` | v1.js:14-30 | grants exactly when the lower-cased user exists and the hash comparison matches; a lookup or comparison error is an error; `verified` is not consulted |
| `LiveRouter.StrategyAdmitsUnverified` | v1.js:14-30 | whatever `v1/auth.js` grants the live strategy grants too; for a verified account the two agree; an unverified user with the right password is admitted by the live one only |
| `LiveRouter.RegisterStep` | v1.js:74-102 | the missing-field rung, then BadRequest `Invalid username` for `search` in any case; otherwise the same as the routes file |
| `LiveRouter.RegistrationsAgree` | v1.js:76 | the two register handlers agree on every input except a username that lower-cases to `search` |
| `LiveRouter.Register` | v1.js:74-102 | the handler reaches the state and reply of `RegisterStep` and keeps every table invariant |
| `LiveRouter.RegisterKeepsNoneVerified` | v1.js:92-96 | the live registration also creates the account with no `verified` value |
| `LiveRouter.Fetch` | v1.js:178-188 | only NotFound failures; found exactly when a version row with that literal string exists; replies with its dist |
| `LiveRouter.PublishThenFetch` | v1.js:131-188 | right after a successful publish, fetching the published version string returns its dist |
| `LiveRouter.FetchIgnoresTags` | v1.js:181 | fetching `latest` fails when no version is literally called `latest`, whatever the tags say |
| `BasicAuth.Verify` | v1/auth.js:6-23 | grants exactly when the lower-cased user exists, is verified and the comparison matches; errors exactly on a lookup or comparison error; an unverified user is refused before any comparison |
| `BasicAuth.NobodyIsGranted` | v1/auth.js:13 | with no verified account, the callback never hands a user to `done` |
| `TokenAuth.Credential` | v2/auth.js:5 | the `Authorization` header wins over the `tok` argument |
| `TokenAuth.Authenticate` | v2/auth.js:4-23 | rejects exactly when verification or the lookup fails; resolves to the user exactly when the verbatim subject names a verified user |
| `TokenAuth.UpperCaseSubjectIsNobody` | v2/auth.js:9-13 | a subject that is not lower-case never resolves to a user |
| `TokenAuth.NobodyAuthenticates` | v2/auth.js:19 | with no verified account, `auth(req)` rejects or resolves to `false`, never to a user |
| `GraphQL.Login` | v2/index.js:158-181 | missing credentials first, then Unauthorized for an unknown or unverified user before the comparison, then a mismatch; success signs `{ sub: username }` for 30 days |
| `GraphQL.LoginIssuesOwnToken` | v2/index.js:170-173 | the session's user is the stored account and the token's subject is its stored name |
| `GraphQL.NobodyLogsIn` | v2/index.js:164 | with no verified account, every login is rejected |
| `GraphQL.AddAuthorStep` | v2/index.js:183-195 | `Invalid package`, then `Invalid user`, then the viewer's own rejection, then `Forbidden`; success adds exactly that user |
| `GraphQL.RemoveAuthorStep` | v2/index.js:197-209 | the same order, with no "is an author" check; success removes exactly that user |
| `GraphQL.StrangersAreForbidden` | v2/index.js:189 | a viewer who is not an author (or no user at all) is refused with `Forbidden` and nothing changes |
| `GraphQL.AddThenRemoveAuthor` | v2/index.js:183-209 | adding and then removing a new author (not the viewer) restores the whole store |
| `GraphQL.RemoveAuthor` | v2/index.js:197-209 | the mutation reaches the state and answer of `RemoveAuthorStep` and keeps every table invariant |
| `GraphQL.AuthorMutationsPreserveValid` | v2/index.js:183-209 | both author mutations keep every table invariant |
| `GraphQL.SetTagStep` | v2/index.js:211-230 | `Invalid version`, `Invalid package`, the viewer's rejection, `Forbidden`, then `Invalid version` for a missing row, all before any tag is touched; success points the lower-cased tag at that row |
| `GraphQL.SetTagPoints` | v2/index.js:219-227 | every failure leaves the store unchanged; success keeps every table invariant, the first tag of that name points at the version, and every other tag keeps its row except one that held the version, which loses its target |
| `GraphQL.SetTagStrandsLatest` | v2/index.js:227 | setting another tag to the version of the package's first `latest` leaves that `latest` with no target, so the package's `tags` field is then rejected |
| `GraphQL.RemoveTagStep` | v2/index.js:232-246 | `Invalid package`, the viewer's rejection, `Forbidden`, `Invalid tag`, then the `latest` refusal; success destroys that tag |
| `GraphQL.RemoveTagOnlyThat` | v2/index.js:238-243 | remove keeps every table invariant and never removes a `latest`; a successful one takes out exactly the first tag of that name |
| `GraphQL.RemoveTag` | v2/index.js:232-246 | the mutation reaches the state and answer of `RemoveTagStep` and keeps every table invariant |
| `GraphQL.MutationsKeepUsers` | v2/index.js:183-246 | the four mutations never change the accounts |
| `GraphQL.UnverifiedMutationsRefused` | v2/auth.js:18-19 | with no verified account, the viewer `auth(req)` yields is never a user, so each of the four mutations is rejected and changes nothing |
| `GraphQL.PackageVersion` | v2/index.js:48-53 | any version found is the package's row for the lower-cased version string |
| `GraphQL.PackageVersionFolds` | v2/index.js:51 | the lookup finds a row exactly when one exists for the lower-cased string |
| `GraphQL.TagMap` | v2/index.js:70-76 | the only failure is the TypeError on a tag with no live target |
| `GraphQL.TagMapResolves` | v2/index.js:72-73 | the map is built exactly when every tag has a live target |
| `GraphQL.TagMapKeys` | v2/index.js:72-73 | its keys are exactly the tags' names |
| `GraphQL.TagMapEntries` | v2/index.js:72-73 | each name maps to the version string of the last tag of that name |
| `GraphQL.PackageTags` | v2/index.js:70-76 | the loop over `getTags()` returns `TagMap` of the package's tags |
| `GraphQL.AddAuthor` | v2/index.js:183-195 | the mutation reaches the state and answer of `AddAuthorStep` and keeps every table invariant |
| `GraphQL.SetTag` | v2/index.js:211-230 | the mutation reaches the state and answer of `SetTagStep` and keeps every table invariant |
| `Cdn.Target` | v1/routes/cdn.js:20-23 | a tag named by the version (or `latest`) decides the row when it exists; otherwise the version row of that string, if any |
| `Cdn.Serve` | v1/routes/cdn.js:16-32 | 404 for an unknown package, a missing row or no payload; a tag with no target crashes; otherwise the body is the banner `/* name@version - Served by diamond CDN */`, two newlines, then the payload |
| `Cdn.TagWins` | v1/routes/cdn.js:21-23 | when a tag with the requested name exists, the stylesheet is that tag's version, even if a version has the same string |
| `Cdn.NoVersionMeansLatest` | v1/routes/cdn.js:21 | with no version parameter the handler answers as for the tag `latest` |
| `Cdn.FreshPublishHasNoStylesheet` | v1/routes/cdn.js:25 | right after a publish the package's stylesheet is 404, because no handler fills the payload |
| `Search.Pattern` | v1/routes/search.js:25 | the pattern starts and ends with `%` and contains no whitespace |
| `Search.PatternOfWord` | v1/routes/search.js:45 | for a query with no whitespace the pattern is `%` + lower(q) + `%` |
| `Search.PatternFindsWord` | v1/routes/search.js:25 | the pattern of a plain word matches every string that contains the lower-cased word |
| `Search.CollapseWordThenRun` | v1/routes/search.js:25 | `replace(/\s+/g, '%')` keeps a word and turns the whole run of whitespace after it into a single `%` |
| `Search.PatternOfTwoWords` | v1/routes/search.js:25 | the pattern of two words separated by any run of whitespace is `%` + lower(w1) + `%` + lower(w2) + `%` |
| `Search.PatternFindsTwoWords` | v1/routes/search.js:25 | the pattern of two plain words matches every string holding the lower-cased first word and, anywhere after it, the lower-cased second |
| `Search.Query` | v1/routes/search.js:20 | a missing `q` is BadRequest `No search query`; otherwise the pattern, the same for users and packages |
| `Search.MatchingMembers` | v1/routes/search.js:22-28 | the answer holds exactly the rows the pattern matches, and no more entries than there are rows |
| `Search.MatchingSnoc` | v1/routes/search.js:32-34 | one more record in the store adds at most that record, at the end of the answer |
| `Search.Collect` | v1/routes/search.js:32-34 | the push loop builds exactly the matching rows, in store order |
| `Search.Find` | v1/routes/search.js:30-36 | the loop answers one entry per matching row, in store order |
| `Text.LowerIsLower` | v1/routes/user.js:39 | a lower-cased string has no upper-case letter |
| `Text.LowerOfLower` | v1/routes/user.js:39 | lower-casing is idempotent |

## Left out

- `toLowerCase` is modelled on ASCII letters only. Other letters are left as they are.
- Key and column equality (`findById`, `hasVersion`, `where: { version }`, `where: { username }`)
  is modelled as exact, case-sensitive comparison, which is what sqlite does (db.js:16-19). In
  production the dialect comes from the environment (db.js:4-14), and under a case-insensitive
  collation these statements do not hold: `Publishing.UnpublishRawNameNotFound`,
  `UserRoutes.FindUserIsCaseSensitive`, `TokenAuth.UpperCaseSubjectIsNobody`, the "found only
  for the lower-cased string" half of `GraphQL.PackageVersionFolds`, and the Findings row for
  v1/routes/package.js:110.
- `Search.Like` models `%` and `_` only. It ignores the database's collation (case
  sensitivity) and escape characters. The order of the rows `findAll` returns is a parameter.
- The response projections of `utils.js` (URLs, author lists, user info) are not modelled.
  Neither are their own failures.
- `JSON.parse` of the manifest is not modelled: the manifest arrives parsed, and a parse error
  is not represented.
- The badge route, the CDN and docs build hooks, the `/` index and count route, and the
  `/user` route are not modelled.
- The GraphQL query resolvers other than `Package.version` and `Package.tags` are not modelled.
  These include `Package.tag`, whose `[0].getVersion()` crashes on an unknown name.
- Concurrency and async interleaving are not modelled: each handler is one atomic step. Two
  requests that race between a check and the write are not represented.
- In `v1.js` some restify errors are called without `new` (lines 180, 183, 193, 210, 214, 217).
  The model replies with the error that was evidently meant. So the live router's NotFound and
  BadRequest replies from `Publishing.DeleteStep`, `Publishing.Unlink` and `LiveRouter.Fetch`
  are those of the `new` calls in `v1/routes/package.js`.
- `LiveRouter.Fetch`: the octet-stream headers are not modelled.
- `db.js` has no `verified` column. Accounts are modelled with a `verified` flag that register
  sets to false. No handler sets it true, so account verification is not modelled. The
  verified branches of `BasicAuth.Verify`, `TokenAuth.Authenticate` and `GraphQL.Login` are
  modelled as written, though no reachable store can take them.
- A destroyed package's tags are removed along with it, instead of being left with a null
  foreign key.
- `Cdn.Serve`: with no version parameter, the version lookup is modelled as matching no row.
- `GraphQL.AddAuthorStep`, `GraphQL.RemoveAuthorStep`, `GraphQL.SetTagStep` and
  `GraphQL.RemoveTagStep` treat a viewer of `false` (no user) as not an author.
- `GraphQL.Login`: a lookup error makes the promise never settle. That path is left out; the
  lookup is modelled as succeeding.
- `Publishing.Sweep`: each tag's target is read from the store as it was before the loop.
  Since a version has at most one tag, no tag removed by the loop is read later, so this is
  the same.
- `BasicAuth.Verify`, `LiveRouter.Strategy` and `TokenAuth.Authenticate` take a failed lookup
  as a parameter (`lookupFails`), not a database fault model.
- `Publishing.ElectLatest` requires distinct creation stamps. The store keeps them distinct
  (`Schema.VersionsValid`), so the `createdAt DESC` lookup is deterministic.

## Findings

| source | as written | input that shows it | evidently intended | confidence | as-written member | corrected member |
|---|---|---|---|---|---|---|
| v1/routes/package.js:120 | `pkg.getTags(...)[0]` indexes the promise, so `latest` is always undefined and a new `latest` is always created (also v1.js:227) | package `a` with `a@1.0.0` and `a@2.0.0`, `latest` on `a@2.0.0`; unpublishing `1.0.0` keeps that `latest`, and the appended `latest` takes `a@2.0.0` away from it | await the promise and only re-elect when no `latest` survives | not executed | `Publishing.UnpublishStrandsLatest` | `Publishing.UnpublishIntendedKeepsLatest` |
| v1/routes/package.js:152 | `pkg.hasAuthor(user)` is not awaited; a promise is truthy, so the "not an author" check never fires | remove author `bob` from a package `bob` does not author | await the check and answer BadRequest `User is not an author` | not executed | `PackageRoutes.RemoveStrangerSucceeds` | `PackageRoutes.RemoveAuthorIntendedChecks` |
| v1/routes/package.js:169-175 | the tag is created before the version is checked | set tag `beta` to an unknown version `9.9.9` | check the version first, so a failed request changes nothing | not executed | `PackageRoutes.SetTagStrandsTag` | `PackageRoutes.SetTagIntendedAtomic` |
| v1/routes/package.js:110 | the version key is built from the raw name, not the lower-cased one, so with sqlite's exact comparison (db.js:16-19) it misses | unpublish `Foo` `1.0.0` where `foo@1.0.0` exists | build the key from the lower-cased name | not executed | `Publishing.UnpublishRawNameNotFound` | `Publishing.UnlinkFoldedFindsRow` |
| db.js:99 | `Tag.hasOne(Version)` keeps the link on the version row, so `tag.setVersion(v)` takes `v` away from the tag that held it (v1/routes/package.js:177, v2/index.js:227) | package `a` with `latest` on `a@2.0.0`; set tag `beta` to `2.0.0`, and `latest` is left with no target, so fetching `latest` crashes | `Tag.belongsTo(Version)`, so only the named tag is repointed | not executed | `PackageRoutes.SetTagStrandsLatest` | `Publishing.AppointIntendedKeepsOthers` |
