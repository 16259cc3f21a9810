# npm registry aggregation gateway — a Dafny model of its resolution core

The gateway stands in front of several npm registries, listed in priority order:

- **Package documents (packuments).** A request for a package's document asks every registry in order. It remembers in a cache which registry serves which version of the package, and answers with the merge of the documents, where the first registry wins.
- **Single versions.** A request for one version is redirected to the registry the cache names. On a cache miss, it goes to the first registry that confirms it has the version, and the cache records that registry. With none, the answer is 404.
- **Anything else** is redirected to the default registry.
- **The legacy server.** The older single-file server is a simpler variant. It queries all registries at once and never removes a cache entry. It answers with a merged document even when no registry offers a version. Its cache is a set, and it rewrites only the origin of a URL.

The model covers:

- **`PackageCache`** (lib/package-cache.js): a class over the source's map of maps. It is specified through a flattened (package, version) → priority view. It keeps the quirk that `getPkgVer` turns a stored priority 0 into NaN.
- **`Misc`** (lib/misc.js):
  - `rewriteBase`;
  - the `reduceRight` merge of documents, with the lowest-index document winning key by key and for truthy fields;
  - the `natural`/`Zip`/`indexed` iterator state machine, with `Zip` as a class whose `Next` is a loop.
- **`RegistryClient`** (lib/registry-client.js):
  - the constructor and the URL builders;
  - `classify`, with the package-name validator as a parameter.
- **`Resolver`** (bin/server.js): the request handler as methods over a `PackageCache`. Every registry's answer is an input, one per registry.
- **`Legacy`** (server.js):
  - `some`, over settled promises;
  - `rewriteOrigin`;
  - the `PkgCache` class and its middleware;
  - the `/:package` route;
  - the default redirect.
- **Supporting modules:**
  - `Json`: JavaScript values, `Object.assign`, `Object.keys` and truthiness;
  - `Url`: the URL record of section 4.1 of the WHATWG URL Standard and its host and port setters;
  - `PosixPath`: `path.posix.join` and `normalize`;
  - `UriComponent`: `encodeURIComponent`/`decodeURIComponent` over UTF-8, as in section 19.2.6 of ECMA-262;
  - `Wrappers`: `Option`.

Where the code and its description differ, the model follows the code:

- **`classify` and malformed escapes.** `classify` decodes the second path segment before it counts segments, and it does so with no guard. A malformed percent-escape therefore throws rather than yielding `null`, and the model's `Classify` returns `Malformed` for it.
- **Stored priority 0.** A version cached at priority 0 is looked up as NaN. So `backends[NaN]` is `undefined`, and the redirect throws. `Resolver.VersionOutcome` gives `Fault` for that case.
- **Probe rejections.** A rejected version probe is not caught either, and it also gives `Fault`.

## Model

| member | source | states |
|---|---|---|
| PackageCache.PackageCache.constructor | lib/package-cache.js:2-5 | a fresh cache holds no entry, so `hasPkgVer` is false for every package and version |
| PackageCache.PackageCache.HasPkgVer | lib/package-cache.js:12-15 | true iff the package has a version map that holds the version |
| PackageCache.PackageCache.AddPkgVer | lib/package-cache.js:23-41 | the new entries are `Added(old, pkg, version, priority)`; the outer map gains at most `pkg` |
| PackageCache.Added | lib/package-cache.js:37-40 | after `addPkgVer` the entry exists with min(old, k), or k when new; the key set gains only that key; every other entry is unchanged |
| PackageCache.AddedNeverRaises | lib/package-cache.js:37-40 | adding with k ≥ the stored priority changes nothing |
| PackageCache.AddedTwice | lib/package-cache.js:37-40 | adding twice is adding the smaller priority once |
| PackageCache.AddedCommutes | lib/package-cache.js:23-41 | two additions give the same cache in either order |
| PackageCache.AddedFlatten | lib/package-cache.js:24-40 | writing the inner map as the source does is `Added` on the flattened view |
| PackageCache.PackageCache.GetPkgVer | lib/package-cache.js:48-56 | returns `Lookup` of the entries: NaN when absent, and NaN when the stored priority is 0 |
| PackageCache.Lookup | lib/package-cache.js:48-55 | NaN iff the entry is absent or stores 0; otherwise the stored, positive priority |
| PackageCache.LookupOfStored | lib/package-cache.js:54 | for a stored entry, `|| NaN` maps 0 to NaN and keeps any other priority |
| PackageCache.PackageCache.DeletePkg | lib/package-cache.js:63-72 | the new entries are `Deleted(old, pkg, priority)`; no package is added or removed from the outer map |
| PackageCache.Deleted | lib/package-cache.js:63-72 | keeps exactly the entries not of `pkg` with that priority, with their values |
| PackageCache.DeletedExactly | lib/package-cache.js:63-72 | no entry of `pkg` with that priority survives; every other entry survives unchanged; deleting twice is deleting once |
| PackageCache.DeletedFlatten | lib/package-cache.js:64-71 | the `forEach` with `delete` over the inner map is `Deleted` on the flattened view |
| PackageCache.UnknownPackage | lib/package-cache.js:64 | deleting an unknown package is a no-op |
| Misc.RewriteBase | lib/misc.js:10-22 | protocol, username, password, hostname, port and host come from the destination; search and hash from the source; the path is posix-join(destination path, source path); the source is a value and is not changed |
| Misc.RewriteBaseCleanPaths | lib/misc.js:19 | with clean absolute paths, the rewritten path is the destination's segments then the source's |
| Misc.RewriteBaseUnderPrefix | lib/misc.js:19 | `/prefix/` joined with `/lodash` is `/prefix/lodash` |
| PosixPath.JoinAbsolute | lib/misc.js:19 | `path.posix.join` of two clean absolute paths renders the concatenated segments |
| Misc.MergePackuments | lib/misc.js:29-52 | no input gives `{}`; otherwise exactly the merged fields plus an empty `contributors`; the value of each field is stated by the rows below |
| Misc.OntoKeys | lib/misc.js:30-51 | `reduceRight` over no document returns the initial value; over any, the result has exactly the merged fields and an empty `contributors` |
| Misc.StepFields | lib/misc.js:30-50 | one callback call: a keyed field holds the own properties of both sides except `__proto__`, the document's winning on a shared key; a truthy field takes the document's value when truthy and the accumulated one otherwise; `contributors` is a fresh empty set |
| Misc.FoldGet | lib/misc.js:30-51 | each field of the `reduceRight` result is that field folded on its own from the last document to the first, so the fields do not interact |
| Json.Assign | lib/misc.js:31-40 | `Object.assign({}, a, b)` holds the own properties of both, `b`'s winning on a shared key, except `__proto__`: writing that key calls the prototype setter and creates no own property |
| Json.AssignDropsProto | lib/misc.js:31 | a document whose `versions` is `{"__proto__": {}}` contributes no version: `Object.assign({}, undefined, {"__proto__": {}})` is `{}` |
| Json.VersionsOf | bin/server.js:51 | `Object.keys(packument.versions)` throws exactly when the document's `versions` is missing, `undefined` or `null` |
| Json.ElementAt | lib/misc.js:31-40 | an array's own properties hold each element under its decimal index |
| Json.ElementKeys | lib/misc.js:31-40 | an array has no other own property |
| Json.CharAt | lib/misc.js:31-40 | a string's own properties hold each character, as a one-character string, under its decimal index |
| Json.CharKeys | lib/misc.js:31-40 | a string has no other own property |
| Json.AssignString | lib/misc.js:40 | `Object.assign({}, undefined, "Bob")` is `{0: "B", 1: "o", 2: "b"}` |
| Misc.MergeStringAuthor | lib/misc.js:29-52 | a single document whose `author` is the string "Bob" merges to an `author` of `{0: "B", 1: "o", 2: "b"}` |
| Misc.MergeKeyedPresent | lib/misc.js:30-40 | a key is in the merged `versions`/`dist-tags`/`users`/`author` iff some input has it there and it is not `__proto__` |
| Misc.MergeKeyedValue | lib/misc.js:30-40 | a key that some input has is in the merge iff it is not `__proto__`, and then its value is that of the lowest-index input that has it |
| Misc.MergeTruthyFirst | lib/misc.js:37-49 | a truthy-merged field takes the value of the lowest-index input where it is truthy |
| Misc.MergeTruthyNone | lib/misc.js:37-49 | with no input where it is truthy, the field is `undefined` |
| Misc.FieldMergeIdempotent | lib/misc.js:31-49 | merging the same value twice into one field is merging it once |
| Misc.MergeStepIdempotent | lib/misc.js:30-50 | one `reduceRight` step applied twice with one document is applied once |
| Misc.MergeOntoAppend | lib/misc.js:30-51 | folding a concatenation folds the right part first, then the left onto it |
| Misc.MergeCopies | lib/misc.js:30-51 | n ≥ 1 adjacent copies of a document merge like one |
| Misc.MergeExpand | lib/misc.js:30-51 | repeating each document any positive number of times leaves the merge unchanged |
| Misc.Advance | lib/misc.js:54-61 | one `next()`: `natural()` always yields; an array's iterator yields exactly while elements are left; an iterator that reports done stays where it is |
| Misc.NaturalCounts | lib/misc.js:54-61 | any k calls on `natural()` yield 0, 1, …, k-1, in order |
| Misc.TakeNaturalsAt | lib/misc.js:54-61 | the j-th call on `natural()` after i values yields i + j |
| Misc.TakeElementsLength | lib/misc.js:116-117 | k calls on an array's iterator at index `next` yield min(k, \|items\| - next) values, then the iterator reports done |
| Misc.TakeElementsAt | lib/misc.js:116-117 | the j-th of those values is `items[next + j]` |
| Misc.FirstDone | lib/misc.js:88-106 | when some iterator is exhausted, the pass stops at the first one: every iterator before it yields |
| Misc.Zip.constructor | lib/misc.js:70-73 | a new `Zip` is not done and holds the given iterators |
| Misc.Zip.Next | lib/misc.js:79-108 | once done, always done, with no iterator advanced and no value; otherwise done exactly when some iterator is exhausted, in which case the iterators up to the first exhausted one are advanced and the rest left as they were; when not done, every iterator is advanced once and the values are what each yielded, in order |
| Misc.Indexed | lib/misc.js:116-117 | `indexed(xs)` zips a cursor over `xs` with `natural()` from 0 |
| Misc.IndexedPass | lib/misc.js:54-61 | at step k the pair is `[xs[k], k]` and both cursors move on; at k = \|xs\| the array's cursor is the first exhausted one, so the zip reports done without advancing `natural()` |
| Misc.IndexedPairs | lib/misc.js:116-117 | iterating `indexed(xs)` yields `[xs[i], i]` for i = 0..\|xs\|-1, in order, then done |
| RegistryClient.NewClient | lib/registry-client.js:17-24 | the stored root has empty search and hash and is otherwise the given URL |
| RegistryClient.PackageRootUrl | lib/registry-client.js:27-33 | the root URL with only the path changed |
| RegistryClient.PackageVersionUrl | lib/registry-client.js:39-45 | the root URL with only the path changed |
| RegistryClient.PackageUrlPaths | lib/registry-client.js:30-42 | the paths are the root's segments followed by the encoded package, and then the encoded version |
| UriComponent.EncodeAlphabet | lib/registry-client.js:30 | `encodeURIComponent` never emits `/`, so a scoped name stays one segment |
| UriComponent.DecodeEncode | lib/registry-client.js:85-98 | decoding an encoded string gives it back |
| RegistryClient.Classify | lib/registry-client.js:78-103 | a package root is a valid name, and anything classified starts with `/` |
| RegistryClient.ClassifyRelative | lib/registry-client.js:79-83 | a path whose first segment is non-empty is `null` |
| RegistryClient.ClassifyPackagePath | lib/registry-client.js:85-93 | `/enc(p)` is the package root p iff p is valid, else `null` |
| RegistryClient.ClassifyRootSegment | lib/registry-client.js:79-93 | any `/s` whose segment `s` decodes to p is the package root p iff p is valid, else `null` |
| RegistryClient.ClassifyScoped | lib/registry-client.js:79-93 | `/@types%2fnode` is the package root `@types/node` iff that name is valid |
| RegistryClient.ClassifyVersionSegments | lib/registry-client.js:79-99 | any `/s/t` whose segments both decode is a request for version decode(t) of decode(s), with no name validation |
| UriComponent.DecodePlainPrefix | lib/registry-client.js:85 | text without `%` decodes to itself, in front of whatever the rest decodes to; decoding fails iff the rest fails |
| UriComponent.DecodeSlashNode | lib/registry-client.js:85 | a lower-case `%2f` decodes to `/` |
| UriComponent.DecodeScopedName | lib/registry-client.js:85 | `@types%2fnode` decodes to `@types/node` |
| RegistryClient.ClassifyVersionPath | lib/registry-client.js:94-99 | `/enc(p)/enc(v)` is version v of p, with no name validation |
| RegistryClient.ClassifyShapes | lib/registry-client.js:85-102 | a malformed first segment throws whatever the segment count; 4+ segments, or one segment with an invalid name, give `null`; a malformed version throws |
| RegistryClient.ClassifyClientUrls | lib/registry-client.js:27-103 | under a root of `/`, the builders' paths classify back as the package and the version |
| Resolver.ResolveRoot | bin/server.js:42-68 | the cache becomes `RootEntries` of the answers in registry order, and the outcome is `RootOutcome` |
| Resolver.Visit | bin/server.js:48-57 | one registry: a fetch that throws, or a document without `versions`, deletes the package's entries at that priority and pushes nothing; otherwise its versions are recorded and the document pushed once per version |
| Resolver.MergedOnce | bin/server.js:53-63 | the pushed documents, each repeated once per version, are non-empty iff some registry contributed, and merge exactly like the contributors taken once each |
| Resolver.RecordVersions | bin/server.js:51-54 | every version key is added at the registry's priority, and the document is pushed once per version |
| Resolver.RootFoundIff | bin/server.js:60-68 | Ok iff some registry answered with at least one version; 404 iff none did |
| Resolver.RootVersions | bin/server.js:47-63 | the merged `versions` are the union of the answers' except `__proto__`, each value from the lowest-index registry offering it |
| Resolver.RootRecords | bin/server.js:47-53 | an offered version ends up cached at a priority no higher than any registry offering it |
| Resolver.RootRecordsFirst | bin/server.js:47-53 | a version new to the cache is recorded at the first registry offering it |
| Resolver.RootAbsent | bin/server.js:47-57 | a version that no registry offers and that was not cached stays uncached |
| Resolver.RootFailureClears | bin/server.js:55-57 | after a failed registry, no entry of the package names it |
| Resolver.RootNothingOffered | bin/server.js:55-67 | with nothing offered, the answer is 404 and the cache gains no key |
| Resolver.RootOtherPackages | bin/server.js:47-58 | entries of other packages are untouched |
| Resolver.RootBounded | bin/server.js:47-58 | cached priorities stay below the number of registries |
| Resolver.ScanFrom | bin/server.js:83-90 | a found index is a confirming registry; a failed index is a rejecting one |
| Resolver.ResolveVersion | bin/server.js:69-95 | the outcome is `VersionOutcome`, the cache becomes `VersionEntries`, and the number of probes is `ProbesMade` |
| Resolver.Probe | bin/server.js:80-95 | for a version the cache does not know: the outcome, the new cache and the number of probes are those of `ResolveVersion` |
| Resolver.VersionHit | bin/server.js:73-79 | a hit redirects to `backends[getPkgVer]`, or throws when 0 reads as NaN; no probe; cache unchanged |
| Resolver.VersionMissFound | bin/server.js:83-90 | on a miss, the first confirming registry after denials gets the redirect and is recorded; i + 1 probes; later registries are not probed |
| Resolver.VersionMissNone | bin/server.js:83-95 | on a miss, 404 iff every registry denies; the cache is then unchanged |
| Resolver.VersionBounded | bin/server.js:83-90 | cached priorities stay below the number of registries |
| Resolver.Handle | bin/server.js:31-102 | classified requests resolve as above; unclassified ones redirect to the default registry with the cache untouched; a malformed path throws |
| Legacy.Some | server.js:30-55 | the values in input order with the errors attached; throws iff no promise fulfilled, including for no promise |
| Legacy.ValuesEmpty | server.js:48-54 | no value iff every promise rejected |
| Legacy.SettledCounts | server.js:40-46 | each promise gives exactly one value or one error |
| Legacy.ValuesInOrder | server.js:40-46 | a fulfilled promise's value comes after those of the promises before it |
| Legacy.ErrorsInOrder | server.js:40-50 | a rejected promise's reason comes after those of the promises before it |
| Legacy.RewriteOrigin | server.js:74-82 | protocol, hostname, port and host from the destination; credentials, path, search and hash from the source, which is a value and is not changed |
| Legacy.RewriteOriginLastWins | server.js:74-82 | rewriting twice equals rewriting onto the last destination, so rewriting is idempotent |
| Legacy.RewriteOriginAsBase | server.js:74-82 | with no credentials and a root base path, it agrees with `Misc.RewriteBase` |
| Legacy.TarballInjective | server.js:122 | for one name, distinct versions get distinct keys |
| Legacy.DisplayThrows | server.js:122 | `${x}` throws exactly for an object with an own `toString` and for an array holding such a value (at any depth); a string displays as itself, and any other value displays |
| Legacy.TarballOfName | server.js:121-141 | for a document named by the string `pkg` that `cache` accepts, the key the middleware looks up for `pkg` and a listed version is among the keys `cache` wrote |
| Legacy.ToStringNameThrows | server.js:121-122 | a document that lists a version under a name object with an own `toString` makes `cache` throw, so its promise rejects |
| Legacy.CachedGrows | server.js:129-136 | sets only grow; each listed key gains the registry; other keys are unchanged |
| Legacy.CachedCommutes | server.js:120-137 | two registries' answers are cached alike in either order |
| Legacy.PkgCache.constructor | server.js:108-112 | a fresh cache knows no key |
| Legacy.PkgCache.Cache | server.js:120-138 | throws, changing nothing, iff `Object.keys(packument.versions)` throws or a version is listed and `${packument.name}` throws; otherwise the registry joins the set of every version's key |
| Legacy.FirstHit | server.js:143 | the first index in configured order that the set holds, or none |
| Legacy.Middleware | server.js:139-151 | 308 to the first configured registry remembered for the key, at the rewritten request URL; 404 iff none is |
| Legacy.DefaultRedirect | server.js:273-276 | 308 to `registries[0]` (the default of line 234) with the request's path and query; it throws iff no registry is configured |
| Legacy.HandlePackage | server.js:242-269 | the cache becomes `CachedAll` of the answers; the response is the merge of the fulfilled documents, which is the function `Misc.MergePackuments` since server.js:155-178 is the same fold |
| Legacy.PackageServedIff | server.js:242-269 | a document is served iff some registry answered with a document `cache` accepts: a `versions` object, even an empty one, under a name that displays whenever a version is listed; otherwise nothing is written |
| Legacy.CachedAllRecords | server.js:254 | after the route, each registry whose document `cache` accepted is remembered under the key of its displayed name and every version it listed |
| Legacy.ListedVersionRedirects | server.js:139-147 | a version that registry i listed redirects afterwards to registry i or to one before it |

## Left out

- Network I/O is not modelled: `getPackage`, `hasPackageVerison`, `proxy`, `fetch` and `response.json()`. Each registry's answer is an input: a document or a failure for a fetch, and confirmed, denied or rejected for a probe.
- Servers are not modelled: the HTTP server, Koa, its middleware (`assertJson`, compression, logging), router wiring, `listen` and the SIGINT shutdown.
- The status codes and bodies written by lib/registry-server.js are not modelled. Its redirect location is `Misc.RewriteBase`, which is modelled.
- Koa's implicit 404 after the legacy `/:package` route swallows an error is not modelled. The model answers `Unanswered` there.
- The legacy router's choice between `/:package`, `/:package/:version` and the fallback is not modelled. It is koa-router's path matching and parameter decoding, and the handlers are modelled per route.
- Command-line parsing with yargs is not modelled, including defaulting the default registry to the first one. It is configuration plumbing. The registries and the default registry are parameters.
- The `validate-npm-package-name` library is not modelled. It is a foreign library, so `validForOldPackages` is a parameter of `Classify`.
- Requests are treated one at a time. Interleaving of concurrent requests at `await` points is not modelled. The legacy `some` works over promises that have already settled. `Legacy.CachedCommutes` shows that the order in which the registries' answers are cached does not matter.
- Console logging is not modelled.
- URL parsing and serialisation (`new URL`, `toString`) are not modelled. URLs are records, and the builders return the record rather than its string.
- Misc.RewriteBase: the `pathname` setter's percent-encoding of characters outside the path set is taken as the identity.
- Misc.RewriteBase: the protocol setter's refusal to switch between special and non-special schemes is not modelled. The same two points apply to `Legacy.RewriteOrigin` and to the URL builders.
- Json.OwnProperties: a string's indices count Unicode characters, while JavaScript counts UTF-16 code units. The two differ for a string with a character outside the Basic Multilingual Plane.
- Numbers are integers in the model. Floating point, and the exponent form of large numbers in a `${name}` key, are not modelled.
- Lone surrogates in strings are not modelled. `encodeURIComponent` throws on them. The model's characters are Unicode scalar values.
- The order of `Object.keys` is not modelled, and neither is the order of visiting versions in a `forEach`. Cache contents and merges do not depend on them, and the methods take versions as a set.
