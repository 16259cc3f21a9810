/** The earlier, single-file gateway: every registry is asked for a
    package document at once and the answers that arrive are merged; the
    versions each registry listed are remembered, as sets of registries
    per `name@version` key, so that a version request can be redirected
    to the first configured registry that listed it. URLs are rewritten
    by replacing their origin only. */
module Legacy {
  import Wrappers
  import opened Json
  import opened Url
  import Misc
  import PosixPath

  /** What a route answers: 200 with a document, 308 to a registry (by
      its index in the configured list), 404, no answer written by the
      handler, or an exception. */
  datatype Response =
    | Served(body: Obj)
    | Redirected(registry: nat, location: Url)
    | NotFound
    | Unanswered
    | Fault

  // ---------------------------------------------------------------------
  // some

  /** A promise once it has settled. */
  datatype Settled<T, E> = Resolved(value: T) | Rejected(error: E)

  /** What `some` settles to: the values with the errors attached, or the
      array of errors it throws. */
  datatype Aggregate<T, E> = Values(values: seq<T>, errors: seq<E>) | Throws(errors: seq<E>)

  /** The fulfilled values of `settled`, in order. */
  function ValuesOf<T, E>(settled: seq<Settled<T, E>>): seq<T>
    decreases |settled|
  {
    if settled == [] then []
    else
      var n := |settled| - 1;
      ValuesOf(settled[..n]) + (if settled[n].Resolved? then [settled[n].value] else [])
  }

  /** The rejection reasons of `settled`, in order. */
  function ErrorsOf<T, E>(settled: seq<Settled<T, E>>): seq<E>
    decreases |settled|
  {
    if settled == [] then []
    else
      var n := |settled| - 1;
      ErrorsOf(settled[..n]) + (if settled[n].Rejected? then [settled[n].error] else [])
  }

  /** The outcome of `some`: a success as soon as one value exists. */
  function SomeOf<T, E>(settled: seq<Settled<T, E>>): Aggregate<T, E> {
    var values := ValuesOf(settled);
    if |values| > 0 then Values(values, ErrorsOf(settled)) else Throws(ErrorsOf(settled))
  }

  /** `some(promises)` over promises that have settled: awaits each in
      turn, collecting values and rejection reasons; throws the reasons
      iff no promise fulfilled, which includes an empty input. */
  method Some<T, E>(settled: seq<Settled<T, E>>) returns (r: Aggregate<T, E>)
    ensures r == SomeOf(settled)
    ensures r.Throws? <==> forall i :: 0 <= i < |settled| ==> settled[i].Rejected?
    ensures r.Values? ==> |r.values| + |r.errors| == |settled|
  {
    var values: seq<T> := [];
    var errors: seq<E> := [];
    for i := 0 to |settled|
      invariant values == ValuesOf(settled[..i])
      invariant errors == ErrorsOf(settled[..i])
    {
      assert settled[..i + 1][..i] == settled[..i];
      match settled[i] {
        case Resolved(value) =>
          values := values + [value];
        case Rejected(error) =>
          errors := errors + [error];
      }
    }
    assert settled[..|settled|] == settled;
    ValuesEmpty(settled);
    SettledCounts(settled);
    if |values| > 0 {
      r := Values(values, errors);
    } else {
      r := Throws(errors);
    }
  }

  /** No value iff every promise rejected. */
  lemma {:induction false} ValuesEmpty<T, E>(settled: seq<Settled<T, E>>)
    ensures ValuesOf(settled) == [] <==> forall i :: 0 <= i < |settled| ==> settled[i].Rejected?
    decreases |settled|
  {
    if settled != [] {
      var n := |settled| - 1;
      ValuesEmpty(settled[..n]);
      assert forall i :: 0 <= i < n ==> settled[..n][i] == settled[i];
    }
  }

  /** Every promise gives exactly one value or one error. */
  lemma {:induction false} SettledCounts<T, E>(settled: seq<Settled<T, E>>)
    ensures |ValuesOf(settled)| + |ErrorsOf(settled)| == |settled|
    decreases |settled|
  {
    if settled != [] {
      SettledCounts(settled[..|settled| - 1]);
    }
  }

  /** The value of promise `i` sits after the values of the promises
      before it: values keep the input order. */
  lemma {:induction false} ValuesInOrder<T, E>(settled: seq<Settled<T, E>>, i: nat)
    requires i < |settled| && settled[i].Resolved?
    ensures |ValuesOf(settled[..i])| < |ValuesOf(settled)|
    ensures ValuesOf(settled)[|ValuesOf(settled[..i])|] == settled[i].value
    decreases |settled|
  {
    var n := |settled| - 1;
    if i < n {
      assert settled[..n][..i] == settled[..i];
      ValuesInOrder(settled[..n], i);
    } else {
      assert settled[..i] == settled[..n];
    }
  }

  /** The reason of rejected promise `i` sits after the reasons of the
      promises before it: errors keep the input order. */
  lemma {:induction false} ErrorsInOrder<T, E>(settled: seq<Settled<T, E>>, i: nat)
    requires i < |settled| && settled[i].Rejected?
    ensures |ErrorsOf(settled[..i])| < |ErrorsOf(settled)|
    ensures ErrorsOf(settled)[|ErrorsOf(settled[..i])|] == settled[i].error
    decreases |settled|
  {
    var n := |settled| - 1;
    if i < n {
      assert settled[..n][..i] == settled[..i];
      ErrorsInOrder(settled[..n], i);
    } else {
      assert settled[..i] == settled[..n];
    }
  }

  // ---------------------------------------------------------------------
  // rewriteOrigin

  /** `rewriteOrigin(source, destination)`: a copy of `source` whose
      protocol, host and port are the destination's; credentials, path,
      query and fragment stay the source's. */
  function RewriteOrigin(source: Url, destination: Url): (r: Url)
    ensures r.protocol == destination.protocol
    ensures r.hostname == destination.hostname && r.port == destination.port
    ensures r.Host() == destination.Host()
    ensures r.username == source.username && r.password == source.password
    ensures r.pathname == source.pathname && r.search == source.search && r.hash == source.hash
  {
    var copy := source;
    var withProtocol := copy.(protocol := destination.protocol);
    var withHost := WithHostOf(withProtocol, destination);
    WithPortOf(withHost, destination)
  }

  /** Rewriting twice is rewriting onto the second destination; with one
      destination, rewriting is idempotent. */
  lemma RewriteOriginLastWins(source: Url, first: Url, second: Url)
    ensures RewriteOrigin(RewriteOrigin(source, first), second) == RewriteOrigin(source, second)
    ensures RewriteOrigin(RewriteOrigin(source, second), second) == RewriteOrigin(source, second)
  {
  }

  /** Where the destination has no credentials and the root path, the
      base rewriting of the newer gateway agrees with this one on clean
      absolute paths. */
  lemma RewriteOriginAsBase(source: Url, destination: Url, path: seq<string>, trailing: bool)
    requires destination.username == [] && destination.password == []
    requires source.username == [] && source.password == []
    requires destination.pathname == "/"
    requires forall i :: 0 <= i < |path| ==> PosixPath.Clean(path[i])
    requires source.pathname == PosixPath.Absolute(path, trailing)
    requires trailing ==> path != []
    ensures Misc.RewriteBase(source, destination) == RewriteOrigin(source, destination)
  {
    assert PosixPath.Absolute([], false) == "/";
    Misc.RewriteBaseCleanPaths(source, destination, [], false, path, trailing);
    assert [] + path == path;
  }

  // ---------------------------------------------------------------------
  // The cache keys

  /** ToString, as a template literal applies it; `None` where that
      throws a TypeError. An array joins its elements with ',', writing
      `undefined` and `null` as nothing. A parsed object has no callable
      property: an own `toString` hides the inherited method, and the
      inherited `valueOf` gives back the object, not a primitive, so such
      an object throws; any other object is "[object Object]". */
  function Display(v: Value): Wrappers.Option<string>
    decreases v
  {
    match v
    case Undefined => Wrappers.Some("undefined")
    case Null => Wrappers.Some("null")
    case Bool(b) => Wrappers.Some(if b then "true" else "false")
    case Number(n) => Wrappers.Some(if n < 0 then "-" + Decimal(-n) else Decimal(n))
    case Str(s) => Wrappers.Some(s)
    case Array(items) =>
      var parts := seq(|items|, k requires 0 <= k < |items| =>
        if items[k].Undefined? || items[k].Null? then Wrappers.Some("") else Display(items[k]));
      if forall k :: 0 <= k < |parts| ==> parts[k].Some?
      then Wrappers.Some(PosixPath.JoinWith(seq(|parts|, k requires 0 <= k < |parts| => parts[k].value), ','))
      else Wrappers.None
    case Object(fields) => if "toString" in fields then Wrappers.None else Wrappers.Some("[object Object]")
  }

  /** When displaying throws: an object with an own `toString`, or an
      array with an element that throws; a string displays as itself. */
  lemma DisplayThrows(v: Value)
    ensures v.Object? ==> (Display(v).None? <==> "toString" in v.fields)
    ensures v.Array? ==> (Display(v).None? <==>
      exists k :: 0 <= k < |v.items| && !v.items[k].Undefined? && !v.items[k].Null? && Display(v.items[k]).None?)
    ensures v.Str? ==> Display(v) == Wrappers.Some(v.s)
    ensures !v.Object? && !v.Array? ==> Display(v).Some?
  {
    if v.Array? {
      var items := v.items;
      var parts := seq(|items|, k requires 0 <= k < |items| =>
        if items[k].Undefined? || items[k].Null? then Wrappers.Some("") else Display(items[k]));
      assert forall k :: 0 <= k < |items| ==>
        (parts[k].None? <==> !items[k].Undefined? && !items[k].Null? && Display(items[k]).None?);
    }
  }

  /** The key `${name}@${version} }` under which a version is remembered,
      for a name that displays as `name`. */
  function Tarball(name: string, version: string): string {
    name + "@" + version + " }"
  }

  /** For one package name, distinct versions have distinct keys. */
  lemma TarballInjective(name: string, version: string, other: string)
    requires Tarball(name, version) == Tarball(name, other)
    ensures version == other
  {
    var prefix := name + "@";
    var key := Tarball(name, version);
    assert |version| == |other|;
    forall j | 0 <= j < |version|
      ensures version[j] == other[j]
    {
      assert key[|prefix| + j] == version[j];
      assert Tarball(name, other)[|prefix| + j] == other[j];
    }
  }

  /** `packument.name`. */
  function Name(packument: Value): Value {
    Get(OwnProperties(packument), "name")
  }

  /** The keys of `versions` of a package named `name`. */
  function TarballsOf(name: string, versions: set<string>): set<string> {
    set v | v in versions :: Tarball(name, v)
  }

  /** Whether `cache(packument, registry)` throws: `Object.keys` throws
      where there is no `versions` object, and the key of the first
      version throws where the name cannot be displayed. With no version
      the name is never displayed. */
  predicate CacheThrows(packument: Value) {
    || VersionsOf(packument).None?
    || (VersionsOf(packument).value != {} && Display(Name(packument)).None?)
  }

  /** The keys `cache` remembers the registry under. */
  function CacheKeys(packument: Value): set<string>
    requires !CacheThrows(packument)
  {
    match Display(Name(packument))
    case Some(name) => TarballsOf(name, VersionsOf(packument).value)
    case None => {}
  }

  /** A route parameter is a string, and a string displays as itself, so
      the key the middleware looks up for `pkg` and `version` is one that
      `cache` writes for a document named `pkg` listing `version`. */
  lemma TarballOfName(packument: Value, pkg: string, version: string)
    requires Name(packument) == Str(pkg) && !CacheThrows(packument)
    requires version in VersionsOf(packument).value
    ensures Tarball(pkg, version) in CacheKeys(packument)
  {
  }

  /** A document named by an object with its own `toString` makes `cache`
      throw as soon as it lists a version; its promise then rejects. */
  lemma ToStringNameThrows(packument: Value)
    requires Name(packument).Object? && "toString" in Name(packument).fields
    requires VersionsOf(packument).Some? && VersionsOf(packument).value != {}
    ensures CacheThrows(packument)
    ensures Settle(Answered(packument)) == Rejected(CacheThrew)
  {
    DisplayThrows(Name(packument));
  }

  // ---------------------------------------------------------------------
  // PkgCache

  /** The remembered keys after `registry` is added to the set under each
      of `keys`, a set being created where there was none. */
  function Cached(pkgs: map<string, set<nat>>, keys: set<string>, registry: nat): map<string, set<nat>> {
    map k | k in pkgs.Keys + keys :: (if k in pkgs then pkgs[k] else {}) + (if k in keys then {registry} else {})
  }

  /** One key of `Cached`. */
  lemma CachedAt(pkgs: map<string, set<nat>>, keys: set<string>, registry: nat, k: string)
    ensures k in Cached(pkgs, keys, registry) <==> k in pkgs || k in keys
    ensures k in Cached(pkgs, keys, registry) ==>
      Cached(pkgs, keys, registry)[k] == (if k in pkgs then pkgs[k] else {}) + (if k in keys then {registry} else {})
  {
  }

  /** Sets only grow, every key of `keys` gains `registry`, and no other
      key changes. */
  lemma CachedGrows(pkgs: map<string, set<nat>>, keys: set<string>, registry: nat, k: string)
    ensures k in pkgs ==> k in Cached(pkgs, keys, registry) && pkgs[k] <= Cached(pkgs, keys, registry)[k]
    ensures k in keys ==> k in Cached(pkgs, keys, registry) && registry in Cached(pkgs, keys, registry)[k]
    ensures k !in keys ==> (k in Cached(pkgs, keys, registry) <==> k in pkgs)
    ensures k !in keys && k in pkgs ==> Cached(pkgs, keys, registry)[k] == pkgs[k]
  {
    CachedAt(pkgs, keys, registry, k);
  }

  /** Remembering one more key. */
  lemma CachedStep(pkgs: map<string, set<nat>>, keys: set<string>, registry: nat, k: string)
    ensures var before := Cached(pkgs, keys, registry);
      Cached(pkgs, keys + {k}, registry) ==
      before[k := (if k in before then before[k] else {}) + {registry}]
  {
    var before := Cached(pkgs, keys, registry);
    var left := Cached(pkgs, keys + {k}, registry);
    var right := before[k := (if k in before then before[k] else {}) + {registry}];
    forall key
      ensures key in left <==> key in right
      ensures key in left ==> left[key] == right[key]
    {
      CachedAt(pkgs, keys, registry, key);
      CachedAt(pkgs, keys + {k}, registry, key);
    }
    assert left.Keys == right.Keys;
  }

  /** Two registries' answers are remembered alike in either order, so
      the order in which concurrent answers arrive does not matter. */
  lemma CachedCommutes(pkgs: map<string, set<nat>>, keys: set<string>, registry: nat,
                       others: set<string>, other: nat)
    ensures Cached(Cached(pkgs, keys, registry), others, other) ==
      Cached(Cached(pkgs, others, other), keys, registry)
  {
    var left := Cached(Cached(pkgs, keys, registry), others, other);
    var right := Cached(Cached(pkgs, others, other), keys, registry);
    forall key
      ensures key in left <==> key in right
      ensures key in left ==> left[key] == right[key]
    {
      CachedAt(pkgs, keys, registry, key);
      CachedAt(pkgs, others, other, key);
      CachedAt(Cached(pkgs, keys, registry), others, other, key);
      CachedAt(Cached(pkgs, others, other), keys, registry, key);
    }
    assert left.Keys == right.Keys;
  }

  /** `PkgCache(registries)`: the configured registries, by index, and
      for each `name@version` key the set of registries whose document
      listed that version. A registry is identified by its position, as
      the source compares the configured URL objects by identity. */
  class PkgCache {
    const registries: seq<Url>
    var pkgs: map<string, set<nat>>

    constructor (registries: seq<Url>)
      ensures this.registries == registries
      ensures pkgs == map[]
    {
      this.registries := registries;
      pkgs := map[];
    }

    /** `cache(packument, registry)`: remembers `registry` under the key
        of every version the document lists; throws, changing nothing,
        where the document has no `versions` object, or where it lists a
        version and its name cannot be displayed. */
    method Cache(packument: Value, registry: nat) returns (thrown: bool)
      modifies this
      ensures thrown <==> CacheThrows(packument)
      ensures thrown ==> pkgs == old(pkgs)
      ensures !thrown ==> pkgs == Cached(old(pkgs), CacheKeys(packument), registry)
    {
      match VersionsOf(packument) {
        case None =>
          thrown := true;
        case Some(versions) =>
          thrown := false;
          var name := Name(packument);
          var pending := versions;
          ghost var visited: set<string> := {};
          assert Cached(pkgs, {}, registry) == pkgs by {
            forall key | key in pkgs
              ensures key in Cached(pkgs, {}, registry) && Cached(pkgs, {}, registry)[key] == pkgs[key]
            {
              CachedAt(pkgs, {}, registry, key);
            }
          }
          if Display(name).Some? {
            assert TarballsOf(Display(name).value, {}) == {};
          }
          while pending != {}
            invariant pending + visited == versions && pending !! visited
            invariant Display(name).None? ==> visited == {} && pkgs == old(pkgs)
            invariant Display(name).Some? ==>
              pkgs == Cached(old(pkgs), TarballsOf(Display(name).value, visited), registry)
            decreases pending
          {
            var version :| version in pending;
            var displayed := Display(name);
            if displayed.None? {
              thrown := true;
              return;
            }
            var tarball := Tarball(displayed.value, version);
            var hits: set<nat>;
            if tarball in pkgs {
              hits := pkgs[tarball];
            } else {
              hits := {};
            }
            pkgs := pkgs[tarball := hits + {registry}];
            CachedStep(old(pkgs), TarballsOf(displayed.value, visited), registry, tarball);
            assert TarballsOf(displayed.value, visited + {version}) == TarballsOf(displayed.value, visited) + {tarball};
            pending := pending - {version};
            visited := visited + {version};
          }
          assert visited == versions;
      }
    }
  }

  /** `registries.find(registry => hits.has(registry))`, from position
      `from` on: the first index below `count` that `hits` holds. */
  function FirstHit(hits: set<nat>, count: nat, from: nat): (r: Wrappers.Option<nat>)
    ensures r.Some? ==> from <= r.value < count && r.value in hits
    ensures r.Some? ==> forall j :: from <= j < r.value ==> j !in hits
    ensures r.None? ==> forall j :: from <= j < count ==> j !in hits
    decreases count - from
  {
    if from >= count then Wrappers.None
    else if from in hits then Wrappers.Some(from)
    else FirstHit(hits, count, from + 1)
  }

  /** The registries remembered under `tarball`, none when it is unknown. */
  function Hits(pkgs: map<string, set<nat>>, tarball: string): set<nat> {
    if tarball in pkgs then pkgs[tarball] else {}
  }

  /** The middleware for `/:package/:version` over the remembered keys
      `pkgs`: 308 to the first configured registry remembered for the
      key, with the request's URL rewritten onto it; 404 when none is. */
  function Middleware(registries: seq<Url>, pkgs: map<string, set<nat>>, pkg: string, version: string, request: Url)
    : (r: Response)
    ensures r.Redirected? || r.NotFound?
    ensures r.NotFound? <==>
      forall j :: 0 <= j < |registries| ==> j !in Hits(pkgs, Tarball(pkg, version))
    ensures r.Redirected? ==>
      && r.registry < |registries|
      && r.registry in Hits(pkgs, Tarball(pkg, version))
      && (forall j :: 0 <= j < r.registry ==> j !in Hits(pkgs, Tarball(pkg, version)))
      && r.location == RewriteOrigin(request, registries[r.registry])
  {
    var hits := Hits(pkgs, Tarball(pkg, version));
    match FirstHit(hits, |registries|, 0)
    case Some(i) => Redirected(i, RewriteOrigin(request, registries[i]))
    case None => NotFound
  }

  /** The route every other request falls through to: 308 to the first
      configured registry; with no registry configured, `registries[0]`
      is undefined and rewriting onto it throws. */
  function DefaultRedirect(registries: seq<Url>, request: Url): (r: Response)
    ensures r.Fault? <==> registries == []
    ensures registries != [] ==> r.Redirected? && r.registry == 0
    ensures r.Redirected? ==> r.location.pathname == request.pathname && r.location.search == request.search
    ensures r.Redirected? ==> r.location.Host() == registries[0].Host()
  {
    if registries == [] then Fault else Redirected(0, RewriteOrigin(request, registries[0]))
  }

  // ---------------------------------------------------------------------
  // The `/:package` route

  /** What one registry answered: a parsed document, or a rejection (the
      request failed or its status was not ok). */
  datatype Upstream = Answered(packument: Value) | Failed

  /** Why a registry's promise rejected. */
  datatype Rejection = RequestFailed | CacheThrew

  /** How one registry's promise settles: a document that makes `cache`
      throw rejects it. */
  function Settle(u: Upstream): Settled<Value, Rejection> {
    match u
    case Failed => Rejected(RequestFailed)
    case Answered(packument) => if CacheThrows(packument) then Rejected(CacheThrew) else Resolved(packument)
  }

  /** The settled promises, one per registry. */
  function SettledOf(upstream: seq<Upstream>): (r: seq<Settled<Value, Rejection>>)
    ensures |r| == |upstream|
    decreases |upstream|
  {
    if upstream == [] then []
    else SettledOf(upstream[..|upstream| - 1]) + [Settle(upstream[|upstream| - 1])]
  }

  /** A registry whose document was merged and its versions remembered. */
  predicate Lists(u: Upstream) {
    u.Answered? && !CacheThrows(u.packument)
  }

  /** The remembered keys after the registries answered `upstream`, the
      answer of registry `i` cached under `i`. */
  function CachedAll(pkgs: map<string, set<nat>>, upstream: seq<Upstream>): map<string, set<nat>>
    decreases |upstream|
  {
    if upstream == [] then pkgs
    else
      var n := |upstream| - 1;
      var before := CachedAll(pkgs, upstream[..n]);
      if Lists(upstream[n])
      then Cached(before, CacheKeys(upstream[n].packument), n)
      else before
  }

  /** The documents as the merge reads them. */
  function Documents(values: seq<Value>): (r: seq<Obj>)
    ensures |r| == |values|
  {
    seq(|values|, k requires 0 <= k < |values| => OwnProperties(values[k]))
  }

  /** The answer of the `/:package` route. */
  function PackageResponse(upstream: seq<Upstream>): Response {
    match SomeOf(SettledOf(upstream))
    case Values(values, _) => Served(Misc.MergePackuments(Documents(values)))
    case Throws(_) => Unanswered
  }

  /** The `/:package` route: asks every registry, remembers the versions
      of each document, and answers with the merge of the documents in
      registry order; when no registry gave a document the error is
      swallowed and nothing is written. */
  method HandlePackage(pc: PkgCache, upstream: seq<Upstream>) returns (response: Response)
    requires |upstream| == |pc.registries|
    modifies pc
    ensures pc.pkgs == CachedAll(old(pc.pkgs), upstream)
    ensures response == PackageResponse(upstream)
  {
    var settled: seq<Settled<Value, Rejection>> := [];
    for i := 0 to |upstream|
      invariant settled == SettledOf(upstream[..i])
      invariant pc.pkgs == CachedAll(old(pc.pkgs), upstream[..i])
    {
      assert upstream[..i + 1][..i] == upstream[..i];
      match upstream[i] {
        case Failed =>
          settled := settled + [Rejected(RequestFailed)];
        case Answered(packument) =>
          var thrown := pc.Cache(packument, i);
          if thrown {
            settled := settled + [Rejected(CacheThrew)];
          } else {
            settled := settled + [Resolved(packument)];
          }
      }
    }
    assert upstream[..|upstream|] == upstream;
    var aggregate := Some(settled);
    match aggregate {
      case Values(values, _) =>
        response := Served(Misc.MergePackuments(Documents(values)));
      case Throws(_) =>
        response := Unanswered;
    }
  }

  /** The route serves a document iff some registry answered with a
      document `cache` accepts: a `versions` object, even an empty one,
      under a name that displays when there is a version. */
  lemma PackageServedIff(upstream: seq<Upstream>)
    ensures PackageResponse(upstream).Served? <==> exists i :: 0 <= i < |upstream| && Lists(upstream[i])
    ensures PackageResponse(upstream).Served? || PackageResponse(upstream) == Unanswered
  {
    var settled := SettledOf(upstream);
    SettledAt(upstream);
    ValuesEmpty(settled);
    if exists i :: 0 <= i < |upstream| && Lists(upstream[i]) {
      var i :| 0 <= i < |upstream| && Lists(upstream[i]);
      assert settled[i].Resolved?;
    }
  }

  /** Promise `i` settles as registry `i` answered. */
  lemma {:induction false} SettledAt(upstream: seq<Upstream>)
    ensures forall i :: 0 <= i < |upstream| ==> SettledOf(upstream)[i] == Settle(upstream[i])
    decreases |upstream|
  {
    if upstream != [] {
      var n := |upstream| - 1;
      SettledAt(upstream[..n]);
      assert forall i :: 0 <= i < n ==> upstream[..n][i] == upstream[i];
    }
  }

  /** After the route, a registry's index is remembered under the key of
      every version its document listed. */
  lemma {:induction false} CachedAllRecords(pkgs: map<string, set<nat>>, upstream: seq<Upstream>, i: nat, version: string)
    requires i < |upstream| && Lists(upstream[i])
    requires version in VersionsOf(upstream[i].packument).value
    ensures Display(Name(upstream[i].packument)).Some?
    ensures var key := Tarball(Display(Name(upstream[i].packument)).value, version);
      key in CachedAll(pkgs, upstream) && i in CachedAll(pkgs, upstream)[key]
    decreases |upstream|
  {
    var n := |upstream| - 1;
    var key := Tarball(Display(Name(upstream[i].packument)).value, version);
    assert key in CacheKeys(upstream[i].packument);
    var before := CachedAll(pkgs, upstream[..n]);
    if i < n {
      assert upstream[..n][i] == upstream[i];
      CachedAllRecords(pkgs, upstream[..n], i, version);
      if Lists(upstream[n]) {
        CachedGrows(before, CacheKeys(upstream[n].packument), n, key);
      }
    } else {
      CachedGrows(before, CacheKeys(upstream[n].packument), n, key);
    }
  }

  /** After the route, a request for a version that registry `i` listed,
      under the name its document carries, is redirected to registry `i`
      or to a registry configured before it. */
  lemma ListedVersionRedirects(registries: seq<Url>, pkgs: map<string, set<nat>>, upstream: seq<Upstream>,
                               i: nat, pkg: string, version: string, request: Url)
    requires |upstream| == |registries|
    requires i < |upstream| && Lists(upstream[i])
    requires Name(upstream[i].packument) == Str(pkg)
    requires version in VersionsOf(upstream[i].packument).value
    ensures Middleware(registries, CachedAll(pkgs, upstream), pkg, version, request).Redirected?
    ensures Middleware(registries, CachedAll(pkgs, upstream), pkg, version, request).registry <= i
  {
    CachedAllRecords(pkgs, upstream, i, version);
    var hits := Hits(CachedAll(pkgs, upstream), Tarball(pkg, version));
    assert i in hits;
  }
}
