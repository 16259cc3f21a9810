/** The request handler of the gateway: a package document is resolved by
    asking every registry in priority order and merging what they return;
    a version is resolved from the cache, or by asking the registries in
    order whether they have it, and redirected to the first that does;
    any other path is redirected to the default registry. The upstream
    answers are inputs, one per registry. */
module Resolver {
  import opened Wrappers
  import opened Json
  import opened Url
  import Cache = PackageCache
  import Misc
  import RegistryClient

  /** What the handler does with a request. `Fault` is an exception that
      escapes the handler, so that no response is written. */
  datatype Outcome =
    | Ok(doc: Obj)
    | RedirectTo(registry: nat, location: Url)
    | RedirectDefault(location: Url)
    | NotFound
    | Fault

  /** The outcome of `getPackage` on one registry: the parsed body, or a
      rejection (a failed request or a status that is not ok). */
  datatype FetchResult = Fetched(packument: Value) | FetchFailed

  /** The outcome of `hasPackageVerison` on one registry: the response was
      ok, was not ok, or the request itself rejected. */
  datatype ProbeResult = Confirmed | Denied | ProbeFailed

  // ---------------------------------------------------------------------
  // Package documents

  /** `Object.keys(packument.versions)`, or `None` where getting there
      throws inside the `try` block: the fetch rejected, or the document
      has no `versions` object. */
  function VersionKeys(f: FetchResult): Option<set<string>> {
    match f
    case FetchFailed => None
    case Fetched(packument) => VersionsOf(packument)
  }

  /** The document a fetch returned, as an object. */
  function Doc(f: FetchResult): Obj {
    if f.Fetched? then OwnProperties(f.packument) else map[]
  }

  /** A registry whose document is pushed (once per version) onto the
      documents to merge: it answered, with at least one version. */
  predicate Contributes(f: FetchResult) {
    VersionKeys(f).Some? && VersionKeys(f).value != {}
  }

  /** A registry that answered with a document listing `version`. */
  predicate Offers(f: FetchResult, version: string) {
    VersionKeys(f).Some? && version in VersionKeys(f).value
  }

  /** The documents of the contributing registries, in registry order. */
  function Contributors(fetches: seq<FetchResult>): seq<Obj>
    decreases |fetches|
  {
    if fetches == [] then []
    else (if Contributes(fetches[0]) then [Doc(fetches[0])] else []) + Contributors(fetches[1..])
  }

  /** The cache keys of `versions` of `pkg`. */
  function Pairs(pkg: string, versions: set<string>): set<(string, string)> {
    set v | v in versions :: (pkg, v)
  }

  /** The cache entries after `addPkgVer(pkg, v, priority)` for every `v`
      of `versions`, in any order. */
  function AddedAll(e: Cache.Entries, pkg: string, versions: set<string>, priority: nat): Cache.Entries {
    map key | key in e.Keys + Pairs(pkg, versions) ::
      if key.0 == pkg && key.1 in versions && (key !in e || e[key] > priority) then priority else e[key]
  }

  /** Each entry after recording `versions`: the smaller of the old
      priority and `priority` for those versions, the old one elsewhere. */
  lemma AddedAllAt(e: Cache.Entries, pkg: string, versions: set<string>, priority: nat, key: (string, string))
    ensures key in AddedAll(e, pkg, versions, priority) <==> key in e || (key.0 == pkg && key.1 in versions)
    ensures key in AddedAll(e, pkg, versions, priority) ==>
      AddedAll(e, pkg, versions, priority)[key] ==
      if key.0 == pkg && key.1 in versions && (key !in e || e[key] > priority) then priority else e[key]
  {
    if key.0 == pkg && key.1 in versions {
      assert key in Pairs(pkg, versions);
    }
  }

  /** The cache entries after the registries answered `fetches` in order:
      the versions of each answer are recorded at the registry's index,
      and a registry that failed has its entries for `pkg` dropped. */
  function RootEntries(e: Cache.Entries, pkg: string, fetches: seq<FetchResult>): Cache.Entries
    decreases |fetches|
  {
    if fetches == [] then e
    else
      var n := |fetches| - 1;
      var before := RootEntries(e, pkg, fetches[..n]);
      match VersionKeys(fetches[n])
      case None => Cache.Deleted(before, pkg, n)
      case Some(versions) => AddedAll(before, pkg, versions, n)
  }

  /** The answer to a request for a package's document. */
  function RootOutcome(fetches: seq<FetchResult>): Outcome {
    var docs := Contributors(fetches);
    if docs == [] then NotFound else Ok(Misc.MergePackuments(docs))
  }

  lemma AddedAllNone(e: Cache.Entries, pkg: string, priority: nat)
    ensures AddedAll(e, pkg, {}, priority) == e
  {
    forall key ensures key in AddedAll(e, pkg, {}, priority) <==> key in e {
      AddedAllAt(e, pkg, {}, priority, key);
    }
    Cache.SameEntries(AddedAll(e, pkg, {}, priority), e);
  }

  /** Recording one version is one `addPkgVer`. */
  lemma AddedAllOne(e: Cache.Entries, pkg: string, version: string, priority: nat)
    ensures Cache.Added(e, pkg, version, priority) == AddedAll(e, pkg, {version}, priority)
  {
    var left := Cache.Added(e, pkg, version, priority);
    var right := AddedAll(e, pkg, {version}, priority);
    forall key
      ensures key in left <==> key in right
      ensures key in left ==> left[key] == right[key]
    {
      AddedAllAt(e, pkg, {version}, priority, key);
    }
    Cache.SameEntries(left, right);
  }

  /** Adding one more version is one more `addPkgVer`. */
  lemma AddedAllStep(e: Cache.Entries, pkg: string, versions: set<string>, version: string, priority: nat)
    ensures Cache.Added(AddedAll(e, pkg, versions, priority), pkg, version, priority) ==
      AddedAll(e, pkg, versions + {version}, priority)
  {
    var left := Cache.Added(AddedAll(e, pkg, versions, priority), pkg, version, priority);
    var right := AddedAll(e, pkg, versions + {version}, priority);
    forall key
      ensures key in left <==> key in right
      ensures key in left ==> left[key] == right[key]
    {
      AddedAllAt(e, pkg, versions, priority, key);
      AddedAllAt(e, pkg, versions + {version}, priority, key);
    }
    Cache.SameEntries(left, right);
  }

  lemma {:induction false} ContributorsAppend(fetches: seq<FetchResult>, f: FetchResult)
    ensures Contributors(fetches + [f]) == Contributors(fetches) + (if Contributes(f) then [Doc(f)] else [])
    decreases |fetches|
  {
    if fetches == [] {
      assert [] + [f] == [f];
      assert [f][1..] == [];
    } else {
      var head := if Contributes(fetches[0]) then [Doc(fetches[0])] else [];
      var tail := if Contributes(f) then [Doc(f)] else [];
      assert (fetches + [f])[0] == fetches[0];
      assert (fetches + [f])[1..] == fetches[1..] + [f];
      ContributorsAppend(fetches[1..], f);
      calc {
        Contributors(fetches + [f]);
        head + Contributors(fetches[1..] + [f]);
        head + (Contributors(fetches[1..]) + tail);
        { assert head + (Contributors(fetches[1..]) + tail) == (head + Contributors(fetches[1..])) + tail; }
        Contributors(fetches) + tail;
      }
    }
  }

  /** The resolution of a package document, as the handler runs it: every
      registry in index order; the versions of each answer are recorded in
      the cache and its document pushed once per version; a failure
      deletes the registry's entries for the package. */
  method ResolveRoot(cache: Cache.PackageCache, pkg: string, fetches: seq<FetchResult>) returns (outcome: Outcome)
    modifies cache
    ensures cache.Entries() == RootEntries(old(cache.Entries()), pkg, fetches)
    ensures outcome == RootOutcome(fetches)
  {
    ghost var start := cache.Entries();
    var packuments: seq<Obj> := [];
    ghost var docs: seq<Obj> := [];
    ghost var counts: seq<nat> := [];
    var priority := 0;
    while priority < |fetches|
      invariant priority <= |fetches|
      invariant cache.Entries() == RootEntries(start, pkg, fetches[..priority])
      invariant docs == Contributors(fetches[..priority])
      invariant |counts| == |docs| && Positive(counts)
      invariant packuments == Misc.Expand(docs, counts)
    {
      var f := fetches[priority];
      RootStep(start, pkg, fetches, priority);
      PushStep(docs, counts, f);
      var pushed := Visit(cache, pkg, f, priority);
      packuments := packuments + pushed;
      if Contributes(f) {
        docs := docs + [Doc(f)];
        counts := counts + [|VersionKeys(f).value|];
      }
      priority := priority + 1;
    }
    assert fetches[..priority] == fetches;
    MergedOnce(docs, counts);
    if |packuments| > 0 {
      outcome := Ok(Misc.MergePackuments(packuments));
    } else {
      outcome := NotFound;
    }
  }

  /** One registry in the loop of `ResolveRoot`, the body of its `try`:
      the versions of the answer are recorded at `priority` and the
      document pushed once per version; when the fetch or reading its
      versions throws, the registry's entries for `pkg` are deleted. */
  method Visit(cache: Cache.PackageCache, pkg: string, f: FetchResult, priority: nat) returns (pushed: seq<Obj>)
    modifies cache
    ensures cache.Entries() ==
      match VersionKeys(f)
      case None => Cache.Deleted(old(cache.Entries()), pkg, priority)
      case Some(versions) => AddedAll(old(cache.Entries()), pkg, versions, priority)
    ensures pushed == if Contributes(f) then Misc.Copies(Doc(f), |VersionKeys(f).value|) else []
  {
    match VersionKeys(f) {
      case None =>
        cache.DeletePkg(pkg, priority);
        pushed := [];
      case Some(versions) =>
        pushed := RecordVersions(cache, pkg, versions, priority, Doc(f));
        assert versions == {} ==> pushed == [];
    }
  }

  /** The documents pushed, each repeated once per version, are there iff
      some registry contributed, and merge like the contributors. */
  lemma MergedOnce(docs: seq<Obj>, counts: seq<nat>)
    requires |counts| == |docs|
    requires Positive(counts)
    ensures |Misc.Expand(docs, counts)| > 0 <==> docs != []
    ensures Misc.MergePackuments(Misc.Expand(docs, counts)) == Misc.MergePackuments(docs)
  {
    ExpandNonEmpty(docs, counts);
    Misc.MergeExpand(map[], docs, counts);
  }

  /** Every document is pushed at least once. */
  predicate Positive(counts: seq<nat>) {
    forall c :: 0 <= c < |counts| ==> counts[c] >= 1
  }

  /** The documents pushed for one more registry, in `ResolveRoot`: its
      document once per version, when it contributes. */
  lemma PushStep(docs: seq<Obj>, counts: seq<nat>, f: FetchResult)
    requires |counts| == |docs| && Positive(counts)
    ensures Contributes(f) ==>
      && Positive(counts + [|VersionKeys(f).value|])
      && Misc.Expand(docs + [Doc(f)], counts + [|VersionKeys(f).value|]) ==
         Misc.Expand(docs, counts) + Misc.Copies(Doc(f), |VersionKeys(f).value|)
  {
    if Contributes(f) {
      Misc.ExpandAppend(docs, counts, Doc(f), |VersionKeys(f).value|);
    }
  }

  /** One more registry of the loop in `ResolveRoot`: its entries and
      its document, if any, come after those of the registries before. */
  lemma RootStep(e: Cache.Entries, pkg: string, fetches: seq<FetchResult>, n: nat)
    requires n < |fetches|
    ensures RootEntries(e, pkg, fetches[..n + 1]) ==
      match VersionKeys(fetches[n])
      case None => Cache.Deleted(RootEntries(e, pkg, fetches[..n]), pkg, n)
      case Some(versions) => AddedAll(RootEntries(e, pkg, fetches[..n]), pkg, versions, n)
    ensures Contributors(fetches[..n + 1]) ==
      Contributors(fetches[..n]) + (if Contributes(fetches[n]) then [Doc(fetches[n])] else [])
  {
    assert fetches[..n + 1] == fetches[..n] + [fetches[n]];
    assert fetches[..n + 1][..n] == fetches[..n];
    ContributorsAppend(fetches[..n], fetches[n]);
  }

  /** The loop over `Object.keys(packument.versions)`: records each
      version at `priority` and pushes the document once per version. */
  method RecordVersions(cache: Cache.PackageCache, pkg: string, versions: set<string>, priority: nat, doc: Obj)
    returns (pushed: seq<Obj>)
    modifies cache
    ensures cache.Entries() == AddedAll(old(cache.Entries()), pkg, versions, priority)
    ensures pushed == Misc.Copies(doc, |versions|)
  {
    ghost var before := cache.Entries();
    pushed := [];
    var pending := versions;
    ghost var added: set<string> := {};
    ghost var order: seq<string> := [];
    while pending != {}
      invariant pending + added == versions && pending !! added
      invariant forall v :: v in order <==> v in added
      invariant cache.Entries() == AddedInOrder(before, pkg, order, priority)
      invariant pushed == Misc.Copies(doc, |added|)
      decreases pending
    {
      var version :| version in pending;
      AddedInOrderSnoc(before, pkg, order, version, priority);
      CopiesSnoc(doc, |added|);
      TakeOne(pending, added, order, version);
      cache.AddPkgVer(pkg, version, priority);
      pushed := pushed + [doc];
      pending := pending - {version};
      added := added + {version};
      order := order + [version];
    }
    assert cache.Entries() == AddedAll(before, pkg, versions, priority) by {
      AddedInOrderAll(before, pkg, order, versions, priority);
    }
  }

  /** `addPkgVer(pkg, v, priority)` for each `v` of `order` in turn. */
  function AddedInOrder(e: Cache.Entries, pkg: string, order: seq<string>, priority: nat): Cache.Entries
    decreases |order|
  {
    if order == [] then e
    else Cache.Added(AddedInOrder(e, pkg, order[..|order| - 1], priority), pkg, order[|order| - 1], priority)
  }

  /** Moving one pending version to the recorded ones. */
  lemma TakeOne(pending: set<string>, added: set<string>, order: seq<string>, version: string)
    requires version in pending && pending !! added
    requires forall v :: v in order <==> v in added
    ensures (pending - {version}) + (added + {version}) == pending + added
    ensures (pending - {version}) !! (added + {version})
    ensures |added + {version}| == |added| + 1
    ensures forall v :: v in order + [version] <==> v in added + {version}
  {
  }

  /** One more version recorded after `order`. */
  lemma AddedInOrderSnoc(e: Cache.Entries, pkg: string, order: seq<string>, version: string, priority: nat)
    ensures AddedInOrder(e, pkg, order + [version], priority) ==
      Cache.Added(AddedInOrder(e, pkg, order, priority), pkg, version, priority)
  {
    assert (order + [version])[..|order|] == order;
  }

  /** The order in which the versions are recorded does not matter. */
  lemma {:induction false} AddedInOrderAll(e: Cache.Entries, pkg: string, order: seq<string>, versions: set<string>,
                                           priority: nat)
    requires forall v :: v in order <==> v in versions
    ensures AddedInOrder(e, pkg, order, priority) == AddedAll(e, pkg, versions, priority)
    decreases |order|
  {
    if order == [] {
      assert versions == {};
      AddedAllNone(e, pkg, priority);
    } else {
      var n := |order| - 1;
      var init := set v | v in order[..n];
      AddedInOrderAll(e, pkg, order[..n], init, priority);
      AddedAllStep(e, pkg, init, order[n], priority);
      assert init + {order[n]} == versions by {
        forall v ensures v in init + {order[n]} <==> v in versions {
          if v in order {
            var j :| 0 <= j < |order| && order[j] == v;
            if j < n {
              assert order[..n][j] == v;
            }
          }
        }
      }
    }
  }

  lemma CopiesSnoc(doc: Obj, n: nat)
    ensures Misc.Copies(doc, n + 1) == Misc.Copies(doc, n) + [doc]
  {
  }

  lemma ExpandNonEmpty(docs: seq<Obj>, counts: seq<nat>)
    requires |counts| == |docs|
    requires Positive(counts)
    ensures |Misc.Expand(docs, counts)| > 0 <==> docs != []
  {
  }

  /** The document is found iff some registry answered with at least one
      version. */
  lemma {:induction false} RootFoundIff(fetches: seq<FetchResult>)
    ensures RootOutcome(fetches).Ok? <==> exists i :: 0 <= i < |fetches| && Contributes(fetches[i])
    ensures RootOutcome(fetches).NotFound? <==> forall i :: 0 <= i < |fetches| ==> !Contributes(fetches[i])
    decreases |fetches|
  {
    if fetches != [] {
      RootFoundIff(fetches[1..]);
      assert forall i :: 0 < i < |fetches| ==> fetches[1..][i - 1] == fetches[i];
      if exists i :: 1 <= i < |fetches| && Contributes(fetches[i]) {
        var i :| 1 <= i < |fetches| && Contributes(fetches[i]);
        assert Contributes(fetches[1..][i - 1]);
      }
    }
  }

  /** The versions a document offers, as an object. */
  function Offered(f: FetchResult): Obj {
    OwnProperties(Get(Doc(f), "versions"))
  }

  lemma OfferedKeys(f: FetchResult, version: string)
    ensures Offers(f, version) <==> VersionKeys(f).Some? && version in Offered(f)
  {
  }

  lemma {:induction false} ContributorsVersions(fetches: seq<FetchResult>)
    requires fetches != []
    ensures OwnProperties(Misc.FieldFold("versions", Undefined, Contributors(fetches))) ==
      (OwnProperties(Misc.FieldFold("versions", Undefined, Contributors(fetches[1..]))) +
       (if Contributes(fetches[0]) then Offered(fetches[0]) else map[])) - {ProtoKey}
  {
    var rest := Contributors(fetches[1..]);
    if Contributes(fetches[0]) {
      assert Contributors(fetches) == [Doc(fetches[0])] + rest;
      assert ([Doc(fetches[0])] + rest)[1..] == rest;
    } else {
      assert Contributors(fetches) == [] + rest;
      assert Contributors(fetches) == rest;
      var folded := OwnProperties(Misc.FieldFold("versions", Undefined, rest));
      if rest == [] {
        assert folded == map[];
      } else {
        assert folded == (OwnProperties(Misc.FieldFold("versions", Undefined, rest[1..])) +
          OwnProperties(Get(rest[0], "versions"))) - {ProtoKey};
      }
      assert (folded + map[]) - {ProtoKey} == folded;
    }
  }

  /** The versions of the merged document: a version is there iff some
      registry offers it and it is not `__proto__`, which `Object.assign`
      does not copy; its description is that of the lowest-index registry
      that offers it. */
  lemma {:induction false} RootVersions(fetches: seq<FetchResult>, version: string)
    requires RootOutcome(fetches).Ok?
    ensures version in OwnProperties(Get(RootOutcome(fetches).doc, "versions")) <==>
      version != ProtoKey && exists i :: 0 <= i < |fetches| && Offers(fetches[i], version)
    ensures forall i ::
      && version != ProtoKey
      && (0 <= i < |fetches| && Offers(fetches[i], version) && (forall j :: 0 <= j < i ==> !Offers(fetches[j], version)))
      ==>
      && version in OwnProperties(Get(RootOutcome(fetches).doc, "versions"))
      && OwnProperties(Get(RootOutcome(fetches).doc, "versions"))[version] == Offered(fetches[i])[version]
  {
    Misc.FoldGet(map[], Contributors(fetches), "versions");
    FoldVersions(fetches, version);
  }

  /** `m` holds exactly the versions but `__proto__` that some registry
      offers, each with the description of the lowest-index registry that
      offers it. */
  predicate FirstOffers(m: Obj, fetches: seq<FetchResult>, version: string) {
    && (version in m <==> version != ProtoKey && exists i :: 0 <= i < |fetches| && Offers(fetches[i], version))
    && forall i ::
      && version != ProtoKey
      && (0 <= i < |fetches| && Offers(fetches[i], version) && (forall j :: 0 <= j < i ==> !Offers(fetches[j], version)))
      ==>
      m[version] == Offered(fetches[i])[version]
  }

  lemma {:induction false} FoldVersions(fetches: seq<FetchResult>, version: string)
    ensures FirstOffers(OwnProperties(Misc.FieldFold("versions", Undefined, Contributors(fetches))), fetches, version)
    decreases |fetches|
  {
    if fetches != [] {
      FoldVersions(fetches[1..], version);
      ContributorsVersions(fetches);
      FirstOffersStep(fetches, version,
        OwnProperties(Misc.FieldFold("versions", Undefined, Contributors(fetches[1..]))));
    }
  }

  /** One more registry in front of those that gave `tail`. */
  lemma FirstOffersStep(fetches: seq<FetchResult>, version: string, tail: Obj)
    requires fetches != []
    requires FirstOffers(tail, fetches[1..], version)
    ensures FirstOffers((tail + (if Contributes(fetches[0]) then Offered(fetches[0]) else map[])) - {ProtoKey},
      fetches, version)
  {
    var merged := (tail + (if Contributes(fetches[0]) then Offered(fetches[0]) else map[])) - {ProtoKey};
    var offers := (f: FetchResult) => Offers(f, version);
    VersionsHead(fetches[0], tail, version);
    SomeShift(fetches, offers);
    forall i | version != ProtoKey && 1 <= i < |fetches| && Offers(fetches[i], version) &&
        (forall j :: 0 <= j < i ==> !Offers(fetches[j], version))
      ensures merged[version] == Offered(fetches[i])[version]
    {
      FirstShift(fetches, offers, i);
    }
  }

  /** Some element of a non-empty sequence satisfies `p` iff its head does
      or some element of its tail does. */
  lemma SomeShift<T>(xs: seq<T>, p: T -> bool)
    requires xs != []
    ensures (exists i :: 0 <= i < |xs| && p(xs[i])) <==> p(xs[0]) || exists i :: 0 <= i < |xs[1..]| && p(xs[1..][i])
  {
    if exists i :: 0 <= i < |xs[1..]| && p(xs[1..][i]) {
      var i :| 0 <= i < |xs[1..]| && p(xs[1..][i]);
      assert xs[i + 1] == xs[1..][i];
    }
    if exists i :: 1 <= i < |xs| && p(xs[i]) {
      var i :| 1 <= i < |xs| && p(xs[i]);
      assert xs[1..][i - 1] == xs[i];
    }
  }

  /** Element `i >= 1` is the first satisfying `p` in a sequence when
      element `i - 1` is the first in its tail. */
  lemma FirstShift<T>(xs: seq<T>, p: T -> bool, i: nat)
    requires 1 <= i < |xs|
    ensures xs[1..][i - 1] == xs[i]
    ensures (forall j :: 0 <= j < i ==> !p(xs[j])) ==> forall j :: 0 <= j < i - 1 ==> !p(xs[1..][j])
  {
    forall j | 0 <= j < i - 1
      ensures xs[1..][j] == xs[j + 1]
    {
    }
  }

  /** The versions after one more document merged over `tail`: its own
      versions win, it adds exactly the versions it offers, and
      `__proto__` is dropped. */
  lemma VersionsHead(f: FetchResult, tail: Obj, version: string)
    ensures var merged := (tail + (if Contributes(f) then Offered(f) else map[])) - {ProtoKey};
      && (version in merged <==> version != ProtoKey && (version in tail || Offers(f, version)))
      && (version != ProtoKey && Offers(f, version) ==> merged[version] == Offered(f)[version])
      && (version != ProtoKey && !Offers(f, version) && version in tail ==> merged[version] == tail[version])
  {
    OfferedKeys(f, version);
  }

  /** Root resolution touches no other package's entries. */
  lemma {:induction false} RootOtherPackages(e: Cache.Entries, pkg: string, fetches: seq<FetchResult>, key: (string, string))
    requires key.0 != pkg
    ensures key in RootEntries(e, pkg, fetches) <==> key in e
    ensures key in e ==> RootEntries(e, pkg, fetches)[key] == e[key]
    decreases |fetches|
  {
    if fetches != [] {
      RootOtherPackages(e, pkg, fetches[..|fetches| - 1], key);
    }
  }

  /** After root resolution every version a registry offered is recorded,
      at that registry's index or a lower one. */
  lemma {:induction false} RootRecords(e: Cache.Entries, pkg: string, fetches: seq<FetchResult>, i: nat, version: string)
    requires i < |fetches| && Offers(fetches[i], version)
    ensures (pkg, version) in RootEntries(e, pkg, fetches)
    ensures RootEntries(e, pkg, fetches)[(pkg, version)] <= i
    decreases |fetches|
  {
    var n := |fetches| - 1;
    if i < n {
      assert fetches[..n][i] == fetches[i];
      RootRecords(e, pkg, fetches[..n], i, version);
    }
  }

  /** For a version the cache did not know, the recorded index is exactly
      that of the first registry offering it. */
  lemma {:induction false} RootRecordsFirst(e: Cache.Entries, pkg: string, fetches: seq<FetchResult>, i: nat, version: string)
    requires (pkg, version) !in e
    requires i < |fetches| && Offers(fetches[i], version)
    requires forall j :: 0 <= j < i ==> !Offers(fetches[j], version)
    ensures (pkg, version) in RootEntries(e, pkg, fetches)
    ensures RootEntries(e, pkg, fetches)[(pkg, version)] == i
    decreases |fetches|
  {
    var n := |fetches| - 1;
    if i < n {
      assert fetches[..n][i] == fetches[i];
      assert forall j :: 0 <= j < i ==> fetches[..n][j] == fetches[j];
      RootRecordsFirst(e, pkg, fetches[..n], i, version);
    } else {
      assert forall j :: 0 <= j < n ==> fetches[..n][j] == fetches[j];
      RootAbsent(e, pkg, fetches[..n], version);
    }
  }

  /** A version the cache did not know and no registry offers stays unknown. */
  lemma {:induction false} RootAbsent(e: Cache.Entries, pkg: string, fetches: seq<FetchResult>, version: string)
    requires (pkg, version) !in e
    requires forall j :: 0 <= j < |fetches| ==> !Offers(fetches[j], version)
    ensures (pkg, version) !in RootEntries(e, pkg, fetches)
    decreases |fetches|
  {
    if fetches != [] {
      var n := |fetches| - 1;
      var init := fetches[..n];
      assert forall j :: 0 <= j < n ==> init[j] == fetches[j];
      RootAbsent(e, pkg, init, version);
      var before := RootEntries(e, pkg, init);
      assert !Offers(fetches[n], version);
      match VersionKeys(fetches[n])
      case None =>
        assert RootEntries(e, pkg, fetches) == Cache.Deleted(before, pkg, n);
      case Some(versions) =>
        assert version !in versions;
        assert RootEntries(e, pkg, fetches) == AddedAll(before, pkg, versions, n);
    }
  }

  /** No entry of the package is left at the index of a registry that failed. */
  lemma {:induction false} RootFailureClears(e: Cache.Entries, pkg: string, fetches: seq<FetchResult>, i: nat)
    requires i < |fetches| && VersionKeys(fetches[i]).None?
    ensures forall key :: key in RootEntries(e, pkg, fetches) && key.0 == pkg ==>
      RootEntries(e, pkg, fetches)[key] != i
    decreases |fetches|
  {
    var n := |fetches| - 1;
    if i < n {
      assert fetches[..n][i] == fetches[i];
      RootFailureClears(e, pkg, fetches[..n], i);
    }
  }

  /** When no registry contributes, the answer is 404 and no entry is created. */
  lemma {:induction false} RootNothingOffered(e: Cache.Entries, pkg: string, fetches: seq<FetchResult>)
    requires forall i :: 0 <= i < |fetches| ==> !Contributes(fetches[i])
    ensures RootOutcome(fetches) == NotFound
    ensures RootEntries(e, pkg, fetches).Keys <= e.Keys
    decreases |fetches|
  {
    RootFoundIff(fetches);
    if fetches != [] {
      var n := |fetches| - 1;
      assert forall j :: 0 <= j < n ==> fetches[..n][j] == fetches[j];
      RootNothingOffered(e, pkg, fetches[..n]);
      RootKeysStep(e, pkg, fetches);
    }
  }

  /** A last registry that contributes nothing creates no entry. */
  lemma RootKeysStep(e: Cache.Entries, pkg: string, fetches: seq<FetchResult>)
    requires fetches != [] && !Contributes(fetches[|fetches| - 1])
    ensures RootEntries(e, pkg, fetches).Keys <= RootEntries(e, pkg, fetches[..|fetches| - 1]).Keys
  {
    var n := |fetches| - 1;
    var before := RootEntries(e, pkg, fetches[..n]);
    match VersionKeys(fetches[n])
    case None =>
    case Some(versions) =>
      AddedAllNone(before, pkg, n);
  }

  /** Every recorded index names a registry. */
  predicate Bounded(e: Cache.Entries, registries: nat) {
    forall key :: key in e ==> e[key] < registries
  }

  lemma {:induction false} RootBounded(e: Cache.Entries, pkg: string, fetches: seq<FetchResult>, registries: nat)
    requires Bounded(e, registries) && |fetches| <= registries
    ensures Bounded(RootEntries(e, pkg, fetches), registries)
    decreases |fetches|
  {
    if fetches != [] {
      RootBounded(e, pkg, fetches[..|fetches| - 1], registries);
    }
  }

  // ---------------------------------------------------------------------
  // Versions

  /** Where probing the registries from index `i` on stops. */
  datatype Scan = Found(index: nat) | Failed(index: nat) | NoneConfirmed

  /** Probes in index order: stops at the first registry that has the
      version, or at the first probe that rejects. */
  function ScanFrom(probes: seq<ProbeResult>, i: nat): (r: Scan)
    ensures r.Found? ==> i <= r.index < |probes| && probes[r.index] == Confirmed
    ensures r.Failed? ==> i <= r.index < |probes| && probes[r.index] == ProbeFailed
    decreases |probes| - i
  {
    if i >= |probes| then NoneConfirmed
    else
      match probes[i]
      case Confirmed => Found(i)
      case ProbeFailed => Failed(i)
      case Denied => ScanFrom(probes, i + 1)
  }

  /** A redirect to registry `i`, or the exception of reading the root of
      `backends[i]` when there is no such registry. */
  function RedirectToRegistry(backends: seq<RegistryClient.Client>, i: nat, request: Url): Outcome {
    if i < |backends| then RedirectTo(i, Misc.RewriteBase(request, backends[i].root)) else Fault
  }

  /** The answer to a request for one version. A cache hit redirects to
      `backends[getPkgVer(pkg, version)]`; a stored 0 reads as NaN there,
      and indexing with NaN yields no registry. */
  function VersionOutcome(e: Cache.Entries, backends: seq<RegistryClient.Client>, pkg: string, version: string,
                          request: Url, probes: seq<ProbeResult>): Outcome
    requires |probes| == |backends|
  {
    if (pkg, version) in e then
      match Cache.Lookup(e, pkg, version)
      case NaN => Fault
      case Priority(i) => RedirectToRegistry(backends, i, request)
    else
      match ScanFrom(probes, 0)
      case Found(i) => RedirectTo(i, Misc.RewriteBase(request, backends[i].root))
      case Failed(_) => Fault
      case NoneConfirmed => NotFound
  }

  /** The cache after a version request: the registry that confirmed is
      recorded; nothing else changes. */
  function VersionEntries(e: Cache.Entries, pkg: string, version: string, probes: seq<ProbeResult>): Cache.Entries {
    if (pkg, version) in e then e
    else
      match ScanFrom(probes, 0)
      case Found(i) => Cache.Added(e, pkg, version, i)
      case _ => e
  }

  /** How many registries a version request probes. */
  function ProbesMade(e: Cache.Entries, pkg: string, version: string, probes: seq<ProbeResult>): nat {
    if (pkg, version) in e then 0
    else
      match ScanFrom(probes, 0)
      case Found(i) => i + 1
      case Failed(i) => i + 1
      case NoneConfirmed => |probes|
  }

  /** The resolution of a version, as the handler runs it. */
  method ResolveVersion(cache: Cache.PackageCache, backends: seq<RegistryClient.Client>, pkg: string, version: string,
                        request: Url, probes: seq<ProbeResult>) returns (outcome: Outcome, probed: nat)
    requires |probes| == |backends|
    modifies cache
    ensures outcome == VersionOutcome(old(cache.Entries()), backends, pkg, version, request, probes)
    ensures cache.Entries() == VersionEntries(old(cache.Entries()), pkg, version, probes)
    ensures probed == ProbesMade(old(cache.Entries()), pkg, version, probes)
  {
    if cache.HasPkgVer(pkg, version) {
      var priority := cache.GetPkgVer(pkg, version);
      match priority
      case NaN =>
        return Fault, 0;
      case Priority(i) =>
        if i < |backends| {
          return RedirectTo(i, Misc.RewriteBase(request, backends[i].root)), 0;
        }
        return Fault, 0;
    }
    outcome, probed := Probe(cache, backends, pkg, version, request, probes);
  }

  /** The probing loop of `ResolveVersion`, for a version the cache does
      not know: each registry in index order until one has the version
      (recorded at its index, and redirected to) or a probe rejects. */
  method Probe(cache: Cache.PackageCache, backends: seq<RegistryClient.Client>, pkg: string, version: string,
               request: Url, probes: seq<ProbeResult>) returns (outcome: Outcome, probed: nat)
    requires |probes| == |backends|
    requires (pkg, version) !in cache.Entries()
    modifies cache
    ensures outcome == VersionOutcome(old(cache.Entries()), backends, pkg, version, request, probes)
    ensures cache.Entries() == VersionEntries(old(cache.Entries()), pkg, version, probes)
    ensures probed == ProbesMade(old(cache.Entries()), pkg, version, probes)
  {
    var i := 0;
    while i < |probes|
      invariant i <= |probes|
      invariant ScanFrom(probes, i) == ScanFrom(probes, 0)
      invariant cache.Entries() == old(cache.Entries())
    {
      match probes[i] {
        case ProbeFailed =>
          return Fault, i + 1;
        case Confirmed =>
          cache.AddPkgVer(pkg, version, i);
          return RedirectTo(i, Misc.RewriteBase(request, backends[i].root)), i + 1;
        case Denied =>
      }
      i := i + 1;
    }
    return NotFound, |probes|;
  }

  /** Probing finds registry `i` iff it is the first that has the version
      and every registry before it answered that it has not. */
  lemma {:induction false} ScanFound(probes: seq<ProbeResult>, from: nat, i: nat)
    requires from <= i
    ensures ScanFrom(probes, from) == Found(i) <==>
      i < |probes| && probes[i] == Confirmed && forall j :: from <= j < i ==> probes[j] == Denied
    decreases |probes| - from
  {
    if from < |probes| && from < i && probes[from] == Denied {
      ScanFound(probes, from + 1, i);
    }
  }

  /** Probing finds nothing iff every registry answered that it has not. */
  lemma {:induction false} ScanNone(probes: seq<ProbeResult>, from: nat)
    ensures ScanFrom(probes, from) == NoneConfirmed <==> forall j :: from <= j < |probes| ==> probes[j] == Denied
    decreases |probes| - from
  {
    if from < |probes| {
      ScanNone(probes, from + 1);
    }
  }

  /** A cache hit at a nonzero index redirects there, probing nothing; at
      index 0 it faults, as `getPkgVer` reads 0 as NaN. */
  lemma VersionHit(e: Cache.Entries, backends: seq<RegistryClient.Client>, pkg: string, version: string,
                   request: Url, probes: seq<ProbeResult>)
    requires |probes| == |backends| && Bounded(e, |backends|)
    requires (pkg, version) in e
    ensures e[(pkg, version)] == 0 ==> VersionOutcome(e, backends, pkg, version, request, probes) == Fault
    ensures e[(pkg, version)] != 0 ==>
      VersionOutcome(e, backends, pkg, version, request, probes) ==
      RedirectTo(e[(pkg, version)], Misc.RewriteBase(request, backends[e[(pkg, version)]].root))
    ensures ProbesMade(e, pkg, version, probes) == 0
    ensures VersionEntries(e, pkg, version, probes) == e
  {
    Cache.LookupOfStored(e, pkg, version);
  }

  /** On a miss, the request redirects to registry `i` iff it is the first
      to confirm with all before it denying; the cache then records `i`,
      and the registries after `i` are not probed. */
  lemma VersionMissFound(e: Cache.Entries, backends: seq<RegistryClient.Client>, pkg: string, version: string,
                         request: Url, probes: seq<ProbeResult>, i: nat)
    requires |probes| == |backends| && (pkg, version) !in e
    requires i < |probes| && probes[i] == Confirmed && forall j :: 0 <= j < i ==> probes[j] == Denied
    ensures VersionOutcome(e, backends, pkg, version, request, probes) ==
      RedirectTo(i, Misc.RewriteBase(request, backends[i].root))
    ensures VersionEntries(e, pkg, version, probes) == Cache.Added(e, pkg, version, i)
    ensures VersionEntries(e, pkg, version, probes)[(pkg, version)] == i
    ensures ProbesMade(e, pkg, version, probes) == i + 1
  {
    ScanFound(probes, 0, i);
  }

  /** On a miss, the answer is 404 iff every registry denies; the cache is
      then unchanged and every registry was probed. */
  lemma VersionMissNone(e: Cache.Entries, backends: seq<RegistryClient.Client>, pkg: string, version: string,
                        request: Url, probes: seq<ProbeResult>)
    requires |probes| == |backends| && (pkg, version) !in e
    ensures VersionOutcome(e, backends, pkg, version, request, probes) == NotFound <==>
      forall j :: 0 <= j < |probes| ==> probes[j] == Denied
    ensures VersionOutcome(e, backends, pkg, version, request, probes) == NotFound ==>
      VersionEntries(e, pkg, version, probes) == e && ProbesMade(e, pkg, version, probes) == |probes|
  {
    ScanNone(probes, 0);
  }

  lemma VersionBounded(e: Cache.Entries, pkg: string, version: string, probes: seq<ProbeResult>, registries: nat)
    requires Bounded(e, registries) && |probes| <= registries
    ensures Bounded(VersionEntries(e, pkg, version, probes), registries)
  {
  }

  // ---------------------------------------------------------------------
  // The handler

  /** One request: the path of `request` is classified; a package or a
      version is resolved against `backends`; any other path redirects to
      the default registry `fallback`, and a malformed escape in the path
      throws. The cache keeps naming registries only. */
  method Handle(cache: Cache.PackageCache, backends: seq<RegistryClient.Client>, fallback: RegistryClient.Client,
                request: Url, validForOldPackages: string -> bool,
                fetches: seq<FetchResult>, probes: seq<ProbeResult>) returns (outcome: Outcome)
    requires |fetches| == |backends| && |probes| == |backends|
    modifies cache
    ensures RegistryClient.Classify(request.pathname, validForOldPackages).Malformed? ==>
      outcome == Fault && cache.cache == old(cache.cache)
    ensures RegistryClient.Classify(request.pathname, validForOldPackages).Unclassified? ==>
      outcome == RedirectDefault(Misc.RewriteBase(request, fallback.root)) && cache.cache == old(cache.cache)
    ensures RegistryClient.Classify(request.pathname, validForOldPackages).PackageRoot? ==>
      var pkg := RegistryClient.Classify(request.pathname, validForOldPackages).pkg;
      outcome == RootOutcome(fetches) && cache.Entries() == RootEntries(old(cache.Entries()), pkg, fetches)
    ensures RegistryClient.Classify(request.pathname, validForOldPackages).PackageVersion? ==>
      var cls := RegistryClient.Classify(request.pathname, validForOldPackages);
      && outcome == VersionOutcome(old(cache.Entries()), backends, cls.pkg, cls.version, request, probes)
      && cache.Entries() == VersionEntries(old(cache.Entries()), cls.pkg, cls.version, probes)
    ensures Bounded(old(cache.Entries()), |backends|) ==> Bounded(cache.Entries(), |backends|)
  {
    var cls := RegistryClient.Classify(request.pathname, validForOldPackages);
    match cls
    case Malformed =>
      outcome := Fault;
    case Unclassified =>
      outcome := RedirectDefault(Misc.RewriteBase(request, fallback.root));
    case PackageRoot(pkg) =>
      ghost var before := cache.Entries();
      outcome := ResolveRoot(cache, pkg, fetches);
      if Bounded(before, |backends|) {
        RootBounded(before, pkg, fetches, |backends|);
      }
    case PackageVersion(pkg, version) =>
      ghost var before := cache.Entries();
      var probed;
      outcome, probed := ResolveVersion(cache, backends, pkg, version, request, probes);
      if Bounded(before, |backends|) {
        VersionBounded(before, pkg, version, probes, |backends|);
      }
  }
}
