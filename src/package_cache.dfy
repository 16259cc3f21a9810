/** The version-location cache: for each package and version, the priority
    (index in the configured list) of the registry known to serve it. The
    source keeps a map from package to a map from version to priority; the
    methods below are stated on the flattened view, one map from
    (package, version) to priority, and the pure functions on that view
    are the specification. */
module PackageCache {

  /** The flattened cache: (package, version) to priority. */
  type Entries = map<(string, string), nat>

  /** What `getPkgVer` returns: a JavaScript number, a priority or NaN. */
  datatype Number = NaN | Priority(value: nat)

  /** The flattened view of a map of maps. */
  function Flatten(cache: map<string, map<string, nat>>): Entries {
    map pkg, version | pkg in cache && version in cache[pkg] :: (pkg, version) := cache[pkg][version]
  }

  /** One entry of the flattened view: present iff its package has a map
      holding its version, with the priority stored there. */
  lemma FlattenAt(cache: map<string, map<string, nat>>, key: (string, string))
    ensures key in Flatten(cache) <==> key.0 in cache && key.1 in cache[key.0]
    ensures key in Flatten(cache) ==> Flatten(cache)[key] == cache[key.0][key.1]
  {
  }

  /** `addPkgVer` on the flattened view: the entry becomes the smaller of
      the stored priority and the new one, or the new one when there was
      none; every other entry is kept. */
  function Added(e: Entries, pkg: string, version: string, priority: nat): (r: Entries)
    ensures (pkg, version) in r
    ensures r[(pkg, version)] ==
      if (pkg, version) in e && e[(pkg, version)] < priority then e[(pkg, version)] else priority
    ensures r.Keys == e.Keys + {(pkg, version)}
    ensures forall key :: key in e && key != (pkg, version) ==> r[key] == e[key]
  {
    if (pkg, version) !in e || e[(pkg, version)] > priority then e[(pkg, version) := priority] else e
  }

  /** `deletePkg` on the flattened view: exactly the versions of `pkg`
      stored with `priority` are removed. */
  function Deleted(e: Entries, pkg: string, priority: nat): (r: Entries)
    ensures forall key :: key in r <==> key in e && !(key.0 == pkg && e[key] == priority)
    ensures forall key :: key in r ==> r[key] == e[key]
  {
    map key | key in e && !(key.0 == pkg && e[key] == priority) :: e[key]
  }

  /** `getPkgVer` on the flattened view: `vers.get(version) || NaN` makes a
      missing entry NaN, and also an entry whose priority is 0. */
  function Lookup(e: Entries, pkg: string, version: string): (r: Number)
    ensures r.NaN? <==> (pkg, version) !in e || e[(pkg, version)] == 0
    ensures r.Priority? ==> r.value == e[(pkg, version)] && r.value > 0
  {
    if (pkg, version) in e && e[(pkg, version)] != 0 then Priority(e[(pkg, version)]) else NaN
  }

  /** Adding with a priority no smaller than the stored one changes nothing. */
  lemma AddedNeverRaises(e: Entries, pkg: string, version: string, priority: nat)
    requires (pkg, version) in e && e[(pkg, version)] <= priority
    ensures Added(e, pkg, version, priority) == e
  {
  }

  /** Two additions for the same entry keep the smaller priority, whatever
      their order. */
  lemma AddedTwice(e: Entries, pkg: string, version: string, first: nat, second: nat)
    ensures Added(Added(e, pkg, version, first), pkg, version, second)
         == Added(e, pkg, version, if first < second then first else second)
  {
    var min := if first < second then first else second;
    var left := Added(Added(e, pkg, version, first), pkg, version, second);
    var right := Added(e, pkg, version, min);
    assert left.Keys == right.Keys;
    forall key | key in left
      ensures left[key] == right[key]
    {
    }
  }

  /** The cache does not depend on the order in which additions arrive. */
  lemma AddedCommutes(e: Entries, p1: string, v1: string, k1: nat, p2: string, v2: string, k2: nat)
    ensures Added(Added(e, p1, v1, k1), p2, v2, k2) == Added(Added(e, p2, v2, k2), p1, v1, k1)
  {
    var left := Added(Added(e, p1, v1, k1), p2, v2, k2);
    var right := Added(Added(e, p2, v2, k2), p1, v1, k1);
    assert left.Keys == right.Keys;
    forall key | key in left
      ensures left[key] == right[key]
    {
    }
  }

  /** Invalidation leaves no entry of `pkg` at `priority`, keeps every other
      entry, and is idempotent. */
  lemma DeletedExactly(e: Entries, pkg: string, priority: nat)
    ensures forall key :: key in Deleted(e, pkg, priority) ==> !(key.0 == pkg && e[key] == priority)
    ensures forall key :: key in e && (key.0 != pkg || e[key] != priority) ==>
      key in Deleted(e, pkg, priority) && Deleted(e, pkg, priority)[key] == e[key]
    ensures Deleted(Deleted(e, pkg, priority), pkg, priority) == Deleted(e, pkg, priority)
  {
    var once := Deleted(e, pkg, priority);
    assert Deleted(once, pkg, priority).Keys == once.Keys;
  }

  /** The quirk of `getPkgVer`: an entry stored at priority 0 is present,
      yet reads back as NaN; every other stored entry reads back exactly. */
  lemma LookupOfStored(e: Entries, pkg: string, version: string)
    requires (pkg, version) in e
    ensures e[(pkg, version)] == 0 ==> Lookup(e, pkg, version) == NaN
    ensures e[(pkg, version)] != 0 ==> Lookup(e, pkg, version) == Priority(e[(pkg, version)])
  {
  }

  /** The versions of `vers` that a `deletePkg` pass keeps once it has
      visited all but `pending`. */
  function Kept(vers: map<string, nat>, pending: set<string>, priority: nat): map<string, nat> {
    map v | v in vers && (v in pending || vers[v] != priority) :: vers[v]
  }

  /** What `addPkgVer` writes, seen on the flattened view. */
  lemma AddedFlatten(cache: map<string, map<string, nat>>, pkg: string, version: string, priority: nat,
                     vers: map<string, nat>, written: map<string, nat>)
    requires vers == if pkg in cache then cache[pkg] else map[]
    requires written == if version !in vers || vers[version] > priority then vers[version := priority] else vers
    ensures Flatten(cache[pkg := written]) == Added(Flatten(cache), pkg, version, priority)
  {
    var left := Flatten(cache[pkg := written]);
    var right := Added(Flatten(cache), pkg, version, priority);
    forall key
      ensures key in left <==> key in right
      ensures key in left ==> left[key] == right[key]
    {
      AddedFlattenAt(cache, pkg, version, priority, vers, written, key);
    }
    SameEntries(left, right);
  }

  /** Two maps with the same keys and the same values are equal. */
  lemma SameEntries(a: Entries, b: Entries)
    requires forall key :: key in a <==> key in b
    requires forall key :: key in a ==> a[key] == b[key]
    ensures a == b
  {
    assert a.Keys == b.Keys;
  }

  lemma AddedFlattenAt(cache: map<string, map<string, nat>>, pkg: string, version: string, priority: nat,
                       vers: map<string, nat>, written: map<string, nat>, key: (string, string))
    requires vers == if pkg in cache then cache[pkg] else map[]
    requires written == if version !in vers || vers[version] > priority then vers[version := priority] else vers
    ensures key in Flatten(cache[pkg := written]) <==> key in Added(Flatten(cache), pkg, version, priority)
    ensures key in Flatten(cache[pkg := written]) ==>
      Flatten(cache[pkg := written])[key] == Added(Flatten(cache), pkg, version, priority)[key]
  {
    var before := Flatten(cache);
    var after := cache[pkg := written];
    var added := Added(before, pkg, version, priority);
    FlattenAt(cache, key);
    FlattenAt(after, key);
    assert key in added <==> key in before || key == (pkg, version) by {
      assert added.Keys == before.Keys + {(pkg, version)};
    }
    if key.0 == pkg {
      assert after[key.0] == written;
      assert key in before <==> key.1 in vers;
      assert key.1 in written <==> key.1 in vers || key.1 == version;
      if key.1 == version {
        assert key == (pkg, version);
      }
    } else {
      assert key.0 in after <==> key.0 in cache;
      assert key.0 in cache ==> after[key.0] == cache[key.0];
      assert key != (pkg, version);
    }
  }

  /** What `deletePkg` leaves, seen on the flattened view. */
  lemma DeletedFlatten(cache: map<string, map<string, nat>>, pkg: string, priority: nat)
    requires pkg in cache
    ensures Flatten(cache[pkg := Kept(cache[pkg], {}, priority)]) == Deleted(Flatten(cache), pkg, priority)
  {
    var kept := Kept(cache[pkg], {}, priority);
    var left := Flatten(cache[pkg := kept]);
    var right := Deleted(Flatten(cache), pkg, priority);
    forall key
      ensures key in left <==> key in right
      ensures key in left ==> left[key] == right[key]
    {
      FlattenAt(cache[pkg := kept], key);
      FlattenAt(cache, key);
    }
    SameEntries(left, right);
  }

  lemma UnknownPackage(cache: map<string, map<string, nat>>, pkg: string, priority: nat)
    requires pkg !in cache
    ensures Deleted(Flatten(cache), pkg, priority) == Flatten(cache)
  {
    var e := Flatten(cache);
    forall key
      ensures key in e <==> key in Deleted(e, pkg, priority)
      ensures key in e ==> e[key] == Deleted(e, pkg, priority)[key]
    {
      FlattenAt(cache, key);
    }
    SameEntries(e, Deleted(e, pkg, priority));
  }

  class PackageCache {
    /** package -> version -> priority */
    var cache: map<string, map<string, nat>>

    /** The flattened view of the cache. */
    ghost function Entries(): Entries
      reads this
    {
      Flatten(cache)
    }

    constructor ()
      ensures cache == map[]
      ensures Entries() == map[]
    {
      cache := map[];
    }

    /** `hasPkgVer`: whether an entry exists for (pkg, version). */
    function HasPkgVer(pkg: string, version: string): (b: bool)
      reads this
      ensures b <==> (pkg, version) in Entries()
    {
      FlattenAt(cache, (pkg, version));
      pkg in cache && version in cache[pkg]
    }

    /** `getPkgVer`: the stored priority, NaN when absent or 0. */
    function GetPkgVer(pkg: string, version: string): (r: Number)
      reads this
      ensures r == Lookup(Entries(), pkg, version)
    {
      FlattenAt(cache, (pkg, version));
      if pkg !in cache then NaN
      else
        var vers := cache[pkg];
        if version in vers && vers[version] != 0 then Priority(vers[version]) else NaN
    }

    /** `addPkgVer`: creates the (empty) version map of `pkg` when it is
        absent, then stores `priority` unless a smaller one is stored. */
    method AddPkgVer(pkg: string, version: string, priority: nat)
      modifies this
      ensures Entries() == Added(old(Entries()), pkg, version, priority)
      ensures cache.Keys == old(cache.Keys) + {pkg}
    {
      ghost var before := cache;
      var vers: map<string, nat>;
      if pkg in cache {
        vers := cache[pkg];
        assert cache == before[pkg := vers] by {
          assert cache.Keys == before[pkg := vers].Keys;
        }
      } else {
        vers := map[];
        cache := cache[pkg := vers];
      }
      ghost var found := vers;
      if version !in vers || vers[version] > priority {
        vers := vers[version := priority];
        cache := cache[pkg := vers];
      }
      assert cache.Keys == before.Keys + {pkg};
      assert Entries() == Added(Flatten(before), pkg, version, priority) by {
        assert cache == before[pkg := vers];
        AddedFlatten(before, pkg, version, priority, found, vers);
      }
    }

    /** `deletePkg`: visits every version of `pkg` and removes those stored
        with `priority`; nothing happens when `pkg` is unknown. */
    method DeletePkg(pkg: string, priority: nat)
      modifies this
      ensures Entries() == Deleted(old(Entries()), pkg, priority)
      ensures cache.Keys == old(cache.Keys)
    {
      if pkg in cache {
        var vers := cache[pkg];
        var pending := vers.Keys;
        assert Kept(vers, pending, priority) == vers;
        while pending != {}
          invariant pending <= vers.Keys
          invariant cache == old(cache)[pkg := Kept(vers, pending, priority)]
          decreases pending
        {
          var ver :| ver in pending;
          if vers[ver] == priority {
            assert Kept(vers, pending - {ver}, priority) == cache[pkg] - {ver};
            cache := cache[pkg := cache[pkg] - {ver}];
          } else {
            assert Kept(vers, pending - {ver}, priority) == cache[pkg];
          }
          pending := pending - {ver};
        }
        assert Entries() == Deleted(old(Entries()), pkg, priority) by {
          DeletedFlatten(old(cache), pkg, priority);
        }
      } else {
        assert Entries() == Deleted(Entries(), pkg, priority) by {
          UnknownPackage(cache, pkg, priority);
        }
      }
    }
  }
}
