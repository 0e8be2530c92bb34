/**
 * The World of package gecs: the component store, the entity lifecycle
 * (auto-destroy on the last counted component, resurrection on a later
 * write), the per-(system, filter) entity cache with its two rebuild
 * algorithms, the system registry and scheduler, and the one-frame system.
 *
 * The central invariant, World.Valid(), says among other things that for
 * every registered filter with a non-empty Include list the cached entity
 * list holds exactly the entities that match the filter in the current store.
 */
module Gecs {
  import opened Maybe
  import opened Filters

  /** reflect.TypeOf of a system: the built-in *oneFrame type or a user type. */
  datatype SystemType = OneFrameType | UserType(id: nat)

  /** The optional SystemIniter capability and what its Init returns. */
  datatype InitHook = NoInit | InitOk | InitFails(err: string)

  /**
   * A registered system. A user system is known by its type, the filters its
   * GetFilters returns and its optional Init/Destroy capabilities; its Update
   * callback only receives its slots. The one-frame system (NewOneFrame)
   * deletes its component from every entity it is handed.
   */
  datatype System =
    | User(id: nat, filters: seq<SystemFilter>, init: InitHook, destroyer: bool)
    | OneFrame(c: Arg)
  {
    function Type(): SystemType
    {
      if OneFrame? then OneFrameType else UserType(id)
    }

    /** GetFilters; for the one-frame system the single filter Include = [c]. */
    function GetFilters(): seq<SystemFilter>
    {
      if OneFrame? then [SystemFilter([c], [])] else filters
    }

    predicate HasInit() { User? && init != NoInit }

    predicate HasDestroy() { User? && destroyer }

    /** An Init that returns an error. */
    predicate InitFails() { User? && init.InitFails? }
  }

  /** The filter NewOneFrame's system registers: Include holds the type of c, Exclude is empty. */
  lemma OneFrameFilterTypes(c: Arg)
    ensures OneFrame(c).Type() == OneFrameType
    ensures ToTypesAll(OneFrame(c).GetFilters()) == [FilterTypes([TypeOf(c)], [])]
  {
    var fs := OneFrame(c).GetFilters();
    assert TypesOf(fs[0].Include) == [TypeOf(c)];
    assert TypesOf(fs[0].Exclude) == [];
  }

  /** The error SystemsInit returns: the failing system's type and its error. */
  datatype InitError = InitError(system: SystemType, err: string)

  datatype RunError = ZeroFps | InitFailed(e: InitError)

  /** One call of a system's Update during a tick, with the slots it received. */
  datatype Call = Call(system: SystemType, delta: int, slots: seq<seq<Entity>>)

  type FilterMap = map<SystemType, seq<FilterTypes>>
  type CacheMap = map<SystemType, map<nat, seq<Entity>>>

  // ---------------------------------------------------------------------
  // The system registry as a function of the registered systems
  // ---------------------------------------------------------------------

  predicate DistinctTypes(ss: seq<System>)
  {
    forall i, j :: 0 <= i < j < |ss| ==> ss[i].Type() != ss[j].Type()
  }

  /** systemFilters as AddSystem builds it: one entry per system with filters. */
  function FiltersOf(ss: seq<System>): FilterMap
    decreases |ss|
  {
    if ss == [] then map[]
    else
      var m := FiltersOf(ss[..|ss| - 1]);
      var s := ss[|ss| - 1];
      if |s.GetFilters()| == 0 then m else m[s.Type() := ToTypesAll(s.GetFilters())]
  }

  lemma {:induction false} FiltersOfAbsent(ss: seq<System>, st: SystemType)
    requires forall i :: 0 <= i < |ss| ==> ss[i].Type() != st
    ensures st !in FiltersOf(ss)
    decreases |ss|
  {
    if ss != [] {
      FiltersOfAbsent(ss[..|ss| - 1], st);
    }
  }

  /** Every registered type is found in systemFilters with its converted filters. */
  lemma {:induction false} FiltersOfLookup(ss: seq<System>, i: nat)
    requires DistinctTypes(ss) && i < |ss|
    ensures |ss[i].GetFilters()| > 0 ==>
      ss[i].Type() in FiltersOf(ss) && FiltersOf(ss)[ss[i].Type()] == ToTypesAll(ss[i].GetFilters())
    ensures |ss[i].GetFilters()| == 0 ==> ss[i].Type() !in FiltersOf(ss)
    decreases |ss|
  {
    var init := ss[..|ss| - 1];
    if i < |ss| - 1 {
      FiltersOfLookup(init, i);
    } else {
      FiltersOfAbsent(init, ss[i].Type());
    }
  }

  /** Every key of systemFilters belongs to a registered system that has filters. */
  lemma {:induction false} FiltersOfKeys(ss: seq<System>, st: SystemType) returns (i: nat)
    requires st in FiltersOf(ss)
    ensures i < |ss| && ss[i].Type() == st && |ss[i].GetFilters()| > 0
    decreases |ss|
  {
    var init, last := ss[..|ss| - 1], ss[|ss| - 1];
    if |last.GetFilters()| > 0 && last.Type() == st {
      i := |ss| - 1;
    } else {
      i := FiltersOfKeys(init, st);
    }
  }

  lemma DistinctInit(ss: seq<System>)
    requires DistinctTypes(ss) && ss != []
    ensures DistinctTypes(ss[..|ss| - 1])
  {
    var init := ss[..|ss| - 1];
    forall a, b | 0 <= a < b < |init|
      ensures init[a].Type() != init[b].Type()
    {
      assert init[a] == ss[a] && init[b] == ss[b];
    }
  }

  /** Splicing a system out of the registry drops exactly its filter entry. */
  lemma {:induction false} FiltersOfRemove(ss: seq<System>, i: nat)
    requires DistinctTypes(ss) && i < |ss|
    ensures FiltersOf(ss[..i] + ss[i + 1..]) == FiltersOf(ss) - {ss[i].Type()}
    decreases |ss|
  {
    var st := ss[i].Type();
    var init, last := ss[..|ss| - 1], ss[|ss| - 1];
    if i == |ss| - 1 {
      assert ss[..i] + ss[i + 1..] == init;
      FiltersOfAbsent(init, st);
    } else {
      var rest := ss[..i] + ss[i + 1..];
      assert rest[..|rest| - 1] == init[..i] + init[i + 1..];
      assert rest[|rest| - 1] == last;
      DistinctInit(ss);
      FiltersOfRemove(init, i);
      assert last.Type() != st;
      if |last.GetFilters()| > 0 {
        RemoveOtherEntry(FiltersOf(init), st, last.Type(), ToTypesAll(last.GetFilters()));
      }
    }
  }

  lemma RemoveOtherEntry(m: FilterMap, st: SystemType, other: SystemType, fs: seq<FilterTypes>)
    requires other != st
    ensures (m - {st})[other := fs] == m[other := fs] - {st}
  {
  }

  /** The registry after RemoveSystem: the first system of that type spliced out. */
  function FirstOfType(ss: seq<System>, st: SystemType): (i: nat)
    ensures i <= |ss|
    ensures i < |ss| ==> ss[i].Type() == st
    ensures forall j :: 0 <= j < i ==> ss[j].Type() != st
  {
    if ss == [] then 0
    else if ss[0].Type() == st then 0
    else 1 + FirstOfType(ss[1..], st)
  }

  function RemoveType(ss: seq<System>, st: SystemType): seq<System>
  {
    var i := FirstOfType(ss, st);
    if i < |ss| then ss[..i] + ss[i + 1..] else ss
  }

  /** RemoveSystem's splice keeps one registration per type, leaves none of type st, and drops its filter entry. */
  lemma RemoveTypeFacts(ss: seq<System>, st: SystemType)
    requires DistinctTypes(ss)
    ensures DistinctTypes(RemoveType(ss, st))
    ensures forall j :: 0 <= j < |RemoveType(ss, st)| ==> RemoveType(ss, st)[j].Type() != st
    ensures FiltersOf(RemoveType(ss, st)) == FiltersOf(ss) - {st}
  {
    var i := FirstOfType(ss, st);
    if i < |ss| {
      SpliceDistinct(ss, i, ss[..i] + ss[i + 1..]);
      FiltersOfRemove(ss, i);
    } else {
      FiltersOfAbsent(ss, st);
    }
  }

  /** Splicing out the system at i keeps the types distinct and leaves none of its type. */
  lemma SpliceDistinct(ss: seq<System>, i: nat, r: seq<System>)
    requires DistinctTypes(ss) && i < |ss| && r == ss[..i] + ss[i + 1..]
    ensures DistinctTypes(r)
    ensures forall j :: 0 <= j < |r| ==> r[j].Type() != ss[i].Type()
  {
    forall a, b | 0 <= a < b < |r|
      ensures r[a].Type() != r[b].Type()
    {
      var a' := if a < i then a else a + 1;
      var b' := if b < i then b else b + 1;
      assert r[a] == ss[a'] && r[b] == ss[b'] && a' < b';
    }
    forall j | 0 <= j < |r|
      ensures r[j].Type() != ss[i].Type()
    {
      var j' := if j < i then j else j + 1;
      assert r[j] == ss[j'] && j' != i;
    }
  }

  lemma ReplaceEntry(m: FilterMap, st: SystemType, fs: seq<FilterTypes>)
    ensures (m - {st})[st := fs] == m[st := fs]
  {
    assert (m - {st})[st := fs].Keys == m[st := fs].Keys;
  }

  /** Appending a system records its converted filters under its type, or nothing when it has none. */
  lemma FiltersOfAppend(ss: seq<System>, s: System)
    ensures |s.GetFilters()| > 0 ==> FiltersOf(ss + [s]) == FiltersOf(ss)[s.Type() := ToTypesAll(s.GetFilters())]
    ensures |s.GetFilters()| == 0 ==> FiltersOf(ss + [s]) == FiltersOf(ss)
  {
    assert (ss + [s])[..|ss|] == ss;
  }

  // ---------------------------------------------------------------------
  // Entity lists and the cache
  // ---------------------------------------------------------------------

  /** w.systemFilters[st]; an absent entry reads as nil. */
  function FilterList(filters: FilterMap, st: SystemType): seq<FilterTypes>
  {
    if st in filters then filters[st] else []
  }

  /** The cached list of (st, fid); an absent entry reads as nil. */
  function View(cache: CacheMap, st: SystemType, fid: nat): seq<Entity>
  {
    if st in cache && fid in cache[st] then cache[st][fid] else []
  }

  /** The index of the first entity with this ID (|s| when there is none). */
  function FirstId(s: seq<Entity>, id: nat): (i: nat)
    ensures i <= |s|
    ensures i < |s| ==> s[i].id == id
    ensures forall j :: 0 <= j < i ==> s[j].id != id
  {
    if s == [] then 0
    else if s[0].id == id then 0
    else 1 + FirstId(s[1..], id)
  }

  /** The list with its first entity of this ID spliced out. */
  function RemoveFirstId(s: seq<Entity>, id: nat): seq<Entity>
  {
    var i := FirstId(s, id);
    if i < |s| then s[..i] + s[i + 1..] else s
  }

  lemma NoDupRemoveAt<T>(s: seq<T>, i: nat)
    requires NoDup(s) && i < |s|
    ensures NoDup(s[..i] + s[i + 1..])
    ensures forall x :: x in s[..i] + s[i + 1..] <==> x in s && x != s[i]
  {
    var r := s[..i] + s[i + 1..];
    forall a, b | 0 <= a < b < |r| ensures r[a] != r[b] {
      var a' := if a < i then a else a + 1;
      var b' := if b < i then b else b + 1;
      assert r[a] == s[a'] && r[b] == s[b'] && a' < b';
    }
    forall x ensures x in r <==> x in s && x != s[i] {
      if x in s && x != s[i] {
        var k :| 0 <= k < |s| && s[k] == x;
        assert k != i;
        if k < i { assert r[k] == x; } else { assert r[k - 1] == x; }
      }
    }
  }

  /**
   * When IDs identify handles, removing the first entry with e's ID removes
   * e and nothing else, and keeps the list free of repetitions.
   */
  lemma RemoveFirstIdMembers(s: seq<Entity>, e: Entity)
    requires NoDup(s)
    requires forall x :: x in s && x.id == e.id ==> x == e
    ensures NoDup(RemoveFirstId(s, e.id))
    ensures forall x :: x in RemoveFirstId(s, e.id) <==> x in s && x != e
  {
    var i := FirstId(s, e.id);
    if i < |s| {
      NoDupRemoveAt(s, i);
    } else {
      forall x | x in s ensures x != e {
        var k :| 0 <= k < |s| && s[k] == x;
        assert s[k].id != e.id;
      }
    }
  }

  /** appendIfMissing: handles are compared by identity. */
  method AppendIfMissing(slice: seq<Entity>, e: Entity) returns (r: seq<Entity>)
    ensures e in slice ==> r == slice
    ensures e !in slice ==> r == slice + [e]
    ensures NoDup(slice) ==> NoDup(r)
  {
    var k := 0;
    while k < |slice|
      invariant 0 <= k <= |slice|
      invariant e !in slice[..k]
    {
      if slice[k] == e {
        return slice;
      }
      k := k + 1;
    }
    assert slice[..k] == slice;
    r := slice + [e];
  }

  /**
   * The counts of the full rebuild: every handle that is not excluded has as
   * count the number of positions of ts it holds, plus one if it is among
   * the holders of the current Include type already visited.
   */
  ghost predicate Tallied(m: map<nat, nat>, excl: set<nat>, handles: set<Entity>, store: Store<Entity>, ts: seq<RType>, done: set<Entity>)
  {
    forall x :: x in handles && x.id !in excl ==>
      CountOf(m, x.id) == Count(ts, HeldSet(store, x)) + (if x in done then 1 else 0)
  }

  /** Tallied over ts[..k] + [ts[k]] is Tallied over ts[..k + 1]. */
  lemma TalliedNext(m: map<nat, nat>, excl: set<nat>, handles: set<Entity>, store: Store<Entity>, ts: seq<RType>, k: nat)
    requires k < |ts| && Tallied(m, excl, handles, store, ts[..k] + [ts[k]], {})
    ensures Tallied(m, excl, handles, store, ts[..k + 1], {})
  {
    assert ts[..k + 1] == ts[..k] + [ts[k]];
  }

  /** The list holds exactly the handles that are not excluded and whose count reached n. */
  ghost predicate CachedAt(list: seq<Entity>, m: map<nat, nat>, excl: set<nat>, handles: set<Entity>, n: nat)
  {
    && (forall x :: x in list ==> x in handles && x.id !in excl && 0 < CountOf(m, x.id) == n)
    && (forall x :: x in handles && x.id !in excl && 0 < CountOf(m, x.id) == n ==> x in list)
  }

  lemma TalliedEntry(m: map<nat, nat>, excl: set<nat>, handles: set<Entity>, store: Store<Entity>, ts: seq<RType>, done: set<Entity>, e: Entity)
    requires Tallied(m, excl, handles, store, ts, done) && e in handles && e !in done
    ensures e.id !in excl ==> CountOf(m, e.id) <= |ts|
  {
  }

  lemma TallyStep(m: map<nat, nat>, m': map<nat, nat>, excl: set<nat>, handles: set<Entity>, store: Store<Entity>, ts: seq<RType>, done: set<Entity>, e: Entity)
    requires Tallied(m, excl, handles, store, ts, done) && e in handles && e !in done
    requires forall x :: x in handles && x.id == e.id ==> x == e
    requires m' == if e.id in excl then m else m[e.id := CountOf(m, e.id) + 1]
    ensures Tallied(m', excl, handles, store, ts, done + {e})
  {
    forall x | x in handles && x.id !in excl
      ensures CountOf(m', x.id) == Count(ts, HeldSet(store, x)) + (if x in done + {e} then 1 else 0)
    {
      if x != e {
        assert x.id != e.id;
      }
    }
  }

  lemma TallyFinish(m: map<nat, nat>, excl: set<nat>, handles: set<Entity>, store: Store<Entity>, ts: seq<RType>, t: RType)
    requires t in store && Tallied(m, excl, handles, store, ts, store[t].Keys)
    ensures Tallied(m, excl, handles, store, ts + [t], {})
  {
    forall x | x in handles && x.id !in excl
      ensures CountOf(m, x.id) == Count(ts + [t], HeldSet(store, x))
    {
      assert (ts + [t])[..|ts|] == ts;
      assert t in HeldSet(store, x) <==> x in store[t].Keys;
    }
  }

  /**
   * What the full rebuild leaves in a list: exactly the entities matching
   * the filter, and none at all when the filter's Include list is empty.
   */
  ghost predicate Built(list: seq<Entity>, store: Store<Entity>, f: FilterTypes)
  {
    && (forall x :: x in list ==> |f.Include| > 0 && Matches(store, x, f))
    && (|f.Include| > 0 ==> forall x :: x in TableOf(store, f.Include[0]) && Matches(store, x, f) ==> x in list)
  }

  /**
   * The end of the full rebuild of one filter: the counts cover the Include
   * types up to k, and either all of them were visited or the k-th has no
   * table; then the list is what Built describes.
   */
  lemma BuiltFromTally(list: seq<Entity>, m: map<nat, nat>, excl: set<nat>, handles: set<Entity>, store: Store<Entity>, f: FilterTypes, k: nat)
    requires k <= |f.Include|
    requires k < |f.Include| ==> |TableOf(store, f.Include[k])| == 0
    requires Tallied(m, excl, handles, store, f.Include[..k], {})
    requires CachedAt(list, m, excl, handles, |f.Include|)
    requires forall x :: x in handles ==> (x.id in excl <==> HoldsSome(store, x, f.Exclude))
    requires forall t, x :: t in store && x in store[t] ==> x in handles
    ensures Built(list, store, f)
  {
    forall x | x in list || (|f.Include| > 0 && x in TableOf(store, f.Include[0]))
      ensures x in list <==> |f.Include| > 0 && Matches(store, x, f)
    {
      var held := HeldSet(store, x);
      MatchesByCount(store, x, f, held);
      assert forall t :: t in held <==> Holds(store, x, t);
      assert x in handles;
      if k < |f.Include| {
        assert !Holds(store, x, f.Include[k]);
        assert f.Include[k] in f.Include;
      } else {
        assert f.Include[..k] == f.Include;
      }
    }
  }

  /** The list of (st, fid) in c is the one in c0 without e. */
  ghost predicate Dropped(c0: CacheMap, c: CacheMap, e: Entity, st: SystemType, fid: nat)
  {
    Elems(View(c, st, fid)) == Elems(View(c0, st, fid)) - {e}
  }

  /** The membership of one entity in every cached list is the same in both caches. */
  ghost predicate SameMembership(c1: CacheMap, c2: CacheMap, x: Entity)
  {
    forall st, fid: nat :: x in View(c1, st, fid) <==> x in View(c2, st, fid)
  }

  /** Go removes a cached list once it is empty and a system's entry once it has no lists. */
  ghost predicate Pruned(cache: CacheMap)
  {
    forall st :: st in cache ==>
      cache[st] != map[] && forall fid: nat :: fid in cache[st] ==> cache[st][fid] != []
  }

  /** No dangling entries: every cached list belongs to a registered filter, is pruned when empty, has no repetition and only handles. */
  ghost predicate CacheShape(cache: CacheMap, filters: FilterMap, handles: set<Entity>)
  {
    && Pruned(cache)
    && (forall st, fid: nat :: View(cache, st, fid) != [] ==> st in filters && fid < |filters[st]|)
    && (forall st, fid: nat :: NoDup(View(cache, st, fid)))
    && (forall st, fid: nat, x :: x in View(cache, st, fid) ==> x in handles)
  }

  /** w.cache[st][fid] = list, creating the system's entry when it is missing. */
  function Put(cache: CacheMap, st: SystemType, fid: nat, list: seq<Entity>): CacheMap
  {
    var inner: map<nat, seq<Entity>> := if st in cache then cache[st] else map[];
    cache[st := inner[fid := list]]
  }

  /** if len(w.cache[st][fid]) == 0 { delete(w.cache[st], fid) } */
  function PruneList(cache: CacheMap, st: SystemType, fid: nat): CacheMap
  {
    if st in cache && fid in cache[st] && |cache[st][fid]| == 0 then cache[st := cache[st] - {fid}] else cache
  }

  /** if len(w.cache[st]) == 0 { delete(w.cache, st) } */
  function PruneSystem(cache: CacheMap, st: SystemType): CacheMap
  {
    if st in cache && |cache[st]| == 0 then cache - {st} else cache
  }

  lemma PutView(cache: CacheMap, st: SystemType, fid: nat, list: seq<Entity>)
    ensures View(Put(cache, st, fid, list), st, fid) == list
    ensures forall st', fid': nat :: st' != st || fid' != fid ==>
      View(Put(cache, st, fid, list), st', fid') == View(cache, st', fid')
  {
  }

  lemma PruneListView(cache: CacheMap, st: SystemType, fid: nat)
    ensures forall st', fid': nat :: View(PruneList(cache, st, fid), st', fid') == View(cache, st', fid')
  {
  }

  lemma PruneSystemView(cache: CacheMap, st: SystemType)
    ensures forall st', fid': nat :: View(PruneSystem(cache, st), st', fid') == View(cache, st', fid')
  {
  }

  lemma PrunedAfterWrite(cache: CacheMap, st: SystemType, fid: nat, list: seq<Entity>)
    requires Pruned(cache)
    ensures Pruned(PruneSystem(PruneList(Put(cache, st, fid, list), st, fid), st))
  {
    var inner: map<nat, seq<Entity>> := if st in cache then cache[st] else map[];
    var m := if list == [] then inner - {fid} else inner[fid := list];
    var c1 := Put(cache, st, fid, list);
    assert c1 == cache[st := inner[fid := list]];
    if list == [] {
      assert inner[fid := list] - {fid} == m;
    }
    assert PruneList(c1, st, fid) == cache[st := m];
    assert forall fid' :: fid' in m ==> m[fid'] != [];
    PrunedPut(cache, st, m);
  }

  lemma PrunedPut(cache: CacheMap, st: SystemType, m: map<nat, seq<Entity>>)
    requires Pruned(cache)
    requires forall fid :: fid in m ==> m[fid] != []
    ensures Pruned(PruneSystem(cache[st := m], st))
  {
    if |m| == 0 {
      assert PruneSystem(cache[st := m], st) == cache - {st};
    }
  }

  /** Writing a list and pruning the entries it may have emptied restores Pruned and changes only that view. */
  lemma WriteBack(cache: CacheMap, st: SystemType, fid: nat, list: seq<Entity>)
    requires Pruned(cache)
    ensures var c := PruneSystem(PruneList(Put(cache, st, fid, list), st, fid), st);
      && Pruned(c)
      && View(c, st, fid) == list
      && forall st', fid': nat :: st' != st || fid' != fid ==> View(c, st', fid') == View(cache, st', fid')
  {
    PutView(cache, st, fid, list);
    var c1 := Put(cache, st, fid, list);
    PruneListView(c1, st, fid);
    PruneSystemView(PruneList(c1, st, fid), st);
    PrunedAfterWrite(cache, st, fid, list);
  }

  /** Registering more filters keeps every cached list within a registered filter. */
  lemma ShapeWiderFilters(cache: CacheMap, f0: FilterMap, f1: FilterMap, handles: set<Entity>)
    requires CacheShape(cache, f0, handles)
    requires forall st :: st in f0 ==> st in f1 && f1[st] == f0[st]
    ensures CacheShape(cache, f1, handles)
  {
  }

  /** The shape after a single view changed to a list that fits it. */
  lemma ShapeAfterWrite(c0: CacheMap, c: CacheMap, filters: FilterMap, handles: set<Entity>, st: SystemType, fid: nat)
    requires CacheShape(c0, filters, handles) && Pruned(c)
    requires forall st', fid': nat :: st' != st || fid' != fid ==> View(c, st', fid') == View(c0, st', fid')
    requires View(c, st, fid) != [] ==> st in filters && fid < |filters[st]|
    requires NoDup(View(c, st, fid))
    requires forall x :: x in View(c, st, fid) ==> x in handles
    ensures CacheShape(c, filters, handles)
  {
  }

  /** The cache after deleteFromSystem: the list of (st, fid) loses e and nothing else changes. */
  lemma DropFacts(c0: CacheMap, c: CacheMap, filters: FilterMap, handles: set<Entity>, st: SystemType, fid: nat, e: Entity)
    requires CacheShape(c0, filters, handles)
    requires forall x :: x in handles && x.id == e.id ==> x == e
    requires var list := View(c0, st, fid);
      c == PruneSystem(PruneList(if FirstId(list, e.id) < |list| then Put(c0, st, fid, RemoveFirstId(list, e.id)) else c0, st, fid), st)
    ensures CacheShape(c, filters, handles)
    ensures View(c, st, fid) == RemoveFirstId(View(c0, st, fid), e.id)
    ensures forall x :: x in View(c, st, fid) <==> x in View(c0, st, fid) && x != e
    ensures Dropped(c0, c, e, st, fid)
    ensures forall st', fid': nat :: st' != st || fid' != fid ==> View(c, st', fid') == View(c0, st', fid')
  {
    var list := View(c0, st, fid);
    RemoveFirstIdMembers(list, e);
    DropViews(c0, c, st, fid, e.id);
    ShapeAfterWrite(c0, c, filters, handles, st, fid);
    ElemsMinus(View(c, st, fid), list, e);
  }

  lemma ElemsMinus<T>(r: seq<T>, s: seq<T>, x: T)
    requires forall y :: y in r <==> y in s && y != x
    ensures Elems(r) == Elems(s) - {x}
  {
  }

  /** The views after deleteFromSystem: (st, fid) loses the first entry with that ID, the rest stay. */
  lemma DropViews(c0: CacheMap, c: CacheMap, st: SystemType, fid: nat, id: nat)
    requires Pruned(c0)
    requires var list := View(c0, st, fid);
      c == PruneSystem(PruneList(if FirstId(list, id) < |list| then Put(c0, st, fid, RemoveFirstId(list, id)) else c0, st, fid), st)
    ensures Pruned(c)
    ensures View(c, st, fid) == RemoveFirstId(View(c0, st, fid), id)
    ensures forall st', fid': nat :: st' != st || fid' != fid ==> View(c, st', fid') == View(c0, st', fid')
  {
    var list := View(c0, st, fid);
    if FirstId(list, id) < |list| {
      WriteBack(c0, st, fid, RemoveFirstId(list, id));
    } else {
      assert PruneList(c0, st, fid) == c0;
    }
  }

  lemma SameMembershipTrans(c1: CacheMap, c2: CacheMap, c3: CacheMap, x: Entity)
    requires SameMembership(c1, c2, x) && SameMembership(c2, c3, x)
    ensures SameMembership(c1, c3, x)
  {
  }

  /** Every handle other than e is in the same cached lists in c0 and c1. */
  ghost predicate OthersKept(c0: CacheMap, c1: CacheMap, e: Entity, handles: set<Entity>)
  {
    forall x :: x in handles && x != e ==> SameMembership(c0, c1, x)
  }

  lemma OthersKeptTrans(c0: CacheMap, c1: CacheMap, c2: CacheMap, e: Entity, handles: set<Entity>)
    requires OthersKept(c0, c1, e, handles) && OthersKept(c1, c2, e, handles)
    ensures OthersKept(c0, c2, e, handles)
  {
    forall x | x in handles && x != e
      ensures SameMembership(c0, c2, x)
    {
      SameMembershipTrans(c0, c1, c2, x);
    }
  }

  /** When both caches hold only handles, OthersKept covers every entity other than e. */
  lemma OthersKeptEverywhere(c0: CacheMap, c1: CacheMap, e: Entity, handles: set<Entity>)
    requires OthersKept(c0, c1, e, handles)
    requires forall st, fid: nat, x :: x in View(c0, st, fid) ==> x in handles
    requires forall st, fid: nat, x :: x in View(c1, st, fid) ==> x in handles
    ensures forall x :: x != e ==> SameMembership(c0, c1, x)
  {
  }

  /** Only the list of (st, fid) changed, and only in whether it has e. */
  lemma OthersKeptOneView(c0: CacheMap, c1: CacheMap, st: SystemType, fid: nat, e: Entity, handles: set<Entity>)
    requires forall st', fid': nat :: st' != st || fid' != fid ==> View(c1, st', fid') == View(c0, st', fid')
    requires forall x :: x != e ==> (x in View(c1, st, fid) <==> x in View(c0, st, fid))
    ensures OthersKept(c0, c1, e, handles)
  {
    forall x | x in handles && x != e
      ensures SameMembership(c0, c1, x)
    {
      forall st', fid': nat
        ensures x in View(c0, st', fid') <==> x in View(c1, st', fid')
      {
        if st' != st || fid' != fid {
          assert View(c1, st', fid') == View(c0, st', fid');
        }
      }
    }
  }

  /** The cached lists of every system type other than st are the same in c0 and c1. */
  ghost predicate OtherViewsKept(c0: CacheMap, c1: CacheMap, st: SystemType)
  {
    forall st', fid: nat :: st' != st ==> View(c1, st', fid) == View(c0, st', fid)
  }

  lemma OtherViewsKeptTrans(c0: CacheMap, c1: CacheMap, c2: CacheMap, st: SystemType)
    requires OtherViewsKept(c0, c1, st) && OtherViewsKept(c1, c2, st)
    ensures OtherViewsKept(c0, c2, st)
  {
  }

  /** Every cached list other than list fid of st is the same in c0 and c1. */
  ghost predicate OnlyView(c0: CacheMap, c1: CacheMap, st: SystemType, fid: nat)
  {
    forall st', fid': nat :: st' != st || fid' != fid ==> View(c1, st', fid') == View(c0, st', fid')
  }

  lemma OnlyViewTrans(c0: CacheMap, c1: CacheMap, c2: CacheMap, st: SystemType, fid: nat)
    requires OnlyView(c0, c1, st, fid) && OnlyView(c1, c2, st, fid)
    ensures OnlyView(c0, c2, st, fid)
  {
  }

  /** Dropping the entry of st leaves every other type's lists as they were. */
  lemma ViewsWithout(c: CacheMap, st: SystemType)
    ensures OtherViewsKept(c, c - {st}, st)
  {
  }

  /** e is cached in exactly those lists of st whose filter it matches. */
  ghost predicate EntityAgreesAt(filters: FilterMap, cache: CacheMap, store: Store<Entity>, e: Entity, st: SystemType)
  {
    st in filters ==>
      forall fid: nat :: fid < |filters[st]| ==> (e in View(cache, st, fid) <==> Matches(store, e, filters[st][fid]))
  }

  /** The cache agrees with the filter predicate for x, on every filter with a non-empty Include list. */
  ghost predicate Agrees(filters: FilterMap, cache: CacheMap, store: Store<Entity>, x: Entity)
  {
    forall st, fid: nat :: st in filters && 0 <= fid < |filters[st]| && |filters[st][fid].Include| > 0 ==>
      (x in View(cache, st, fid) <==> Matches(store, x, filters[st][fid]))
  }

  lemma AgreesFrame(filters: FilterMap, c1: CacheMap, c2: CacheMap, s1: Store<Entity>, s2: Store<Entity>, x: Entity)
    requires SameMembership(c1, c2, x) && SameHoldings(s1, s2, x)
    requires Agrees(filters, c1, s1, x)
    ensures Agrees(filters, c2, s2, x)
  {
    forall st, fid | st in filters && 0 <= fid < |filters[st]| && |filters[st][fid].Include| > 0
      ensures x in View(c2, st, fid) <==> Matches(s2, x, filters[st][fid])
    {
      SameHoldingsMatch(s1, s2, x, filters[st][fid]);
    }
  }

  lemma AgreesFromRebuild(filters: FilterMap, cache: CacheMap, store: Store<Entity>, e: Entity)
    requires forall st :: EntityAgreesAt(filters, cache, store, e, st)
    ensures Agrees(filters, cache, store, e)
  {
    forall st, fid: nat | st in filters && fid < |filters[st]| && |filters[st][fid].Include| > 0
      ensures e in View(cache, st, fid) <==> Matches(store, e, filters[st][fid])
    {
      assert EntityAgreesAt(filters, cache, store, e, st);
    }
  }

  /** An entity that holds nothing and is cached nowhere agrees with every filter. */
  lemma AgreesNowhere(filters: FilterMap, cache: CacheMap, store: Store<Entity>, e: Entity)
    requires HeldSet(store, e) == {}
    requires forall st, fid: nat :: e !in View(cache, st, fid)
    ensures Agrees(filters, cache, store, e)
  {
    forall st, fid: nat | st in filters && fid < |filters[st]| && |filters[st][fid].Include| > 0
      ensures !Matches(store, e, filters[st][fid])
    {
      var t := filters[st][fid].Include[0];
      assert t in filters[st][fid].Include;
      assert t !in HeldSet(store, e);
      assert !Holds(store, e, t);
    }
  }

  /**
   * The state after Destroy's three sweeps: e holds nothing and is cached
   * nowhere, everybody else keeps holdings and memberships, so the cache
   * agrees with the store for every handle.
   */
  lemma DestroyedFacts(filters: FilterMap, s0: Store<Entity>, s: Store<Entity>, c0: CacheMap, c: CacheMap, handles: set<Entity>, e: Entity)
    requires s == Without(s0, e)
    requires forall st, fid: nat :: Dropped(c0, c, e, st, fid)
    requires forall x :: x in handles && x != e ==> Agrees(filters, c0, s0, x)
    ensures forall x :: x != e ==> SameMembership(c0, c, x) && SameHoldings(s0, s, x)
    ensures forall x :: x != e ==> HeldSet(s, x) == HeldSet(s0, x)
    ensures HeldSet(s, e) == {}
    ensures forall st, fid: nat :: e !in View(c, st, fid)
    ensures forall t, x :: t in s && x in s[t] ==> t in s0 && x in s0[t] && s[t][x] == s0[t][x]
    ensures s.Keys <= s0.Keys
    ensures forall x :: x in handles ==> Agrees(filters, c, s, x)
  {
    forall x | x != e
      ensures SameMembership(c0, c, x) && SameHoldings(s0, s, x)
      ensures HeldSet(s, x) == HeldSet(s0, x)
    {
      DroppedMembership(c0, c, e, x);
      WithoutHoldings(s0, e, x);
      SameHoldingsMatch(s0, s, x, FilterTypes([], []));
    }
    DroppedMembership(c0, c, e, e);
    WithoutHoldings(s0, e, e);
    AgreesOthers(filters, c0, c, s0, s, handles, e);
    AgreesNowhere(filters, c, s, e);
  }

  /** The store after delete(w.components[ct], e) and the pruning of an emptied table. */
  lemma DetachFacts(s0: Store<Entity>, s: Store<Entity>, e: Entity, ct: RType)
    requires s == RemoveKey(s0, ct, e)
    ensures forall x :: x != e ==> SameHoldings(s0, s, x) && HeldSet(s, x) == HeldSet(s0, x)
    ensures HeldSet(s, e) == HeldSet(s0, e) - {ct}
    ensures forall t, x :: t in s && x in s[t] ==> t in s0 && x in s0[t] && s[t][x] == s0[t][x]
    ensures s.Keys <= s0.Keys
  {
    forall x | x != e
      ensures SameHoldings(s0, s, x) && HeldSet(s, x) == HeldSet(s0, x)
    {
      RemoveKeyHoldings(s0, ct, e, x);
      SameHoldingsMatch(s0, s, x, FilterTypes([], []));
    }
    RemoveKeyHoldings(s0, ct, e, e);
  }

  /**
   * The loop over the lists of st in deleteFromAll: the lists of fids are
   * still as in c0, all others of st have lost e, other types are untouched.
   */
  ghost predicate DropProgress(c0: CacheMap, c: CacheMap, e: Entity, st: SystemType, fids: set<nat>)
  {
    && (forall st', fid: nat :: st' != st ==> View(c, st', fid) == View(c0, st', fid))
    && (forall fid: nat :: fid !in fids ==> Dropped(c0, c, e, st, fid))
    && (forall fid: nat :: fid in fids ==> View(c, st, fid) == View(c0, st, fid))
  }

  lemma DropProgressStart(c0: CacheMap, e: Entity, st: SystemType)
    ensures DropProgress(c0, c0, e, st, if st in c0 then c0[st].Keys else {})
  {
    var fids := if st in c0 then c0[st].Keys else {};
    forall fid: nat | fid !in fids
      ensures Dropped(c0, c0, e, st, fid)
    {
      assert View(c0, st, fid) == [];
    }
  }

  lemma DropProgressStep(c0: CacheMap, c1: CacheMap, c2: CacheMap, e: Entity, st: SystemType, fids: set<nat>, fid: nat)
    requires DropProgress(c0, c1, e, st, fids) && fid in fids
    requires Dropped(c1, c2, e, st, fid)
    requires forall st', fid': nat :: st' != st || fid' != fid ==> View(c2, st', fid') == View(c1, st', fid')
    ensures DropProgress(c0, c2, e, st, fids - {fid})
  {
    forall f: nat | f !in fids - {fid}
      ensures Dropped(c0, c2, e, st, f)
    {
      if f != fid {
        assert View(c2, st, f) == View(c1, st, f);
        assert Dropped(c0, c1, e, st, f);
      } else {
        assert View(c1, st, fid) == View(c0, st, fid);
      }
    }
  }

  /** Dropping a system type from the filters and the cache keeps everybody's agreement. */
  lemma AgreesWithout(filters: FilterMap, cache: CacheMap, store: Store<Entity>, x: Entity, st: SystemType)
    requires Agrees(filters, cache, store, x)
    ensures Agrees(filters - {st}, cache - {st}, store, x)
  {
    forall st', fid: nat | st' in filters - {st} && fid < |(filters - {st})[st']| && |(filters - {st})[st'][fid].Include| > 0
      ensures x in View(cache - {st}, st', fid) <==> Matches(store, x, (filters - {st})[st'][fid])
    {
      assert View(cache - {st}, st', fid) == View(cache, st', fid);
    }
  }

  lemma ShapeWithout(cache: CacheMap, filters: FilterMap, handles: set<Entity>, st: SystemType)
    requires CacheShape(cache, filters, handles)
    ensures CacheShape(cache - {st}, filters - {st}, handles)
    ensures forall fid: nat :: View(cache - {st}, st, fid) == []
  {
    forall st', fid: nat
      ensures View(cache - {st}, st', fid) == if st' == st then [] else View(cache, st', fid)
    {
    }
  }

  /**
   * After a system type's lists were rebuilt from scratch (and nothing else
   * changed), an entity that agreed before agrees with the new filters.
   */
  lemma AgreesAfterRebuild(f0: FilterMap, filters: FilterMap, c0: CacheMap, cache: CacheMap, store: Store<Entity>, x: Entity, st: SystemType)
    requires Agrees(f0, c0, store, x)
    requires forall st' :: st' != st ==> (st' in filters <==> st' in f0) && (st' in filters ==> filters[st'] == f0[st'])
    requires OtherViewsKept(c0, cache, st)
    requires st in filters ==> forall fid: nat :: fid < |filters[st]| ==> Built(View(cache, st, fid), store, filters[st][fid])
    ensures Agrees(filters, cache, store, x)
  {
    forall st', fid: nat | st' in filters && fid < |filters[st']| && |filters[st'][fid].Include| > 0
      ensures x in View(cache, st', fid) <==> Matches(store, x, filters[st'][fid])
    {
      if st' == st {
        assert Built(View(cache, st, fid), store, filters[st][fid]);
        if Matches(store, x, filters[st][fid]) {
          assert filters[st][fid].Include[0] in filters[st][fid].Include;
        }
      } else {
        assert View(cache, st', fid) == View(c0, st', fid);
      }
    }
  }

  /** The lists built from systemFilters[st] are those of the system's own filters, converted. */
  lemma BuiltRegistered(filters: FilterMap, cache: CacheMap, store: Store<Entity>, st: SystemType, fs: seq<SystemFilter>)
    requires |fs| > 0 ==> st in filters && filters[st] == ToTypesAll(fs)
    requires forall fid: nat :: st in filters && fid < |filters[st]| ==> Built(View(cache, st, fid), store, filters[st][fid])
    ensures forall fid: nat :: fid < |fs| ==> Built(View(cache, st, fid), store, ToTypes(fs[fid]))
  {
    forall fid: nat | fid < |fs|
      ensures Built(View(cache, st, fid), store, ToTypes(fs[fid]))
    {
      assert filters[st][fid] == ToTypes(fs[fid]);
    }
  }

  /** Agreement of every handle but e carries over when their holdings and memberships are unchanged. */
  lemma AgreesOthers(filters: FilterMap, c0: CacheMap, c1: CacheMap, s0: Store<Entity>, s1: Store<Entity>, handles: set<Entity>, e: Entity)
    requires forall x :: x in handles && x != e ==> Agrees(filters, c0, s0, x)
    requires forall x :: x in handles && x != e ==> SameMembership(c0, c1, x) && SameHoldings(s0, s1, x)
    ensures forall x :: x in handles && x != e ==> Agrees(filters, c1, s1, x)
  {
    forall x | x in handles && x != e
      ensures Agrees(filters, c1, s1, x)
    {
      AgreesFrame(filters, c0, c1, s0, s1, x);
    }
  }

  /** After removing e from every list, nobody else's membership changed and e is cached nowhere. */
  lemma DroppedMembership(c0: CacheMap, c: CacheMap, e: Entity, x: Entity)
    requires forall st, fid: nat :: Dropped(c0, c, e, st, fid)
    ensures x != e ==> SameMembership(c0, c, x)
    ensures forall st, fid: nat :: e !in View(c, st, fid)
  {
    forall st, fid: nat ensures (x in View(c, st, fid) <==> x in View(c0, st, fid) && x != e) && e !in View(c, st, fid) {
      assert Dropped(c0, c, e, st, fid);
      assert x in View(c, st, fid) <==> x in Elems(View(c, st, fid));
      assert x in View(c0, st, fid) <==> x in Elems(View(c0, st, fid));
      assert e !in Elems(View(c, st, fid));
    }
  }

  // ---------------------------------------------------------------------
  // The one-frame sweep and the slot it is handed
  // ---------------------------------------------------------------------

  /** The position of the first occurrence of x in s, or |s| when there is none. */
  function IndexOf<T(==)>(s: seq<T>, x: T): (i: nat)
    ensures i <= |s|
    ensures i < |s| ==> s[i] == x
    ensures forall j :: 0 <= j < i ==> s[j] != x
  {
    if s == [] then 0 else if s[0] == x then 0 else 1 + IndexOf(s[1..], x)
  }

  /**
   * oneFrame.Update over its slot as written. The slot SystemsUpdate hands
   * over is the cache's own list, so both share one backing array: arr is
   * that array over the slot's length, len the cache list's current length
   * (a prefix of arr), held the entities that still hold the one-frame
   * component, i the loop position. Deleting a holder splices it out of the
   * cache list, which moves the later entries of arr one place to the left
   * and leaves the last of them twice; the loop reads the moved array.
   */
  function AliasedSweep<T(==)>(arr: seq<T>, len: nat, held: set<T>, i: nat): (left: set<T>)
    requires len <= |arr|
    ensures left <= held
    decreases |arr| - i
  {
    if i >= |arr| then held
    else if arr[i] !in held then AliasedSweep(arr, len, held, i + 1)
    else
      var p := IndexOf(arr[..len], arr[i]);
      if p < len then AliasedSweep(arr[..p] + arr[p + 1..len] + arr[len - 1..], len - 1, held - {arr[i]}, i + 1)
      else AliasedSweep(arr, len, held - {arr[i]}, i + 1)
  }

  /** The same sweep over a snapshot of the slot: every entity of the slot loses the component. */
  function SnapshotSweep<T(==)>(slot: seq<T>, held: set<T>, i: nat): (left: set<T>)
    requires i <= |slot|
    ensures left == held - Elems(slot[i..])
    decreases |slot| - i
  {
    if i == |slot| then held
    else
      var left := SnapshotSweep(slot, held - {slot[i]}, i + 1);
      assert Elems(slot[i..]) == {slot[i]} + Elems(slot[i + 1..]) by {
        assert slot[i..] == [slot[i]] + slot[i + 1..];
      }
      left
  }

  /**
   * A cache list [1, 2, 3] whose three entities all hold the component:
   * deleting 1 moves 2 and 3 left, so the loop's second read is 3 and the
   * third read is 3 again; entity 2 is never visited and keeps the
   * component. Over a snapshot all three lose it.
   */
  lemma AliasedSweepSkipsOne()
    ensures AliasedSweep([1, 2, 3], 3, {1, 2, 3}, 0) == {2}
    ensures SnapshotSweep([1, 2, 3], {1, 2, 3}, 0) == {}
  {
    var a0: seq<int> := [1, 2, 3];
    assert IndexOf(a0[..3], 1) == 0;
    var a1 := a0[..0] + a0[1..3] + a0[2..];
    assert a1 == [2, 3, 3];
    assert IndexOf(a1[..2], 3) == 1;
    var a2 := a1[..1] + a1[2..2] + a1[1..];
    assert a2 == [2, 3, 3];
    assert AliasedSweep(a2, 1, {2}, 2) == {2};
    assert a1[1] == 3 && {2, 3} - {3} == {2};
    assert AliasedSweep(a1, 2, {2, 3}, 1) == AliasedSweep(a2, 1, {2}, 2);
    assert a0[0] == 1 && {1, 2, 3} - {1} == {2, 3};
    assert AliasedSweep(a0, 3, {1, 2, 3}, 0) == AliasedSweep(a1, 2, {2, 3}, 1);
    assert Elems(a0[0..]) == {1, 2, 3};
  }

  /** No entity of es holds a component of type ct. */
  ghost predicate Cleared(store: Store<Entity>, es: seq<Entity>, ct: RType)
  {
    forall j :: 0 <= j < |es| ==> !Holds(store, es[j], ct)
  }

  /** Every handle outside all of the lists ss holds the same types in s0 and s1. */
  ghost predicate KeptOutside(s0: Store<Entity>, s1: Store<Entity>, handles: set<Entity>, ss: seq<seq<Entity>>)
  {
    forall x :: x in handles && (forall k :: 0 <= k < |ss| ==> x !in ss[k]) ==> SameHoldings(s0, s1, x)
  }

  /** KeptOutside for a single list. */
  lemma KeptOutsideOne(s0: Store<Entity>, s1: Store<Entity>, handles: set<Entity>, l: seq<Entity>)
    ensures KeptOutside(s0, s1, handles, [l]) <==> forall x :: x in handles && x !in l ==> SameHoldings(s0, s1, x)
  {
    var one: seq<seq<Entity>> := [l];
    assert forall x :: x !in l <==> forall k :: 0 <= k < |one| ==> x !in one[k] by {
      forall x ensures x !in l <==> forall k :: 0 <= k < |one| ==> x !in one[k] {
        assert one[0] == l;
      }
    }
  }

  /**
   * A one-frame slot lists exactly the holders of ct; once it is cleared and
   * everybody else kept their holdings, nobody holds ct any more.
   */
  lemma SweptSlot(s0: Store<Entity>, s1: Store<Entity>, handles: set<Entity>, slot: seq<Entity>, ct: RType)
    requires forall x :: x in handles ==> (x in slot <==> Holds(s0, x, ct))
    requires Cleared(s1, slot, ct) && KeptOutside(s0, s1, handles, [slot])
    ensures NoneHolds(s1, handles, ct)
    ensures forall x :: x in handles && !Holds(s0, x, ct) ==> SameHoldings(s0, s1, x)
  {
    KeptOutsideOne(s0, s1, handles, slot);
    forall x | x in handles
      ensures !Holds(s1, x, ct)
    {
      if x in slot {
        var j :| 0 <= j < |slot| && slot[j] == x;
      } else {
        assert SameHoldings(s0, s1, x);
      }
    }
  }

  /** One Delete on es[j] extends the cleared prefix by es[j] and keeps everything else. */
  lemma ClearedStep(s0: Store<Entity>, s1: Store<Entity>, s2: Store<Entity>, handles: set<Entity>, es: seq<Entity>, j: nat, ct: RType)
    requires j < |es|
    requires Cleared(s1, es[..j], ct) && KeptOutside(s0, s1, handles, [es[..j]])
    requires !Holds(s2, es[j], ct)
    requires forall x :: x != es[j] ==> SameHoldings(s1, s2, x)
    ensures Cleared(s2, es[..j + 1], ct) && KeptOutside(s0, s2, handles, [es[..j + 1]])
  {
    var pre, post := es[..j], es[..j + 1];
    forall i | 0 <= i < |post|
      ensures !Holds(s2, post[i], ct)
    {
      var x := post[i];
      if i == j {
        assert x == es[j];
      } else {
        assert x == pre[i] && !Holds(s1, x, ct);
        if x != es[j] {
          assert SameHoldings(s1, s2, x);
        }
      }
    }
    assert Cleared(s2, post, ct);
    assert post == pre + [es[j]];
    KeptOutsideOne(s0, s1, handles, pre);
    forall x | x in handles && x !in post
      ensures SameHoldings(s0, s2, x)
    {
      assert x !in pre && x != es[j];
      assert SameHoldings(s0, s1, x) && SameHoldings(s1, s2, x);
    }
    KeptOutsideOne(s0, s2, handles, post);
  }

  /** Clearing one more list keeps the earlier lists cleared and widens the kept region's complement. */
  lemma ClearedCarry(s0: Store<Entity>, s1: Store<Entity>, s2: Store<Entity>, handles: set<Entity>, ss: seq<seq<Entity>>, k: nat, ct: RType)
    requires k < |ss|
    requires forall k', j :: 0 <= k' < k && 0 <= j < |ss[k']| ==> ss[k'][j] in handles
    requires forall k' :: 0 <= k' < k ==> Cleared(s1, ss[k'], ct)
    requires KeptOutside(s0, s1, handles, ss[..k])
    requires Cleared(s2, ss[k], ct) && KeptOutside(s1, s2, handles, [ss[k]])
    ensures forall k' :: 0 <= k' <= k ==> Cleared(s2, ss[k'], ct)
    ensures KeptOutside(s0, s2, handles, ss[..k + 1])
  {
    forall k', j | 0 <= k' < k && 0 <= j < |ss[k']|
      ensures !Holds(s2, ss[k'][j], ct)
    {
      var x := ss[k'][j];
      if x !in ss[k] {
        KeptOutsideOne(s1, s2, handles, ss[k]);
      }
    }
    var pre, post := ss[..k], ss[..k + 1];
    forall x | x in handles && (forall i :: 0 <= i < |post| ==> x !in post[i])
      ensures SameHoldings(s0, s2, x)
    {
      assert x !in ss[k] by { assert post[k] == ss[k]; }
      assert forall i :: 0 <= i < |pre| ==> x !in pre[i] by {
        forall i | 0 <= i < |pre| ensures x !in pre[i] { assert pre[i] == post[i]; }
      }
      KeptOutsideOne(s1, s2, handles, ss[k]);
    }
  }

  /** The types of the systems that implement Destroy, in registration order. */
  function DestroyOrder(ss: seq<System>): (ts: seq<SystemType>)
    ensures |ts| <= |ss|
    ensures forall t :: t in ts <==> exists i :: 0 <= i < |ss| && ss[i].HasDestroy() && ss[i].Type() == t
    decreases |ss|
  {
    if ss == [] then []
    else
      var init, last := ss[..|ss| - 1], ss[|ss| - 1];
      assert forall i :: 0 <= i < |init| ==> init[i] == ss[i];
      DestroyOrder(init) + (if last.HasDestroy() then [last.Type()] else [])
  }

  /**
   * What one call received: each slot is the list cached for its filter in
   * cache, and for a filter with a non-empty Include list it holds exactly
   * the handles that match the filter in store.
   */
  ghost predicate TurnSaw(call: Call, filters: FilterMap, cache: CacheMap, store: Store<Entity>, handles: set<Entity>)
  {
    var fs := FilterList(filters, call.system);
    && (forall fid :: 0 <= fid < |call.slots| ==> call.slots[fid] == View(cache, call.system, fid))
    && (forall fid, x :: 0 <= fid < |call.slots| && fid < |fs| && |fs[fid].Include| > 0 && x in handles ==>
          (x in call.slots[fid] <==> Matches(store, x, fs[fid])))
  }

  /**
   * What one turn did to the store and the cache: a user Update is taken to
   * change nothing; the one-frame system leaves no handle holding its type
   * and every handle that did not hold it as it was.
   */
  ghost predicate TurnEffect(s: System, store0: Store<Entity>, cache0: CacheMap, store1: Store<Entity>, cache1: CacheMap, handles: set<Entity>)
  {
    && (s.User? ==> store1 == store0 && cache1 == cache0)
    && (s.OneFrame? ==>
          && NoneHolds(store1, handles, TypeOf(s.c))
          && forall x :: x in handles && !Holds(store0, x, TypeOf(s.c)) ==> SameHoldings(store0, store1, x))
  }

  /** The first n turns of a tick: turn j saw stores[j] and caches[j], and left stores[j + 1] and caches[j + 1]. */
  ghost predicate Turns(calls: seq<Call>, ss: seq<System>, filters: FilterMap, stores: seq<Store<Entity>>, caches: seq<CacheMap>, handles: set<Entity>, n: nat)
  {
    && n <= |ss| && |calls| == n && |stores| == n + 1 && |caches| == n + 1
    && (forall j :: 0 <= j < n ==> TurnSaw(calls[j], filters, caches[j], stores[j], handles))
    && (forall j :: 0 <= j < n ==> TurnEffect(ss[j], stores[j], caches[j], stores[j + 1], caches[j + 1], handles))
  }

  lemma TurnsStep(calls: seq<Call>, call: Call, ss: seq<System>, filters: FilterMap, stores: seq<Store<Entity>>, caches: seq<CacheMap>,
                  store1: Store<Entity>, cache1: CacheMap, handles: set<Entity>, n: nat)
    requires n < |ss| && Turns(calls, ss, filters, stores, caches, handles, n)
    requires TurnSaw(call, filters, caches[n], stores[n], handles)
    requires TurnEffect(ss[n], stores[n], caches[n], store1, cache1, handles)
    ensures Turns(calls + [call], ss, filters, stores + [store1], caches + [cache1], handles, n + 1)
  {
    var calls', stores', caches' := calls + [call], stores + [store1], caches + [cache1];
    forall j | 0 <= j < n + 1
      ensures TurnSaw(calls'[j], filters, caches'[j], stores'[j], handles)
      ensures TurnEffect(ss[j], stores'[j], caches'[j], stores'[j + 1], caches'[j + 1], handles)
    {
      assert stores'[j] == stores[j] && caches'[j] == caches[j];
      if j < n {
        assert calls'[j] == calls[j];
        assert stores'[j + 1] == stores[j + 1] && caches'[j + 1] == caches[j + 1];
      }
    }
  }

  /** The first n calls are the turns of the first n systems, each with one slot per filter. */
  ghost predicate Recorded(calls: seq<Call>, ss: seq<System>, filters: FilterMap, delta: int, n: nat)
    requires n <= |ss|
  {
    && |calls| == n
    && forall j :: 0 <= j < n ==>
      && calls[j].system == ss[j].Type() && calls[j].delta == delta
      && |calls[j].slots| == |FilterList(filters, ss[j].Type())|
  }

  lemma RecordedStep(calls: seq<Call>, call: Call, ss: seq<System>, filters: FilterMap, delta: int, n: nat)
    requires n < |ss| && Recorded(calls, ss, filters, delta, n)
    requires call.system == ss[n].Type() && call.delta == delta
    requires |call.slots| == |FilterList(filters, ss[n].Type())|
    ensures Recorded(calls + [call], ss, filters, delta, n + 1)
  {
  }

  ghost predicate AllUser(ss: seq<System>, n: nat)
    requires n <= |ss|
  {
    forall j :: 0 <= j < n ==> ss[j].User?
  }

  /** With distinct types, a one-frame system is preceded only by user systems. */
  lemma OneFrameFirst(ss: seq<System>, n: nat)
    requires n < |ss| && DistinctTypes(ss) && ss[n].OneFrame?
    ensures AllUser(ss, n)
  {
    forall j | 0 <= j < n
      ensures ss[j].User?
    {
      assert ss[j].Type() != ss[n].Type();
    }
  }

  /** After the turns of the first n systems, nobody holds the component of a one-frame system among them. */
  ghost predicate OneFramesDone(store: Store<Entity>, handles: set<Entity>, ss: seq<System>, n: nat)
    requires n <= |ss|
  {
    forall j :: 0 <= j < n && ss[j].OneFrame? ==> NoneHolds(store, handles, TypeOf(ss[j].c))
  }

  lemma OneFramesDoneStep(store: Store<Entity>, handles: set<Entity>, ss: seq<System>, n: nat)
    requires n < |ss| && AllUser(ss, n) && ss[n].OneFrame?
    requires NoneHolds(store, handles, TypeOf(ss[n].c))
    ensures OneFramesDone(store, handles, ss, n + 1)
  {
  }

  /** No handle holds a component of type ct. */
  ghost predicate NoneHolds(store: Store<Entity>, handles: set<Entity>, ct: RType)
  {
    forall x :: x in handles ==> !Holds(store, x, ct)
  }

  /** Each recorded call received the cached list of each of its filters. */
  ghost predicate SawCache(calls: seq<Call>, cache: CacheMap)
  {
    forall i, fid :: 0 <= i < |calls| && 0 <= fid < |calls[i].slots| ==>
      calls[i].slots[fid] == View(cache, calls[i].system, fid)
  }

  /** e agrees with the cache on the filters of the first n systems of ss. */
  ghost predicate AgreesAlong(filters: FilterMap, cache: CacheMap, store: Store<Entity>, e: Entity, ss: seq<System>, n: nat)
    requires n <= |ss|
  {
    forall j: nat :: j < n ==> EntityAgreesAt(filters, cache, store, e, ss[j].Type())
  }

  lemma AgreesAlongStep(filters: FilterMap, c0: CacheMap, c1: CacheMap, store: Store<Entity>, e: Entity, ss: seq<System>, i: nat)
    requires i < |ss| && DistinctTypes(ss)
    requires AgreesAlong(filters, c0, store, e, ss, i)
    requires EntityAgreesAt(filters, c1, store, e, ss[i].Type())
    requires OtherViewsKept(c0, c1, ss[i].Type())
    ensures AgreesAlong(filters, c1, store, e, ss, i + 1)
  {
    forall j: nat | j < i
      ensures EntityAgreesAt(filters, c1, store, e, ss[j].Type())
    {
      var st' := ss[j].Type();
      assert st' != ss[i].Type();
      assert EntityAgreesAt(filters, c0, store, e, st');
      assert forall fid': nat :: View(c1, st', fid') == View(c0, st', fid');
    }
  }

  lemma AgreesAlongAll(filters: FilterMap, cache: CacheMap, store: Store<Entity>, e: Entity, ss: seq<System>)
    requires filters == FiltersOf(ss)
    requires AgreesAlong(filters, cache, store, e, ss, |ss|)
    ensures forall st :: EntityAgreesAt(filters, cache, store, e, st)
  {
    forall st
      ensures EntityAgreesAt(filters, cache, store, e, st)
    {
      if st in filters {
        var j := FiltersOfKeys(ss, st);
      }
    }
  }

  class Entity {
    const w: World
    const id: nat
    var componentCount: nat
    var destroyed: bool

    constructor (w: World, id: nat)
      ensures this.w == w && this.id == id
      ensures componentCount == 0 && !destroyed
    {
      this.w := w;
      this.id := id;
      componentCount := 0;
      destroyed := false;
    }

    /**
     * Components as written: one entry per table of the store, in the map's
     * iteration order (order), with the nil interface for tables this entity
     * is not in. OwnComponents is the listing the tests expect.
     */
    method Components() returns (cs: seq<Arg>, ghost order: seq<RType>)
      ensures Enumerates(w.components, order)
      ensures cs == ComponentsAlong(w.components, this, order)
    {
      var tables := w.components;
      var keys := tables.Keys;
      cs, order := [], [];
      while keys != {}
        invariant keys <= tables.Keys
        invariant NoDup(order) && Elems(order) == tables.Keys - keys
        invariant |cs| == |order|
        invariant forall j :: 0 <= j < |order| ==> order[j] in tables
        invariant forall j :: 0 <= j < |order| ==> cs[j] == if this in tables[order[j]] then tables[order[j]][this] else Nil
        decreases keys
      {
        var t :| t in keys;
        var v := if this in tables[t] then tables[t][this] else Nil;
        assert t !in order by { assert t !in Elems(order); }
        assert Elems(order + [t]) == Elems(order) + {t};
        cs, order := cs + [v], order + [t];
        keys := keys - {t};
      }
    }

    /** Has: the entity is a key of the table of the argument's type. */
    function Has(c: Arg): (r: bool)
      reads w`components
      ensures r <==> TypeOf(c) in HeldSet(w.components, this)
      ensures NilType !in w.components ==> (c == Nil ==> !r)
    {
      TypeOf(c) in w.components && this in w.components[TypeOf(c)]
    }

    /**
     * getOrReplace: untyped nil does nothing; otherwise the type's table is
     * created when missing; Get returns a held component unchanged; a typed
     * nil stores nothing; a pointer is stored, counted, resurrects a
     * destroyed entity, and the entity's cache membership is rebuilt.
     */
    method GetOrReplace(c: Arg, replace: bool) returns (r: Arg)
      requires w.Valid() && this in w.handles
      modifies this, w
      ensures w.Valid()
      ensures w.systems == old(w.systems) && w.systemFilters == old(w.systemFilters)
      ensures w.handles == old(w.handles) && w.entityID == old(w.entityID)
      ensures c == Nil ==> r == Nil && unchanged(this, w)
      ensures c != Nil && !replace && old(Holds(w.components, this, TypeOf(c))) ==>
        r == old(w.components[TypeOf(c)][this]) && unchanged(this, w)
      ensures c.TypedNil? && (replace || !old(Holds(w.components, this, TypeOf(c)))) ==>
        && r == Nil && unchanged(this)
        && w.components == old(w.components)[TypeOf(c) := old(TableOf(w.components, TypeOf(c)))]
        && w.entities == old(w.entities) && w.cache == old(w.cache)
      ensures c.Ptr? && (replace || !old(Holds(w.components, this, TypeOf(c)))) ==>
        && r == c && !destroyed && componentCount == old(componentCount) + 1
        && w.components == old(w.components)[TypeOf(c) := old(TableOf(w.components, TypeOf(c)))[this := c]]
        && w.entities == (if old(destroyed) then old(w.entities) + [this] else old(w.entities))
        && forall x :: x != this ==> SameMembership(old(w.cache), w.cache, x)
    {
      r := Nil;
      if c != Nil {
        var ct := TypeOf(c);
        if !replace && ct in w.components && this in w.components[ct] {
          r := w.components[ct][this];
        } else {
          r := Install(c);
        }
      }
    }

    /**
     * getOrReplace past the lookup: make sure the table exists; a typed nil
     * stops there with nil, a pointer is stored and returned.
     */
    method Install(c: Arg) returns (r: Arg)
      requires w.Valid() && this in w.handles && c != Nil
      modifies this, w`entities, w`components, w`cache
      ensures w.Valid()
      ensures c.TypedNil? ==>
        && r == Nil && unchanged(this)
        && w.components == old(w.components)[TypeOf(c) := old(TableOf(w.components, TypeOf(c)))]
        && w.entities == old(w.entities) && w.cache == old(w.cache)
      ensures c.Ptr? ==>
        && r == c && !destroyed && componentCount == old(componentCount) + 1
        && w.components == old(w.components)[TypeOf(c) := old(TableOf(w.components, TypeOf(c)))[this := c]]
        && w.entities == (if old(destroyed) then old(w.entities) + [this] else old(w.entities))
        && forall x :: x != this ==> SameMembership(old(w.cache), w.cache, x)
    {
      var ct := TypeOf(c);
      ghost var s0 := w.components;
      if ct !in w.components {
        w.CreateTable(ct);
      }
      ghost var s1: Store<Entity> := w.components;
      ghost var t1: map<Entity, Arg> := s1[ct];
      assert s1 == s0[ct := TableOf(s0, ct)] && t1 == TableOf(s0, ct);
      r := Nil;
      if c.Ptr? {
        Store(c);
        assert w.components == s1[ct := t1[this := c]];
        assert s1[ct := t1[this := c]] == s0[ct := t1[this := c]];
        r := c;
      }
    }

    /** The tail of getOrReplace for a non-nil pointer: resurrect, count, store, rebuild. */
    method Store(c: Arg)
      requires w.Valid() && this in w.handles && c.Ptr? && TypeOf(c) in w.components
      modifies this, w`entities, w`components, w`cache
      ensures w.Valid()
      ensures !destroyed && componentCount == old(componentCount) + 1
      ensures w.components == old(w.components)[TypeOf(c) := old(w.components[TypeOf(c)])[this := c]]
      ensures w.entities == (if old(destroyed) then old(w.entities) + [this] else old(w.entities))
      ensures forall x :: x != this ==> SameMembership(old(w.cache), w.cache, x)
    {
      if destroyed {
        Resurrect();
      }
      Attach(c);
    }

    /** The resurrection step of getOrReplace: back into the live list. */
    method Resurrect()
      requires w.Valid() && this in w.handles && destroyed
      modifies this`destroyed, w`entities
      ensures w.Valid()
      ensures !destroyed && w.entities == old(w.entities) + [this]
    {
      w.entities := w.entities + [this];
      destroyed := false;
    }

    /** The storing step of getOrReplace: count, store, rebuild this entity's cache membership. */
    method Attach(c: Arg)
      requires w.Valid() && this in w.handles && !destroyed && c.Ptr? && TypeOf(c) in w.components
      modifies this`componentCount, w`components, w`cache
      ensures w.Valid()
      ensures componentCount == old(componentCount) + 1
      ensures w.components == old(w.components)[TypeOf(c) := old(w.components[TypeOf(c)])[this := c]]
      ensures forall x :: x != this ==> SameMembership(old(w.cache), w.cache, x)
    {
      ghost var s1 := w.components;
      componentCount := componentCount + 1;
      w.StoreComponent(this, c);
      assert w.HandlesOk() && w.RegistryOk() && CacheShape(w.cache, w.systemFilters, w.handles);
      forall x | x in w.handles
        ensures |HeldSet(w.components, x)| <= x.componentCount
        ensures x.destroyed ==> HeldSet(w.components, x) == {}
      {
        if x == this {
          assert |HeldSet(s1, this) + {TypeOf(c)}| <= |HeldSet(s1, this)| + 1;
        } else {
          assert HeldSet(w.components, x) == HeldSet(s1, x);
          assert x.componentCount == old(x.componentCount) && x.destroyed == old(x.destroyed);
        }
      }
      assert w.EntitiesOk();
      AgreesOthers(w.systemFilters, w.cache, w.cache, s1, w.components, w.handles, this);
      assert w.ValidExcept(this);
      w.Refresh(this);
    }

    /**
     * Destroy: the entity leaves the live list, every table and every cached
     * list, and is marked destroyed; its componentCount is left as it was.
     */
    method Destroy()
      requires w.ValidExcept(this) && this in w.handles
      modifies this`destroyed, w`entities, w`components, w`cache
      ensures w.Valid()
      ensures destroyed && this !in w.entities
      ensures w.entities == RemoveFirstId(old(w.entities), id)
      ensures w.components == Without(old(w.components), this)
      ensures HeldSet(w.components, this) == {}
      ensures forall st, fid: nat :: this !in View(w.cache, st, fid)
      ensures forall x :: x != this ==> SameMembership(old(w.cache), w.cache, x)
      ensures forall x :: x != this ==> SameHoldings(old(w.components), w.components, x)
    {
      ghost var s0, c0, l0 := w.components, w.cache, w.entities;
      destroyed := true;
      w.RemoveFromEntities(this);
      w.RemoveFromTables(this);
      w.DeleteEntityFromAllSystems(this);
      RemoveFirstIdMembers(l0, this);
      DestroyedFacts(w.systemFilters, s0, w.components, c0, w.cache, w.handles, this);
      assert w.HandlesOk() && w.RegistryOk();
      assert w.StoreOk() by {
        forall t, x | t in w.components && x in w.components[t]
          ensures x in w.handles && w.components[t][x].Ptr? && TypeOf(w.components[t][x]) == t
        {
          assert t in s0 && x in s0[t] && w.components[t][x] == s0[t][x];
        }
      }
      forall x | x in w.handles
        ensures x in w.entities <==> !x.destroyed
        ensures |HeldSet(w.components, x)| <= x.componentCount
        ensures x.destroyed ==> HeldSet(w.components, x) == {}
      {
        if x != this {
          assert x.destroyed == old(x.destroyed) && x.componentCount == old(x.componentCount);
          assert x in old(w.entities) <==> !old(x.destroyed);
          assert |HeldSet(s0, x)| <= old(x.componentCount);
          assert HeldSet(w.components, x) == HeldSet(s0, x);
        }
      }
      assert w.EntitiesOk();
    }

    /**
     * Delete: nothing happens unless the entity holds the type; otherwise it
     * leaves that table, the count drops, and the entity is destroyed when
     * the count reaches zero (and then is in no cached list) or has its cache
     * membership rebuilt otherwise.
     */
    method Delete(c: Arg)
      requires w.Valid() && this in w.handles
      modifies this, w
      ensures w.Valid()
      ensures w.systems == old(w.systems) && w.systemFilters == old(w.systemFilters)
      ensures w.handles == old(w.handles) && w.entityID == old(w.entityID)
      ensures !Has(c)
      ensures !old(Has(c)) ==> unchanged(this, w)
      ensures old(Has(c)) ==>
        && componentCount == old(componentCount) - 1
        && (destroyed <==> componentCount == 0)
        && (componentCount != 0 ==>
              w.components == RemoveKey(old(w.components), TypeOf(c), this) && w.entities == old(w.entities))
        && (componentCount == 0 ==>
              w.components == Without(RemoveKey(old(w.components), TypeOf(c), this), this)
              && w.entities == RemoveFirstId(old(w.entities), id)
              && forall st, fid: nat :: this !in View(w.cache, st, fid))
        && forall x :: x != this ==> SameMembership(old(w.cache), w.cache, x)
      ensures forall x :: x != this ==> SameHoldings(old(w.components), w.components, x)
    {
      var ct := TypeOf(c);
      if !(ct in w.components && this in w.components[ct]) {
        return;
      }
      ghost var s0, c0 := w.components, w.cache;
      Detach(ct);
      if componentCount == 0 {
        ghost var s1, c1 := w.components, w.cache;
        Destroy();
        forall x | x != this
          ensures SameHoldings(s0, w.components, x) && SameMembership(c0, w.cache, x)
        {
          assert SameHoldings(s0, s1, x) && SameHoldings(s1, w.components, x);
          assert SameMembership(c1, w.cache, x);
        }
        return;
      }
      w.Refresh(this);
    }

    /** The bookkeeping half of Delete: leave the table of ct and lower the count. */
    method Detach(ct: RType)
      requires w.Valid() && this in w.handles && Holds(w.components, this, ct)
      modifies this`componentCount, w`components
      ensures w.ValidExcept(this)
      ensures componentCount == old(componentCount) - 1
      ensures w.components == RemoveKey(old(w.components), ct, this)
      ensures forall x :: x != this ==> SameHoldings(old(w.components), w.components, x)
    {
      ghost var s0 := w.components;
      w.RemoveComponent(this, ct);
      DetachFacts(s0, w.components, this, ct);
      assert ct in HeldSet(s0, this) && |HeldSet(s0, this)| <= componentCount;
      componentCount := componentCount - 1;
      assert w.HandlesOk() && w.RegistryOk();
      assert w.StoreOk() by {
        forall t, x | t in w.components && x in w.components[t]
          ensures x in w.handles && w.components[t][x].Ptr? && TypeOf(w.components[t][x]) == t
        {
          assert t in s0 && x in s0[t] && w.components[t][x] == s0[t][x];
        }
      }
      forall x | x in w.handles
        ensures x in w.entities <==> !x.destroyed
        ensures |HeldSet(w.components, x)| <= x.componentCount
        ensures x.destroyed ==> HeldSet(w.components, x) == {}
      {
        assert x in w.entities <==> !old(x.destroyed);
        assert |HeldSet(s0, x)| <= old(x.componentCount);
        if x == this {
          assert ct in HeldSet(s0, this);
          assert |HeldSet(s0, this) - {ct}| == |HeldSet(s0, this)| - 1;
        } else {
          assert x.componentCount == old(x.componentCount);
        }
      }
      assert w.EntitiesOk();
      AgreesOthers(w.systemFilters, w.cache, w.cache, s0, w.components, w.handles, this);
    }

    /** Get: the held component of that type, added first when missing. */
    method Get(c: Arg) returns (r: Arg)
      requires w.Valid() && this in w.handles
      modifies this, w
      ensures w.Valid()
      ensures w.systems == old(w.systems) && w.systemFilters == old(w.systemFilters)
      ensures w.handles == old(w.handles) && w.entityID == old(w.entityID)
      ensures c == Nil ==> r == Nil && unchanged(this, w)
      ensures c != Nil && old(Holds(w.components, this, TypeOf(c))) ==>
        r == old(w.components[TypeOf(c)][this]) && unchanged(this, w)
      ensures c.TypedNil? && !old(Holds(w.components, this, TypeOf(c))) ==>
        && r == Nil && unchanged(this)
        && w.components == old(w.components)[TypeOf(c) := old(TableOf(w.components, TypeOf(c)))]
        && w.entities == old(w.entities) && w.cache == old(w.cache)
      ensures c.Ptr? && !old(Holds(w.components, this, TypeOf(c))) ==>
        && r == c && !destroyed && componentCount == old(componentCount) + 1
        && w.components == old(w.components)[TypeOf(c) := old(TableOf(w.components, TypeOf(c)))[this := c]]
        && w.entities == (if old(destroyed) then old(w.entities) + [this] else old(w.entities))
        && forall x :: x != this ==> SameMembership(old(w.cache), w.cache, x)
      ensures Has(c) <==> old(Has(c)) || c.Ptr?
    {
      r := GetOrReplace(c, false);
    }

    /**
     * Replace: store the component, overwriting one of the same type, and
     * count the write even when it overwrites; nil stores nothing and a
     * typed nil only creates the table.
     */
    method Replace(c: Arg)
      requires w.Valid() && this in w.handles
      modifies this, w
      ensures w.Valid()
      ensures w.systems == old(w.systems) && w.systemFilters == old(w.systemFilters)
      ensures w.handles == old(w.handles) && w.entityID == old(w.entityID)
      ensures c == Nil ==> unchanged(this, w)
      ensures c.TypedNil? ==>
        && unchanged(this)
        && w.components == old(w.components)[TypeOf(c) := old(TableOf(w.components, TypeOf(c)))]
        && w.entities == old(w.entities) && w.cache == old(w.cache)
      ensures c.Ptr? ==>
        && !destroyed && componentCount == old(componentCount) + 1
        && w.components == old(w.components)[TypeOf(c) := old(TableOf(w.components, TypeOf(c)))[this := c]]
        && w.entities == (if old(destroyed) then old(w.entities) + [this] else old(w.entities))
        && forall x :: x != this ==> SameMembership(old(w.cache), w.cache, x)
    {
      var _ := GetOrReplace(c, true);
    }
  }

  class World {
    var entityID: nat
    var entities: seq<Entity>
    var components: Store<Entity>
    var systems: seq<System>
    var systemFilters: FilterMap
    var cache: CacheMap
    /** Every handle NewEntity has returned. */
    ghost var handles: set<Entity>

    /** Handles belong to this world and their IDs identify them. */
    ghost predicate HandlesOk()
      reads this`handles, this`entityID
    {
      && (forall e :: e in handles ==> e.w == this && 1 <= e.id <= entityID)
      && (forall a, b :: a in handles && b in handles && a.id == b.id ==> a == b)
    }

    /** No table for the nil type; every stored value is a non-nil pointer of its table's type. */
    ghost predicate StoreOk()
      reads this`components, this`handles
    {
      && NilType !in components
      && forall t, e :: t in components && e in components[t] ==>
        && e in handles
        && components[t][e].Ptr?
        && TypeOf(components[t][e]) == t
    }

    /** One registration per system type, and systemFilters built from the registry. */
    ghost predicate RegistryOk()
      reads this`systems, this`systemFilters
    {
      DistinctTypes(systems) && systemFilters == FiltersOf(systems)
    }

    /**
     * The live list has each entity once, exactly the handles not destroyed;
     * componentCount bounds the number of held types; a destroyed entity holds nothing.
     */
    ghost predicate EntitiesOk()
      reads this`entities, this`components, this`handles, handles
    {
      && NoDup(entities)
      && (forall e :: e in entities ==> e in handles)
      && (forall e :: e in handles ==> (e in entities <==> !e.destroyed))
      && (forall e :: e in handles ==> |HeldSet(components, e)| <= e.componentCount)
      && (forall e :: e in handles && e.destroyed ==> HeldSet(components, e) == {})
    }

    ghost predicate Structure()
      reads this, handles
    {
      HandlesOk() && StoreOk() && RegistryOk() && CacheShape(cache, systemFilters, handles) && EntitiesOk()
    }

    /** Everything holds, except possibly the cache agreement of e. */
    ghost predicate ValidExcept(e: Entity)
      reads this, handles
    {
      Structure() && forall x :: x in handles && x != e ==> Agrees(systemFilters, cache, components, x)
    }

    ghost predicate Valid()
      reads this, handles
    {
      Structure() && forall x :: x in handles ==> Agrees(systemFilters, cache, components, x)
    }

    /** NewWorld: no entities, no tables, no systems, an empty cache. */
    constructor ()
      ensures Valid()
      ensures entityID == 0 && entities == [] && components == map[] && handles == {}
      ensures systems == [] && systemFilters == map[] && cache == map[]
    {
      entityID := 0;
      entities := [];
      components := map[];
      systems := [];
      systemFilters := map[];
      cache := map[];
      handles := {};
    }

    /** NewEntity: the next ID, a live entity with no components appended to the live list. */
    method NewEntity() returns (e: Entity)
      requires Valid()
      modifies this`entityID, this`entities, this`handles
      ensures Valid()
      ensures fresh(e) && e.w == this && e.id == entityID == old(entityID) + 1
      ensures e.componentCount == 0 && !e.destroyed
      ensures entities == old(entities) + [e] && handles == old(handles) + {e}
      ensures HeldSet(components, e) == {}
      ensures forall x :: x in old(handles) ==> x.id < e.id
    {
      entityID := entityID + 1;
      e := new Entity(this, entityID);
      entities := entities + [e];
      handles := handles + {e};
      forall t, x | t in components && x in components[t]
        ensures x in old(handles) && x in handles && x != e
      {
      }
      assert StoreOk();
      assert HeldSet(components, e) == {};
      assert EntitiesOk();
      AgreesNowhere(systemFilters, cache, components, e);
    }

    /**
     * RemoveSystem: splice out the first registered system of the same type
     * (there is at most one), and drop that type's cache and filters.
     */
    method RemoveSystem(s: System)
      requires Valid()
      modifies this`systems, this`systemFilters, this`cache
      ensures Valid()
      ensures systems == RemoveType(old(systems), s.Type())
      ensures forall i :: 0 <= i < |systems| ==> systems[i].Type() != s.Type()
      ensures systemFilters == old(systemFilters) - {s.Type()}
      ensures cache == old(cache) - {s.Type()}
    {
      var st := s.Type();
      ShapeWithout(cache, systemFilters, handles, st);
      forall x | x in handles
        ensures Agrees(systemFilters - {st}, cache - {st}, components, x)
      {
        AgreesWithout(systemFilters, cache, components, x, st);
      }
      Unregister(st);
      cache := cache - {st};
      assert HandlesOk() && StoreOk() && EntitiesOk() && RegistryOk();
    }

    /** The search and splice of RemoveSystem: the first system of type st leaves the registry. */
    method Unregister(st: SystemType)
      requires RegistryOk()
      modifies this`systems, this`systemFilters
      ensures RegistryOk()
      ensures systems == RemoveType(old(systems), st)
      ensures forall i :: 0 <= i < |systems| ==> systems[i].Type() != st
      ensures systemFilters == old(systemFilters) - {st}
    {
      var i := IndexOfType(st);
      RemoveTypeFacts(systems, st);
      if i < |systems| {
        systems := systems[..i] + systems[i + 1..];
      }
      systemFilters := systemFilters - {st};
    }

    /** The position of the system of type st, |systems| when none is registered. */
    method IndexOfType(st: SystemType) returns (i: nat)
      ensures i == FirstOfType(systems, st)
    {
      i := 0;
      while i < |systems| && systems[i].Type() != st
        invariant 0 <= i <= |systems|
        invariant forall j :: 0 <= j < i ==> systems[j].Type() != st
      {
        i := i + 1;
      }
    }

    /** The append and the filter loop of AddSystem: the system goes last, its filters are recorded in order. */
    method RegisterFilters(s: System)
      requires RegistryOk()
      requires forall i :: 0 <= i < |systems| ==> systems[i].Type() != s.Type()
      modifies this`systems, this`systemFilters
      ensures RegistryOk()
      ensures systems == old(systems) + [s]
      ensures |s.GetFilters()| > 0 ==> systemFilters == old(systemFilters)[s.Type() := ToTypesAll(s.GetFilters())]
      ensures |s.GetFilters()| == 0 ==> systemFilters == old(systemFilters)
    {
      var st := s.Type();
      FiltersOfAbsent(systems, st);
      FiltersOfAppend(systems, s);
      systems := systems + [s];
      var fts := ConvertFilters(s.GetFilters());
      if |fts| > 0 {
        systemFilters := systemFilters[st := fts];
      }
      assert DistinctTypes(systems) by {
        forall a, b | 0 <= a < b < |systems|
          ensures systems[a].Type() != systems[b].Type()
        {
          if b == |systems| - 1 {
            assert systems[a] == old(systems)[a];
          } else {
            assert systems[a] == old(systems)[a] && systems[b] == old(systems)[b];
          }
        }
      }
    }

    /** The tail of AddSystem: the full rebuild of a freshly registered type, skipped while the store is empty. */
    method RebuildIfStored(st: SystemType)
      requires HandlesOk() && StoreOk()
      requires CacheShape(cache, systemFilters, handles)
      requires forall fid: nat :: View(cache, st, fid) == []
      modifies this`cache
      ensures CacheShape(cache, systemFilters, handles)
      ensures OtherViewsKept(old(cache), cache, st)
      ensures forall fid: nat :: st in systemFilters && fid < |systemFilters[st]| ==>
        Built(View(cache, st, fid), components, systemFilters[st][fid])
    {
      if |components| == 0 {
        return;
      }
      RebuildBySystem(st);
    }

    /**
     * AddSystem: replace any system of the same type, register the new one
     * last with its filters, and rebuild its lists unless the store is empty.
     * Afterwards each of its lists holds exactly the matching entities
     * (none for a filter with an empty Include list).
     */
    method AddSystem(s: System)
      requires Valid()
      modifies this`systems, this`systemFilters, this`cache
      ensures Valid()
      ensures systems == RemoveType(old(systems), s.Type()) + [s]
      ensures |s.GetFilters()| > 0 ==> systemFilters == old(systemFilters)[s.Type() := ToTypesAll(s.GetFilters())]
      ensures |s.GetFilters()| == 0 ==> systemFilters == old(systemFilters) - {s.Type()}
      ensures OtherViewsKept(old(cache), cache, s.Type())
      ensures forall fid: nat :: fid < |s.GetFilters()| ==>
        Built(View(cache, s.Type(), fid), components, ToTypes(s.GetFilters()[fid]))
    {
      ghost var c0 := cache;
      RemoveSystem(s);
      ViewsWithout(c0, s.Type());
      ghost var c1 := cache;
      Register(s);
      OtherViewsKeptTrans(c0, c1, cache, s.Type());
      ReplaceEntry(old(systemFilters), s.Type(), ToTypesAll(s.GetFilters()));
    }

    /** AddSystem once no system of that type is left: append, record filters, rebuild. */
    method Register(s: System)
      requires Valid()
      requires forall i :: 0 <= i < |systems| ==> systems[i].Type() != s.Type()
      requires s.Type() !in cache
      modifies this`systems, this`systemFilters, this`cache
      ensures Valid()
      ensures systems == old(systems) + [s]
      ensures |s.GetFilters()| > 0 ==> systemFilters == old(systemFilters)[s.Type() := ToTypesAll(s.GetFilters())]
      ensures |s.GetFilters()| == 0 ==> systemFilters == old(systemFilters)
      ensures OtherViewsKept(old(cache), cache, s.Type())
      ensures forall fid: nat :: fid < |s.GetFilters()| ==>
        Built(View(cache, s.Type(), fid), components, ToTypes(s.GetFilters()[fid]))
    {
      var st := s.Type();
      ghost var f0, c0 := systemFilters, cache;
      FiltersOfAbsent(systems, st);
      RegisterFilters(s);
      assert forall fid: nat :: View(cache, st, fid) == [];
      ShapeWiderFilters(cache, f0, systemFilters, handles);
      assert HandlesOk() && StoreOk() && EntitiesOk();
      RebuildIfStored(st);
      assert HandlesOk() && StoreOk() && EntitiesOk() && RegistryOk();
      forall x | x in handles
        ensures Agrees(systemFilters, cache, components, x)
      {
        AgreesAfterRebuild(f0, systemFilters, c0, cache, components, x, st);
      }
      BuiltRegistered(systemFilters, cache, components, st, s.GetFilters());
    }

    /**
     * SystemsInit: Init runs for each system that has one, in registration
     * order, and the first error ends the loop; ran counts the systems looked at.
     */
    method SystemsInit() returns (err: Option<InitError>, ran: nat)
      ensures ran <= |systems|
      ensures forall j :: 0 <= j < ran && (err.None? || j < ran - 1) ==> !systems[j].InitFails()
      ensures err.None? <==> forall j :: 0 <= j < |systems| ==> !systems[j].InitFails()
      ensures err.None? ==> ran == |systems|
      ensures err.Some? ==>
        && 0 < ran && systems[ran - 1].InitFails()
        && err.value == InitError(systems[ran - 1].Type(), systems[ran - 1].init.err)
    {
      var i := 0;
      while i < |systems|
        invariant 0 <= i <= |systems|
        invariant forall j :: 0 <= j < i ==> !systems[j].InitFails()
      {
        var s := systems[i];
        if s.HasInit() && s.init.InitFails? {
          return Some(InitError(s.Type(), s.init.err)), i + 1;
        }
        i := i + 1;
      }
      return None, i;
    }

    /** SystemsDestroy: Destroy is called on each system that has one, in registration order. */
    method SystemsDestroy() returns (destroyed: seq<SystemType>)
      requires RegistryOk()
      ensures destroyed == DestroyOrder(systems)
      ensures NoDup(destroyed)
    {
      destroyed := [];
      var i := 0;
      while i < |systems|
        invariant 0 <= i <= |systems|
        invariant destroyed == DestroyOrder(systems[..i])
        invariant NoDup(destroyed)
      {
        var s := systems[i];
        assert systems[..i + 1][..i] == systems[..i];
        if s.HasDestroy() {
          assert s.Type() !in destroyed;
          destroyed := destroyed + [s.Type()];
        }
        i := i + 1;
      }
      assert systems[..i] == systems;
    }

    /**
     * Run up to the tick loop: fps == 0 is rejected before any Init runs;
     * otherwise the error of SystemsInit, if any, is returned. The ticker
     * loop and the final SystemsDestroy are not part of this model.
     */
    method Run(fps: nat) returns (err: Option<RunError>, ran: nat)
      ensures fps == 0 ==> err == Some(ZeroFps) && ran == 0
      ensures fps > 0 ==> (err.None? <==> forall j :: 0 <= j < |systems| ==> !systems[j].InitFails())
      ensures fps > 0 && err.Some? ==>
        && 0 < ran <= |systems| && systems[ran - 1].InitFails()
        && err.value == InitFailed(InitError(systems[ran - 1].Type(), systems[ran - 1].init.err))
    {
      if fps == 0 {
        return Some(ZeroFps), 0;
      }
      var e;
      e, ran := SystemsInit();
      if e.Some? {
        return Some(InitFailed(e.value)), ran;
      }
      return None, ran;
    }

    /**
     * The slot list SystemsUpdate builds for one system: one slot per
     * registered filter, in filter order, each the cached list (nil when the
     * system has no cache entry). Each slot of a filter with a non-empty
     * Include list holds exactly the handles that match it.
     */
    method Slots(st: SystemType) returns (slots: seq<seq<Entity>>)
      requires Valid()
      ensures |slots| == |FiltersOfType(st)|
      ensures forall fid :: 0 <= fid < |slots| ==> slots[fid] == View(cache, st, fid)
      ensures forall fid, x :: 0 <= fid < |slots| && x in slots[fid] ==> x in handles
      ensures forall fid, x :: 0 <= fid < |slots| && |FiltersOfType(st)[fid].Include| > 0 && x in handles ==>
        (x in slots[fid] <==> Matches(components, x, FiltersOfType(st)[fid]))
    {
      var filter := FiltersOfType(st);
      slots := [];
      var fid := 0;
      while fid < |filter|
        invariant 0 <= fid <= |filter|
        invariant |slots| == fid
        invariant forall f :: 0 <= f < fid ==> slots[f] == View(cache, st, f)
      {
        var entities: seq<Entity> := [];
        if st in cache && |cache[st]| > 0 {
          entities := if fid in cache[st] then cache[st][fid] else [];
        }
        slots := slots + [entities];
        fid := fid + 1;
      }
      forall fid, x | 0 <= fid < |slots| && |filter[fid].Include| > 0 && x in handles
        ensures x in slots[fid] <==> Matches(components, x, filter[fid])
      {
        assert Agrees(systemFilters, cache, components, x);
      }
    }

    /**
     * SystemsUpdate: every registered system, in registration order, receives
     * its slots and runs its Update. Turn i reads its slots from caches[i],
     * where they hold exactly the entities matching in stores[i], and leaves
     * stores[i + 1] and caches[i + 1]. When only user systems are registered
     * the world is left as it was; after a tick with the one-frame system no
     * entity holds its component.
     */
    method SystemsUpdate(delta: int) returns (calls: seq<Call>, ghost stores: seq<Store<Entity>>, ghost caches: seq<CacheMap>)
      requires Valid()
      modifies this, handles
      ensures Valid()
      ensures systems == old(systems) && systemFilters == old(systemFilters)
      ensures handles == old(handles) && entityID == old(entityID)
      ensures |calls| == |systems|
      ensures forall i :: 0 <= i < |calls| ==>
        && calls[i].system == systems[i].Type() && calls[i].delta == delta
        && |calls[i].slots| == |FiltersOfType(systems[i].Type())|
      ensures |stores| == |systems| + 1 && |caches| == |systems| + 1
      ensures stores[0] == old(components) && caches[0] == old(cache)
      ensures stores[|systems|] == components && caches[|systems|] == cache
      ensures forall i :: 0 <= i < |systems| ==> TurnSaw(calls[i], systemFilters, caches[i], stores[i], handles)
      ensures forall i :: 0 <= i < |systems| ==> TurnEffect(systems[i], stores[i], caches[i], stores[i + 1], caches[i + 1], handles)
      ensures (forall i :: 0 <= i < |systems| ==> systems[i].User?) ==>
        && unchanged(this) && unchanged(handles)
        && forall i, fid :: 0 <= i < |calls| && 0 <= fid < |calls[i].slots| ==>
             calls[i].slots[fid] == View(cache, systems[i].Type(), fid)
      ensures forall i :: 0 <= i < |systems| && systems[i].OneFrame? ==> NoneHolds(components, handles, TypeOf(systems[i].c))
    {
      calls := [];
      stores, caches := [components], [cache];
      var i := 0;
      while i < |systems|
        invariant 0 <= i <= |systems|
        invariant Valid()
        invariant systems == old(systems) && systemFilters == old(systemFilters)
        invariant handles == old(handles) && entityID == old(entityID)
        invariant Recorded(calls, systems, systemFilters, delta, i)
        invariant Turns(calls, systems, systemFilters, stores, caches, handles, i)
        invariant stores[0] == old(components) && caches[0] == old(cache)
        invariant stores[i] == components && caches[i] == cache
        invariant AllUser(systems, i) ==> unchanged(this) && unchanged(handles) && SawCache(calls, cache)
        invariant OneFramesDone(components, handles, systems, i)
      {
        calls, stores, caches := TakeTurn(i, delta, calls, stores, caches);
        i := i + 1;
      }
    }

    /** Turn i of SystemsUpdate, with the bookkeeping of the tick so far. */
    method TakeTurn(i: nat, delta: int, calls: seq<Call>, ghost stores: seq<Store<Entity>>, ghost caches: seq<CacheMap>)
      returns (calls': seq<Call>, ghost stores': seq<Store<Entity>>, ghost caches': seq<CacheMap>)
      requires Valid() && i < |systems|
      requires Recorded(calls, systems, systemFilters, delta, i)
      requires Turns(calls, systems, systemFilters, stores, caches, handles, i)
      requires stores[i] == components && caches[i] == cache
      requires AllUser(systems, i) ==> SawCache(calls, cache)
      requires OneFramesDone(components, handles, systems, i)
      modifies this, handles
      ensures Valid()
      ensures systems == old(systems) && systemFilters == old(systemFilters)
      ensures handles == old(handles) && entityID == old(entityID)
      ensures Recorded(calls', systems, systemFilters, delta, i + 1)
      ensures Turns(calls', systems, systemFilters, stores', caches', handles, i + 1)
      ensures stores'[0] == stores[0] && caches'[0] == caches[0]
      ensures stores'[i + 1] == components && caches'[i + 1] == cache
      ensures AllUser(systems, i + 1) ==> unchanged(this) && unchanged(handles) && SawCache(calls', cache)
      ensures OneFramesDone(components, handles, systems, i + 1)
    {
      var s := systems[i];
      ghost var s0 := components;
      ghost var allUser := AllUser(systems, i);
      var call := UpdateSystem(s, delta);
      RecordedStep(calls, call, systems, systemFilters, delta, i);
      TurnsStep(calls, call, systems, systemFilters, stores, caches, components, cache, handles, i);
      calls' := calls + [call];
      stores', caches' := stores + [components], caches + [cache];
      if s.OneFrame? {
        OneFrameFirst(systems, i);
        OneFramesDoneStep(components, handles, systems, i);
      } else {
        assert components == s0;
        if allUser {
          assert SawCache(calls', cache);
        }
      }
    }

    /**
     * One system's turn in SystemsUpdate: its slots are collected, then its
     * Update runs. A user Update is opaque here and changes nothing; the
     * one-frame system deletes its component from every entity in its slot,
     * so afterwards no entity holds that type and no other holding changed.
     */
    method UpdateSystem(s: System, delta: int) returns (call: Call)
      requires Valid() && s in systems
      modifies this, handles
      ensures Valid()
      ensures systems == old(systems) && systemFilters == old(systemFilters)
      ensures handles == old(handles) && entityID == old(entityID)
      ensures call.system == s.Type() && call.delta == delta
      ensures |call.slots| == |FiltersOfType(s.Type())|
      ensures forall fid :: 0 <= fid < |call.slots| ==> call.slots[fid] == View(old(cache), s.Type(), fid)
      ensures s.User? ==> unchanged(this) && unchanged(handles)
      ensures s.OneFrame? ==> NoneHolds(components, handles, TypeOf(s.c))
      ensures s.OneFrame? ==> forall x :: x in handles && !Holds(old(components), x, TypeOf(s.c)) ==>
        SameHoldings(old(components), components, x)
      ensures TurnSaw(call, systemFilters, old(cache), old(components), handles)
      ensures TurnEffect(s, old(components), old(cache), components, cache, handles)
    {
      var slots := Slots(s.Type());
      call := Call(s.Type(), delta, slots);
      if s.OneFrame? {
        var i :| 0 <= i < |systems| && systems[i] == s;
        FiltersOfLookup(systems, i);
        OneFrameFilterTypes(s.c);
        var f := FilterTypes([TypeOf(s.c)], []);
        assert FiltersOfType(s.Type()) == [f];
        ghost var s0 := components;
        assert forall x :: x in handles ==> (x in slots[0] <==> Holds(s0, x, TypeOf(s.c))) by {
          forall x | x in handles ensures x in slots[0] <==> Holds(s0, x, TypeOf(s.c)) {
            assert Matches(s0, x, f) <==> Holds(s0, x, TypeOf(s.c));
          }
        }
        assert slots == [slots[0]];
        OneFrameUpdate(s.c, slots);
        SweptSlot(s0, components, handles, slots[0], TypeOf(s.c));
      }
    }

    /**
     * oneFrame.Update: Delete(c) on every entity of every slot, the slots
     * being snapshots. Afterwards no entity of a slot holds the type of c,
     * and every other entity holds what it held.
     */
    method OneFrameUpdate(c: Arg, filtered: seq<seq<Entity>>)
      requires Valid()
      requires forall k, j :: 0 <= k < |filtered| && 0 <= j < |filtered[k]| ==> filtered[k][j] in handles
      modifies this, handles
      ensures Valid()
      ensures systems == old(systems) && systemFilters == old(systemFilters)
      ensures handles == old(handles) && entityID == old(entityID)
      ensures forall k :: 0 <= k < |filtered| ==> Cleared(components, filtered[k], TypeOf(c))
      ensures KeptOutside(old(components), components, handles, filtered)
    {
      var k := 0;
      while k < |filtered|
        invariant 0 <= k <= |filtered|
        invariant Valid()
        invariant systems == old(systems) && systemFilters == old(systemFilters)
        invariant handles == old(handles) && entityID == old(entityID)
        invariant forall k' :: 0 <= k' < k ==> Cleared(components, filtered[k'], TypeOf(c))
        invariant KeptOutside(old(components), components, handles, filtered[..k])
      {
        ghost var s1 := components;
        DeleteEach(c, filtered[k]);
        ClearedCarry(old(components), s1, components, handles, filtered, k, TypeOf(c));
        k := k + 1;
      }
      assert filtered[..k] == filtered;
    }

    /** The inner loop of oneFrame.Update: Delete(c) on each entity of one slot. */
    method DeleteEach(c: Arg, es: seq<Entity>)
      requires Valid()
      requires forall j :: 0 <= j < |es| ==> es[j] in handles
      modifies this, handles
      ensures Valid()
      ensures systems == old(systems) && systemFilters == old(systemFilters)
      ensures handles == old(handles) && entityID == old(entityID)
      ensures Cleared(components, es, TypeOf(c))
      ensures KeptOutside(old(components), components, handles, [es])
    {
      var j := 0;
      while j < |es|
        invariant 0 <= j <= |es|
        invariant Valid()
        invariant systems == old(systems) && systemFilters == old(systemFilters)
        invariant handles == old(handles) && entityID == old(entityID)
        invariant Cleared(components, es[..j], TypeOf(c))
        invariant KeptOutside(old(components), components, handles, [es[..j]])
      {
        ghost var s1 := components;
        DeleteOne(es[j], c);
        ClearedStep(old(components), s1, components, handles, es, j, TypeOf(c));
        j := j + 1;
      }
      assert es[..j] == es;
    }

    /** One e.Delete(c) of the inner loop, seen from the world. */
    method DeleteOne(e: Entity, c: Arg)
      requires Valid() && e in handles
      modifies this, handles
      ensures Valid()
      ensures systems == old(systems) && systemFilters == old(systemFilters)
      ensures handles == old(handles) && entityID == old(entityID)
      ensures !Holds(components, e, TypeOf(c))
      ensures forall x :: x != e ==> SameHoldings(old(components), components, x)
    {
      assert e.w == this;
      e.Delete(c);
    }

    /** e.w.components[ct][e] = c: the write itself. */
    method StoreComponent(e: Entity, c: Arg)
      requires HandlesOk() && StoreOk() && e in handles && c.Ptr? && TypeOf(c) in components
      modifies this`components
      ensures StoreOk()
      ensures components == old(components)[TypeOf(c) := old(components)[TypeOf(c)][e := c]]
      ensures HeldSet(components, e) == HeldSet(old(components), e) + {TypeOf(c)}
      ensures forall x :: x in handles && x != e ==> SameHoldings(old(components), components, x) && HeldSet(components, x) == HeldSet(old(components), x)
    {
      ghost var s1 := components;
      var ct := TypeOf(c);
      components := components[ct := components[ct][e := c]];
      forall x | x in handles
        ensures x != e ==> SameHoldings(s1, components, x) && HeldSet(components, x) == HeldSet(s1, x)
        ensures HeldSet(components, e) == HeldSet(s1, e) + {ct}
      {
        WriteHoldings(s1, ct, e, c, x);
        if x != e {
          SameHoldingsMatch(s1, components, x, FilterTypes([], []));
        }
      }
    }

    /** systemCacheRebuildByEntity as the entity operations use it: restores the cache invariant for e. */
    method Refresh(e: Entity)
      requires ValidExcept(e) && e in handles
      modifies this`cache
      ensures Valid()
      ensures forall x :: x != e ==> SameMembership(old(cache), cache, x)
    {
      ghost var c1 := cache;
      RebuildByEntity(e);
      AgreesFromRebuild(systemFilters, cache, components, e);
      forall x | x in handles && x != e
        ensures SameHoldings(components, components, x)
      {
      }
      AgreesOthers(systemFilters, c1, cache, components, components, handles, e);
    }

    /** The first loop of Destroy: splice the entity with that ID out of the live list. */
    method RemoveFromEntities(e: Entity)
      modifies this`entities
      ensures entities == RemoveFirstId(old(entities), e.id)
    {
      var i := 0;
      while i < |entities| && entities[i].id != e.id
        invariant 0 <= i <= |entities|
        invariant forall j :: 0 <= j < i ==> entities[j].id != e.id
      {
        i := i + 1;
      }
      assert i == FirstId(entities, e.id);
      if i < |entities| {
        entities := entities[..i] + entities[i + 1..];
      }
    }

    /** The second loop of Destroy: the entity leaves every table, and an emptied table is dropped. */
    method RemoveFromTables(e: Entity)
      modifies this`components
      ensures components == Without(old(components), e)
    {
      ghost var s0 := components;
      var keys := components.Keys;
      while keys != {}
        invariant Sweeping(s0, components, e, keys)
      {
        var ct :| ct in keys;
        var m := components[ct] - {e};
        EmptyAfterRemove(components[ct], e);
        if |m| == 0 {
          SweepingDrop(s0, components, e, keys, ct);
          components := components - {ct};
        } else {
          SweepingShrink(s0, components, e, keys, ct);
          components := components[ct := m];
        }
        keys := keys - {ct};
      }
      SweepingDone(s0, components, e);
    }

    /** The first half of Delete: delete(w.components[ct], e) and drop the table once empty. */
    method RemoveComponent(e: Entity, ct: RType)
      requires ct in components
      modifies this`components
      ensures components == RemoveKey(old(components), ct, e)
    {
      ghost var s0 := components;
      var m := components[ct] - {e};
      EmptyAfterRemove(s0[ct], e);
      components := components[ct := m];
      if |components[ct]| == 0 {
        components := components - {ct};
        assert components == s0 - {ct};
      } else {
        assert !(s0[ct].Keys <= {e});
      }
    }

    /** The table creation of getOrReplace: an empty table for a type that has none. */
    method CreateTable(ct: RType)
      requires Valid() && ct != NilType && ct !in components
      modifies this`components
      ensures Valid()
      ensures components == old(components)[ct := map[]]
    {
      ghost var s0 := components;
      components := components[ct := map[]];
      forall t, e | t in components && e in components[t]
        ensures t != ct && e in s0[t] && components[t][e] == s0[t][e]
      {
      }
      forall x | x in handles
        ensures SameHoldings(s0, components, x) && HeldSet(components, x) == HeldSet(s0, x)
      {
        CreateTableHoldings(s0, ct, x);
        SameHoldingsMatch(s0, components, x, FilterTypes([], []));
      }
      assert EntitiesOk();
      forall x | x in handles
        ensures Agrees(systemFilters, cache, components, x)
      {
        AgreesFrame(systemFilters, cache, cache, s0, components, x);
      }
    }

    /** The filters registered for a system type (nil when it has none). */
    function FiltersOfType(st: SystemType): seq<FilterTypes>
      reads this`systemFilters
    {
      FilterList(systemFilters, st)
    }

    /** The loop of systemCacheRebuildByEntity that lists the entity's types. */
    method HeldTypes(e: Entity) returns (cts: seq<RType>)
      ensures NoDup(cts)
      ensures Elems(cts) == HeldSet(components, e)
    {
      cts := [];
      var rest := components.Keys;
      while rest != {}
        invariant rest <= components.Keys
        invariant NoDup(cts)
        invariant forall t :: t in cts <==> t in components && t !in rest && e in components[t]
      {
        var ct :| ct in rest;
        rest := rest - {ct};
        if e in components[ct] {
          cts := cts + [ct];
        }
      }
    }

    /** systemCacheDeleteEntityFromSystem */
    method DeleteEntityFromSystem(e: Entity, st: SystemType, fid: nat)
      requires HandlesOk() && e in handles
      requires CacheShape(cache, systemFilters, handles)
      modifies this`cache
      ensures CacheShape(cache, systemFilters, handles)
      ensures View(cache, st, fid) == RemoveFirstId(View(old(cache), st, fid), e.id)
      ensures forall x :: x in View(cache, st, fid) <==> x in View(old(cache), st, fid) && x != e
      ensures Dropped(old(cache), cache, e, st, fid)
      ensures OnlyView(old(cache), cache, st, fid)
    {
      ghost var c0 := cache;
      var list := View(cache, st, fid);
      var i := 0;
      while i < |list| && list[i].id != e.id
        invariant 0 <= i <= |list|
        invariant forall j :: 0 <= j < i ==> list[j].id != e.id
      {
        i := i + 1;
      }
      assert i == FirstId(list, e.id);
      if i < |list| {
        assert list[..i] + list[i + 1..] == RemoveFirstId(list, e.id);
        cache := Put(cache, st, fid, list[..i] + list[i + 1..]);
      }
      assert cache == if FirstId(list, e.id) < |list| then Put(c0, st, fid, RemoveFirstId(list, e.id)) else c0;
      cache := PruneList(cache, st, fid);
      cache := PruneSystem(cache, st);
      DropFacts(c0, cache, systemFilters, handles, st, fid, e);
    }

    /** The cache insertion both rebuilds share: create the system's entry, then appendIfMissing. */
    method AddEntityToSystem(e: Entity, st: SystemType, fid: nat)
      requires e in handles && st in systemFilters && fid < |systemFilters[st]|
      requires CacheShape(cache, systemFilters, handles)
      modifies this`cache
      ensures CacheShape(cache, systemFilters, handles)
      ensures View(cache, st, fid) == if e in View(old(cache), st, fid) then View(old(cache), st, fid) else View(old(cache), st, fid) + [e]
      ensures forall x :: x in View(cache, st, fid) <==> x in View(old(cache), st, fid) || x == e
      ensures OnlyView(old(cache), cache, st, fid)
    {
      ghost var c0 := cache;
      var list := AppendIfMissing(View(cache, st, fid), e);
      cache := Put(cache, st, fid, list);
      WriteBack(c0, st, fid, list);
      assert PruneSystem(PruneList(cache, st, fid), st) == cache;
      ShapeAfterWrite(c0, cache, systemFilters, handles, st, fid);
    }

    /** systemCacheDeleteEntityFromAllSystems */
    method DeleteEntityFromAllSystems(e: Entity)
      requires HandlesOk() && e in handles
      requires CacheShape(cache, systemFilters, handles)
      modifies this`cache
      ensures CacheShape(cache, systemFilters, handles)
      ensures forall st, fid: nat :: Dropped(old(cache), cache, e, st, fid)
    {
      ghost var c0 := cache;
      var sts := cache.Keys;
      while sts != {}
        invariant sts <= c0.Keys
        invariant CacheShape(cache, systemFilters, handles)
        invariant forall st, fid: nat :: st !in sts ==> Dropped(c0, cache, e, st, fid)
        invariant forall st, fid: nat :: st in sts ==> View(cache, st, fid) == View(c0, st, fid)
      {
        var st :| st in sts;
        sts := sts - {st};
        ghost var c1 := cache;
        DeleteEntityFromLists(e, st);
        forall st', fid: nat | st' !in sts
          ensures Dropped(c0, cache, e, st', fid)
        {
          if st' != st {
            assert Dropped(c0, c1, e, st', fid);
            assert View(cache, st', fid) == View(c1, st', fid);
          } else {
            assert View(c1, st, fid) == View(c0, st, fid);
            assert Dropped(c1, cache, e, st, fid);
          }
        }
      }
    }

    /** The inner loop of systemCacheDeleteEntityFromAllSystems: every list of one system. */
    method DeleteEntityFromLists(e: Entity, st: SystemType)
      requires HandlesOk() && e in handles
      requires CacheShape(cache, systemFilters, handles)
      modifies this`cache
      ensures CacheShape(cache, systemFilters, handles)
      ensures forall fid: nat :: Dropped(old(cache), cache, e, st, fid)
      ensures forall st', fid: nat :: st' != st ==> View(cache, st', fid) == View(old(cache), st', fid)
    {
      ghost var c0 := cache;
      var fids := if st in cache then cache[st].Keys else {};
      DropProgressStart(c0, e, st);
      while fids != {}
        invariant CacheShape(cache, systemFilters, handles)
        invariant DropProgress(c0, cache, e, st, fids)
      {
        var fid :| fid in fids;
        ghost var c1 := cache;
        DeleteEntityFromSystem(e, st, fid);
        DropProgressStep(c0, c1, cache, e, st, fids, fid);
        fids := fids - {fid};
      }
    }

    /** One pass of the inner loop of systemCacheRebuildByEntity: the decision for one filter. */
    method UpdateEntityInFilter(e: Entity, cts: seq<RType>, st: SystemType, fid: nat)
      requires HandlesOk() && e in handles
      requires CacheShape(cache, systemFilters, handles)
      requires st in systemFilters && fid < |systemFilters[st]|
      requires NoDup(cts) && Elems(cts) == HeldSet(components, e)
      modifies this`cache
      ensures CacheShape(cache, systemFilters, handles)
      ensures e in View(cache, st, fid) <==> Matches(components, e, systemFilters[st][fid])
      ensures OthersKept(old(cache), cache, e, handles)
      ensures OnlyView(old(cache), cache, st, fid)
    {
      var f := systemFilters[st][fid];
      MatchesByCount(components, e, f, Elems(cts));
      var ex := HasComponentCount(cts, f.Exclude);
      var keep := false;
      if ex == 0 {
        var inc := HasComponentCount(cts, f.Include);
        keep := inc == |f.Include|;
      }
      assert keep <==> Matches(components, e, f);
      ghost var c0 := cache;
      if keep {
        AddEntityToSystem(e, st, fid);
      } else {
        DeleteEntityFromSystem(e, st, fid);
      }
      OthersKeptOneView(c0, cache, st, fid, e, handles);
    }

    /**
     * systemCacheRebuildByEntity: afterwards e is cached for exactly the
     * registered filters it matches (a filter with an empty Include list
     * included), and no other entity's membership changed.
     */
    method RebuildByEntity(e: Entity)
      requires HandlesOk() && StoreOk() && RegistryOk() && e in handles
      requires CacheShape(cache, systemFilters, handles)
      modifies this`cache
      ensures CacheShape(cache, systemFilters, handles)
      ensures forall st :: EntityAgreesAt(systemFilters, cache, components, e, st)
      ensures forall x :: x != e ==> SameMembership(old(cache), cache, x)
    {
      var cts := HeldTypes(e);
      var i := 0;
      while i < |systems|
        invariant 0 <= i <= |systems|
        invariant CacheShape(cache, systemFilters, handles)
        invariant OthersKept(old(cache), cache, e, handles)
        invariant AgreesAlong(systemFilters, cache, components, e, systems, i)
      {
        var st := systems[i].Type();
        ghost var ci := cache;
        UpdateEntityInSystem(e, cts, st);
        AgreesAlongStep(systemFilters, ci, cache, components, e, systems, i);
        OthersKeptTrans(old(cache), ci, cache, e, handles);
        i := i + 1;
      }
      AgreesAlongAll(systemFilters, cache, components, e, systems);
      OthersKeptEverywhere(old(cache), cache, e, handles);
    }

    /** The middle loop of systemCacheRebuildByEntity: every filter of one system type. */
    method UpdateEntityInSystem(e: Entity, cts: seq<RType>, st: SystemType)
      requires HandlesOk() && e in handles
      requires CacheShape(cache, systemFilters, handles)
      requires NoDup(cts) && Elems(cts) == HeldSet(components, e)
      modifies this`cache
      ensures CacheShape(cache, systemFilters, handles)
      ensures EntityAgreesAt(systemFilters, cache, components, e, st)
      ensures OthersKept(old(cache), cache, e, handles)
      ensures OtherViewsKept(old(cache), cache, st)
    {
      var filter := FiltersOfType(st);
      if |filter| == 0 {
        return;
      }
      var fid := 0;
      while fid < |filter|
        invariant 0 <= fid <= |filter|
        invariant CacheShape(cache, systemFilters, handles)
        invariant OthersKept(old(cache), cache, e, handles)
        invariant OtherViewsKept(old(cache), cache, st)
        invariant forall fid': nat :: fid' < fid ==> (e in View(cache, st, fid') <==> Matches(components, e, filter[fid']))
      {
        ghost var cf := cache;
        UpdateEntityInFilter(e, cts, st, fid);
        OthersKeptTrans(old(cache), cf, cache, e, handles);
        fid := fid + 1;
      }
    }

    /** The excludeIDs set of systemEntityCacheRebuildBySystem: the IDs of the entities holding some Exclude type. */
    method ExcludedIDs(f: FilterTypes) returns (excludeIDs: set<nat>)
      requires HandlesOk() && StoreOk()
      ensures forall x :: x in handles ==> (x.id in excludeIDs <==> HoldsSome(components, x, f.Exclude))
    {
      excludeIDs := {};
      var k := 0;
      while k < |f.Exclude|
        invariant 0 <= k <= |f.Exclude|
        invariant forall x :: x in handles ==> (x.id in excludeIDs <==> HoldsSome(components, x, f.Exclude[..k]))
      {
        var ex := f.Exclude[k];
        assert f.Exclude[..k + 1] == f.Exclude[..k] + [ex];
        HoldsSomeAppend(components, f.Exclude[..k], ex);
        if |TableOf(components, ex)| > 0 {
          var rest := components[ex].Keys;
          while rest != {}
            invariant rest <= components[ex].Keys
            invariant forall x :: x in handles ==>
              (x.id in excludeIDs <==> HoldsSome(components, x, f.Exclude[..k]) || (x in components[ex] && x !in rest))
          {
            var e :| e in rest;
            rest := rest - {e};
            excludeIDs := excludeIDs + {e.id};
            assert forall x :: x in handles && x.id == e.id ==> x == e;
          }
        }
        k := k + 1;
      }
      assert f.Exclude[..k] == f.Exclude;
    }

    /** One step of the innermost loop of systemEntityCacheRebuildBySystem, for the holder e. */
    method CountOne(st: SystemType, fid: nat, e: Entity, excludeIDs: set<nat>, counts: map<nat, nat>)
      returns (includeIDs: map<nat, nat>)
      requires HandlesOk() && CacheShape(cache, systemFilters, handles)
      requires st in systemFilters && fid < |systemFilters[st]| && e in handles
      requires e.id !in excludeIDs ==> CountOf(counts, e.id) < |systemFilters[st][fid].Include|
      requires CachedAt(View(cache, st, fid), counts, excludeIDs, handles, |systemFilters[st][fid].Include|)
      modifies this`cache
      ensures includeIDs == if e.id in excludeIDs then counts else counts[e.id := CountOf(counts, e.id) + 1]
      ensures CacheShape(cache, systemFilters, handles)
      ensures OnlyView(old(cache), cache, st, fid)
      ensures CachedAt(View(cache, st, fid), includeIDs, excludeIDs, handles, |systemFilters[st][fid].Include|)
    {
      includeIDs := counts;
      if e.id in excludeIDs {
        return;
      }
      includeIDs := includeIDs[e.id := CountOf(includeIDs, e.id) + 1];
      assert forall x :: x in handles && x != e ==> CountOf(includeIDs, x.id) == CountOf(counts, x.id);
      if includeIDs[e.id] != |systemFilters[st][fid].Include| {
        return;
      }
      AddEntityToSystem(e, st, fid);
    }

    /**
     * The innermost loop of systemEntityCacheRebuildBySystem: every holder
     * of inc that is not excluded gets its count raised, and is cached once
     * the count reaches the length of Include.
     */
    method CountHolders(st: SystemType, fid: nat, inc: RType, excludeIDs: set<nat>, counts: map<nat, nat>, ghost seen: seq<RType>)
      returns (includeIDs: map<nat, nat>)
      requires HandlesOk() && StoreOk()
      requires CacheShape(cache, systemFilters, handles)
      requires st in systemFilters && fid < |systemFilters[st]|
      requires inc in components && |seen| < |systemFilters[st][fid].Include|
      requires Tallied(counts, excludeIDs, handles, components, seen, {})
      requires CachedAt(View(cache, st, fid), counts, excludeIDs, handles, |systemFilters[st][fid].Include|)
      modifies this`cache
      ensures CacheShape(cache, systemFilters, handles)
      ensures OnlyView(old(cache), cache, st, fid)
      ensures Tallied(includeIDs, excludeIDs, handles, components, seen + [inc], {})
      ensures CachedAt(View(cache, st, fid), includeIDs, excludeIDs, handles, |systemFilters[st][fid].Include|)
    {
      includeIDs := counts;
      var rest := components[inc].Keys;
      while rest != {}
        invariant rest <= components[inc].Keys
        invariant CacheShape(cache, systemFilters, handles)
        invariant OnlyView(old(cache), cache, st, fid)
        invariant Tallied(includeIDs, excludeIDs, handles, components, seen, components[inc].Keys - rest)
        invariant CachedAt(View(cache, st, fid), includeIDs, excludeIDs, handles, |systemFilters[st][fid].Include|)
      {
        var e :| e in rest;
        ghost var done := components[inc].Keys - rest;
        rest := rest - {e};
        assert components[inc].Keys - rest == done + {e};
        TalliedEntry(includeIDs, excludeIDs, handles, components, seen, done, e);
        ghost var before, c1 := includeIDs, cache;
        includeIDs := CountOne(st, fid, e, excludeIDs, includeIDs);
        OnlyViewTrans(old(cache), c1, cache, st, fid);
        TallyStep(before, includeIDs, excludeIDs, handles, components, seen, done, e);
      }
      TallyFinish(includeIDs, excludeIDs, handles, components, seen, inc);
    }

    /**
     * The Include loop of systemEntityCacheRebuildBySystem: count per ID the
     * Include tables held, caching on the way, and stop at the first Include
     * type whose table is empty. On return the counts cover Include[..k].
     */
    method CountIncludes(st: SystemType, fid: nat, inclusions: seq<RType>, excludeIDs: set<nat>)
      returns (includeIDs: map<nat, nat>, k: nat)
      requires HandlesOk() && StoreOk()
      requires CacheShape(cache, systemFilters, handles)
      requires st in systemFilters && fid < |systemFilters[st]| && inclusions == systemFilters[st][fid].Include
      requires View(cache, st, fid) == []
      modifies this`cache
      ensures CacheShape(cache, systemFilters, handles)
      ensures OnlyView(old(cache), cache, st, fid)
      ensures k <= |inclusions|
      ensures k < |inclusions| ==> |TableOf(components, inclusions[k])| == 0
      ensures Tallied(includeIDs, excludeIDs, handles, components, inclusions[..k], {})
      ensures CachedAt(View(cache, st, fid), includeIDs, excludeIDs, handles, |inclusions|)
    {
      includeIDs := map[];
      ghost var s, hs := components, handles;
      k := 0;
      while k < |inclusions|
        invariant 0 <= k <= |inclusions|
        invariant components == s && handles == hs
        invariant CacheShape(cache, systemFilters, hs)
        invariant OnlyView(old(cache), cache, st, fid)
        invariant Tallied(includeIDs, excludeIDs, hs, s, inclusions[..k], {})
        invariant CachedAt(View(cache, st, fid), includeIDs, excludeIDs, hs, |inclusions|)
      {
        var inc := inclusions[k];
        if |TableOf(components, inc)| == 0 {
          break;
        }
        ghost var c1 := cache;
        includeIDs := CountHolders(st, fid, inc, excludeIDs, includeIDs, inclusions[..k]);
        OnlyViewTrans(old(cache), c1, cache, st, fid);
        TalliedNext(includeIDs, excludeIDs, hs, s, inclusions, k);
        k := k + 1;
      }
    }

    /**
     * One pass of the outer loop of systemEntityCacheRebuildBySystem: collect
     * the IDs that hold an Exclude type, count per ID the Include positions
     * held, cache an entity when its count reaches len(Include), and stop at
     * the first Include type no entity holds.
     */
    method RebuildFilter(st: SystemType, fid: nat)
      requires HandlesOk() && StoreOk()
      requires CacheShape(cache, systemFilters, handles)
      requires st in systemFilters && fid < |systemFilters[st]|
      requires View(cache, st, fid) == []
      modifies this`cache
      ensures CacheShape(cache, systemFilters, handles)
      ensures Built(View(cache, st, fid), components, systemFilters[st][fid])
      ensures OnlyView(old(cache), cache, st, fid)
    {
      var f := systemFilters[st][fid];
      var excludeIDs := ExcludedIDs(f);
      var includeIDs, k := CountIncludes(st, fid, f.Include, excludeIDs);
      BuiltFromTally(View(cache, st, fid), includeIDs, excludeIDs, handles, components, f, k);
    }

    /**
     * systemEntityCacheRebuildBySystem, run on a system type that has no
     * cached lists: afterwards each of its lists holds exactly the entities
     * that match the filter, except that a filter with an empty Include list
     * gets no entities at all.
     */
    method RebuildBySystem(st: SystemType)
      requires HandlesOk() && StoreOk()
      requires CacheShape(cache, systemFilters, handles)
      requires forall fid: nat :: View(cache, st, fid) == []
      modifies this`cache
      ensures CacheShape(cache, systemFilters, handles)
      ensures OtherViewsKept(old(cache), cache, st)
      ensures forall fid: nat :: st in systemFilters && fid < |systemFilters[st]| ==>
        Built(View(cache, st, fid), components, systemFilters[st][fid])
    {
      var filter := FiltersOfType(st);
      if |filter| == 0 {
        return;
      }
      var fid := 0;
      while fid < |filter|
        invariant 0 <= fid <= |filter|
        invariant CacheShape(cache, systemFilters, handles)
        invariant forall st', fid': nat :: st' != st ==> View(cache, st', fid') == View(old(cache), st', fid')
        invariant forall fid': nat :: fid <= fid' ==> View(cache, st, fid') == []
        invariant forall fid': nat :: fid' < fid ==> Built(View(cache, st, fid'), components, filter[fid'])
      {
        RebuildFilter(st, fid);
        fid := fid + 1;
      }
    }
  }
}
