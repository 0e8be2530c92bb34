/**
 * The World of the older package ecs. It has the same store, entity
 * lifecycle, filter cache, registry and scheduler as package gecs, with
 * these differences:
 *
 *  - the cache of a (system type, filter index) pair is a set of entity IDs;
 *  - store and cache are keyed by entity ID (the package's files disagree on
 *    the key type, so the model takes the ID throughout);
 *  - componentCount is a uint64, and Delete decrements it without checking
 *    that the entity holds the type;
 *  - the per-entity rebuild clears an entity holding nothing from every
 *    cache, and otherwise returns at the first system without filters;
 *  - the full rebuild returns from the whole function at an Include type
 *    that nobody holds.
 *
 * No global cache invariant holds for this version (the two early returns
 * leave stale entries behind), so each operation states the cache it leaves
 * through View, and the lemmas say what those views are.
 */
module Ecs {
  import opened Maybe
  import opened Filters

  /** The range of Go's uint64. */
  const U64: int := 0x1_0000_0000_0000_0000

  newtype u64 = x: int | 0 <= x < 0x1_0000_0000_0000_0000

  /** e.componentCount-- on a uint64: one less, modulo 2^64. */
  function Dec(n: u64): (r: u64)
    ensures (r as int + 1) % U64 == n as int
  {
    if n == 0 then 0xFFFF_FFFF_FFFF_FFFF else n - 1
  }

  /** e.componentCount++ on a uint64: one more, modulo 2^64. */
  function Inc(n: u64): (r: u64)
    ensures r as int == (n as int + 1) % U64
  {
    if n == 0xFFFF_FFFF_FFFF_FFFF then 0 else n + 1
  }

  /** reflect.TypeOf of a system, as an abstract token. */
  type SystemType = nat

  /** A system: its type and the filters GetFilters returns; Update only receives its slots. */
  datatype System = System(typ: SystemType, filters: seq<SystemFilter>)

  /** One call of a system's Update during Update(dt), with the delta and the slots it received. */
  datatype Call = Call(system: SystemType, dt: int, slots: seq<set<nat>>)

  type FilterMap = map<SystemType, seq<FilterTypes>>

  /** systemFiltersEntityCache: system type -> filter index -> set of entity IDs. */
  type CacheMap = map<SystemType, map<nat, set<nat>>>

  // ---------------------------------------------------------------------
  // The registry
  // ---------------------------------------------------------------------

  predicate DistinctTypes(ss: seq<System>)
  {
    forall i, j :: 0 <= i < j < |ss| ==> ss[i].typ != ss[j].typ
  }

  /** The deleteIdx search of RemoveSystem: the first system of type st, or |ss|. */
  function FirstOfType(ss: seq<System>, st: SystemType): (i: nat)
    ensures i <= |ss|
    ensures i < |ss| ==> ss[i].typ == st
    ensures forall j :: 0 <= j < i ==> ss[j].typ != st
  {
    if ss == [] then 0
    else if ss[0].typ == st then 0
    else 1 + FirstOfType(ss[1..], st)
  }

  /** The registry after RemoveSystem: the first system of type st spliced out, if there is one. */
  function RemoveType(ss: seq<System>, st: SystemType): seq<System>
  {
    var i := FirstOfType(ss, st);
    if i < |ss| then ss[..i] + ss[i + 1..] else ss
  }

  /**
   * With one registration per type, RemoveSystem leaves none of type st,
   * and AddSystem (remove, then append) keeps one registration per type.
   */
  lemma RemoveTypeDistinct(ss: seq<System>, s: System)
    requires DistinctTypes(ss)
    ensures forall j :: 0 <= j < |RemoveType(ss, s.typ)| ==> RemoveType(ss, s.typ)[j].typ != s.typ
    ensures DistinctTypes(RemoveType(ss, s.typ))
    ensures DistinctTypes(RemoveType(ss, s.typ) + [s])
  {
    var st := s.typ;
    var i := FirstOfType(ss, st);
    var r := RemoveType(ss, st);
    forall j | 0 <= j < |r|
      ensures r[j].typ != st
    {
      if i < |ss| {
        var j' := if j < i then j else j + 1;
        assert r[j] == ss[j'] && j' != i;
      }
    }
    var r' := r + [s];
    forall a, b | 0 <= a < b < |r'|
      ensures r'[a].typ != r'[b].typ
    {
      if b == |r| {
        assert r'[a] == r[a];
      } else if i < |ss| {
        var a' := if a < i then a else a + 1;
        var b' := if b < i then b else b + 1;
        assert r'[a] == ss[a'] && r'[b] == ss[b'] && a' < b';
      } else {
        assert r'[a] == ss[a] && r'[b] == ss[b];
      }
    }
    assert forall a :: 0 <= a < |r| ==> r[a] == r'[a];
  }

  function FilterList(filters: FilterMap, st: SystemType): seq<FilterTypes>
  {
    if st in filters then filters[st] else []
  }

  // ---------------------------------------------------------------------
  // The cache as a value
  // ---------------------------------------------------------------------

  /** The ID set of (st, fid); an absent entry reads as an empty (nil) set. */
  function View(c: CacheMap, st: SystemType, fid: nat): set<nat>
  {
    if st in c && fid in c[st] then c[st][fid] else {}
  }

  /** No empty system entry and no empty filter entry. */
  ghost predicate Pruned(c: CacheMap)
  {
    forall st :: st in c ==> c[st] != map[] && forall fid :: fid in c[st] ==> c[st][fid] != {}
  }

  /**
   * systemCacheDeleteEntityFromSystem: delete the ID from the set, then drop
   * the filter entry if it is empty, then drop the system entry if it is
   * empty (each delete on a missing entry does nothing).
   */
  function DropId(c: CacheMap, st: SystemType, fid: nat, id: nat): CacheMap
  {
    if st !in c then c
    else
      var inner := c[st];
      var inner': map<nat, set<nat>> := if fid !in inner then inner
        else if inner[fid] - {id} == {} then inner - {fid}
        else inner[fid := inner[fid] - {id}];
      if inner' == map[] then c - {st} else c[st := inner']
  }

  /** The insertion of both rebuilds: create the missing entries, then add the ID to the set. */
  function AddId(c: CacheMap, st: SystemType, fid: nat, id: nat): CacheMap
  {
    var inner: map<nat, set<nat>> := if st in c then c[st] else map[];
    c[st := inner[fid := View(c, st, fid) + {id}]]
  }

  /** Removing an ID takes it out of that one set and changes no other set. */
  lemma DropIdView(c: CacheMap, st: SystemType, fid: nat, id: nat)
    ensures forall st', fid': nat :: (View(DropId(c, st, fid, id), st', fid') ==
      (if st' == st && fid' == fid then View(c, st, fid) - {id} else View(c, st', fid')))
  {
    if st in c {
      var inner := c[st];
      var inner': map<nat, set<nat>> := if fid !in inner then inner
        else if inner[fid] - {id} == {} then inner - {fid}
        else inner[fid := inner[fid] - {id}];
      forall fid': nat
        ensures View(DropId(c, st, fid, id), st, fid') == (if fid' == fid then View(c, st, fid) - {id} else View(c, st, fid'))
      {
        if inner' == map[] {
          assert fid' !in inner';
        }
      }
    }
  }

  /** Removal keeps the cache pruned. */
  lemma DropIdPruned(c: CacheMap, st: SystemType, fid: nat, id: nat)
    requires Pruned(c)
    ensures Pruned(DropId(c, st, fid, id))
  {
    var r := DropId(c, st, fid, id);
    if st in c && st in r {
      assert forall fid' :: fid' in r[st] ==> r[st][fid'] != {};
    }
  }

  /** Removal is idempotent: removing the same ID again leaves the cache as it is. */
  lemma DropIdIdempotent(c: CacheMap, st: SystemType, fid: nat, id: nat)
    ensures DropId(DropId(c, st, fid, id), st, fid, id) == DropId(c, st, fid, id)
  {
    var r := DropId(c, st, fid, id);
    if st in c && st in r {
      var inner: map<nat, set<nat>> := r[st];
      if fid in inner {
        assert inner[fid] == c[st][fid] - {id};
        assert inner[fid] - {id} == inner[fid];
        assert inner[fid := inner[fid] - {id}] == inner;
      }
    }
  }

  /** Insertion adds the ID to that one set and changes no other set. */
  lemma AddIdView(c: CacheMap, st: SystemType, fid: nat, id: nat)
    ensures forall st', fid': nat :: (View(AddId(c, st, fid, id), st', fid') ==
      (if st' == st && fid' == fid then View(c, st, fid) + {id} else View(c, st', fid')))
  {
  }

  /** Insertion keeps the cache pruned. */
  lemma AddIdPruned(c: CacheMap, st: SystemType, fid: nat, id: nat)
    requires Pruned(c)
    ensures Pruned(AddId(c, st, fid, id))
  {
    var r := AddId(c, st, fid, id);
    assert fid in r[st];
    forall st' | st' in r
      ensures r[st'] != map[] && forall fid' :: fid' in r[st'] ==> r[st'][fid'] != {}
    {
      if st' != st {
        assert r[st'] == c[st'];
      }
    }
  }

  // ---------------------------------------------------------------------
  // The per-entity rebuild (systemCacheRebuildByEntity) as a value
  // ---------------------------------------------------------------------

  /** A set after the per-entity rebuild has decided on id: added when it matches, removed otherwise. */
  function Refreshed(v: set<nat>, id: nat, matches: bool): set<nat>
  {
    if matches then v + {id} else v - {id}
  }

  /** The filter predicate on the set of types an entity holds, decided by counting as the rebuild does. */
  predicate MatchesHeld(held: set<RType>, f: FilterTypes)
  {
    Count(f.Exclude, held) == 0 && Count(f.Include, held) == |f.Include|
  }

  /** One filter of the per-entity rebuild: drop on an Exclude type held, add when every Include type is held, drop otherwise. */
  function FilterStep(c: CacheMap, st: SystemType, fid: nat, f: FilterTypes, held: set<RType>, id: nat): CacheMap
  {
    if Count(f.Exclude, held) > 0 then DropId(c, st, fid, id)
    else if Count(f.Include, held) == |f.Include| then AddId(c, st, fid, id)
    else DropId(c, st, fid, id)
  }

  /** The filter loop of one system, from filter index fid on. */
  function FiltersFrom(c: CacheMap, st: SystemType, fs: seq<FilterTypes>, fid: nat, held: set<RType>, id: nat): CacheMap
    decreases |fs| - fid
  {
    if fid >= |fs| then c
    else FiltersFrom(FilterStep(c, st, fid, fs[fid], held, id), st, fs, fid + 1, held, id)
  }

  /** The system loop as written: the first system without filters ends the whole rebuild. */
  function SystemsFrom(c: CacheMap, ss: seq<System>, filters: FilterMap, held: set<RType>, id: nat): CacheMap
    decreases |ss|
  {
    if ss == [] then c
    else
      var fs := FilterList(filters, ss[0].typ);
      if |fs| == 0 then c
      else SystemsFrom(FiltersFrom(c, ss[0].typ, fs, 0, held, id), ss[1..], filters, held, id)
  }

  /** The system loop with `continue` in place of `return`: a system without filters is skipped. */
  function SystemsFromFixed(c: CacheMap, ss: seq<System>, filters: FilterMap, held: set<RType>, id: nat): CacheMap
    decreases |ss|
  {
    if ss == [] then c
    else
      var fs := FilterList(filters, ss[0].typ);
      SystemsFromFixed(FiltersFrom(c, ss[0].typ, fs, 0, held, id), ss[1..], filters, held, id)
  }

  /** The types of the systems the as-written loop reaches: those before the first system without filters. */
  function Reached(ss: seq<System>, filters: FilterMap): set<SystemType>
    decreases |ss|
  {
    if ss == [] || |FilterList(filters, ss[0].typ)| == 0 then {}
    else {ss[0].typ} + Reached(ss[1..], filters)
  }

  /** The types of all the systems. */
  function TypesIn(ss: seq<System>): set<SystemType>
    decreases |ss|
  {
    if ss == [] then {} else {ss[0].typ} + TypesIn(ss[1..])
  }

  lemma RefreshedTwice(v: set<nat>, id: nat, m: bool)
    ensures Refreshed(Refreshed(v, id, m), id, m) == Refreshed(v, id, m)
  {
  }

  /** One filter step decides id in exactly its own set. */
  lemma FilterStepView(c: CacheMap, st: SystemType, fid: nat, f: FilterTypes, held: set<RType>, id: nat)
    ensures forall st', fid': nat :: (View(FilterStep(c, st, fid, f, held, id), st', fid') ==
      (if st' == st && fid' == fid then Refreshed(View(c, st, fid), id, MatchesHeld(held, f)) else View(c, st', fid')))
  {
    DropIdView(c, st, fid, id);
    AddIdView(c, st, fid, id);
  }

  /** The filter loop of st from j on decides id in the sets j.. of st, and touches nothing else. */
  lemma {:induction false} FiltersFromView(c: CacheMap, st: SystemType, fs: seq<FilterTypes>, j: nat, held: set<RType>, id: nat)
    ensures forall st', fid: nat :: (View(FiltersFrom(c, st, fs, j, held, id), st', fid) ==
      (if st' == st && j <= fid < |fs| then Refreshed(View(c, st, fid), id, MatchesHeld(held, fs[fid])) else View(c, st', fid)))
    decreases |fs| - j
  {
    if j < |fs| {
      var c1 := FilterStep(c, st, j, fs[j], held, id);
      FilterStepView(c, st, j, fs[j], held, id);
      FiltersFromView(c1, st, fs, j + 1, held, id);
    }
  }

  /**
   * The as-written system loop decides id in every set of the systems it
   * reaches, and leaves every other set as it was.
   */
  lemma {:induction false} SystemsFromView(c: CacheMap, ss: seq<System>, filters: FilterMap, held: set<RType>, id: nat)
    ensures forall st, fid: nat :: (View(SystemsFrom(c, ss, filters, held, id), st, fid) ==
      (if st in Reached(ss, filters) && fid < |FilterList(filters, st)|
       then Refreshed(View(c, st, fid), id, MatchesHeld(held, FilterList(filters, st)[fid]))
       else View(c, st, fid)))
    decreases |ss|
  {
    if ss != [] && |FilterList(filters, ss[0].typ)| > 0 {
      var fs := FilterList(filters, ss[0].typ);
      var c1 := FiltersFrom(c, ss[0].typ, fs, 0, held, id);
      FiltersFromView(c, ss[0].typ, fs, 0, held, id);
      SystemsFromView(c1, ss[1..], filters, held, id);
      forall st, fid: nat
        ensures View(SystemsFrom(c, ss, filters, held, id), st, fid) ==
          if st in Reached(ss, filters) && fid < |FilterList(filters, st)|
          then Refreshed(View(c, st, fid), id, MatchesHeld(held, FilterList(filters, st)[fid]))
          else View(c, st, fid)
      {
        if st == ss[0].typ && fid < |fs| {
          RefreshedTwice(View(c, st, fid), id, MatchesHeld(held, fs[fid]));
        }
      }
    }
  }

  /** With `continue`, every set of every registered system is decided. */
  lemma {:induction false} SystemsFromFixedView(c: CacheMap, ss: seq<System>, filters: FilterMap, held: set<RType>, id: nat)
    ensures forall st, fid: nat :: (View(SystemsFromFixed(c, ss, filters, held, id), st, fid) ==
      (if st in TypesIn(ss) && fid < |FilterList(filters, st)|
       then Refreshed(View(c, st, fid), id, MatchesHeld(held, FilterList(filters, st)[fid]))
       else View(c, st, fid)))
    decreases |ss|
  {
    if ss != [] {
      var fs := FilterList(filters, ss[0].typ);
      var c1 := FiltersFrom(c, ss[0].typ, fs, 0, held, id);
      FiltersFromView(c, ss[0].typ, fs, 0, held, id);
      SystemsFromFixedView(c1, ss[1..], filters, held, id);
      forall st, fid: nat
        ensures View(SystemsFromFixed(c, ss, filters, held, id), st, fid) ==
          if st in TypesIn(ss) && fid < |FilterList(filters, st)|
          then Refreshed(View(c, st, fid), id, MatchesHeld(held, FilterList(filters, st)[fid]))
          else View(c, st, fid)
      {
        if st == ss[0].typ && fid < |fs| {
          RefreshedTwice(View(c, st, fid), id, MatchesHeld(held, fs[fid]));
        }
      }
    }
  }

  /**
   * A system without filters placed first hides every later system from
   * the as-written rebuild: the entity holds the only Include type of the
   * second system, yet is not added to its set; with `continue` it is.
   */
  lemma RebuildStopsAtFilterless()
    ensures var ss := [System(1, []), System(2, [SystemFilter([Ptr(5, 0)], [])])];
      var filters: FilterMap := map[2 := [FilterTypes([Type(5)], [])]];
      && MatchesHeld({Type(5)}, filters[2][0])
      && 7 !in View(SystemsFrom(map[], ss, filters, {Type(5)}, 7), 2, 0)
      && 7 in View(SystemsFromFixed(map[], ss, filters, {Type(5)}, 7), 2, 0)
  {
    var ss := [System(1, []), System(2, [SystemFilter([Ptr(5, 0)], [])])];
    var filters: FilterMap := map[2 := [FilterTypes([Type(5)], [])]];
    assert Count([Type(5)], {Type(5)}) == 1;
    assert SystemsFrom(map[], ss, filters, {Type(5)}, 7) == map[];
    SystemsFromFixedView(map[], ss, filters, {Type(5)}, 7);
    assert 2 in TypesIn(ss) by {
      assert ss[1..][0].typ == 2;
    }
  }

  /**
   * What the per-entity rebuild leaves in the set of (st, fid): an entity
   * that holds nothing is removed everywhere; otherwise, in the systems the
   * loop reaches, it is present exactly when it matches the filter.
   */
  ghost function EntityView(c: CacheMap, ss: seq<System>, filters: FilterMap, s: Store<nat>, id: nat, st: SystemType, fid: nat): set<nat>
  {
    if HeldSet(s, id) == {} then View(c, st, fid) - {id}
    else if st in Reached(ss, filters) && fid < |FilterList(filters, st)|
    then Refreshed(View(c, st, fid), id, Matches(s, id, FilterList(filters, st)[fid]))
    else View(c, st, fid)
  }

  /**
   * The per-entity rebuild only ever decides id: every other ID is in a set
   * exactly when it was before; and an entity that holds nothing is in no set.
   */
  lemma EntityViewOthers(c: CacheMap, ss: seq<System>, filters: FilterMap, s: Store<nat>, id: nat, st: SystemType, fid: nat)
    ensures forall x :: x != id ==> (x in EntityView(c, ss, filters, s, id, st, fid) <==> x in View(c, st, fid))
    ensures HeldSet(s, id) == {} ==> id !in EntityView(c, ss, filters, s, id, st, fid)
  {
  }

  /**
   * In every system the as-written loop reaches, id ends up in the set of a
   * filter exactly when it holds every Include type and no Exclude type.
   */
  lemma EntityViewMembership(c: CacheMap, ss: seq<System>, filters: FilterMap, s: Store<nat>, id: nat, st: SystemType, fid: nat)
    requires HeldSet(s, id) != {} && st in Reached(ss, filters) && fid < |FilterList(filters, st)|
    ensures id in EntityView(c, ss, filters, s, id, st, fid) <==>
      (forall t :: t in FilterList(filters, st)[fid].Include ==> Holds(s, id, t))
      && (forall t :: t in FilterList(filters, st)[fid].Exclude ==> !Holds(s, id, t))
  {
  }

  // ---------------------------------------------------------------------
  // The full rebuild (systemEntityCacheRebuildBySystem) as a value
  // ---------------------------------------------------------------------

  /** A filter with an Include type that no entity holds. */
  predicate Starved(s: Store<nat>, f: FilterTypes)
  {
    exists t :: t in f.Include && |TableOf(s, t)| == 0
  }

  /** Where the as-written full rebuild returns: the first starved filter, or |fs|. */
  function FirstStarved(s: Store<nat>, fs: seq<FilterTypes>): (i: nat)
    ensures i <= |fs|
    ensures i < |fs| ==> Starved(s, fs[i])
    ensures forall j :: 0 <= j < i ==> !Starved(s, fs[j])
  {
    if fs == [] then 0
    else if Starved(s, fs[0]) then 0
    else 1 + FirstStarved(s, fs[1..])
  }

  /** The IDs a full rebuild caches for one filter: the holders of every Include type that hold no Exclude type. */
  ghost function MatchingIds(s: Store<nat>, f: FilterTypes): set<nat>
  {
    if |f.Include| == 0 then {}
    else set k | k in TableOf(s, f.Include[0]) && Matches(s, k, f)
  }

  /** A starved filter has no matching entity, so stopping at it loses nothing for that filter itself. */
  lemma StarvedMatchesNone(s: Store<nat>, f: FilterTypes)
    requires Starved(s, f)
    ensures MatchingIds(s, f) == {}
  {
    var t :| t in f.Include && |TableOf(s, t)| == 0;
    forall k: nat
      ensures !Matches(s, k, f)
    {
      assert k !in TableOf(s, t);
      assert !Holds(s, k, t);
    }
  }

  /**
   * The set the as-written full rebuild leaves for filter fid of a system
   * whose sets start out empty: the matching IDs before the first starved
   * filter, nothing from there on.
   */
  ghost function BuiltView(s: Store<nat>, fs: seq<FilterTypes>, fid: nat): set<nat>
  {
    if fid < FirstStarved(s, fs) then MatchingIds(s, fs[fid]) else {}
  }

  /** Part way through a full rebuild of st: the sets before fid are built, the rest still empty, other systems kept. */
  ghost predicate BuiltBefore(c0: CacheMap, c: CacheMap, s: Store<nat>, fs: seq<FilterTypes>, st: SystemType, fid: nat)
  {
    && fid <= |fs|
    && OtherViewsKept(c0, c, st)
    && (forall j: nat :: j < fid ==> View(c, st, j) == MatchingIds(s, fs[j]))
    && (forall j: nat :: fid <= j ==> View(c, st, j) == {})
  }

  lemma BuiltBeforeStep(c0: CacheMap, c1: CacheMap, c2: CacheMap, s: Store<nat>, fs: seq<FilterTypes>, st: SystemType, fid: nat)
    requires fid < |fs| && BuiltBefore(c0, c1, s, fs, st, fid)
    requires OnlyView(c1, c2, st, fid) && View(c2, st, fid) == MatchingIds(s, fs[fid])
    ensures BuiltBefore(c0, c2, s, fs, st, fid + 1)
  {
    forall st', j: nat | st' != st
      ensures View(c2, st', j) == View(c0, st', j)
    {
      assert View(c2, st', j) == View(c1, st', j);
    }
  }

  /** A rebuild that stopped at the first starved filter, or just after it, has built BuiltView. */
  lemma BuiltBeforeDone(c0: CacheMap, c: CacheMap, s: Store<nat>, fs: seq<FilterTypes>, st: SystemType, k: nat)
    requires BuiltBefore(c0, c, s, fs, st, k)
    requires FirstStarved(s, fs) <= k <= FirstStarved(s, fs) + 1
    ensures forall fid: nat :: View(c, st, fid) == BuiltView(s, fs, fid)
  {
    forall fid: nat
      ensures View(c, st, fid) == BuiltView(s, fs, fid)
    {
      if fid == FirstStarved(s, fs) && fid < k {
        StarvedMatchesNone(s, fs[fid]);
      }
    }
  }

  /**
   * A starved first filter ends the full rebuild before the second filter,
   * whose Include type entity 1 holds: its set stays empty although entity
   * 1 matches (the root package's `break` builds it).
   */
  lemma FullRebuildStopsEarly()
    ensures var s: Store<nat> := map[Type(2) := map[1 := Ptr(2, 9)]];
      var fs := [FilterTypes([Type(1)], []), FilterTypes([Type(2)], [])];
      && MatchingIds(s, fs[1]) == {1}
      && BuiltView(s, fs, 1) == {}
  {
    var s: Store<nat> := map[Type(2) := map[1 := Ptr(2, 9)]];
    var fs := [FilterTypes([Type(1)], []), FilterTypes([Type(2)], [])];
    assert Type(1) in fs[0].Include && |TableOf(s, Type(1))| == 0;
    assert FirstStarved(s, fs) == 0;
    assert Matches(s, 1, fs[1]);
    assert MatchingIds(s, fs[1]) == {1};
  }

  // ---------------------------------------------------------------------
  // Delete as a value
  // ---------------------------------------------------------------------

  /**
   * Delete as written, on the store and the counter: remove the entry and
   * an emptied table, decrement the counter modulo 2^64, and destroy the
   * entity (remove it from every table) when the counter reaches 0.
   */
  function AfterDelete(s: Store<nat>, n: u64, id: nat, t: RType): (Store<nat>, u64)
  {
    var s1 := RemoveKey(s, t, id);
    var n1 := Dec(n);
    if n1 == 0 then (Without(s1, id), n1) else (s1, n1)
  }

  /** Delete with the presence check of the root package: a type the entity lacks changes nothing. */
  function AfterDeleteChecked(s: Store<nat>, n: u64, id: nat, t: RType): (Store<nat>, u64)
  {
    if Holds(s, id, t) then AfterDelete(s, n, id, t) else (s, n)
  }

  /**
   * Deleting a type the entity does not hold from an entity with one
   * component destroys it, and from an entity with a count of 0 wraps the
   * counter to 2^64 - 1.
   */
  lemma DeleteAbsentDestroys()
    ensures var s: Store<nat> := map[Type(1) := map[4 := Ptr(1, 8)]];
      && !Holds(s, 4, Type(2))
      && AfterDelete(s, 1, 4, Type(2)) == (map[], 0)
      && AfterDelete(map[], 0, 4, Type(2)).1 as int == U64 - 1
  {
    var s: Store<nat> := map[Type(1) := map[4 := Ptr(1, 8)]];
    assert RemoveKey(s, Type(2), 4) == s;
    assert Without(s, 4) == map[] by {
      assert s[Type(1)].Keys <= {4};
    }
  }

  /**
   * With the presence check, a count that bounds the number of held types
   * keeps bounding it, never wraps, and a type the entity lacks changes
   * nothing.
   */
  lemma AfterDeleteCheckedKeepsCount(s: Store<nat>, n: u64, id: nat, t: RType)
    requires |HeldSet(s, id)| <= n as int
    ensures var (s', n') := AfterDeleteChecked(s, n, id, t);
      && |HeldSet(s', id)| <= n' as int
      && n' as int == (if Holds(s, id, t) then n as int - 1 else n as int)
      && (!Holds(s, id, t) ==> s' == s)
  {
    if Holds(s, id, t) {
      RemoveKeyHoldings(s, t, id, id);
      assert t in HeldSet(s, id);
      var s1 := RemoveKey(s, t, id);
      assert |HeldSet(s1, id)| == |HeldSet(s, id)| - 1;
      if Dec(n) == 0 {
        WithoutHoldings(s1, id, id);
      }
    }
  }

  /** Only registered filters have cached sets, and no entry is empty. */
  ghost predicate CacheShape(c: CacheMap, filters: FilterMap)
  {
    && Pruned(c)
    && forall st :: st in c ==> st in filters && forall fid :: fid in c[st] ==> fid < |filters[st]|
  }

  lemma DropIdShape(c: CacheMap, filters: FilterMap, st: SystemType, fid: nat, id: nat)
    requires CacheShape(c, filters)
    ensures CacheShape(DropId(c, st, fid, id), filters)
  {
    DropIdPruned(c, st, fid, id);
  }

  lemma AddIdShape(c: CacheMap, filters: FilterMap, st: SystemType, fid: nat, id: nat)
    requires CacheShape(c, filters) && st in filters && fid < |filters[st]|
    ensures CacheShape(AddId(c, st, fid, id), filters)
  {
    AddIdPruned(c, st, fid, id);
  }

  /** The sets of every system type other than st are the same in c0 and c1. */
  ghost predicate OtherViewsKept(c0: CacheMap, c1: CacheMap, st: SystemType)
  {
    forall st', fid: nat :: st' != st ==> View(c1, st', fid) == View(c0, st', fid)
  }

  lemma OtherViewsKeptTrans(c0: CacheMap, c1: CacheMap, c2: CacheMap, st: SystemType)
    requires OtherViewsKept(c0, c1, st) && OtherViewsKept(c1, c2, st)
    ensures OtherViewsKept(c0, c2, st)
  {
  }

  /** No table for the nil type; every stored value is a non-nil pointer of its table's type, under an ID in 1..n. */
  ghost predicate WellStored(s: Store<nat>, n: nat)
  {
    && NilType !in s
    && forall t, k :: t in s && k in s[t] ==>
      && 1 <= k <= n
      && s[t][k].Ptr?
      && TypeOf(s[t][k]) == t
  }

  lemma RemoveKeyWellStored(s: Store<nat>, t: RType, k: nat, n: nat)
    requires WellStored(s, n)
    ensures WellStored(RemoveKey(s, t, k), n)
  {
  }

  lemma WithoutWellStored(s: Store<nat>, k: nat, n: nat)
    requires WellStored(s, n)
    ensures WellStored(Without(s, k), n)
  {
  }

  /** Dropping the entry of st keeps every other system's sets. */
  lemma WithoutSystemViews(c: CacheMap, st: SystemType)
    ensures OtherViewsKept(c, c - {st}, st)
    ensures forall fid: nat :: View(c - {st}, st, fid) == {}
  {
  }

  /** Every set other than that of (st, fid) is the same in c0 and c1. */
  ghost predicate OnlyView(c0: CacheMap, c1: CacheMap, st: SystemType, fid: nat)
  {
    forall st', fid': nat :: st' != st || fid' != fid ==> View(c1, st', fid') == View(c0, st', fid')
  }

  lemma OnlyViewTrans(c0: CacheMap, c1: CacheMap, c2: CacheMap, st: SystemType, fid: nat)
    requires OnlyView(c0, c1, st, fid) && OnlyView(c1, c2, st, fid)
    ensures OnlyView(c0, c2, st, fid)
  {
  }

  /** Part way through the sets of st: those in todo are untouched, the others have lost id, other systems are kept. */
  ghost predicate Swept(c0: CacheMap, c: CacheMap, st: SystemType, todo: set<nat>, id: nat)
  {
    && OtherViewsKept(c0, c, st)
    && forall fid: nat :: View(c, st, fid) == if fid in todo then View(c0, st, fid) else View(c0, st, fid) - {id}
  }

  lemma SweptStart(c: CacheMap, st: SystemType, todo: set<nat>, id: nat)
    requires todo == if st in c then c[st].Keys else {}
    ensures Swept(c, c, st, todo, id)
  {
  }

  lemma SweptStep(c0: CacheMap, c: CacheMap, st: SystemType, todo: set<nat>, fid: nat, id: nat)
    requires Swept(c0, c, st, todo, id) && fid in todo
    ensures Swept(c0, DropId(c, st, fid, id), st, todo - {fid}, id)
  {
    DropIdView(c, st, fid, id);
  }

  /** The tables of ts[..k] all hold some ID. */
  ghost predicate Stocked(s: Store<nat>, ts: seq<RType>, k: nat)
  {
    forall j :: 0 <= j < k && j < |ts| ==> |TableOf(s, ts[j])| > 0
  }

  lemma StockedStep(s: Store<nat>, ts: seq<RType>, k: nat)
    requires Stocked(s, ts, k) && k < |ts| && |TableOf(s, ts[k])| > 0
    ensures Stocked(s, ts, k + 1)
  {
  }

  lemma StockedAll(s: Store<nat>, ts: seq<RType>)
    requires Stocked(s, ts, |ts|)
    ensures forall t :: t in ts ==> |TableOf(s, t)| > 0
  {
  }

  /** Counting decides the filter predicate on the entity's held types. */
  lemma MatchesHeldIff(s: Store<nat>, id: nat, f: FilterTypes)
    ensures MatchesHeld(HeldSet(s, id), f) <==> Matches(s, id, f)
  {
    MatchesByCount(s, id, f, HeldSet(s, id));
  }

  /** The cache the system loop leaves, read set by set, is EntityView. */
  lemma RebuildViews(c0: CacheMap, c: CacheMap, ss: seq<System>, filters: FilterMap, s: Store<nat>, id: nat)
    requires HeldSet(s, id) != {}
    requires c == SystemsFrom(c0, ss, filters, HeldSet(s, id), id)
    ensures forall st, fid: nat :: View(c, st, fid) == EntityView(c0, ss, filters, s, id, st, fid)
  {
    SystemsFromView(c0, ss, filters, HeldSet(s, id), id);
    forall st, fid: nat | st in Reached(ss, filters) && fid < |FilterList(filters, st)|
      ensures MatchesHeld(HeldSet(s, id), FilterList(filters, st)[fid]) == Matches(s, id, FilterList(filters, st)[fid])
    {
      MatchesHeldIff(s, id, FilterList(filters, st)[fid]);
    }
  }

  /**
   * The counts of the full rebuild: every ID that is not excluded has as
   * count the number of positions of ts it holds, plus one if it is among
   * the holders of the current Include type already visited.
   */
  ghost predicate Tallied(m: map<nat, nat>, excl: set<nat>, s: Store<nat>, ts: seq<RType>, done: set<nat>)
  {
    forall x :: x !in excl ==> CountOf(m, x) == Count(ts, HeldSet(s, x)) + (if x in done then 1 else 0)
  }

  /** Tallied over ts[..k] + [ts[k]] is Tallied over ts[..k + 1]. */
  lemma TalliedNext(m: map<nat, nat>, excl: set<nat>, s: Store<nat>, ts: seq<RType>, k: nat)
    requires k < |ts| && Tallied(m, excl, s, ts[..k] + [ts[k]], {})
    ensures Tallied(m, excl, s, ts[..k + 1], {})
  {
    assert ts[..k + 1] == ts[..k] + [ts[k]];
  }

  /** The set holds exactly the IDs that are not excluded and whose count reached n. */
  ghost predicate CachedAt(v: set<nat>, m: map<nat, nat>, excl: set<nat>, n: nat)
  {
    forall x :: x in v <==> x !in excl && 0 < CountOf(m, x) == n
  }

  lemma TalliedEntry(m: map<nat, nat>, excl: set<nat>, s: Store<nat>, ts: seq<RType>, done: set<nat>, e: nat)
    requires Tallied(m, excl, s, ts, done) && e !in done && e !in excl
    ensures CountOf(m, e) <= |ts|
  {
  }

  lemma TallyStep(m: map<nat, nat>, m': map<nat, nat>, excl: set<nat>, s: Store<nat>, ts: seq<RType>, done: set<nat>, e: nat)
    requires Tallied(m, excl, s, ts, done) && e !in done
    requires m' == if e in excl then m else m[e := CountOf(m, e) + 1]
    ensures Tallied(m', excl, s, ts, done + {e})
  {
    forall x | x !in excl
      ensures CountOf(m', x) == Count(ts, HeldSet(s, x)) + (if x in done + {e} then 1 else 0)
    {
      if x != e {
        assert CountOf(m', x) == CountOf(m, x);
      }
    }
  }

  lemma TallyFinish(m: map<nat, nat>, excl: set<nat>, s: Store<nat>, ts: seq<RType>, t: RType)
    requires t in s && Tallied(m, excl, s, ts, s[t].Keys)
    ensures Tallied(m, excl, s, ts + [t], {})
  {
    forall x | x !in excl
      ensures CountOf(m, x) == Count(ts + [t], HeldSet(s, x))
    {
      assert (ts + [t])[..|ts|] == ts;
      assert t in HeldSet(s, x) <==> x in s[t].Keys;
    }
  }

  /**
   * The end of the full rebuild of one filter: the counts cover the Include
   * types up to k, and either all of them were visited or the k-th has no
   * table; then the set is MatchingIds.
   */
  lemma BuiltFromTally(v: set<nat>, m: map<nat, nat>, excl: set<nat>, s: Store<nat>, f: FilterTypes, k: nat)
    requires k <= |f.Include|
    requires k < |f.Include| ==> |TableOf(s, f.Include[k])| == 0
    requires Tallied(m, excl, s, f.Include[..k], {})
    requires CachedAt(v, m, excl, |f.Include|)
    requires forall x :: x in excl <==> HoldsSome(s, x, f.Exclude)
    ensures v == MatchingIds(s, f)
  {
    if k < |f.Include| {
      assert f.Include[k] in f.Include;
      StarvedMatchesNone(s, f);
      forall x
        ensures x !in v
      {
        if x !in excl {
          assert CountOf(m, x) == Count(f.Include[..k], HeldSet(s, x));
        }
      }
    } else {
      assert f.Include[..k] == f.Include;
      forall x
        ensures x in v <==> x in MatchingIds(s, f)
      {
        var held := HeldSet(s, x);
        MatchesByCount(s, x, f, held);
        assert forall t :: t in held <==> Holds(s, x, t);
        if |f.Include| > 0 {
          assert f.Include[0] in f.Include;
        }
      }
    }
  }

  /**
   * What the full rebuild caches is sound, and complete before the first
   * starved filter: every cached ID matches a filter with a non-empty
   * Include list, and there every matching ID is cached.
   */
  lemma BuiltViewMatches(s: Store<nat>, fs: seq<FilterTypes>, fid: nat)
    ensures forall x :: x in BuiltView(s, fs, fid) ==> fid < |fs| && |fs[fid].Include| > 0 && Matches(s, x, fs[fid])
    ensures fid < FirstStarved(s, fs) ==>
      forall x :: (x in BuiltView(s, fs, fid) <==> |fs[fid].Include| > 0 && Matches(s, x, fs[fid]))
  {
    if fid < FirstStarved(s, fs) && |fs[fid].Include| > 0 {
      var f := fs[fid];
      assert f.Include[0] in f.Include;
    }
  }

  // ---------------------------------------------------------------------
  // The live list
  // ---------------------------------------------------------------------

  /** The deleteIdx search of Destroy: the first entity with this ID, or |s|. */
  function FirstId(s: seq<Entity>, id: nat): (i: nat)
    ensures i <= |s|
    ensures i < |s| ==> s[i].id == id
    ensures forall j :: 0 <= j < i ==> s[j].id != id
  {
    if s == [] then 0
    else if s[0].id == id then 0
    else 1 + FirstId(s[1..], id)
  }

  /** The live list after Destroy: the first entity with this ID spliced out, if there is one. */
  function RemoveFirstId(s: seq<Entity>, id: nat): seq<Entity>
  {
    var i := FirstId(s, id);
    if i < |s| then s[..i] + s[i + 1..] else s
  }

  /** The splice of Destroy keeps every other entity of the list and brings none in. */
  lemma RemoveFirstIdMembers(s: seq<Entity>, id: nat)
    ensures forall x :: x in RemoveFirstId(s, id) ==> x in s
    ensures forall x :: x in s && x.id != id ==> x in RemoveFirstId(s, id)
    ensures (forall x :: x in s ==> x.id != id) ==> RemoveFirstId(s, id) == s
    ensures (exists x :: x in s && x.id == id) ==> |RemoveFirstId(s, id)| == |s| - 1
  {
    var i := FirstId(s, id);
    var r := RemoveFirstId(s, id);
    if i < |s| {
      assert r == s[..i] + s[i + 1..];
      forall x | x in s && x.id != id
        ensures x in r
      {
        var j :| 0 <= j < |s| && s[j] == x;
        if j < i {
          assert r[j] == x;
        } else {
          assert j != i && r[j - 1] == x;
        }
      }
    } else {
      forall x | x in s
        ensures x.id != id
      {
        var j :| 0 <= j < |s| && s[j] == x;
      }
    }
  }

  // ---------------------------------------------------------------------
  // Entities and the World
  // ---------------------------------------------------------------------

  class Entity {
    const w: World
    const id: nat
    var componentCount: u64
    var destroyed: bool

    constructor (w: World, id: nat)
      ensures this.w == w && this.id == id
      ensures componentCount == 0 && !destroyed
    {
      this.w := w;
      this.id := id;
      componentCount := 0;
      destroyed := false;
    }

    /** Has: the entity's ID is a key of the table of the argument's type; never for nil. */
    function Has(c: Arg): (r: bool)
      reads w`components
      ensures r <==> TypeOf(c) in HeldSet(w.components, id)
      ensures NilType !in w.components ==> (c == Nil ==> !r)
    {
      TypeOf(c) in w.components && id in w.components[TypeOf(c)]
    }

    /**
     * Components: one entry per table of the store, in the map's iteration
     * order (order), with the nil interface for tables without this ID.
     */
    method Components() returns (cs: seq<Arg>, ghost order: seq<RType>)
      ensures Enumerates(w.components, order)
      ensures cs == ComponentsAlong(w.components, id, order)
    {
      var tables := w.components;
      var keys := tables.Keys;
      cs, order := [], [];
      while keys != {}
        invariant keys <= tables.Keys
        invariant NoDup(order) && Elems(order) == tables.Keys - keys
        invariant |cs| == |order|
        invariant forall j :: 0 <= j < |order| ==> order[j] in tables
        invariant forall j :: 0 <= j < |order| ==> cs[j] == if id in tables[order[j]] then tables[order[j]][id] else Nil
        decreases keys
      {
        var t :| t in keys;
        var v := if id in tables[t] then tables[t][id] else Nil;
        assert t !in order by { assert t !in Elems(order); }
        assert Elems(order + [t]) == Elems(order) + {t};
        cs, order := cs + [v], order + [t];
        keys := keys - {t};
      }
    }

    /**
     * Destroy: mark the entity destroyed, splice the first entity with its
     * ID out of the live list (if there is one), take the ID out of every
     * table and of every cached set. componentCount is left as it was.
     */
    method Destroy()
      requires w.Valid()
      modifies this`destroyed, w`entities, w`components, w`cache
      ensures w.Valid()
      ensures destroyed && componentCount == old(componentCount)
      ensures w.entities == RemoveFirstId(old(w.entities), id)
      ensures w.components == Without(old(w.components), id)
      ensures forall st, fid: nat :: View(w.cache, st, fid) == View(old(w.cache), st, fid) - {id}
    {
      destroyed := true;
      w.RemoveFromEntities(this);
      w.RemoveFromTables(id);
      w.DeleteEntityFromAllSystems(this);
    }

    /**
     * getOrReplace: untyped nil does nothing; otherwise the type's table is
     * created when missing; Get returns a held component unchanged; a typed
     * nil stores nothing; a pointer is stored, counted (modulo 2^64),
     * resurrects a destroyed entity, and the entity's cache membership is
     * rebuilt.
     */
    method GetOrReplace(c: Arg, replace: bool) returns (r: Arg)
      requires w.Valid() && this in w.handles
      modifies this, w`entities, w`components, w`cache
      ensures w.Valid()
      ensures c == Nil ==> r == Nil && unchanged(this, w)
      ensures c != Nil && !replace && old(Holds(w.components, id, TypeOf(c))) ==>
        r == old(w.components[TypeOf(c)][id]) && unchanged(this, w)
      ensures c.TypedNil? && (replace || !old(Holds(w.components, id, TypeOf(c)))) ==>
        && r == Nil && unchanged(this)
        && w.components == old(w.components)[TypeOf(c) := old(TableOf(w.components, TypeOf(c)))]
        && w.entities == old(w.entities) && w.cache == old(w.cache)
      ensures c.Ptr? && (replace || !old(Holds(w.components, id, TypeOf(c)))) ==>
        && r == c && !destroyed && componentCount == Inc(old(componentCount))
        && w.components == old(w.components)[TypeOf(c) := old(TableOf(w.components, TypeOf(c)))[id := c]]
        && w.entities == (if old(destroyed) then old(w.entities) + [this] else old(w.entities))
        && forall st, fid: nat :: View(w.cache, st, fid) == EntityView(old(w.cache), w.systems, w.systemFilters, w.components, id, st, fid)
    {
      r := Nil;
      if c == Nil {
        return;
      }
      var ct := TypeOf(c);
      if ct !in w.components {
        w.CreateTable(ct);
      }
      if !replace && id in w.components[ct] {
        r := w.components[ct][id];
        return;
      }
      if c.TypedNil? {
        return;
      }
      Store(c);
      r := c;
    }

    /** The tail of getOrReplace for a pointer: resurrect, count, store, rebuild. */
    method Store(c: Arg)
      requires w.Valid() && this in w.handles && c.Ptr? && TypeOf(c) in w.components
      modifies this, w`entities, w`components, w`cache
      ensures w.Valid()
      ensures !destroyed && componentCount == Inc(old(componentCount))
      ensures var t: map<nat, Arg> := old(w.components[TypeOf(c)])[id := c];
        w.components == old(w.components)[TypeOf(c) := t]
      ensures w.entities == (if old(destroyed) then old(w.entities) + [this] else old(w.entities))
      ensures forall st, fid: nat :: View(w.cache, st, fid) == EntityView(old(w.cache), w.systems, w.systemFilters, w.components, id, st, fid)
    {
      if destroyed {
        w.entities := w.entities + [this];
        destroyed := false;
      }
      componentCount := Inc(componentCount);
      w.StoreComponent(id, c);
      w.RebuildByEntity(this);
    }

    /**
     * Delete as written: the ID leaves the table of the argument's type (an
     * emptied table is dropped), the counter goes down by one modulo 2^64
     * whether or not the entity held that type, and the entity is destroyed
     * when the counter reads 0, or has its cache membership rebuilt.
     */
    method Delete(c: Arg)
      requires w.Valid()
      modifies this`componentCount, this`destroyed, w`entities, w`components, w`cache
      ensures w.Valid()
      ensures (w.components, componentCount) == AfterDelete(old(w.components), old(componentCount), id, TypeOf(c))
      ensures destroyed == (old(destroyed) || componentCount == 0)
      ensures w.entities == if componentCount == 0 then RemoveFirstId(old(w.entities), id) else old(w.entities)
      ensures forall st, fid: nat :: View(w.cache, st, fid) == EntityView(old(w.cache), w.systems, w.systemFilters, w.components, id, st, fid)
    {
      var ct := TypeOf(c);
      w.RemoveComponent(id, ct);
      componentCount := Dec(componentCount);
      if componentCount == 0 {
        Destroy();
        WithoutHoldings(RemoveKey(old(w.components), ct, id), id, id);
        return;
      }
      w.RebuildByEntity(this);
    }

    /** Get: the held component of that type, added first when missing. */
    method Get(c: Arg) returns (r: Arg)
      requires w.Valid() && this in w.handles
      modifies this, w`entities, w`components, w`cache
      ensures w.Valid()
      ensures c == Nil ==> r == Nil && unchanged(this, w)
      ensures c != Nil && old(Holds(w.components, id, TypeOf(c))) ==>
        r == old(w.components[TypeOf(c)][id]) && unchanged(this, w)
      ensures c.TypedNil? && !old(Holds(w.components, id, TypeOf(c))) ==>
        && r == Nil && unchanged(this)
        && w.components == old(w.components)[TypeOf(c) := old(TableOf(w.components, TypeOf(c)))]
        && w.entities == old(w.entities) && w.cache == old(w.cache)
      ensures c.Ptr? && !old(Holds(w.components, id, TypeOf(c))) ==>
        && r == c && !destroyed && componentCount == Inc(old(componentCount))
        && w.components == old(w.components)[TypeOf(c) := old(TableOf(w.components, TypeOf(c)))[id := c]]
        && w.entities == (if old(destroyed) then old(w.entities) + [this] else old(w.entities))
        && forall st, fid: nat :: View(w.cache, st, fid) == EntityView(old(w.cache), w.systems, w.systemFilters, w.components, id, st, fid)
      ensures Has(c) <==> old(Has(c)) || c.Ptr?
    {
      r := GetOrReplace(c, false);
    }

    /**
     * Replace: store the component, overwriting one of the same type, and
     * count the write even when it overwrites; nil stores nothing and a
     * typed nil only creates the table.
     */
    method Replace(c: Arg)
      requires w.Valid() && this in w.handles
      modifies this, w`entities, w`components, w`cache
      ensures w.Valid()
      ensures c == Nil ==> unchanged(this, w)
      ensures c.TypedNil? ==>
        && unchanged(this)
        && w.components == old(w.components)[TypeOf(c) := old(TableOf(w.components, TypeOf(c)))]
        && w.entities == old(w.entities) && w.cache == old(w.cache)
      ensures c.Ptr? ==>
        && !destroyed && componentCount == Inc(old(componentCount))
        && w.components == old(w.components)[TypeOf(c) := old(TableOf(w.components, TypeOf(c)))[id := c]]
        && w.entities == (if old(destroyed) then old(w.entities) + [this] else old(w.entities))
        && forall st, fid: nat :: View(w.cache, st, fid) == EntityView(old(w.cache), w.systems, w.systemFilters, w.components, id, st, fid)
    {
      var _ := GetOrReplace(c, true);
    }
  }

  class World {
    var entityID: nat
    var entities: seq<Entity>
    var components: Store<nat>
    var systems: seq<System>
    var systemFilters: FilterMap
    var cache: CacheMap
    /** Every entity NewEntity has returned. */
    ghost var handles: set<Entity>

    /** Entities belong to this world and carry an ID the counter has handed out. */
    ghost predicate HandlesOk()
      reads this`handles, this`entityID
    {
      forall e :: e in handles ==> e.w == this && 1 <= e.id <= entityID
    }

    /** No table for the nil type; every stored value is a non-nil pointer of its table's type, under a handed-out ID. */
    ghost predicate StoreOk()
      reads this`components, this`entityID
    {
      WellStored(components, entityID)
    }

    ghost predicate Valid()
      reads this
    {
      && HandlesOk()
      && StoreOk()
      && DistinctTypes(systems)
      && (forall e :: e in entities ==> e in handles)
      && CacheShape(cache, systemFilters)
    }

    /** NewWorld: no entities, no tables, no systems, an empty cache. */
    constructor ()
      ensures Valid()
      ensures entityID == 0 && entities == [] && components == map[] && handles == {}
      ensures systems == [] && systemFilters == map[] && cache == map[]
    {
      entityID := 0;
      entities := [];
      components := map[];
      systems := [];
      systemFilters := map[];
      cache := map[];
      handles := {};
    }

    /** NewEntity: the next ID, a live entity with no components appended to the live list. */
    method NewEntity() returns (e: Entity)
      requires Valid()
      modifies this`entityID, this`entities, this`handles
      ensures Valid()
      ensures fresh(e) && e.w == this && e.id == entityID == old(entityID) + 1
      ensures e.componentCount == 0 && !e.destroyed
      ensures entities == old(entities) + [e] && handles == old(handles) + {e}
      ensures forall x :: x in old(handles) ==> x.id < e.id
      ensures HeldSet(components, e.id) == {}
    {
      entityID := entityID + 1;
      e := new Entity(this, entityID);
      entities := entities + [e];
      handles := handles + {e};
      assert forall t :: t in components ==> e.id !in components[t];
    }

    /** Entities: the live list; each of its entities belongs to this world. */
    method Entities() returns (es: seq<Entity>)
      requires Valid()
      ensures es == entities
      ensures forall e :: e in es ==> e.w == this && 1 <= e.id <= entityID
    {
      es := entities;
    }

    /** Systems: the registry, one system per type. */
    method Systems() returns (ss: seq<System>)
      requires Valid()
      ensures ss == systems && DistinctTypes(ss)
    {
      ss := systems;
    }

    /** The deleteIdx search of RemoveSystem. */
    method IndexOfType(st: SystemType) returns (i: nat)
      ensures i == FirstOfType(systems, st)
    {
      i := 0;
      while i < |systems| && systems[i].typ != st
        invariant 0 <= i <= |systems|
        invariant forall j :: 0 <= j < i ==> systems[j].typ != st
      {
        i := i + 1;
      }
    }

    /**
     * RemoveSystem: splice out the first system of that type if there is one,
     * and always drop the type's cached sets and filters.
     */
    method RemoveSystem(s: System)
      requires Valid()
      modifies this`systems, this`systemFilters, this`cache
      ensures Valid()
      ensures systems == RemoveType(old(systems), s.typ)
      ensures forall i :: 0 <= i < |systems| ==> systems[i].typ != s.typ
      ensures systemFilters == old(systemFilters) - {s.typ}
      ensures cache == old(cache) - {s.typ}
    {
      var st := s.typ;
      var i := IndexOfType(st);
      RemoveTypeDistinct(systems, s);
      if i < |systems| {
        systems := systems[..i] + systems[i + 1..];
      }
      cache := cache - {st};
      systemFilters := systemFilters - {st};
    }

    /**
     * AddSystem: replace any system of the same type, append the new one with
     * its filters, and rebuild its sets unless the store has no table.
     */
    method AddSystem(s: System)
      requires Valid()
      modifies this`systems, this`systemFilters, this`cache
      ensures Valid()
      ensures systems == RemoveType(old(systems), s.typ) + [s]
      ensures |s.filters| > 0 ==> systemFilters == old(systemFilters)[s.typ := ToTypesAll(s.filters)]
      ensures |s.filters| == 0 ==> systemFilters == old(systemFilters) - {s.typ}
      ensures OtherViewsKept(old(cache), cache, s.typ)
      ensures forall fid: nat :: (View(cache, s.typ, fid) ==
        (if |components| == 0 then {} else BuiltView(components, FilterList(systemFilters, s.typ), fid)))
    {
      Register(s);
      ghost var c1 := cache;
      WithoutSystemViews(old(cache), s.typ);
      if |components| == 0 {
        return;
      }
      RebuildBySystem(s.typ);
      OtherViewsKeptTrans(old(cache), c1, cache, s.typ);
    }

    /** The part of AddSystem before the rebuild: replace the system and store its converted filters. */
    method Register(s: System)
      requires Valid()
      modifies this`systems, this`systemFilters, this`cache
      ensures Valid()
      ensures systems == RemoveType(old(systems), s.typ) + [s]
      ensures |s.filters| > 0 ==> systemFilters == old(systemFilters)[s.typ := ToTypesAll(s.filters)]
      ensures |s.filters| == 0 ==> systemFilters == old(systemFilters) - {s.typ}
      ensures cache == old(cache) - {s.typ}
      ensures forall fid: nat :: View(cache, s.typ, fid) == {}
    {
      var st := s.typ;
      RemoveSystem(s);
      assert forall i :: 0 <= i < |systems| ==> systems[i].typ != st;
      systems := systems + [s];
      var fts := ConvertFilters(s.filters);
      if |fts| > 0 {
        systemFilters := systemFilters[st := fts];
      }
    }

    /** The slots of one system: one per filter, each the cached set (empty when there is none). */
    ghost predicate SlotsAre(slots: seq<set<nat>>, st: SystemType)
      reads this`cache, this`systemFilters
    {
      && |slots| == |FilterList(systemFilters, st)|
      && forall fid :: 0 <= fid < |slots| ==> slots[fid] == View(cache, st, fid)
    }

    /**
     * Update: every system, in registration order, receives dt and its slots.
     * The systems' own Update bodies are outside the model and change nothing.
     */
    method Update(dt: int) returns (calls: seq<Call>)
      ensures |calls| == |systems|
      ensures forall i :: 0 <= i < |calls| ==>
        calls[i].system == systems[i].typ && calls[i].dt == dt && SlotsAre(calls[i].slots, systems[i].typ)
    {
      calls := [];
      var i := 0;
      while i < |systems|
        invariant 0 <= i <= |systems|
        invariant |calls| == i
        invariant forall j :: 0 <= j < i ==>
          calls[j].system == systems[j].typ && calls[j].dt == dt && SlotsAre(calls[j].slots, systems[j].typ)
      {
        var st := systems[i].typ;
        var slots := Slots(st);
        calls := calls + [Call(st, dt, slots)];
        i := i + 1;
      }
    }

    /** The filteredEntities loop of Update. */
    method Slots(st: SystemType) returns (slots: seq<set<nat>>)
      ensures SlotsAre(slots, st)
    {
      var filter := FilterList(systemFilters, st);
      slots := [];
      var fid := 0;
      while fid < |filter|
        invariant 0 <= fid <= |filter|
        invariant |slots| == fid
        invariant forall f :: 0 <= f < fid ==> slots[f] == View(cache, st, f)
      {
        var ids: set<nat> := {};
        if st in cache && |cache[st]| > 0 {
          ids := if fid in cache[st] then cache[st][fid] else {};
        }
        slots := slots + [ids];
        fid := fid + 1;
      }
    }

    // ---- the store

    /** The first loop of Destroy: splice the first entity with that ID out of the live list. */
    method RemoveFromEntities(e: Entity)
      requires Valid()
      modifies this`entities
      ensures Valid()
      ensures entities == RemoveFirstId(old(entities), e.id)
    {
      RemoveFirstIdMembers(entities, e.id);
      var i := 0;
      while i < |entities| && entities[i].id != e.id
        invariant 0 <= i <= |entities|
        invariant forall j :: 0 <= j < i ==> entities[j].id != e.id
      {
        i := i + 1;
      }
      assert i == FirstId(entities, e.id);
      if i < |entities| {
        entities := entities[..i] + entities[i + 1..];
      }
    }

    /** The second loop of Destroy: the ID leaves every table, and an emptied table is dropped. */
    method RemoveFromTables(id: nat)
      requires Valid()
      modifies this`components
      ensures Valid()
      ensures components == Without(old(components), id)
    {
      ghost var s0 := components;
      var keys := components.Keys;
      while keys != {}
        invariant Sweeping(s0, components, id, keys)
      {
        var ct :| ct in keys;
        var m := components[ct] - {id};
        EmptyAfterRemove(components[ct], id);
        if |m| == 0 {
          SweepingDrop(s0, components, id, keys, ct);
          components := components - {ct};
        } else {
          SweepingShrink(s0, components, id, keys, ct);
          components := components[ct := m];
        }
        keys := keys - {ct};
      }
      SweepingDone(s0, components, id);
      WithoutWellStored(s0, id, entityID);
    }

    /** The first half of Delete: delete(w.components[ct], id), and drop the table once empty. */
    method RemoveComponent(id: nat, ct: RType)
      requires Valid()
      modifies this`components
      ensures Valid()
      ensures components == RemoveKey(old(components), ct, id)
    {
      if ct !in components {
        return;
      }
      ghost var s0 := components;
      var m := components[ct] - {id};
      EmptyAfterRemove(s0[ct], id);
      components := components[ct := m];
      if |components[ct]| == 0 {
        components := components - {ct};
        assert components == s0 - {ct};
      } else {
        assert !(s0[ct].Keys <= {id});
      }
      RemoveKeyWellStored(s0, ct, id, entityID);
    }

    /** The table creation of getOrReplace: an empty table for a type that has none. */
    method CreateTable(ct: RType)
      requires Valid() && ct != NilType && ct !in components
      modifies this`components
      ensures Valid()
      ensures components == old(components)[ct := map[]]
    {
      components := components[ct := map[]];
    }

    /** The store write of getOrReplace. */
    method StoreComponent(id: nat, c: Arg)
      requires Valid() && 1 <= id <= entityID && c.Ptr? && TypeOf(c) in components
      modifies this`components
      ensures Valid()
      ensures var t: map<nat, Arg> := old(components)[TypeOf(c)][id := c];
        components == old(components)[TypeOf(c) := t]
      ensures HeldSet(components, id) == HeldSet(old(components), id) + {TypeOf(c)}
    {
      var ct := TypeOf(c);
      var t: map<nat, Arg> := components[ct][id := c];
      components := components[ct := t];
      WriteHoldings(old(components), ct, id, c, id);
    }

    // ---- the cache

    /** systemCacheDeleteEntityFromSystem */
    method DeleteEntityFromSystem(e: Entity, st: SystemType, fid: nat)
      requires CacheShape(cache, systemFilters)
      modifies this`cache
      ensures CacheShape(cache, systemFilters)
      ensures cache == DropId(old(cache), st, fid, e.id)
    {
      DropIdShape(cache, systemFilters, st, fid, e.id);
      if st !in cache {
        return;
      }
      var inner: map<nat, set<nat>> := cache[st];
      if fid in inner {
        var ids := inner[fid] - {e.id};
        if |ids| == 0 {
          inner := inner - {fid};
        } else {
          inner := inner[fid := ids];
        }
      }
      if |inner| == 0 {
        cache := cache - {st};
      } else {
        cache := cache[st := inner];
      }
    }

    /** The insertion both rebuilds share: create the missing maps, then add the ID. */
    method AddIdToSystem(id: nat, st: SystemType, fid: nat)
      requires CacheShape(cache, systemFilters) && st in systemFilters && fid < |systemFilters[st]|
      modifies this`cache
      ensures CacheShape(cache, systemFilters)
      ensures cache == AddId(old(cache), st, fid, id)
    {
      AddIdShape(cache, systemFilters, st, fid, id);
      var inner: map<nat, set<nat>> := if st in cache then cache[st] else map[];
      var ids: set<nat> := if fid in inner then inner[fid] else {};
      cache := cache[st := inner[fid := ids + {id}]];
    }

    /** systemCacheDeleteEntityFromAllSystems: the ID leaves every cached set. */
    method DeleteEntityFromAllSystems(e: Entity)
      requires CacheShape(cache, systemFilters)
      modifies this`cache
      ensures CacheShape(cache, systemFilters)
      ensures forall st, fid: nat :: View(cache, st, fid) == View(old(cache), st, fid) - {e.id}
    {
      ghost var c0 := cache;
      var sts := cache.Keys;
      while sts != {}
        invariant CacheShape(cache, systemFilters)
        invariant forall st, fid: nat :: View(cache, st, fid) == if st in sts then View(c0, st, fid) else View(c0, st, fid) - {e.id}
      {
        var st :| st in sts;
        ghost var c1 := cache;
        DeleteEntityFromLists(e, st);
        sts := sts - {st};
      }
    }

    /** The inner loop of systemCacheDeleteEntityFromAllSystems: every set of one system. */
    method DeleteEntityFromLists(e: Entity, st: SystemType)
      requires CacheShape(cache, systemFilters)
      modifies this`cache
      ensures CacheShape(cache, systemFilters)
      ensures forall fid: nat :: View(cache, st, fid) == View(old(cache), st, fid) - {e.id}
      ensures OtherViewsKept(old(cache), cache, st)
    {
      ghost var c0 := cache;
      var fids := if st in cache then cache[st].Keys else {};
      SweptStart(c0, st, fids, e.id);
      while fids != {}
        invariant CacheShape(cache, systemFilters)
        invariant Swept(c0, cache, st, fids, e.id)
      {
        var fid :| fid in fids;
        ghost var c1 := cache;
        DeleteEntityFromSystem(e, st, fid);
        SweptStep(c0, c1, st, fids, fid, e.id);
        fids := fids - {fid};
      }
    }

    /** The loop of systemCacheRebuildByEntity that lists the entity's types. */
    method HeldTypes(e: Entity) returns (cts: seq<RType>)
      ensures NoDup(cts)
      ensures Elems(cts) == HeldSet(components, e.id)
    {
      cts := [];
      var rest := components.Keys;
      while rest != {}
        invariant rest <= components.Keys
        invariant NoDup(cts)
        invariant forall t :: t in cts <==> t in components && t !in rest && e.id in components[t]
      {
        var ct :| ct in rest;
        rest := rest - {ct};
        if e.id in components[ct] {
          cts := cts + [ct];
        }
      }
    }

    /** The filters registered for a system type (nil when it has none). */
    function FiltersOfType(st: SystemType): seq<FilterTypes>
      reads this`systemFilters
    {
      FilterList(systemFilters, st)
    }

    /**
     * systemCacheRebuildByEntity: an entity holding nothing leaves every
     * set; otherwise the system loop decides it in every set of the systems
     * before the first one without filters, where it returns.
     */
    method RebuildByEntity(e: Entity)
      requires CacheShape(cache, systemFilters)
      modifies this`cache
      ensures CacheShape(cache, systemFilters)
      ensures forall st, fid: nat :: View(cache, st, fid) == EntityView(old(cache), systems, systemFilters, components, e.id, st, fid)
    {
      var cts := HeldTypes(e);
      if |cts| == 0 {
        DeleteEntityFromAllSystems(e);
        return;
      }
      assert cts[0] in HeldSet(components, e.id);
      ghost var held := HeldSet(components, e.id);
      ghost var c0 := cache;
      var i := 0;
      while i < |systems|
        invariant 0 <= i <= |systems|
        invariant CacheShape(cache, systemFilters)
        invariant SystemsFrom(cache, systems[i..], systemFilters, held, e.id) == SystemsFrom(c0, systems, systemFilters, held, e.id)
      {
        var st := systems[i].typ;
        var filter := FiltersOfType(st);
        assert systems[i..][0] == systems[i];
        if |filter| == 0 {
          RebuildViews(c0, cache, systems, systemFilters, components, e.id);
          return;
        }
        RefreshSystem(e, cts, st);
        assert systems[i..][1..] == systems[i + 1..];
        i := i + 1;
      }
      RebuildViews(c0, cache, systems, systemFilters, components, e.id);
    }

    /** The filter loop of systemCacheRebuildByEntity for one system. */
    method RefreshSystem(e: Entity, cts: seq<RType>, st: SystemType)
      requires CacheShape(cache, systemFilters) && st in systemFilters
      requires NoDup(cts) && Elems(cts) == HeldSet(components, e.id)
      modifies this`cache
      ensures CacheShape(cache, systemFilters)
      ensures cache == FiltersFrom(old(cache), st, systemFilters[st], 0, HeldSet(components, e.id), e.id)
    {
      var filter := systemFilters[st];
      var fid := 0;
      while fid < |filter|
        invariant 0 <= fid <= |filter|
        invariant CacheShape(cache, systemFilters)
        invariant FiltersFrom(cache, st, filter, fid, HeldSet(components, e.id), e.id) ==
          FiltersFrom(old(cache), st, filter, 0, HeldSet(components, e.id), e.id)
      {
        RefreshFilter(e, cts, st, fid);
        fid := fid + 1;
      }
    }

    /** One filter of systemCacheRebuildByEntity: drop on an Exclude type held, add when every Include type is held, drop otherwise. */
    method RefreshFilter(e: Entity, cts: seq<RType>, st: SystemType, fid: nat)
      requires CacheShape(cache, systemFilters) && st in systemFilters && fid < |systemFilters[st]|
      requires NoDup(cts) && Elems(cts) == HeldSet(components, e.id)
      modifies this`cache
      ensures CacheShape(cache, systemFilters)
      ensures cache == FilterStep(old(cache), st, fid, systemFilters[st][fid], HeldSet(components, e.id), e.id)
    {
      var f := systemFilters[st][fid];
      var ex := HasComponentCount(cts, f.Exclude);
      if ex > 0 {
        DeleteEntityFromSystem(e, st, fid);
        return;
      }
      var inc := HasComponentCount(cts, f.Include);
      if inc == |f.Include| {
        AddIdToSystem(e.id, st, fid);
        return;
      }
      DeleteEntityFromSystem(e, st, fid);
    }

    /** The excludeIDs set of systemEntityCacheRebuildBySystem: the IDs holding some Exclude type. */
    method ExcludedIDs(f: FilterTypes) returns (excl: set<nat>)
      ensures forall x :: x in excl <==> HoldsSome(components, x, f.Exclude)
    {
      excl := {};
      var k := 0;
      while k < |f.Exclude|
        invariant 0 <= k <= |f.Exclude|
        invariant forall x :: x in excl <==> HoldsSome(components, x, f.Exclude[..k])
      {
        var ex := f.Exclude[k];
        assert f.Exclude[..k + 1] == f.Exclude[..k] + [ex];
        HoldsSomeAppend(components, f.Exclude[..k], ex);
        if |TableOf(components, ex)| > 0 {
          var rest := components[ex].Keys;
          while rest != {}
            invariant rest <= components[ex].Keys
            invariant forall x :: x in excl <==> HoldsSome(components, x, f.Exclude[..k]) || (x in components[ex] && x !in rest)
          {
            var eid :| eid in rest;
            rest := rest - {eid};
            excl := excl + {eid};
          }
        }
        k := k + 1;
      }
      assert f.Exclude[..k] == f.Exclude;
    }

    /** One step of the innermost loop of systemEntityCacheRebuildBySystem, for the holder eid. */
    method CountOne(st: SystemType, fid: nat, eid: nat, excl: set<nat>, counts: map<nat, nat>)
      returns (includeIDs: map<nat, nat>)
      requires CacheShape(cache, systemFilters) && st in systemFilters && fid < |systemFilters[st]|
      requires eid !in excl ==> CountOf(counts, eid) < |systemFilters[st][fid].Include|
      requires CachedAt(View(cache, st, fid), counts, excl, |systemFilters[st][fid].Include|)
      modifies this`cache
      ensures includeIDs == if eid in excl then counts else counts[eid := CountOf(counts, eid) + 1]
      ensures CacheShape(cache, systemFilters)
      ensures OnlyView(old(cache), cache, st, fid)
      ensures CachedAt(View(cache, st, fid), includeIDs, excl, |systemFilters[st][fid].Include|)
    {
      includeIDs := counts;
      if eid in excl {
        return;
      }
      includeIDs := includeIDs[eid := CountOf(includeIDs, eid) + 1];
      if includeIDs[eid] != |systemFilters[st][fid].Include| {
        return;
      }
      ghost var c0 := cache;
      AddIdToSystem(eid, st, fid);
      AddIdView(c0, st, fid, eid);
    }

    /**
     * The innermost loop of systemEntityCacheRebuildBySystem: every holder of
     * inc that is not excluded gets its count raised, and is cached once the
     * count reaches the length of Include.
     */
    method CountHolders(st: SystemType, fid: nat, inc: RType, excl: set<nat>, counts: map<nat, nat>, ghost seen: seq<RType>)
      returns (includeIDs: map<nat, nat>)
      requires CacheShape(cache, systemFilters) && st in systemFilters && fid < |systemFilters[st]|
      requires inc in components && |seen| < |systemFilters[st][fid].Include|
      requires Tallied(counts, excl, components, seen, {})
      requires CachedAt(View(cache, st, fid), counts, excl, |systemFilters[st][fid].Include|)
      modifies this`cache
      ensures CacheShape(cache, systemFilters)
      ensures OnlyView(old(cache), cache, st, fid)
      ensures Tallied(includeIDs, excl, components, seen + [inc], {})
      ensures CachedAt(View(cache, st, fid), includeIDs, excl, |systemFilters[st][fid].Include|)
    {
      includeIDs := counts;
      var rest := components[inc].Keys;
      while rest != {}
        invariant rest <= components[inc].Keys
        invariant CacheShape(cache, systemFilters)
        invariant OnlyView(old(cache), cache, st, fid)
        invariant Tallied(includeIDs, excl, components, seen, components[inc].Keys - rest)
        invariant CachedAt(View(cache, st, fid), includeIDs, excl, |systemFilters[st][fid].Include|)
      {
        var eid :| eid in rest;
        ghost var done := components[inc].Keys - rest;
        rest := rest - {eid};
        assert components[inc].Keys - rest == done + {eid};
        if eid !in excl {
          TalliedEntry(includeIDs, excl, components, seen, done, eid);
        }
        ghost var before, c1 := includeIDs, cache;
        includeIDs := CountOne(st, fid, eid, excl, includeIDs);
        TallyStep(before, includeIDs, excl, components, seen, done, eid);
        OnlyViewTrans(old(cache), c1, cache, st, fid);
      }
      TallyFinish(includeIDs, excl, components, seen, inc);
    }

    /**
     * One pass of the outer loop of systemEntityCacheRebuildBySystem: collect
     * the excluded IDs, count per ID the Include positions held, cache an ID
     * when its count reaches len(Include); stopped reports the Include type
     * nobody holds at which the whole rebuild returns.
     */
    method RebuildFilter(st: SystemType, fid: nat) returns (stopped: bool)
      requires CacheShape(cache, systemFilters) && st in systemFilters && fid < |systemFilters[st]|
      requires View(cache, st, fid) == {}
      modifies this`cache
      ensures CacheShape(cache, systemFilters)
      ensures OnlyView(old(cache), cache, st, fid)
      ensures stopped <==> Starved(components, systemFilters[st][fid])
      ensures View(cache, st, fid) == MatchingIds(components, systemFilters[st][fid])
    {
      var f := systemFilters[st][fid];
      var excl := ExcludedIDs(f);
      var includeIDs: map<nat, nat> := map[];
      ghost var s := components;
      stopped := false;
      var k := 0;
      while k < |f.Include|
        invariant 0 <= k <= |f.Include|
        invariant CacheShape(cache, systemFilters)
        invariant OnlyView(old(cache), cache, st, fid)
        invariant components == s
        invariant Stocked(s, f.Include, k)
        invariant !stopped
        invariant Tallied(includeIDs, excl, s, f.Include[..k], {})
        invariant CachedAt(View(cache, st, fid), includeIDs, excl, |f.Include|)
      {
        var inc := f.Include[k];
        if |TableOf(components, inc)| == 0 {
          stopped := true;
          break;
        }
        StockedStep(s, f.Include, k);
        ghost var c1 := cache;
        includeIDs := CountHolders(st, fid, inc, excl, includeIDs, f.Include[..k]);
        OnlyViewTrans(old(cache), c1, cache, st, fid);
        TalliedNext(includeIDs, excl, s, f.Include, k);
        k := k + 1;
      }
      BuiltFromTally(View(cache, st, fid), includeIDs, excl, components, f, k);
      if stopped {
        assert f.Include[k] in f.Include;
      } else {
        StockedAll(s, f.Include);
      }
    }

    /**
     * systemEntityCacheRebuildBySystem, on a system type without cached sets:
     * each filter before the first starved one gets exactly its matching
     * IDs; the return there leaves the later filters empty.
     */
    method RebuildBySystem(st: SystemType)
      requires CacheShape(cache, systemFilters) && st !in cache
      modifies this`cache
      ensures CacheShape(cache, systemFilters)
      ensures OtherViewsKept(old(cache), cache, st)
      ensures forall fid: nat :: View(cache, st, fid) == BuiltView(components, FiltersOfType(st), fid)
    {
      var filter := FiltersOfType(st);
      if |filter| == 0 {
        return;
      }
      ghost var s := components;
      var fid := 0;
      while fid < |filter|
        invariant 0 <= fid <= |filter|
        invariant fid <= FirstStarved(s, filter)
        invariant components == s
        invariant CacheShape(cache, systemFilters)
        invariant BuiltBefore(old(cache), cache, s, filter, st, fid)
      {
        ghost var c1 := cache;
        var stopped := RebuildFilter(st, fid);
        BuiltBeforeStep(old(cache), c1, cache, s, filter, st, fid);
        if stopped {
          assert FirstStarved(s, filter) == fid;
          BuiltBeforeDone(old(cache), cache, s, filter, st, fid + 1);
          return;
        }
        fid := fid + 1;
      }
      BuiltBeforeDone(old(cache), cache, s, filter, st, fid);
    }  }
}
