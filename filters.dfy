/**
 * Component type tokens, component arguments, system filters and the
 * two-level component store, shared by both versions of the World.
 *
 * Go identifies a component type by reflect.TypeOf of the argument; here a
 * type is an abstract token, and the untyped nil argument has the nil type.
 */
module Filters {

  /** reflect.TypeOf of a component argument. */
  datatype RType = NilType | Type(id: nat)

  /**
   * A component argument: the untyped nil interface, a typed nil pointer such
   * as (*Position)(nil), or a non-nil pointer. A pointer is identified by its
   * address; the fields it points to are outside the store.
   */
  datatype Arg = Nil | TypedNil(ty: nat) | Ptr(ty: nat, addr: nat)

  /** reflect.TypeOf: the nil type for the nil interface, the pointer type otherwise (also for a typed nil). */
  function TypeOf(c: Arg): RType
  {
    match c
    case Nil => NilType
    case TypedNil(ty) => Type(ty)
    case Ptr(ty, _) => Type(ty)
  }

  /** A filter as a system declares it: component arguments whose types count. */
  datatype SystemFilter = SystemFilter(Include: seq<Arg>, Exclude: seq<Arg>)

  /** A filter as the World records it (systemFilterTypes). */
  datatype FilterTypes = FilterTypes(Include: seq<RType>, Exclude: seq<RType>)

  function TypesOf(cs: seq<Arg>): seq<RType>
  {
    seq(|cs|, i requires 0 <= i < |cs| => TypeOf(cs[i]))
  }

  function ToTypes(f: SystemFilter): FilterTypes
  {
    FilterTypes(TypesOf(f.Include), TypesOf(f.Exclude))
  }

  function ToTypesAll(fs: seq<SystemFilter>): seq<FilterTypes>
  {
    seq(|fs|, i requires 0 <= i < |fs| => ToTypes(fs[i]))
  }

  /** The two inner loops of AddSystem that record the types of one filter. */
  method ConvertFilter(f: SystemFilter) returns (ft: FilterTypes)
    ensures ft == ToTypes(f)
  {
    var inc: seq<RType> := [];
    var i := 0;
    while i < |f.Include|
      invariant 0 <= i <= |f.Include|
      invariant |inc| == i
      invariant forall j :: 0 <= j < i ==> inc[j] == TypeOf(f.Include[j])
    {
      inc := inc + [TypeOf(f.Include[i])];
      i := i + 1;
    }
    var exc: seq<RType> := [];
    i := 0;
    while i < |f.Exclude|
      invariant 0 <= i <= |f.Exclude|
      invariant |exc| == i
      invariant forall j :: 0 <= j < i ==> exc[j] == TypeOf(f.Exclude[j])
    {
      exc := exc + [TypeOf(f.Exclude[i])];
      i := i + 1;
    }
    ft := FilterTypes(inc, exc);
  }

  /**
   * The filter loop of AddSystem: one FilterTypes per SystemFilter, in order.
   * (Go appends each to systemFilters[st], which is nil beforehand.)
   */
  method ConvertFilters(fs: seq<SystemFilter>) returns (fts: seq<FilterTypes>)
    ensures fts == ToTypesAll(fs)
  {
    fts := [];
    var i := 0;
    while i < |fs|
      invariant 0 <= i <= |fs|
      invariant fts == ToTypesAll(fs[..i])
    {
      var ft := ConvertFilter(fs[i]);
      assert ToTypesAll(fs[..i + 1]) == ToTypesAll(fs[..i]) + [ft];
      fts := fts + [ft];
      i := i + 1;
    }
    assert fs[..i] == fs;
  }

  predicate NoDup<T(==)>(s: seq<T>)
  {
    forall i, j :: 0 <= i < j < |s| ==> s[i] != s[j]
  }

  function Elems<T>(s: seq<T>): set<T>
  {
    set x | x in s
  }

  /**
   * The component store: component type -> (entity key -> component).
   * The root version keys the inner tables by entity handle, the older one
   * by entity ID.
   */
  type Store<K> = map<RType, map<K, Arg>>

  /** The entity is a key in that type's table. */
  predicate Holds<K>(s: Store<K>, k: K, t: RType)
  {
    t in s && k in s[t]
  }

  /** The types the entity currently holds. */
  function HeldSet<K>(s: Store<K>, k: K): set<RType>
  {
    set t | t in s.Keys && k in s[t]
  }

  /** The table of a type, empty when the type has none (a nil map in Go). */
  function TableOf<K>(s: Store<K>, t: RType): map<K, Arg>
  {
    if t in s then s[t] else map[]
  }

  /** The entity holds at least one of the types. */
  predicate HoldsSome<K>(s: Store<K>, k: K, ts: seq<RType>)
  {
    exists t :: t in ts && Holds(s, k, t)
  }

  lemma HoldsSomeAppend<K>(s: Store<K>, ts: seq<RType>, t: RType)
    ensures forall k :: HoldsSome(s, k, ts + [t]) <==> HoldsSome(s, k, ts) || Holds(s, k, t)
  {
    forall k ensures HoldsSome(s, k, ts + [t]) <==> HoldsSome(s, k, ts) || Holds(s, k, t) {
      if HoldsSome(s, k, ts) {
        var u :| u in ts && Holds(s, k, u);
        assert u in ts + [t];
      }
      if Holds(s, k, t) {
        assert t in ts + [t];
      }
    }
  }

  /** The filter predicate: every Include type held, no Exclude type held. */
  predicate Matches<K>(s: Store<K>, k: K, f: FilterTypes)
  {
    && (forall t :: t in f.Include ==> Holds(s, k, t))
    && (forall t :: t in f.Exclude ==> !Holds(s, k, t))
  }

  /** Two stores in which the entity holds exactly the same types. */
  ghost predicate SameHoldings<K>(s1: Store<K>, s2: Store<K>, k: K)
  {
    forall t :: Holds(s1, k, t) <==> Holds(s2, k, t)
  }

  lemma SameHoldingsMatch<K>(s1: Store<K>, s2: Store<K>, k: K, f: FilterTypes)
    requires SameHoldings(s1, s2, k)
    ensures Matches(s1, k, f) <==> Matches(s2, k, f)
    ensures HeldSet(s1, k) == HeldSet(s2, k)
  {
    assert forall t :: t in HeldSet(s1, k) <==> Holds(s1, k, t);
    assert forall t :: t in HeldSet(s2, k) <==> Holds(s2, k, t);
  }

  /** includeIDs[id] with Go's zero value for a missing key. */
  function CountOf(m: map<nat, nat>, id: nat): nat
  {
    if id in m then m[id] else 0
  }

  /** The number of positions of ts whose type is in held. */
  function Count(ts: seq<RType>, held: set<RType>): (n: nat)
    ensures n <= |ts|
    ensures n == |ts| <==> forall t :: t in ts ==> t in held
    ensures n == 0 <==> forall t :: t in ts ==> t !in held
    decreases |ts|
  {
    if ts == [] then 0
    else
      assert ts == ts[..|ts| - 1] + [ts[|ts| - 1]];
      Count(ts[..|ts| - 1], held) + (if ts[|ts| - 1] in held then 1 else 0)
  }

  /** Creating a missing table (as an empty one) changes nobody's holdings. */
  lemma CreateTableHoldings<K>(s: Store<K>, t: RType, k: K)
    ensures SameHoldings(s, s[t := TableOf(s, t)], k)
  {
  }

  /** Writing one entry adds that type to that key's holdings, and nothing to anybody else's. */
  lemma WriteHoldings<K>(s: Store<K>, t: RType, k: K, v: Arg, x: K)
    ensures x != k ==> SameHoldings(s, s[t := TableOf(s, t)[k := v]], x)
    ensures HeldSet(s[t := TableOf(s, t)[k := v]], k) == HeldSet(s, k) + {t}
  {
    var s' := s[t := TableOf(s, t)[k := v]];
    assert forall u :: u in HeldSet(s', k) <==> u in HeldSet(s, k) + {t};
  }

  /** The store after a delete: the key leaves the type's table, and an emptied table is dropped. */
  function RemoveKey<K>(s: Store<K>, t: RType, k: K): Store<K>
  {
    if t !in s then s
    else if s[t].Keys <= {k} then s - {t}
    else s[t := s[t] - {k}]
  }

  /** The store after a destroy: the key leaves every table, and every empty table is dropped. */
  function Without<K>(s: Store<K>, k: K): Store<K>
  {
    map t | t in s && !(s[t].Keys <= {k}) :: s[t] - {k}
  }

  /** A visited table of a destroy: the key is gone from it, and it is gone once empty. */
  ghost predicate SweptAt<K>(s0: Store<K>, cur: Store<K>, k: K, t: RType)
    requires t in s0
  {
    if s0[t].Keys <= {k} then t !in cur else t in cur && cur[t] == s0[t] - {k}
  }

  /** Part-way through a destroy's walk over the tables: the types in todo are not visited yet. */
  ghost predicate Sweeping<K>(s0: Store<K>, cur: Store<K>, k: K, todo: set<RType>)
  {
    && todo <= s0.Keys && cur.Keys <= s0.Keys
    && (forall t :: t in todo ==> t in cur && cur[t] == s0[t])
    && (forall t :: t in s0 && t !in todo ==> SweptAt(s0, cur, k, t))
  }

  /** Visiting a table that the key leaves empty: the table is dropped. */
  lemma SweepingDrop<K>(s0: Store<K>, cur: Store<K>, k: K, todo: set<RType>, t: RType)
    requires Sweeping(s0, cur, k, todo) && t in todo && t in cur && cur[t].Keys <= {k}
    ensures Sweeping(s0, cur - {t}, k, todo - {t})
  {
    var next := cur - {t};
    assert SweptAt(s0, next, k, t);
    forall u | u in s0 && u !in todo
      ensures SweptAt(s0, next, k, u)
    {
      assert SweptAt(s0, cur, k, u);
    }
  }

  /** Visiting a table that keeps other keys: the key leaves it. */
  lemma SweepingShrink<K>(s0: Store<K>, cur: Store<K>, k: K, todo: set<RType>, t: RType)
    requires Sweeping(s0, cur, k, todo) && t in todo && t in cur && !(cur[t].Keys <= {k})
    ensures Sweeping(s0, cur[t := cur[t] - {k}], k, todo - {t})
  {
    var next := cur[t := cur[t] - {k}];
    assert SweptAt(s0, next, k, t);
    forall u | u in s0 && u !in todo
      ensures SweptAt(s0, next, k, u)
    {
      assert SweptAt(s0, cur, k, u);
    }
  }

  lemma SweepingDone<K>(s0: Store<K>, cur: Store<K>, k: K)
    requires Sweeping(s0, cur, k, {})
    ensures cur == Without(s0, k)
  {
    forall t ensures t in cur <==> t in Without(s0, k) {
      if t in s0 {
        assert SweptAt(s0, cur, k, t);
      }
    }
    assert cur.Keys == Without(s0, k).Keys;
    forall t | t in cur ensures cur[t] == Without(s0, k)[t] {
      assert SweptAt(s0, cur, k, t);
    }
  }

  /** Go's len(table) == 0 after delete(table, k). */
  lemma EmptyAfterRemove<K>(m: map<K, Arg>, k: K)
    ensures |m - {k}| == 0 <==> m.Keys <= {k}
  {
    if m.Keys <= {k} {
      assert (m - {k}).Keys == {};
    } else {
      var x :| x in m && x != k;
      assert x in m - {k};
    }
  }

  lemma RemoveKeyHoldings<K>(s: Store<K>, t: RType, k: K, x: K)
    ensures x != k ==> SameHoldings(s, RemoveKey(s, t, k), x)
    ensures HeldSet(RemoveKey(s, t, k), k) == HeldSet(s, k) - {t}
  {
    var s' := RemoveKey(s, t, k);
    if x != k {
      forall u ensures Holds(s, x, u) <==> Holds(s', x, u) {
        if u == t && t in s && x in s[t] {
          assert x in s[t] - {k};
        }
      }
    }
    forall u ensures u in HeldSet(s', k) <==> u in HeldSet(s, k) - {t} {
      if u != t {
        assert Holds(s', k, u) <==> Holds(s, k, u);
      }
    }
  }

  lemma WithoutHoldings<K>(s: Store<K>, k: K, x: K)
    ensures x != k ==> SameHoldings(s, Without(s, k), x)
    ensures HeldSet(Without(s, k), k) == {}
  {
    var s' := Without(s, k);
    if x != k {
      forall u ensures Holds(s, x, u) <==> Holds(s', x, u) {
        if Holds(s, x, u) {
          assert x in s[u] - {k};
        }
      }
    }
  }

  /** The filter predicate decided by counting, as both cache rebuilds do. */
  lemma MatchesByCount<K>(s: Store<K>, k: K, f: FilterTypes, held: set<RType>)
    requires held == HeldSet(s, k)
    ensures Matches(s, k, f) <==> Count(f.Exclude, held) == 0 && Count(f.Include, held) == |f.Include|
  {
    assert forall t :: t in held <==> Holds(s, k, t);
  }

  /**
   * hasComponentCount of the per-entity rebuild: the number of pairs (c, t)
   * with c among the entity's types, t among ts, and c == t.
   */
  function PairCount(cts: seq<RType>, ts: seq<RType>): nat
    decreases |cts|
  {
    if cts == [] then 0
    else PairCount(cts[..|cts| - 1], ts) + Count(ts, {cts[|cts| - 1]})
  }

  lemma {:induction false} CountUnion(ts: seq<RType>, a: set<RType>, c: RType)
    requires c !in a
    ensures Count(ts, a + {c}) == Count(ts, a) + Count(ts, {c})
    decreases |ts|
  {
    if ts != [] {
      CountUnion(ts[..|ts| - 1], a, c);
    }
  }

  /**
   * When the entity's types are listed without repetition, the pair count
   * is the number of positions of ts the entity holds.
   */
  lemma {:induction false} PairCountIsCount(cts: seq<RType>, ts: seq<RType>)
    requires NoDup(cts)
    ensures PairCount(cts, ts) == Count(ts, Elems(cts))
    decreases |cts|
  {
    if cts != [] {
      var init, last := cts[..|cts| - 1], cts[|cts| - 1];
      assert NoDup(init);
      PairCountIsCount(init, ts);
      assert cts == init + [last];
      assert Elems(cts) == Elems(init) + {last};
      assert last !in Elems(init);
      CountUnion(ts, Elems(init), last);
    }
  }

  /** The nested loops of hasComponentCount. */
  method HasComponentCount(cts: seq<RType>, ts: seq<RType>) returns (found: nat)
    ensures found == PairCount(cts, ts)
    ensures NoDup(cts) ==> found == Count(ts, Elems(cts))
  {
    found := 0;
    var i := 0;
    while i < |cts|
      invariant 0 <= i <= |cts|
      invariant found == PairCount(cts[..i], ts)
    {
      var j := 0;
      while j < |ts|
        invariant 0 <= j <= |ts|
        invariant found == PairCount(cts[..i], ts) + Count(ts[..j], {cts[i]})
      {
        assert ts[..j + 1][..j] == ts[..j];
        if cts[i] == ts[j] {
          found := found + 1;
        }
        j := j + 1;
      }
      assert ts[..j] == ts;
      assert cts[..i + 1][..i] == cts[..i];
      i := i + 1;
    }
    assert cts[..i] == cts;
    if NoDup(cts) {
      PairCountIsCount(cts, ts);
    }
  }

  // ---------------------------------------------------------------------
  // Listing an entity's components
  // ---------------------------------------------------------------------

  /** An iteration order of the store's tables: each table exactly once. */
  ghost predicate Enumerates<K>(s: Store<K>, order: seq<RType>)
  {
    NoDup(order) && Elems(order) == s.Keys
  }

  /**
   * entity.Components as written: one entry per table in iteration order,
   * the stored argument where the entity has one and the nil interface
   * (the map's zero value) where it has none.
   */
  function ComponentsAlong<K>(s: Store<K>, k: K, order: seq<RType>): seq<Arg>
    requires forall j :: 0 <= j < |order| ==> order[j] in s
  {
    seq(|order|, j requires 0 <= j < |order| => if k in s[order[j]] then s[order[j]][k] else Nil)
  }

  /** The evidently intended listing: the entity's own components, in table order. */
  function OwnComponents<K>(s: Store<K>, k: K, order: seq<RType>): seq<Arg>
    requires forall j :: 0 <= j < |order| ==> order[j] in s
  {
    if order == [] then []
    else
      var rest := OwnComponents(s, k, order[..|order| - 1]);
      var t := order[|order| - 1];
      if k in s[t] then rest + [s[t][k]] else rest
  }

  /** The tables among order that hold k. */
  ghost function HeldAmong<K>(s: Store<K>, k: K, order: seq<RType>): set<RType>
  {
    set t | t in order && Holds(s, k, t)
  }

  /** Dropping the last element keeps a sequence free of repetitions, and the last is not in the rest. */
  lemma NoDupInit<T>(s: seq<T>)
    requires NoDup(s) && s != []
    ensures NoDup(s[..|s| - 1]) && s[|s| - 1] !in s[..|s| - 1]
  {
    var init := s[..|s| - 1];
    forall a | 0 <= a < |init| ensures init[a] == s[a] { }
  }

  /** One entry per table of order that holds the entity. */
  lemma {:induction false} OwnComponentsLength<K>(s: Store<K>, k: K, order: seq<RType>)
    requires forall j :: 0 <= j < |order| ==> order[j] in s
    requires NoDup(order)
    ensures |OwnComponents(s, k, order)| == |HeldAmong(s, k, order)|
    decreases |order|
  {
    if order != [] {
      var init, t := order[..|order| - 1], order[|order| - 1];
      NoDupInit(order);
      OwnComponentsLength(s, k, init);
      assert order == init + [t];
      if Holds(s, k, t) {
        assert HeldAmong(s, k, order) == HeldAmong(s, k, init) + {t};
      } else {
        assert HeldAmong(s, k, order) == HeldAmong(s, k, init);
      }
    }
  }

  /** Every listed value is stored for the entity in one of the tables. */
  lemma {:induction false} OwnComponentsSound<K>(s: Store<K>, k: K, order: seq<RType>)
    requires forall j :: 0 <= j < |order| ==> order[j] in s
    ensures forall v :: v in OwnComponents(s, k, order) ==> exists t :: t in order && Holds(s, k, t) && s[t][k] == v
    decreases |order|
  {
    if order != [] {
      var init, t := order[..|order| - 1], order[|order| - 1];
      OwnComponentsSound(s, k, init);
      var rest := OwnComponents(s, k, init);
      forall v | v in OwnComponents(s, k, order)
        ensures exists u :: u in order && Holds(s, k, u) && s[u][k] == v
      {
        if v in rest {
          var u :| u in init && Holds(s, k, u) && s[u][k] == v;
          assert u in order;
        } else {
          assert t in order && Holds(s, k, t) && s[t][k] == v;
        }
      }
    }
  }

  /** Every value stored for the entity in one of the tables is listed. */
  lemma {:induction false} OwnComponentsComplete<K>(s: Store<K>, k: K, order: seq<RType>)
    requires forall j :: 0 <= j < |order| ==> order[j] in s
    ensures forall t :: t in order && Holds(s, k, t) ==> s[t][k] in OwnComponents(s, k, order)
    decreases |order|
  {
    if order != [] {
      var init, t := order[..|order| - 1], order[|order| - 1];
      OwnComponentsComplete(s, k, init);
      forall u | u in order && Holds(s, k, u)
        ensures s[u][k] in OwnComponents(s, k, order)
      {
        if u != t {
          assert order == init + [t];
          assert u in init;
        }
      }
    }
  }

  /** Over an enumeration of every table, OwnComponents has one entry per held type. */
  lemma OwnComponentsCount<K>(s: Store<K>, k: K, order: seq<RType>)
    requires Enumerates(s, order)
    ensures |OwnComponents(s, k, order)| == |HeldSet(s, k)|
  {
    OwnComponentsLength(s, k, order);
    assert HeldAmong(s, k, order) == HeldSet(s, k);
  }

  /**
   * The listing as written also reports the tables the entity is not in:
   * entity 1 holds one component, yet its listing has two entries, one of
   * them the nil interface from entity 2's table.
   */
  lemma ComponentsListsOtherTables()
    ensures var s: Store<int> := map[Type(1) := map[1 := Ptr(1, 10)], Type(2) := map[2 := Ptr(2, 20)]];
      && ComponentsAlong(s, 1, [Type(1), Type(2)]) == [Ptr(1, 10), Nil]
      && OwnComponents(s, 1, [Type(1), Type(2)]) == [Ptr(1, 10)]
      && |HeldSet(s, 1)| == 1
  {
    var s: Store<int> := map[Type(1) := map[1 := Ptr(1, 10)], Type(2) := map[2 := Ptr(2, 20)]];
    assert HeldSet(s, 1) == {Type(1)};
  }
}
