# gecs: the ECS world, modelled in Dafny

gecs is a small entity-component-system library for Go. A `World` hands out
numbered entities. It keeps one table per component type, mapping entities to
their component values. Systems register filters, each with an Include list
and an Exclude list of component types. For every (system, filter) pair the
world caches the entities that match. Two algorithms keep that cache current:

- a per-entity rebuild, run after every component write or delete;
- a full rebuild of one system, run when the system is added.

An entity whose last counted component is deleted destroys itself. A later
write brings it back. `SystemsUpdate` calls every system in registration
order with its cached lists. The one-frame system deletes its component from
every entity it is handed.

This project models:

- **`Filters`** (`filters.dfy`). The parts both packages share: component-type
  tokens for `reflect.TypeOf`, filter conversion, the component store as a
  value, the filter predicate, and the counting (`hasComponentCount`) the
  rebuilds use to decide it.
- **`Gecs`** (`gecs.dfy`). The root package (`entity.go`, `world.go`,
  `system.go`, `oneframe.go`), as the classes `Entity` and `World`.
  `World.Valid()` includes the cache invariant: for every registered filter
  with a non-empty Include list, the cached list holds exactly the entities
  that match the filter in the current store, each once. Every operation
  preserves it.
- **`Ecs`** (`ecs.dfy`). The older `ecs/` package, with the same structure.
  Its cache is modelled as sets of entity IDs. Its operations are proved
  against value-level functions of the old state: `SystemsFrom`, `BuiltView`,
  `AfterDelete`, `DropId` and `AddId`. Three places where it differs from the
  root package are logged under Findings.
- **`Geometry`** (`geometry.dfy`). The integer geometry of the SDL example:
  half-open rectangles, circles, the two overlap tests, and the collider
  conversions.
- **`Maybe`** (`maybe.dfy`). An option type for Go's nil pointers.

Code that mutates state is written as methods, with loops and invariants.
Each method is specified by functions of its inputs and of the old state.
The properties are proved as lemmas about those functions.

## Model

| member | source | states |
|---|---|---|
| Filters.ConvertFilter | world.go:77-88 | the converted filter is the Include and Exclude lists mapped through `reflect.TypeOf`, in order |
| Filters.ConvertFilters | world.go:76-89 | the filter loop of AddSystem yields one converted filter per declared filter, in order |
| Filters.TypeOf | entity.go:123 | reflect.TypeOf: the nil type for the nil interface, the pointer's type for a typed nil or a pointer (a definition; its uses are proved in Has and GetOrReplace) |
| Filters.Matches | system.go:8-13 | the filter predicate: every Include type held and no Exclude type held (a definition; MatchesByCount proves the count tests decide it) |
| Filters.Count | system.go:91-103 | the count is at most the list's length; it equals the length iff every listed type is held, and is 0 iff none is |
| Filters.HasComponentCount | system.go:91-103 | the nested loop counts matching (held, listed) pairs; with distinct held types this is the number of listed positions whose type is held |
| Filters.PairCountIsCount | system.go:91-103 | for distinct held types, the pair count equals the positional count |
| Filters.MatchesByCount | system.go:114-119 | the two count tests decide the filter predicate: no Exclude type held and every Include type held |
| Filters.HoldsSomeAppend | system.go:140-149 | adding one Exclude type's table to the excluded set adds exactly that table's holders |
| Filters.RemoveKeyHoldings | entity.go:94-97 | deleting one entry changes no other entity's holdings and removes exactly that type from the entity's held set |
| Filters.WithoutHoldings | entity.go:57-63 | removing the entity from every table leaves it holding nothing and leaves every other entity's holdings unchanged |
| Filters.RemoveKey | entity.go:94-97 | the store after one delete: the entry leaves its table, and a table left empty is dropped (a definition; RemoveKeyHoldings states its effect) |
| Filters.Without | entity.go:57-63 | the store after a destroy: the entity leaves every table, and every table left empty is dropped (a definition; WithoutHoldings states its effect) |
| Filters.SweepingDone | entity.go:57-63 | the table sweep of Destroy ends with the entity removed from every table and every table it emptied dropped |
| Filters.ComponentsAlong | entity.go:108-116 | the listing as written: one entry per table in iteration order, the stored value or the nil interface (a definition; ComponentsListsOtherTables states the consequence) |
| Filters.OwnComponents | entity.go:32-33 | the listing the interface describes: the entity's own components in table order (a definition; OwnComponentsCount, OwnComponentsSound and OwnComponentsComplete state its properties) |
| Filters.OwnComponentsCount | entity.go:108-116 | the corrected listing has exactly one entry per type the entity holds |
| Filters.OwnComponentsSound | entity.go:108-116 | every entry of the corrected listing is a component the entity holds |
| Filters.OwnComponentsComplete | entity.go:108-116 | every component the entity holds appears in the corrected listing |
| Filters.ComponentsListsOtherTables | entity.go:108-116 | the listing as written has a nil entry for a table the entity is not in |
| Gecs.OneFrameFilterTypes | oneframe.go:18-20 | the one-frame system registers the single filter Include = [type of c], Exclude = [] |
| Gecs.FiltersOfAppend | world.go:76-89 | appending a system adds its converted filters under its type, or nothing when it declares none |
| Gecs.FirstOfType | world.go:101-107 | the first index whose system has the type, or the length: no earlier system has it |
| Gecs.RemoveType | world.go:101-106 | the registry with the first system of the type spliced out (a definition; RemoveTypeFacts states its effect) |
| Gecs.RemoveTypeFacts | world.go:101-110 | removing a system's type keeps the registry free of duplicates, leaves no system of that type, and drops its filters |
| Gecs.FirstId | entity.go:50-54 | the first index whose entity has the ID, or the length: no earlier entity has it |
| Gecs.RemoveFirstId | entity.go:50-55 | the live list with the first entity of the ID spliced out (a definition; RemoveFirstIdMembers states its effect) |
| Gecs.RemoveFirstIdMembers | entity.go:50-55 | the splice removes exactly the entity with that ID and keeps the list free of duplicates |
| Gecs.AppendIfMissing | system.go:180-187 | the list is returned unchanged when it already holds the entity, else with the entity appended; no duplicates are introduced |
| Gecs.AliasedSweep | oneframe.go:22-28 | the one-frame loop over a slot that shares its backing array with the cache list; the holders left are a subset of those at the start |
| Gecs.AliasedSweepSkipsOne | oneframe.go:22-28 | sweeping a slot that aliases the cache list skips an entity; sweeping a snapshot clears all three |
| Gecs.SnapshotSweep | oneframe.go:22-28 | sweeping a snapshot removes the component from exactly the slot's entities |
| Gecs.BuiltFromTally | system.go:151-176 | when the count loop finishes or stops at an empty table, the cached list holds exactly the matching entities |
| Gecs.DestroyedFacts | entity.go:47-66 | after Destroy the entity holds nothing and is in no cached list, and every other entity's holdings and memberships are kept |
| Gecs.AgreesAfterRebuild | world.go:91-95 | after the full rebuild every entity's memberships agree with the filters of the new registry |
| Gecs.DestroyOrder | world.go:148-157 | the types of the systems that implement Destroy, in registration order: a type appears iff some registered system of that type implements Destroy |
| Gecs.TurnSaw | world.go:133-143 | what one call received: every slot is the list cached for its filter, and for a non-empty Include list it holds exactly the matching entities |
| Gecs.TurnEffect | world.go:144 | what one call did: a user system changes nothing; the one-frame system leaves no entity holding its type and keeps the holdings of the entities that did not hold it |
| Gecs.Turns | world.go:132-145 | the first n turns of a tick: turn j saw the state recorded before it and left the state recorded after it |
| Gecs.TurnsStep | world.go:132-145 | one more turn that saw the last recorded state and had its effect extends the record of the tick by one |
| Gecs.Entity.constructor | world.go:63 | a new entity has its world, its ID, no counted components and is not destroyed |
| Gecs.Entity.Components | entity.go:108-116 | the result has one entry per table, in the store's iteration order: the entity's component, or nil where it has none |
| Gecs.Entity.Has | entity.go:72-80 | true iff the entity is a key of the argument type's table; never for untyped nil |
| Gecs.Entity.GetOrReplace | entity.go:118-150 | covers untyped nil (no change), a held component under Get (returned unchanged), typed nil (only the table is created), and a pointer (stored, counted, destroyed entity resurrected, cache kept valid) |
| Gecs.Entity.Install | entity.go:123-149 | after the nil check: the table is created first, then a held value is returned or the component stored |
| Gecs.Entity.Store | entity.go:141-148 | the entity is live again, the count goes up by one, the store gets exactly the new entry, and no other entity's memberships change |
| Gecs.Entity.Resurrect | entity.go:141-144 | a destroyed entity is re-appended to the live list and marked live |
| Gecs.Entity.Attach | entity.go:146-148 | the count goes up by one, the store gets exactly the new entry, and the entity's cache membership is rebuilt |
| Gecs.Entity.Destroy | entity.go:47-66 | the entity is marked destroyed, spliced from the live list, removed from every table and every cached list; nothing else changes |
| Gecs.Entity.Delete | entity.go:86-106 | a type the entity lacks changes nothing; otherwise the entry goes, the count drops by one, and the entity is destroyed at 0, leaving every table and every cached list, or has its memberships rebuilt; other entities keep their holdings and memberships |
| Gecs.Entity.Detach | entity.go:94-99 | the entry is removed, the emptied table dropped and the count decremented |
| Gecs.Entity.Get | entity.go:68-70 | as GetOrReplace without replace: a held component is returned and nothing changes; untyped nil changes nothing; a typed nil only creates the table; a new pointer is stored as the only new entry, the count rises by one, a destroyed entity is resurrected, and other entities keep their memberships |
| Gecs.Entity.Replace | entity.go:82-84 | as GetOrReplace with replace: untyped nil changes nothing; a typed nil only creates the table; a pointer is stored over any previous value (the table becomes the old table with this entry set), the count rises by one, a destroyed entity is resurrected, and other entities keep their memberships |
| Gecs.World.constructor | world.go:28-40 | a new world has no entities, tables, systems or cached lists, and is valid |
| Gecs.World.Valid | world.go:47-55 | the world invariant: handles, store, registry, cache shape and live list agree; every entity's cached memberships agree with the filters (system.go:80-130) |
| Gecs.World.NewEntity | world.go:61-67 | the next ID goes to a fresh live entity appended to the live list; it holds nothing, and its ID exceeds every earlier ID |
| Gecs.World.RemoveSystem | world.go:98-111 | the first system of that type is spliced out; its filters and cached lists always go; validity is kept |
| Gecs.World.Unregister | world.go:99-110 | the registry keeps one system per type, and the removed type's filters are dropped |
| Gecs.World.IndexOfType | world.go:101-107 | the index of the first system of the type, or the length when there is none |
| Gecs.World.RegisterFilters | world.go:72-89 | the system is appended and its converted filters are stored under its type when it declares any |
| Gecs.World.RebuildIfStored | world.go:91-95 | when any table exists, every filter of the system gets exactly its matching entities; other systems' lists are kept |
| Gecs.World.AddSystem | world.go:69-96 | the system replaces any of its type at the end of the registry, its filters are registered, its lists are built exactly, other lists are kept, and validity holds |
| Gecs.World.Register | world.go:70-89 | the registration half of AddSystem keeps the world valid and the other systems' lists |
| Gecs.World.SystemsInit | world.go:113-129 | Init runs in order up to the first failing system, whose type and error are returned; nil iff none fails |
| Gecs.World.SystemsDestroy | world.go:148-157 | the Destroy calls are exactly DestroyOrder of the registry: the systems that implement Destroy, in registration order, each once |
| Gecs.World.Run | world.go:159-190 | fps 0 is an error; otherwise the Init error is returned, or none when every Init succeeds (the ticker panic for fps above 10^9 is under Left out) |
| Gecs.World.Slots | world.go:135-142 | one slot per filter, each the cached list; for a non-empty Include list a registered entity is in the slot iff it matches |
| Gecs.World.SystemsUpdate | world.go:131-146 | every system is called once, in registration order, with delta and one slot per filter; ghost stores and caches record the world before and after each turn, from the entry state to the final one; each call saw the cache of its own turn (TurnSaw: each slot is that turn's cached list, and for a non-empty Include list exactly the matching entities of that turn's store) and had the effect TurnEffect; validity and the registry are kept |
| Gecs.World.UpdateSystem | world.go:132-144 | one call receives the lists cached before the call, which for a non-empty Include list hold exactly the matching entities (TurnSaw); a user system changes nothing; a one-frame system leaves no entity holding its type and every other entity's holdings as they were (TurnEffect) |
| Gecs.World.TakeTurn | world.go:132-145 | one turn of the tick: after it the record of turns, the recorded store and cache, validity and the one-frame facts cover one more system |
| Gecs.World.OneFrameUpdate | oneframe.go:22-28 | every entity of every slot loses the component, and entities outside the slots keep their holdings |
| Gecs.World.DeleteEach | oneframe.go:24-26 | every entity of one slot loses the component, and others keep their holdings |
| Gecs.World.DeleteOne | oneframe.go:25 | one e.Delete(c) of the one-frame loop: the entity no longer holds the type, validity and the registry are kept, and every other entity keeps its holdings |
| Gecs.World.StoreComponent | entity.go:147 | the store gains exactly the new entry, and the entity's held set gains its type |
| Gecs.World.Refresh | entity.go:148 | the entity's memberships are rebuilt and validity restored; other entities' memberships are kept |
| Gecs.World.RemoveFromEntities | entity.go:50-55 | the live list loses the first entity with the ID |
| Gecs.World.RemoveFromTables | entity.go:57-63 | the store becomes the store without the entity, with emptied tables dropped |
| Gecs.World.RemoveComponent | entity.go:94-97 | the store loses one entry, and the table is dropped if emptied |
| Gecs.World.CreateTable | entity.go:124-128 | an empty table is added for a type that had none; validity is kept |
| Gecs.World.HeldTypes | system.go:81-89 | the types the entity holds, each once |
| Gecs.World.DeleteEntityFromSystem | system.go:63-78 | the list loses the first entry with the entity's ID, empty entries are dropped, and every other list is unchanged |
| Gecs.World.AddEntityToSystem | system.go:119-125 | the entity is appended to the list unless already present; every other list is unchanged |
| Gecs.World.DeleteEntityFromAllSystems | system.go:55-61 | the entity leaves every cached list, and nothing else changes |
| Gecs.World.DeleteEntityFromLists | system.go:56-60 | the entity leaves every list of one system; other systems are unchanged |
| Gecs.World.UpdateEntityInFilter | system.go:113-129 | the entity is in the list iff it matches the filter; every other list and every other entity's membership are unchanged |
| Gecs.World.UpdateEntityInSystem | system.go:105-130 | the entity's memberships in one system agree with its filters; other systems and entities are unchanged |
| Gecs.World.RebuildByEntity | system.go:80-131 | the entity's memberships agree with every registered filter; no other entity's membership changes |
| Gecs.World.ExcludedIDs | system.go:140-149 | the IDs of exactly the entities holding some Exclude type |
| Gecs.World.CountOne | system.go:159-174 | an excluded entity is skipped; otherwise its count rises by one, and it is cached when the count reaches the Include length |
| Gecs.World.CountHolders | system.go:158-175 | the counts after one Include table equal, per entity, the number of Include positions so far that it holds |
| Gecs.World.CountIncludes | system.go:151-176 | the Include loop ends at the end of Include or at an Include type whose table is empty; the counts then cover the Include positions before it, and the list holds the entities whose count reached the Include length |
| Gecs.World.RebuildFilter | system.go:139-177 | a filter's list becomes exactly its matching entities, including when the loop breaks at an empty Include table; other lists are kept |
| Gecs.World.RebuildBySystem | system.go:133-178 | every filter of the system gets exactly its matching entities, and other systems are kept |
| Ecs.Dec | ecs/entity.go:96 | uint64 decrement: wraps from 0 to 2^64-1 |
| Ecs.Inc | ecs/entity.go:143 | uint64 increment, modulo 2^64 |
| Ecs.FirstOfType | ecs/world.go:98-105 | the deleteIdx search: the first index of the type, or the length |
| Ecs.RemoveType | ecs/world.go:107-109 | the registry with the first system of the type spliced out, if there is one (a definition; RemoveTypeDistinct states its effect) |
| Ecs.RemoveTypeDistinct | ecs/world.go:95-113 | after the splice no system has the type; the registry stays duplicate-free, also with the new system appended |
| Ecs.DropIdView | ecs/system.go:40-50 | the ID leaves exactly the one set, and every other set is unchanged |
| Ecs.DropIdPruned | ecs/system.go:43-49 | empty sets and empty system entries are dropped, so none is left |
| Ecs.DropIdIdempotent | ecs/system.go:40-50 | deleting the same ID twice is the same as deleting it once |
| Ecs.AddIdView | ecs/system.go:99-106 | the ID joins exactly the one set, creating the entries, and every other set is unchanged |
| Ecs.AddIdPruned | ecs/system.go:99-106 | insertion leaves no empty entry |
| Ecs.DropId | ecs/system.go:40-50 | systemCacheDeleteEntityFromSystem on values: the ID leaves the set, an emptied set and then an emptied system entry are dropped (a definition; DropIdView, DropIdPruned and DropIdIdempotent state its properties) |
| Ecs.AddId | ecs/system.go:99-106 | the insertion of the per-entity rebuild on values: the missing entries are created and the ID joins the set (a definition; AddIdView and AddIdPruned state its properties) |
| Ecs.FilterStep | ecs/system.go:93-110 | one filter of the per-entity rebuild: drop on a held Exclude type, add when every Include type is held, drop otherwise (a definition; FilterStepView states its effect) |
| Ecs.FiltersFrom | ecs/system.go:90-111 | the filter loop of one system from a given filter index on (a definition; FiltersFromView states its effect) |
| Ecs.SystemsFrom | ecs/system.go:82-112 | the system loop as written: the first registered system without filters ends the rebuild (a definition; SystemsFromView and RebuildStopsAtFilterless state its effect) |
| Ecs.SystemsFromFixed | system.go:105-111 | the system loop with the root package's `continue`: a system without filters is skipped (a definition; SystemsFromFixedView states its effect) |
| Ecs.EntityView | ecs/system.go:52-113 | the specified result of the per-entity rebuild: an entity that holds nothing leaves every set; otherwise, in the systems the loop reaches, it is in a set iff it matches the filter (a definition; EntityViewOthers and EntityViewMembership state its properties) |
| Ecs.RefreshedTwice | ecs/system.go:93-110 | deciding an entity twice against the same filter is the same as once |
| Ecs.FilterStepView | ecs/system.go:93-110 | one filter step adds the ID to its set when the entity matches, removes it otherwise, and changes no other set |
| Ecs.FiltersFromView | ecs/system.go:90-111 | the filter loop decides the entity in every set of the system from fid on, and nowhere else |
| Ecs.SystemsFromView | ecs/system.go:82-112 | the system loop as written decides the entity exactly in the systems before the first one without filters |
| Ecs.SystemsFromFixedView | ecs/system.go:82-112 | with `continue`, the loop decides the entity in every registered system's sets |
| Ecs.RebuildStopsAtFilterless | ecs/system.go:85-88 | a filterless first system hides the second: a matching entity is not added as written, and is added with the fix |
| Ecs.EntityViewOthers | ecs/system.go:52-113 | the per-entity rebuild changes no other ID's memberships; an entity holding nothing is in no set |
| Ecs.EntityViewMembership | ecs/system.go:82-112 | in a reached system, the entity is in a filter's set iff it matches the filter |
| Ecs.FirstStarved | ecs/system.go:136-139 | the first filter with an Include type nobody holds; no earlier filter has one |
| Ecs.StarvedMatchesNone | ecs/system.go:137-138 | a filter with an Include table that is empty matches no ID |
| Ecs.MatchingIds | ecs/system.go:124-161 | the IDs a full rebuild caches for one filter: holders of every Include type that hold no Exclude type (a definition) |
| Ecs.BuiltView | ecs/system.go:115-164 | the as-written full rebuild's set for a filter: the matching IDs before the first starved filter, nothing from there on (a definition; BuiltViewMatches and FullRebuildStopsEarly state its properties) |
| Ecs.FullRebuildStopsEarly | ecs/system.go:137-139 | a starved first filter leaves the second filter's set empty although an entity matches it |
| Ecs.BuiltViewMatches | ecs/system.go:115-164 | every cached ID matches; before the first starved filter the set holds exactly the matching IDs (for a non-empty Include) |
| Ecs.DeleteAbsentDestroys | ecs/entity.go:89-100 | deleting a type the entity lacks from a one-component entity empties the store; at count 0 the counter wraps to 2^64-1 |
| Ecs.AfterDeleteCheckedKeepsCount | ecs/entity.go:89-100 | with a presence check the count stays an upper bound of the held types, never wraps, and an absent type changes nothing |
| Ecs.AfterDelete | ecs/entity.go:89-103 | Delete as written on the store and the counter: the entry and an emptied table go, the counter is decremented modulo 2^64, and a counter of 0 destroys the entity (a definition; DeleteAbsentDestroys states the consequence) |
| Ecs.AfterDeleteChecked | entity.go:86-106 | Delete with the root package's presence check: a type the entity lacks changes nothing (a definition; AfterDeleteCheckedKeepsCount states its property) |
| Ecs.DropIdShape | ecs/system.go:40-50 | deletion keeps the cache pruned and keyed by registered filters |
| Ecs.AddIdShape | ecs/system.go:99-106 | insertion at a registered filter keeps the cache pruned and keyed by registered filters |
| Ecs.MatchesHeldIff | ecs/system.go:93-98 | the two counts on the entity's held types decide the filter predicate |
| Ecs.RebuildViews | ecs/system.go:82-112 | the system loop's result is, set by set, the specified per-entity view |
| Ecs.TallyStep | ecs/system.go:141-150 | counting one more holder keeps every non-excluded ID's count equal to its held Include positions |
| Ecs.TallyFinish | ecs/system.go:141-161 | after a whole Include table, the counts cover one more Include position |
| Ecs.BuiltFromTally | ecs/system.go:135-161 | when the count loop finishes or stops at an empty table, the cached set is exactly the matching IDs (none when stopped) |
| Ecs.RemoveFirstIdMembers | ecs/entity.go:48-58 | the splice removes at most the first entity with the ID and keeps every other |
| Ecs.Entity.constructor | ecs/world.go:52 | a new entity has its world, its ID, count 0, and is not destroyed |
| Ecs.Entity.Has | ecs/entity.go:75-83 | true iff the ID is a key of the argument type's table; never for untyped nil |
| Ecs.Entity.Components | ecs/entity.go:105-113 | the result has one entry per table, in iteration order: the entity's component, or nil |
| Ecs.Entity.Destroy | ecs/entity.go:45-69 | destroyed is set; the first entity with the ID leaves the live list; the ID leaves every table and every cached set; the count is kept |
| Ecs.Entity.GetOrReplace | ecs/entity.go:115-147 | covers untyped nil, a held value under Get, typed nil (only the table is created), and a pointer (stored, counted modulo 2^64, resurrected, memberships as specified) |
| Ecs.Entity.Store | ecs/entity.go:138-145 | resurrects, counts modulo 2^64, stores exactly the new entry, and rebuilds the entity's sets as specified |
| Ecs.Entity.Delete | ecs/entity.go:89-103 | store and count follow AfterDelete (no presence check); destroyed when it already was or when the count reads 0; otherwise the sets are rebuilt as specified |
| Ecs.Entity.Get | ecs/entity.go:71-73 | as GetOrReplace without replace: a held value is returned and nothing changes; untyped nil changes nothing; a typed nil only creates the table; a new pointer is stored, the count rises by one modulo 2^64, the entity is resurrected, and every cached set becomes the per-entity view (EntityView) of the new store |
| Ecs.Entity.Replace | ecs/entity.go:85-87 | as GetOrReplace with replace: untyped nil changes nothing; a typed nil only creates the table; a pointer is stored over any previous value, the count rises by one modulo 2^64, the entity is resurrected, and every cached set becomes the per-entity view (EntityView) of the new store |
| Ecs.World.constructor | ecs/world.go:21-31 | a new world is empty and valid |
| Ecs.World.NewEntity | ecs/world.go:50-56 | the next ID goes to a fresh live entity appended to the live list; it holds nothing |
| Ecs.World.Entities | ecs/world.go:58-60 | returns the live list; each entity belongs to this world with an ID handed out |
| Ecs.World.Systems | ecs/world.go:62-64 | returns the registry, one system per type |
| Ecs.World.IndexOfType | ecs/world.go:98-105 | the deleteIdx search computes FirstOfType |
| Ecs.World.RemoveSystem | ecs/world.go:95-113 | the first system of the type is spliced out; the type's filters and cached sets always go |
| Ecs.World.AddSystem | ecs/world.go:66-93 | the system replaces any of its type at the end; other systems' sets are kept; its sets are the full rebuild's, or empty when the store has no table |
| Ecs.World.Register | ecs/world.go:67-86 | the system is appended after removal, with its converted filters when it declares any; its sets start empty |
| Ecs.World.Update | ecs/world.go:115-130 | every system is called once in order with dt and one slot per filter, each its cached set |
| Ecs.World.Slots | ecs/world.go:119-126 | one slot per filter: the cached set, or empty when there is none |
| Ecs.World.RemoveFromEntities | ecs/entity.go:48-58 | the live list loses the first entity with the ID |
| Ecs.World.RemoveFromTables | ecs/entity.go:60-66 | the store becomes the store without the ID, with emptied tables dropped |
| Ecs.World.RemoveComponent | ecs/entity.go:91-94 | the store loses one entry (if any), and the table is dropped if emptied |
| Ecs.World.CreateTable | ecs/entity.go:121-125 | an empty table is added for a type that had none |
| Ecs.World.StoreComponent | ecs/entity.go:144 | the store gains exactly the new entry |
| Ecs.World.DeleteEntityFromSystem | ecs/system.go:40-50 | the cache becomes DropId of the old cache |
| Ecs.World.AddIdToSystem | ecs/system.go:99-106 | the cache becomes AddId of the old cache |
| Ecs.World.DeleteEntityFromAllSystems | ecs/system.go:32-38 | every cached set loses the ID and nothing else changes |
| Ecs.World.DeleteEntityFromLists | ecs/system.go:34-36 | every set of one system loses the ID; other systems are unchanged |
| Ecs.World.HeldTypes | ecs/system.go:53-61 | the types the entity holds, each once |
| Ecs.World.RebuildByEntity | ecs/system.go:52-113 | every set becomes the specified per-entity view: removal everywhere for an entity holding nothing, else the as-written system loop |
| Ecs.World.RefreshSystem | ecs/system.go:90-111 | the filter loop of one system, as FiltersFrom |
| Ecs.World.RefreshFilter | ecs/system.go:93-110 | one filter decision, as FilterStep |
| Ecs.World.ExcludedIDs | ecs/system.go:124-133 | the IDs holding some Exclude type |
| Ecs.World.CountOne | ecs/system.go:142-160 | an excluded ID is skipped; otherwise its count rises, and it is cached when the count reaches the Include length |
| Ecs.World.CountHolders | ecs/system.go:141-161 | after one Include table, each ID's count is its number of held Include positions so far |
| Ecs.World.RebuildFilter | ecs/system.go:121-162 | reports a starved filter; the filter's set becomes exactly the matching IDs; other sets are kept |
| Ecs.World.RebuildBySystem | ecs/system.go:115-164 | every filter's set becomes BuiltView: exact up to the first starved filter, empty after it |
| Geometry.Half | examples/sdl2/ecs/types.go:64 | Go's `/2`: truncates toward zero |
| Geometry.RectEmpty | examples/sdl2/ecs/types.go:18-20 | Rect.Empty: nil, or a width or height that is not positive (a definition; RectEmptyIffNoPoint states what it means) |
| Geometry.HasIntersection | examples/sdl2/ecs/types.go:22-36 | Rect.HasIntersection: both non-nil and non-empty, and neither lies wholly beyond an edge of the other (a definition; HasIntersectionIffCommonPoint states what it means) |
| Geometry.CircleEmpty | examples/sdl2/ecs/types.go:43-45 | Circle.Empty: a radius that is not positive (a definition) |
| Geometry.HasIntersectionWithRect | examples/sdl2/ecs/types.go:48-88 | the circle-rectangle test as written: nil or empty inputs fail, then the distance tests on truncated half extents and the corner test (a definition; HasIntersectionWithRectIffMeetsBox states what it means) |
| Geometry.CircleMeetsBox | examples/sdl2/ecs/types.go:64-87 | the reference definition: the squared distance from the centre to the nearest point of the box centred on the truncated centre, with truncated half extents, is at most the squared radius |
| Geometry.RectEmptyIffNoPoint | examples/sdl2/ecs/types.go:18-20 | a non-nil rectangle is empty iff it covers no lattice point |
| Geometry.HasIntersectionIffCommonPoint | examples/sdl2/ecs/types.go:22-36 | two rectangles intersect iff some point lies in both (half-open bounds) |
| Geometry.HasIntersectionNilAndSymmetric | examples/sdl2/ecs/types.go:22-31 | a nil or empty rectangle intersects nothing, and intersection is symmetric |
| Geometry.SharedEdgeNoIntersection | examples/sdl2/ecs/types.go:31 | rectangles that only share an edge do not intersect |
| Geometry.HasIntersectionMoved | examples/sdl2/ecs/types.go:31 | moving both rectangles by the same vector keeps the answer |
| Geometry.HasIntersectionWithRectIffMeetsBox | examples/sdl2/ecs/types.go:48-88 | for every input, the test with its early returns equals "non-nil, non-empty, and the nearest point of the box is within the radius" |
| Geometry.CentreInsideIntersects | examples/sdl2/ecs/types.go:64-79 | a non-empty circle whose centre is in the rectangle intersects it |
| Geometry.ToRect | examples/sdl2/ecs/components.go:52-67 | nil iff either input is nil; the size is the collider's |
| Geometry.ToRectCentred | examples/sdl2/ecs/components.go:57-66 | the rectangle is centred (with truncated halves) on offset + position, which it covers when non-empty |
| Geometry.ToRectMoves | examples/sdl2/ecs/components.go:57-61 | moving the position moves the rectangle by the same vector |
| Geometry.ToCircle | examples/sdl2/ecs/components.go:74-87 | nil iff either input is nil; the radius is the collider's |
| Geometry.SameOffsetCollidersMeet | examples/sdl2/ecs/components.go:74-87 | a circle collider and a non-empty box collider with the same offset, at the same position, collide |

## Left out

- Reflection: `reflect.TypeOf` becomes a type token (`RType`). Component values become `Arg`: untyped nil, a typed nil pointer, or a pointer carrying its type and an address.
- Map iteration order: the loops pick keys nondeterministically (`:|`). `Components` returns the order as a ghost out-parameter.
- World.Run tick loop (root): the ticker, the `done` channel, `Stop`, and the time between ticks are left out. `Gecs.World.Run` covers only the fps check, `SystemsInit`, and the return value. For fps above 10^9 the tick interval `time.Second/time.Duration(fps)` is 0, and `time.NewTicker` panics after the Inits have run; the model returns the Init result there instead.
- Ecs World.Run and World.Stop: a sleep loop over the wall clock, and a bool written from another goroutine. Both are left out.
- Concurrency: none of the code is synchronised, and the model is sequential.
- The entity counter (`entityID`, uint64) is unbounded here; wrapping after 2^64 entities is not modelled.
- Gecs.Entity.Delete: `componentCount` is a `nat`. The presence check plus the invariant "count ≥ number of held types" rule out a wrap. The ecs package, which has no check, models uint64 wrap-around explicitly (`Ecs.Dec`, `Ecs.Inc`).
- Slot aliasing (root): `SystemsUpdate` passes the cache's own slices, and the model passes snapshots. The consequence is logged under Findings, with the aliased sweep modelled on values (`Gecs.AliasedSweep`).
- User systems' `Update`, `Init` and `Destroy` bodies are outside the model. A user `Update` is recorded as a call with its slots. Init outcomes are part of the system value.
- Gecs.World.UpdateSystem: a user system's `Update` is modelled as a call that changes neither the store nor the cache (TurnEffect). In the source a user `Update` may add, replace or delete components.
- Gecs.World.SystemsUpdate: because of that, in the model every later system of a tick sees the world the earlier ones left, and a user turn leaves it as it found it. The end-of-tick clause "no entity holds a one-frame system's type" also follows from it. In the source that clause holds only when the one-frame system is registered after every system that could add its type, which is how `NewOneFrame` is meant to be used (oneframe.go:10-11). The one-frame turn's own effect (TurnEffect) does not depend on the order.
- Ecs.World.Update: every slot is read from the cache as it was on entry. That matches the source only while no user `Update` changes the world, which the model assumes for every user system.
- The `time.Duration` delta (root) and the `float32` dt (ecs) are plain `int` values. They are passed through unchanged.
- `oneFrame.Update` is declared with a `float32` delta while `System.Update` takes a `time.Duration`. Its loop is modelled as the system's update.
- The ecs package does not type-check. Its tables are keyed by `Entity` while the cache code uses `e.ID()`, and `make(map[EntityID]struct{})` is stored where `[]Entity` is declared. The model keys both by entity ID and caches sets of IDs.
- Entities from another world are not modelled: every entity a method receives belongs to the world it is called on.
- Go `int` overflow in the geometry code is not modelled; integers are unbounded.
- Geometry.CircleEmpty: defined on a circle value. Called on a nil `*Circle`, the Go method dereferences nil and panics.
- SDL event polling, rendering, `math.Sqrt` and the float velocity of the example game (`systems.go`, `helpers.go`, `ecs.go`, `main.go`) are not part of this model.
- A filter with an empty Include list: the per-entity rebuild adds every live entity that holds no Exclude type, because 0 == len(Include). The full rebuild adds none. The model follows the code, not the reading that such a filter matches nothing. `World.Valid()` states the cache invariant only for filters with a non-empty Include list.

## Findings

| source | as written | input that shows it | evidently intended | confidence | as-written member | corrected member |
|---|---|---|---|---|---|---|
| entity.go:108-116 | `Components` appends `ec[e]` for every table, so tables without the entity contribute nil entries (the ecs copy, ecs/entity.go:105-113, does the same) | entity 1 holds only a type-1 component and entity 2 a type-2 component: entity 1's listing is [its component, nil] | only the entity's own components, one per held type | high (not executed) | Filters.ComponentsListsOtherTables | Filters.OwnComponentsCount |
| oneframe.go:22-28 | the one-frame loop ranges over a slot that shares its backing array with the cache list; each Delete splices that list in place, shifting the unvisited entries left | a cached list [1, 2, 3] whose three entities all hold the one-frame component: entity 2 is skipped and keeps it | every entity handed over loses the component | medium (not executed) | Gecs.AliasedSweepSkipsOne | Gecs.World.OneFrameUpdate |
| ecs/system.go:86-88 | the per-entity rebuild returns at the first system without filters, so no later system is updated | systems [1 without filters, 2 with Include = [type 5]], entity 7 holding type 5: entity 7 is not added to system 2's set | skip that system and go on (`continue`, as in the root package) | high (not executed) | Ecs.RebuildStopsAtFilterless | Ecs.SystemsFromFixedView |
| ecs/system.go:137-139 | the full rebuild returns at an Include type nobody holds, leaving every later filter unbuilt | filters [Include = [type 1], Include = [type 2]], store with only entity 1 holding type 2: filter 1's set stays empty though entity 1 matches | stop only this filter (`break`, as in the root package) | high (not executed) | Ecs.FullRebuildStopsEarly | Gecs.World.RebuildBySystem |
| ecs/entity.go:89-100 | `Delete` decrements `componentCount` without checking that the entity held the type | an entity with one type-1 component deletes type 2: its count reaches 0, and it is destroyed with its component; from count 0 the counter wraps to 2^64-1 | a type the entity lacks changes nothing (as in the root package) | high (not executed) | Ecs.DeleteAbsentDestroys | Ecs.AfterDeleteCheckedKeepsCount |
