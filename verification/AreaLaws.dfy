/** The list of areas refines a finite map, over any sequence of requests, and what is sent
    is what is stored. */
module AreaLaws {
  import opened AreaStore
  import opened Areas
  import opened Bytes
  import opened Wrappers

  // ---- The map a list stands for ----------------------------------------------------

  predicate UniqueIds(list: seq<Area>) {
    forall i, j :: 0 <= i < j < |list| ==> list[i].id != list[j].id
  }

  function MapOf(list: seq<Area>): map<DWord, Area> {
    if list == [] then map[] else MapOf(list[1..])[list[0].id := list[0]]
  }

  /** The list without the areas whose id is in ids; the others keep their order. */
  function Without(list: seq<Area>, ids: set<DWord>): seq<Area> {
    if list == [] then []
    else (if list[0].id in ids then [] else [list[0]]) + Without(list[1..], ids)
  }

  lemma {:induction false} MapHasIds(list: seq<Area>)
    ensures forall id :: id in MapOf(list) <==> HasId(list, id)
    decreases |list|
  {
    if list != [] {
      MapHasIds(list[1..]);
      forall id
        ensures HasId(list, id) <==> id == list[0].id || HasId(list[1..], id)
      {
        HasIdFront(list, id);
      }
    }
  }

  lemma HasIdFront(list: seq<Area>, id: DWord)
    requires list != []
    ensures HasId(list, id) <==> id == list[0].id || HasId(list[1..], id)
  {
  }

  /** What the map refinement needs of one step on a list. */
  ghost predicate Stands(list: seq<Area>, m: map<DWord, Area>) {
    UniqueIds(list) && MapOf(list) == m
  }

  lemma UniqueFront(list: seq<Area>)
    requires list != []
    ensures UniqueIds(list) <==> UniqueIds(list[1..]) && !HasId(list[1..], list[0].id)
  {
  }

  lemma {:induction false} AppendStands(list: seq<Area>, a: Area)
    ensures UniqueIds(list + [a]) <==> UniqueIds(list) && !HasId(list, a.id)
    ensures !HasId(list, a.id) ==> MapOf(list + [a]) == MapOf(list)[a.id := a]
    decreases |list|
  {
    var all := list + [a];
    if list == [] {
      assert all[1..] == [];
    } else {
      assert all[1..] == list[1..] + [a] && all[0] == list[0];
      AppendStands(list[1..], a);
      UniqueFront(all);
      UniqueFront(list);
      HasIdFront(list, a.id);
      HasIdLast(list[1..], a, list[0].id);
    }
  }

  lemma HasIdLast(list: seq<Area>, a: Area, id: DWord)
    ensures HasId(list + [a], id) <==> HasId(list, id) || a.id == id
  {
    var all := list + [a];
    assert all[|list|] == a;
    assert forall i :: 0 <= i < |list| ==> all[i] == list[i];
    if HasId(list, id) {
      var i :| 0 <= i < |list| && list[i].id == id;
      assert all[i].id == id;
    }
  }

  lemma {:induction false} RemoveStands(list: seq<Area>, id: DWord)
    requires UniqueIds(list)
    ensures UniqueIds(RemoveFirst(list, id)) && MapOf(RemoveFirst(list, id)) == MapOf(list) - {id}
    ensures forall other :: HasId(RemoveFirst(list, id), other) <==> other != id && HasId(list, other)
    decreases |list|
  {
    hide MapOf, HasId, UniqueIds;
    if list == [] {
      NoIds(id);
    } else {
      var rest := list[1..];
      UniqueFront(list);
      if list[0].id == id {
        FrontRemoved(list);
      } else {
        RemoveStands(rest, id);
        FrontStays(list, id, RemoveFirst(rest, id));
      }
    }
  }

  lemma NoIds(id: DWord)
    ensures MapOf([]) == map[] && UniqueIds([]) && forall other :: !HasId([], other)
  {
  }

  lemma FrontRemoved(list: seq<Area>)
    requires list != [] && !HasId(list[1..], list[0].id)
    ensures MapOf(list[1..]) == MapOf(list) - {list[0].id}
    ensures forall other :: HasId(list[1..], other) <==> other != list[0].id && HasId(list, other)
  {
    hide HasId;
    MapHasIds(list[1..]);
    forall other
      ensures HasId(list[1..], other) <==> other != list[0].id && HasId(list, other)
    {
      HasIdFront(list, other);
    }
  }

  lemma FrontStays(list: seq<Area>, id: DWord, rest: seq<Area>)
    requires list != [] && list[0].id != id && UniqueIds(list)
    requires UniqueIds(rest) && MapOf(rest) == MapOf(list[1..]) - {id}
    requires forall other :: HasId(rest, other) <==> other != id && HasId(list[1..], other)
    ensures var r := [list[0]] + rest;
            UniqueIds(r) && MapOf(r) == MapOf(list) - {id}
            && forall other :: HasId(r, other) <==> other != id && HasId(list, other)
  {
    hide HasId, UniqueIds;
    var r := [list[0]] + rest;
    assert r[1..] == rest;
    UniqueFront(r);
    UniqueFront(list);
    forall other
      ensures HasId(r, other) <==> other != id && HasId(list, other)
    {
      HasIdFront(list, other);
      HasIdFront(r, other);
    }
  }

  lemma {:induction false} RemoveKeepsOrder(list: seq<Area>, id: DWord, ids: set<DWord>)
    requires id in ids
    ensures Without(RemoveFirst(list, id), ids) == Without(list, ids)
    decreases |list|
  {
    if list != [] {
      RemoveKeepsOrder(list[1..], id, ids);
      if list[0].id != id {
        assert RemoveFirst(list, id)[1..] == RemoveFirst(list[1..], id);
      }
    }
  }

  lemma {:induction false} AppendKeepsOrder(list: seq<Area>, a: Area, ids: set<DWord>)
    requires a.id in ids
    ensures Without(list + [a], ids) == Without(list, ids)
    decreases |list|
  {
    if list == [] {
      assert (list + [a])[1..] == [];
    } else {
      assert (list + [a])[1..] == list[1..] + [a];
      AppendKeepsOrder(list[1..], a, ids);
    }
  }

  // ---- One area ---------------------------------------------------------------------

  function PutMap(m: map<DWord, Area>, operation: Byte, a: Area): map<DWord, Area> {
    if operation == APPEND || a.id in m then m[a.id := a] else m
  }

  /** The ids stay unique exactly when no id is appended that is already there, and then the
      list does what the map does. */
  lemma PutStands(list: seq<Area>, operation: Byte, a: Area)
    requires UniqueIds(list)
    ensures UniqueIds(Put(list, operation, a)) <==> operation != APPEND || !HasId(list, a.id)
    ensures operation != APPEND || !HasId(list, a.id) ==>
              MapOf(Put(list, operation, a)) == PutMap(MapOf(list), operation, a)
    ensures forall ids: set<DWord> :: a.id in ids ==> Without(Put(list, operation, a), ids) == Without(list, ids)
    ensures operation == APPEND || HasId(list, a.id) ==> Put(list, operation, a)[|Put(list, operation, a)| - 1] == a
    ensures operation != APPEND && !HasId(list, a.id) ==> Put(list, operation, a) == list
  {
    hide MapOf, UniqueIds, RemoveFirst, HasId;
    MapHasIds(list);
    AppendStands(list, a);
    if operation != APPEND && HasId(list, a.id) {
      RemoveStands(list, a.id);
      AppendStands(RemoveFirst(list, a.id), a);
      assert (MapOf(list) - {a.id})[a.id := a] == MapOf(list)[a.id := a];
    }
    forall ids: set<DWord> | a.id in ids
      ensures Without(Put(list, operation, a), ids) == Without(list, ids)
    {
      AppendKeepsOrder(list, a, ids);
      RemoveKeepsOrder(list, a.id, ids);
      AppendKeepsOrder(RemoveFirst(list, a.id), a, ids);
    }
  }

  // ---- Requests ---------------------------------------------------------------------

  datatype Request = Set(operation: Byte, areas: seq<Area>) | Delete(ids: seq<DWord>)

  function Serve(list: Option<seq<Area>>, r: Request): Option<seq<Area>> {
    match r
    case Set(operation, areas) => AfterSet(list, operation, areas)
    case Delete(ids) => AfterDelete(list, ids)
  }

  function ServeAll(list: Option<seq<Area>>, rs: seq<Request>): Option<seq<Area>>
    decreases |rs|
  {
    if rs == [] then list else ServeAll(Serve(list, rs[0]), rs[1..])
  }

  function PutAllMap(m: map<DWord, Area>, operation: Byte, areas: seq<Area>): map<DWord, Area>
    decreases |areas|
  {
    if areas == [] then m else PutAllMap(PutMap(m, operation, areas[0]), operation, areas[1..])
  }

  /** Deleting all for no ids, and else the named ones. */
  function ServeMap(m: map<DWord, Area>, r: Request): map<DWord, Area> {
    match r
    case Set(operation, areas) => PutAllMap(m, operation, areas)
    case Delete(ids) => if ids == [] then map[] else m - (set id | id in ids)
  }

  function ServeAllMap(m: map<DWord, Area>, rs: seq<Request>): map<DWord, Area>
    decreases |rs|
  {
    if rs == [] then m else ServeAllMap(ServeMap(m, rs[0]), rs[1..])
  }

  /** No area is appended whose id is there already. */
  predicate FreshPuts(m: map<DWord, Area>, operation: Byte, areas: seq<Area>)
    decreases |areas|
  {
    areas == [] || ((operation != APPEND || areas[0].id !in m)
                    && FreshPuts(PutMap(m, operation, areas[0]), operation, areas[1..]))
  }

  predicate FreshRun(m: map<DWord, Area>, rs: seq<Request>)
    decreases |rs|
  {
    rs == [] || ((rs[0].Set? ==> FreshPuts(m, rs[0].operation, rs[0].areas)) && FreshRun(ServeMap(m, rs[0]), rs[1..]))
  }

  /** The ids a request names; clearing the list touches every area. */
  predicate Touches(r: Request, id: DWord) {
    match r
    case Set(_, areas) => exists i :: 0 <= i < |areas| && areas[i].id == id
    case Delete(ids) => ids == [] || id in ids
  }

  lemma {:induction false} PutAllStands(list: seq<Area>, operation: Byte, areas: seq<Area>, ids: set<DWord>)
    requires UniqueIds(list) && FreshPuts(MapOf(list), operation, areas)
    requires forall i :: 0 <= i < |areas| ==> areas[i].id in ids
    ensures Stands(PutAll(list, operation, areas), PutAllMap(MapOf(list), operation, areas))
    ensures Without(PutAll(list, operation, areas), ids) == Without(list, ids)
    decreases |areas|
  {
    hide MapOf, UniqueIds, Put, PutMap, Without, HasId;
    if areas != [] {
      MapHasIds(list);
      PutStands(list, operation, areas[0]);
      PutAllStands(Put(list, operation, areas[0]), operation, areas[1..], ids);
    }
  }

  lemma {:induction false} RemoveAllStands(list: seq<Area>, named: seq<DWord>, ids: set<DWord>)
    requires UniqueIds(list) && forall i :: 0 <= i < |named| ==> named[i] in ids
    ensures Stands(RemoveAll(list, named), MapOf(list) - (set id | id in named))
    ensures Without(RemoveAll(list, named), ids) == Without(list, ids)
    decreases |named|
  {
    hide MapOf, UniqueIds, RemoveFirst, Without, HasId;
    if named == [] {
      assert MapOf(list) - (set id | id in named) == MapOf(list);
    } else {
      RemoveStands(list, named[0]);
      RemoveKeepsOrder(list, named[0], ids);
      RemoveAllStands(RemoveFirst(list, named[0]), named[1..], ids);
      assert (set id | id in named) == {named[0]} + (set id | id in named[1..]);
      assert MapOf(list) - {named[0]} - (set id | id in named[1..]) == MapOf(list) - (set id | id in named);
    }
  }

  /** One request: the list still stands for the map, areas no one named keep their order,
      and a list emptied by a deletion becomes null. */
  lemma ServeStands(list: Option<seq<Area>>, r: Request, ids: set<DWord>)
    requires UniqueIds(OrEmpty(list))
    requires r.Set? ==> FreshPuts(MapOf(OrEmpty(list)), r.operation, r.areas)
    requires r == Delete([]) || forall id :: Touches(r, id) ==> id in ids
    ensures Stands(OrEmpty(Serve(list, r)), ServeMap(MapOf(OrEmpty(list)), r))
    ensures r != Delete([]) ==> Without(OrEmpty(Serve(list, r)), ids) == Without(OrEmpty(list), ids)
    ensures r.Delete? ==> Serve(list, r) != Some([])
  {
    hide Put, PutMap, RemoveFirst, Without, HasId, PutAll, RemoveAll, UniqueIds, MapOf;
    Empty();
    match r
    case Set(operation, areas) =>
      forall i | 0 <= i < |areas|
        ensures areas[i].id in ids
      {
        assert Touches(r, areas[i].id);
      }
      PutAllStands(OrEmpty(list), operation, areas, ids);
      PutNothing(OrEmpty(list), operation, areas);
    case Delete(named) =>
      if named != [] {
        assert forall i :: 0 <= i < |named| ==> Touches(r, named[i]);
        RemoveAllStands(OrEmpty(list), named, ids);
        if list.None? {
          assert MapOf([]) - (set id | id in named) == map[];
        }
      }
  }

  lemma Empty()
    ensures Stands([], map[]) && MapOf([]) == map[]
  {
  }

  lemma PutNothing(list: seq<Area>, operation: Byte, areas: seq<Area>)
    ensures areas == [] ==> PutAll(list, operation, areas) == list
  {
  }

  /** Over every run of requests that appends only fresh ids, the ids stay unique, the list
      stands for the map that the same requests make, and areas that no request named keep
      their relative order. */
  lemma {:induction false} StoreRefinesMap(list: Option<seq<Area>>, rs: seq<Request>, ids: set<DWord>)
    requires UniqueIds(OrEmpty(list)) && FreshRun(MapOf(OrEmpty(list)), rs)
    requires forall i, id :: 0 <= i < |rs| && rs[i] != Delete([]) && Touches(rs[i], id) ==> id in ids
    ensures Stands(OrEmpty(ServeAll(list, rs)), ServeAllMap(MapOf(OrEmpty(list)), rs))
    ensures (forall i :: 0 <= i < |rs| ==> rs[i] != Delete([])) ==>
              Without(OrEmpty(ServeAll(list, rs)), ids) == Without(OrEmpty(list), ids)
    decreases |rs|
  {
    hide Serve, ServeMap, FreshPuts, Without, UniqueIds, MapOf, OrEmpty, Touches;
    if rs != [] {
      assert rs[0] != Delete([]) ==> forall id :: Touches(rs[0], id) ==> id in ids;
      ServeStands(list, rs[0], ids);
      assert forall i :: 0 <= i < |rs| - 1 ==> rs[1..][i] == rs[i + 1];
      StoreRefinesMap(Serve(list, rs[0]), rs[1..], ids);
    }
  }
}
