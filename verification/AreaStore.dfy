/** The terminal's list of the areas or routes of one kind: set requests, deletions, and
    the finite map the list stands for. */
module AreaStore {
  import opened AreaDecoder
  import opened Areas
  import opened Bytes
  import opened IdRequest
  import opened Messages
  import opened Wrappers

  const APPEND: Byte := 1
  const SUCCESS: Byte := 0
  const FAILURE: Byte := 1

  // ---- What a request does to the list ----------------------------------------------

  predicate HasId(list: seq<Area>, id: DWord) {
    exists i :: 0 <= i < |list| && list[i].id == id
  }

  function RemoveFirst(list: seq<Area>, id: DWord): (r: seq<Area>)
    ensures |r| <= |list|
  {
    if list == [] then [] else if list[0].id == id then list[1..] else [list[0]] + RemoveFirst(list[1..], id)
  }

  /** Appending adds at the end; any other operation replaces the first area with the id and
      moves it to the end, or does nothing when there is none. */
  function Put(list: seq<Area>, operation: Byte, a: Area): seq<Area> {
    if operation == APPEND then list + [a]
    else if HasId(list, a.id) then RemoveFirst(list, a.id) + [a]
    else list
  }

  function PutAll(list: seq<Area>, operation: Byte, areas: seq<Area>): seq<Area>
    decreases |areas|
  {
    if areas == [] then list else PutAll(Put(list, operation, areas[0]), operation, areas[1..])
  }

  function RemoveAll(list: seq<Area>, ids: seq<DWord>): seq<Area>
    decreases |ids|
  {
    if ids == [] then list else RemoveAll(RemoveFirst(list, ids[0]), ids[1..])
  }

  function OrEmpty(list: Option<seq<Area>>): seq<Area> {
    if list.Some? then list.value else []
  }

  /** The list is made by the first area of a request, whether or not that area is stored. */
  function AfterSet(list: Option<seq<Area>>, operation: Byte, areas: seq<Area>): Option<seq<Area>> {
    if areas == [] then list else Some(PutAll(OrEmpty(list), operation, areas))
  }

  /** A deletion without ids clears the list, and an empty list is given up. */
  function AfterDelete(list: Option<seq<Area>>, ids: seq<DWord>): Option<seq<Area>> {
    if list.None? then None
    else
      var left := if ids == [] then [] else RemoveAll(list.value, ids);
      if left == [] then None else Some(left)
  }

  /** When there is a list at all: a set request makes one with its first area, also if that is
      not stored, and a deletion gives an empty one up. */
  lemma ListsMadeAndGivenUp(list: seq<Area>, a: Area, ids: seq<DWord>)
    ensures AfterSet(None, 1, []) == None && AfterSet(Some(list), 1, []) == Some(list)
    ensures AfterSet(None, 1, [a]) == Some([a]) && AfterSet(None, 2, [a]) == Some([])
    ensures AfterDelete(None, ids) == None && AfterDelete(Some(list), []) == None
    ensures AfterDelete(Some([a]), [a.id]) == None
    ensures list != [] && list[0].id != a.id ==> AfterDelete(Some(list), [a.id]) == Some(RemoveFirst(list, a.id))
  {
    One(list, 1, a);
    One([], 1, a);
    One([], 2, a);
    OneRemoved(list, a.id);
    OneRemoved([a], a.id);
  }

  lemma One(list: seq<Area>, operation: Byte, a: Area)
    ensures PutAll(list, operation, [a]) == Put(list, operation, a)
    ensures Put([], 1, a) == [a] && Put([], 2, a) == []
  {
    assert [a][1..] == [];
    assert PutAll(Put(list, operation, a), operation, []) == Put(list, operation, a);
  }

  lemma OneRemoved(list: seq<Area>, id: DWord)
    ensures RemoveAll(list, [id]) == RemoveFirst(list, id)
    ensures list != [] && list[0].id != id ==> RemoveFirst(list, id) != []
    ensures |list| == 1 && list[0].id == id ==> RemoveFirst(list, id) == []
  {
    assert [id][1..] == [];
    assert RemoveAll(RemoveFirst(list, id), []) == RemoveFirst(list, id);
  }

  /** Polygons and routes are looked for two bytes late: the two header bytes are read twice. */
  function HeaderAt(kind: Kind, body: nat): nat {
    if kind.Polygons? || kind.Routes? then body + 2 else body
  }

  /** The list and the result after a set request, or a read outside the buffer. */
  datatype Dealt = Dealt(list: Option<seq<Area>>, result: Byte) | Outside

  /** The request whose header lies at h. */
  function Deal(kind: Kind, list: Option<seq<Area>>, b: seq<Byte>, h: nat): Dealt
    requires h + 2 <= |b|
  {
    var areas := ReadAreas(kind, b, h + 2, b[h + 1]);
    if areas.None? then Outside
    else Dealt.Dealt(AfterSet(list, b[h], areas.value), if b[h + 1] > 0 then SUCCESS else FAILURE)
  }

  // ---- The loops --------------------------------------------------------------------

  class AreaList {
    const kind: Kind
    var list: Option<seq<Area>>  // a pointer to the list, or null

    constructor (kind: Kind)
      ensures this.kind == kind && list == Some([])
    {
      this.kind := kind;
      list := Some([]);
    }

    /** The DealSet request; fault when an area leaves the buffer. */
    method DealSet(b: seq<Byte>, body: nat) returns (result: Byte, fault: bool)
      requires HeaderAt(kind, body) + 2 <= |b|
      modifies this
      ensures var d := Deal(kind, old(list), b, HeaderAt(kind, body));
              (fault <==> d.Outside?) && (!fault ==> d == Dealt.Dealt(list, result))
    {
      hide ReadArea, AreaEnd, Put;
      var data: nat := body;
      if kind.Polygons? || kind.Routes? {
        data := data + 2;
      }
      var operation: Byte, count: Byte := b[data], b[data + 1];
      data := data + 2;
      ghost var h := HeaderAt(kind, body);
      ghost var done: seq<Area> := [];
      result, fault := FAILURE, false;
      for i := 0 to count
        invariant list == AfterSet(old(list), operation, done)
        invariant |done| == i
        invariant Followed(done, ReadAreas(kind, b, data, count - i)) == ReadAreas(kind, b, h + 2, count)
      {
        var area, next := DecodeArea(kind, b, data);
        if area.None? {
          return FAILURE, true;
        }
        OneMore(done, area.value, ReadAreas(kind, b, next, count - i - 1));
        PutLast(OrEmpty(old(list)), operation, done, area.value);
        if list == None {
          list := Some([]);
        }
        Store(operation, area.value);
        done := done + [area.value];
        data := next;
      }
      assert done + [] == done;
      result := if count > 0 then SUCCESS else FAILURE;
    }

    /** One area: append, or find its predecessor, erase it and push to the back. */
    method Store(operation: Byte, a: Area)
      requires list.Some?
      modifies this
      ensures list == Some(Put(old(list.value), operation, a))
    {
      if operation == APPEND {
        list := Some(list.value + [a]);
      } else {
        var found := Erase(a.id);
        if found {
          list := Some(list.value + [a]);
        }
      }
    }

    /** The search both requests use: the first area with the id is erased. */
    method Erase(id: DWord) returns (found: bool)
      requires list.Some?
      modifies this
      ensures list == Some(RemoveFirst(old(list.value), id))
      ensures found == HasId(old(list.value), id)
      ensures !found ==> list == old(list)
    {
      var it := 0;
      found := false;
      while it < |list.value|
        invariant list == old(list) && it <= |list.value|
        invariant forall k :: 0 <= k < it ==> list.value[k].id != id
      {
        if list.value[it].id == id {
          ErasedAt(list.value, it, id);
          list := Some(list.value[..it] + list.value[it + 1..]);
          return true;
        }
        it := it + 1;
      }
      NotThere(list.value, id);
    }

    /** The terminal's branch for a deletion: a missing list is a failure, which the branches
        for polygons and routes do not report. */
    method DealDelete(b: seq<Byte>, body: nat) returns (result: Byte)
      requires body + 1 + 4 * 255 <= |b|
      modifies this
      ensures list == AfterDelete(old(list), IdsIn(b, body + 1, b[body]))
      ensures result == if old(list).None? && (kind.Circles? || kind.Rectangles?) then 1 else 0
    {
      result := SUCCESS;
      if list.None? {
        if kind.Circles? || kind.Rectangles? {
          result := FAILURE;
        }
        return;
      }
      DeleteFromSet(b, body);
    }

    /** DeleteAreaRouteFromSet */
    method DeleteFromSet(b: seq<Byte>, body: nat)
      requires list.Some? && body + 1 + 4 * 255 <= |b|
      modifies this
      ensures list == AfterDelete(old(list), IdsIn(b, body + 1, b[body]))
    {
      hide RemoveFirst, DWordAt;
      var count: Byte := b[body];
      ghost var ids := IdsIn(b, body + 1, count);
      if count == 0 {
        list := Some([]);
      } else {
        assert ids[0..] == ids;
        for i := 0 to count
          invariant list.Some? && RemoveAll(list.value, ids[i..]) == RemoveAll(old(list.value), ids)
        {
          var id: DWord := DWordAt(b, body + 1 + 4 * i);
          assert ids[i..][0] == id && ids[i..][1..] == ids[i + 1..];
          var _ := Erase(id);
        }
        assert ids[count as int..] == [];
      }
      if list.value == [] {
        list := None;
      }
    }
  }

  lemma {:induction false} ErasedAt(list: seq<Area>, it: nat, id: DWord)
    requires it < |list| && list[it].id == id && forall k :: 0 <= k < it ==> list[k].id != id
    ensures RemoveFirst(list, id) == list[..it] + list[it + 1..] && HasId(list, id)
  {
    if it > 0 {
      ErasedAt(list[1..], it - 1, id);
      assert list[..it] == [list[0]] + list[1..][..it - 1];
      assert list[1..][it..] == list[it + 1..];
    }
  }

  /** Operation 1 appends.  Any other takes the first area with the id out and puts the new one
      behind all others; if there is none, nothing changes. */
  lemma PutIs(list: seq<Area>, operation: Byte, a: Area, it: nat)
    requires it <= |list| && (forall k :: 0 <= k < it ==> list[k].id != a.id)
    requires it < |list| ==> list[it].id == a.id
    ensures Put(list, 1, a) == list + [a]
    ensures operation != 1 ==> Put(list, operation, a) == if it < |list| then list[..it] + list[it + 1..] + [a] else list
  {
    if it < |list| {
      ErasedAt(list, it, a.id);
    }
  }

  lemma {:induction false} NotThere(list: seq<Area>, id: DWord)
    requires forall k :: 0 <= k < |list| ==> list[k].id != id
    ensures RemoveFirst(list, id) == list && !HasId(list, id)
  {
    if list != [] {
      NotThere(list[1..], id);
    }
  }

  lemma {:induction false} PutLast(list: seq<Area>, operation: Byte, areas: seq<Area>, a: Area)
    ensures PutAll(list, operation, areas + [a]) == Put(PutAll(list, operation, areas), operation, a)
    decreases |areas|
  {
    hide Put;
    if areas == [] {
      assert ([] + [a])[1..] == [];
      assert areas + [a] == [a];
    } else {
      assert (areas + [a])[1..] == areas[1..] + [a];
      PutLast(Put(list, operation, areas[0]), operation, areas[1..], a);
    }
  }
}
