/**
 Drag-and-drop reordering, as the media gallery (apps/admin/src/components/media/MediaGallery.tsx)
 and the homepage slides (apps/admin/src/pages/homepage-slides/HomepageSlidesPage.tsx) both do it:
 the payload must meet apps/api/src/common/dto/reorder-items.dto.ts.
 */
module Reorder {
  import opened Options
  import opened Sequences

  type Id = string

  datatype OrderItem = OrderItem(id: Id, sortOrder: nat)

  /** `array.indexOf(x)`: the first index, or -1. */
  function IndexOf<T(==)>(a: seq<T>, x: T): (i: int)
    ensures -1 <= i < |a|
    ensures i >= 0 ==> a[i] == x && x !in a[..i]
    ensures i == -1 ==> x !in a
  {
    if a == [] then -1
    else if a[0] == x then 0
    else
      var k := IndexOf(a[1..], x);
      if k == -1 then -1 else
      assert a[..k + 1] == [a[0]] + a[1..][..k];
      k + 1
  }

  /** What `array.splice(start, deleteCount, ...items)` leaves; a negative start counts from the end. */
  function Splice<T>(a: seq<T>, start: int, deleteCount: nat, items: seq<T>): seq<T> {
    var from := if start < 0 then (if |a| + start < 0 then 0 else |a| + start) else if start > |a| then |a| else start;
    var to := if from + deleteCount > |a| then |a| else from + deleteCount;
    a[..from] + items + a[to..]
  }

  function Reordered<T(==)>(ids: seq<T>, dragged: T, target: T): seq<T> {
    Splice(Splice(ids, IndexOf(ids, dragged), 1, []), IndexOf(ids, target), 0, [dragged])
  }

  function Numbered(ids: seq<Id>): (items: seq<OrderItem>)
    ensures |items| == |ids| && forall i :: 0 <= i < |ids| ==> items[i] == OrderItem(ids[i], i)
  {
    seq(|ids|, i requires 0 <= i < |ids| => OrderItem(ids[i], i))
  }

  function RemoveAt<T>(s: seq<T>, f: nat): seq<T>
    requires f < |s|
  {
    s[..f] + s[f + 1..]
  }

  function InsertAt<T>(s: seq<T>, t: nat, x: T): seq<T>
    requires t <= |s|
  {
    s[..t] + [x] + s[t..]
  }

  lemma InsertUndoesRemove<T>(s: seq<T>, f: nat)
    requires f < |s|
    ensures InsertAt(RemoveAt(s, f), f, s[f]) == s
  {
  }

  lemma RemoveUndoesInsert<T>(s: seq<T>, t: nat, x: T)
    requires t <= |s|
    ensures InsertAt(s, t, x)[t] == x && RemoveAt(InsertAt(s, t, x), t) == s
  {
  }

  lemma SpliceOut<T>(s: seq<T>, f: nat)
    requires f < |s|
    ensures Splice(s, f, 1, []) == RemoveAt(s, f)
  {
    assert s[..f] + [] + s[f + 1..] == s[..f] + s[f + 1..];
  }

  lemma SpliceIn<T>(s: seq<T>, t: nat, x: T)
    requires t <= |s|
    ensures Splice(s, t, 0, [x]) == InsertAt(s, t, x)
  {
  }

  /** With both ids in the list the two splices are a removal and an insertion. */
  lemma ReorderedShape<T>(ids: seq<T>, dragged: T, target: T)
    requires dragged in ids && target in ids && dragged != target
    ensures var f, t := IndexOf(ids, dragged), IndexOf(ids, target);
      0 <= f < |ids| && 0 <= t < |ids| && f != t
      && Reordered(ids, dragged, target) == InsertAt(RemoveAt(ids, f), t, dragged)
  {
    var f, t := IndexOf(ids, dragged), IndexOf(ids, target);
    SpliceOut(ids, f);
    SpliceIn(RemoveAt(ids, f), t, dragged);
  }

  lemma InsertedItems<T>(s: seq<T>, t: int, x: T)
    ensures multiset(Splice(s, t, 0, [x])) == multiset(s) + multiset{x}
  {
    var k := if t < 0 then (if |s| + t < 0 then 0 else |s| + t) else if t > |s| then |s| else t;
    assert s == s[..k] + s[k..];
    assert Splice(s, t, 0, [x]) == s[..k] + [x] + s[k..];
  }

  lemma RemovedItem<T>(s: seq<T>, f: nat)
    requires f < |s|
    ensures multiset(RemoveAt(s, f)) + multiset{s[f]} == multiset(s)
  {
    assert s == s[..f] + [s[f]] + s[f + 1..];
  }

  /** The payload lists the same items if and only if the dragged item is still in the list. */
  lemma PermutationIff<T>(ids: seq<T>, dragged: T, target: T)
    ensures multiset(Reordered(ids, dragged, target)) == multiset(ids) <==> dragged in ids
  {
    var f := IndexOf(ids, dragged);
    var rest := Splice(ids, f, 1, []);
    InsertedItems(rest, IndexOf(ids, target), dragged);
    if dragged in ids {
      RemovedItem(ids, f);
      assert rest == RemoveAt(ids, f);
    } else {
      assert dragged in multiset(Reordered(ids, dragged, target));
      assert dragged !in multiset(ids);
    }
  }

  function Without<T(==)>(s: seq<T>, x: T): seq<T> {
    if s == [] then [] else (if s[0] == x then [] else [s[0]]) + Without(s[1..], x)
  }

  lemma {:induction false} WithoutInserted<T>(s: seq<T>, t: nat, x: T)
    requires t <= |s|
    ensures Without(InsertAt(s, t, x), x) == Without(s, x)
  {
    var r := InsertAt(s, t, x);
    if t == 0 {
      assert r[1..] == s;
    } else {
      WithoutInserted(s[1..], t - 1, x);
      assert r[1..] == InsertAt(s[1..], t - 1, x);
    }
  }

  /** The dragged item lands exactly where the target was, and the others keep their order. */
  lemma OnlyDraggedMoves<T>(ids: seq<T>, dragged: T, target: T)
    requires dragged in ids && target in ids && dragged != target
    ensures var r := Reordered(ids, dragged, target);
      |r| == |ids| && r[IndexOf(ids, target)] == dragged && Without(r, dragged) == Without(ids, dragged)
  {
    var f, t := IndexOf(ids, dragged), IndexOf(ids, target);
    ReorderedShape(ids, dragged, target);
    WithoutInserted(RemoveAt(ids, f), t, dragged);
    WithoutInserted(RemoveAt(ids, f), f, dragged);
    InsertUndoesRemove(ids, f);
  }

  lemma IndexIn<T>(ids: seq<T>, i: nat)
    requires Distinct(ids) && i < |ids|
    ensures IndexOf(ids, ids[i]) == i
  {
  }

  lemma RemovedIsDistinct<T>(s: seq<T>, f: nat)
    requires Distinct(s) && f < |s|
    ensures Distinct(RemoveAt(s, f)) && s[f] !in RemoveAt(s, f)
  {
  }

  lemma InsertedIsDistinct<T>(s: seq<T>, t: nat, x: T)
    requires Distinct(s) && t <= |s| && x !in s
    ensures Distinct(InsertAt(s, t, x))
  {
  }

  lemma ReorderedIsDistinct<T>(ids: seq<T>, dragged: T, target: T)
    requires Distinct(ids) && dragged in ids && target in ids && dragged != target
    ensures Distinct(Reordered(ids, dragged, target))
  {
    ReorderedShape(ids, dragged, target);
    RemovedIsDistinct(ids, IndexOf(ids, dragged));
    InsertedIsDistinct(RemoveAt(ids, IndexOf(ids, dragged)), IndexOf(ids, target), dragged);
  }

  /** Dragging the item back onto the one that took its old place restores the list. */
  lemma OppositeMoveUndoes<T>(ids: seq<T>, dragged: T, target: T)
    requires Distinct(ids) && dragged in ids && target in ids && dragged != target
    ensures var r := Reordered(ids, dragged, target); var f := IndexOf(ids, dragged);
      f < |r| && r[f] != dragged && Reordered(r, dragged, r[f]) == ids
  {
    var r, f, t := Reordered(ids, dragged, target), IndexOf(ids, dragged), IndexOf(ids, target);
    ReorderedShape(ids, dragged, target);
    OnlyDraggedMoves(ids, dragged, target);
    ReorderedIsDistinct(ids, dragged, target);
    IndexIn(r, t);
    IndexIn(r, f);
    ReorderedShape(r, dragged, r[f]);
    RemoveUndoesInsert(RemoveAt(ids, f), t, dragged);
    InsertUndoesRemove(ids, f);
  }

  function IdsOf(items: seq<OrderItem>): (ids: seq<Id>)
    ensures |ids| == |items| && forall i :: 0 <= i < |items| ==> ids[i] == items[i].id
  {
    seq(|items|, i requires 0 <= i < |items| => items[i].id)
  }

  /** The dragged item took the target's place, the others kept their order, and all are numbered. */
  predicate IsMoved(ids: seq<Id>, items: seq<OrderItem>, dragged: Id, target: Id) {
    && |items| == |ids|
    && (forall i :: 0 <= i < |items| ==> items[i].sortOrder == i)
    && (target in ids ==> items[IndexOf(ids, target)].id == dragged)
    && Without(IdsOf(items), dragged) == Without(ids, dragged)
  }

  lemma PayloadIsMoved(ids: seq<Id>, dragged: Id, target: Id)
    requires dragged != target
    ensures dragged in ids && target in ids ==>
      IsMoved(ids, Numbered(Reordered(ids, dragged, target)), dragged, target)
  {
    if dragged in ids && target in ids {
      var r := Reordered(ids, dragged, target);
      OnlyDraggedMoves(ids, dragged, target);
      assert IdsOf(Numbered(r)) == r;
    }
  }

  /** The list component: which item is being dragged, and the drop handler with its two splices. */
  class DragList {
    var draggedId: Option<Id>

    constructor ()
      ensures draggedId == None
    {
      draggedId := None;
    }

    method HandleDragStart(id: Id)
      modifies this
      ensures draggedId == Some(id)
    {
      draggedId := Some(id);
    }

    /** `items` is absent while the list loads; `payload` is what the reorder mutation is given. */
    method HandleDrop(items: Option<seq<Id>>, targetId: Id) returns (payload: Option<seq<OrderItem>>)
      modifies this
      ensures old(draggedId) in {None, Some(""), Some(targetId)} || items == None ==>
        payload == None && draggedId == old(draggedId)
      ensures old(draggedId) !in {None, Some(""), Some(targetId)} && items.Some? ==>
        draggedId == None && payload == Some(Numbered(Reordered(items.value, old(draggedId).value, targetId)))
      ensures payload.Some? && old(draggedId).value in items.value && targetId in items.value ==>
        IsMoved(items.value, payload.value, old(draggedId).value, targetId)
    {
      if draggedId == None || draggedId == Some("") || draggedId == Some(targetId) || items == None {
        return None;
      }
      var ids := items.value;
      var fromIndex := IndexOf(ids, draggedId.value);
      var toIndex := IndexOf(ids, targetId);
      var reordered := ids;
      reordered := Splice(reordered, fromIndex, 1, []);
      reordered := Splice(reordered, toIndex, 0, [draggedId.value]);
      payload := Some(Numbered(reordered));
      PayloadIsMoved(ids, draggedId.value, targetId);
      draggedId := None;
    }
  }

  /** A drag and its drop, then the reordered list dragged back: what the second drop sends is the list. */
  method DragThereAndBack(ids: seq<Id>, dragged: Id, target: Id) returns (payload: Option<seq<OrderItem>>)
    requires Distinct(ids) && dragged in ids && target in ids && dragged != target && dragged != ""
    ensures payload == Some(Numbered(ids))
  {
    var list := new DragList();
    list.HandleDragStart(dragged);
    var there := list.HandleDrop(Some(ids), target);
    OppositeMoveUndoes(ids, dragged, target);
    var moved := Reordered(ids, dragged, target);
    assert IdsOf(there.value) == moved;
    list.HandleDragStart(dragged);
    payload := list.HandleDrop(Some(IdsOf(there.value)), moved[IndexOf(ids, dragged)]);
  }

  // ---------------------------------------------------------------- what the server accepts

  /** What ReorderItemsDto demands; `isUuid` is the format check of each id. */
  predicate MeetsDto(items: seq<OrderItem>, isUuid: Id -> bool) {
    && 1 <= |items| <= 200
    && (forall i, j :: 0 <= i < j < |items| ==> items[i].id != items[j].id)
    && (forall i :: 0 <= i < |items| ==> isUuid(items[i].id))
  }

  /** The services' check: as many of the stored items as ids are found among the ids sent. */
  predicate AllFound(items: seq<OrderItem>, stored: set<Id>) {
    |set id | id in IdsOf(items) && id in stored| == |items|
  }

  /** The items the payload lists besides the dragged one: all the others, or all but the last. */
  function Others(ids: seq<Id>, dragged: Id): seq<Id> {
    if dragged in ids then Without(ids, dragged) else if ids == [] then [] else ids[..|ids| - 1]
  }

  lemma {:induction false} WithoutHas<T>(s: seq<T>, x: T)
    ensures forall y :: y in Without(s, x) <==> y in s && y != x
  {
    if s != [] {
      WithoutHas(s[1..], x);
      assert forall y :: y in s <==> y == s[0] || y in s[1..];
    }
  }

  /** Whatever the target, the dragged item is sent once, and the others besides it. */
  lemma PayloadItems(ids: seq<Id>, dragged: Id, target: Id)
    requires Distinct(ids)
    ensures var r := Reordered(ids, dragged, target);
      && Distinct(r)
      && |r| == (if ids == [] then 1 else |ids|)
      && forall id :: id in r <==> id == dragged || id in Others(ids, dragged)
  {
    var f := IndexOf(ids, dragged);
    var rest := Splice(ids, f, 1, []);
    if dragged in ids {
      SpliceOut(ids, f);
      RemovedIsDistinct(ids, f);
    }
    assert Distinct(rest) && dragged !in rest;
    SplicedIn(rest, IndexOf(ids, target), dragged);
    RestIsOthers(ids, dragged);
  }

  lemma RestIsOthers(ids: seq<Id>, dragged: Id)
    requires Distinct(ids)
    ensures forall id :: id in Splice(ids, IndexOf(ids, dragged), 1, []) <==> id in Others(ids, dragged)
  {
    var f := IndexOf(ids, dragged);
    if dragged in ids {
      SpliceOut(ids, f);
      WithoutHas(ids, dragged);
      RemovedIsDistinct(ids, f);
      assert forall id :: id in ids <==> id in ids[..f] || id == ids[f] || id in ids[f + 1..];
    }
  }

  lemma SplicedIn<T>(s: seq<T>, t: int, x: T)
    requires Distinct(s) && x !in s
    ensures var r := Splice(s, t, 0, [x]);
      Distinct(r) && |r| == |s| + 1 && forall y :: y in r <==> y == x || y in s
  {
    var k := if t < 0 then (if |s| + t < 0 then 0 else |s| + t) else if t > |s| then |s| else t;
    InsertedIsDistinct(s, k, x);
    assert Splice(s, t, 0, [x]) == InsertAt(s, k, x);
    assert s == s[..k] + s[k..];
  }

  lemma NumberedMeetsDtoIff(ids: seq<Id>, isUuid: Id -> bool)
    ensures MeetsDto(Numbered(ids), isUuid) <==>
      1 <= |ids| <= 200 && Distinct(ids) && forall id :: id in ids ==> isUuid(id)
  {
    var items := Numbered(ids);
    if MeetsDto(items, isUuid) {
      forall id | id in ids ensures isUuid(id) {
        var i :| 0 <= i < |ids| && ids[i] == id;
        assert isUuid(items[i].id);
      }
      forall i, j | 0 <= i < j < |ids| ensures ids[i] != ids[j] {
        assert items[i].id != items[j].id;
      }
    }
  }

  /**
   Of any list of different items the payload meets the DTO if and only if the list has at most 200
   and the ids sent have the form, the dragged one in the list or not.
   */
  lemma PayloadMeetsDtoIff(ids: seq<Id>, dragged: Id, target: Id, isUuid: Id -> bool)
    requires Distinct(ids)
    ensures MeetsDto(Numbered(Reordered(ids, dragged, target)), isUuid) <==>
      |ids| <= 200 && isUuid(dragged) && forall id :: id in Others(ids, dragged) ==> isUuid(id)
  {
    PayloadItems(ids, dragged, target);
    NumberedMeetsDtoIff(Reordered(ids, dragged, target), isUuid);
  }

  lemma {:induction false} DistinctCount<T>(s: seq<T>, kept: set<T>)
    requires Distinct(s)
    ensures |set x | x in s && x in kept| <= |s|
    ensures |set x | x in s && x in kept| == |s| <==> forall x :: x in s ==> x in kept
  {
    var found := set x | x in s && x in kept;
    if s == [] {
      assert found == {};
    } else {
      var before := set x | x in s[1..] && x in kept;
      DistinctCount(s[1..], kept);
      assert s[0] !in before;
      assert forall x :: x in s <==> x == s[0] || x in s[1..];
      assert found == if s[0] in kept then before + {s[0]} else before;
    }
  }

  /** The services find all items of the payload if and only if the dragged one and the others are stored. */
  lemma PayloadFoundIff(ids: seq<Id>, dragged: Id, target: Id, stored: set<Id>)
    requires Distinct(ids)
    ensures AllFound(Numbered(Reordered(ids, dragged, target)), stored) <==>
      dragged in stored && forall id :: id in Others(ids, dragged) ==> id in stored
  {
    var r := Reordered(ids, dragged, target);
    PayloadItems(ids, dragged, target);
    assert IdsOf(Numbered(r)) == r;
    DistinctCount(r, stored);
  }

  /**
   A dragged item that has left the list costs the last item its place in the payload.  The DTO never
   notices; the services do exactly if the dragged item is not stored any more.
   */
  lemma LostItemIsNoticedIff(ids: seq<Id>, dragged: Id, target: Id, isUuid: Id -> bool, stored: set<Id>)
    requires Distinct(ids) && dragged !in ids && 1 <= |ids| <= 200
    requires isUuid(dragged) && forall id :: id in ids ==> isUuid(id) && id in stored
    ensures var payload := Numbered(Reordered(ids, dragged, target));
      && ids[|ids| - 1] !in IdsOf(payload)
      && MeetsDto(payload, isUuid)
      && (AllFound(payload, stored) <==> dragged in stored)
  {
    var r := Reordered(ids, dragged, target);
    PayloadItems(ids, dragged, target);
    PayloadMeetsDtoIff(ids, dragged, target, isUuid);
    PayloadFoundIff(ids, dragged, target, stored);
    assert IdsOf(Numbered(r)) == r;
    assert forall id :: id in Others(ids, dragged) ==> id in ids;
    assert ids[|ids| - 1] !in Others(ids, dragged);
  }
}
