/**
 The table of the hidden database: a doubly linked list threaded through a fixed
 number of slots, oldest record first.

 The capacity N is a parameter (10000 in the code); the links are 15-bit fields, so
 slot numbers and counts stay below 2^14.
 */
module HiddenList {
  import opened CreateIds
  import opened Words

  const MAX_SLOTS: nat := 0x3FFF

  /** `RFLiTableData`; a slot is blank when its identifier is invalid. */
  datatype TableData = TableData(id: CreateID, sex: bool, next: int, prev: int)

  /** The entry that `RFLiClearTableData` leaves. */
  const CLEARED := TableData(NO_ID, false, -1, -1)

  // ---------------------------------------------------------------- the list as a sequence of slots

  predicate Distinct(s: seq<int>) {
    forall j, k :: 0 <= j < k < |s| ==> s[j] != s[k]
  }

  function At(order: seq<int>, k: int): int {
    if 0 <= k < |order| then order[k] else -1
  }

  predicate InTable(order: seq<int>, n: nat) {
    forall k :: 0 <= k < |order| ==> 0 <= order[k] < n
  }

  /** The links of the k-th entry of the list. */
  predicate LinkedAt(t: seq<TableData>, order: seq<int>, k: int) {
    && 0 <= k < |order| && 0 <= order[k] < |t|
    && t[order[k]].next == At(order, k + 1)
    && t[order[k]].prev == At(order, k - 1)
  }

  predicate Linked(t: seq<TableData>, order: seq<int>) {
    forall k :: 0 <= k < |order| ==> LinkedAt(t, order, k)
  }

  /** The list holds exactly the occupied slots. */
  predicate Occupied(t: seq<TableData>, order: seq<int>) {
    forall i :: 0 <= i < |t| ==> (IsValidID(t[i].id) <==> i in order)
  }

  /** Following the links from head to tail and back visits exactly the slots of
      `order`, which are exactly the occupied ones. */
  predicate IsList(t: seq<TableData>, head: int, tail: int, order: seq<int>) {
    && InTable(order, |t|)
    && Distinct(order)
    && Occupied(t, order)
    && Linked(t, order)
    && head == At(order, 0)
    && tail == At(order, |order| - 1)
  }

  /** The identifiers from the oldest to the newest. */
  function IdsOf(t: seq<TableData>, order: seq<int>): (ids: seq<CreateID>)
    requires InTable(order, |t|)
    ensures |ids| == |order|
  {
    seq(|order|, k requires 0 <= k < |order| => t[order[k]].id)
  }

  /** What the list holds, slot by slot: identifier and sex. */
  function EntriesOf(t: seq<TableData>, order: seq<int>): (entries: seq<(CreateID, bool)>)
    requires InTable(order, |t|)
    ensures |entries| == |order|
  {
    seq(|order|, k requires 0 <= k < |order| => (t[order[k]].id, t[order[k]].sex))
  }

  // ---------------------------------------------------------------- the abstract queue

  predicate Known(ids: seq<CreateID>, id: CreateID) {
    exists k :: 0 <= k < |ids| && IsSameID(ids[k], id)
  }

  /** A bounded first-in first-out memory: a known identifier changes nothing, a new
      one is appended, at the cost of the oldest when all n places are taken. */
  function Remember(ids: seq<CreateID>, id: CreateID, n: nat): seq<CreateID>
    requires n > 0
  {
    if Known(ids, id) then ids
    else if |ids| < n then ids + [id]
    else ids[1..] + [id]
  }

  /** The memory with the sex of each identifier, which is that of the record it came with:
      a known identifier keeps its sex. */
  function Enter(entries: seq<(CreateID, bool)>, id: CreateID, sex: bool, n: nat): seq<(CreateID, bool)>
    requires n > 0
  {
    if exists k :: 0 <= k < |entries| && IsSameID(entries[k].0, id) then entries
    else if |entries| < n then entries + [(id, sex)]
    else entries[1..] + [(id, sex)]
  }

  lemma EnterKnown(t: seq<TableData>, order: seq<int>, id: CreateID)
    requires InTable(order, |t|)
    ensures Known(IdsOf(t, order), id)
       <==> exists k :: 0 <= k < |order| && IsSameID(EntriesOf(t, order)[k].0, id)
  {
    hide IsSameID;
    var ids, entries := IdsOf(t, order), EntriesOf(t, order);
    assert forall k :: 0 <= k < |order| ==> ids[k] == entries[k].0;
  }

  /** A table step of `writeData_` enters identifier and sex. */
  lemma EntersExactly(t: seq<TableData>, order: seq<int>, t': seq<TableData>, order': seq<int>, slot: int,
                      id: CreateID, sex: bool)
    requires |t| == |t'| > 0 && InTable(order, |t|) && InTable(order', |t|) && Distinct(order) && 0 <= slot < |t|
    requires Known(IdsOf(t, order), id) ==> t' == t && order' == order
    requires !Known(IdsOf(t, order), id) ==> Inserted(order, order', slot, |t|)
    requires !Known(IdsOf(t, order), id) ==> t'[slot].id == id && t'[slot].sex == sex
    requires forall i :: 0 <= i < |t| && i != slot ==> t'[i].id == t[i].id && t'[i].sex == t[i].sex
    ensures EntriesOf(t', order') == Enter(EntriesOf(t, order), id, sex, |t|)
  {
    hide IsSameID, Known;
    EnterKnown(t, order, id);
    var entries := EntriesOf(t, order);
    if !Known(IdsOf(t, order), id) {
      if |order| < |t| {
        assert forall k :: 0 <= k < |order| ==> order[k] in order;
        assert EntriesOf(t', order') == entries + [(id, sex)];
      } else {
        assert EntriesOf(t', order') == entries[1..] + [(id, sex)];
      }
    }
  }

  // ---------------------------------------------------------------- counting slots

  function Without(s: seq<int>, k: nat): (rest: seq<int>)
    requires k < |s|
    ensures |rest| == |s| - 1
  {
    s[..k] + s[k + 1..]
  }

  /** Removing one entry of a list without repetitions removes exactly that value. */
  lemma WithoutEntry(s: seq<int>, k: nat)
    requires k < |s| && Distinct(s)
    ensures Distinct(Without(s, k))
    ensures forall i :: i in Without(s, k) <==> i in s && i != s[k]
  {
    var rest := Without(s, k);
    forall i ensures i in rest <==> i in s && i != s[k] {
      if i in rest {
        var j :| 0 <= j < |rest| && rest[j] == i;
        assert i == s[if j < k then j else j + 1];
      }
      if i in s && i != s[k] {
        var j :| 0 <= j < |s| && s[j] == i;
        assert i == rest[if j < k then j else j - 1];
      }
    }
  }

  lemma {:induction false} DistinctLength(s: seq<int>, n: nat)
    requires Distinct(s) && forall i :: i in s ==> 0 <= i < n
    ensures |s| <= n
    ensures |s| == n ==> forall i :: 0 <= i < n ==> i in s
    decreases n
  {
    if |s| > 0 {
      if n - 1 in s {
        var k :| 0 <= k < |s| && s[k] == n - 1;
        WithoutEntry(s, k);
        DistinctLength(Without(s, k), n - 1);
      } else {
        assert s[0] in s;
        DistinctLength(s, n - 1);
      }
    }
  }

  lemma {:induction false} CoverLength(s: seq<int>, n: nat)
    requires Distinct(s) && forall i :: 0 <= i < n ==> i in s
    ensures |s| >= n
  {
    if n > 0 {
      assert n - 1 in s;
      var k :| 0 <= k < |s| && s[k] == n - 1;
      WithoutEntry(s, k);
      CoverLength(Without(s, k), n - 1);
    }
  }

  /** A table with no blank slot has a full list, and one with a blank slot does not. */
  lemma FullIffNoBlank(s: seq<int>, n: nat)
    requires Distinct(s) && InTable(s, n)
    ensures |s| <= n
    ensures (forall i :: 0 <= i < n ==> i in s) <==> |s| == n
  {
    DistinctLength(s, n);
    if forall i :: 0 <= i < n ==> i in s { CoverLength(s, n); }
  }

  // ---------------------------------------------------------------- what the two updates do to the list

  /** `t'` is the table after `create_` put id into the blank slot `index`. */
  predicate CreatedIn(t: seq<TableData>, t': seq<TableData>, tail: int, index: int, id: CreateID) {
    && |t'| == |t|
    && 0 <= index < |t| && !IsValidID(t[index].id) && IsValidID(id)
    && t'[index].id == id && t'[index].next == -1 && t'[index].prev == tail
    && (0 <= tail < |t| ==> t'[tail] == t[tail].(next := index))
    && forall i :: 0 <= i < |t| && i != index && i != tail ==> t'[i] == t[i]
  }

  /** Appending a blank slot. */
  lemma CreateKeepsList(t: seq<TableData>, t': seq<TableData>, head: int, tail: int, order: seq<int>,
                        index: int, id: CreateID)
    requires IsList(t, head, tail, order) && CreatedIn(t, t', tail, index, id)
    ensures IsList(t', if tail >= 0 then head else index, index, order + [index])
    ensures IdsOf(t', order + [index]) == IdsOf(t, order) + [id]
  {
    var o := order + [index];
    assert index !in order;
    forall k | 0 <= k < |order| ensures t'[order[k]].id == t[order[k]].id && order[k] != index {
      assert order[k] in order;
    }
    forall k | 0 <= k < |o| ensures LinkedAt(t', o, k) {
      if k < |order| {
        assert LinkedAt(t, order, k) && order[k] in order;
      }
    }
    forall i | 0 <= i < |t'| ensures IsValidID(t'[i].id) <==> i in o {
      if i == index { assert o[|order|] == index; }
    }
  }

  /** `t'` is the table after `overwrite_` moved the head slot behind the tail. */
  predicate Rotated(t: seq<TableData>, t': seq<TableData>, head: int, next: int, tail: int, id: CreateID) {
    && |t'| == |t| && IsValidID(id)
    && 0 <= head < |t| && 0 <= next < |t| && 0 <= tail < |t| && head != next && head != tail
    && t'[head].id == id && t'[head].next == -1 && t'[head].prev == tail
    && t'[next].id == t[next].id && t'[next].prev == -1
    && t'[tail].id == t[tail].id && t'[tail].next == head
    && (next != tail ==> t'[next].next == t[next].next && t'[tail].prev == t[tail].prev)
    && forall i :: 0 <= i < |t| && i != head && i != next && i != tail ==> t'[i] == t[i]
  }

  /** Moving the head slot, with a new identifier, to the tail. */
  lemma OverwriteKeepsList(t: seq<TableData>, t': seq<TableData>, head: int, tail: int, order: seq<int>, id: CreateID)
    requires IsList(t, head, tail, order) && |order| >= 2
    requires Rotated(t, t', head, order[1], tail, id)
    ensures IsList(t', order[1], head, order[1..] + [head])
    ensures IdsOf(t', order[1..] + [head]) == IdsOf(t, order)[1..] + [id]
  {
    RotateDistinct(order);
    RotatedLinks(t, t', order, id);
    RotatedIds(t, t', order, id);
    hide LinkedAt, Rotated;
  }

  lemma RotatedLinks(t: seq<TableData>, t': seq<TableData>, order: seq<int>, id: CreateID)
    requires InTable(order, |t|) && Distinct(order) && Linked(t, order) && |order| >= 2
    requires Rotated(t, t', order[0], order[1], order[|order| - 1], id)
    ensures Linked(t', order[1..] + [order[0]])
  {
    var n, o := |order|, order[1..] + [order[0]];
    forall k | 0 <= k < n ensures LinkedAt(t', o, k) {
      if k < n - 1 {
        assert LinkedAt(t, order, k + 1);
        RotatedLink(t, t', order, k, id);
      }
    }
  }

  lemma RotatedIds(t: seq<TableData>, t': seq<TableData>, order: seq<int>, id: CreateID)
    requires InTable(order, |t|) && Distinct(order) && Occupied(t, order) && |order| >= 2
    requires Rotated(t, t', order[0], order[1], order[|order| - 1], id)
    ensures Occupied(t', order)
    ensures IdsOf(t', order[1..] + [order[0]]) == IdsOf(t, order)[1..] + [id]
  {
    assert order[0] in order && order[1] in order && order[|order| - 1] in order;
    assert forall i :: 0 <= i < |t| && i != order[0] ==> t'[i].id == t[i].id;
    assert forall k :: 1 <= k < |order| ==> order[k] != order[0];
  }

  lemma RotateDistinct(order: seq<int>)
    requires |order| >= 1 && Distinct(order)
    ensures var o := order[1..] + [order[0]];
            Distinct(o) && forall i :: i in o <==> i in order
  {
    var n, o := |order|, order[1..] + [order[0]];
    forall i ensures i in o <==> i in order {
      if i in order {
        var k :| 0 <= k < n && order[k] == i;
        assert o[if k == 0 then n - 1 else k - 1] == i;
      }
      if i in o {
        var k :| 0 <= k < n && o[k] == i;
        assert i == if k == n - 1 then order[0] else order[k + 1];
      }
    }
  }

  lemma RotatedLink(t: seq<TableData>, t': seq<TableData>, order: seq<int>, k: int, id: CreateID)
    requires InTable(order, |t|) && Distinct(order) && |order| >= 2 && 0 <= k < |order| - 1
    requires Rotated(t, t', order[0], order[1], order[|order| - 1], id)
    requires LinkedAt(t, order, k + 1)
    ensures LinkedAt(t', order[1..] + [order[0]], k)
    ensures t'[order[k + 1]].id == t[order[k + 1]].id
  {
    var n := |order|;
    assert k + 1 == 1 || order[k + 1] != order[1];
    assert k + 1 == n - 1 || order[k + 1] != order[n - 1];
  }

  // ---------------------------------------------------------------- the table

  /** `RFLiHiddenDB`; `order` is the list it represents. */
  class HiddenDB {
    const data: array<TableData>
    var head: int
    var tail: int
    ghost var order: seq<int>

    ghost predicate Valid()
      reads this, data
    {
      && 2 <= data.Length <= MAX_SLOTS
      && IsList(data[..], head, tail, order)
    }

    /** The identifiers stored, oldest first. */
    ghost function Ids(): (ids: seq<CreateID>)
      requires Valid()
      reads this, data
    {
      IdsOf(data[..], order)
    }

    /** The same, with the sex of each. */
    ghost function Entries(): (entries: seq<(CreateID, bool)>)
      requires Valid()
      reads this, data
    {
      EntriesOf(data[..], order)
    }

    lemma Length()
      requires Valid()
      ensures |order| <= data.Length
    {
      FullIffNoBlank(order, data.Length);
    }

    lemma InOrder()
      requires Valid()
      ensures head == At(order, 0) && tail == At(order, |order| - 1)
      ensures forall k :: 0 <= k < |order| ==> 0 <= order[k] < data.Length
    {
    }

    /** `RFLiClearDBBuffer`: a formatted table holds no record. */
    constructor (n: nat)
      requires 2 <= n <= MAX_SLOTS
      ensures Valid() && fresh(data) && data.Length == n
      ensures order == [] && Ids() == []
      ensures forall i :: 0 <= i < n ==> data[i] == CLEARED
    {
      data := new TableData[n](_ => CLEARED);
      head, tail, order := -1, -1, [];
    }

    /** `getFirstBlank_`. */
    method FirstBlank() returns (blank: int)
      requires Valid()
      ensures -1 <= blank < data.Length
      ensures blank >= 0 ==> !IsValidID(data[blank].id)
                             && forall i :: 0 <= i < blank ==> IsValidID(data[i].id)
      ensures |order| <= data.Length && (blank == -1 <==> |order| == data.Length)
    {
      FullIffNoBlank(order, data.Length);
      var i := 0;
      while i < data.Length
        invariant 0 <= i <= data.Length
        invariant forall j :: 0 <= j < i ==> IsValidID(data[..][j].id)
      {
        if !IsValidID(data[i].id) {
          assert !IsValidID(data[..][i].id);
          return i;
        }
        i := i + 1;
      }
      blank := -1;
    }

    /** `RFLiSearchHiddenData`. */
    method Search(id: CreateID) returns (index: int)
      requires Valid()
      ensures -1 <= index < data.Length
      ensures index >= 0 ==> IsSameID(data[index].id, id)
      ensures index >= 0 <==> Known(Ids(), id)
    {
      index := -1;
      var i := 0;
      while i < data.Length
        invariant 0 <= i <= data.Length && index == -1
        invariant forall j :: 0 <= j < i ==> !IsSameID(data[..][j].id, id)
      {
        if IsSameID(data[i].id, id) {
          assert IsValidID(data[..][i].id);
          ghost var k :| 0 <= k < |order| && order[k] == i;
          assert IsSameID(Ids()[k], id);
          index := i;
          return;
        }
        i := i + 1;
      }
    }

    /** `overwrite_`: the oldest slot is relinked as the newest. */
    method Overwrite(id: CreateID, sex: bool) returns (slot: int)
      requires Valid() && |order| == data.Length && IsValidID(id)
      modifies this, data
      ensures Valid() && slot == old(order[0])
      ensures order == old(order[1..]) + [slot]
      ensures Ids() == old(Ids())[1..] + [id]
      ensures 0 <= slot < data.Length && data[slot].id == id && data[slot].sex == sex
      ensures forall i :: 0 <= i < data.Length && i != slot ==>
        data[i].id == old(data[i].id) && data[i].sex == old(data[i].sex)
    {
      ghost var was := data[..];
      var it := head;
      var next := data[it].next;
      var prev := tail;
      assert LinkedAt(data[..], order, 0) && next == order[1];
      assert order[0] != order[1] && order[0] != order[|order| - 1];
      if it < 0 || it >= data.Length { return -1; }
      data[it] := CLEARED;
      head := next;
      data[next] := data[next].(prev := -1);
      data[prev] := data[prev].(next := it);
      data[it] := data[it].(prev := prev);
      tail := it;
      data[it] := data[it].(next := -1);
      data[it] := data[it].(id := id, sex := sex);
      OverwriteKeepsList(was, data[..], it, prev, order, id);
      order := order[1..] + [it];
      slot := it;
    }

    /** `create_`: the blank slot `index` becomes the newest. */
    method Create(index: int, id: CreateID, sex: bool)
      requires Valid() && IsValidID(id)
      requires 0 <= index < data.Length && !IsValidID(data[index].id)
      modifies this, data
      ensures Valid() && order == old(order) + [index]
      ensures Ids() == old(Ids()) + [id]
      ensures data[index].id == id && data[index].sex == sex
      ensures forall i :: 0 <= i < data.Length && i != index ==>
        data[i].id == old(data[i].id) && data[i].sex == old(data[i].sex)
    {
      ghost var was, oldHead, oldTail := data[..], head, tail;
      assert forall k :: 0 <= k < |order| ==> order[k] in order;
      if index < 0 || index >= data.Length { return; }
      data[index] := CLEARED;
      if tail >= 0 {
        data[tail] := data[tail].(next := index);
        data[index] := data[index].(prev := tail);
        tail := index;
        data[index] := data[index].(next := -1);
      } else {
        tail := index;
        head := index;
        data[index] := data[index].(prev := -1);
        data[index] := data[index].(next := -1);
      }
      data[index] := data[index].(id := id, sex := sex);
      CreateKeepsList(was, data[..], oldHead, oldTail, order, index, id);
      order := order + [index];
    }

    /** The table part of `writeData_`: where the record with identifier id goes. */
    method Put(id: CreateID, sex: bool) returns (slot: int)
      requires Valid() && IsValidID(id)
      modifies this, data
      ensures Valid()
      ensures Ids() == Remember(old(Ids()), id, data.Length)
      ensures Entries() == Enter(old(Entries()), id, sex, data.Length)
      ensures 0 <= slot < data.Length && slot in order && data[slot].id == id
      ensures Known(old(Ids()), id) ==> data[..] == old(data[..]) && order == old(order)
      ensures !Known(old(Ids()), id) ==> Inserted(old(order), order, slot, data.Length) && data[slot].sex == sex
      ensures forall i :: 0 <= i < data.Length && i != slot ==>
        data[i].id == old(data[i].id) && data[i].sex == old(data[i].sex)
    {
      hide EntriesOf, Enter;
      ghost var was, oldOrder := data[..], order;
      var blank := FirstBlank();
      var index := Search(id);
      assert forall i :: 0 <= i < data.Length ==> (IsValidID(data[..][i].id) <==> i in order);
      assert |order| > 0 ==> order[0] in order;
      if index != -1 {
        blank := index;
        assert IsValidID(data[..][index].id);
      } else if blank < 0 {
        blank := Overwrite(id, sex);
        assert order[|order| - 1] == blank;
      } else {
        Create(blank, id, sex);
        assert order[|order| - 1] == blank;
      }
      slot := blank;
      EntersExactly(was, oldOrder, data[..], order, slot, id, sex);
    }

    /** `RFLiGetHiddenNext`. */
    method Next(index: nat) returns (next: int)
      requires Valid()
      ensures forall k :: 0 <= k < |order| && order[k] == index ==> next == At(order, k + 1)
      ensures index !in order ==> next == -1
    {
      if index >= data.Length { return -1; }
      assert IsValidID(data[..][index].id) <==> index in order;
      if index in order {
        ghost var k :| 0 <= k < |order| && order[k] == index;
        assert LinkedAt(data[..], order, k);
      }
      if IsValidID(data[index].id) { return data[index].next; }
      return -1;
    }

    /** `RFLiGetHiddenPrev`. */
    method Prev(index: nat) returns (prev: int)
      requires Valid()
      ensures forall k :: 0 <= k < |order| && order[k] == index ==> prev == At(order, k - 1)
      ensures index !in order ==> prev == -1
    {
      if index >= data.Length { return -1; }
      assert IsValidID(data[..][index].id) <==> index in order;
      if index in order {
        ghost var k :| 0 <= k < |order| && order[k] == index;
        assert LinkedAt(data[..], order, k);
      }
      if IsValidID(data[index].id) { return data[index].prev; }
      return -1;
    }
  }

  /** A new record takes the first blank slot, or else the slot of the oldest record. */
  predicate Inserted(before: seq<int>, after: seq<int>, slot: int, n: nat) {
    if |before| < n then
      after == before + [slot] && slot !in before && forall i :: 0 <= i < slot ==> i in before
    else
      |before| > 0 && slot == before[0] && after == before[1..] + [slot]
  }

  // ---------------------------------------------------------------- runs of writes

  function RememberAll(ids: seq<CreateID>, writes: seq<CreateID>, n: nat): seq<CreateID>
    requires n > 0
  {
    if |writes| == 0 then ids
    else Remember(RememberAll(ids, writes[..|writes| - 1], n), writes[|writes| - 1], n)
  }

  /** Identifiers that are permanent and pairwise different. */
  predicate UniquePermanent(ids: seq<CreateID>) {
    && (forall k :: 0 <= k < |ids| ==> IsPermanentID(ids[k]))
    && (forall j, k :: 0 <= j < k < |ids| ==> ids[j] != ids[k])
  }

  lemma RememberUnique(ids: seq<CreateID>, id: CreateID, n: nat)
    requires n > 0 && UniquePermanent(ids) && |ids| <= n && IsPermanentID(id)
    ensures UniquePermanent(Remember(ids, id, n)) && |Remember(ids, id, n)| <= n
    ensures id in Remember(ids, id, n)
  {
    var r := Remember(ids, id, n);
    if Known(ids, id) {
      var k :| 0 <= k < |ids| && IsSameID(ids[k], id);
      assert ids[k] == id;
    } else {
      assert forall k :: 0 <= k < |ids| ==> !IsSameID(ids[k], id);
      assert r[|r| - 1] == id;
    }
  }

  /** A run of writes of permanent identifiers keeps the list free of repetitions. */
  lemma {:induction false} RunUnique(ids: seq<CreateID>, writes: seq<CreateID>, n: nat)
    requires n > 0 && UniquePermanent(ids) && |ids| <= n
    requires forall k :: 0 <= k < |writes| ==> IsPermanentID(writes[k])
    ensures UniquePermanent(RememberAll(ids, writes, n)) && |RememberAll(ids, writes, n)| <= n
  {
    if |writes| > 0 {
      RunUnique(ids, writes[..|writes| - 1], n);
      RememberUnique(RememberAll(ids, writes[..|writes| - 1], n), writes[|writes| - 1], n);
    }
  }

  /** The last n entries. */
  function Newest(ids: seq<CreateID>, n: nat): seq<CreateID> {
    if |ids| <= n then ids else ids[|ids| - n..]
  }

  lemma UniquePrefix(s: seq<CreateID>, m: nat)
    requires m <= |s| && UniquePermanent(s)
    ensures UniquePermanent(s[..m])
  {
  }

  /** Writing identifiers that are all new keeps the newest n, in the order written. */
  lemma {:induction false} RunKeepsNewest(ids: seq<CreateID>, writes: seq<CreateID>, n: nat)
    requires n > 0 && |ids| <= n && UniquePermanent(ids + writes)
    ensures RememberAll(ids, writes, n) == Newest(ids + writes, n)
  {
    var s := ids + writes;
    if |writes| == 0 {
      assert s == ids;
    } else {
      var m := |writes| - 1;
      var p := ids + writes[..m];
      assert s[..|s| - 1] == p && s == p + [writes[m]];
      UniquePrefix(s, |s| - 1);
      RunKeepsNewest(ids, writes[..m], n);
      NewestIsNew(p, writes[m], n);
      hide UniquePermanent, Known;
      assert Newest(s, n) == Remember(Newest(p, n), writes[m], n);
    }
  }

  lemma NewestIsNew(p: seq<CreateID>, id: CreateID, n: nat)
    requires n > 0 && UniquePermanent(p + [id])
    ensures !Known(Newest(p, n), id)
  {
    var kept, s := Newest(p, n), p + [id];
    forall k | 0 <= k < |kept| ensures kept[k] != id {
      assert kept[k] == s[|p| - |kept| + k] && s[|p|] == id;
    }
  }

  /** An identifier is recognised exactly when it is permanent and stored: every write of a
      temporary one is an insertion. */
  lemma KnownExactly(ids: seq<CreateID>, id: CreateID)
    ensures Known(ids, id) <==> IsPermanentID(id) && id in ids
  {
    if IsPermanentID(id) && id in ids {
      var k :| 0 <= k < |ids| && ids[k] == id;
      assert IsSameID(ids[k], id);
    }
  }

  // ---------------------------------------------------------------- round-robin slots

  /** The list after c insertions into a formatted table of n slots. */
  predicate RoundRobin(order: seq<int>, n: nat, c: nat)
    requires n > 0
  {
    && |order| == (if c < n then c else n)
    && forall j :: 0 <= j < |order| ==> order[j] == (c - |order| + j) % n
  }

  /** From a formatted table, the insertion number c (from 0) takes slot c mod n. */
  lemma RoundRobinStep(before: seq<int>, after: seq<int>, slot: int, n: nat, c: nat)
    requires n > 0 && RoundRobin(before, n, c) && Inserted(before, after, slot, n) && 0 <= slot < n
    ensures slot == c % n && RoundRobin(after, n, c + 1)
  {
    if c < n { RoundRobinGrows(before, after, slot, n, c); } else { RoundRobinTurns(before, after, slot, n, c); }
  }

  lemma RoundRobinGrows(before: seq<int>, after: seq<int>, slot: int, n: nat, c: nat)
    requires c < n && RoundRobin(before, n, c) && Inserted(before, after, slot, n) && 0 <= slot < n
    ensures slot == c % n && RoundRobin(after, n, c + 1)
  {
    forall j | 0 <= j < c ensures before[j] == j { SmallRemainder(j, n); }
    forall j | 0 <= j < c ensures j in before { assert before[j] == j; }
    assert forall j :: j in before ==> j < c;
    assert slot >= c && c !in before;
    SmallRemainder(c, n);
    assert forall j :: 0 <= j <= c ==> after[j] == j;
    forall j | 0 <= j < |after| ensures after[j] == (c + 1 - |after| + j) % n { SmallRemainder(j, n); }
  }

  lemma RoundRobinTurns(before: seq<int>, after: seq<int>, slot: int, n: nat, c: nat)
    requires 0 < n <= c && RoundRobin(before, n, c) && Inserted(before, after, slot, n) && 0 <= slot < n
    ensures slot == c % n && RoundRobin(after, n, c + 1)
  {
    NextTurn(c, n);
    forall j | 0 <= j < n ensures after[j] == (c + 1 - n + j) % n {
      if j < n - 1 { assert after[j] == before[j + 1] && c + 1 - n + j == c - n + (j + 1); }
    }
  }

  lemma NextTurn(c: nat, n: nat)
    requires 0 < n <= c
    ensures (c - n) % n == c % n
  {
    assert c - n == n * ((c - n) / n) + (c - n) % n;
    DivUnique(c, n, (c - n) / n + 1);
  }

  /** A history of insertions into a formatted table: the lists it goes through. */
  predicate Insertions(orders: seq<seq<int>>, slots: seq<int>, n: nat) {
    && |orders| == |slots| + 1 && orders[0] == []
    && forall k :: 0 <= k < |slots| ==> 0 <= slots[k] < n && Inserted(orders[k], orders[k + 1], slots[k], n)
  }

  /** The slots of a formatted table are used in turn. */
  lemma {:induction false} InsertionsTakeTurns(orders: seq<seq<int>>, slots: seq<int>, n: nat)
    requires n > 0 && Insertions(orders, slots, n)
    ensures RoundRobin(orders[|slots|], n, |slots|)
    ensures forall k :: 0 <= k < |slots| ==> slots[k] == k % n
  {
    hide Inserted, RoundRobin;
    if |slots| == 0 {
      EmptyRoundRobin(n);
    } else {
      var m := |slots| - 1;
      InsertionsTakeTurns(orders[..m + 1], slots[..m], n);
      RoundRobinStep(orders[m], orders[m + 1], slots[m], n, m);
    }
  }

  /** In a run of writes of new identifiers, each one is an insertion. */
  lemma AllNew(writes: seq<CreateID>, k: nat, n: nat)
    requires n > 0 && UniquePermanent(writes) && k < |writes|
    ensures !Known(RememberAll([], writes[..k], n), writes[k])
  {
    hide UniquePermanent, Known;
    assert [] + writes[..k] == writes[..k] && writes[..k] + [writes[k]] == writes[..k + 1];
    UniquePrefix(writes, k);
    UniquePrefix(writes, k + 1);
    RunKeepsNewest([], writes[..k], n);
    NewestIsNew(writes[..k], writes[k], n);
  }

  /** A formatted table through a run of writes. `taken` are the slots of the writes, and
      `orders` the lists that the insertions among them lead through; new identifiers take
      the slots in turn. */
  method PutAll(n: nat, writes: seq<CreateID>, sex: bool)
    returns (db: HiddenDB, taken: seq<int>, ghost orders: seq<seq<int>>, ghost slots: seq<int>)
    requires 2 <= n <= MAX_SLOTS && forall k :: 0 <= k < |writes| ==> IsValidID(writes[k])
    ensures db.Valid() && db.data.Length == n && db.Ids() == RememberAll([], writes, n)
    ensures |taken| == |writes| && Insertions(orders, slots, n) && orders[|slots|] == db.order
    ensures RoundRobin(db.order, n, |slots|) && forall k :: 0 <= k < |slots| ==> slots[k] == k % n
    ensures UniquePermanent(writes) ==> taken == slots
  {
    hide RememberAll, Inserted, UniquePermanent, Known, RoundRobin, IsValidID, IsList, IdsOf;
    db := new HiddenDB(n);
    taken, orders, slots := [], [[]], [];
    NothingRemembered(n);
    assert writes[..0] == [];
    for k := 0 to |writes|
      invariant fresh(db) && fresh(db.data) && db.Valid() && db.data.Length == n && |taken| == k
      invariant db.Ids() == RememberAll([], writes[..k], n)
      invariant Insertions(orders, slots, n) && orders[|slots|] == db.order
      invariant UniquePermanent(writes) ==> taken == slots
    {
      ghost var before, ids := db.order, db.Ids();
      var slot := db.Put(writes[k], sex);
      taken := taken + [slot];
      if !Known(ids, writes[k]) {
        orders, slots := orders + [db.order], slots + [slot];
      }
      if UniquePermanent(writes) { AllNew(writes, k, n); }
      OneMoreRemembered(writes, k, n);
    }
    assert writes[..|writes|] == writes;
    InsertionsTakeTurns(orders, slots, n);
  }

  lemma NothingRemembered(n: nat)
    requires n > 0
    ensures RememberAll([], [], n) == []
  {
  }

  lemma OneMoreRemembered(writes: seq<CreateID>, k: nat, n: nat)
    requires n > 0 && k < |writes|
    ensures RememberAll([], writes[..k + 1], n) == Remember(RememberAll([], writes[..k], n), writes[k], n)
  {
    assert writes[..k + 1][..k] == writes[..k];
  }

  lemma EmptyRoundRobin(n: nat)
    requires n > 0
    ensures RoundRobin([], n, 0)
  {
  }

  lemma SmallRemainder(j: nat, n: nat)
    requires j < n
    ensures j % n == j
  {
  }
}
