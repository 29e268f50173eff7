/**
 The batch writer of the hidden database: a queue of records goes one by one into the
 table, the file and the cache, driven by the completions of asynchronous writes, and
 the header is saved after the last one.
 */
module HiddenWriter {
  import opened CreateIds
  import opened HiddenList
  import opened Options
  import opened Records

  /** Where a batch is: before the open callback; between two writes, inside a callback; a
      write outstanding; a write request refused; after the last write; after a failed one. */
  datatype Phase = Queued | Ready | Writing | Refused | Saving | Failed

  // ---------------------------------------------------------------- table and file as values

  /** Header and file hold the same identifiers in every slot outside `holes`. */
  predicate Agree(file: seq<HiddenCharData>, t: seq<TableData>, holes: set<int>) {
    |file| == |t| && forall i :: 0 <= i < |t| && i !in holes ==> file[i].stored.createID == t[i].id
  }

  predicate SameOutside(a: seq<HiddenCharData>, b: seq<HiddenCharData>, holes: set<int>) {
    |a| == |b| && forall i :: 0 <= i < |a| && i !in holes ==> a[i] == b[i]
  }

  predicate SameBut(t: seq<TableData>, t': seq<TableData>, slot: int) {
    |t'| == |t| && forall i :: 0 <= i < |t| && i != slot ==> t'[i].id == t[i].id && t'[i].sex == t[i].sex
  }

  /** The position of the last of the first n queued records with this identifier, or -1. */
  function LastIndex(list: seq<HiddenCharData>, n: nat, id: CreateID): (k: int)
    requires n <= |list|
    ensures -1 <= k < n
    ensures k >= 0 ==> list[k].stored.createID == id
    ensures forall j :: k < j < n ==> list[j].stored.createID != id
  {
    if n == 0 then -1
    else if list[n - 1].stored.createID == id then n - 1
    else LastIndex(list, n - 1, id)
  }

  /** Slot i of the file holds the last queued record for its identifier; a slot whose
      identifier was not queued still holds what it held before the batch, in the header too. */
  predicate LatestAt(file: seq<HiddenCharData>, file0: seq<HiddenCharData>, t: seq<TableData>,
                     t0: seq<TableData>, list: seq<HiddenCharData>, n: nat, i: int)
    requires |file| == |file0| == |t| == |t0| && 0 <= i < |t| && n <= |list|
  {
    var k := LastIndex(list, n, t[i].id);
    if k >= 0 then file[i] == list[k]
    else file[i] == file0[i] && t[i].id == t0[i].id && t[i].sex == t0[i].sex
  }

  predicate Latest(file: seq<HiddenCharData>, file0: seq<HiddenCharData>, t: seq<TableData>,
                   t0: seq<TableData>, list: seq<HiddenCharData>, n: nat, holes: set<int>)
    requires n <= |list|
  {
    && |file| == |file0| == |t| == |t0|
    && forall i :: 0 <= i < |t| && i !in holes && IsValidID(t[i].id) ==> LatestAt(file, file0, t, t0, list, n, i)
  }

  /** Putting a record into the table disturbs one slot only. */
  lemma PutKeepsLatest(file: seq<HiddenCharData>, file0: seq<HiddenCharData>, t: seq<TableData>, t': seq<TableData>,
                       t0: seq<TableData>, list: seq<HiddenCharData>, n: nat, slot: int, holes: set<int>)
    requires n <= |list| && SameBut(t, t', slot)
    requires Agree(file, t, holes) && Latest(file, file0, t, t0, list, n, holes)
    ensures Agree(file, t', holes + {slot}) && Latest(file, file0, t', t0, list, n, holes + {slot})
  {
    forall i | 0 <= i < |t'| && i !in holes + {slot} && IsValidID(t'[i].id)
      ensures LatestAt(file, file0, t', t0, list, n, i)
    {
      assert LatestAt(file, file0, t, t0, list, n, i);
    }
  }

  predicate IdOnlyAt(t: seq<TableData>, slot: int) {
    0 <= slot < |t| && forall i :: 0 <= i < |t| && i != slot ==> t[i].id != t[slot].id
  }

  /** Writing the record into that slot of the file repairs it. */
  lemma WriteRestoresLatest(file: seq<HiddenCharData>, file0: seq<HiddenCharData>, t: seq<TableData>,
                            t0: seq<TableData>, list: seq<HiddenCharData>, n: nat, slot: int, holes: set<int>)
    requires n < |list| && IdOnlyAt(t, slot) && t[slot].id == list[n].stored.createID
    requires Agree(file, t, holes) && Latest(file, file0, t, t0, list, n, holes)
    ensures Agree(file[slot := list[n]], t, holes - {slot})
    ensures Latest(file[slot := list[n]], file0, t, t0, list, n + 1, holes - {slot})
  {
    var file' := file[slot := list[n]];
    forall i | 0 <= i < |t| && i !in holes - {slot} && IsValidID(t[i].id)
      ensures LatestAt(file', file0, t, t0, list, n + 1, i)
    {
      if i != slot { assert LatestAt(file, file0, t, t0, list, n, i); }
    }
  }

  /** What a slot known to be bad holds is of no consequence. */
  lemma HoleKeepsLatest(file: seq<HiddenCharData>, file': seq<HiddenCharData>, file0: seq<HiddenCharData>,
                        t: seq<TableData>, t0: seq<TableData>, list: seq<HiddenCharData>, n: nat, holes: set<int>)
    requires n <= |list| && SameOutside(file', file, holes)
    requires Agree(file, t, holes) && Latest(file, file0, t, t0, list, n, holes)
    ensures Agree(file', t, holes) && Latest(file', file0, t, t0, list, n, holes)
  {
    forall i | 0 <= i < |t| && i !in holes && IsValidID(t[i].id) ensures LatestAt(file', file0, t, t0, list, n, i) {
      assert LatestAt(file, file0, t, t0, list, n, i);
    }
  }

  /** In a list of permanent, different identifiers no identifier has two slots. */
  lemma SlotsDiffer(t: seq<TableData>, head: int, tail: int, order: seq<int>, slot: int)
    requires IsList(t, head, tail, order) && UniquePermanent(IdsOf(t, order))
    requires slot in order
    ensures IdOnlyAt(t, slot)
  {
    var ids := IdsOf(t, order);
    var k :| 0 <= k < |order| && order[k] == slot;
    forall i | 0 <= i < |t| && i != slot ensures t[i].id != t[slot].id {
      assert IsPermanentID(ids[k]);
      if IsValidID(t[i].id) {
        assert i in order;
        var j :| 0 <= j < |order| && order[j] == i;
        assert ids[j] == t[i].id && ids[k] == t[slot].id;
      }
    }
  }

  function IdsQueued(list: seq<HiddenCharData>): (ids: seq<CreateID>)
    ensures |ids| == |list|
  {
    seq(|list|, k requires 0 <= k < |list| => list[k].stored.createID)
  }

  predicate PermanentRecords(list: seq<HiddenCharData>) {
    forall k :: 0 <= k < |list| ==> IsPermanentID(list[k].stored.createID)
  }

  lemma RememberOneMore(ids: seq<CreateID>, list: seq<HiddenCharData>, m: nat, n: nat)
    requires n > 0 && m < |list|
    ensures RememberAll(ids, IdsQueued(list[..m + 1]), n)
         == Remember(RememberAll(ids, IdsQueued(list[..m]), n), list[m].stored.createID, n)
  {
    var more := IdsQueued(list[..m + 1]);
    assert more[..|more| - 1] == IdsQueued(list[..m]);
  }

  // ---------------------------------------------------------------- the sexes in the header

  /** The entries of the header after these records are written; the sex of a record is the
      bit below the highest one of its first word. */
  function EnterAll(entries: seq<(CreateID, bool)>, list: seq<HiddenCharData>, n: nat): seq<(CreateID, bool)>
    requires n > 0
  {
    if |list| == 0 then entries
    else
      var last := list[|list| - 1].stored;
      Enter(EnterAll(entries, list[..|list| - 1], n), last.createID, (last.personal >> 14) & 1 == 1, n)
  }

  lemma EnterOneMore(entries: seq<(CreateID, bool)>, list: seq<HiddenCharData>, m: nat, n: nat)
    requires n > 0 && m < |list|
    ensures EnterAll(entries, list[..m + 1], n)
         == Enter(EnterAll(entries, list[..m], n), list[m].stored.createID, (list[m].stored.personal >> 14) & 1 == 1, n)
  {
    hide Enter;
    var more := list[..m + 1];
    assert more[..|more| - 1] == list[..m];
  }

  /** The header gives every record of the file its own sex. */
  predicate SexesAgree(file: seq<HiddenCharData>, t: seq<TableData>) {
    |file| == |t| && forall i :: 0 <= i < |t| && IsValidID(t[i].id) ==>
      t[i].sex == ((file[i].stored.personal >> 14) & 1 == 1)
  }

  /** Every entry has the sex of the last queued record for its identifier, if there is one. */
  predicate SexesMatch(entries: seq<(CreateID, bool)>, list: seq<HiddenCharData>) {
    forall k :: 0 <= k < |entries| ==>
      var j := LastIndex(list, |list|, entries[k].0);
      j >= 0 ==> entries[k].1 == ((list[j].stored.personal >> 14) & 1 == 1)
  }

  /** Since a known identifier keeps its sex, the header agrees with the file after a batch
      exactly when the sexes match, which the queue and the header before it decide. */
  lemma SexesExactly(file: seq<HiddenCharData>, file0: seq<HiddenCharData>, t: seq<TableData>, t0: seq<TableData>,
                     list: seq<HiddenCharData>, head: int, tail: int, order: seq<int>)
    requires Latest(file, file0, t, t0, list, |list|, {}) && SexesAgree(file0, t0) && IsList(t, head, tail, order)
    ensures SexesAgree(file, t) <==> SexesMatch(EntriesOf(t, order), list)
  {
    hide LastIndex;
    var entries := EntriesOf(t, order);
    assert forall k :: 0 <= k < |order| ==> order[k] in order;
    forall k | 0 <= k < |order| ensures LatestAt(file, file0, t, t0, list, |list|, order[k]) { }
    if SexesMatch(entries, list) {
      forall i | 0 <= i < |t| && IsValidID(t[i].id)
        ensures t[i].sex == ((file[i].stored.personal >> 14) & 1 == 1)
      {
        var k :| 0 <= k < |order| && order[k] == i;
        assert entries[k] == (t[i].id, t[i].sex);
      }
    }
    if SexesAgree(file, t) {
      forall k | 0 <= k < |entries|
        ensures var j := LastIndex(list, |list|, entries[k].0);
                j >= 0 ==> entries[k].1 == ((list[j].stored.personal >> 14) & 1 == 1)
      {
        assert LatestAt(file, file0, t, t0, list, |list|, order[k]);
        assert IsValidID(t[order[k]].id);
      }
    }
  }

  /** An entry that is there after the records are written was there before, or comes from
      one of them. */
  lemma {:induction false} EntrySource(entries: seq<(CreateID, bool)>, list: seq<HiddenCharData>, n: nat,
                                       e: (CreateID, bool))
    requires n > 0 && e in EnterAll(entries, list, n)
    ensures e in entries || exists j :: 0 <= j < |list| && list[j].stored.createID == e.0
                                        && e.1 == ((list[j].stored.personal >> 14) & 1 == 1)
  {
    hide IsSameID;
    if |list| > 0 {
      var m := |list| - 1;
      var before := EnterAll(entries, list[..m], n);
      if e in before {
        EntrySource(entries, list[..m], n, e);
      } else {
        assert e == (list[m].stored.createID, (list[m].stored.personal >> 14) & 1 == 1);
      }
    }
  }

  /** Records with new, different identifiers always match: the header takes their sexes. */
  lemma NewRecordsMatch(entries: seq<(CreateID, bool)>, list: seq<HiddenCharData>, n: nat)
    requires n > 0 && forall k, j :: 0 <= k < |entries| && 0 <= j < |list| ==> entries[k].0 != list[j].stored.createID
    requires forall j, k :: 0 <= j < k < |list| ==> list[j].stored.createID != list[k].stored.createID
    ensures SexesMatch(EnterAll(entries, list, n), list)
  {
    hide LastIndex, Enter;
    var after := EnterAll(entries, list, n);
    forall k | 0 <= k < |after|
      ensures var j := LastIndex(list, |list|, after[k].0);
              j >= 0 ==> after[k].1 == ((list[j].stored.personal >> 14) & 1 == 1)
    {
      EntrySource(entries, list, n, after[k]);
    }
  }

  // ---------------------------------------------------------------- the manager

  /** `RFLiHDBManager`, with the header it indexes and the records on the file system.
      `holes` are the slots whose last write has not succeeded. */
  class HiddenDBManager {
    const hdb: HiddenDB
    const file: array<HiddenCharData>
    const cachedDB: array<HiddenCharData>
    const cached: bool
    var list: seq<HiddenCharData>
    var current: nat
    var writeTmp: Option<HiddenCharData>
    var writeIndex: int
    var pending: bool
    var headerSaves: nat
    var closes: nat
    ghost var phase: Phase
    ghost var holes: set<int>
    ghost var file0: seq<HiddenCharData>
    ghost var table0: seq<TableData>
    ghost var ids0: seq<CreateID>
    ghost var entries0: seq<(CreateID, bool)>

    /** How many records of the queue are in the table. */
    ghost function Entered(): nat
      reads this
    {
      if phase.Writing? || phase.Refused? || phase.Failed? then current + 1 else current
    }

    ghost predicate Valid()
      reads this, hdb, hdb.data, file, cachedDB
    {
      && Shape()
      && Stored()
      && (cached ==> SameOutside(cachedDB[..], file[..], holes))
      && Progress()
    }

    ghost predicate Shape()
      reads this, hdb, hdb.data, file, cachedDB
    {
      && hdb.Valid()
      && file.Length == cachedDB.Length == hdb.data.Length && file != cachedDB
      && PermanentRecords(list) && Entered() <= |list|
    }

    /** The table is the bounded queue of the identifiers entered so far, and the file
        holds, slot by slot, the last record written for each of them. */
    ghost predicate Stored()
      reads this, hdb, hdb.data, file, cachedDB
      requires Shape()
    {
      && UniquePermanent(hdb.Ids())
      && hdb.Ids() == RememberAll(ids0, IdsQueued(list[..Entered()]), hdb.data.Length)
      && hdb.Entries() == EnterAll(entries0, list[..Entered()], hdb.data.Length)
      && Agree(file[..], hdb.data[..], holes)
      && Latest(file[..], file0, hdb.data[..], table0, list, current, holes)
    }

    ghost predicate Progress()
      reads this, hdb, hdb.data
    {
      && headerSaves == (if phase.Saving? then 1 else 0)
      && closes == (if phase.Failed? then 1 else 0)
      && (phase.Queued? ==> current == 0)
      && (phase.Saving? ==> current == |list|)
      && pending == phase.Writing?
      && (phase.Writing? ==> InFlight())
      && (phase.Ready? <==> writeTmp.Some? && !phase.Writing? && !phase.Refused?)
      && (phase.Refused? ==> writeTmp.Some?)
    }

    /** The batch is still the one that started from this state. */
    twostate predicate SameStart()
      reads this
    {
      file0 == old(file0) && table0 == old(table0) && ids0 == old(ids0) && entries0 == old(entries0)
    }

    /** The outstanding write. */
    ghost predicate InFlight()
      reads this, hdb, hdb.data
    {
      && current < |list| && writeTmp == Some(list[current])
      && IdOnlyAt(hdb.data[..], writeIndex) && hdb.data[writeIndex].id == list[current].stored.createID
      && writeIndex in holes
    }

    /** A database whose header and file agree. */
    constructor (hdb: HiddenDB, file: array<HiddenCharData>, cachedDB: array<HiddenCharData>, cached: bool)
      requires hdb.Valid() && UniquePermanent(hdb.Ids())
      requires file.Length == cachedDB.Length == hdb.data.Length && file != cachedDB
      requires Agree(file[..], hdb.data[..], {}) && (cached ==> cachedDB[..] == file[..])
      ensures Valid() && phase == Queued && holes == {} && list == []
      ensures this.hdb == hdb && this.file == file && this.cachedDB == cachedDB && this.cached == cached
    {
      this.hdb, this.file, this.cachedDB, this.cached, list := hdb, file, cachedDB, cached, [];
      current, writeTmp, writeIndex, pending, headerSaves, closes := 0, None, -1, false, 0, 0;
      phase, holes, file0, table0 := Queued, {}, file[..], hdb.data[..];
      ids0, entries0 := hdb.Ids(), hdb.Entries();
      new;
      assert list[..0] == [];
      assert IdsQueued(list[..0]) == [];
    }

    /** A new queue, once no write is outstanding. */
    method StartBatch(records: seq<HiddenCharData>)
      requires Valid() && !pending && !phase.Ready? && PermanentRecords(records)
      modifies this
      ensures Valid() && phase.Queued? && list == records && holes == old(holes)
      ensures file0 == file[..] && table0 == hdb.data[..] && ids0 == hdb.Ids() && entries0 == hdb.Entries()
    {
      hide Latest, LatestAt, LastIndex, Agree, SameOutside, RememberAll, IsList, UniquePermanent;
      hide EnterAll, EntriesOf, IdsOf, IdsQueued, PermanentRecords, IdOnlyAt;
      NothingWritten(file[..], hdb.data[..], records, holes, hdb.Ids(), hdb.Entries(), hdb.data.Length);
      list, current, writeTmp, headerSaves, closes := records, 0, None, 0, 0;
      phase, file0, table0, ids0, entries0 := Queued, file[..], hdb.data[..], hdb.Ids(), hdb.Entries();
    }

    /** Putting a permanent identifier into the table leaves it in one slot only. */
    method PutPermanent(id: CreateID, sex: bool) returns (slot: int)
      requires hdb.Valid() && UniquePermanent(hdb.Ids()) && IsPermanentID(id)
      modifies hdb, hdb.data
      ensures hdb.Valid() && UniquePermanent(hdb.Ids())
      ensures hdb.Ids() == Remember(old(hdb.Ids()), id, hdb.data.Length)
      ensures hdb.Entries() == Enter(old(hdb.Entries()), id, sex, hdb.data.Length)
      ensures Known(old(hdb.Ids()), id) ==> hdb.data[..] == old(hdb.data[..])
      ensures !Known(old(hdb.Ids()), id) ==> 0 <= slot < hdb.data.Length && hdb.data[slot].sex == sex
      ensures SameBut(old(hdb.data[..]), hdb.data[..], slot)
      ensures IdOnlyAt(hdb.data[..], slot) && hdb.data[slot].id == id
    {
      hide IsList, UniquePermanent, Remember, Enter, EntriesOf, Known, IdOnlyAt;
      hdb.Length();
      RememberUnique(hdb.Ids(), id, hdb.data.Length);
      slot := hdb.Put(id, sex);
      SlotsDiffer(hdb.data[..], hdb.head, hdb.tail, hdb.order, slot);
    }

    /** The record that is due is in the table, and its slot is the only new difference
        between header and file. */
    ghost predicate Due()
      reads this, hdb, hdb.data, file, cachedDB
    {
      && phase.Ready? && headerSaves == 0 && closes == 0 && !pending && current < |list|
      && hdb.Valid() && file.Length == cachedDB.Length == hdb.data.Length && file != cachedDB
      && PermanentRecords(list) && UniquePermanent(hdb.Ids())
      && hdb.Ids() == RememberAll(ids0, IdsQueued(list[..current + 1]), hdb.data.Length)
      && hdb.Entries() == EnterAll(entries0, list[..current + 1], hdb.data.Length)
      && Agree(file[..], hdb.data[..], holes + {writeIndex})
      && Latest(file[..], file0, hdb.data[..], table0, list, current, holes + {writeIndex})
      && (cached ==> SameOutside(cachedDB[..], file[..], holes))
      && IdOnlyAt(hdb.data[..], writeIndex) && 0 <= writeIndex < hdb.data.Length
      && hdb.data[writeIndex].id == list[current].stored.createID
    }

    /** What `writeData_` does to the table: a known identifier changes nothing, a new one
        gets a slot with the sex of its record, and every other slot stays. */
    twostate predicate Tabled()
      requires old(hdb.Valid())
      reads this, hdb, hdb.data
    {
      && current < |list| && 0 <= writeIndex < hdb.data.Length
      && (Known(old(hdb.Ids()), list[current].stored.createID) ==> hdb.data[..] == old(hdb.data[..]))
      && (!Known(old(hdb.Ids()), list[current].stored.createID) ==>
            hdb.data[writeIndex].sex == ((list[current].stored.personal >> 14) & 1 == 1))
      && hdb.data[writeIndex].id == list[current].stored.createID
      && SameBut(old(hdb.data[..]), hdb.data[..], writeIndex)
    }

    /** The table step of `writeData_`, for the record that is due. */
    method PutCurrent()
      requires Valid() && phase.Ready? && current < |list|
      modifies this`writeIndex, hdb, hdb.data
      ensures Due() && Tabled()
    {
      hide Latest, Agree, IdOnlyAt, SameBut, SameOutside, RememberAll, Remember, IsList, UniquePermanent;
      hide IsPermanentID, Enter, EnterAll, EntriesOf, IdsOf, Known;
      var data := list[current];
      ghost var was := hdb.data[..];
      assert IsPermanentID(data.stored.createID);
      writeIndex := PutPermanent(data.stored.createID, IsFemale(data));
      RememberOneMore(ids0, list, current, hdb.data.Length);
      EnterOneMore(entries0, list, current, hdb.data.Length);
      InTheTable(hdb.data[..], writeIndex);
      PutKeepsLatest(file[..], file0, was, hdb.data[..], table0, list, current, writeIndex, holes);
    }

    /** The request of the write. */
    method Issue(accepted: bool)
      requires Due()
      modifies this`writeTmp, this`pending, this`phase, this`holes
      ensures Valid() && phase == (if accepted then Writing else Refused) && holes == old(holes) + {writeIndex}
    {
      hide Latest, Agree, IdOnlyAt, SameOutside, RememberAll, IsList, UniquePermanent;
      hide EnterAll, EntriesOf, IdsOf;
      writeTmp := Some(list[current]);
      pending := accepted;
      phase := if accepted then Writing else Refused;
      MoreHoles(cachedDB[..], file[..], holes, writeIndex);
      holes := holes + {writeIndex};
    }

    /** `writeData_`: the table is updated at once, the file by an asynchronous write. A
        refusal of the request is not looked at. */
    method WriteData(accepted: bool)
      requires Valid() && phase.Ready? && current < |list|
      modifies this, hdb, hdb.data
      ensures Valid() && phase == (if accepted then Writing else Refused)
      ensures holes == old(holes) + {writeIndex}
      ensures current == old(current) && list == old(list) && Tabled() && SameStart()
    {
      hide Latest, Agree, IdOnlyAt, SameOutside, RememberAll, IsList, UniquePermanent;
      hide EnterAll, EntriesOf, IdsOf, Known, SameBut;
      PutCurrent();
      Issue(accepted);
    }

    /** `openForWriteCallback_`; `heap` is what the allocated block happens to hold. */
    method OpenForWrite(ok: bool, heap: HiddenCharData, accepted: bool)
      requires Valid() && phase.Queued?
      modifies this, hdb, hdb.data
      ensures Valid() && list == old(list) && current == 0
      ensures SameStart()
      ensures phase == if !ok || |list| == 0 then Queued else if accepted then Writing else Refused
      ensures phase.Queued? ==> holes == old(holes)
      ensures phase.Writing? || phase.Refused? ==> holes == old(holes) + {writeIndex}
    {
      if !ok { return; }
      if current < |list| {
        writeTmp := Some(heap);
        phase := Ready;
        WriteData(accepted);
      }
    }

    /** The outstanding write succeeds; its callback copies the record to the cache. */
    method Land()
      requires Valid() && phase.Writing?
      modifies this, file, cachedDB
      ensures Valid() && phase.Ready? && current == old(current) + 1 && list == old(list)
      ensures holes == old(holes) - {old(writeIndex)}
      ensures SameStart()
    {
      hide Latest, LatestAt, LastIndex, RememberAll, EnterAll, EntriesOf, IdsOf, IsList, UniquePermanent, Agree;
      hide IdOnlyAt;
      InTheTable(hdb.data[..], writeIndex);
      WriteRestoresLatest(file[..], file0, hdb.data[..], table0, list, current, writeIndex, holes);
      ghost var was := file[..];
      file[writeIndex] := writeTmp.value;
      assert file[..] == was[writeIndex := list[current]];
      if cached { cachedDB[writeIndex] := writeTmp.value; }
      holes := holes - {writeIndex};
      current, pending := current + 1, false;
      phase := Ready;
    }

    /** The outstanding write fails, leaving anything in its slot of the file. */
    method Fail(garbage: HiddenCharData)
      requires Valid() && phase.Writing?
      modifies this, file
      ensures Valid() && phase.Failed? && current == old(current) && list == old(list)
      ensures holes == old(holes)
      ensures SameStart()
    {
      hide LatestAt, LastIndex, Latest, Agree, RememberAll, EnterAll, EntriesOf, IdsOf, IsList, UniquePermanent;
      hide IdOnlyAt;
      ghost var was := file[..];
      InTheTable(hdb.data[..], writeIndex);
      file[writeIndex] := garbage;
      HoleKeepsLatest(was, file[..], file0, hdb.data[..], table0, list, current, holes);
      writeTmp, pending := None, false;
      phase := Failed;
      closes := closes + 1;
    }

    /** The end of the outstanding write, with its callback `writeCallback_`. */
    method WriteCallback(success: bool, garbage: HiddenCharData, accepted: bool)
      requires Valid() && phase.Writing?
      modifies this, hdb, hdb.data, file, cachedDB
      ensures Valid() && list == old(list)
      ensures SameStart()
      ensures current == if success then old(current) + 1 else old(current)
      ensures phase == if !success then Failed else if current == |list| then Saving
                       else if accepted then Writing else Refused
      ensures holes == (if success then old(holes) - {old(writeIndex)} else old(holes))
                       + (if phase.Writing? || phase.Refused? then {writeIndex} else {})
    {
      hide Latest, Agree, RememberAll, EnterAll, EntriesOf, IdsOf, IsList, UniquePermanent, IdOnlyAt, SameOutside;
      if success {
        Land();
        if current < |list| {
          WriteData(accepted);
        } else {
          writeTmp := None;
          phase := Saving;
          headerSaves := headerSaves + 1;
        }
      } else {
        Fail(garbage);
      }
    }

    /** The open callback of a batch without records: `writeHeader_`. */
    method OpenForHeader()
      requires Valid() && phase.Queued? && |list| == 0
      modifies this
      ensures Valid() && phase.Saving? && headerSaves == 1 && list == old(list) && holes == old(holes)
    {
      headerSaves := headerSaves + 1;
      phase := Saving;
    }

    /** A batch whose open and writes are all accepted and succeed: as many completions as
        records, then one header save, with header, file and cache in step. */
    method RunBatch(heap: HiddenCharData)
      requires Valid() && phase.Queued? && |list| > 0 && holes == {}
      modifies this, hdb, hdb.data, file, cachedDB
      ensures Valid() && headerSaves == 1 && closes == 0 && current == |list| && list == old(list)
      ensures UniquePermanent(hdb.Ids())
      ensures hdb.Ids() == RememberAll(old(ids0), IdsQueued(list), hdb.data.Length)
      ensures Agree(file[..], hdb.data[..], {}) && (cached ==> cachedDB[..] == file[..])
      ensures Latest(file[..], old(file0), hdb.data[..], old(table0), list, |list|, {})
      ensures hdb.Entries() == EnterAll(old(entries0), list, hdb.data.Length)
      ensures SexesAgree(old(file0), old(table0)) ==>
        (SexesAgree(file[..], hdb.data[..]) <==> SexesMatch(EnterAll(old(entries0), list, hdb.data.Length), list))
    {
      hide Latest, LatestAt, Agree, RememberAll, IsList, UniquePermanent, IdOnlyAt;
      OpenForWrite(true, heap, true);
      while pending
        invariant Valid() && (phase.Writing? || phase.Saving?) && list == old(list)
        invariant holes == if phase.Writing? then {writeIndex} else {}
        invariant SameStart()
        decreases |list| - current
      {
        WriteCallback(true, heap, true);
      }
      assert list[..|list|] == list;
      if SexesAgree(file0, table0) {
        SexesExactly(file[..], file0, hdb.data[..], table0, list, hdb.head, hdb.tail, hdb.order);
      }
    }

    /** The same batch in any environment: each request may be refused and each write fail. */
    method RunBatchAnyhow(ok: bool, heap: HiddenCharData, outcomes: seq<(bool, HiddenCharData, bool)>)
      requires Valid() && phase.Queued?
      modifies this, hdb, hdb.data, file, cachedDB
      ensures Valid() && list == old(list)
      ensures UniquePermanent(hdb.Ids()) && ids0 == old(ids0)
      ensures hdb.Ids() == RememberAll(ids0, IdsQueued(list[..Entered()]), hdb.data.Length)
      ensures |outcomes| > |list| ==> !phase.Writing?
      ensures !phase.Ready?
    {
      hide Latest, LatestAt, Agree, RememberAll, IsList, UniquePermanent, IdOnlyAt, SameOutside;
      if |outcomes| == 0 { return; }
      OpenForWrite(ok, heap, outcomes[0].2);
      var k := 1;
      while k < |outcomes| && pending
        invariant Valid() && list == old(list) && ids0 == old(ids0) && !phase.Ready?
        invariant 1 <= k <= |outcomes| && (phase.Writing? ==> current == k - 1)
        decreases |outcomes| - k
      {
        WriteCallback(outcomes[k].0, outcomes[k].1, outcomes[k].2);
        k := k + 1;
      }
    }
  }

  lemma NothingWritten(file: seq<HiddenCharData>, t: seq<TableData>, list: seq<HiddenCharData>, holes: set<int>,
                       ids: seq<CreateID>, entries: seq<(CreateID, bool)>, n: nat)
    requires |file| == |t| && n > 0
    ensures list[..0] == [] && EnterAll(entries, list[..0], n) == entries
    ensures Latest(file, file, t, t, list, 0, holes)
    ensures RememberAll(ids, IdsQueued(list[..0]), n) == ids
  {
  }

  lemma InTheTable(t: seq<TableData>, slot: int)
    requires IdOnlyAt(t, slot)
    ensures 0 <= slot < |t|
  {
  }

  lemma MoreHoles(a: seq<HiddenCharData>, b: seq<HiddenCharData>, holes: set<int>, slot: int)
    ensures SameOutside(a, b, holes) ==> SameOutside(a, b, holes + {slot})
  {
  }

  /** The database that formatting leaves: no record in the header, zeros in the file. */
  method Formatted(n: nat, cached: bool) returns (db: HiddenDBManager)
    requires 2 <= n <= MAX_SLOTS
    ensures db.Valid() && fresh(db) && fresh(db.hdb) && fresh(db.hdb.data) && fresh(db.file) && fresh(db.cachedDB)
    ensures db.hdb.data.Length == n && db.phase.Queued? && db.cached == cached
    ensures db.hdb.Ids() == []
  {
    var hdb := new HiddenDB(n);
    var file := new HiddenCharData[n](_ => ZeroHidden());
    var cache := new HiddenCharData[n](_ => ZeroHidden());
    db := new HiddenDBManager(hdb, file, cache, cached);
  }
}
