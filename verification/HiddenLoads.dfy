/**
 Loading records of the hidden database: which records can be loaded, from the cache or
 from the file, and the check that a loaded record gets.
 */
module HiddenLoads {
  import opened CreateIds
  import opened Errcodes
  import opened FileAccess
  import opened HiddenList
  import opened HiddenWriter
  import opened Records

  /** The record in slot i can be loaded: it is the one that the header names, and valid. */
  predicate Loadable(recs: seq<HiddenCharData>, t: seq<TableData>, i: int) {
    0 <= i < |recs| && i < |t| && IsSameID(recs[i].stored.createID, t[i].id) && ValidHidden(recs[i])
  }

  /** The loadable records among the slots of v, in order. */
  function Loaded(recs: seq<HiddenCharData>, t: seq<TableData>, v: seq<int>): (r: seq<HiddenCharData>)
    ensures |r| <= |v|
  {
    if |v| == 0 then []
    else
      var last := v[|v| - 1];
      Loaded(recs, t, v[..|v| - 1]) + if Loadable(recs, t, last) then [recs[last]] else []
  }

  lemma {:induction false} LoadedConcat(recs: seq<HiddenCharData>, t: seq<TableData>, v: seq<int>, w: seq<int>)
    ensures Loaded(recs, t, v + w) == Loaded(recs, t, v) + Loaded(recs, t, w)
  {
    hide Loadable;
    if |w| == 0 {
      assert v + w == v;
    } else {
      LoadedConcat(recs, t, v, w[..|w| - 1]);
      assert (v + w)[..|v + w| - 1] == v + w[..|w| - 1];
    }
  }

  lemma LoadedOne(recs: seq<HiddenCharData>, t: seq<TableData>, i: int)
    ensures Loaded(recs, t, [i]) == if Loadable(recs, t, i) then [recs[i]] else []
  {
    assert [i][..0] == [];
    hide Loadable;
  }

  /** `checkHiddenData_`. */
  predicate CheckHiddenData(d: HiddenCharData) {
    IsValidID(d.stored.createID) && ValidHidden(d)
  }

  lemma LoadedIsChecked(recs: seq<HiddenCharData>, t: seq<TableData>, i: int)
    requires Loadable(recs, t, i)
    ensures CheckHiddenData(recs[i])
  {
    hide ValidHidden;
  }

  lemma ZeroIsUnchecked()
    ensures !CheckHiddenData(ZeroHidden())
  {
    hide ValidHidden;
  }

  /** A buffer that holds `r` and is clear behind it. */
  predicate Holds(buffer: seq<HiddenCharData>, r: seq<HiddenCharData>) {
    && |r| <= |buffer| && buffer[..|r|] == r
    && forall k :: |r| <= k < |buffer| ==> buffer[k] == ZeroHidden()
  }

  /** The `memset` of `startUpdateDB_`. */
  method ClearBuffer(data: array<HiddenCharData>)
    modifies data
    ensures Holds(data[..], [])
  {
    for i := 0 to data.Length
      invariant forall k :: 0 <= k < i ==> data[k] == ZeroHidden()
    {
      data[i] := ZeroHidden();
    }
  }

  /** The records that cached loads of the slots of v give. */
  ghost function CachedRecords(mgr: HiddenDBManager, v: seq<int>): seq<HiddenCharData>
    reads mgr, mgr.hdb, mgr.hdb.data, mgr.cachedDB
  {
    if mgr.cached then Loaded(mgr.cachedDB[..], mgr.hdb.data[..], v) else []
  }

  /** `RFLiLoadCachedHiddenData` into the entry `dst` of a buffer. */
  method LoadCached(mgr: HiddenDBManager, data: array<HiddenCharData>, dst: nat, index: nat) returns (err: Errcode)
    requires mgr.hdb.Valid() && mgr.cachedDB.Length == mgr.hdb.data.Length
    requires dst < data.Length && data != mgr.cachedDB
    modifies data
    ensures forall k :: 0 <= k < data.Length && k != dst ==> data[k] == old(data[k])
    ensures err.Success? <==> mgr.cached && Loadable(mgr.cachedDB[..], mgr.hdb.data[..], index)
    ensures data[dst] == if err.Success? then mgr.cachedDB[index] else old(data[dst])
  {
    hide ValidHidden, IsSameID;
    if index >= mgr.hdb.data.Length { return WrongParam; }
    if !mgr.cached { return NotAvailable; }
    if !IsSameID(mgr.cachedDB[index].stored.createID, mgr.hdb.data[index].id) { return Broken; }
    if !ValidHidden(mgr.cachedDB[index]) { return Broken; }
    data[dst] := mgr.cachedDB[index];
    return Success;
  }

  lemma CachedConcat(mgr: HiddenDBManager, v: seq<int>, w: seq<int>)
    ensures CachedRecords(mgr, v + w) == CachedRecords(mgr, v) + CachedRecords(mgr, w)
  {
    LoadedConcat(mgr.cachedDB[..], mgr.hdb.data[..], v, w);
  }

  /** A cached load into the entry behind the `stored` records that are already there, and
      its check: the record counts exactly when it could be loaded. */
  method LoadAndCheck(mgr: HiddenDBManager, data: array<HiddenCharData>, stored: nat, index: nat) returns (now: nat)
    requires mgr.hdb.Valid() && mgr.cachedDB.Length == mgr.hdb.data.Length
    requires stored < data.Length && data != mgr.cachedDB && !IsValidID(data[stored].stored.createID)
    modifies data
    ensures stored <= now <= stored + 1 <= data.Length
    ensures data[..now] == old(data[..stored]) + CachedRecords(mgr, [index])
    ensures forall k :: now <= k < data.Length ==> data[k] == old(data[k])
  {
    hide ValidHidden, IsSameID, IsValidID, IsList;
    now := stored;
    var err := LoadCached(mgr, data, stored, index);
    if err.Success? { LoadedIsChecked(mgr.cachedDB[..], mgr.hdb.data[..], index); }
    LoadedOne(mgr.cachedDB[..], mgr.hdb.data[..], index);
    if CheckHiddenData(data[stored]) {
      now := stored + 1;
    }
  }

  // ---------------------------------------------------------------- loads from the file

  const RECORD_SIZE: nat := 0x40
  const DATABASE_SIZE: nat := 0x1F1E0

  /** Where a record stands in the database file, behind the header. */
  function Offset(index: nat): nat {
    index * RECORD_SIZE + DATABASE_SIZE
  }

  /** What the file system answers during one load, behind its accepted request; the
      reopening comes in when the file is still open. */
  datatype LoadReplies = LoadReplies(reopenResult: int, reopenReply: int, openResult: int, seekReply: int,
                                     seekResult: int, readReply: int, readResult: int, closeReply: int,
                                     closeResult: int)

  predicate Opens(r: LoadReplies, isOpen: bool) {
    (isOpen ==> r.reopenResult == NAND_OK && r.reopenReply == NAND_OK) && r.openResult == NAND_OK
  }

  /** The load callback runs: no other failure than these keeps it from doing so. */
  predicate Answers(r: LoadReplies, isOpen: bool) {
    Opens(r, isOpen) && r.seekReply == NAND_OK && r.closeReply == NAND_OK
  }

  /** The record is read in full. */
  predicate ReadDone(r: LoadReplies, index: nat) {
    r.seekReply == NAND_OK && r.seekResult == Offset(index) && r.readReply == NAND_OK && r.readResult == RECORD_SIZE
  }

  /** The load callback runs and finds the record read in full. */
  predicate Completes(r: LoadReplies, isOpen: bool, index: nat) {
    Answers(r, isOpen) && ReadDone(r, index) && r.closeResult == NAND_OK
  }

  /** All is accepted and succeeds. */
  function Undisturbed(index: nat): LoadReplies {
    LoadReplies(NAND_OK, NAND_OK, NAND_OK, NAND_OK, Offset(index), NAND_OK, RECORD_SIZE, NAND_OK, NAND_OK)
  }

  lemma UndisturbedCompletes(index: nat)
    ensures forall isOpen :: Completes(Undisturbed(index), isOpen, index)
  {
  }

  /** The header names the record, but it is not valid. */
  predicate BrokenRecord(recs: seq<HiddenCharData>, t: seq<TableData>, i: int) {
    0 <= i < |recs| && i < |t| && IsSameID(recs[i].stored.createID, t[i].id) && !ValidHidden(recs[i])
  }

  /** The code that the read leaves, with the look at the record behind it. */
  function ReadCode(r: LoadReplies, recs: seq<HiddenCharData>, t: seq<TableData>, index: nat): Errcode {
    if r.seekResult != Offset(index) then SeekError(r.seekResult)
    else if r.readReply != NAND_OK then ReadRefusal(r.readReply)
    else if r.readResult != RECORD_SIZE then ReadError(r.readResult)
    else if BrokenRecord(recs, t, index) then Broken
    else Success
  }

  /** The code that the load callback finds. */
  function LoadCode(r: LoadReplies, recs: seq<HiddenCharData>, t: seq<TableData>, index: nat): Errcode {
    if r.closeResult != NAND_OK then CloseError(r.closeResult) else ReadCode(r, recs, t, index)
  }

  /** The code that the callback finds, by the numbers that the file system returns. */
  lemma LoadByNumbers(r: LoadReplies, recs: seq<HiddenCharData>, t: seq<TableData>, index: nat)
    ensures r.closeResult != 0 ==>
      LoadCode(r, recs, t, index) == if r.closeResult in {-2, -3, -4} then NANDCommandfail else Fatal
    ensures r.closeResult == 0 && r.seekResult != 0x1F1E0 + 0x40 * index ==>
      LoadCode(r, recs, t, index) == if r.seekResult >= 0 then Loadfail
                                     else if r.seekResult in {-1, -2, -3} then NANDCommandfail else Fatal
    ensures r.closeResult == 0 && r.seekResult == 0x1F1E0 + 0x40 * index && r.readReply != 0 ==>
      LoadCode(r, recs, t, index) == if r.readReply in {-1, -2, -3, -4, -5} then NANDCommandfail else Fatal
    ensures r.closeResult == 0 && r.seekResult == 0x1F1E0 + 0x40 * index && r.readReply == 0 && r.readResult != 0x40 ==>
      LoadCode(r, recs, t, index) == if r.readResult >= 0 then Loadfail
                                     else if r.readResult in {-1, -2, -3, -4, -5, -15} then NANDCommandfail else Fatal
  {
    hide BrokenRecord;
  }

  /** A record is loadable when the header names it by a permanent identifier and it reads as
      valid. */
  lemma LoadableExactly(recs: seq<HiddenCharData>, t: seq<TableData>, i: int, was: CharInfo)
    ensures Loadable(recs, t, i) <==>
      && 0 <= i < |recs| && i < |t| && recs[i].stored.createID == t[i].id && IsPermanentID(t[i].id)
      && CheckValidInfo(HRaw2Info(recs[i], was))
  {
    hide CheckValidInfo, HRaw2Info;
    if 0 <= i < |recs| { ValidityBlind(ZeroChar(), recs[i], was); }
  }

  /** Only a load whose read is done ends with one of these codes. */
  lemma DoneExactly(r: LoadReplies, recs: seq<HiddenCharData>, t: seq<TableData>, index: nat)
    requires r.seekReply == NAND_OK
    ensures LoadCode(r, recs, t, index) in {Success, Broken} <==> r.closeResult == NAND_OK && ReadDone(r, index)
    ensures LoadCode(r, recs, t, index) == Broken ==> !Loadable(recs, t, index)
  {
    hide ValidHidden, IsSameID;
  }

  /** `loadcallback_`, up to its request of the close. */
  method LoadCallback(sys: Manager, mgr: HiddenDBManager, data: array<HiddenCharData>, dst: nat, index: nat)
    requires mgr.hdb.Valid() && mgr.file.Length == mgr.hdb.data.Length
    requires index < mgr.file.Length && dst < data.Length && data != mgr.file
    modifies sys`lastErrCode, data
    ensures sys.lastErrCode ==
      if old(sys.AsyncStatus()) == Success && BrokenRecord(mgr.file[..], mgr.hdb.data[..], index) then Broken
      else old(sys.lastErrCode)
    ensures forall k :: 0 <= k < data.Length && k != dst ==> data[k] == old(data[k])
    ensures data[dst] == if old(sys.AsyncStatus()) == Success && Loadable(mgr.file[..], mgr.hdb.data[..], index)
                         then mgr.file[index] else old(data[dst])
  {
    hide ValidHidden, IsList;
    if sys.AsyncStatus() == Success {
      var tmp := mgr.file[index];
      if IsSameID(tmp.stored.createID, mgr.hdb.data[index].id) {
        if ValidHidden(tmp) && !IsTemporaryID(tmp.stored.createID) {
          data[dst] := tmp;
        } else {
          sys.lastErrCode := Broken;
        }
      }
    }
  }

  /** From the accepted seek to the request of the close. */
  method ReadRecord(sys: Manager, mgr: HiddenDBManager, data: array<HiddenCharData>, dst: nat, index: nat,
                    r: LoadReplies)
    requires sys.Underway() && r.seekReply == NAND_OK && !Critical(sys.brokenType)
    requires mgr.hdb.Valid() && mgr.file.Length == mgr.hdb.data.Length
    requires index < mgr.file.Length && dst < data.Length && data != mgr.file
    modifies sys`working, sys`lastErrCode, sys`lastReason, data
    ensures !sys.working && sys.lastErrCode == ReadCode(r, mgr.file[..], mgr.hdb.data[..], index)
    ensures forall k :: 0 <= k < data.Length && k != dst ==> data[k] == old(data[k])
    ensures data[dst] == if ReadDone(r, index) && Loadable(mgr.file[..], mgr.hdb.data[..], index)
                         then mgr.file[index] else old(data[dst])
  {
    hide ValidHidden, IsSameID, IsList, Loadable, BrokenRecord;
    sys.ReadSeekCallback(r.seekResult, Offset(index), r.readReply);
    if sys.working { sys.ReadCallback(r.readResult, RECORD_SIZE); }
    LoadCallback(sys, mgr, data, dst, index);
  }

  /** `RFLiLoadHiddenDataAsync` of the record of a slot into an entry of a buffer, from its
      accepted request to its end. */
  method FinishLoad(sys: Manager, mgr: HiddenDBManager, data: array<HiddenCharData>, dst: nat, index: nat,
                    r: LoadReplies)
    returns (called: bool)
    requires sys.Underway() && mgr.hdb.Valid() && mgr.file.Length == mgr.hdb.data.Length
    requires index < mgr.file.Length && dst < data.Length && data != mgr.file
    modifies sys, data
    ensures !sys.working && sys.brokenType == old(sys.brokenType)
    ensures called <==> Answers(r, old(sys.isOpen)) && !Critical(sys.brokenType)
    ensures called ==> sys.lastErrCode == LoadCode(r, mgr.file[..], mgr.hdb.data[..], index)
    ensures called ==> sys.isOpen == (r.closeResult != NAND_OK)
    ensures called ==>
      (sys.lastErrCode == NANDCommandfail && sys.lastReason == NAND_BUSY <==> r.closeResult == NAND_BUSY)
    ensures forall k :: 0 <= k < data.Length && k != dst ==> data[k] == old(data[k])
    ensures data[dst] ==
      if Opens(r, old(sys.isOpen)) && !Critical(sys.brokenType) && ReadDone(r, index)
         && Loadable(mgr.file[..], mgr.hdb.data[..], index)
      then mgr.file[index] else old(data[dst])
  {
    hide IsList, Loadable, ReadCode;
    called := false;
    if sys.isOpen {
      sys.Close2OpenCallback(r.reopenResult, r.reopenReply);
      if !sys.working { return; }
    }
    sys.OpenCallback(r.openResult);
    if sys.AsyncStatus() != Success { return; }
    var status := sys.ReadAsync(r.seekReply);
    if status != Success && status != Busy {
      sys.CloseAsync(r.closeReply);
      if sys.working { sys.CloseCallback(r.closeResult); }
      return;
    }
    ReadRecord(sys, mgr, data, dst, index, r);
    sys.CloseAsync(r.closeReply);
    if sys.working {
      sys.CloseCallback(r.closeResult);
      called := true;
    }
  }
}
