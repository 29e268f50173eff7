/**
 Paging through the hidden database: each update of a `HiddenOlder` or `HiddenNewer`
 view loads the next page of the list, from the oldest or from the newest record on.
 */
module Paging {
  import opened CreateIds
  import opened Errcodes
  import opened FileAccess
  import opened HiddenLoads
  import opened HiddenList
  import opened HiddenWriter
  import opened Records

  /** The slots in the order of the view. */
  function View(order: seq<int>, older: bool): (v: seq<int>)
    ensures |v| == |order|
  {
    if older then order else Reversed(order)
  }

  function Reversed<T>(s: seq<T>): (r: seq<T>)
    ensures |r| == |s|
  {
    seq(|s|, j requires 0 <= j < |s| => s[|s| - 1 - j])
  }

  function Min(a: int, b: int): int {
    if a <= b then a else b
  }

  lemma ReversedConcat<T>(a: seq<T>, b: seq<T>)
    ensures Reversed(a + b) == Reversed(b) + Reversed(a)
  {
  }

  /** The older view starts with the first, oldest slot of the list, the newer one with the
      last. */
  lemma ViewStarts(order: seq<int>, k: nat)
    requires k < |order|
    ensures View(order, true)[k] == order[k] && View(order, false)[k] == order[|order| - 1 - k]
  {
  }

  /** The newer view shows the records of the older one in reverse. */
  lemma {:induction false} NewerIsReverse(recs: seq<HiddenCharData>, t: seq<TableData>, order: seq<int>)
    ensures Loaded(recs, t, View(order, false)) == Reversed(Loaded(recs, t, View(order, true)))
  {
    hide Loadable;
    if |order| > 0 {
      var rest, last := order[..|order| - 1], order[|order| - 1];
      NewerIsReverse(recs, t, rest);
      assert order == rest + [last];
      ReversedConcat(rest, [last]);
      assert Reversed([last]) == [last];
      LoadedConcat(recs, t, [last], Reversed(rest));
      LoadedOne(recs, t, last);
      ReversedConcat(Loaded(recs, t, rest), Loaded(recs, t, [last]));
      assert Reversed(Loaded(recs, t, [last])) == Loaded(recs, t, [last]);
    }
  }

  // ---------------------------------------------------------------- the view

  /** `RFLiMiddleDB` of type HiddenOlder or HiddenNewer. */
  class MiddleDB {
    const sys: Manager
    const mgr: HiddenDBManager
    const older: bool
    const data: array<HiddenCharData>
    var storedSize: nat
    var srcIdx: int
    var dstIdx: int
    var lastSrcIdx: int
    var loading: bool

    ghost predicate Valid()
      reads this, mgr, mgr.hdb, mgr.hdb.data
    {
      && mgr.hdb.Valid()
      && mgr.file.Length == mgr.cachedDB.Length == mgr.hdb.data.Length
      && data.Length <= mgr.hdb.data.Length
      && data != mgr.file && data != mgr.cachedDB
    }

    ghost function Slots(): seq<int>
      reads this, mgr, mgr.hdb
    {
      View(mgr.hdb.order, older)
    }

    /** The records that the cached load can reach. */
    ghost function Cached(v: seq<int>): seq<HiddenCharData>
      reads mgr, mgr.hdb, mgr.hdb.data, mgr.cachedDB
    {
      CachedRecords(mgr, v)
    }

    /** The first `pos` slots of the view have been visited. */
    ghost predicate At(pos: int)
      reads this, mgr, mgr.hdb
    {
      0 <= pos <= |Slots()| && srcIdx == HiddenList.At(Slots(), pos - 1)
    }

    /** `RFLInitMiddleDB`. */
    constructor (sys: Manager, mgr: HiddenDBManager, older: bool, data: array<HiddenCharData>)
      requires mgr.hdb.Valid() && mgr.file.Length == mgr.cachedDB.Length == mgr.hdb.data.Length
      requires data.Length <= mgr.hdb.data.Length && data != mgr.file && data != mgr.cachedDB
      ensures Valid() && At(0) && !loading
      ensures this.sys == sys && this.mgr == mgr && this.older == older && this.data == data
    {
      this.sys, this.mgr, this.older, this.data := sys, mgr, older, data;
      storedSize, srcIdx, dstIdx, lastSrcIdx, loading := 0, -1, 0, -1, false;
    }

    /** `RFLiGetHiddenNext` or `RFLiGetHiddenPrev`, as the view goes. */
    method Following(index: nat, ghost k: nat) returns (src: int)
      requires Valid() && k < |Slots()| && Slots()[k] == index
      ensures src == HiddenList.At(Slots(), k + 1)
    {
      hide IsList;
      ghost var order := mgr.hdb.order;
      if older {
        src := mgr.hdb.Next(index);
      } else {
        src := mgr.hdb.Prev(index);
        assert order[|order| - 1 - k] == index;
      }
    }

    /** `stepOne_`. */
    method StepOne(ghost pos: nat) returns (src: int)
      requires Valid() && At(pos)
      ensures src == HiddenList.At(Slots(), pos)
      ensures src >= 0 <==> pos < |Slots()|
    {
      mgr.hdb.InOrder();
      if srcIdx < 0 {
        src := if older then mgr.hdb.head else mgr.hdb.tail;
      } else {
        src := Following(srcIdx, pos - 1);
      }
    }

    /** `startUpdateDB_`. */
    method StartUpdate()
      modifies this`storedSize, this`dstIdx, this`lastSrcIdx, data
      ensures storedSize == 0 && dstIdx == 0 && lastSrcIdx == srcIdx && Holds(data[..], [])
    {
      storedSize := 0;
      ClearBuffer(data);
      dstIdx := 0;
      lastSrcIdx := srcIdx;
    }

    /** The loop body of `loadHiddenDataSync_`, at the slot number pos + dstIdx of the view. */
    method Visit(ghost pos: nat) returns (src: int)
      requires Valid() && 0 <= dstIdx < data.Length && pos + dstIdx < |Slots()| && srcIdx == Slots()[pos + dstIdx]
      requires storedSize <= dstIdx && Holds(data[..], data[..storedSize])
      requires data[..storedSize] == Cached(Slots()[pos..pos + dstIdx])
      modifies this`storedSize, this`dstIdx, data
      ensures Valid() && dstIdx == old(dstIdx) + 1 && src == HiddenList.At(Slots(), pos + dstIdx)
      ensures storedSize <= dstIdx && Holds(data[..], data[..storedSize])
      ensures data[..storedSize] == Cached(Slots()[pos..pos + dstIdx])
    {
      hide CachedRecords, IsList, HiddenList.At;
      ghost var v, k := Slots(), pos + dstIdx;
      mgr.hdb.InOrder();
      assert v[pos..k + 1] == v[pos..k] + [v[k]];
      CachedConcat(mgr, v[pos..k], [v[k]]);
      storedSize := LoadAndCheck(mgr, data, storedSize, srcIdx);
      src := Following(srcIdx, k);
      dstIdx := dstIdx + 1;
    }

    /** `loadHiddenDataSync_`: one page from the slot `srcIdx`, the slot number pos of the
        view, on. */
    method LoadHiddenDataSync(ghost pos: nat)
      requires Valid() && pos < |Slots()| && srcIdx == Slots()[pos]
      requires data.Length > 0 && storedSize == 0 && dstIdx == 0 && Holds(data[..], [])
      modifies this`storedSize, this`srcIdx, this`dstIdx, data, sys`working, sys`lastErrCode, sys`lastReason
      ensures Valid() && Reported(Success)
      ensures var next := Min(pos + data.Length, |Slots()|);
              var page := Cached(Slots()[pos..next]);
              At(next) && dstIdx == next - pos && storedSize == |page| && Holds(data[..], page)
    {
      hide Loaded, Loadable, IsList, Holds;
      var running := true;
      ghost var v := Slots();
      assert v[pos..pos] == [] && data[..0] == [];
      while running
        invariant Valid() && Slots() == v && 0 <= storedSize <= dstIdx <= data.Length && pos + dstIdx <= |v|
        invariant running ==> dstIdx < data.Length && pos + dstIdx < |v| && srcIdx == v[pos + dstIdx]
        invariant !running ==> pos + dstIdx == Min(pos + data.Length, |v|) && srcIdx == v[pos + dstIdx - 1]
        invariant dstIdx == 0 ==> running
        invariant Holds(data[..], data[..storedSize]) && data[..storedSize] == Cached(v[pos..pos + dstIdx])
        invariant unchanged(sys)
        decreases data.Length - dstIdx, running
      {
        var src := Visit(pos);
        SlotsInTable();
        if src >= 0 && dstIdx < data.Length {
          srcIdx := src;
        } else {
          running := false;
        }
      }
      SlotsInTable();
      sys.EndWorking(if srcIdx == -1 then NoData else Success);
    }

    /** What reporting a code by `RFLiEndWorking` leaves: an error of before stays. */
    twostate predicate Reported(err: Errcode)
      reads sys
    {
      && sys.lastErrCode == Ended(old(sys.lastErrCode), err) && sys.brokenType == old(sys.brokenType)
      && sys.working == (old(sys.working) && old(sys.lastErrCode) !in {Busy, Success})
    }

    lemma SlotsInTable()
      requires Valid()
      ensures forall j :: 0 <= j < |Slots()| ==> 0 <= Slots()[j] < mgr.hdb.data.Length
    {
      mgr.hdb.InOrder();
    }

    /** There is a next page; if not, the code says why. */
    ghost predicate HasNext(pos: int)
      reads this, sys, mgr, mgr.hdb
    {
      sys.DBIsLoaded() && data.Length > 0 && pos < |Slots()|
    }

    function NoPage(): Errcode
      reads sys
    {
      if sys.DBIsLoaded() && data.Length == 0 then NotAvailable else NoData
    }

    /** `RFLiUpdateMiddleDBAsync` and `updateHiddenOld_` with a cache: the next page. The
        result is not the code of this update when an error was recorded before. */
    method UpdateCached(ghost pos: nat) returns (result: Errcode, notified: bool)
      requires Valid() && At(pos)
      modifies this`storedSize, this`srcIdx, this`dstIdx, this`lastSrcIdx, data
      modifies sys`working, sys`lastErrCode, sys`lastReason
      ensures Valid() && result == sys.AsyncStatus() && notified == !sys.working
      ensures !old(HasNext(pos)) ==>
        At(pos) && storedSize == 0 && Holds(data[..], []) && Reported(NoPage())
      ensures old(HasNext(pos)) ==>
        var next := Min(pos + data.Length, |Slots()|);
        var page := Cached(Slots()[pos..next]);
        At(next) && storedSize == |page| && Holds(data[..], page) && Reported(Success)
    {
      StartUpdate();
      UpdateHiddenOld(pos);
      result, notified := sys.AsyncStatus(), !sys.working;
    }

    /** `updateHiddenOld_` with a cache. */
    method UpdateHiddenOld(ghost pos: nat)
      requires Valid() && At(pos) && storedSize == 0 && dstIdx == 0 && Holds(data[..], [])
      modifies this`storedSize, this`srcIdx, this`dstIdx, data, sys`working, sys`lastErrCode, sys`lastReason
      ensures Valid()
      ensures !old(HasNext(pos)) ==> At(pos) && storedSize == 0 && Holds(data[..], []) && Reported(NoPage())
      ensures old(HasNext(pos)) ==>
        var next := Min(pos + data.Length, |Slots()|);
        var page := Cached(Slots()[pos..next]);
        At(next) && storedSize == |page| && Holds(data[..], page) && Reported(Success)
    {
      hide Holds, Loaded, IsList;
      if !sys.DBIsLoaded() { sys.EndWorking(NoData); return; }
      if data.Length <= 0 { sys.EndWorking(NotAvailable); return; }
      var src := StepOne(pos);
      if src >= 0 {
        srcIdx := src;
        LoadHiddenDataSync(pos);
      } else {
        sys.EndWorking(NoData);
      }
    }

    /** Update after update from the start of the view as long as each reports Success: when
        no error is recorded at the start, the pages together hold every loadable record
        once, in the order of the view, and the last update reports no data; when one is, the
        first update reports it although it loads its page. */
    method ReadAllCached() returns (records: seq<HiddenCharData>, updates: nat, result: Errcode)
      requires Valid() && At(0) && data.Length > 0 && sys.DBIsLoaded() && !sys.CriticalError()
      modifies this`storedSize, this`srcIdx, this`dstIdx, this`lastSrcIdx, data
      modifies sys`working, sys`lastErrCode, sys`lastReason
      ensures Valid() && sys.brokenType == old(sys.brokenType)
      ensures old(sys.lastErrCode) in {Busy, Success} ==>
        && result == sys.lastErrCode == NoData && !sys.working && At(|Slots()|)
        && records == Cached(Slots()) && updates == Pages(|Slots()|, data.Length) + 1
      ensures old(sys.lastErrCode) !in {Busy, Success} ==>
        && result == old(sys.AsyncStatus()) && records == [] && updates == 1
        && At(Min(data.Length, |Slots()|))
    {
      hide Loaded, Loadable, IsList;
      ghost var v, pos := Slots(), 0;
      var notified;
      records, updates, result := [], 0, Success;
      assert v[..0] == [];
      while result == Success
        invariant Valid() && Slots() == v && 0 <= pos <= |v| && At(pos) && sys.brokenType == old(sys.brokenType)
        invariant updates == 0 ==>
          result == Success && pos == 0 && records == [] && sys.lastErrCode == old(sys.lastErrCode)
          && sys.working == old(sys.working)
        invariant updates > 0 && old(sys.lastErrCode) in {Busy, Success} ==>
          result == sys.lastErrCode && !sys.working && result in {Success, NoData}
        invariant updates > 0 && old(sys.lastErrCode) !in {Busy, Success} ==>
          result == old(sys.AsyncStatus()) && records == [] && updates == 1 && pos == Min(data.Length, |v|)
        invariant old(sys.lastErrCode) in {Busy, Success} ==>
          && records == Cached(v[..pos])
          && (result == Success ==> updates + Pages(|v| - pos, data.Length) == Pages(|v|, data.Length))
          && (result != Success ==> pos == |v| && updates == Pages(|v|, data.Length) + 1)
        decreases |v| - pos, result == Success
      {
        ghost var was := pos;
        ghost var more := HasNext(pos);
        result, notified := UpdateCached(pos);
        updates := updates + 1;
        if more { pos := Min(pos + data.Length, |v|); }
        if result == Success {
          records := records + data[..storedSize];
          assert v[..pos] == v[..was] + v[was..pos];
          CachedConcat(mgr, v[..was], v[was..pos]);
        }
      }
      assert v[..|v|] == v;
    }

    // -------------------------------------------------------------- the asynchronous page

    /** The page that started at the slot number pos is at the slot pos + dstIdx. */
    ghost predicate Loading(pos: int)
      reads this, sys, mgr, mgr.hdb, mgr.hdb.data, mgr.file, data
    {
      && loading && sys.Underway()
      && 0 <= pos && 0 <= storedSize <= dstIdx < data.Length && pos + dstIdx < |Slots()|
      && srcIdx == Slots()[pos + dstIdx] && lastSrcIdx == HiddenList.At(Slots(), pos - 1)
      && Holds(data[..], Loaded(mgr.file[..], mgr.hdb.data[..], Slots()[pos..pos + dstIdx]))
      && storedSize == |Loaded(mgr.file[..], mgr.hdb.data[..], Slots()[pos..pos + dstIdx])|
    }

    /** `RFLiUpdateMiddleDBAsync` and `updateHiddenOld_` without a cache, with the reply to
        its request. A refused request has already moved `srcIdx`. */
    method UpdateAsync(reply: int, ghost pos: nat) returns (result: Errcode, notified: bool)
      requires Valid() && At(pos) && !loading
      modifies this, data, sys`working, sys`lastErrCode, sys`lastReason
      ensures Valid() && result == sys.AsyncStatus() && notified == !sys.working
      ensures !old(HasNext(pos)) ==> !loading && At(pos) && storedSize == 0 && Reported(NoPage())
      ensures old(HasNext(pos)) ==>
        if reply == NAND_OK then Loading(pos) && dstIdx == 0
        else !loading && At(pos + 1) && storedSize == 0 && sys.lastErrCode == OpenRefusal(sys.isOpen, reply)
    {
      hide IsList;
      StartUpdate();
      if !sys.DBIsLoaded() {
        sys.EndWorking(NoData);
      } else if data.Length <= 0 {
        sys.EndWorking(NotAvailable);
      } else {
        var src := StepOne(pos);
        if src >= 0 {
          srcIdx := src;
          assert Slots()[pos..pos] == [];
          var err := sys.OpenAsync(reply);
          loading := err == Busy;
          if err != Busy { sys.EndWorking(err); }
        } else {
          sys.EndWorking(NoData);
        }
      }
      result, notified := sys.AsyncStatus(), !sys.working;
    }

    /** The next slot behind a load that succeeded or found a broken record, and the count of
        `updateHDBcallback_`. */
    method CountRead(broken: bool, ghost pos: nat, ghost before: seq<HiddenCharData>) returns (src: int)
      requires Valid() && 0 <= pos && 0 <= storedSize <= dstIdx < data.Length && pos + dstIdx < |Slots()|
      requires srcIdx == Slots()[pos + dstIdx] && |before| == data.Length
      requires var page := Loaded(mgr.file[..], mgr.hdb.data[..], Slots()[pos..pos + dstIdx]);
               Holds(before, page) && storedSize == |page|
      requires forall k :: 0 <= k < data.Length && k != storedSize ==> data[k] == before[k]
      requires data[storedSize] ==
        if Loadable(mgr.file[..], mgr.hdb.data[..], srcIdx) then mgr.file[srcIdx] else before[storedSize]
      requires broken ==> !Loadable(mgr.file[..], mgr.hdb.data[..], srcIdx)
      modifies this`storedSize, this`dstIdx
      ensures Valid() && dstIdx == old(dstIdx) + 1 && src == HiddenList.At(Slots(), pos + dstIdx)
      ensures var page := Loaded(mgr.file[..], mgr.hdb.data[..], Slots()[pos..pos + dstIdx]);
              storedSize == |page| <= dstIdx && Holds(data[..], page)
    {
      hide IsList, Loaded, Loadable, HiddenList.At, CheckHiddenData;
      ghost var v, k := Slots(), pos + dstIdx;
      mgr.hdb.InOrder();
      src := Following(srcIdx, k);
      FileNext(v, pos, k);
      LoadedOne(mgr.file[..], mgr.hdb.data[..], srcIdx);
      ZeroIsUnchecked();
      if Loadable(mgr.file[..], mgr.hdb.data[..], srcIdx) { LoadedIsChecked(mgr.file[..], mgr.hdb.data[..], srcIdx); }
      if !broken && CheckHiddenData(data[storedSize]) {
        storedSize := storedSize + 1;
      }
      dstIdx := dstIdx + 1;
    }

    /** The request of the next load, or the end of the page. */
    method GoOn(src: int, reply: int, ghost pos: nat)
      requires Valid() && !loading && !sys.working && !sys.CriticalError()
      requires 0 < dstIdx <= data.Length && 0 <= pos && pos + dstIdx <= |Slots()|
      requires srcIdx == Slots()[pos + dstIdx - 1] && src == HiddenList.At(Slots(), pos + dstIdx)
      requires lastSrcIdx == HiddenList.At(Slots(), pos - 1)
      requires var page := Loaded(mgr.file[..], mgr.hdb.data[..], Slots()[pos..pos + dstIdx]);
               storedSize == |page| <= dstIdx && Holds(data[..], page)
      modifies this`srcIdx, this`loading, sys`working, sys`lastErrCode, sys`lastReason
      ensures if pos + dstIdx == Min(pos + data.Length, |Slots()|) then
                && !loading && !sys.working && srcIdx == old(srcIdx)
                && sys.lastErrCode == (if storedSize < data.Length then NoData else Success)
              else if reply == NAND_OK then Loading(pos)
              else
                && !loading && !sys.working && srcIdx == src
                && sys.lastErrCode == OpenRefusal(sys.isOpen, reply) && sys.lastReason == reply
    {
      hide IsList, Loaded, Holds;
      SlotsInTable();
      if src >= 0 && dstIdx < data.Length {
        srcIdx := src;
        var err := sys.OpenAsync(reply);
        loading := err == Busy;
        if err != Busy { sys.EndWorking(err); }
      } else {
        sys.lastErrCode := if storedSize < data.Length then NoData else Success;
      }
    }

    /** The end of a load, `updateHDBcallback_`, and the reply to its next request. Without
        another load the page is complete. A page is taken back exactly when the next request
        is refused as busy, or the close of the load fails as busy: a read that fails as busy
        is none of these. Where no callback runs, as after a critical error, the view stays
        where it is. */
    method UpdateCallback(r: LoadReplies, reply: int, ghost pos: nat) returns (notified: bool)
      requires Valid() && Loading(pos)
      modifies this, data, sys
      ensures Valid() && lastSrcIdx == old(lastSrcIdx) && sys.brokenType == old(sys.brokenType)
      ensures loading == sys.working
      ensures var k, next := pos + old(dstIdx) + 1, Min(pos + data.Length, |Slots()|);
              if old(Completes(r, sys.isOpen, srcIdx)) && !sys.CriticalError() then
                if k == next then
                  var page := Loaded(mgr.file[..], mgr.hdb.data[..], Slots()[pos..next]);
                  && !loading && notified && At(next) && storedSize == |page| && Holds(data[..], page)
                  && sys.AsyncStatus() == (if storedSize < data.Length then NoData else Success)
                else if reply == NAND_OK then Loading(pos) && dstIdx == old(dstIdx) + 1 && !notified
                else
                  && !loading && notified && sys.AsyncStatus() == OpenRefusal(false, reply)
                  && if reply == NAND_BUSY then At(pos) && storedSize == 0 else At(k + 1)
              else
                && !loading && notified == (old(Answers(r, sys.isOpen)) && !sys.CriticalError())
                && (notified ==> sys.AsyncStatus() == old(LoadCode(r, mgr.file[..], mgr.hdb.data[..], srcIdx)))
                && if notified && r.closeResult == NAND_BUSY then At(pos) && storedSize == 0
                   else At(k) && storedSize == old(storedSize)
    {
      hide IsList, Loaded, Loadable, Holds, LoadCode, ReadDone, Opens;
      SlotsInTable();
      ghost var before := data[..];
      var called := FinishLoad(sys, mgr, data, storedSize, srcIdx, r);
      loading, notified := false, false;
      if !called { return; }
      var status := sys.AsyncStatus();
      DoneExactly(r, mgr.file[..], mgr.hdb.data[..], srcIdx);
      if status == Success || status == Broken {
        var src := CountRead(status == Broken, pos, before);
        GoOn(src, reply, pos);
      }
      notified := EndUpdate();
    }

    /** The end of `updateHDBcallback_`: an update that ended on a busy system is undone. */
    method EndUpdate() returns (notified: bool)
      modifies this`srcIdx, this`storedSize, this`dstIdx
      ensures notified == !sys.working
      ensures if notified && sys.AsyncStatus() == NANDCommandfail && sys.lastReason == NAND_BUSY
              then srcIdx == lastSrcIdx && storedSize == 0 && dstIdx == 0
              else srcIdx == old(srcIdx) && storedSize == old(storedSize) && dstIdx == old(dstIdx)
    {
      notified := false;
      if !sys.working {
        if sys.AsyncStatus() == NANDCommandfail && sys.lastReason == NAND_BUSY {
          srcIdx, storedSize, dstIdx := lastSrcIdx, 0, 0;
        }
        notified := true;
      }
    }

    /** An asynchronous page whose requests are all accepted and succeed stores what the
        cached page would, and leaves the view at the same place. */
    method UpdateAsyncUndisturbed(ghost pos: nat)
      requires Valid() && At(pos) && !loading && HasNext(pos) && !sys.CriticalError()
      modifies this, data, sys
      ensures Valid() && !loading
      ensures var next := Min(pos + data.Length, |Slots()|);
              var page := Loaded(mgr.file[..], mgr.hdb.data[..], Slots()[pos..next]);
              && At(next) && storedSize == |page| && Holds(data[..], page)
              && sys.AsyncStatus() == (if storedSize < data.Length then NoData else Success)
              && (mgr.cached && mgr.cachedDB[..] == mgr.file[..] ==> page == Cached(Slots()[pos..next]))
    {
      hide IsList, Loaded, Loadable, Holds, ReadCode;
      var _, _ := UpdateAsync(NAND_OK, pos);
      while loading
        invariant Valid()
        invariant loading ==> Loading(pos)
        invariant !loading ==>
          var next := Min(pos + data.Length, |Slots()|);
          var page := Loaded(mgr.file[..], mgr.hdb.data[..], Slots()[pos..next]);
          && At(next) && storedSize == |page| && Holds(data[..], page)
          && sys.AsyncStatus() == (if storedSize < data.Length then NoData else Success)
        invariant !sys.CriticalError()
        decreases loading, data.Length - dstIdx
      {
        SlotsInTable();
        var r := Undisturbed(srcIdx);
        UndisturbedCompletes(srcIdx);
        var _ := UpdateCallback(r, NAND_OK, pos);
      }
    }

    lemma FileNext(v: seq<int>, a: nat, b: nat)
      requires a <= b < |v|
      ensures Loaded(mgr.file[..], mgr.hdb.data[..], v[a..b + 1])
           == Loaded(mgr.file[..], mgr.hdb.data[..], v[a..b]) + Loaded(mgr.file[..], mgr.hdb.data[..], [v[b]])
    {
      assert v[a..b + 1] == v[a..b] + [v[b]];
      LoadedConcat(mgr.file[..], mgr.hdb.data[..], v[a..b], [v[b]]);
    }
  }

  /** As many pages as are needed, the last of them perhaps not full. */
  lemma {:induction false} PagesExactly(n: nat, k: nat)
    requires k > 0
    ensures (Pages(n, k) - 1) * k < n <= Pages(n, k) * k || (n == 0 && Pages(n, k) == 0)
    decreases n
  {
    if n > k {
      PagesExactly(n - k, k);
      var p := Pages(n - k, k);
      assert Pages(n, k) == 1 + p && (1 + p) * k == k + p * k && (1 + p - 1) * k == k + (p - 1) * k;
    } else if n > 0 {
      assert Pages(n - k, k) == 0;
    }
  }

  /** A read that fails as busy: the next page starts behind a slot that was never loaded. */
  method BusyRead(view: MiddleDB, ghost pos: nat)
    requires view.Valid() && view.At(pos) && !view.loading && view.HasNext(pos) && !view.sys.CriticalError()
    modifies view, view.data, view.sys
    ensures view.Valid() && view.At(pos + 1) && view.storedSize == 0 && view.sys.AsyncStatus() == NANDCommandfail
  {
    hide IsList, Holds, Loaded, Loadable;
    var _, _ := view.UpdateAsync(NAND_OK, pos);
    view.SlotsInTable();
    assert view.Slots()[pos..pos] == [];
    var _ := view.UpdateCallback(Undisturbed(view.srcIdx).(readResult := NAND_BUSY), NAND_OK, pos);
  }

  /** One view read to its end, then the first page of another: the page is loaded, and yet
      the update reports no data. */
  method SecondView(first: MiddleDB, second: MiddleDB) returns (result: Errcode)
    requires first != second && first.sys == second.sys && first.mgr == second.mgr && first.data != second.data
    requires first.Valid() && first.At(0) && first.data.Length > 0
    requires second.Valid() && second.At(0) && second.HasNext(0)
    requires !first.sys.CriticalError() && first.sys.lastErrCode == Success
    modifies first, first.data, second, second.data, first.sys
    ensures second.Valid() && result == NoData
    ensures var next := Min(second.data.Length, |second.Slots()|);
            var page := second.Cached(second.Slots()[..next]);
            second.At(next) && second.storedSize == |page| && Holds(second.data[..], page)
  {
    hide IsList, Holds, Loaded, Loadable;
    var records, updates, notified;
    records, updates, result := first.ReadAllCached();
    result, notified := second.UpdateCached(0);
    assert second.Slots()[0..Min(second.data.Length, |second.Slots()|)] ==
           second.Slots()[..Min(second.data.Length, |second.Slots()|)];
  }

  /** The number of pages of k entries that n entries fill. */
  function Pages(n: int, k: nat): nat
    requires k > 0
    decreases n
  {
    if n <= 0 then 0 else 1 + Pages(n - k, k)
  }
}