/**
 Random samples of the hidden database: the eligible slots are collected and shuffled,
 their numbers are stored in the first words of the result buffer, and the records are
 then loaded into that same buffer, packed towards its start.
 */
module Sampling {
  import opened CreateIds
  import opened Errcodes
  import opened FileAccess
  import opened HiddenList
  import opened HiddenLoads
  import opened HiddenWriter
  import opened Records
  import opened Words

  datatype SexMask = Male | Female | All

  // ---------------------------------------------------------------- the eligible slots

  /** `RFLiIsValidHiddenData`. */
  predicate IsValidHiddenData(t: seq<TableData>, i: nat, sex: SexMask)
    requires i < |t|
  {
    IsValidID(t[i].id) && (sex.All? || (if t[i].sex then sex.Female? else sex.Male?))
  }

  /** The eligible slots below n, in increasing order. */
  function Eligible(t: seq<TableData>, sex: SexMask, n: nat): (e: seq<int>)
    requires n <= |t|
    ensures |e| <= n
  {
    if n == 0 then []
    else Eligible(t, sex, n - 1) + if IsValidHiddenData(t, n - 1, sex) then [n - 1] else []
  }

  lemma {:induction false} EligibleExactly(t: seq<TableData>, sex: SexMask, n: nat)
    requires n <= |t|
    ensures Distinct(Eligible(t, sex, n)) && InTable(Eligible(t, sex, n), n)
    ensures forall i :: 0 <= i < n ==> (i in Eligible(t, sex, n) <==> IsValidHiddenData(t, i, sex))
  {
    hide IsValidHiddenData;
    if n > 0 { EligibleExactly(t, sex, n - 1); }
  }

  /** `RFLiCountupHiddenDataNum`. */
  method CountupHiddenDataNum(hdb: HiddenDB, sex: SexMask) returns (count: nat)
    requires hdb.Valid()
    ensures count == |Eligible(hdb.data[..], sex, hdb.data.Length)|
  {
    hide IsValidHiddenData, IsList;
    count := 0;
    for i := 0 to hdb.data.Length
      invariant count == |Eligible(hdb.data[..], sex, i)|
    {
      if IsValidHiddenData(hdb.data[..], i, sex) { count := count + 1; }
    }
  }

  /** The filling loop of `updateHiddenRandom_`: an array of exactly the counted size
      receives exactly the eligible slots. */
  method FillEligible(hdb: HiddenDB, sex: SexMask, slots: array<int>)
    requires hdb.Valid() && slots.Length == |Eligible(hdb.data[..], sex, hdb.data.Length)|
    modifies slots
    ensures slots[..] == Eligible(hdb.data[..], sex, hdb.data.Length)
  {
    hide IsValidHiddenData, IsList;
    var aidx := 0;
    for i := 0 to hdb.data.Length
      invariant aidx == |Eligible(hdb.data[..], sex, i)| && aidx <= slots.Length
      invariant slots[..aidx] == Eligible(hdb.data[..], sex, i)
    {
      EligibleGrows(hdb.data[..], sex, i + 1, hdb.data.Length);
      if IsValidHiddenData(hdb.data[..], i, sex) {
        slots[aidx] := i;
        aidx := aidx + 1;
      }
    }
  }

  lemma {:induction false} EligibleGrows(t: seq<TableData>, sex: SexMask, m: nat, n: nat)
    requires m <= n <= |t|
    ensures |Eligible(t, sex, m)| <= |Eligible(t, sex, n)|
  {
    hide IsValidHiddenData;
    if m < n { EligibleGrows(t, sex, m, n - 1); }
  }

  // ---------------------------------------------------------------- the shuffle

  /** The random numbers: one linear congruential step. */
  function NextRand(rand: u32): u32 {
    (0x04F8_BB63 * (rand + 0x046A_C055)) % TWO32
  }

  /** The partner of entry i, another of the `count` entries. */
  function Target(rand: u32, i: nat, count: nat): (target: nat)
    requires i < count - 1
    ensures target < count && target != i
  {
    var r := ((rand / 0x1_0000 + rand) % TWO32) % 0x1_0000;
    var target := r % (count - 1);
    if target >= i then target + 1 else target
  }

  /** The random numbers are a linear congruential sequence modulo 2^32. */
  lemma NextIsLinear(rand: u32)
    ensures NextRand(rand) == (0x04F8_BB63 * rand + 0x561E_77DF) % 0x1_0000_0000
  {
    var wide: nat := 0x04F8_BB63 * 0x046A_C055;
    assert wide == wide / TWO32 * TWO32 + 0x561E_77DF;
    AddMultiple(0x04F8_BB63 * rand + 0x561E_77DF, wide / TWO32, TWO32);
  }

  lemma AddMultiple(a: nat, q: nat, m: nat)
    requires m > 0
    ensures (a + q * m) % m == a % m
  {
    DivUnique(a + q * m, m, a / m + q);
  }

  /** The draw for entry i adds the two halves of the random number; the partner is the entry
      of that number, counted without entry i. */
  lemma PartnerDrawn(rand: u32, i: nat, count: nat)
    requires i < count - 1
    ensures var drawn := (rand / 0x1_0000 + rand % 0x1_0000) % 0x1_0000 % (count - 1);
            Target(rand, i, count) == if drawn < i then drawn else drawn + 1
  {
    var high: nat, low: nat := rand / 0x1_0000, rand % 0x1_0000;
    assert high + rand == (high + low) + high * 0x1_0000;
    assert ((high + rand) % TWO32) % 0x1_0000 == (high + low) % 0x1_0000;
  }

  function Swapped(s: seq<int>, i: nat, j: nat): (r: seq<int>)
    requires i < |s| && j < |s|
    ensures |r| == |s|
  {
    s[j := s[i]][i := s[j]]
  }

  /** The array after the first n rounds of the shuffle that starts with the tick `rand`. */
  function Shuffled(s: seq<int>, rand: u32, n: nat): (r: seq<int>)
    requires n == 0 || n < |s|
    ensures |r| == |s|
  {
    if n == 0 then s else Swapped(Shuffled(s, rand, n - 1), n - 1, Target(RandAt(rand, n - 1), n - 1, |s|))
  }

  function RandAt(rand: u32, n: nat): u32 {
    if n == 0 then rand else NextRand(RandAt(rand, n - 1))
  }

  lemma SwapPermutes(s: seq<int>, i: nat, j: nat)
    requires i < |s| && j < |s|
    ensures multiset(Swapped(s, i, j)) == multiset(s)
  {
  }

  /** Whatever the tick, the shuffle only rearranges. */
  lemma {:induction false} ShufflePermutes(s: seq<int>, rand: u32, n: nat)
    requires n == 0 || n < |s|
    ensures multiset(Shuffled(s, rand, n)) == multiset(s)
  {
    hide Target, Swapped;
    if n > 0 {
      ShufflePermutes(s, rand, n - 1);
      SwapPermutes(Shuffled(s, rand, n - 1), n - 1, Target(RandAt(rand, n - 1), n - 1, |s|));
    }
  }

  lemma SwapDistinct(s: seq<int>, i: nat, j: nat)
    requires i < |s| && j < |s| && Distinct(s)
    ensures Distinct(Swapped(s, i, j))
  {
  }

  lemma {:induction false} ShuffleDistinct(s: seq<int>, rand: u32, n: nat)
    requires (n == 0 || n < |s|) && Distinct(s)
    ensures Distinct(Shuffled(s, rand, n))
  {
    hide Target, Swapped, Distinct;
    if n > 0 {
      ShuffleDistinct(s, rand, n - 1);
      SwapDistinct(Shuffled(s, rand, n - 1), n - 1, Target(RandAt(rand, n - 1), n - 1, |s|));
    }
  }

  /** The shuffling loop of `updateHiddenRandom_`. */
  method Shuffle(slots: array<int>, tick: u32)
    requires slots.Length > 0
    modifies slots
    ensures slots[..] == Shuffled(old(slots[..]), tick, slots.Length - 1)
  {
    hide Target, NextRand;
    var count, rand, i := slots.Length, tick, 0;
    while i < count - 1
      invariant 0 <= i <= count - 1 && rand == RandAt(tick, i)
      invariant slots[..] == Shuffled(old(slots[..]), tick, i)
    {
      var target := Target(rand, i, count);
      var tmp := slots[target];
      slots[target] := slots[i];
      slots[i] := tmp;
      rand := NextRand(rand);
      i := i + 1;
    }
  }

  // ---------------------------------------------------------------- slot numbers in the buffer

  /** The first word of a record, as the sampler reads it. */
  function FirstWord(d: HiddenCharData): int {
    (d.stored.personal as int) * 0x1_0000 + d.stored.name[0]
  }

  /** A record whose first word has been overwritten. */
  function WithFirstWord(d: HiddenCharData, w: u32): HiddenCharData {
    d.(stored := d.stored.(personal := (w / 0x1_0000) as bv16, name := d.stored.name[0 := w % 0x1_0000]))
  }

  lemma SmallFirstWord(d: HiddenCharData, w: u32)
    requires w < 0x1_0000
    ensures FirstWord(WithFirstWord(d, w)) == w
    ensures WithFirstWord(d, w).stored.createID == d.stored.createID
  {
    assert w / 0x1_0000 == 0 && w % 0x1_0000 == w;
    assert WithFirstWord(d, w).stored.personal == 0;
  }

  lemma ZeroFirstWord()
    ensures FirstWord(ZeroHidden()) == 0
  {
  }

  /** The entries from d on still hold the numbers of the chosen slots, plus one. */
  predicate Unread(buffer: seq<HiddenCharData>, chosen: seq<int>, d: nat) {
    forall k :: d <= k < |buffer| ==> FirstWord(buffer[k]) == if k < |chosen| then chosen[k] + 1 else 0
  }

  /** The entries from s on hold no record. */
  predicate Unstored(buffer: seq<HiddenCharData>, s: nat) {
    forall k :: s <= k < |buffer| ==> !IsValidID(buffer[k].stored.createID)
  }

  /** The chosen slots that are loaded: loading stops behind the last slot of the table. */
  function Visited(chosen: seq<int>, n: int): (v: seq<int>)
    ensures |v| <= |chosen| && v == chosen[..|v|]
  {
    if |chosen| == 0 then []
    else if chosen[0] >= n - 1 then [chosen[0]]
    else [chosen[0]] + Visited(chosen[1..], n)
  }

  lemma {:induction false} VisitedIs(chosen: seq<int>, n: int, d: nat)
    requires d <= |chosen| && forall k :: 0 <= k < d - 1 ==> chosen[k] < n - 1
    requires d == |chosen| || (d > 0 && chosen[d - 1] >= n - 1)
    ensures Visited(chosen, n) == chosen[..d]
  {
    if d > 0 {
      if d > 1 || chosen[0] < n - 1 { VisitedIs(chosen[1..], n, d - 1); }
      assert chosen[..d] == [chosen[0]] + chosen[1..][..d - 1];
    }
  }

  /** The whole sample is visited exactly when the last slot of the table is not chosen,
      or chosen last. */
  lemma {:induction false} VisitedAll(chosen: seq<int>, n: int)
    ensures Visited(chosen, n) == chosen <==> forall k :: 0 <= k < |chosen| - 1 ==> chosen[k] < n - 1
  {
    if |chosen| > 1 {
      var rest := chosen[1..];
      VisitedAll(rest, n);
      assert chosen == [chosen[0]] + rest;
      if forall k :: 0 <= k < |rest| - 1 ==> rest[k] < n - 1 {
        assert chosen[0] < n - 1 ==> forall k :: 0 <= k < |chosen| - 1 ==> chosen[k] < n - 1;
      } else {
        var k :| 0 <= k < |rest| - 1 && rest[k] >= n - 1;
        assert chosen[k + 1] >= n - 1;
      }
    }
  }

  /** The slots in front of the last slot of the table. */
  function UpToLast(chosen: seq<int>, n: int): (v: seq<int>)
    ensures |v| <= |chosen| && v == chosen[..|v|]
    ensures forall k :: 0 <= k < |v| ==> v[k] < n - 1
    ensures |v| < |chosen| ==> chosen[|v|] >= n - 1
  {
    if |chosen| == 0 || chosen[0] >= n - 1 then [] else [chosen[0]] + UpToLast(chosen[1..], n)
  }

  /** The chosen slots that the asynchronous sample loads: the first one whatever it is, and
      the others up to the last slot of the table. */
  function AsyncVisited(chosen: seq<int>, n: int): (v: seq<int>)
    ensures |v| <= |chosen| && v == chosen[..|v|] && (|chosen| > 0 ==> |v| > 0)
    ensures forall k :: 0 < k < |v| ==> v[k] < n - 1
    ensures |v| < |chosen| ==> chosen[|v|] >= n - 1
  {
    if |chosen| == 0 then [] else [chosen[0]] + UpToLast(chosen[1..], n)
  }

  lemma AsyncVisitedIs(chosen: seq<int>, n: int, d: nat)
    requires 0 < d <= |chosen| && forall k :: 0 < k < d ==> chosen[k] < n - 1
    requires d == |chosen| || chosen[d] >= n - 1
    ensures AsyncVisited(chosen, n) == chosen[..d]
  {
    UpToLastIs(chosen[1..], n, d - 1);
    assert chosen[..d] == [chosen[0]] + chosen[1..][..d - 1];
  }

  lemma {:induction false} UpToLastIs(chosen: seq<int>, n: int, d: nat)
    requires d <= |chosen| && forall k :: 0 <= k < d ==> chosen[k] < n - 1
    requires d == |chosen| || chosen[d] >= n - 1
    ensures UpToLast(chosen, n) == chosen[..d]
  {
    if d > 0 {
      UpToLastIs(chosen[1..], n, d - 1);
      assert chosen[..d] == [chosen[0]] + chosen[1..][..d - 1];
    }
  }

  /** It loads the whole sample exactly when the last slot is not chosen behind another one. */
  lemma AsyncVisitedAll(chosen: seq<int>, n: int)
    ensures AsyncVisited(chosen, n) == chosen <==> forall k :: 0 < k < |chosen| ==> chosen[k] < n - 1
  {
    var v := AsyncVisited(chosen, n);
    if |v| < |chosen| {
      if |chosen| > 0 { assert chosen[|v|] >= n - 1; }
    } else {
      assert v == chosen;
    }
  }

  /** The slots that the first `size` places of the shuffle hold. */
  function Sample(t: seq<TableData>, sex: SexMask, tick: u32, size: nat): seq<int> {
    var e := Eligible(t, sex, |t|);
    if |e| == 0 then [] else Shuffled(e, tick, |e| - 1)[..if |e| < size then |e| else size]
  }

  /** All these records are of the sex asked for. */
  predicate OfSex(records: seq<HiddenCharData>, sex: SexMask) {
    forall d :: d in records ==>
      && (sex.Female? ==> (d.stored.personal >> 14) & 1 == 1)
      && (sex.Male? ==> (d.stored.personal >> 14) & 1 == 0)
  }

  // ---------------------------------------------------------------- the view

  /** `RFLiMiddleDB` of type HiddenRandom. */
  class MiddleDB {
    const sys: Manager
    const mgr: HiddenDBManager
    const data: array<HiddenCharData>
    var sex: SexMask
    var storedSize: nat
    var dstIdx: nat
    var loadIndex: nat
    var loading: bool

    ghost predicate Valid()
      reads this, mgr, mgr.hdb, mgr.hdb.data
    {
      && mgr.hdb.Valid() && mgr.file.Length == mgr.cachedDB.Length == mgr.hdb.data.Length
      && 0 < data.Length && data != mgr.cachedDB && data != mgr.file
    }

    /** The numbers of the chosen slots from dstIdx on are unread, and the records stored are
        `done`. */
    ghost predicate Holding(chosen: seq<int>, done: seq<HiddenCharData>)
      reads this, data
    {
      && dstIdx <= |chosen| <= data.Length && storedSize <= dstIdx
      && Unread(data[..], chosen, dstIdx) && Unstored(data[..], storedSize)
      && data[..storedSize] == done
    }

    ghost predicate Packed(chosen: seq<int>)
      reads this, mgr, mgr.hdb, mgr.hdb.data, mgr.cachedDB, data
    {
      dstIdx <= |chosen| && Holding(chosen, CachedRecords(mgr, chosen[..dstIdx]))
    }

    /** The records of these slots, from the file. */
    ghost function FileRecords(v: seq<int>): seq<HiddenCharData>
      reads mgr, mgr.hdb, mgr.hdb.data, mgr.file
    {
      Loaded(mgr.file[..], mgr.hdb.data[..], v)
    }

    ghost predicate FilePacked(chosen: seq<int>)
      reads this, mgr, mgr.hdb, mgr.hdb.data, mgr.file, data
    {
      dstIdx <= |chosen| && Holding(chosen, FileRecords(chosen[..dstIdx]))
    }

    constructor (sys: Manager, mgr: HiddenDBManager, data: array<HiddenCharData>, sex: SexMask)
      requires mgr.hdb.Valid() && mgr.file.Length == mgr.cachedDB.Length == mgr.hdb.data.Length
      requires 0 < data.Length && data != mgr.cachedDB && data != mgr.file
      ensures Valid() && !loading
      ensures this.sys == sys && this.mgr == mgr && this.data == data && this.sex == sex
    {
      this.sys, this.mgr, this.data, this.sex := sys, mgr, data, sex;
      storedSize, dstIdx, loadIndex, loading := 0, 0, 0, false;
    }

    /** The storing loop of `updateHiddenRandom_`. */
    method StoreSlots(slots: array<int>, max: nat)
      requires Valid() && Holds(data[..], []) && max <= slots.Length && max <= data.Length
      requires InTable(slots[..], mgr.hdb.data.Length)
      requires storedSize == 0 && dstIdx == 0
      modifies data
      ensures Holding(slots[..max], [])
    {
      hide IsList, FirstWord, WithFirstWord;
      ZeroFirstWord();
      for i := 0 to max
        invariant forall k :: 0 <= k < i ==> FirstWord(data[k]) == slots[k] + 1
        invariant forall k :: i <= k < data.Length ==> data[k] == ZeroHidden()
        invariant Unstored(data[..], 0)
      {
        assert slots[..][i] < mgr.hdb.data.Length;
        SmallFirstWord(data[i], slots[i] + 1);
        data[i] := WithFirstWord(data[i], slots[i] + 1);
      }
    }

    /** One round of `loadHiddenRandomSync_`. */
    method Take(ghost chosen: seq<int>, srcIdx: nat)
      requires Valid() && Packed(chosen) && dstIdx < |chosen| && srcIdx == chosen[dstIdx]
      modifies this`storedSize, this`dstIdx, data
      ensures Packed(chosen) && dstIdx == old(dstIdx) + 1
    {
      hide FirstWord, CachedRecords, IsList;
      assert chosen[..dstIdx + 1] == chosen[..dstIdx] + [chosen[dstIdx]];
      CachedConcat(mgr, chosen[..dstIdx], [chosen[dstIdx]]);
      storedSize := LoadAndCheck(mgr, data, storedSize, srcIdx);
      dstIdx := dstIdx + 1;
    }

    /** `loadHiddenRandomSync_`. Its code is recorded, but the work is not ended. */
    method LoadHiddenRandomSync(ghost chosen: seq<int>)
      requires Valid() && Packed(chosen) && dstIdx == 0 && InTable(chosen, mgr.hdb.data.Length)
      modifies this`storedSize, this`dstIdx, data, sys`lastErrCode
      ensures storedSize <= dstIdx <= data.Length
      ensures var v := Visited(chosen, mgr.hdb.data.Length);
              && dstIdx == |v| && data[..storedSize] == CachedRecords(mgr, v)
      ensures Unstored(data[..], storedSize)
      ensures sys.lastErrCode == if storedSize < data.Length then NoData else Success
    {
      hide FirstWord, CachedRecords, IsList;
      var running := true;
      ghost var n := mgr.hdb.data.Length;
      while running
        invariant Packed(chosen) && (running ==> dstIdx < data.Length)
        invariant forall k :: 0 <= k < dstIdx - 1 ==> chosen[k] < n - 1
        invariant running && dstIdx > 0 ==> chosen[dstIdx - 1] < n - 1
        invariant !running ==> dstIdx == |chosen| || (dstIdx > 0 && chosen[dstIdx - 1] >= n - 1)
        decreases data.Length - dstIdx, running
      {
        var src := FirstWord(data[..][dstIdx]);
        if src > 0 {
          var srcIdx := src - 1;
          Take(chosen, srcIdx);
          if src > 0 && dstIdx < data.Length {
            if src >= mgr.hdb.data.Length { running := false; }
          } else {
            running := false;
          }
        } else {
          running := false;
        }
      }
      VisitedIs(chosen, n, dstIdx);
      sys.lastErrCode := if storedSize < data.Length then NoData else Success;
    }

    /** The slots that the tick chooses. */
    ghost function Chosen(tick: u32): seq<int>
      reads this, mgr, mgr.hdb, mgr.hdb.data
    {
      Sample(mgr.hdb.data[..], sex, tick, data.Length)
    }

    /** The middle of `updateHiddenRandom_`: the eligible slots are collected and shuffled,
        and the first `max` of them are stored in the buffer. */
    method Choose(count: nat, max: nat, tick: u32)
      requires Valid() && Holds(data[..], []) && storedSize == 0 && dstIdx == 0
      requires count == |Eligible(mgr.hdb.data[..], sex, mgr.hdb.data.Length)| > 0
      requires max == if count < data.Length then count else data.Length
      modifies data
      ensures Holding(Chosen(tick), []) && InTable(Chosen(tick), mgr.hdb.data.Length) && |Chosen(tick)| == max
    {
      hide CachedRecords, IsList, FirstWord, Shuffled, Eligible, Unread, Unstored, Holds, ZeroHidden;
      var slots := new int[count];
      FillEligible(mgr.hdb, sex, slots);
      ChosenInTable(mgr.hdb.data[..], sex, tick);
      Shuffle(slots, tick);
      StoreSlots(slots, max);
      assert slots[..max] == slots[..][..max] == Chosen(tick);
    }

    /** A sample is taken: the database is loaded and has an eligible slot. */
    ghost predicate HasSample()
      reads this, sys, mgr, mgr.hdb, mgr.hdb.data
    {
      sys.DBIsLoaded() && Eligible(mgr.hdb.data[..], sex, mgr.hdb.data.Length) != []
    }

    /** `startUpdateDB_` and the common part of `updateHiddenRandom_`: the slots are chosen,
        or the work ends for want of a database, a record or memory. */
    method StartSample(tick: u32, memory: bool) returns (chosen: bool)
      requires Valid()
      modifies this`storedSize, this`dstIdx, data, sys`working, sys`lastErrCode, sys`lastReason
      ensures Valid() && storedSize == 0 && dstIdx == 0 && chosen == (HasSample() && memory)
      ensures chosen ==>
        && sys.Underway() && Chosen(tick) != [] && Holding(Chosen(tick), [])
        && InTable(Chosen(tick), mgr.hdb.data.Length)
      ensures !chosen ==>
        !sys.working && Unstored(data[..], 0) && sys.lastErrCode == if HasSample() then Fatal else NoData
    {
      hide IsList, FirstWord, Shuffled, Eligible, Unread;
      storedSize, dstIdx, chosen := 0, 0, false;
      ClearBuffer(data);
      var max := data.Length;
      sys.StartWorking();
      if !sys.DBIsLoaded() { sys.EndWorking(NoData); return; }
      var count := CountupHiddenDataNum(mgr.hdb, sex);
      if count <= 0 { sys.EndWorking(NoData); return; }
      if count < data.Length { max := count; }
      if !memory { sys.EndWorking(Fatal); return; }
      Choose(count, max, tick);
      chosen := true;
    }

    /** `RFLiUpdateMiddleDBAsync` and `updateHiddenRandom_` with a cache. With a sample, the
        work never ends: the result is Busy whatever was loaded, and nobody is notified. Its
        test for an empty first entry never fires. */
    method UpdateCached(tick: u32, memory: bool) returns (result: Errcode, notified: bool)
      requires Valid()
      modifies this`storedSize, this`dstIdx, data, sys`working, sys`lastErrCode, sys`lastReason
      ensures Valid() && storedSize <= dstIdx <= data.Length && Unstored(data[..], storedSize)
      ensures result == sys.AsyncStatus() && notified == !sys.working && sys.brokenType == old(sys.brokenType)
      ensures sys.working <==> HasSample() && memory
      ensures !sys.working ==> storedSize == 0 && sys.lastErrCode == if HasSample() then Fatal else NoData
      ensures sys.working ==>
        var v := Visited(Chosen(tick), mgr.hdb.data.Length);
        && dstIdx == |v| && data[..storedSize] == CachedRecords(mgr, v) && result == Busy
        && sys.lastErrCode == if storedSize < data.Length then NoData else Success
      ensures sys.working && SexesAgree(mgr.cachedDB[..], mgr.hdb.data[..]) ==> OfSex(data[..storedSize], sex)
    {
      hide CachedRecords, IsList, FirstWord, Shuffled, Eligible, Visited, SexesAgree, OfSex;
      var chosen := StartSample(tick, memory);
      if chosen {
        if FirstWord(data[..][dstIdx]) == 0 {
          assert false;
        } else {
          assert Chosen(tick)[..0] == [];
          NoRecords();
          LoadHiddenRandomSync(Chosen(tick));
          CachedOfSex(tick);
        }
      }
      result, notified := sys.AsyncStatus(), !sys.working;
    }

    lemma CachedOfSex(tick: u32)
      requires Valid()
      ensures SexesAgree(mgr.cachedDB[..], mgr.hdb.data[..]) ==>
        OfSex(CachedRecords(mgr, Visited(Chosen(tick), mgr.hdb.data.Length)), sex)
    {
      hide IsList, SexesAgree, Loaded, Sample, Visited, AsyncVisited;
      SampleOfSex(mgr.cachedDB[..], mgr.hdb.data[..], sex, tick, data.Length);
    }

    lemma NoRecords()
      ensures CachedRecords(mgr, []) == [] && FileRecords([]) == []
    {
    }

    // -------------------------------------------------------------- the asynchronous sample

    /** The load of the chosen slot number dstIdx is under way. */
    ghost predicate Loading(chosen: seq<int>)
      reads this, sys, mgr, mgr.hdb, mgr.hdb.data, mgr.file, data
    {
      && loading && sys.Underway() && FilePacked(chosen) && InTable(chosen, mgr.hdb.data.Length)
      && dstIdx < |chosen| && loadIndex == chosen[dstIdx]
      && forall k :: 0 < k <= dstIdx ==> chosen[k] < mgr.hdb.data.Length - 1
    }

    /** `RFLiUpdateMiddleDBAsync` and `updateHiddenRandom_` without a cache, with the reply to
        its first request. */
    method UpdateAsync(tick: u32, memory: bool, reply: int) returns (result: Errcode, notified: bool)
      requires Valid() && !loading
      modifies this, data, sys`working, sys`lastErrCode, sys`lastReason
      ensures Valid() && result == sys.AsyncStatus() && notified == !sys.working && sex == old(sex)
      ensures !(HasSample() && memory) ==>
        !sys.working && !loading && storedSize == 0 && sys.lastErrCode == if HasSample() then Fatal else NoData
      ensures HasSample() && memory ==>
        if reply == NAND_OK then Loading(Chosen(tick)) && dstIdx == 0
        else !loading && !sys.working && storedSize == 0 && sys.lastErrCode == OpenRefusal(sys.isOpen, reply)
    {
      hide IsList, FirstWord, Shuffled, Eligible, Unstored;
      var chosen := StartSample(tick, memory);
      if chosen {
        ghost var c := Chosen(tick);
        assert c[..0] == [];
        NoRecords();
        var src := FirstWord(data[..][dstIdx]);
        if src == 0 {
          assert false;
        } else {
          loadIndex := src - 1;
          var err := sys.OpenAsync(reply);
          loading := err == Busy;
          if err != Busy { sys.EndWorking(err); }
        }
      }
      result, notified := sys.AsyncStatus(), !sys.working;
    }

    /** The load of the chosen slot number dstIdx has left its record, if it could be loaded,
        behind the records stored. */
    ghost predicate Fetched(chosen: seq<int>, before: seq<HiddenCharData>)
      reads this, mgr, mgr.hdb, mgr.hdb.data, mgr.file, data
    {
      && dstIdx < |chosen| <= data.Length == |before| && storedSize <= dstIdx
      && InTable(chosen, mgr.hdb.data.Length) && mgr.file.Length == mgr.hdb.data.Length
      && Unread(before, chosen, dstIdx) && Unstored(before, storedSize)
      && before[..storedSize] == FileRecords(chosen[..dstIdx])
      && (forall k :: 0 <= k < data.Length && k != storedSize ==> data[k] == before[k])
      && data[storedSize] == if Loadable(mgr.file[..], mgr.hdb.data[..], chosen[dstIdx]) then mgr.file[chosen[dstIdx]]
                             else before[storedSize]
    }

    /** The load up to its callback. */
    method Fetch(r: LoadReplies, ghost chosen: seq<int>) returns (called: bool)
      requires Valid() && Loading(chosen)
      modifies this`loading, sys, data
      ensures !loading && !sys.working && sys.brokenType == old(sys.brokenType)
      ensures called <==> Answers(r, old(sys.isOpen)) && !sys.CriticalError()
      ensures called ==> sys.lastErrCode == LoadCode(r, mgr.file[..], mgr.hdb.data[..], loadIndex)
      ensures called ==>
        (sys.lastErrCode == NANDCommandfail && sys.lastReason == NAND_BUSY <==> r.closeResult == NAND_BUSY)
      ensures called ==> (sys.lastErrCode in {Success, Broken} <==> Completes(r, old(sys.isOpen), loadIndex))
      ensures called && sys.lastErrCode in {Success, Broken} ==>
        && !sys.isOpen && Fetched(chosen, old(data[..]))
        && (sys.lastErrCode == Broken ==> !Loadable(mgr.file[..], mgr.hdb.data[..], chosen[dstIdx]))
    {
      hide IsList, Loaded, Loadable, LoadCode, FirstWord, Unread, Unstored;
      called := FinishLoad(sys, mgr, data, storedSize, loadIndex, r);
      if called { DoneExactly(r, mgr.file[..], mgr.hdb.data[..], loadIndex); }
      loading := false;
    }

    /** The count of `updateHDBRandcallback_` behind a load that succeeded or found a broken
        record. */
    method CountRead(broken: bool, ghost chosen: seq<int>, ghost before: seq<HiddenCharData>)
      requires Valid() && Fetched(chosen, before)
      requires broken ==> !Loadable(mgr.file[..], mgr.hdb.data[..], chosen[dstIdx])
      modifies this`storedSize, this`dstIdx
      ensures FilePacked(chosen) && dstIdx == old(dstIdx) + 1
    {
      hide IsList, Loaded, Loadable, FirstWord, ValidHidden, IsValidID, IsSameID;
      NextFile(chosen, dstIdx);
      CountsExactly(chosen[dstIdx], before[storedSize], data[storedSize]);
      assert data[..storedSize] == before[..storedSize];
      if !broken && CheckHiddenData(data[storedSize]) {
        storedSize := storedSize + 1;
      }
      dstIdx := dstIdx + 1;
    }

    lemma NextFile(chosen: seq<int>, d: nat)
      requires d < |chosen|
      ensures FileRecords(chosen[..d + 1]) == FileRecords(chosen[..d]) + FileRecords([chosen[d]])
    {
      assert chosen[..d + 1] == chosen[..d] + [chosen[d]];
      LoadedConcat(mgr.file[..], mgr.hdb.data[..], chosen[..d], [chosen[d]]);
    }

    /** The entry that a load may have filled passes the check exactly if it did. */
    lemma CountsExactly(i: int, was: HiddenCharData, entry: HiddenCharData)
      requires !IsValidID(was.stored.createID)
      requires entry == if Loadable(mgr.file[..], mgr.hdb.data[..], i) then mgr.file[i] else was
      ensures FileRecords([i]) == if CheckHiddenData(entry) then [entry] else []
      ensures CheckHiddenData(entry) <==> Loadable(mgr.file[..], mgr.hdb.data[..], i)
    {
      hide Loaded, ValidHidden, IsSameID, IsValidID;
      LoadedOne(mgr.file[..], mgr.hdb.data[..], i);
      if Loadable(mgr.file[..], mgr.hdb.data[..], i) { LoadedIsChecked(mgr.file[..], mgr.hdb.data[..], i); }
    }

    /** The request of the next load, or the end of the sample. `behind` is the word behind
        the buffer, which is looked at when the buffer is full. */
    method GoOn(behind: u32, reply: int, ghost chosen: seq<int>)
      requires Valid() && !loading && !sys.working && !sys.CriticalError()
      requires FilePacked(chosen) && InTable(chosen, mgr.hdb.data.Length) && dstIdx > 0
      requires forall k :: 0 < k < dstIdx ==> chosen[k] < mgr.hdb.data.Length - 1
      modifies this`loadIndex, this`loading, sys`working, sys`lastErrCode, sys`lastReason
      ensures FilePacked(chosen)
      ensures if dstIdx == |chosen| then
                !loading && !sys.working && sys.lastErrCode == (if storedSize < data.Length then NoData else Success)
              else if chosen[dstIdx] >= mgr.hdb.data.Length - 1 then
                !loading && !sys.working && sys.lastErrCode == Broken
              else if reply == NAND_OK then Loading(chosen)
              else
                && !loading && !sys.working && sys.lastErrCode == OpenRefusal(sys.isOpen, reply)
                && sys.lastReason == reply
    {
      hide IsList, FirstWord, Unstored, Loaded;
      var src := if dstIdx < data.Length then FirstWord(data[..][dstIdx]) else behind;
      if src > 0 && dstIdx < data.Length {
        if src < mgr.hdb.data.Length {
          loadIndex := src - 1;
          var err := sys.OpenAsync(reply);
          loading := err == Busy;
          if err != Busy { sys.EndWorking(err); }
        } else {
          sys.lastErrCode := Broken;
        }
      } else {
        sys.lastErrCode := if storedSize < data.Length then NoData else Success;
      }
    }

    /** The first d of the chosen slots are done, and no load is under way. */
    ghost predicate Stopped(chosen: seq<int>, d: int)
      reads this, mgr, mgr.hdb, mgr.hdb.data, mgr.file, data
    {
      !loading && dstIdx == d && FilePacked(chosen)
    }

    /** The end of a load, `updateHDBRandcallback_`, and the reply to its next request. The
        sample ends as broken when the next slot is the last one of the table. It is taken
        back only if there is somebody to notify, and then as a page is. */
    method UpdateCallback(r: LoadReplies, reply: int, behind: u32, hasCallback: bool, ghost chosen: seq<int>)
      returns (notified: bool)
      requires Valid() && Loading(chosen)
      modifies this, data, sys
      ensures Valid() && sex == old(sex) && sys.brokenType == old(sys.brokenType) && loading == sys.working
      ensures var d, n := old(dstIdx) + 1, mgr.hdb.data.Length;
              if old(Completes(r, sys.isOpen, loadIndex)) && !sys.CriticalError() then
                if d == |chosen| then
                  && Stopped(chosen, d) && notified == hasCallback
                  && sys.AsyncStatus() == (if storedSize < data.Length then NoData else Success)
                else if chosen[d] >= n - 1 then
                  Stopped(chosen, d) && notified == hasCallback && sys.AsyncStatus() == Broken
                else if reply == NAND_OK then Loading(chosen) && dstIdx == d && !notified
                else
                  && !loading && notified == hasCallback && sys.AsyncStatus() == OpenRefusal(false, reply)
                  && if hasCallback && reply == NAND_BUSY then storedSize == 0 && dstIdx == 0 else Stopped(chosen, d)
              else
                && !loading && notified == (hasCallback && old(Answers(r, sys.isOpen)) && !sys.CriticalError())
                && (notified ==>
                     sys.AsyncStatus() == old(LoadCode(r, mgr.file[..], mgr.hdb.data[..], loadIndex)))
                && if notified && r.closeResult == NAND_BUSY then storedSize == 0 && dstIdx == 0
                   else storedSize == old(storedSize) && dstIdx == old(dstIdx)
    {
      hide IsList, Loaded, Loadable, LoadCode, FirstWord, Unread, Unstored, Holding, Fetched, ReadDone, Opens;
      ghost var before := data[..];
      var called := Fetch(r, chosen);
      notified := false;
      if !called { return; }
      var status := sys.AsyncStatus();
      if status == Success || status == Broken {
        CountRead(status == Broken, chosen, before);
        GoOn(behind, reply, chosen);
      }
      notified := Notify(hasCallback);
    }

    /** The end of `updateHDBRandcallback_`. */
    method Notify(hasCallback: bool) returns (notified: bool)
      modifies this`storedSize, this`dstIdx
      ensures notified == (!sys.working && hasCallback)
      ensures if notified && sys.AsyncStatus() == NANDCommandfail && sys.lastReason == NAND_BUSY then
                storedSize == 0 && dstIdx == 0
              else unchanged(this)
    {
      notified := false;
      if !sys.working && hasCallback {
        if sys.AsyncStatus() == NANDCommandfail && sys.lastReason == NAND_BUSY {
          storedSize, dstIdx := 0, 0;
        }
        notified := true;
      }
    }

    /** An asynchronous sample whose requests are all accepted and succeed: the records of the
        slots visited, and Broken exactly when not all are. */
    method UpdateAsyncUndisturbed(tick: u32, behind: u32)
      requires Valid() && !loading && HasSample() && !sys.CriticalError()
      modifies this, data, sys
      ensures Valid() && !loading && sex == old(sex) && storedSize <= data.Length
      ensures var v := AsyncVisited(Chosen(tick), mgr.hdb.data.Length);
              && data[..storedSize] == FileRecords(v) && Unstored(data[..], storedSize)
              && sys.AsyncStatus() == (if v != Chosen(tick) then Broken
                                       else if storedSize < data.Length then NoData else Success)
      ensures SexesAgree(mgr.file[..], mgr.hdb.data[..]) ==> OfSex(data[..storedSize], sex)
    {
      hide IsList, Loaded, Loadable, FirstWord, Unread, ReadCode, Eligible, Shuffled, AsyncVisited;
      ghost var n := mgr.hdb.data.Length;
      var _, _ := UpdateAsync(tick, true, NAND_OK);
      ghost var chosen := Chosen(tick);
      while loading
        invariant Valid() && !sys.CriticalError() && sex == old(sex)
        invariant loading ==> Loading(chosen)
        invariant !loading ==>
          && 0 < dstIdx <= |chosen| && FilePacked(chosen) && (forall k :: 0 < k < dstIdx ==> chosen[k] < n - 1)
          && (dstIdx == |chosen| || chosen[dstIdx] >= n - 1)
          && sys.AsyncStatus() == (if dstIdx < |chosen| then Broken
                                   else if storedSize < data.Length then NoData else Success)
        decreases loading, data.Length - dstIdx
      {
        UndisturbedCompletes(loadIndex);
        var _ := UpdateCallback(Undisturbed(loadIndex), NAND_OK, behind, false, chosen);
      }
      AsyncVisitedIs(chosen, n, dstIdx);
      SampleOfSex(mgr.file[..], mgr.hdb.data[..], sex, tick, data.Length);
      assert dstIdx == |chosen| ==> chosen[..dstIdx] == chosen;
    }
  }

  lemma ChosenInTable(t: seq<TableData>, sex: SexMask, tick: u32)
    requires |Eligible(t, sex, |t|)| > 0
    ensures var e := Eligible(t, sex, |t|);
            InTable(Shuffled(e, tick, |e| - 1), |t|) && Distinct(Shuffled(e, tick, |e| - 1))
  {
    hide Eligible, Shuffled, Distinct;
    var e := Eligible(t, sex, |t|);
    var s := Shuffled(e, tick, |e| - 1);
    EligibleExactly(t, sex, |t|);
    ShufflePermutes(e, tick, |e| - 1);
    ShuffleDistinct(e, tick, |e| - 1);
    forall k | 0 <= k < |s| ensures 0 <= s[k] < |t| {
      assert s[k] in multiset(s);
      assert s[k] in e;
    }
  }

  /** A sample: as many eligible slots as fit, all different, whatever the tick. */
  lemma SampleIsSound(t: seq<TableData>, sex: SexMask, tick: u32, size: nat)
    ensures var e, c := Eligible(t, sex, |t|), Sample(t, sex, tick, size);
            && Distinct(c) && |c| == (if |e| < size then |e| else size)
            && forall i :: i in c ==> 0 <= i < |t| && IsValidHiddenData(t, i, sex)
  {
    hide Eligible, Shuffled, IsValidHiddenData;
    var e := Eligible(t, sex, |t|);
    if |e| > 0 {
      var s := Shuffled(e, tick, |e| - 1);
      ChosenInTable(t, sex, tick);
      EligibleExactly(t, sex, |t|);
      ShufflePermutes(e, tick, |e| - 1);
      forall i | i in s ensures 0 <= i < |t| && IsValidHiddenData(t, i, sex) {
        assert i in multiset(s);
        assert i in e;
      }
    }
  }

  /** The eligible slots are the occupied ones whose entry has the sex asked for, if one is. */
  lemma EligibleBySex(t: seq<TableData>, sex: SexMask, i: int)
    ensures i in Eligible(t, sex, |t|) <==>
      && 0 <= i < |t| && IsValidID(t[i].id)
      && (sex.Female? ==> t[i].sex) && (sex.Male? ==> !t[i].sex)
  {
    EligibleExactly(t, sex, |t|);
  }

  /** A sample chooses slots of the sex asked for, and all of them if they fit. */
  lemma SampleBySex(t: seq<TableData>, sex: SexMask, tick: u32, size: nat, i: int)
    ensures i in Sample(t, sex, tick, size) ==>
      && 0 <= i < |t| && IsValidID(t[i].id)
      && (sex.Female? ==> t[i].sex) && (sex.Male? ==> !t[i].sex)
    ensures |Eligible(t, sex, |t|)| <= size ==>
      (i in Sample(t, sex, tick, size) <==>
        && 0 <= i < |t| && IsValidID(t[i].id)
        && (sex.Female? ==> t[i].sex) && (sex.Male? ==> !t[i].sex))
  {
    hide Eligible, Shuffled, IsValidHiddenData, IsValidID;
    EligibleBySex(t, sex, i);
    var e := Eligible(t, sex, |t|);
    if |e| > 0 {
      var s := Shuffled(e, tick, |e| - 1);
      ShufflePermutes(e, tick, |e| - 1);
      assert i in s <==> i in multiset(s);
      assert i in e <==> i in multiset(e);
      if |e| <= size { assert s[..|e|] == s; }
    }
  }

  /** Where header and records agree about the sexes, a sample shows records of the sex asked
      for only, cached or from the file. */
  lemma SampleShowsSex(recs: seq<HiddenCharData>, t: seq<TableData>, sex: SexMask, tick: u32, size: nat,
                       d: HiddenCharData)
    requires SexesAgree(recs, t)
    requires var c := Sample(t, sex, tick, size);
             d in Loaded(recs, t, Visited(c, |t|)) || d in Loaded(recs, t, AsyncVisited(c, |t|))
    ensures sex.Female? ==> (d.stored.personal >> 14) & 1 == 1
    ensures sex.Male? ==> (d.stored.personal >> 14) & 1 == 0
  {
    hide Sample, Loaded, Visited, AsyncVisited, Loadable;
    var c := Sample(t, sex, tick, size);
    var v := if d in Loaded(recs, t, Visited(c, |t|)) then Visited(c, |t|) else AsyncVisited(c, |t|);
    var i := LoadedFrom(recs, t, v, d);
    assert i in c;
    SampleBySex(t, sex, tick, size, i);
    OneBit(d.stored.personal);
  }

  /** The same about all records of a sample. */
  lemma SampleOfSex(recs: seq<HiddenCharData>, t: seq<TableData>, sex: SexMask, tick: u32, size: nat)
    ensures SexesAgree(recs, t) ==>
      var c := Sample(t, sex, tick, size);
      OfSex(Loaded(recs, t, Visited(c, |t|)), sex) && OfSex(Loaded(recs, t, AsyncVisited(c, |t|)), sex)
  {
    hide Sample, Loaded, Visited, AsyncVisited, SexesAgree;
    if SexesAgree(recs, t) {
      var c := Sample(t, sex, tick, size);
      forall d | d in Loaded(recs, t, Visited(c, |t|)) || d in Loaded(recs, t, AsyncVisited(c, |t|))
        ensures sex.Female? ==> (d.stored.personal >> 14) & 1 == 1
        ensures sex.Male? ==> (d.stored.personal >> 14) & 1 == 0
      {
        SampleShowsSex(recs, t, sex, tick, size, d);
      }
    }
  }

  lemma OneBit(w: bv16)
    ensures (w >> 14) & 1 == 0 || (w >> 14) & 1 == 1
  {
  }

  lemma {:induction false} LoadedFrom(recs: seq<HiddenCharData>, t: seq<TableData>, v: seq<int>, d: HiddenCharData)
    returns (i: int)
    requires d in Loaded(recs, t, v)
    ensures i in v && 0 <= i < |recs| && d == recs[i]
  {
    hide ValidHidden, IsSameID;
    var last := v[|v| - 1];
    if d in Loaded(recs, t, v[..|v| - 1]) { i := LoadedFrom(recs, t, v[..|v| - 1], d); } else { i := last; }
  }

  /** Whether a chosen slot is skipped, for a tick: not in the cached sample exactly when the
      last slot is not chosen in front of another one, not in the asynchronous one exactly
      when it is not chosen behind another one. If it is not eligible, neither skips a slot,
      whatever the tick. */
  lemma NothingSkipped(t: seq<TableData>, sex: SexMask, tick: u32, size: nat)
    ensures var c := Sample(t, sex, tick, size);
            && (Visited(c, |t|) == c <==> forall k :: 0 <= k < |c| - 1 ==> c[k] != |t| - 1)
            && (AsyncVisited(c, |t|) == c <==> forall k :: 0 < k < |c| ==> c[k] != |t| - 1)
    ensures |t| > 0 && !IsValidHiddenData(t, |t| - 1, sex) ==>
            var c := Sample(t, sex, tick, size); Visited(c, |t|) == c == AsyncVisited(c, |t|)
  {
    hide Eligible, Shuffled, IsValidHiddenData, Visited, AsyncVisited;
    var c := Sample(t, sex, tick, size);
    SampleIsSound(t, sex, tick, size);
    VisitedAll(c, |t|);
    AsyncVisitedAll(c, |t|);
    forall k | 0 <= k < |c| ensures 0 <= c[k] < |t| && IsValidHiddenData(t, c[k], sex) { assert c[k] in c; }
  }

  /** These are the eligible slots below n, in increasing order. */
  predicate ListsEligible(t: seq<TableData>, sex: SexMask, n: nat, e: seq<int>)
    requires n <= |t|
  {
    && (forall j, k :: 0 <= j < k < |e| ==> e[j] < e[k])
    && InTable(e, n) && forall i :: 0 <= i < n ==> (i in e <==> IsValidHiddenData(t, i, sex))
  }

  lemma {:induction false} EligibleIs(t: seq<TableData>, sex: SexMask, n: nat, e: seq<int>)
    requires n <= |t| && ListsEligible(t, sex, n, e)
    ensures Eligible(t, sex, n) == e
  {
    hide IsValidHiddenData, ListsEligible;
    if n == 0 {
      NoneBelowZero(t, sex, e);
    } else {
      var rest := ListedBelow(t, sex, n, e);
      EligibleIs(t, sex, n - 1, rest);
    }
  }

  lemma NoneBelowZero(t: seq<TableData>, sex: SexMask, e: seq<int>)
    requires ListsEligible(t, sex, 0, e)
    ensures e == []
  {
    hide IsValidHiddenData;
    DistinctLength(e, 0);
  }

  lemma ListedBelow(t: seq<TableData>, sex: SexMask, n: nat, e: seq<int>) returns (rest: seq<int>)
    requires 0 < n <= |t| && ListsEligible(t, sex, n, e)
    ensures ListsEligible(t, sex, n - 1, rest)
    ensures e == rest + if IsValidHiddenData(t, n - 1, sex) then [n - 1] else []
  {
    hide IsValidHiddenData;
    assert n - 1 in e <==> IsValidHiddenData(t, n - 1, sex);
    if IsValidHiddenData(t, n - 1, sex) {
      IncreasingEnd(e, n - 1);
      rest := e[..|e| - 1];
    } else {
      rest := e;
      forall k | 0 <= k < |e| ensures e[k] < n - 1 { assert e[k] in e; }
    }
  }

  lemma SamePlace(e: seq<int>, j: nat, k: nat)
    requires j <= k < |e| && e[j] >= e[k] && forall a, b :: 0 <= a < b < |e| ==> e[a] < e[b]
    ensures j == k
  {
  }

  /** In an increasing list the largest entry is the last one. */
  lemma IncreasingEnd(e: seq<int>, m: int)
    requires (forall j, k :: 0 <= j < k < |e| ==> e[j] < e[k]) && (forall k :: 0 <= k < |e| ==> e[k] <= m) && m in e
    ensures e == e[..|e| - 1] + [m] && forall i :: i in e[..|e| - 1] <==> i in e && i < m
  {
    var k, last :| 0 <= k < |e| && e[k] == m && last == |e| - 1;
    assert e[last] <= m;
    SamePlace(e, k, last);
    LastOfAll(e[..last], m, e);
  }

  lemma LastOfAll(rest: seq<int>, m: int, e: seq<int>)
    requires |e| == |rest| + 1 && rest == e[..|rest|] && e[|rest|] == m
    requires forall k :: 0 <= k < |rest| ==> e[k] < e[|rest|]
    ensures e == rest + [m] && forall i :: i in rest <==> i in e && i < m
  {
    assert e == rest + [m];
  }

  lemma PairShuffled(i: int, l: int, tick: u32)
    ensures Shuffled([i, l], tick, 1) == [l, i]
  {
    assert Target(tick, 0, 2) == 1;
    assert Shuffled([i, l], tick, 0) == [i, l];
    assert Swapped([i, l], 0, 1) == [l, i];
  }

  /** In a table whose only eligible slots are i and the last one, every tick makes the cached
      sample lose record i, at any capacity. */
  lemma RecordLost(recs: seq<HiddenCharData>, t: seq<TableData>, sex: SexMask, i: nat, tick: u32, size: nat)
    requires i < |t| - 1 && ListsEligible(t, sex, |t|, [i, |t| - 1]) && Loadable(recs, t, i) && size >= 2
    ensures Sample(t, sex, tick, size) == [|t| - 1, i] && Visited([|t| - 1, i], |t|) == [|t| - 1]
    ensures |Loaded(recs, t, [|t| - 1])| < |Loaded(recs, t, [|t| - 1, i])|
    ensures recs[i] in Loaded(recs, t, [|t| - 1, i])
  {
    hide IsValidHiddenData, Loadable, ListsEligible, Eligible, Shuffled, Visited, Loaded;
    var l := |t| - 1;
    EligibleIs(t, sex, |t|, [i, l]);
    PairShuffled(i, l, tick);
    assert [l, i][..2] == [l, i];
    LastVisitedOnly(l, i);
    LoadedConcat(recs, t, [l], [i]);
    LoadedOne(recs, t, i);
    assert [l] + [i] == [l, i];
  }

  lemma LastVisitedOnly(l: int, i: int)
    ensures Visited([l, i], l + 1) == [l]
  {
  }

  lemma TripleShuffled(i: int, j: int, l: int, tick: u32) returns (s2: seq<int>)
    requires Target(tick, 0, 3) == 1
    ensures s2 == Shuffled([i, j, l], tick, 2) && (s2 == [i, j, l] || s2 == [j, l, i])
  {
    hide Target, RandAt;
    s2 := Shuffled([i, j, l], tick, 2);
    assert RandAt(tick, 0) == tick by { StartOfRand(tick); }
    var s1, target := Shuffled([i, j, l], tick, 1), Target(RandAt(tick, 1), 1, 3);
    assert Shuffled([i, j, l], tick, 0) == [i, j, l];
    assert s1 == Swapped([i, j, l], 0, 1) == [j, i, l];
    assert s2 == Swapped(s1, 1, target);
  }

  lemma StartOfRand(tick: u32)
    ensures RandAt(tick, 0) == tick
  {
  }

  /** With three eligible slots, the last of the table among them, any tick whose first swap is
      with the second of them makes the asynchronous sample leave out the last slot. */
  lemma LastRecordLost(t: seq<TableData>, sex: SexMask, i: nat, j: nat, tick: u32, size: nat)
    requires i < j < |t| - 1 && ListsEligible(t, sex, |t|, [i, j, |t| - 1]) && size >= 3
    requires Target(tick, 0, 3) == 1
    ensures var c := Sample(t, sex, tick, size);
            |t| - 1 in c && |t| - 1 !in AsyncVisited(c, |t|)
  {
    hide IsValidHiddenData, ListsEligible, Target, Shuffled, Eligible, AsyncVisited;
    EligibleIs(t, sex, |t|, [i, j, |t| - 1]);
    var c := TripleShuffled(i, j, |t| - 1, tick);
    assert c[..3] == c && |t| - 1 in c;
    assert Sample(t, sex, tick, size) == c;
    LastNotVisited(c, |t|);
  }

  lemma LastNotVisited(chosen: seq<int>, n: int)
    requires |chosen| > 0 && chosen[0] != n - 1
    ensures n - 1 !in AsyncVisited(chosen, n)
  {
    assert AsyncVisited(chosen, n)[0] == chosen[0];
  }
}
