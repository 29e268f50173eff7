/**
 Loading the records of a controller into the hidden database: the read protocol with
 its retries, the cleaning of the buffer, and the choice of the records to write.
 */
module Controller {
  import opened CreateIds
  import opened HiddenList
  import opened HiddenWriter
  import opened Options
  import opened Records
  import opened Words

  const CHAR_MAX := 10
  const READ_RETRY_MAX := 3
  const MAGIC_CONTROLLER_DATA: u32 := 0x524E_4344

  type Chars = s: seq<CharData> | |s| == 10 witness seq(10, _ => ZeroChar())

  /** `RFLiCtrlBuf`; `crc` is what `RFLiCalculateCRC` gives on its bytes. */
  datatype CtrlBuf = CtrlBuf(identifier: u32, secretFlag: bv16, data: Chars, deleted: bv16, crc: u16)

  datatype HiddenType = Any | No | Yes

  predicate Flagged(flags: bv16, index: nat)
    requires index < 16
  {
    flags & (1 << index) != 0
  }

  /** Bit number `index` of a word, from its least significant end. */
  predicate Bit(flags: bv16, index: nat)
    requires index < 16
  {
    (flags >> index) & 1 == 1
  }

  lemma FlagBits(f: bv16)
    ensures Flagged(f, 0) == Bit(f, 0) && Flagged(f, 1) == Bit(f, 1) && Flagged(f, 2) == Bit(f, 2)
    ensures Flagged(f, 3) == Bit(f, 3) && Flagged(f, 4) == Bit(f, 4) && Flagged(f, 5) == Bit(f, 5)
    ensures Flagged(f, 6) == Bit(f, 6) && Flagged(f, 7) == Bit(f, 7) && Flagged(f, 8) == Bit(f, 8)
    ensures Flagged(f, 9) == Bit(f, 9)
  {
  }

  lemma FlaggedExactly(flags: bv16, index: nat)
    requires index < 10
    ensures Flagged(flags, index) == Bit(flags, index)
  {
    FlagBits(flags);
    hide Flagged, Bit;
  }

  // ---------------------------------------------------------------- the blocks read

  /** `checkCRC_`. */
  predicate CheckCRC(buf: CtrlBuf) {
    buf.identifier == MAGIC_CONTROLLER_DATA && buf.crc == 0
  }

  /** The block without the records it marks as deleted. */
  predicate WithoutDeleted(block: CtrlBuf, out: CtrlBuf) {
    && out == block.(data := out.data)
    && forall i :: 0 <= i < CHAR_MAX ==>
         out.data[i] == if Flagged(block.deleted, i) then ZeroChar() else block.data[i]
  }

  /** `clearDeleted_`. */
  method ClearDeleted(buf: CtrlBuf) returns (out: CtrlBuf)
    ensures WithoutDeleted(buf, out)
  {
    var data: Chars, i := buf.data, 0;
    while i < CHAR_MAX
      invariant 0 <= i <= CHAR_MAX
      invariant forall j :: 0 <= j < i ==> data[j] == if Flagged(buf.deleted, j) then ZeroChar() else buf.data[j]
      invariant forall j :: i <= j < CHAR_MAX ==> data[j] == buf.data[j]
    {
      if Flagged(buf.deleted, i) { data := data[i := ZeroChar()]; }
      i := i + 1;
    }
    out := buf.(data := data);
  }

  /** What the loop of `validBufferFound_` makes of a record. */
  function Cleaned(d: CharData): CharData {
    if IsValidID(d.stored.createID) && (!ValidChar(d) || IsTemporaryID(d.stored.createID)) then ZeroChar() else d
  }

  /** A record that is empty, or permanent and valid. */
  predicate Sane(d: CharData) {
    IsValidID(d.stored.createID) ==> IsPermanentID(d.stored.createID) && ValidChar(d)
  }

  predicate SaneBuffer(buf: CtrlBuf) {
    forall i :: 0 <= i < CHAR_MAX ==> Sane(buf.data[i])
  }

  lemma CleanedIsSane(d: CharData)
    ensures Sane(Cleaned(d))
  {
    hide ValidChar, IsTemporaryID;
  }

  /** The body of the loop of `validBufferFound_`; `stack` is the memory it unpacks into. */
  method CleanOne(d: CharData, stack: CharInfo) returns (out: CharData, info: CharInfo)
    ensures out == Cleaned(d)
  {
    hide CheckValidInfo, Raw2Info, IsTemporaryID, ZeroChar;
    out, info := d, stack;
    if IsValidID(d.stored.createID) {
      ValidityBlind(d, ZeroHidden(), stack);
      info := Raw2Info(d, stack);
      if !CheckValidInfo(info) || IsTemporaryID(d.stored.createID) {
        out := ZeroChar();
      }
    }
  }

  /** The loop of `validBufferFound_`. */
  method CleanBuffer(buf: CtrlBuf, info: CharInfo) returns (out: CtrlBuf)
    ensures out == buf.(data := out.data) && SaneBuffer(out)
    ensures forall i :: 0 <= i < CHAR_MAX ==> out.data[i] == Cleaned(buf.data[i])
  {
    hide Cleaned, Sane;
    var data: Chars, stack, i := buf.data, info, 0;
    while i < CHAR_MAX
      invariant 0 <= i <= CHAR_MAX
      invariant forall j :: 0 <= j < i ==> data[j] == Cleaned(buf.data[j])
      invariant forall j :: i <= j < CHAR_MAX ==> data[j] == buf.data[j]
    {
      var d;
      d, stack := CleanOne(data[i], stack);
      data := data[i := d];
      i := i + 1;
    }
    out := buf.(data := data);
    forall j | 0 <= j < CHAR_MAX ensures Sane(out.data[j]) { CleanedIsSane(buf.data[j]); }
  }

  /** A buffer cleared by `memset`. */
  function EmptyBuffer(identifier: u32): (buf: CtrlBuf)
    ensures SaneBuffer(buf)
  {
    CtrlBuf(identifier, 0, seq(CHAR_MAX, _ => ZeroChar()), 0, 0)
  }

  // ---------------------------------------------------------------- the records to write

  /** `RFLiCheckCtrlBufferCore`. */
  predicate CheckCtrlBufferCore(buf: CtrlBuf, index: nat, kind: HiddenType)
    requires index < CHAR_MAX
  {
    && !(kind.No? && Flagged(buf.secretFlag, index))
    && !(kind.Yes? && !Flagged(buf.secretFlag, index))
    && IsValidID(buf.data[index].stored.createID)
  }

  predicate LocalOnly(d: HiddenCharData) {
    Get(d.stored.face, 2, 1) == 1
  }

  /** `checkCtrlWritableData_`; `official` holds the identifiers of the official records. */
  predicate CheckCtrlWritableData(buf: CtrlBuf, ch: bool, index: nat, official: seq<CreateID>)
    requires index < CHAR_MAX
  {
    && CheckCtrlBufferCore(buf, index, if ch then Yes else Any)
    && !LocalOnly(Raw2HRaw(buf.data[index]))
    && !Known(official, buf.data[index].stored.createID)
  }

  /** The record stored for entry d: hidden form, not a favorite. */
  function WritableRecord(d: CharData): (h: HiddenCharData)
    ensures h.stored.createID == d.stored.createID
  {
    var h := Raw2HRaw(d);
    h.(stored := h.stored.(personal := Put(h.stored.personal, 0, 1, 0)))
  }

  /** The queue made from the first n entries. */
  function Writable(buf: CtrlBuf, ch: bool, official: seq<CreateID>, n: nat): (list: seq<HiddenCharData>)
    requires n <= CHAR_MAX
    ensures |list| <= n
  {
    if n == 0 then []
    else if CheckCtrlWritableData(buf, ch, n - 1, official) then
      Writable(buf, ch, official, n - 1) + [WritableRecord(buf.data[n - 1])]
    else Writable(buf, ch, official, n - 1)
  }

  /** `getCtrlWritableCount_`: fills the queue and counts it. */
  method GetCtrlWritableCount(buf: CtrlBuf, ch: bool, official: seq<CreateID>)
    returns (list: seq<HiddenCharData>, count: nat)
    ensures list == Writable(buf, ch, official, CHAR_MAX) && count == |list|
  {
    hide CheckCtrlWritableData, WritableRecord;
    list, count := [], 0;
    var i := 0;
    while i < CHAR_MAX
      invariant 0 <= i <= CHAR_MAX && list == Writable(buf, ch, official, i) && count == |list|
    {
      if CheckCtrlWritableData(buf, ch, i, official) {
        list := list + [WritableRecord(buf.data[i])];
        count := count + 1;
      }
      i := i + 1;
    }
  }

  /** A cleaned buffer queues permanent identifiers only. */
  lemma {:induction false} WritablePermanent(buf: CtrlBuf, ch: bool, official: seq<CreateID>, n: nat)
    requires SaneBuffer(buf) && n <= CHAR_MAX
    ensures PermanentRecords(Writable(buf, ch, official, n))
  {
    hide ValidChar, LocalOnly, Known, Flagged, IsTemporaryID, IsValidID, IsPermanentID;
    if n > 0 {
      WritablePermanent(buf, ch, official, n - 1);
      assert Sane(buf.data[n - 1]);
    }
  }

  /** Every queued record comes from an entry that may be written, and none is left out. */
  lemma {:induction false} WritableExactly(buf: CtrlBuf, ch: bool, official: seq<CreateID>, n: nat, h: HiddenCharData)
    requires n <= CHAR_MAX
    ensures h in Writable(buf, ch, official, n)
       <==> exists i :: 0 <= i < n && CheckCtrlWritableData(buf, ch, i, official) && h == WritableRecord(buf.data[i])
  {
    hide CheckCtrlWritableData, WritableRecord;
    if n > 0 { WritableExactly(buf, ch, official, n - 1, h); }
  }

  /** The record of an entry as it is stored: the birthday (bits 13 to 5) and the favorite
      flag (bit 0) are cleared, and nothing else of the common part. */
  function StoredForm(d: CharData): HiddenCharData {
    HiddenCharData(d.stored.(personal := d.stored.personal & 0xC01E), [0, 0, 0, 0, 0])
  }

  lemma ClearedBits(p: bv16)
    ensures Put(Put(p, 5, 0x1FF, 0), 0, 1, 0) == p & 0xC01E
  {
  }

  lemma WritableRecordExactly(d: CharData)
    ensures WritableRecord(d) == StoredForm(d)
  {
    ClearedBits(d.stored.personal);
    hide Put;
  }

  /** What is stored reads back as the record itself, without its birthday, its favorite
      flag and its creator: face, name, body, sex, color, local flag and identifier stay. */
  lemma StoredFormReads(d: CharData, was: CharInfo)
    ensures var i, r := HRaw2Info(WritableRecord(d), was), Raw2Info(d, was);
      && i == r.(personal := i.personal, creator := [0, 0, 0, 0, 0, 0, 0, 0, 0, 0, 0])
      && i.personal == r.personal & 0x803D
  {
    WritableRecordExactly(d);
    StoredPersonalReads(d.stored.personal, d.stored.face, was.personal);
    hide FacelineOf, EyeOf, EyebrowOf, HairOf, NoseOf, MouthOf, BeardOf, GlassOf, MoleOf, PersonalOf, Put;
    hide WritableRecord;
  }

  lemma StoredPersonalReads(personal: bv16, face: bv16, was: bv16)
    ensures Put(Put(PersonalOf(personal & 0xC01E, face, was), 11, 15, 0), 6, 0x1F, 0)
         == PersonalOf(personal, face, was) & 0x803D
  {
  }

  /** The entries of a received block that reach the database, told by bits: not marked as
      deleted, secret when only secret ones are asked for, permanent, not local (bit 2 of
      the word of the face), not an official record, and valid. */
  predicate Deliverable(block: CtrlBuf, i: nat, ch: bool, official: seq<CreateID>)
    requires i < 10
  {
    var id := block.data[i].stored.createID;
    && !Bit(block.deleted, i) && (ch ==> Bit(block.secretFlag, i))
    && (id.w0 != 0 || id.w1 != 0) && id.w0 / 0x2000_0000 % 2 == 0
    && (block.data[i].stored.face >> 2) & 1 == 0 && !Known(official, id) && ValidChar(block.data[i])
  }

  /** The list holds the stored forms of exactly the deliverable entries among the first n,
      in their order. */
  ghost predicate Delivers(list: seq<HiddenCharData>, from: seq<nat>, block: CtrlBuf, ch: bool,
                           official: seq<CreateID>, n: nat)
    requires n <= 10
  {
    && |from| == |list|
    && (forall k :: 0 <= k < |from| ==> from[k] < n && list[k] == StoredForm(block.data[from[k]]))
    && (forall j, k :: 0 <= j < k < |from| ==> from[j] < from[k])
    && (forall i: nat :: i < n ==> (i in from <==> Deliverable(block, i, ch, official)))
  }

  ghost predicate DeliversAll(list: seq<HiddenCharData>, block: CtrlBuf, ch: bool, official: seq<CreateID>) {
    exists from :: Delivers(list, from, block, ch, official, 10)
  }

  /** What cleaning leaves with an identifier is a permanent, valid record, unchanged. */
  lemma CleanedEntry(d: CharData, deleted: bool)
    ensures var b, id := if deleted then ZeroChar() else Cleaned(d), d.stored.createID;
      && (IsValidID(b.stored.createID) <==>
            !deleted && (id.w0 != 0 || id.w1 != 0) && id.w0 / 0x2000_0000 % 2 == 0 && ValidChar(d))
      && (IsValidID(b.stored.createID) ==> b == d)
  {
    MarksExactly(d.stored.createID);
    hide ValidChar, IsTemporaryID, ZeroStored;
    assert !IsValidID(ZeroChar().stored.createID) by { ZeroHasNoID(); }
  }

  lemma ZeroHasNoID()
    ensures ZeroChar().stored.createID == CreateID(0, 0)
  {
  }

  lemma EntryDelivered(block: CtrlBuf, buffer: CtrlBuf, i: nat, ch: bool, official: seq<CreateID>)
    requires LoadedFrom(block, buffer) && i < 10
    ensures CheckCtrlWritableData(buffer, ch, i, official) <==> Deliverable(block, i, ch, official)
    ensures CheckCtrlWritableData(buffer, ch, i, official) ==> buffer.data[i] == block.data[i]
  {
    FlaggedExactly(block.deleted, i);
    FlaggedExactly(block.secretFlag, i);
    CleanedEntry(block.data[i], Flagged(block.deleted, i));
    LocalBit(block.data[i]);
    hide Flagged, Bit, ValidChar, LocalOnly, Known, Raw2HRaw, Sane, Cleaned, ZeroChar, IsValidID;
  }

  lemma LocalBit(d: CharData)
    ensures LocalOnly(Raw2HRaw(d)) <==> (d.stored.face >> 2) & 1 == 1
    ensures (d.stored.face >> 2) & 1 == 0 || (d.stored.face >> 2) & 1 == 1
  {
    OneBit(d.stored.face);
  }

  lemma OneBit(w: bv16)
    ensures (w >> 2) & 1 == 0 || (w >> 2) & 1 == 1
  {
  }

  /** The entries that the queue of the first n comes from. */
  ghost function Sources(buf: CtrlBuf, ch: bool, official: seq<CreateID>, n: nat): seq<nat>
    requires n <= 10
  {
    if n == 0 then []
    else Sources(buf, ch, official, n - 1) + if CheckCtrlWritableData(buf, ch, n - 1, official) then [n - 1] else []
  }

  lemma DeliversOneMore(list: seq<HiddenCharData>, from: seq<nat>, block: CtrlBuf, ch: bool,
                        official: seq<CreateID>, n: nat)
    requires n < 10 && Delivers(list, from, block, ch, official, n)
    ensures Deliverable(block, n, ch, official) ==>
      Delivers(list + [StoredForm(block.data[n])], from + [n], block, ch, official, n + 1)
    ensures !Deliverable(block, n, ch, official) ==> Delivers(list, from, block, ch, official, n + 1)
  {
    hide Deliverable, StoredForm;
  }

  /** From the block received to the queue: exactly the deliverable entries, in order. */
  lemma {:induction false} QueueDelivers(block: CtrlBuf, buffer: CtrlBuf, ch: bool, official: seq<CreateID>, n: nat)
    requires LoadedFrom(block, buffer) && n <= 10
    ensures Delivers(Writable(buffer, ch, official, n), Sources(buffer, ch, official, n), block, ch, official, n)
  {
    hide LoadedFrom, CheckCtrlWritableData, Deliverable, WritableRecord, StoredForm;
    if n > 0 {
      QueueDelivers(block, buffer, ch, official, n - 1);
      EntryDelivered(block, buffer, n - 1, ch, official);
      WritableRecordExactly(block.data[n - 1]);
      DeliversOneMore(Writable(buffer, ch, official, n - 1), Sources(buffer, ch, official, n - 1), block, ch,
                      official, n - 1);
      hide Delivers;
    } else {
      assert Sources(buffer, ch, official, 0) == [] && Writable(buffer, ch, official, 0) == [];
    }
  }

  /** Two writes of a valid identifier store it twice exactly when it is temporary. */
  lemma TemporaryWouldRepeat(id: CreateID, n: nat)
    requires IsValidID(id) && n >= 2
    ensures RememberAll([], [id, id], n) == if IsTemporaryID(id) then [id, id] else [id]
    ensures IsTemporaryID(id) ==> !UniquePermanent([id, id])
  {
    TwoWrites(id, n);
    KnownExactly([id], id);
    hide RememberAll, IsTemporaryID, Known;
    assert [id, id][0] == [id, id][1];
  }

  lemma TwoWrites(id: CreateID, n: nat)
    requires n >= 2
    ensures RememberAll([], [id, id], n) == Remember([id], id, n)
  {
    OneWrite(id, n);
    assert [id, id][..1] == [id];
    hide Remember;
  }

  lemma OneWrite(id: CreateID, n: nat)
    requires n >= 1
    ensures RememberAll([], [id], n) == [id]
  {
    KnownExactly([], id);
    hide Known, IsPermanentID;
    assert [id][..0] == [];
  }

  // ---------------------------------------------------------------- the read protocol

  datatype ReadResult = Ok(first: CtrlBuf, second: CtrlBuf) | Transfer | NoController

  datatype Ending = NotEnded | Success | Loadfail | Controllerfail | ToDatabase

  /** What a read that arrived gives: the first block whose CRC is right, if any. */
  function ValidBlock(r: ReadResult): Option<CtrlBuf> {
    if !r.Ok? then None
    else if CheckCRC(r.first) then Some(r.first)
    else if CheckCRC(r.second) then Some(r.second)
    else None
  }

  /** The first block counts when it carries the mark "RNCD" and its CRC comes out as zero,
      the second one only when the first does not count. */
  lemma ValidBlockExactly(first: CtrlBuf, second: CtrlBuf)
    ensures var f := first.identifier == 0x524E_4344 && first.crc == 0;
      var s := second.identifier == 0x524E_4344 && second.crc == 0;
      && (ValidBlock(Ok(first, second)).None? <==> !f && !s)
      && (f ==> ValidBlock(Ok(first, second)) == Some(first))
      && (!f && s ==> ValidBlock(Ok(first, second)) == Some(second))
    ensures ValidBlock(Transfer).None? && ValidBlock(NoController).None?
  {
  }

  /** The kept blocks after a read: those whose CRC is right are replaced. */
  predicate Kept(r: ReadResult, before: (CtrlBuf, CtrlBuf), after: (CtrlBuf, CtrlBuf)) {
    && (if r.Ok? && CheckCRC(r.first) then WithoutDeleted(r.first, after.0) else after.0 == before.0)
    && (if r.Ok? && CheckCRC(r.second) then WithoutDeleted(r.second, after.1) else after.1 == before.1)
  }

  /** The loaded buffer that a block leads to. */
  predicate LoadedFrom(block: CtrlBuf, buffer: CtrlBuf) {
    && SaneBuffer(buffer) && buffer == block.(data := buffer.data)
    && forall i :: 0 <= i < CHAR_MAX ==>
         buffer.data[i] == if Flagged(block.deleted, i) then ZeroChar() else Cleaned(block.data[i])
  }

  /** `RFLiCtrlBufManager`, for one controller. */
  class CtrlBufManager {
    const db: HiddenDBManager
    const official: seq<CreateID>
    var buffer: CtrlBuf
    var replaceBuf: (CtrlBuf, CtrlBuf)
    var loaded: bool
    var retry: nat
    var tempBuffer: bool
    var reading: bool
    var ch: bool
    var requests: nat
    var ending: Ending

    ghost predicate Valid()
      reads this, db, db.hdb, db.hdb.data, db.file, db.cachedDB
    {
      && db.Valid()
      && (reading ==> tempBuffer && retry < READ_RETRY_MAX && requests == retry + 1 && ending.NotEnded?)
      && requests <= READ_RETRY_MAX
      && SaneBuffer(buffer)
    }

    /** The buffers as the start of a load clears them. */
    predicate AllEmpty()
      reads this
    {
      buffer == replaceBuf.0 == replaceBuf.1 == EmptyBuffer(0)
    }

    /** The records of the buffer that may be written are the next batch of the database. */
    ghost predicate BatchQueued()
      requires db.hdb.Valid()
      reads this, db, db.hdb, db.hdb.data
    {
      db.phase.Queued? && db.list == Writable(buffer, ch, official, CHAR_MAX) && db.ids0 == db.hdb.Ids()
    }

    constructor (db: HiddenDBManager, official: seq<CreateID>)
      requires db.Valid()
      ensures Valid() && this.db == db && !reading && !loaded
    {
      this.db, this.official := db, official;
      buffer, loaded := EmptyBuffer(MAGIC_CONTROLLER_DATA), false;
      replaceBuf := (EmptyBuffer(MAGIC_CONTROLLER_DATA), EmptyBuffer(MAGIC_CONTROLLER_DATA));
      retry, tempBuffer, reading, ch, requests, ending := 0, false, false, false, 0, NotEnded;
    }

    /** `readbuffer_`. */
    method ReadBuffer(probe: bool, accepted: bool)
      requires Valid() && !reading
      modifies this`tempBuffer, this`retry, this`reading, this`requests, this`ending
      ensures Valid() && reading == (probe && accepted) && (reading ==> requests == 1)
      ensures !reading ==> ending.Controllerfail? && requests == 0
      ensures tempBuffer == if probe then reading else old(tempBuffer)
    {
      hide HiddenDBManager.Valid, SaneBuffer;
      ending, requests := NotEnded, 0;
      if !probe {
        ending := Controllerfail;
        return;
      }
      tempBuffer := true;
      retry := 0;
      if accepted {
        reading, requests := true, 1;
      } else {
        tempBuffer := false;
        ending := Controllerfail;
      }
    }

    /** `RFLiLoadControllerAsync`, when nothing else is working. */
    method Load(probe: bool, accepted: bool, ch: bool)
      requires Valid() && !reading
      modifies this
      ensures Valid() && reading == (probe && accepted) && (reading ==> requests == 1)
      ensures !reading ==> ending.Controllerfail? && requests == 0
      ensures tempBuffer == if probe then reading else old(tempBuffer)
      ensures loaded == old(loaded) && this.ch == ch && AllEmpty()
    {
      hide HiddenDBManager.Valid, SaneBuffer, EmptyBuffer;
      this.ch := ch;
      buffer, replaceBuf := EmptyBuffer(0), (EmptyBuffer(0), EmptyBuffer(0));
      ReadBuffer(probe, accepted);
    }

    /** `errorAndReRead_`. A re-read that the controller refuses counts as retried: the
        load ends with an error and the temporary buffer stays allocated. */
    method ErrorAndReRead(accepted: bool) returns (retried: bool)
      requires Valid() && reading
      modifies this`retry, this`reading, this`requests, this`ending
      ensures retry == old(retry) + 1 && retried == (retry < READ_RETRY_MAX)
      ensures reading == (retried && accepted)
      ensures requests == if reading then retry + 1 else old(requests)
      ensures ending == if retried && !accepted then Controllerfail else NotEnded
    {
      retry := retry + 1;
      reading := false;
      retried := false;
      if retry < READ_RETRY_MAX {
        if accepted {
          reading, requests := true, requests + 1;
        } else {
          ending := Controllerfail;
        }
        retried := true;
      }
    }

    /** `RFLiWriteCtrlToHiddenDB`: the records of the buffer become the next batch of the
        hidden database. */
    method WriteCtrlToHiddenDB()
      requires Valid() && !reading && !db.pending && !db.phase.Ready?
      modifies db
      ensures Valid() && BatchQueued() && !db.pending
    {
      hide Sane, Writable, Cleaned, IsList, UniquePermanent, Agree, Latest, SameOutside, RememberAll;
      var list, _ := GetCtrlWritableCount(buffer, ch, official);
      WritablePermanent(buffer, ch, official, CHAR_MAX);
      db.StartBatch(list);
    }

    /** `validBufferFound_`: the records of the buffer are written to the hidden database,
        unless the header says that it is isolated. */
    method ValidBufferFound(buf: CtrlBuf, isolation: bool, info: CharInfo)
      requires Valid() && reading && !db.pending && !db.phase.Ready?
      modifies this, db
      ensures Valid() && !reading && !tempBuffer && loaded && requests == old(requests)
      ensures replaceBuf == old(replaceBuf)
      ensures buffer == buf.(data := buffer.data)
      ensures forall i :: 0 <= i < CHAR_MAX ==> buffer.data[i] == Cleaned(buf.data[i])
      ensures ending == if isolation then Success else ToDatabase
      ensures ending.ToDatabase? ==> BatchQueued()
      ensures ch == old(ch) && !db.pending && !db.phase.Ready?
      ensures !ending.ToDatabase? ==> db.phase == old(db.phase) && db.list == old(db.list)
    {
      hide Sane, Writable, Cleaned, HiddenDBManager.Valid;
      buffer := CleanBuffer(buf, info);
      loaded, tempBuffer, reading := true, false, false;
      if isolation {
        ending := Success;
      } else {
        ending := ToDatabase;
        WriteCtrlToHiddenDB();
      }
    }

    /** The two blocks read: each one whose CRC is right is kept, and the first of them is
        used. */
    method KeepBlocks(first: CtrlBuf, second: CtrlBuf) returns (validBuf: Option<CtrlBuf>)
      modifies this`replaceBuf
      ensures Kept(Ok(first, second), old(replaceBuf), replaceBuf)
      ensures ValidBlock(Ok(first, second)).Some? == validBuf.Some?
      ensures validBuf.Some? ==> WithoutDeleted(ValidBlock(Ok(first, second)).value, validBuf.value)
    {
      hide WithoutDeleted;
      validBuf := None;
      if CheckCRC(first) {
        var cleared := ClearDeleted(first);
        replaceBuf := (cleared, replaceBuf.1);
        if validBuf.None? { validBuf := Some(cleared); }
      }
      if CheckCRC(second) {
        var cleared := ClearDeleted(second);
        replaceBuf := (replaceBuf.0, cleared);
        if validBuf.None? { validBuf := Some(cleared); }
      }
    }

    /** `readcallback_`. Each block whose CRC is right is also kept, without its deleted
        records, to be put back by a later write; the other kept block stays. */
    method ReadCallback(result: ReadResult, accepted: bool, isolation: bool, info: CharInfo)
      requires Valid() && reading && !db.pending && !db.phase.Ready?
      modifies this, db
      ensures Valid() && !db.pending && !db.phase.Ready?
      ensures ValidBlock(result).Some? ==>
        && LoadedFrom(ValidBlock(result).value, buffer) && loaded && !reading && !tempBuffer
        && ending == (if isolation then Success else ToDatabase)
      ensures Kept(result, old(replaceBuf), replaceBuf)
      ensures ending.ToDatabase? ==>
        && BatchQueued() && ValidBlock(result).Some? && ch == old(ch)
        && DeliversAll(db.list, ValidBlock(result).value, ch, official)
      ensures ValidBlock(result).None? && !result.NoController? && old(retry) + 1 < 3 ==>
        && reading == accepted && (reading ==> retry == old(retry) + 1)
        && (!reading ==> ending.Controllerfail? && tempBuffer)
      ensures ValidBlock(result).None? && !result.NoController? && old(retry) + 1 == 3 ==>
        && !reading && !tempBuffer && !loaded
        && ending == (if result.Ok? then Loadfail else Controllerfail)
      ensures !ending.ToDatabase? ==> db.phase == old(db.phase) && db.list == old(db.list)
      ensures result.NoController? ==> !reading && !tempBuffer && loaded == old(loaded) && ending.Controllerfail?
    {
      hide HiddenDBManager.Valid, Sane, Writable, Cleaned, WithoutDeleted, LoadedFrom, Delivers, Sources;
      match result {
        case Ok(first, second) =>
          var validBuf := KeepBlocks(first, second);
          if validBuf.Some? {
            ValidBufferFound(validBuf.value, isolation, info);
            LoadedFromCleared(ValidBlock(result).value, validBuf.value, buffer);
            QueueDelivers(ValidBlock(result).value, buffer, ch, official, 10);
          } else {
            var retried := ErrorAndReRead(accepted);
            if !retried {
              tempBuffer, ending, loaded := false, Loadfail, false;
            }
          }
        case Transfer =>
          var retried := ErrorAndReRead(accepted);
          if !retried {
            tempBuffer, ending, loaded := false, Controllerfail, false;
          }
        case NoController =>
          reading, tempBuffer, ending := false, false, Controllerfail;
      }
    }

    /** One load in any environment, up to the last completion it gives. */
    method RunLoad(s: Script)
      requires Valid() && !reading && !db.phase.Ready?
      modifies this, db, db.hdb, db.hdb.data, db.file, db.cachedDB
      ensures Valid() && !db.phase.Ready?
      ensures |s.results| >= READ_RETRY_MAX ==> !reading
      ensures s.isolation ==> db.hdb.Ids() == old(db.hdb.Ids())
    {
      hide CheckValidInfo, IsList, UniquePermanent, Agree, Latest, SameOutside, RememberAll, LoadedFrom, Sane, Writable;
      if db.pending { return; }
      Load(s.probe, s.accepted, s.ch);
      var k := 0;
      while k < |s.results| && reading
        invariant Valid() && !db.pending && !db.phase.Ready?
        invariant 0 <= k <= |s.results| && (reading ==> retry >= k)
        invariant ending.ToDatabase? ==> db.phase.Queued? && !s.isolation
        invariant unchanged(db.hdb, db.hdb.data)
      {
        ReadCallback(s.results[k].0, s.results[k].1, s.isolation, s.info);
        k := k + 1;
      }
      if ending.ToDatabase? {
        if |db.list| > 0 {
          db.RunBatchAnyhow(s.ok, s.heap, s.outcomes);
        } else {
          db.OpenForHeader();
        }
      }
    }
  }

  lemma LoadedFromCleared(block: CtrlBuf, cleared: CtrlBuf, buffer: CtrlBuf)
    requires WithoutDeleted(block, cleared) && SaneBuffer(buffer) && buffer == cleared.(data := buffer.data)
    requires forall i :: 0 <= i < CHAR_MAX ==> buffer.data[i] == Cleaned(cleared.data[i])
    ensures LoadedFrom(block, buffer)
  {
    hide ValidChar, IsTemporaryID, Sane;
  }

  /** What the environment does during one load. */
  datatype Script = Script(probe: bool, accepted: bool, ch: bool, results: seq<(ReadResult, bool)>, isolation: bool,
                           info: CharInfo, ok: bool, heap: HiddenCharData, outcomes: seq<(bool, HiddenCharData, bool)>)

  /** Any run of loads into a formatted database leaves a list of permanent, pairwise
      different identifiers, whatever the controllers hold, the header says of its isolation
      and the file system does; isolated loads, as formatting leaves them, store nothing. */
  method RunLoads(n: nat, cached: bool, official: seq<CreateID>, scripts: seq<Script>)
    returns (c: CtrlBufManager)
    requires 2 <= n <= MAX_SLOTS
    ensures c.Valid() && c.db.hdb.data.Length == n
    ensures UniquePermanent(c.db.hdb.Ids())
    ensures (forall k :: 0 <= k < |scripts| ==> scripts[k].isolation) ==> c.db.hdb.Ids() == []
  {
    hide CheckValidInfo, IsList, UniquePermanent, Agree, Latest, SameOutside, RememberAll, LoadedFrom, Sane, Writable;
    var db := Formatted(n, cached);
    c := new CtrlBufManager(db, official);
    var k := 0;
    while k < |scripts|
      invariant c.Valid() && c.db.hdb.data.Length == n && !c.db.phase.Ready?
      invariant 0 <= k <= |scripts|
      invariant (forall j :: 0 <= j < k ==> scripts[j].isolation) ==> c.db.hdb.Ids() == []
      invariant fresh(c) && fresh(c.db) && fresh(c.db.hdb) && fresh(c.db.hdb.data)
      invariant fresh(c.db.file) && fresh(c.db.cachedDB)
    {
      if c.reading { return; }
      c.RunLoad(scripts[k]);
      k := k + 1;
    }
  }
}
