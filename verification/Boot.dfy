/**
 Loading the database at boot: open, seek, read, check and close are asynchronous steps
 whose results come from the file system, and the image is accepted or rejected.
 */
module Boot {
  import opened Crc
  import opened Errcodes
  import opened FileAccess
  import opened Options
  import opened Words

  /** The operation whose completion is awaited. */
  datatype Pending = Nothing | Reopening | Opening | Seeking | Reading | Checking | Closing

  /** What `bootloadDBcallback_` makes of a read that failed: the code it records and the
      bit it sets. */
  function Judgement(err: Errcode, reason: int): (Errcode, FileBroken) {
    if err != NANDCommandfail then (err, DBBroken)
    else if reason == NAND_CORRUPT then (NANDCommandfail, Corrupt)
    else (Loadfail, DBBroken)
  }

  /** The outcome of a boot whose open and read requests are accepted, for the results of
      seek, read request, read and check. */
  function Outcome(seekResult: int, readReply: int, readResult: int, size: nat, crc: u16): (Errcode, set<FileBroken>) {
    if seekResult != 0 then Rejected(Judgement(SeekError(seekResult), seekResult))
    else if readReply != NAND_OK then Rejected(Judgement(ReadRefusal(readReply), readReply))
    else if readResult != size then Rejected(Judgement(ReadError(readResult), readResult))
    else if crc != 0 then (Loadfail, {DBBroken})
    else (Success, {})
  }

  function Rejected(j: (Errcode, FileBroken)): (Errcode, set<FileBroken>) {
    (j.0, {j.1})
  }

  /** The bits that `bootloadDBopencallback_` sets for a failed open. */
  function OpenBits(reason: int): set<FileBroken> {
    if reason == NAND_NOEXISTS then {DBNotFound}
    else if reason == NAND_CORRUPT then {Corrupt}
    else if reason == NAND_AUTHENTICATION || reason == NAND_ECC_CRIT then {DBBroken}
    else {}
  }

  /** The failed opens after which the boot callback runs. */
  predicate OpenAnswered(reason: int) {
    reason == NAND_NOEXISTS || reason == NAND_AUTHENTICATION || reason == NAND_ECC_CRIT
  }

  /** Everything the file system answers during one boot, requests and completions; the
      reopening comes in when the file is still open. */
  datatype Replies = Replies(openReply: int, reopenResult: int, reopenReply: int, openResult: int, seekReply: int,
                             seekResult: int, readReply: int, readResult: int, bytes: seq<u8>, closeReply: int,
                             closeResult: int)

  predicate GoodRead(r: Replies, size: nat) {
    r.seekResult == 0 && r.readReply == NAND_OK && r.readResult == size && CrcOf(r.bytes) == 0
  }

  /** The error code and the reason with which the file does not get open, if so. */
  function OpenFailure(r: Replies, isOpen: bool): Option<(Errcode, int)> {
    if r.openReply != NAND_OK then Some((OpenRefusal(isOpen, r.openReply), r.openReply))
    else if isOpen && r.reopenResult != NAND_OK then Some((ReopenError(r.reopenResult), r.reopenResult))
    else if isOpen && r.reopenReply != NAND_OK then Some((OpenRefusal(false, r.reopenReply), r.reopenReply))
    else if r.openResult != NAND_OK then Some((OpenError(r.openResult), r.openResult))
    else None
  }

  function ReadOutcome(r: Replies, size: nat): (Errcode, set<FileBroken>) {
    Outcome(r.seekResult, r.readReply, r.readResult, size, CrcOf(r.bytes))
  }

  /** The file is missing, which counts as an accepted boot. */
  predicate Missing(f: (Errcode, int)) {
    f.0 == NANDCommandfail && f.1 == NAND_NOEXISTS
  }

  /** The broken bits that a boot adds. A refused request to open sets none, even for a
      missing file. */
  function BootBits(r: Replies, isOpen: bool, size: nat): set<FileBroken> {
    if OpenFailure(r, isOpen).Some? then
      var f := OpenFailure(r, isOpen).value;
      if r.openReply == NAND_OK && f.0 == NANDCommandfail then OpenBits(f.1) else {}
    else if r.seekReply != NAND_OK then {}
    else ReadOutcome(r, size).1
  }

  /** The error code that a boot leaves. */
  function BootCode(r: Replies, isOpen: bool, size: nat): Errcode {
    if OpenFailure(r, isOpen).Some? then
      var f := OpenFailure(r, isOpen).value;
      if Missing(f) then Success else f.0
    else if r.seekReply != NAND_OK then SeekRefusal(r.seekReply)
    else if r.closeReply != NAND_OK then CloseError(r.closeReply)
    else if r.closeResult != NAND_OK then CloseError(r.closeResult)
    else ReadOutcome(r, size).0
  }

  /** The boots after which the boot callback runs. */
  predicate Answered(r: Replies, isOpen: bool) {
    if OpenFailure(r, isOpen).Some? then
      var f := OpenFailure(r, isOpen).value;
      if r.openReply != NAND_OK then Missing(f) else f.0 == NANDCommandfail && OpenAnswered(f.1)
    else r.seekReply != NAND_OK || r.closeReply == NAND_OK
  }

  /** The boots that end with an error and yet add no broken bit: refused requests before
      the read, opens that fail for an unlisted reason, and a close that fails behind a good
      image. */
  predicate SilentFailure(r: Replies, isOpen: bool, size: nat) {
    if r.openReply != NAND_OK then r.openReply != NAND_NOEXISTS
    else if isOpen && r.reopenResult != NAND_OK then r.reopenResult != NAND_CORRUPT
    else if isOpen && r.reopenReply != NAND_OK then r.reopenReply != NAND_NOEXISTS
    else if r.openResult != NAND_OK then OpenBits(r.openResult) == {}
    else if r.seekReply != NAND_OK then true
    else GoodRead(r, size) && (r.closeReply != NAND_OK || r.closeResult != NAND_OK)
  }

  /** Exactly these. */
  lemma SilentExactly(r: Replies, isOpen: bool, size: nat)
    ensures BootCode(r, isOpen, size) != Success && BootBits(r, isOpen, size) == {} <==> SilentFailure(r, isOpen, size)
  {
    hide CrcOf;
    RejectedSetsBit(r, size);
    assert DBNotFound in {DBNotFound} && Corrupt in {Corrupt} && DBBroken in {DBBroken};
  }

  lemma RejectedSetsBit(r: Replies, size: nat)
    ensures ReadOutcome(r, size).1 == {} <==> GoodRead(r, size)
    ensures ReadOutcome(r, size).0 == Success <==> GoodRead(r, size)
  {
    hide CrcOf;
    var o := ReadOutcome(r, size);
    if !GoodRead(r, size) { assert DBBroken in o.1 || Corrupt in o.1; }
  }

  /** The codes and bits of a read that is not accepted, by the numbers that the file system
      returns: a corrupt file alone counts as corrupt, and keeps its code. */
  lemma ReadByNumbers(seekResult: int, readReply: int, readResult: int, size: nat, crc: u16)
    ensures var o := Outcome(seekResult, readReply, readResult, size, crc);
      && (seekResult != 0 ==>
            o == (if seekResult > 0 || seekResult in {-1, -2, -3} then Loadfail else Fatal, {DBBroken}))
      && (seekResult == 0 && readReply == -4 ==> o == (NANDCommandfail, {Corrupt}))
      && (seekResult == 0 && readReply !in {0, -4} ==>
            o == (if readReply in {-1, -2, -3, -5} then Loadfail else Fatal, {DBBroken}))
      && (seekResult == 0 && readReply == 0 && readResult != size ==>
            o == if readResult == -4 then (NANDCommandfail, {Corrupt})
                 else if readResult >= 0 || readResult in {-1, -2, -3, -5, -15} then (Loadfail, {DBBroken})
                 else (Fatal, {DBBroken}))
      && (seekResult == 0 && readReply == 0 && readResult == size ==>
            o == if crc == 0 then (Success, {}) else (Loadfail, {DBBroken}))
  {
  }

  /** The same for the requests, the open and the reopening. */
  lemma OpenByNumbers(r: Replies, isOpen: bool, size: nat)
    ensures r.openReply != 0 ==>
      && BootBits(r, isOpen, size) == {} && (Answered(r, isOpen) <==> r.openReply == -12)
      && BootCode(r, isOpen, size) == if r.openReply == -12 then Success
           else if isOpen || r.openReply in {-1, -2, -3, -10} then NANDCommandfail else Fatal
    ensures r.openReply == 0 && isOpen && r.reopenResult != 0 ==>
      && BootBits(r, isOpen, size) == (if r.reopenResult == -4 then {Corrupt} else {}) && !Answered(r, isOpen)
      && BootCode(r, isOpen, size) == if r.reopenResult in {-1, -2, -3, -4, -11} then NANDCommandfail else Fatal
    ensures r.openReply == 0 && isOpen && r.reopenResult == 0 && r.reopenReply != 0 ==>
      && BootBits(r, isOpen, size) == (if r.reopenReply == -12 then {DBNotFound} else {})
      && (Answered(r, isOpen) <==> r.reopenReply == -12)
      && BootCode(r, isOpen, size) == if r.reopenReply == -12 then Success
           else if r.reopenReply in {-1, -2, -3, -10} then NANDCommandfail else Fatal
    ensures Reached(r, isOpen) && r.openResult != 0 ==>
      && BootBits(r, isOpen, size) == (if r.openResult == -12 then {DBNotFound}
                                       else if r.openResult == -4 then {Corrupt}
                                       else if r.openResult in {-5, -15} then {DBBroken} else {})
      && (Answered(r, isOpen) <==> r.openResult in {-5, -12, -15})
      && BootCode(r, isOpen, size) == if r.openResult == -12 then Success
           else if r.openResult in {-1, -3, -4, -5, -9, -10, -11, -15} then NANDCommandfail else Fatal
  {
    hide CrcOf, ReadOutcome;
  }

  /** The open itself is reached. */
  predicate Reached(r: Replies, isOpen: bool) {
    r.openReply == 0 && (isOpen ==> r.reopenResult == 0 && r.reopenReply == 0)
  }

  /** The same for the requests of the read and of the close, and for the close. */
  lemma CloseByNumbers(r: Replies, isOpen: bool, size: nat)
    requires Reached(r, isOpen) && r.openResult == 0
    ensures r.seekReply != 0 ==>
      && BootBits(r, isOpen, size) == {} && Answered(r, isOpen)
      && BootCode(r, isOpen, size) == if r.seekReply in {-1, -2, -3} then NANDCommandfail else Fatal
    ensures r.seekReply == 0 ==>
      && BootBits(r, isOpen, size) == ReadOutcome(r, size).1 && (Answered(r, isOpen) <==> r.closeReply == 0)
    ensures r.seekReply == 0 && r.closeReply != 0 ==>
      BootCode(r, isOpen, size) == if r.closeReply in {-2, -3, -4} then NANDCommandfail else Fatal
    ensures r.seekReply == 0 && r.closeReply == 0 && r.closeResult != 0 ==>
      BootCode(r, isOpen, size) == if r.closeResult in {-2, -3, -4} then NANDCommandfail else Fatal
    ensures r.seekReply == 0 && r.closeReply == 0 && r.closeResult == 0 ==>
      BootCode(r, isOpen, size) == ReadOutcome(r, size).0
  {
    hide CrcOf, ReadOutcome;
  }

  /** `RFLiDBManager`, as far as booting the database goes. */
  class DBManager {
    const sys: Manager
    const crcInfo: HeaderCrc
    var pending: Pending
    var booted: nat
    ghost var broken0: set<FileBroken>
    ghost var arrived: Option<seq<u8>>
    ghost var recorded: Errcode

    /** The whole image was read, and its CRC is right. */
    ghost predicate GoodImage()
      reads this
    {
      arrived.Some? && CrcOf(arrived.value) == 0
    }

    /** What is known when the close has been requested: only a good image leaves Success
        and the broken bits alone. */
    ghost predicate Judged()
      reads this, sys
    {
      if GoodImage() then recorded == Success && sys.brokenType == broken0
      else recorded != Success && recorded != Busy && sys.brokenType >= broken0
           && (DBBroken in sys.brokenType || Corrupt in sys.brokenType)
    }

    ghost predicate Valid()
      reads this, sys, crcInfo, crcInfo.database
    {
      && (!pending.Nothing? ==> sys.working && sys.lastErrCode == Busy)
      && (!pending.Nothing? && !pending.Closing? ==> sys.brokenType == broken0)
      && (pending.Seeking? || pending.Reading? || pending.Checking? || pending.Closing? ==> !Critical(broken0))
      && (pending.Reopening? || pending.Opening? || pending.Seeking? || pending.Reading? ==> arrived.None?)
      && (pending.Checking? ==> crcInfo.Suspended() && arrived == Some(crcInfo.database[..]))
      && (pending.Closing? ==> sys.beforeCloseErr == recorded && Judged()
                               && (arrived.Some? ==> arrived.value == crcInfo.database[..]))
    }

    constructor (sys: Manager, image: array<u8>)
      ensures Valid() && pending.Nothing? && booted == 0
      ensures this.sys == sys && crcInfo.database == image
    {
      this.sys := sys;
      crcInfo := new HeaderCrc(image);
      pending, booted, broken0, arrived, recorded := Nothing, 0, {}, None, Success;
    }

    /** `RFLiCloseAsync`, its request accepted or not. */
    method CloseAsync(reply: int)
      requires pending.Nothing? && Judged() && sys.lastErrCode == recorded && !Critical(broken0)
      requires arrived.Some? ==> arrived.value == crcInfo.database[..]
      modifies sys`working, sys`lastErrCode, sys`lastReason, sys`beforeCloseErr, sys`beforeCloseReason, this`pending
      ensures Valid() && sys.beforeCloseErr == recorded && sys.beforeCloseReason == old(sys.lastReason)
      ensures pending == if reply == NAND_OK then Closing else Nothing
      ensures reply != NAND_OK ==> !sys.working && sys.lastErrCode == CloseError(reply)
    {
      hide CrcOf;
      sys.CloseAsync(reply);
      if reply == NAND_OK { pending := Closing; }
    }

    /** `RFLiBootLoadDatabaseAsync`, with the reply to the open (or, for a file still open,
        the close) that it requests; `formatted` is the image of `RFLiClearDBBuffer`. */
    method BootLoad(reply: int, formatted: seq<u8>) returns (status: Errcode)
      requires Valid() && pending.Nothing? && |formatted| == crcInfo.database.Length
      modifies this, sys, crcInfo.database
      ensures Valid() && sys.brokenType == old(sys.brokenType) && sys.isOpen == old(sys.isOpen)
      ensures old(sys.working) ==> status == Fatal && pending.Nothing? && booted == old(booted)
      ensures !old(sys.working) ==> broken0 == sys.brokenType && status == sys.AsyncStatus()
      ensures !old(sys.working) && reply == NAND_OK ==>
        pending == (if sys.isOpen then Reopening else Opening) && booted == old(booted)
      ensures !old(sys.working) && reply != NAND_OK ==>
        var missing := Missing((OpenRefusal(sys.isOpen, reply), reply)) && !Critical(broken0);
        && pending.Nothing? && !sys.working && booted == old(booted) + (if missing then 1 else 0)
        && sys.lastErrCode == (if missing then Success else OpenRefusal(sys.isOpen, reply))
        && (missing ==> crcInfo.database[..] == formatted)
    {
      if sys.working { return Fatal; }
      broken0, arrived := sys.brokenType, None;
      status := sys.OpenAsync(reply);
      if reply == NAND_OK {
        pending := if sys.isOpen then Reopening else Opening;
      } else if status == NANDCommandfail && sys.lastReason == NAND_NOEXISTS {
        forall k | 0 <= k < crcInfo.database.Length { crcInfo.database[k] := formatted[k]; }
        sys.lastErrCode := Success;
        booted := booted + 1;
      }
      status := sys.AsyncStatus();
    }

    /** What a failed open leaves: the bit, the code and the callback for its code and
        reason. A critical error of before hides it all. */
    twostate predicate Failed(f: (Errcode, int))
      reads this, sys
    {
      && pending.Nothing? && !sys.working
      && if Critical(broken0) then sys.brokenType == broken0 && booted == old(booted)
         else
           && sys.brokenType == broken0 + (if f.0 == NANDCommandfail then OpenBits(f.1) else {})
           && booted == old(booted) + (if f.0 == NANDCommandfail && OpenAnswered(f.1) then 1 else 0)
           && sys.lastErrCode == (if Missing(f) then Success else f.0)
    }

    /** `close2opencallback_`, with the reply to the open that it requests. */
    method Close2OpenCallback(result: int, reply: int, seekReply: int)
      requires Valid() && pending.Reopening?
      modifies this, sys
      ensures Valid() && broken0 == old(broken0) && sys.isOpen == old(sys.isOpen)
      ensures if result != NAND_OK then Failed((ReopenError(result), result))
              else if reply != NAND_OK then Failed((OpenRefusal(false, reply), reply))
              else pending.Opening? && booted == old(booted)
    {
      sys.Close2OpenCallback(result, reply);
      if result == NAND_OK && reply == NAND_OK {
        pending := Opening;
      } else {
        pending := Nothing;
        BootOpened(seekReply);
      }
    }

    /** `opencallback_` for a file opened for reading. */
    method OpenCallback(result: int, seekReply: int)
      requires Valid() && pending.Opening?
      modifies this, sys
      ensures Valid() && sys.isOpen == (result == NAND_OK) && broken0 == old(broken0) && arrived == old(arrived)
      ensures result != NAND_OK ==> Failed((OpenError(result), result))
      ensures result == NAND_OK && Critical(broken0) ==>
        pending.Nothing? && !sys.working && sys.brokenType == broken0 && booted == old(booted)
      ensures result == NAND_OK && !Critical(broken0) ==>
        && pending == (if seekReply == NAND_OK then Seeking else Nothing) && sys.brokenType == broken0
        && booted == old(booted) + (if seekReply == NAND_OK then 0 else 1)
        && (seekReply != NAND_OK ==> !sys.working && sys.lastErrCode == SeekRefusal(seekReply))
    {
      sys.OpenCallback(result);
      pending := Nothing;
      BootOpened(seekReply);
    }

    /** `bootloadDBopencallback_`, with the reply to the seek of the read it requests. Only a
        missing, corrupt, unauthorised or unreadable file sets a bit; a refused read and
        every other failure leave an error code alone. */
    method BootOpened(seekReply: int)
      requires pending.Nothing? && !sys.working && arrived.None? && sys.brokenType == broken0
      requires sys.lastErrCode != Busy
      modifies sys`working, sys`lastErrCode, sys`lastReason, sys`brokenType, this`pending, this`booted
      ensures Valid()
      ensures pending == if old(sys.AsyncStatus()) == Success && seekReply == NAND_OK then Seeking else Nothing
      ensures pending.Seeking? ==> booted == old(booted) && sys.brokenType == broken0
      ensures old(sys.AsyncStatus()) == Success && seekReply != NAND_OK ==>
        booted == old(booted) + 1 && sys.lastErrCode == SeekRefusal(seekReply) && sys.brokenType == broken0
      ensures old(sys.AsyncStatus()) == NANDCommandfail ==>
        && sys.brokenType == broken0 + OpenBits(old(sys.lastReason))
        && booted == old(booted) + (if OpenAnswered(old(sys.lastReason)) then 1 else 0)
        && sys.lastErrCode == (if old(sys.lastReason) == NAND_NOEXISTS then Success else NANDCommandfail)
      ensures old(sys.AsyncStatus()) !in {Success, NANDCommandfail} ==>
        sys.brokenType == broken0 && booted == old(booted) && sys.lastErrCode == old(sys.lastErrCode)
      ensures !pending.Seeking? ==> !sys.working
    {
      var status := sys.AsyncStatus();
      if status == Success {
        status := sys.ReadAsync(seekReply);
        if seekReply == NAND_OK { pending := Seeking; } else { booted := booted + 1; }
      } else if status == NANDCommandfail {
        if sys.lastReason == NAND_NOEXISTS {
          sys.brokenType := sys.brokenType + {DBNotFound};
          sys.lastErrCode := Success;
          booted := booted + 1;
        } else if sys.lastReason == NAND_CORRUPT {
          sys.brokenType := sys.brokenType + {Corrupt};
        } else if sys.lastReason == NAND_AUTHENTICATION || sys.lastReason == NAND_ECC_CRIT {
          sys.brokenType := sys.brokenType + {DBBroken};
          booted := booted + 1;
        }
      }
    }

    /** `readseekcallback_` at offset 0, with the reply to the read that it requests. */
    method ReadSeekCallback(result: int, readReply: int, closeReply: int)
      requires Valid() && pending.Seeking?
      modifies this, sys, crcInfo
      ensures Valid() && broken0 == old(broken0) && booted == old(booted)
      ensures pending.Nothing? ==> !sys.working && sys.lastErrCode == CloseError(closeReply)
      ensures result == 0 && readReply == NAND_OK ==> pending.Reading?
      ensures !(result == 0 && readReply == NAND_OK) ==>
                && pending == (if closeReply == NAND_OK then Closing else Nothing) && arrived.None?
                && var j := if result == 0 then Judgement(ReadRefusal(readReply), readReply)
                            else Judgement(SeekError(result), result);
                   recorded == j.0 && sys.brokenType == broken0 + {j.1}
    {
      sys.ReadSeekCallback(result, 0, readReply);
      if result == 0 && readReply == NAND_OK {
        pending := Reading;
      } else {
        pending := Nothing;
        BootRead(closeReply);
      }
    }

    /** `readcallback_`: a read of the image, rounded up to 32 bytes, ends with the count of
        bytes delivered or with an error. */
    method ReadCallback(result: int, bytes: seq<u8>, closeReply: int)
      requires Valid() && pending.Reading? && (result >= 0 ==> |bytes| == result)
      modifies this, sys, crcInfo, crcInfo.database
      ensures Valid() && broken0 == old(broken0) && booted == old(booted)
      ensures pending.Nothing? ==> !sys.working && sys.lastErrCode == CloseError(closeReply)
      ensures result == crcInfo.database.Length ==> pending.Checking? && arrived == Some(bytes)
      ensures result != crcInfo.database.Length ==>
                && pending == (if closeReply == NAND_OK then Closing else Nothing) && arrived.None?
                && recorded == Judgement(ReadError(result), result).0
                && sys.brokenType == broken0 + {Judgement(ReadError(result), result).1}
                && (forall k :: 0 <= k < crcInfo.database.Length ==> crcInfo.database[k] == 0)
    {
      pending := Nothing;
      if result == crcInfo.database.Length {
        forall k | 0 <= k < crcInfo.database.Length { crcInfo.database[k] := bytes[k]; }
        assert crcInfo.database[..] == bytes;
        arrived := Some(bytes);
      } else {
        forall k | 0 <= k < crcInfo.database.Length { crcInfo.database[k] := 0; }
      }
      sys.ReadCallback(result, crcInfo.database.Length);
      BootRead(closeReply);
    }

    /** `bootloadDBcallback_`. */
    method BootRead(closeReply: int)
      requires pending.Nothing? && !sys.working && sys.lastErrCode != Busy
      requires sys.brokenType == broken0 && !Critical(broken0)
      requires arrived == if sys.lastErrCode == Success then Some(crcInfo.database[..]) else None
      modifies this, sys, crcInfo
      ensures Valid() && broken0 == old(broken0) && arrived == old(arrived) && booted == old(booted)
      ensures pending.Nothing? ==> !sys.working && sys.lastErrCode == CloseError(closeReply)
      ensures pending == if arrived.Some? then Checking else if closeReply == NAND_OK then Closing else Nothing
      ensures arrived.None? ==>
        var j := Judgement(old(sys.lastErrCode), old(sys.lastReason));
        recorded == j.0 && sys.brokenType == broken0 + {j.1}
      ensures arrived.Some? ==> sys.brokenType == broken0
    {
      hide CrcOf;
      var status := sys.AsyncStatus();
      if status == Success {
        sys.StartWorking();
        crcInfo.Start();
        pending := Checking;
      } else {
        if status == NANDCommandfail {
          if sys.lastReason == NAND_CORRUPT {
            sys.brokenType := sys.brokenType + {Corrupt};
          } else {
            sys.lastErrCode := Loadfail;
            sys.brokenType := sys.brokenType + {DBBroken};
          }
        } else {
          sys.brokenType := sys.brokenType + {DBBroken};
        }
        recorded := sys.lastErrCode;
        CloseAsync(closeReply);
      }
    }

    /** One alarm of the check, and `bootloadCheckCRCCb_` after the last. */
    method Alarm(closeReply: int) returns (done: bool)
      requires Valid() && pending.Checking?
      modifies this, sys, crcInfo
      ensures Valid() && broken0 == old(broken0) && arrived == old(arrived) && booted == old(booted)
      ensures pending.Nothing? ==> !sys.working && sys.lastErrCode == CloseError(closeReply)
      ensures !done ==> pending.Checking? && crcInfo.size - crcInfo.count < old(crcInfo.size - crcInfo.count)
      ensures done ==> pending == if closeReply == NAND_OK then Closing else Nothing
      ensures done ==> if GoodImage() then recorded == Success && sys.brokenType == broken0
                       else recorded == Loadfail && sys.brokenType == broken0 + {DBBroken}
    {
      hide CrcOf;
      var crc;
      done, crc := crcInfo.Alarm();
      if done {
        pending := Nothing;
        if crc != 0 {
          sys.lastErrCode := Loadfail;
          sys.brokenType := sys.brokenType + {DBBroken};
        } else {
          sys.lastErrCode := Success;
        }
        recorded := sys.lastErrCode;
        CloseAsync(closeReply);
      }
    }

    /** `closecallback_` and the boot callback behind it. */
    method CloseCallback(result: int)
      requires Valid() && pending.Closing?
      modifies this`pending, this`booted, sys`working, sys`lastErrCode, sys`lastReason, sys`isOpen
      ensures Valid() && pending.Nothing? && !sys.working && booted == old(booted) + 1
      ensures result == NAND_OK ==>
        && sys.lastErrCode == recorded && sys.lastReason == EnumValue(recorded) && !sys.isOpen
        && ((sys.AsyncStatus() == Success && sys.brokenType == broken0) <==> GoodImage())
      ensures GoodImage() ==> crcInfo.database[..] == arrived.value
      ensures result != NAND_OK ==> sys.lastErrCode == CloseError(result) && sys.lastReason == result
    {
      hide CrcOf;
      pending := Nothing;
      sys.CloseCallback(result);
      booted := booted + 1;
    }

    /** From the accepted seek to the request of the close. */
    method ReadPhase(r: Replies)
      requires Valid() && pending.Seeking? && (r.readResult >= 0 ==> |r.bytes| == r.readResult)
      modifies this, sys, crcInfo, crcInfo.database
      ensures Valid() && booted == old(booted) && broken0 == old(broken0)
      ensures pending == if r.closeReply == NAND_OK then Closing else Nothing
      ensures var outcome := ReadOutcome(r, crcInfo.database.Length);
              recorded == outcome.0 && sys.brokenType == broken0 + outcome.1
      ensures GoodImage() <==> GoodRead(r, crcInfo.database.Length)
      ensures GoodImage() ==> arrived.value == r.bytes
      ensures pending.Nothing? ==> !sys.working && sys.lastErrCode == CloseError(r.closeReply)
    {
      hide CrcOf;
      ghost var outcome := ReadOutcome(r, crcInfo.database.Length);
      ReadSeekCallback(r.seekResult, r.readReply, r.closeReply);
      if pending.Reading? {
        ReadCallback(r.readResult, r.bytes, r.closeReply);
        while pending.Checking?
          invariant Valid() && booted == old(booted) && broken0 == old(broken0)
          invariant pending.Checking? || pending == if r.closeReply == NAND_OK then Closing else Nothing
          invariant arrived == if r.readResult == crcInfo.database.Length then Some(r.bytes) else None
          invariant !pending.Checking? ==> recorded == outcome.0 && sys.brokenType == broken0 + outcome.1
          invariant pending.Nothing? ==> !sys.working && sys.lastErrCode == CloseError(r.closeReply)
          decreases pending.Checking?, crcInfo.size - crcInfo.count
        {
          var _ := Alarm(r.closeReply);
        }
      }
    }

    /** Opening the file, for any replies. */
    method OpenPhase(r: Replies, formatted: seq<u8>)
      requires Valid() && pending.Nothing? && !sys.working && |formatted| == crcInfo.database.Length
      modifies this, sys, crcInfo.database
      ensures Valid() && broken0 == old(sys.brokenType)
      ensures var f := OpenFailure(r, old(sys.isOpen));
              if Critical(broken0) then
                pending.Nothing? && !sys.working && sys.brokenType == broken0 && booted == old(booted)
              else if f.Some? then
                && pending.Nothing? && !sys.working
                && sys.brokenType == broken0 + BootBits(r, old(sys.isOpen), 0)
                && booted == old(booted) + (if Answered(r, old(sys.isOpen)) then 1 else 0)
                && sys.lastErrCode == BootCode(r, old(sys.isOpen), 0)
              else
                && pending == (if r.seekReply == NAND_OK then Seeking else Nothing) && sys.brokenType == broken0
                && booted == old(booted) + (if r.seekReply == NAND_OK then 0 else 1)
                && (r.seekReply != NAND_OK ==> !sys.working && sys.lastErrCode == SeekRefusal(r.seekReply))
    {
      hide CrcOf;
      var _ := BootLoad(r.openReply, formatted);
      if pending.Reopening? { Close2OpenCallback(r.reopenResult, r.reopenReply, r.seekReply); }
      if pending.Opening? { OpenCallback(r.openResult, r.seekReply); }
    }

    /** A whole boot whose open and read requests are accepted and whose close succeeds, with
        any broken bits of before that are not critical: the status is Success exactly when
        the full image was read and its CRC is 0. No bit is ever cleared, so a database that
        counted as broken before, as after formatting one, still does after a good boot. */
    method BootRun(seekResult: int, readReply: int, readResult: int, bytes: seq<u8>)
      requires Valid() && pending.Nothing? && !sys.working && !sys.isOpen && !Critical(sys.brokenType)
      requires readResult >= 0 ==> |bytes| == readResult
      modifies this, sys, crcInfo, crcInfo.database
      ensures Valid() && pending.Nothing? && !sys.working && booted == old(booted) + 1
      ensures var outcome := Outcome(seekResult, readReply, readResult, crcInfo.database.Length, CrcOf(bytes));
              && sys.lastErrCode == outcome.0 && sys.lastReason == EnumValue(outcome.0)
              && sys.brokenType == old(sys.brokenType) + outcome.1
      ensures sys.AsyncStatus() == Success
         <==> seekResult == 0 && readReply == NAND_OK && readResult == crcInfo.database.Length && CrcOf(bytes) == 0
      ensures sys.AsyncStatus() == Success ==>
        sys.brokenType == old(sys.brokenType) && crcInfo.database[..] == bytes
      ensures sys.AsyncStatus() == Success ==> sys.DBIsLoaded() == old(sys.DBIsLoaded())
      ensures sys.lastReason == if sys.lastErrCode == Success then 0 else if sys.lastErrCode == NANDCommandfail then 2
                                else if sys.lastErrCode == Loadfail then 3 else 5
      ensures seekResult != 0 ==>
        && sys.lastErrCode == (if seekResult > 0 || seekResult in {-1, -2, -3} then Loadfail else Fatal)
        && sys.brokenType == old(sys.brokenType) + {DBBroken}
      ensures seekResult == 0 && readReply != 0 ==>
        && sys.lastErrCode == (if readReply == -4 then NANDCommandfail
                               else if readReply in {-1, -2, -3, -5} then Loadfail else Fatal)
        && sys.brokenType == old(sys.brokenType) + {if readReply == -4 then Corrupt else DBBroken}
      ensures seekResult == 0 && readReply == 0 && readResult != crcInfo.database.Length ==>
        && sys.lastErrCode == (if readResult == -4 then NANDCommandfail
                               else if readResult >= 0 || readResult in {-1, -2, -3, -5, -15} then Loadfail else Fatal)
        && sys.brokenType == old(sys.brokenType) + {if readResult == -4 then Corrupt else DBBroken}
      ensures seekResult == 0 && readReply == 0 && readResult == crcInfo.database.Length && CrcOf(bytes) != 0 ==>
        sys.lastErrCode == Loadfail && sys.brokenType == old(sys.brokenType) + {DBBroken}
    {
      hide CrcOf;
      var r := Replies(NAND_OK, NAND_OK, NAND_OK, NAND_OK, NAND_OK, seekResult, readReply, readResult, bytes, NAND_OK,
                       NAND_OK);
      RejectedSetsBit(r, crcInfo.database.Length);
      ReadByNumbers(seekResult, readReply, readResult, crcInfo.database.Length, CrcOf(bytes));
      hide Outcome, Judgement;
      OpenPhase(r, crcInfo.database[..]);
      ReadPhase(r);
      CloseCallback(NAND_OK);
    }

    /** A boot with any replies, from any state in which nothing is under way: it ends, and
        leaves exactly the stated bits, error code and number of callbacks. A critical error
        of before stays and keeps the boot callback from running. */
    method BootRunAnyhow(r: Replies, formatted: seq<u8>)
      requires Valid() && pending.Nothing? && !sys.working && |formatted| == crcInfo.database.Length
      requires r.readResult >= 0 ==> |r.bytes| == r.readResult
      modifies this, sys, crcInfo, crcInfo.database
      ensures Valid() && pending.Nothing? && !sys.working
      ensures Critical(old(sys.brokenType)) ==>
        sys.brokenType == old(sys.brokenType) && booted == old(booted) && sys.AsyncStatus() == Fatal
      ensures !Critical(old(sys.brokenType)) ==>
        && sys.brokenType == old(sys.brokenType) + BootBits(r, old(sys.isOpen), crcInfo.database.Length)
        && sys.lastErrCode == BootCode(r, old(sys.isOpen), crcInfo.database.Length)
        && booted == old(booted) + (if Answered(r, old(sys.isOpen)) then 1 else 0)
    {
      hide CrcOf;
      OpenPhase(r, formatted);
      if pending.Seeking? {
        ReadPhase(r);
        if pending.Closing? { CloseCallback(r.closeResult); }
      }
    }
  }
}
