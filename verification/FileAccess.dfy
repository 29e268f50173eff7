/**
 Access to the files of the face library: the state that says what is going on, and the
 asynchronous requests on the database file with their completions.

 One operation is outstanding at a time; replies and results come from the file system.
 */
module FileAccess {
  import opened Errcodes

  datatype FileBroken = DBNotFound | DBBroken | ResBroken | Corrupt

  const NAND_OK := 0
  const NAND_ACCESS := -1
  const NAND_ALLOC_FAILED := -2
  const NAND_BUSY := -3
  const NAND_CORRUPT := -4
  const NAND_ECC_CRIT := -5
  const NAND_MAXBLOCKS := -9
  const NAND_MAXFD := -10
  const NAND_MAXFILES := -11
  const NAND_NOEXISTS := -12
  const NAND_AUTHENTICATION := -15

  // ---------------------------------------------------------------- error codes

  /** The class of a failed open, from `opencallback_` for a file opened for reading. */
  function OpenError(result: int): Errcode {
    if result in {NAND_MAXFILES, NAND_MAXFD, NAND_MAXBLOCKS, NAND_AUTHENTICATION, NAND_ECC_CRIT, NAND_CORRUPT,
                  NAND_BUSY, NAND_ACCESS, NAND_NOEXISTS}
    then NANDCommandfail else Fatal
  }

  /** A refused open request, or the refused close of a file that is still open. */
  function OpenRefusal(isOpen: bool, reason: int): Errcode {
    if isOpen || reason in {NAND_NOEXISTS, NAND_MAXFD, NAND_BUSY, NAND_ALLOC_FAILED, NAND_ACCESS}
    then NANDCommandfail else Fatal
  }

  /** A failed close before a reopening. */
  function ReopenError(result: int): Errcode {
    if result in {NAND_MAXFILES, NAND_CORRUPT, NAND_BUSY, NAND_ALLOC_FAILED, NAND_ACCESS}
    then NANDCommandfail else Fatal
  }

  function SeekError(result: int): Errcode {
    if result >= NAND_OK then Loadfail
    else if result in {NAND_BUSY, NAND_ALLOC_FAILED, NAND_ACCESS} then NANDCommandfail else Fatal
  }

  function SeekRefusal(reason: int): Errcode {
    if reason in {NAND_BUSY, NAND_ALLOC_FAILED, NAND_ACCESS} then NANDCommandfail else Fatal
  }

  function ReadRefusal(reason: int): Errcode {
    if reason in {NAND_ACCESS, NAND_ALLOC_FAILED, NAND_BUSY, NAND_CORRUPT, NAND_ECC_CRIT}
    then NANDCommandfail else Fatal
  }

  /** A read that does not deliver exactly the bytes asked for. */
  function ReadError(result: int): Errcode {
    if result >= NAND_OK then Loadfail
    else if result in {NAND_ACCESS, NAND_ALLOC_FAILED, NAND_BUSY, NAND_CORRUPT, NAND_ECC_CRIT, NAND_AUTHENTICATION}
    then NANDCommandfail else Fatal
  }

  function CloseError(result: int): Errcode {
    if result in {NAND_CORRUPT, NAND_BUSY, NAND_ALLOC_FAILED} then NANDCommandfail else Fatal
  }

  /** The number of a code in its enumeration. */
  function EnumValue(err: Errcode): nat {
    match err
    case Success => 0
    case NotAvailable => 1
    case NANDCommandfail => 2
    case Loadfail => 3
    case Fatal => 5
    case Busy => 6
    case Broken => 7
    case NoData => 10
    case WrongParam => 15
  }

  predicate Critical(brokenType: set<FileBroken>) {
    ResBroken in brokenType || Corrupt in brokenType
  }

  /** The code that is recorded after `err` is reported: the first error stays. */
  function Ended(code: Errcode, err: Errcode): Errcode {
    if code == Busy || code == Success then err else code
  }

  /** A result as the reason to record: a count of bytes is no reason. */
  function Reason(result: int): int {
    if result >= NAND_OK then NAND_OK else result
  }

  // ---------------------------------------------------------------- the state

  /** `RFLiManager`, and whether the database file is open. */
  class Manager {
    var working: bool
    var lastErrCode: Errcode
    var lastReason: int
    var beforeCloseErr: Errcode
    var beforeCloseReason: int
    var brokenType: set<FileBroken>
    var isOpen: bool

    constructor ()
      ensures !working && lastErrCode == Success && brokenType == {} && !isOpen
    {
      working, lastErrCode, lastReason, brokenType, isOpen := false, Success, NAND_OK, {}, false;
      beforeCloseErr, beforeCloseReason := Success, NAND_OK;
    }

    /** `RFLGetAsyncStatus`. */
    function AsyncStatus(): Errcode
      reads this
    {
      if working then Busy else if CriticalError() then Fatal else lastErrCode
    }

    /** `RFLiCriticalError`. */
    predicate CriticalError()
      reads this
    {
      Critical(brokenType)
    }

    /** `RFLiDBIsLoaded`. */
    predicate DBIsLoaded()
      reads this
    {
      DBBroken !in brokenType && DBNotFound !in brokenType
    }

    /** What a caller is told: busy while the work goes on; then a broken resource file or a
        corrupt file counts as fatal whatever was recorded, and a broken or missing database
        alone does not. */
    lemma StatusExactly()
      ensures working ==> AsyncStatus() == Busy
      ensures !working && (ResBroken in brokenType || Corrupt in brokenType) ==> AsyncStatus() == Fatal
      ensures !working && ResBroken !in brokenType && Corrupt !in brokenType ==> AsyncStatus() == lastErrCode
    {
    }

    /** An operation is under way. */
    predicate Underway()
      reads this
    {
      working && lastErrCode == Busy
    }

    /** `RFLiStartWorking`. */
    method StartWorking()
      modifies this`working, this`lastErrCode
      ensures Underway()
    {
      working, lastErrCode := true, Busy;
    }

    /** `RFLiEndWorkingReason`: takes effect only when no error is recorded yet. */
    method EndWorkingReason(err: Errcode, reason: int)
      modifies this`working, this`lastErrCode, this`lastReason
      ensures lastErrCode == Ended(old(lastErrCode), err)
      ensures if old(lastErrCode) in {Busy, Success} then !working && lastReason == reason
              else working == old(working) && lastReason == old(lastReason)
    {
      if lastErrCode == Busy || lastErrCode == Success {
        working, lastErrCode, lastReason := false, err, reason;
      }
    }

    /** `RFLiEndWorking`. */
    method EndWorking(err: Errcode)
      modifies this`working, this`lastErrCode, this`lastReason
      ensures lastErrCode == Ended(old(lastErrCode), err)
      ensures if old(lastErrCode) in {Busy, Success} then !working && lastReason == NAND_OK
              else working == old(working) && lastReason == old(lastReason)
    {
      EndWorkingReason(err, NAND_OK);
    }

    // -------------------------------------------------------------- requests and completions

    /** `RFLiOpenAsync` for reading, with the reply to the open or, for a file still open, to
        the close that it requests. */
    method OpenAsync(reply: int) returns (status: Errcode)
      modifies this`working, this`lastErrCode, this`lastReason
      ensures if reply == NAND_OK then Underway()
              else !working && lastErrCode == OpenRefusal(isOpen, reply) && lastReason == reply
      ensures status == AsyncStatus()
    {
      StartWorking();
      if reply != NAND_OK { EndWorkingReason(OpenRefusal(isOpen, reply), reply); }
      status := AsyncStatus();
    }

    /** `close2opencallback_`, with the reply to the open that it requests. A fatal refusal
        is recorded with the result of the close as its reason. */
    method Close2OpenCallback(result: int, reply: int)
      requires Underway()
      modifies this`working, this`lastErrCode, this`lastReason
      ensures if result != NAND_OK then !working && lastErrCode == ReopenError(result) && lastReason == result
              else if reply == NAND_OK then Underway()
              else
                && !working && lastErrCode == OpenRefusal(false, reply)
                && lastReason == if OpenRefusal(false, reply).Fatal? then NAND_OK else reply
    {
      if result != NAND_OK {
        EndWorkingReason(ReopenError(result), result);
      } else if reply != NAND_OK {
        EndWorkingReason(OpenRefusal(false, reply), if OpenRefusal(false, reply).Fatal? then result else reply);
      }
    }

    /** `opencallback_` for a file opened for reading. */
    method OpenCallback(result: int)
      requires Underway()
      modifies this`working, this`lastErrCode, this`lastReason, this`isOpen
      ensures isOpen == (result == NAND_OK) && !working && lastReason == result
      ensures lastErrCode == if result == NAND_OK then Success else OpenError(result)
    {
      isOpen := result == NAND_OK;
      EndWorkingReason(if result == NAND_OK then Success else OpenError(result), result);
    }

    /** `RFLiReadAsync`, with the reply to the seek that it requests. */
    method ReadAsync(reply: int) returns (status: Errcode)
      modifies this`working, this`lastErrCode, this`lastReason
      ensures if reply == NAND_OK then Underway()
              else !working && lastErrCode == SeekRefusal(reply) && lastReason == reply
      ensures status == AsyncStatus()
    {
      StartWorking();
      if reply != NAND_OK { EndWorkingReason(SeekRefusal(reply), reply); }
      status := AsyncStatus();
    }

    /** `readseekcallback_`, with the reply to the read that it requests. */
    method ReadSeekCallback(result: int, offset: int, reply: int)
      requires Underway()
      modifies this`working, this`lastErrCode, this`lastReason
      ensures if result == offset && reply == NAND_OK then Underway()
              else !working && lastErrCode == (if result == offset then ReadRefusal(reply) else SeekError(result))
                   && lastReason == if result == offset then reply else Reason(result)
    {
      if result == offset {
        if reply != NAND_OK { EndWorkingReason(ReadRefusal(reply), reply); }
      } else if result >= NAND_OK {
        EndWorking(Loadfail);
      } else {
        EndWorkingReason(SeekError(result), result);
      }
    }

    /** The codes of `readcallback_`. */
    method ReadCallback(result: int, size: nat)
      requires Underway()
      modifies this`working, this`lastErrCode, this`lastReason
      ensures !working && lastReason == Reason(result)
      ensures lastErrCode == if result == size then Success else ReadError(result)
    {
      if result >= NAND_OK {
        EndWorking(if result == size then Success else Loadfail);
      } else {
        EndWorkingReason(ReadError(result), result);
      }
    }

    /** `RFLiCloseAsync`, its request accepted or not. */
    method CloseAsync(reply: int)
      modifies this`working, this`lastErrCode, this`lastReason, this`beforeCloseErr, this`beforeCloseReason
      ensures beforeCloseErr == old(lastErrCode) && beforeCloseReason == old(lastReason)
      ensures if reply == NAND_OK then Underway()
              else !working && lastErrCode == CloseError(reply) && lastReason == reply
    {
      beforeCloseErr, beforeCloseReason := lastErrCode, lastReason;
      StartWorking();
      if reply != NAND_OK { EndWorkingReason(CloseError(reply), reply); }
    }

    /** `closecallback_`: a close that succeeds restores the code recorded before it, but
        puts the number of that code where the reason was. No NAND result is positive, so
        the reason survives exactly when there was nothing to report. */
    method CloseCallback(result: int)
      requires Underway()
      modifies this`working, this`lastErrCode, this`lastReason, this`isOpen
      ensures !working
      ensures result == NAND_OK ==>
        !isOpen && lastErrCode == beforeCloseErr && lastReason == EnumValue(beforeCloseErr)
      ensures result == NAND_OK && beforeCloseReason <= NAND_OK ==>
        (lastReason == beforeCloseReason <==> beforeCloseErr == Success && beforeCloseReason == NAND_OK)
      ensures result != NAND_OK ==>
        isOpen == old(isOpen) && lastErrCode == CloseError(result) && lastReason == result
    {
      if result == NAND_OK {
        isOpen := false;
        working, lastErrCode, lastReason := false, beforeCloseErr, EnumValue(beforeCloseErr);
      } else {
        EndWorkingReason(CloseError(result), result);
      }
    }
  }
}
