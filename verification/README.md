# Verified cores of the Wii Sports decompilation

This project models, in Dafny, the parts of the repository where a wrong branch or a lost
carry would not be noticed by reading: the bit-level arithmetic of the C library, the face
database of the RVL face library with its asynchronous protocols, and the Ninja file writer
of the build tools. `dafny verify dfyconfig.toml` checks everything.

**Arithmetic (`src/MSL`).** A double is the pair of its two 32-bit words (section 3.4 of
IEEE 754-2008), and its value is counted in quanta of 2^-1074, so that every finite double is
an integer. `__ieee754_sqrt`, `__ieee754_fmod`, `floor`, `ceil`, `modf` and the integer test of
`__ieee754_pow` are methods on these words with the branches, shifts, masks and carries of the
code; their contracts speak only of values: the correctly rounded root, the exact remainder,
the integral neighbours. The digit part of `__kernel_rem_pio2` conserves the number it splits.

**CRC and boot (`RFL_Database.c`, `RFL_NANDAccess.c`).** The bit-serial CRC is proved to be the
remainder of the message polynomial modulo the generator of ITU-T V.41 (0x1021, zero start, no
final shift); bursts of up to 16 bits are detected; the two alarm-driven loops refine the plain
loop. The boot of the database is a state machine whose steps get their results from the file
system; the image is accepted exactly when all of it was read and its CRC is 0.

**Hidden database (`RFL_HiddenDatabase.c`, `RFL_MiddleDatabase.c`, `RFL_Controller.c`).** A
doubly linked list threaded through a table of N slots (N >= 2, 10000 in the code) is proved to
be a bounded first-in first-out memory. A batch writer moves queued records into table, file and
cache while the file system may refuse or fail each write. Successive pages of the list are
proved to show each loadable record once, up to the stated exceptions, and it is stated exactly
which records a random sample leaves out, cached or from the file. Loading controllers keeps the
identifiers permanent and pairwise different, whatever the controllers hold. Records are packed
bit-fields; the conversions between the three record forms are proved on the packed words. The generator of
random faces is a function of the ticks of the clock: every face it can make is valid and built
from candidates of its part tables, and a view of random faces shows the first of each look.

**Resource file and Ninja writer.** The step-by-step header loader builds the table that parsing
in memory builds, and lookups by file reads agree with lookups in memory whatever the file system
answers, up to the stated exceptions. Line wrapping of the Ninja writer loses nothing, and the texts
whose escaped spaces it never breaks are characterised exactly; escaped text expands to itself.

Where code and documentation disagree, the code is modelled:

- `modf` gives the parts that section 7.12.6.12 of C99 asks for exactly when the argument is not a
  NaN; of a NaN it returns a signed zero as the fraction part (`IntegralParts.Modf`).
- `ceil` returns 1.0 for 0 < x < 1; the comment at that branch says 0*sign(x).
- `_count_dollars_before_index` promises the number of dollars in front of an index but never
  looks at position 0, so a space after dollars that start the text, or what is left of it, can be
  broken although it is escaped; `Ninja.BreakEscapedSpace` is such a run of the writer. A break is
  wrong exactly behind a piece that is an odd run of dollars (`Ninja.Writer.Line`). Before the call:
  no indent leads to a wrong break exactly if no odd run of dollars that a space follows starts the
  text or stands behind a space at which it can be broken (`Ninja.EscapesKeptExactly`).
- `RFLiIsSameFaceCore` masks one bit of the glasses as padding that is not padding. It is right
  about two faces except when they differ in that bit and agree in everything else
  (`RandomFaces.SameFaceExactly`; `RandomFaces.GlassesHeightIgnored` gives such pairs).
- `endWorkingCloseReason_` restores the error code of before a close but puts the number of that
  code in place of its reason; the reason survives exactly when there was nothing to report
  (`FileAccess.Manager.CloseCallback`).

Results that a user of the code may not expect:

- A temporary identifier is not even the same as itself: two writes of a valid identifier store it
  twice exactly when it is temporary (`HiddenList.KnownExactly`, `Controller.TemporaryWouldRepeat`).
  The cleaning of the controller buffer is what prevents it (`Controller.RunLoads`).
- A record written under a known identifier does not change the sex that the header has for it. If the
  header had the sex of every record before a batch, it has it behind the batch exactly when the last
  record of each identifier has the sex of its entry (`HiddenWriter.SexesExactly`), which new
  identifiers ensure; then a sample shows records of the asked sex only (`Sampling.SampleShowsSex`).
- A controller re-read that is refused ends the load but keeps its temporary buffer
  (`Controller.CtrlBufManager.ErrorAndReRead`).
- An error code stays recorded until some operation starts. A cached page starts none, so it is
  reported as Success exactly when no error was recorded before it (`Paging.MiddleDB.UpdateCached`):
  once one view has been read to its end, the first page of another is loaded and yet reported as no
  data (`Paging.SecondView`), and a reader that goes on as long as it sees Success gets every record
  when no error was recorded at its start, and none otherwise (`Paging.MiddleDB.ReadAllCached`).
- An asynchronous page whose first request is refused has already moved on: the next update
  starts behind a slot that was never loaded (`Paging.MiddleDB.UpdateAsync`).
- An asynchronous page that a busy file system interrupts is taken back exactly when the request of a
  further record is refused as busy or the close behind a read fails as busy; a read that fails as
  busy is not, since the close hides its reason (`Paging.MiddleDB.UpdateCallback`,
  `Paging.BusyRead`).
- A cached random sample never ends its work: with an eligible slot and memory its result is Busy
  whatever was loaded, and nobody is notified; without one of these it ends with its code
  (`Sampling.MiddleDB.UpdateCached`).
- A cached sample stops behind the last slot of the table, an asynchronous one in front of it unless
  that is the first it loads, and then ends as broken (`Sampling.MiddleDB.UpdateAsyncUndisturbed`).
  Slots are skipped exactly when the last one is chosen before another one, or behind another one,
  and for no tick if it is not eligible (`Sampling.NothingSkipped`). If only two slots are eligible,
  the last one among them, every tick makes the cached sample lose the other record
  (`Sampling.RecordLost`); with three, any tick whose first swap is with the second of them makes the
  asynchronous one lose the last (`Sampling.LastRecordLost`).
- A boot can end with an error and add no broken bit. It does so exactly when the open is refused for
  another reason than a missing file, the close before a reopening fails for another reason than a
  corrupt file, the open fails for a reason without a bit, the read is refused, or the close fails
  behind a good image (`Boot.SilentExactly`); for some failures the boot callback never runs
  (`Boot.DBManager.BootRunAnyhow`, which states bits, code and callback exactly).
- No boot clears a broken bit. Formatting keeps the one that says the database is broken
  (`src/RVLFaceLib/RFL_Format.c:166-167`), so the boot behind it can succeed and the database still
  does not count as loaded (`Boot.DBManager.BootRun`).
- The callback of a create run, which starts the save, is called before the CRC is stored: the image
  it is handed has the CRC of the run and not 0, unless that is 0 (`Crc.HeaderCrc.Create`).
- A resource file of more than 0xFFFFFFE0 bytes by its index is copied from a buffer of size 0, since
  the rounded size wraps; all other lookups with two full reads copy their bytes. The results of the
  two seeks are not looked at (`ResourceLoader.GetNANDFile`; `ResourceLoader.OverrunExists` is such a
  file).
- The header loader issues one read too many, at whatever offset follows the header; the
  resources count as broken exactly when that read fails (`ResourceLoader.Loader.LoadHeader`).

Assumptions: round-to-nearest, and 0 as the PowerPC result of a shift by 32
(`src/MSL/e_sqrt.c:131`). The file system, the controller, alarms and the clock are parameters:
every reply they can give is allowed, but for what "Left out" says of single members. The methods
`RunBatch`, `RunBatchAnyhow`, `RunLoad`, `RunLoads`, `OpenPhase`, `ReadPhase`, `BootRun`,
`BootRunAnyhow`, `FinishLoad`, `LoadHeader`, `ReadAllCached`, `UpdateAsyncUndisturbed`, `SecondView`,
`BusyRead`, `PutAll` and `BreakEscapedSpace` stand for the environment that delivers completions, or
calls the code, one after the other.

## Model

| member | source | states |
|---|---|---|
| SquareRoot.Normalize | src/MSL/e_sqrt.c:122-135 | normal or subnormal, the significand gets its top bit into bit 20 and significand times power of two is still x |
| SquareRoot.HighDigits | src/MSL/e_sqrt.c:142-158 | the first loop leaves the root of the shifted significand down to its own bit, with the exact scaled remainder |
| SquareRoot.LowDigits | src/MSL/e_sqrt.c:160-175 | the second loop, with two-word carries, extends the root to the last bit: Q*Q <= n < (Q+1)*(Q+1) |
| SquareRoot.RoundDigits | src/MSL/e_sqrt.c:177-189 | rounding adds the odd bit without carrying out of the significand |
| SquareRoot.RootIsNearest | src/MSL/e_sqrt.c:142-196 | the double assembled from the integer root is strictly nearer to the real root than every other double, so ties do not occur |
| SquareRoot.Sqrt | src/MSL/e_sqrt.c:94-197 | for every positive finite double the correctly rounded root; zeros unchanged; negative and non-finite arguments set EDOM |
| SquareRoot.RoundedRootIsClosest | src/MSL/e_sqrt.c:94-197 | the contract of Sqrt read over the reals: no other double is as close to the square root |
| Remainder.Ilogb | src/MSL/e_fmod.c:56-72 | the counting loops find the binary exponent of any nonzero magnitude, normal or subnormal |
| Remainder.Align | src/MSL/e_fmod.c:74-98 | the shifted significand times the power of its exponent is the magnitude |
| Remainder.ShiftSubtract | src/MSL/e_fmod.c:100-112 | the shift-subtract loop computes h*2^n mod d exactly, reporting 0 early only when it is 0 |
| Remainder.PackSubnormal | src/MSL/e_fmod.c:125-136 | the three shift cases of a subnormal result drop zero bits only |
| Remainder.Reduce | src/MSL/e_fmod.c:56-139 | for magnitudes in the loop's range the result has magnitude \|x\| mod \|y\| and the sign given |
| Remainder.Fmod | src/MSL/e_fmod.c:29-140 | for all finite x and nonzero y exactly sign(x)*(\|x\| mod \|y\|); undefined exactly for y zero or NaN, or x not finite |
| Remainder.RemainderIsC99 | src/MSL/e_fmod.c:29-140 | such a result is x - n*y for an integer n and smaller than y, as section 7.12.10.1 of C99 asks |
| IntegralParts.IntegralNeighbours | src/MSL/s_floor.c:40-78 | the floor and ceiling used below are the integral neighbours, and ceil(x) = -floor(-x) |
| IntegralParts.BranchValue | src/MSL/s_floor.c:50-75 | clearing fraction bits of the pattern, and carrying one unit through words and exponent, adds or removes exactly the fraction |
| IntegralParts.Floor | src/MSL/s_floor.c:37-79 | for every finite double the largest integral value not above it, with its sign |
| IntegralParts.Ceil | src/MSL/s_ceil.c:36-78 | for every finite double the smallest integral value not below it, with its sign |
| IntegralParts.SubtractTruncation | src/MSL/s_modf.c:59-77 | the fraction part of a double is a double, so the subtraction x - *iptr is exact |
| IntegralParts.Modf | src/MSL/s_modf.c:38-80 | the two parts are those of C99 exactly when x is not a NaN: they add up to x exactly and carry its sign, and an infinity has a signed zero as fraction; a NaN leaves a signed zero |
| IntegralParts.YIsInt | src/MSL/e_pow.c:128-146 | 0, 1 or 2 exactly when y is not integral, odd or even |
| RemPio2.Distill | src/MSL/k_rem_pio2.c:193-198 | 24-bit digits and a rest that together keep the value of the products |
| RemPio2.Complement | src/MSL/k_rem_pio2.c:214-223 | the digits of one minus the number; no change and no carry for zero |
| RemPio2.TopBits | src/MSL/k_rem_pio2.c:206-210 | splitting the top bits off the leading digit keeps the value, and ih tells whether at least one half is left |
| RemPio2.Extract | src/MSL/k_rem_pio2.c:200-236 | for q0 positive, zero and negative: the number is n modulo 8 plus or minus a fraction of at most one half; a complement is marked by 2 for q0 < 0 and by 1 otherwise |
| RemPio2.DistillAndExtract | src/MSL/k_rem_pio2.c:193-236 | both steps together, from the products to n, the sign and the fraction |
| Crc.CalculateCRC | src/RVLFaceLib/RFL_Database.c:644-668 | the byte loop computes the CRC of the message |
| Crc.FeedLinear | src/RVLFaceLib/RFL_Database.c:653-664 | the register is linear over GF(2) in start value and message |
| Crc.CrcIsRemainder | src/RVLFaceLib/RFL_Database.c:644-668 | r is the CRC exactly if it is the remainder of the message polynomial modulo the generator |
| Crc.BurstDetected | src/RVLFaceLib/RFL_Database.c:644-668 | any change confined to 16 consecutive bits, at any length, changes the CRC |
| Crc.SelfCheck | src/RVLFaceLib/RFL_Database.c:715-717 | a message that ends with its own CRC, computed over zeros there, has CRC 0 |
| Crc.AlarmsAreCeiling | src/RVLFaceLib/RFL_Database.c:681-695 | a run takes as many alarms as started steps of 0x1400 bytes |
| Crc.HeaderCrc.Alarm | src/RVLFaceLib/RFL_Database.c:741-788 | each suspended state is the CRC of the prefix read; the last alarm hands over the CRC of the whole image |
| Crc.HeaderCrc.Check | src/RVLFaceLib/RFL_Database.c:741-807 | the resumable check computes what the plain loop computes, in the stated number of alarms |
| Crc.HeaderCrc.Create | src/RVLFaceLib/RFL_Database.c:670-739 | after the create run the image has CRC 0 and is otherwise unchanged; the callback before that is handed the image with the field still 0, whose CRC is the result |
| FileAccess.Manager.EndWorkingReason | src/RVLFaceLib/RFL_NANDAccess.c:114-134 | a code is recorded, and the work ended, exactly when no error is recorded yet |
| FileAccess.Manager.StatusExactly | src/RVLFaceLib/RFL_System.c:207-221 | busy while the work goes on, then fatal exactly with a broken resource file or a corrupt file, else the code recorded |
| FileAccess.Manager.OpenAsync | src/RVLFaceLib/RFL_NANDAccess.c:373-451 | the operation is under way, or ended with the code and reason of the refusal |
| FileAccess.Manager.ReadSeekCallback | src/RVLFaceLib/RFL_NANDAccess.c:504-564 | only a seek to the asked offset with an accepted read goes on; everything else leaves its code and reason |
| FileAccess.Manager.CloseCallback | src/RVLFaceLib/RFL_NANDAccess.c:91-105 | a successful close restores the code recorded before it, but not its reason, except when there was nothing to report |
| Boot.DBManager.Close2OpenCallback | src/RVLFaceLib/RFL_NANDAccess.c:316-371 | before a reopening: each result of the close and reply to the open leads to the open, or to its bit, code and callback |
| Boot.DBManager.OpenCallback | src/RVLFaceLib/RFL_NANDAccess.c:193-251 | each open result leads to the seek, or to its error code, its broken bit or none, and a callback or none |
| Boot.DBManager.BootOpened | src/RVLFaceLib/RFL_Database.c:63-107 | the next request, or the broken bit, error code and callback for every status and reason; a refused read sets no bit |
| Boot.DBManager.ReadSeekCallback | src/RVLFaceLib/RFL_NANDAccess.c:504-564 | only a seek to 0 with an accepted read goes on; everything else records its error code and broken bit and closes |
| Boot.DBManager.ReadCallback | src/RVLFaceLib/RFL_NANDAccess.c:453-502 | only the exact byte count starts the check; otherwise the image is all zeros and rejected |
| Boot.DBManager.CloseCallback | src/RVLFaceLib/RFL_NANDAccess.c:835-864 | a successful close restores the recorded code, with its number as the last reason, and the status is Success with no new bit exactly for a good image |
| Boot.DBManager.BootRun | src/RVLFaceLib/RFL_Database.c:21-78 | over a whole boot, with any uncritical bits of before: Success if and only if the full image was read and its CRC is 0; the stated error code and bits, none of them cleared |
| Boot.DBManager.BootRunAnyhow | src/RVLFaceLib/RFL_Database.c:21-148 | whatever is answered, with the file open or not, the boot ends with exactly the stated bits, error code and callback; a critical error of before stays |
| Boot.SilentExactly | src/RVLFaceLib/RFL_Database.c:34-107 | the boots that end with an error and add no bit are exactly the listed ones |
| Boot.ReadByNumbers | src/RVLFaceLib/RFL_NANDAccess.c:453-564 | code and bit of every seek, read and check of a boot, by the numbers that the file system returns: a corrupt file alone counts as corrupt, a short read as a load failure of a broken database |
| Boot.OpenByNumbers | src/RVLFaceLib/RFL_NANDAccess.c:193-451 | the same for the open request, the close before a reopening, the reopening and the open |
| Boot.CloseByNumbers | src/RVLFaceLib/RFL_NANDAccess.c:835-893 | the same for the request of the read and for the close |
| HiddenList.HiddenDB.constructor | src/RVLFaceLib/RFL_Format.c:12-38 | a formatted table is the empty list, every slot blank |
| HiddenList.HiddenDB.FirstBlank | src/RVLFaceLib/RFL_HiddenDatabase.c:277-288 | the first blank slot, and none exactly when the list fills the table |
| HiddenList.HiddenDB.Search | src/RVLFaceLib/RFL_HiddenDatabase.c:360-384 | finds a slot exactly when the identifier is in the list |
| HiddenList.HiddenDB.Overwrite | src/RVLFaceLib/RFL_HiddenDatabase.c:154-181 | the oldest slot becomes the newest under the new identifier; links stay consistent |
| HiddenList.HiddenDB.Create | src/RVLFaceLib/RFL_HiddenDatabase.c:183-207 | a blank slot is appended; links stay consistent |
| HiddenList.HiddenDB.Put | src/RVLFaceLib/RFL_HiddenDatabase.c:290-301 | known identifier: nothing changes; new: appended with its sex, dropping the oldest when full; other slots keep identifier and sex |
| HiddenList.HiddenDB.Next | src/RVLFaceLib/RFL_HiddenDatabase.c:416-435 | the slot after this one in the list, or -1 |
| HiddenList.HiddenDB.Prev | src/RVLFaceLib/RFL_HiddenDatabase.c:437-456 | the slot before this one in the list, or -1 |
| HiddenList.OverwriteKeepsList | src/RVLFaceLib/RFL_HiddenDatabase.c:165-178 | the relinking is a rotation of the list, acyclic and doubly consistent |
| HiddenList.CreateKeepsList | src/RVLFaceLib/RFL_HiddenDatabase.c:191-205 | the relinking is an append, for an empty list too |
| HiddenList.EntersExactly | src/RVLFaceLib/RFL_HiddenDatabase.c:154-207 | a step of the table enters identifier and sex at the end of the list, or leaves a known identifier and its sex alone |
| HiddenList.RunUnique | src/RVLFaceLib/RFL_HiddenDatabase.c:290-301 | every run of writes of permanent identifiers keeps them pairwise different and within capacity |
| HiddenList.RunKeepsNewest | src/RVLFaceLib/RFL_HiddenDatabase.c:290-301 | a run of new identifiers keeps exactly the newest N, in order |
| HiddenList.InsertionsTakeTurns | src/RVLFaceLib/RFL_HiddenDatabase.c:277-301 | from a formatted table the insertion number k (from 0) goes to slot k mod N |
| HiddenList.PutAll | src/RVLFaceLib/RFL_HiddenDatabase.c:290-301 | a formatted table taken through any run of writes goes through such insertions; new identifiers take slot k mod N in turn |
| HiddenList.KnownExactly | src/RVLFaceLib/RFL_Database.c:483-520 | an identifier is recognised exactly when it is permanent and stored |
| HiddenWriter.WriteRestoresLatest | src/RVLFaceLib/RFL_HiddenDatabase.c:303-308 | a write into the slot that the table chose makes header and file agree there again, with the last queued record of that identifier |
| HiddenWriter.HiddenDBManager.WriteData | src/RVLFaceLib/RFL_HiddenDatabase.c:290-309 | a new identifier gets the sex of its record (bit 14 of the first word) in the header, every other slot keeps its own; header and file disagree on at most the slot in flight and earlier failures |
| HiddenWriter.HiddenDBManager.WriteCallback | src/RVLFaceLib/RFL_HiddenDatabase.c:213-237 | every completion keeps the agreement of header, file and cache; after the last record the header save, after a failure the close |
| HiddenWriter.HiddenDBManager.OpenForWrite | src/RVLFaceLib/RFL_HiddenDatabase.c:311-326 | starts the batch only after a successful open and only with a record to write |
| HiddenWriter.HiddenDBManager.RunBatch | src/RVLFaceLib/RFL_HiddenDatabase.c:213-326 | with every write succeeding: one header save after the last record, header = file = cache, each slot holding the last queued record for its identifier; identifiers and sexes of the header are those the queue enters, and the header, if it had the sex of every record before, has it again exactly when the last record of each identifier has the sex of its entry |
| HiddenWriter.SexesExactly | src/RVLFaceLib/RFL_HiddenDatabase.c:154-207 | after a batch the sexes of the header are those of the file exactly when the entries agree with the last queued record of each identifier |
| HiddenWriter.NewRecordsMatch | src/RVLFaceLib/RFL_HiddenDatabase.c:154-207 | records with new, pairwise different identifiers always agree |
| HiddenWriter.HiddenDBManager.RunBatchAnyhow | src/RVLFaceLib/RFL_HiddenDatabase.c:213-326 | in any environment the list is the bounded memory of the records entered, and the batch stops after at most one completion per record |
| HiddenLoads.LoadCached | src/RVLFaceLib/RFL_HiddenDatabase.c:110-148 | copies the record exactly when header and cache name the same one and it is valid |
| HiddenLoads.LoadAndCheck | src/RVLFaceLib/RFL_MiddleDatabase.c:194-204 | a slot adds its record exactly when it is loadable, nothing otherwise |
| HiddenLoads.LoadedConcat | src/RVLFaceLib/RFL_MiddleDatabase.c:188-213 | the records of a stretch of slots are those of its parts in order |
| HiddenLoads.FinishLoad | src/RVLFaceLib/RFL_HiddenDatabase.c:23-103 | for every answer: whether the load callback runs, the code it finds, whether that reads as busy, and the record copied exactly when it was read in full and is loadable |
| HiddenLoads.DoneExactly | src/RVLFaceLib/RFL_HiddenDatabase.c:30-51 | the callback finds Success or Broken exactly when the record was read in full and the close succeeded |
| HiddenLoads.LoadByNumbers | src/RVLFaceLib/RFL_NANDAccess.c:453-564 | the code of a load by the numbers that the file system returns, with the offset and the length of the record |
| HiddenLoads.LoadableExactly | src/RVLFaceLib/RFL_HiddenDatabase.c:110-148 | a slot is loadable exactly when header and record name the same permanent identifier and the record reads as valid, into any memory |
| Paging.MiddleDB.StepOne | src/RVLFaceLib/RFL_MiddleDatabase.c:164-186 | the next slot of the view, from either end |
| Paging.MiddleDB.LoadHiddenDataSync | src/RVLFaceLib/RFL_MiddleDatabase.c:188-217 | one page holds exactly the loadable records among the next slots, and leaves the view behind them; Success is recorded unless an error was before |
| Paging.MiddleDB.UpdateCached | src/RVLFaceLib/RFL_MiddleDatabase.c:219-253 | the next page, or none exactly at the end of the view, which then does not move; the result is the code of this update exactly when no error was recorded before |
| Paging.MiddleDB.ReadAllCached | src/RVLFaceLib/RFL_MiddleDatabase.c:164-253 | with no error recorded at the start, successive updates show every loadable record once, in order, in the expected number of pages, then no data; otherwise the first update reports that error |
| Paging.SecondView | src/RVLFaceLib/RFL_MiddleDatabase.c:188-253 | a page that is loaded and yet reported as no data, after another view was read to its end |
| Paging.NewerIsReverse | src/RVLFaceLib/RFL_MiddleDatabase.c:171-183 | the newer view is the exact reverse of the older one |
| Paging.ViewStarts | src/RVLFaceLib/RFL_MiddleDatabase.c:171-183 | the older view is the list from its oldest slot on, the newer one from its newest |
| Paging.PagesExactly | src/RVLFaceLib/RFL_MiddleDatabase.c:219-253 | the number of pages is the number of full pages, rounded up |
| Paging.MiddleDB.UpdateAsync | src/RVLFaceLib/RFL_MiddleDatabase.c:233-252 | starts a page from the file; a refusal has already moved the view by one slot |
| Paging.MiddleDB.UpdateCallback | src/RVLFaceLib/RFL_MiddleDatabase.c:107-162 | for every answer to a load and to the next request: the page goes on by one slot, is complete, or ends with its code; it is taken back exactly for a next request refused, or a close failed, as busy |
| Paging.BusyRead | src/RVLFaceLib/RFL_MiddleDatabase.c:107-162 | a run in which a read fails as busy and the page is not taken back |
| Paging.MiddleDB.UpdateAsyncUndisturbed | src/RVLFaceLib/RFL_MiddleDatabase.c:107-253 | an undisturbed asynchronous page equals the cached page when file and cache agree |
| Sampling.EligibleExactly | src/RVLFaceLib/RFL_HiddenDatabase.c:458-490 | the eligible slots are exactly the occupied ones of the asked sex, each once |
| Sampling.EligibleBySex | src/RVLFaceLib/RFL_HiddenDatabase.c:458-490 | a slot is eligible exactly when it is occupied and the header gives it the asked sex, or none was asked for |
| Sampling.FillEligible | src/RVLFaceLib/RFL_MiddleDatabase.c:375-380 | the array of the counted size is filled exactly, never beyond |
| Sampling.ShufflePermutes | src/RVLFaceLib/RFL_MiddleDatabase.c:382-395 | for every tick the shuffle is a permutation |
| Sampling.Shuffle | src/RVLFaceLib/RFL_MiddleDatabase.c:382-395 | the in-place loop computes that shuffle, with every partner in range |
| Sampling.SampleIsSound | src/RVLFaceLib/RFL_MiddleDatabase.c:359-400 | the chosen slots are distinct, eligible, and as many as fit |
| Sampling.SampleBySex | src/RVLFaceLib/RFL_MiddleDatabase.c:359-400 | every chosen slot is occupied and of the asked sex, and if all of these fit they are all chosen |
| Sampling.SampleShowsSex | src/RVLFaceLib/RFL_MiddleDatabase.c:255-426 | where the header has the sexes of the records, every record loaded by a sample, cached or from the file, has the bit of the asked sex |
| Sampling.NextIsLinear | src/RVLFaceLib/RFL_MiddleDatabase.c:382-395 | the random numbers are a linear congruential sequence modulo 2^32 |
| Sampling.PartnerDrawn | src/RVLFaceLib/RFL_MiddleDatabase.c:382-395 | the partner of an entry is drawn from all the others by the sum of the halves of the random number |
| Sampling.MiddleDB.LoadHiddenRandomSync | src/RVLFaceLib/RFL_MiddleDatabase.c:255-288 | packing records over the stored slot numbers never destroys one before it is read; the result is the loadable records of the visited slots |
| Sampling.VisitedAll | src/RVLFaceLib/RFL_MiddleDatabase.c:273-279 | the whole sample is visited exactly when the last slot of the table is not chosen, or chosen last |
| Sampling.AsyncVisitedAll | src/RVLFaceLib/RFL_MiddleDatabase.c:303-323 | the asynchronous sample loads all slots exactly when the last slot is not chosen behind another one |
| Sampling.NothingSkipped | src/RVLFaceLib/RFL_MiddleDatabase.c:255-334 | for each tick and either kind: nothing is skipped exactly when the last slot is not chosen before, or behind, another; for every tick if it is not eligible |
| Sampling.RecordLost | src/RVLFaceLib/RFL_MiddleDatabase.c:273-279 | at any capacity, tables in which every tick makes the cached sample lose a loadable record |
| Sampling.LastRecordLost | src/RVLFaceLib/RFL_MiddleDatabase.c:306-319 | at any capacity, tables and ticks with which the asynchronous sample leaves out the last slot |
| Sampling.MiddleDB.UpdateCached | src/RVLFaceLib/RFL_MiddleDatabase.c:337-426 | the whole update, for every tick; the work stays under way exactly with an eligible slot and memory, and then the result is Busy; entries behind the stored ones hold no record; the records have the bit of the asked sex if header and cache agree about it |
| Sampling.MiddleDB.UpdateAsync | src/RVLFaceLib/RFL_MiddleDatabase.c:337-426 | starts the load of the first chosen slot, or ends with its code; nothing is stored by a refusal |
| Sampling.MiddleDB.UpdateCallback | src/RVLFaceLib/RFL_MiddleDatabase.c:290-335 | for every answer to a load and to the next request: the next slot is loaded, or the sample ends, as broken exactly in front of the last slot of the table |
| Sampling.MiddleDB.UpdateAsyncUndisturbed | src/RVLFaceLib/RFL_MiddleDatabase.c:290-426 | an undisturbed asynchronous sample holds the loadable records of the slots visited, of the asked sex if header and file agree about it, and ends as broken exactly when those are not all chosen ones |
| Controller.ClearDeleted | src/RVLFaceLib/RFL_Controller.c:137-147 | exactly the flagged records are cleared |
| Controller.CleanBuffer | src/RVLFaceLib/RFL_Controller.c:83-91 | afterwards every record is empty, or permanent and valid; sane records are kept |
| Controller.GetCtrlWritableCount | src/RVLFaceLib/RFL_HiddenDatabase.c:253-275 | the queue holds the writable records in order, and the count is its length |
| Controller.WritableRecordExactly | src/RVLFaceLib/RFL_HiddenDatabase.c:262-267 | the record queued is the entry with bits 13 to 5 and 0 of the first word cleared, and nothing else changed |
| Controller.StoredFormReads | src/RVLFaceLib/RFL_HiddenDatabase.c:262-267 | read back into any memory it is the record of the controller in face, name, body, sex, color, local flag and identifier, without birthday, favorite flag and creator |
| Controller.WritableExactly | src/RVLFaceLib/RFL_HiddenDatabase.c:239-275 | a record is queued exactly if it comes from an entry that passes the secret, local and official tests |
| Controller.QueueDelivers | src/RVLFaceLib/RFL_HiddenDatabase.c:239-275 | from the block received to the queue, by bits: exactly the entries not deleted, secret if only those are asked for, permanent, not local, not official and valid, in their order |
| Controller.ValidBlockExactly | src/RVLFaceLib/RFL_Controller.c:106-112 | which of the two blocks counts, by their mark and CRC |
| Controller.WritablePermanent | src/RVLFaceLib/RFL_HiddenDatabase.c:239-275 | a cleaned buffer queues permanent identifiers only |
| Controller.TemporaryWouldRepeat | src/RVLFaceLib/RFL_Database.c:483-520 | two writes of a valid identifier store it twice exactly when it is temporary |
| Controller.CtrlBufManager.ErrorAndReRead | src/RVLFaceLib/RFL_Controller.c:114-135 | at most two re-reads; a refused one counts as retried and ends the load |
| Controller.CtrlBufManager.ReadCallback | src/RVLFaceLib/RFL_Controller.c:149-208 | the first block with a right CRC is taken, and the batch it starts holds the stored forms of exactly its deliverable entries; every block with a right CRC is kept without its deleted records; each other result retries or ends the load as stated, with at most three reads |
| Controller.RunLoads | src/RVLFaceLib/RFL_Controller.c:75-104 | over every run of loads into a formatted database, isolated or not, the identifiers stay permanent and pairwise different; isolated loads store nothing |
| Records.EyeRead | src/RVLFaceLib/RFL_Database.c:271-276 | every eye field of a stored record arrives in its own place, whatever the destination held |
| Records.EyebrowRead | src/RVLFaceLib/RFL_Database.c:278-283 | the same for the eyebrows |
| Records.MoleRead | src/RVLFaceLib/RFL_Database.c:305-308 | the same for the mole, whose two coordinates change places |
| Records.PersonalRead | src/RVLFaceLib/RFL_Database.c:318-323 | the same for sex, birthday, colors and flags, the last from another word |
| Records.ReadInPlace | src/RVLFaceLib/RFL_Database.c:262-316 | names, body, identifier and the words of the face arrive in their own bits |
| Records.EyesReadInPlace | src/RVLFaceLib/RFL_Database.c:271-283 | the same for the words of eyes and eyebrows |
| Records.PersonalReadInPlace | src/RVLFaceLib/RFL_Database.c:318-323 | the same for the personal word |
| Records.StoredInPlace | src/RVLFaceLib/RFL_Database.c:344-410 | names, body, identifier, sex and whole words are stored in their own bits |
| Records.HiddenStored | src/RVLFaceLib/RFL_Database.c:412-415 | the hidden form has the sex of the info in bit 14 and no birthday |
| Records.InfoRoundTrip | src/RVLFaceLib/RFL_Database.c:262-332 | storing an info and reading it back gives it again up to padding |
| Records.RawRoundTrip | src/RVLFaceLib/RFL_Database.c:344-410 | reading a record and storing it again keeps every used bit; only `type` and padding are lost |
| Records.HiddenView | src/RVLFaceLib/RFL_Database.c:334-342 | the hidden form reads as the record without birthday and creator |
| Records.HiddenRoundTrip | src/RVLFaceLib/RFL_Database.c:412-415 | the hidden form loses birthday and creator and nothing else |
| Records.HiddenKeepsFace | src/RVLFaceLib/RFL_DataUtility.c:18-226 | through the hidden form an info stays the same face and stays valid |
| Records.ValidityBlind | src/RVLFaceLib/RFL_DataUtility.c:18-171 | validity does not depend on the uninitialised memory a record is unpacked into |
| Records.ValidExactly | src/RVLFaceLib/RFL_DataUtility.c:18-171 | validity is the limits of the words of the face, a name, the limits of the body, a birthday, a color, and a special identifier only on a local record |
| Records.WordsExactly | src/RVLFaceLib/RFL_DataUtility.c:18-171 | the limits of face, hair, nose, mouth and mole by bits |
| Records.EyeExactly | src/RVLFaceLib/RFL_DataUtility.c:18-171 | the limits of the eyes by bits |
| Records.EyebrowExactly | src/RVLFaceLib/RFL_DataUtility.c:18-171 | the limits of the eyebrows by bits |
| Records.ExtrasExactly | src/RVLFaceLib/RFL_DataUtility.c:18-171 | the limits of beard and glasses by bits |
| Records.BirthdayExactly | src/RVLFaceLib/RFL_DataUtility.c:18-171 | a birthday is unknown or a day of its month in some year |
| CreateIds.MarksExactly | src/RVLFaceLib/RFL_Database.c:522-560 | bit 29 marks a temporary identifier; without it and bit 31 one is special |
| FaceGenerator.EyeRotation | src/RVLFaceLib/RFL_MakeRandomFace.c:86-97 | the rotation, corrected by the offsets of the parts, stays in its range for every part |
| FaceGenerator.EyebrowRotation | src/RVLFaceLib/RFL_MakeRandomFace.c:101-114 | the same for the eyebrows |
| FaceGenerator.RotationsExactly | src/RVLFaceLib/RFL_MakeRandomFace.c:86-114 | both sexes and all races turn each part by 32 less its offset |
| FaceGenerator.IndicesExactly | src/RVLFaceLib/RFL_MakeRandomFace.c:190-216 | the row of a sex, age and race: nine to a sex, men first, three to an age, one to a race |
| FaceGenerator.RowsExactly | src/RVLFaceLib/RFL_MakeRandomFace.c:190-401 | each part is picked from its own table at that row |
| FaceGenerator.FaceColorRow | src/RVLFaceLib/RFL_MakeRandomFace.c:460-474 | the color of the face is picked by sex and race |
| FaceGenerator.HairColorRow | src/RVLFaceLib/RFL_MakeRandomFace.c:476-493 | the color of the hair is picked by race and age |
| FaceTables.HairCounts | src/RVLFaceLib/RFL_MakeRandomFace.c:243-247 | the rows of hair are as long as the table of numbers says |
| FaceTables.EyeCounts | src/RVLFaceLib/RFL_MakeRandomFace.c:274-278 | the same for the eyes |
| FaceGenerator.GlassTypeExactly | src/RVLFaceLib/RFL_MakeRandomFace.c:403-458 | the glasses by the thresholds of the draw, for each age |
| FaceGenerator.ChoicesLegal | src/RVLFaceLib/RFL_MakeRandomFace.c:62-188 | for every tick stream each part drawn is a candidate of its table row for the sex, age and race, and every number fits its field |
| FaceGenerator.FaceShows | src/RVLFaceLib/RFL_MakeRandomFace.c:79-187 | the packed face shows the parts and the sex that were drawn |
| FaceGenerator.FacelineOfFace | src/RVLFaceLib/RFL_MakeRandomFace.c:78-84 | face and hair stand in their bits |
| FaceGenerator.EyeOfFace | src/RVLFaceLib/RFL_MakeRandomFace.c:86-99 | the eyes stand in their bits, with scale 4, distance 2 and the height moved by the draws |
| FaceGenerator.EyebrowOfFace | src/RVLFaceLib/RFL_MakeRandomFace.c:101-114 | so do the eyebrows, in the color of the hair, with a height one less for Asian faces |
| FaceGenerator.NoseOfFace | src/RVLFaceLib/RFL_MakeRandomFace.c:116-122 | the nose stands in its bits, with scale 4 for men and 3 for women |
| FaceGenerator.MouthOfFace | src/RVLFaceLib/RFL_MakeRandomFace.c:124-131 | so does the mouth, with scale 4 |
| FaceGenerator.BeardOfFace | src/RVLFaceLib/RFL_MakeRandomFace.c:134-157 | the beard stands in its bits |
| FaceGenerator.GlassOfFace | src/RVLFaceLib/RFL_MakeRandomFace.c:159-167 | so do glasses and mole, which is not shown |
| FaceGenerator.BodyOfFace | src/RVLFaceLib/RFL_MakeRandomFace.c:169-187 | a body of half the size, "no name", no creator, the sex in bit 15, no birthday, the color drawn, no flag |
| FaceGenerator.FaceIsValid | src/RVLFaceLib/RFL_MakeRandomFace.c:79-187 | and it is valid with the temporary identifier, whatever its memory held |
| FaceGenerator.MakeRandomFaceCore | src/RVLFaceLib/RFL_MakeRandomFace.c:62-188 | the draws in the order of the code give the face that these choices from the tick stream define, and use up as many ticks |
| FaceGenerator.MakeRandomFace | src/RVLFaceLib/RFL_MakeRandomFace.c:5-60 | the same with sex, age and race drawn first where they are left open |
| FaceGenerator.GeneratedFace | src/RVLFaceLib/RFL_MakeRandomFace.c:5-188 | every face generated is valid, of the sex asked for, and made of candidates for the sex, age and race asked for |
| FaceGenerator.FaceOfSex | src/RVLFaceLib/RFL_MakeRandomFace.c:5-188 | the face and its stored form have the bit of a woman exactly when one was asked for, or no sex was and the first tick is odd |
| RandomFaces.MiddleDB.IsKnown | src/RVLFaceLib/RFL_MiddleDatabase.c:443-451 | the comparison with the stored records finds a face exactly if it was stored before |
| RandomFaces.MiddleDB.UpdateRandom | src/RVLFaceLib/RFL_MiddleDatabase.c:428-460 | after any number of rounds the view shows the first face of each look among those the tick stream gives; it stops at the round that fills it |
| RandomFaces.FirstOfEachSees | src/RVLFaceLib/RFL_MiddleDatabase.c:443-456 | such a choice is pairwise different, taken from the faces given, and leaves no look out |
| RandomFaces.ShownValid | src/RVLFaceLib/RFL_MiddleDatabase.c:428-460 | so every face shown is valid and of the kind asked for, and every face generated looks like one of them |
| RandomFaces.ShownFaces | src/RVLFaceLib/RFL_MiddleDatabase.c:443-456 | what readers unpack is pairwise different too, and valid if it was generated valid |
| RandomFaces.SameFaceExactly | src/RVLFaceLib/RFL_DataUtility.c:177-226 | the comparison is equality up to padding except for faces that differ in the lowest bit of the glasses' height alone |
| RandomFaces.GlassesHeightIgnored | src/RVLFaceLib/RFL_DataUtility.c:198-203 | two faces that differ in that bit alone count as the same, though their glasses stand differently |
| ResourceLoader.Loader.ParseOnmemoryRes | src/RVLFaceLib/RFL_NANDLoader.c:30-46 | the archive table of the image |
| ResourceLoader.ArchiveExactly | src/RVLFaceLib/RFL_NANDLoader.c:30-46 | an entry by the bytes of its section: the number of files, the size of the biggest, and the index behind them |
| ResourceLoader.CachedFileExactly | src/RVLFaceLib/RFL_NANDLoader.c:207-273 | in memory a file lies between its own index word and the next, counted from the end of the index |
| ResourceLoader.Loader.Read2nd | src/RVLFaceLib/RFL_NANDLoader.c:48-93 | each completed read adds the right entry; a failed one stops the load and marks the resources broken |
| ResourceLoader.Loader.LoadHeader | src/RVLFaceLib/RFL_NANDLoader.c:48-141 | the step-by-step loader builds the same table as parsing in memory; broken exactly if the extra read fails |
| ResourceLoader.GetNANDLength | src/RVLFaceLib/RFL_NANDLoader.c:207-240 | for every answer to open, seek and read: the length that memory gives for the index where the file stands, and 0 without a full read |
| ResourceLoader.GetNANDFile | src/RVLFaceLib/RFL_NANDLoader.c:261-336 | for every answer: nothing and a broken mark exactly without two full reads, an overrun exactly for a size whose rounding wraps, else the bytes from where the file stands, which memory gives too when the seeks are done |
| ResourceLoader.OverrunExists | src/RVLFaceLib/RFL_NANDLoader.c:303-320 | an image and a lookup with such a size |
| Ninja.CountDollarsBeforeIndex | tools/ninja_syntax.py:161-168 | the run of dollars before the index, position 0 left out |
| Ninja.BreakableIffUnescaped | tools/ninja_syntax.py:161-168 | its parity is the right one except when only dollars, at least one, precede the space |
| Ninja.BreakInWhole | tools/ninja_syntax.py:170-205 | in the whole text the break behind a piece is at an unescaped space exactly when the piece is not an odd run of dollars |
| Ninja.EscapesKeptExactly | tools/ninja_syntax.py:161-205 | at any width, no indent makes the writer break an escaped space exactly for the texts without an odd word of dollars |
| Ninja.OddWordBroken | tools/ninja_syntax.py:170-205 | for every other text and width an indent and the lines with the wrong break |
| Ninja.BreakEscapedSpace | tools/ninja_syntax.py:161-205 | a run of the writer that breaks an escaped space |
| Ninja.BreakFits | tools/ninja_syntax.py:176-185 | when a broken line fits the width: before the limit exactly unless the indent leaves no room for the dollar, behind it exactly right at the limit |
| Ninja.Writer.FindBreak | tools/ninja_syntax.py:176-197 | the rightmost breakable space before the limit, else the first one from it on; gives up only if the text has none |
| Ninja.Writer.BreakUp | tools/ninja_syntax.py:170-205 | the loop ends, the pieces joined by single spaces are the text, every break is the one the width asks for, and the output is those pieces |
| Ninja.Writer.Line | tools/ninja_syntax.py:170-205 | the same, and of the whole text: a break is at an unescaped space exactly when its piece is not an odd run of dollars, and always if the text has no odd word |
| Ninja.ExpandEscape | tools/ninja_syntax.py:228-249 | escaped text stands for itself under any variables, wherever it is embedded |
| Ninja.ExpandReference | tools/ninja_syntax.py:237-249 | a reference stands for the local variable of its name, else the global one, else nothing |

## Left out

- Accuracy of the polynomial and floating-point parts (`k_sin.c`, `k_cos.c`, `k_tan.c`, `s_atan.c`, `e_asin.c`, `e_acos.c`, `e_atan2.c`, the logarithm and exponential of `e_pow.c`, the medium range of `e_rem_pio2.c`): they need a theory of rounding errors, not the logic of the code.
- `__kernel_rem_pio2` outside lines 193 to 236: the products of line 188 are taken as exact, and that `recompute` ends and that 66 words of 2/pi are enough are facts about numbers outside the code.
- Exception flags and rounding modes other than to nearest: the probes `one-tiny` and `huge+x` are constants here.
- SquareRoot.Sqrt: for NaN and infinities the returned expression x*x+x is named, not evaluated.
- Remainder.Fmod: for undefined operands the returned expression (x*y)/(x*y) is named, not evaluated.
- HiddenWriter.HiddenDBManager.WriteCallback: a write is one step with one outcome; the seek, the alarm-driven retries and the double callback of `writecallback_` (`src/RVLFaceLib/RFL_NANDAccess.c:644-677`) are not modelled, since a global retry bound and a single callback do not hold there.
- Formatting as a sequence of writes, and writing to a database that is not loaded: the latter is not reached from a controller load, which ends at the isolation test first.
- Several operations at once: one operation on the file is outstanding at a time, and two closes at once are not modelled.
- Sampling.MiddleDB.UpdateCached: the buffer has at least one entry, here and in the asynchronous sample; for an empty one the code reads outside it. The word behind a full buffer, which the asynchronous sample looks at, is an input.
- A record read from the file stands in an array of records; that the bytes at its offset are those of the record is not spelled out.
- RandomFaces.MiddleDB.UpdateRandom: the loop of the code may not end, so the number of rounds is a parameter, and what holds after any number of rounds is stated.
- ResourceLoader.GetNANDFile: index tables larger than the temporary buffer of 0x400 bytes, which the code would read past it, are outside the contract, here and in GetNANDLength; what an overrun copies is not stated.
- Controller.CtrlBufManager.ReadCallback: whether a block passes the CRC is a field of the block; the bytes it stands for are not spelled out.
- Ninja.EscapesKeptExactly: the width is not negative; without an odd word the breaks are right at negative widths too (`Ninja.BreakUnescaped`).
- Links and counters as bit-fields: slot numbers and page counts stay below 2^14, so the 15-bit fields of the view do not wrap.
- Models, textures, GX, layouts, ROM and asset loaders, and the other Python tools: input and output, process calls and constants.
