/**
 The resource file: its header, loaded in one pass from memory or step by step from the
 file system, and the lookup of a file in one of its archives by either way.

 The image is the contents of the resource file; words are big-endian.
 */
module ResourceLoader {
  import opened Options
  import opened Words

  const ARC_MAX := 18
  const HEADER_SIZE := 0x100
  const SECTION_SIZE := 0x20
  const TEMP_BUF_SIZE := 0x400

  datatype Archive = Archive(numFiles: u16, biggestSize: u16, offset: u32)

  const NO_ARCHIVE := Archive(0, 0, 0)

  // ---------------------------------------------------------------- words of an image

  function U16(b: seq<u8>, at: nat): u16
    requires at + 2 <= |b|
  {
    b[at] as int * 0x100 + b[at + 1]
  }

  function U32(b: seq<u8>, at: nat): u32
    requires at + 4 <= |b|
  {
    U16(b, at) as int * 0x1_0000 + U16(b, at + 2)
  }

  /** A word of a part of the image is a word of the image. */
  lemma WordOfPart(b: seq<u8>, from: nat, to: nat, at: nat)
    requires from <= to <= |b| && at + 4 <= to - from
    ensures U32(b[from..to], at) == U32(b, from + at)
    ensures U16(b[from..to], at) == U16(b, from + at)
  {
    var p := b[from..to];
    assert p[at] == b[from + at] && p[at + 1] == b[from + at + 1];
    assert p[at + 2] == b[from + at + 2] && p[at + 3] == b[from + at + 3];
  }

  /** `ROUND_UP(n, 32)` on a 32-bit word: the largest words wrap around to 0. */
  function RoundUp32(n: u32): (r: u32)
    ensures r % 32 == 0
    ensures if n <= 0xFFFF_FFE0 then n <= r < n + 32 else r == 0
  {
    ((n + 31) % TWO32) / 32 * 32
  }

  /** A read of n bytes at an offset, when the file has them; the offset is signed. */
  function Read(image: seq<u8>, offset: u32, n: nat): Option<seq<u8>> {
    if offset < 0x8000_0000 && offset + n <= |image| then Some(image[offset..offset + n]) else None
  }

  // ---------------------------------------------------------------- the archive table

  /** The offset of section i, a word of the header. */
  function SectionOffset(image: seq<u8>, i: nat): u32
    requires |image| >= HEADER_SIZE && i <= ARC_MAX
  {
    U32(image, 4 * (i + 1))
  }

  predicate SectionInImage(image: seq<u8>, i: nat)
    requires |image| >= HEADER_SIZE && i <= ARC_MAX
  {
    SectionOffset(image, i) + 4 <= |image|
  }

  /** The entry of the archive table for section i. */
  function ArchiveOf(image: seq<u8>, i: nat): Archive
    requires |image| >= HEADER_SIZE && i <= ARC_MAX && SectionInImage(image, i)
  {
    var o := SectionOffset(image, i);
    Archive(U16(image, o), U16(image, o + 2), (o + 4) % TWO32)
  }

  predicate Parsed(image: seq<u8>, archives: seq<Archive>, n: nat) {
    && |image| >= HEADER_SIZE && n <= ARC_MAX == |archives|
    && forall i :: 0 <= i < n ==> SectionInImage(image, i) && archives[i] == ArchiveOf(image, i)
  }

  predicate AllSections(image: seq<u8>) {
    |image| >= HEADER_SIZE && forall i :: 0 <= i < ARC_MAX ==> SectionInImage(image, i)
  }

  /** The archive table of an image. */
  function Table(image: seq<u8>): (t: seq<Archive>)
    requires AllSections(image)
    ensures |t| == ARC_MAX
  {
    seq(ARC_MAX, i requires 0 <= i < ARC_MAX => ArchiveOf(image, i))
  }

  // ---------------------------------------------------------------- lookups

  /** The index word k of an archive, in memory. */
  function IndexWord(image: seq<u8>, arc: Archive, k: nat): Option<u32> {
    if arc.offset + 4 * k + 4 <= |image| then Some(U32(image, arc.offset + 4 * k)) else None
  }

  /** `getCachedLength_`; no result where it would read outside the image. */
  function CachedLength(image: seq<u8>, arc: Archive, file: nat): Option<u32> {
    var self, next := IndexWord(image, arc, file), IndexWord(image, arc, file + 1);
    if self.Some? && next.Some? then Some((next.value - self.value) % TWO32) else None
  }

  /** `getCachedFile_`. */
  function CachedFile(image: seq<u8>, arc: Archive, file: nat): Option<seq<u8>> {
    var size, self := CachedLength(image, arc, file), IndexWord(image, arc, file);
    if size.None? || self.None? then None
    else
      var src := (arc.offset + self.value + arc.numFiles * 4 + 4) % TWO32;
      if src + size.value <= |image| then Some(image[src..src + size.value]) else None
  }

  /** The entry of the table by bytes: the section starts with the number of its files, the
      size of the biggest and then its index. */
  lemma ArchiveExactly(image: seq<u8>, i: nat, o: u32)
    requires |image| >= 0x100 && i < 18 && o + 4 <= |image| && o + 4 < TWO32
    requires o == ((image[4 * i + 4] as int * 0x100 + image[4 * i + 5]) * 0x100 + image[4 * i + 6]) * 0x100
                  + image[4 * i + 7]
    ensures SectionInImage(image, i) && ArchiveOf(image, i).numFiles == image[o] as int * 0x100 + image[o + 1]
    ensures ArchiveOf(image, i).biggestSize == image[o + 2] as int * 0x100 + image[o + 3]
    ensures ArchiveOf(image, i).offset == o + 4
  {
  }

  /** A file lies between its own index word and the next one, both counted from the end of
      an index of one word more than there are files. */
  lemma CachedFileExactly(image: seq<u8>, arc: Archive, file: nat, self: nat, next: nat)
    requires arc.offset + 4 * file + 8 <= |image|
    requires U32(image, arc.offset + 4 * file) == self <= next == U32(image, arc.offset + 4 * file + 4)
    requires arc.offset + 4 * (arc.numFiles + 1) + next <= |image| < TWO32
    ensures CachedLength(image, arc, file) == Some(next - self)
    ensures var files := arc.offset + 4 * (arc.numFiles + 1);
            CachedFile(image, arc, file) == Some(image[files + self..files + next])
  {
    hide U32;
    assert 4 * (file + 1) == 4 * file + 4;
    assert IndexWord(image, arc, file) == Some(self) && IndexWord(image, arc, file + 1) == Some(next);
  }

  /** The size of the index read. */
  function IndexSize(arc: Archive): nat {
    RoundUp32(arc.numFiles * 4 + 4)
  }

  /** What the file system answers during one lookup; a read that fails, or is short,
      counts as not done. */
  datatype Replies = Replies(open: bool, seek1: bool, read1: bool, seek2: bool, read2: bool)

  /** The position behind a seek: a seek that fails, as one to a negative offset must,
      leaves the file where it was. The code does not look at its result. */
  function Seek(position: nat, offset: u32, done: bool): nat {
    if done && offset < 0x8000_0000 then offset else position
  }

  /** A read at the current position. */
  function Deliver(image: seq<u8>, position: nat, n: nat, done: bool): Option<seq<u8>> {
    if done && position + n <= |image| then Some(image[position..position + n]) else None
  }

  /** Where the index of an archive is read from. */
  function IndexPosition(arc: Archive, r: Replies): u32 {
    Seek(0, arc.offset, r.seek1)
  }

  /** The index read of a lookup. */
  function IndexRead(image: seq<u8>, arc: Archive, r: Replies): Option<seq<u8>> {
    if r.open then Deliver(image, IndexPosition(arc, r), IndexSize(arc), r.read1) else None
  }

  /** The common start of both lookups: open, seek, and read of the index into the
      temporary buffer. */
  method ReadIndex(image: seq<u8>, arc: Archive, r: Replies) returns (tmpBuf: Option<seq<u8>>)
    requires IndexSize(arc) <= TEMP_BUF_SIZE
    ensures tmpBuf == IndexRead(image, arc, r)
  {
    if !r.open { return None; }
    var readSize := RoundUp32(arc.numFiles * 4 + 4);
    var position := Seek(0, arc.offset, r.seek1);
    tmpBuf := Deliver(image, position, readSize, r.read1);
  }

  /** The index words read are the ones that memory holds at the position of the file. */
  lemma IndexInMemory(image: seq<u8>, arc: Archive, file: nat, r: Replies)
    requires file < arc.numFiles && IndexRead(image, arc, r).Some?
    ensures var moved, index := arc.(offset := IndexPosition(arc, r)), IndexRead(image, arc, r).value;
            && 4 * (file + 2) <= |index|
            && IndexWord(image, moved, file) == Some(U32(index, 4 * file))
            && IndexWord(image, moved, file + 1) == Some(U32(index, 4 * (file + 1)))
  {
    var position: nat, n := IndexPosition(arc, r), IndexSize(arc);
    WordOfPart(image, position, position + n, 4 * file);
    WordOfPart(image, position, position + n, 4 * (file + 1));
    hide U16, U32, RoundUp32;
  }

  /** `getNANDLength_`: the length that memory gives for the index at the position of the
      file, which is the archive's own when the seek is done; 0 without a full read. */
  method GetNANDLength(image: seq<u8>, arc: Archive, file: nat, r: Replies) returns (length: u32)
    requires file < arc.numFiles && IndexSize(arc) <= TEMP_BUF_SIZE
    ensures IndexRead(image, arc, r).Some? ==>
      CachedLength(image, arc.(offset := IndexPosition(arc, r)), file) == Some(length)
    ensures IndexRead(image, arc, r).None? ==> length == 0
  {
    hide U16, U32, IndexRead, IndexPosition, IndexWord;
    length := 0;
    var tmpBuf := ReadIndex(image, arc, r);
    if tmpBuf.Some? {
      IndexInMemory(image, arc, file, r);
      var self := U32(tmpBuf.value, 4 * file);
      var next := U32(tmpBuf.value, 4 * (file + 1));
      length := (next - self) % TWO32;
    }
  }

  /** What a lookup by the file system leaves: nothing, the bytes of the file, or a buffer
      filled from behind the empty one that a wrapped size allocates. */
  datatype FileResult = Missing | Copied(bytes: seq<u8>) | Overrun

  /** The size of a file, by the index at the position of the file. */
  function FileSize(image: seq<u8>, arc: Archive, file: nat, r: Replies): u32
    requires file < arc.numFiles && IndexRead(image, arc, r).Some?
  {
    (U32(IndexRead(image, arc, r).value, 4 * (file + 1)) - U32(IndexRead(image, arc, r).value, 4 * file)) % TWO32
  }

  /** Where the contents of a file are sought, and where they are read from. */
  function FileStart(image: seq<u8>, arc: Archive, file: nat, r: Replies): u32
    requires file < arc.numFiles && IndexRead(image, arc, r).Some?
  {
    (arc.offset + arc.numFiles * 4 + 4 + U32(IndexRead(image, arc, r).value, 4 * file)) % TWO32
  }

  function FilePosition(image: seq<u8>, arc: Archive, file: nat, r: Replies): nat
    requires file < arc.numFiles && IndexRead(image, arc, r).Some?
  {
    Seek(IndexPosition(arc, r) + IndexSize(arc), FileStart(image, arc, file, r), r.seek2)
  }

  /** Both reads of a lookup deliver all that was asked for. */
  predicate FullReads(image: seq<u8>, arc: Archive, file: nat, r: Replies)
    requires file < arc.numFiles
  {
    && IndexRead(image, arc, r).Some?
    && Deliver(image, FilePosition(image, arc, file, r), RoundUp32(FileSize(image, arc, file, r)), r.read2).Some?
  }

  /** The file stands where the lookup wants it for both reads. */
  predicate InPlace(image: seq<u8>, arc: Archive, file: nat, r: Replies)
    requires file < arc.numFiles && IndexRead(image, arc, r).Some?
  {
    IndexPosition(arc, r) == arc.offset && FilePosition(image, arc, file, r) == FileStart(image, arc, file, r)
  }

  /** `getNANDFile_`: it finds nothing, and marks the resources broken, exactly without two
      full reads; it overruns exactly when the size is so large that its rounding wraps;
      otherwise it copies from where the file stands, which gives what memory holds when
      both seeks put it in place. */
  method GetNANDFile(image: seq<u8>, arc: Archive, file: nat, r: Replies) returns (result: FileResult, broken: bool)
    requires file < arc.numFiles && IndexSize(arc) <= TEMP_BUF_SIZE
    ensures broken <==> result.Missing?
    ensures result.Missing? <==> !FullReads(image, arc, file, r)
    ensures result.Overrun? <==> FullReads(image, arc, file, r) && FileSize(image, arc, file, r) > 0xFFFF_FFE0
    ensures result.Copied? ==>
      var position, size := FilePosition(image, arc, file, r), FileSize(image, arc, file, r);
      && position + size <= |image| && result.bytes == image[position..position + size]
      && (InPlace(image, arc, file, r) ==> CachedFile(image, arc, file) == Some(result.bytes))
  {
    hide U16, U32, RoundUp32, CachedFile, InPlace, IndexRead, IndexPosition, Seek;
    var tmpBuf := ReadIndex(image, arc, r);
    if tmpBuf.None? { return Missing, true; }
    IndexInMemory(image, arc, file, r);
    var next := U32(tmpBuf.value, 4 * (file + 1));
    var self := U32(tmpBuf.value, 4 * file);
    var arcSize: u32 := (next - self) % TWO32;
    var seekOffset: u32 := (arc.offset + arc.numFiles * 4 + 4 + self) % TWO32;
    var arcBufSize := RoundUp32(arcSize);
    var position := Seek(IndexPosition(arc, r) + IndexSize(arc), seekOffset, r.seek2);
    var arcBuf := Deliver(image, position, arcBufSize, r.read2);
    if arcBuf.None? { return Missing, true; }
    if arcSize > arcBufSize { return Overrun, false; }
    assert arcBuf.value[..arcSize] == image[position..position + arcSize];
    result, broken := Copied(arcBuf.value[..arcSize]), false;
    CopiedFromMemory(image, arc, file, r);
  }

  /** With the file in place, lookups in memory and by the file system copy the same bytes. */
  lemma CopiedFromMemory(image: seq<u8>, arc: Archive, file: nat, r: Replies)
    requires file < arc.numFiles && IndexRead(image, arc, r).Some?
    requires FilePosition(image, arc, file, r) + FileSize(image, arc, file, r) <= |image|
    ensures InPlace(image, arc, file, r) ==>
      var position := FilePosition(image, arc, file, r);
      CachedFile(image, arc, file) == Some(image[position..position + FileSize(image, arc, file, r)])
  {
    hide U16, U32, IndexRead, IndexPosition, IndexWord, Seek;
    IndexInMemory(image, arc, file, r);
    assert IndexPosition(arc, r) == arc.offset ==> arc.(offset := IndexPosition(arc, r)) == arc;
  }

  /** An image whose index gives a file a size that wraps when it is rounded up: it starts 8
      bytes behind its end. */
  function WrappingImage(): (image: seq<u8>) {
    seq(0x140, k => if k == 0x107 then 8 else 0)
  }

  lemma WrappingIndex()
    ensures |WrappingImage()| == 0x140
    ensures var index := WrappingImage()[0x104..0x124]; U32(index, 0) == 8 && U32(index, 4) == 0
  {
    var index := WrappingImage()[0x104..0x124];
    assert index[3] == 8 && forall k :: 0 <= k < 32 && k != 3 ==> index[k] == 0;
  }

  /** With every request done, the lookup of that file overruns. */
  lemma OverrunExists()
    ensures var arc, r := Archive(1, 0, 0x104), Replies(true, true, true, true, true);
            FullReads(WrappingImage(), arc, 0, r) && FileSize(WrappingImage(), arc, 0, r) > 0xFFFF_FFE0
  {
    var arc, r, image := Archive(1, 0, 0x104), Replies(true, true, true, true, true), WrappingImage();
    WrappingIndex();
    assert RoundUp32(8) == 32 && IndexSize(arc) == 32;
    hide U16, U32, WrappingImage;
    assert IndexRead(image, arc, r) == Some(image[0x104..0x124]);
    hide IndexRead;
    assert FileSize(image, arc, 0, r) == 0xFFFF_FFF8;
  }

  // ---------------------------------------------------------------- loading the header

  /** `RFLiLoader`. */
  class Loader {
    const image: seq<u8>
    var archives: seq<Archive>
    var version: int
    var headerBuf1: Option<seq<u8>>
    var headerBuf2: bool
    var numResources: nat
    var readOffset: int
    var reading: bool
    var resBroken: bool
    var closed: bool

    ghost predicate Valid()
      reads this
    {
      && |archives| == ARC_MAX && numResources <= ARC_MAX
      && (reading ==>
            && |image| >= HEADER_SIZE && headerBuf1 == Some(image[..HEADER_SIZE]) && headerBuf2
            && Parsed(image, archives, numResources) && !resBroken && !closed
            && version == U16(image, 2)
            && readOffset == SectionOffset(image, numResources))
    }

    /** `RFLiInitLoader`. */
    constructor (image: seq<u8>)
      ensures Valid() && this.image == image && !reading && !resBroken && !closed
    {
      this.image := image;
      archives := seq(ARC_MAX, _ => NO_ARCHIVE);
      version, headerBuf1, headerBuf2, numResources, readOffset := 0, None, false, 0, 0;
      reading, resBroken, closed := false, false, false;
    }

    /** `parseOnmemoryRes_`. */
    method ParseOnmemoryRes()
      requires |archives| == ARC_MAX && AllSections(image) && !reading
      modifies this`archives, this`version
      ensures archives == Table(image) && version == U16(image, 2)
    {
      hide U16, U32;
      version := U16(image, 2);
      var i := 0;
      while i < ARC_MAX
        invariant 0 <= i <= ARC_MAX && Parsed(image, archives, i) && version == U16(image, 2)
      {
        assert SectionInImage(image, i);
        var offset := SectionOffset(image, i);
        archives := archives[i := Archive(U16(image, offset), U16(image, offset + 2), (offset + 4) % TWO32)];
        i := i + 1;
      }
    }

    /** The end of the read of the header, and `loadResRead1stcallback_`: the first section
        is asked for. */
    method Read1st(success: bool, accepted: bool)
      requires Valid() && !reading && !resBroken && !closed && (success ==> |image| >= HEADER_SIZE)
      modifies this
      ensures Valid() && reading == (success && accepted) && (reading ==> numResources == 0)
      ensures !reading ==> closed && headerBuf1.None? && !headerBuf2
      ensures resBroken == !success
    {
      var free := false;
      if success {
        headerBuf1 := Some(image[..HEADER_SIZE]);
        WordOfPart(image, 0, HEADER_SIZE, 0);
        WordOfPart(image, 0, HEADER_SIZE, 2);
        WordOfPart(image, 0, HEADER_SIZE, 4);
        version := U16(headerBuf1.value, 2);
        headerBuf2, numResources := true, 0;
        if accepted {
          readOffset, reading := U32(headerBuf1.value, 4), true;
        } else {
          free := true;
        }
      } else {
        free, resBroken := true, true;
      }
      if free {
        headerBuf1, headerBuf2, closed := None, false, true;
      }
    }

    /** The end of the read of a section, and `loadResRead2ndcallback_`: its entry is made
        and the next section is asked for. After the last entry one more read goes to
        whatever offset follows in the header. */
    method Read2nd(success: bool, accepted: bool)
      requires Valid() && reading
      requires success ==> Read(image, readOffset, SECTION_SIZE).Some?
      modifies this
      ensures Valid() && version == old(version)
      ensures success && old(numResources) < ARC_MAX ==>
        && numResources == old(numResources) + 1 && Parsed(image, archives, numResources) && !resBroken
        && reading == accepted && closed == !accepted
      ensures !success || old(numResources) == ARC_MAX ==>
        && !reading && closed && archives == old(archives) && numResources == old(numResources)
        && resBroken == !success && headerBuf1.None? && !headerBuf2
    {
      hide U16, U32;
      var free := false;
      reading := false;
      if success {
        var arc := numResources;
        if arc < ARC_MAX {
          var section := Read(image, readOffset, SECTION_SIZE).value;
          SectionWords(image, readOffset);
          HeaderWord(image, arc + 1);
          archives := archives[arc := Archive(U16(section, 0), U16(section, 2), (readOffset + 4) % TWO32)];
          numResources := numResources + 1;
          if accepted {
            readOffset, reading := U32(headerBuf1.value, 4 * (arc + 2)), true;
          } else {
            free := true;
          }
        } else {
          free := true;
        }
      } else {
        free, resBroken := true, true;
      }
      if free {
        headerBuf1, headerBuf2, closed := None, false, true;
      }
    }

    /** A load whose requests are all accepted, on a file that has all its sections: the
        table is the one that parsing in memory builds, and the resources count as broken
        exactly when the one read too many fails. */
    method LoadHeader()
      requires Valid() && !reading && !resBroken && !closed && |image| >= HEADER_SIZE
      requires forall i :: 0 <= i < ARC_MAX ==> Read(image, SectionOffset(image, i), SECTION_SIZE).Some?
      modifies this
      ensures Valid() && closed && !reading
      ensures AllSections(image) && archives == Table(image) && version == U16(image, 2)
      ensures resBroken <==> Read(image, SectionOffset(image, ARC_MAX), SECTION_SIZE).None?
    {
      hide U16, U32;
      Read1st(true, true);
      while numResources < ARC_MAX
        invariant Valid() && reading && numResources <= ARC_MAX
        decreases ARC_MAX - numResources
      {
        Read2nd(true, true);
      }
      Read2nd(Read(image, readOffset, SECTION_SIZE).Some?, true);
    }
  }

  lemma SectionWords(image: seq<u8>, offset: u32)
    requires Read(image, offset, SECTION_SIZE).Some?
    ensures var section := Read(image, offset, SECTION_SIZE).value;
            U16(section, 0) == U16(image, offset) && U16(section, 2) == U16(image, offset + 2)
  {
    WordOfPart(image, offset, offset + SECTION_SIZE, 0);
    WordOfPart(image, offset, offset + SECTION_SIZE, 2);
  }

  lemma HeaderWord(image: seq<u8>, i: nat)
    requires |image| >= HEADER_SIZE && i <= ARC_MAX
    ensures U32(image[..HEADER_SIZE], 4 * (i + 1)) == SectionOffset(image, i)
  {
    assert image[..HEADER_SIZE] == image[0..HEADER_SIZE];
    WordOfPart(image, 0, HEADER_SIZE, 4 * (i + 1));
  }
}
