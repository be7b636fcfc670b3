/**
 * The handle table of the virtual filesystem (filesystem.c) and the
 * operations that go through it: handle allocation and lookup, closing,
 * reading, writing, seeking, opening a file for writing below the home path,
 * and the pack-name check.
 *
 * The table `fsh` holds MAX_FILE_HANDLES slots; slot 0 is never handed out,
 * so handle 0 stands for "no file".  A slot's stream is the union of the
 * plain FILE pointer and the archive handle of the original: a non-zero
 * number names an open native stream, 0 is NULL.  The native stream itself is
 * passed to each operation as a Device (see module Transfers), which the
 * operation hands back in its new state.
 */
module Files {
  import opened CStrings
  import opened PathRewrite
  import CreatePath
  import opened Transfers
  import opened PakCheck

  const MAX_FILE_HANDLES: nat := 64

  /** The origins FS_Seek accepts. */
  const FS_SEEK_CUR: int := 0
  const FS_SEEK_END: int := 1
  const FS_SEEK_SET: int := 2

  /** One entry of the handle table. */
  datatype Slot = Slot(
    stream: nat,        // the FILE pointer or archive handle; 0 is NULL
    zipFile: bool,      // the handle reads an entry of an archive
    unique: bool,       // the archive was opened for this handle alone
    zipFilePos: nat,    // where the entry starts in the archive
    streamed: bool,
    handleSync: bool)   // flush after every write

  /** A slot after Com_Memset(&fsh[f], 0, ...). */
  const EmptySlot := Slot(0, false, false, 0, false, false)

  /** The ways an operation is abandoned (Com_Error, which does not return). */
  datatype Error =
    | Uninitialized    // "Filesystem call made without initialization"
    | OutOfRange       // "FS_FileForHandle: out of range"
    | NullHandle       // "FS_FileForHandle: NULL"
    | NoneFree         // "FS_HandleForFile: none free"
    | ReadFault        // "FS_Read: -1 bytes read"
    | UnsupportedSeek  // negative offset or FS_SEEK_END on an archive entry
    | BadOrigin        // "Bad origin in FS_Seek"

  datatype Result<T> = Ok(value: T) | Err(error: Error)

  /** The native close calls FS_FCloseFile makes. */
  datatype NativeCall = CloseCurrentEntry(z: nat) | CloseArchive(z: nat) | CloseStream(o: nat)

  /** An index of the handle table. */
  predicate InTable(f: int) {
    0 <= f < MAX_FILE_HANDLES
  }

  /** The range check of FS_FileForHandle as written: it refuses f < 0 and f > MAX_FILE_HANDLES. */
  predicate PassesRangeCheckAsWritten(f: int) {
    !(f < 0 || f > MAX_FILE_HANDLES)
  }

  /** The check as written lets exactly one handle outside the table through: MAX_FILE_HANDLES itself. */
  lemma RangeCheckAsWrittenAdmitsOnePastEnd()
    ensures PassesRangeCheckAsWritten(MAX_FILE_HANDLES) && !InTable(MAX_FILE_HANDLES)
    ensures forall f :: PassesRangeCheckAsWritten(f) && !InTable(f) ==> f == MAX_FILE_HANDLES
  {
  }

  /** The lowest slot from `i` on whose stream is NULL, or NoneFree. */
  function FreeSlotFrom(slots: seq<Slot>, i: nat): (r: Result<nat>)
    requires |slots| == MAX_FILE_HANDLES
    ensures r.Ok? ==> i <= r.value < MAX_FILE_HANDLES && slots[r.value].stream == 0
                      && forall j :: i <= j < r.value ==> slots[j].stream != 0
    ensures r.Err? ==> r.error == NoneFree && forall j :: i <= j < MAX_FILE_HANDLES ==> slots[j].stream != 0
    decreases MAX_FILE_HANDLES - i
  {
    if i >= MAX_FILE_HANDLES then Err(NoneFree)
    else if slots[i].stream == 0 then Ok(i)
    else FreeSlotFrom(slots, i + 1)
  }

  /** The handle FS_HandleForFile hands out: the lowest free slot other than 0. */
  function FreeSlot(slots: seq<Slot>): Result<nat>
    requires |slots| == MAX_FILE_HANDLES
  {
    FreeSlotFrom(slots, 1)
  }

  /**
   * The file FS_SV_FOpenFileWrite opens: FS_BuildOSPath(homepath, filename, "")
   * without its final separator, that is the home path, a separator and the
   * file name with its separators made native.
   */
  function SvWritePath(homepath: string, filename: string, gamedir: string): (r: string)
    requires IsCString(homepath) && IsCString(filename) && IsCString(gamedir)
    ensures r == homepath + [PATH_SEP] + OsSeparators(GameDir(filename, gamedir))
  {
    var p := BuildOSPath(homepath, filename, "", gamedir);
    p[..|p| - 1]
  }

  lemma OsSeparatorsIsCString(s: string)
    requires IsCString(s)
    ensures IsCString(OsSeparators(s))
  {
  }

  lemma SvWritePathIsCString(homepath: string, filename: string, gamedir: string)
    requires IsCString(homepath) && IsCString(filename) && IsCString(gamedir)
    ensures IsCString(SvWritePath(homepath, filename, gamedir)) && |SvWritePath(homepath, filename, gamedir)| >= 1
  {
    OsSeparatorsIsCString(GameDir(filename, gamedir));
  }

  /** A file name holding ".." (or "::") yields a path FS_CreatePath refuses. */
  lemma SvWritePathKeepsTraversal(homepath: string, filename: string, gamedir: string, sub: string)
    requires IsCString(homepath) && IsCString(filename) && IsCString(gamedir)
    requires sub == ".." || sub == "::"
    requires Contains(filename, sub)
    ensures CreatePath.Traverses(SvWritePath(homepath, filename, gamedir))
  {
    var i :| 0 <= i <= |filename| - |sub| && OccursAt(filename, sub, i);
    assert GameDir(filename, gamedir) == filename;
    OsSeparatorsKeepsDotsAndColons(filename, sub, i);
    OccursAfterPrefix(homepath + [PATH_SEP], OsSeparators(filename), sub, i);
  }

  /** The native fseek: 0 and the new position, or -1 and no move for a target before the start. */
  function FSeek(d: Device, offset: int, origin: int): (r: (int, Device))
    requires origin == FS_SEEK_CUR || origin == FS_SEEK_END || origin == FS_SEEK_SET
    ensures r.0 == 0 || r.0 == -1
    ensures r.1.content == d.content && r.1.schedule == d.schedule
  {
    var base := if origin == FS_SEEK_SET then 0 else if origin == FS_SEEK_CUR then d.pos else |d.content|;
    if base + offset < 0 then (-1, d) else (0, d.(pos := base + offset))
  }

  /**
   * One FS_Seek on the slot, ignoring its streamed flag: the chunked read-
   * and-discard emulation on an archive entry, fseek on a plain file.
   */
  function SeekOnceSpec(slot: Slot, offset: int, origin: int, d: Device): Result<(int, Device)> {
    if slot.zipFile then
      if offset < 0 || origin == FS_SEEK_END then Err(UnsupportedSeek)
      else if origin == FS_SEEK_SET then Ok((offset, CodecReads(d.(pos := 0), SeekChunks(offset))))
      else if origin == FS_SEEK_CUR then Ok((offset, CodecReads(d, SeekChunks(offset))))
      else Err(BadOrigin)
    else if slot.stream == 0 then Err(NullHandle)
    else if origin == FS_SEEK_CUR || origin == FS_SEEK_END || origin == FS_SEEK_SET then
      var (rc, d') := FSeek(d, offset, origin);
      Ok((rc, d'))
    else Err(BadOrigin)
  }

  /** FS_Seek: on a streamed slot the same seek is first made once more, and only its errors matter. */
  function SeekSpec(slot: Slot, offset: int, origin: int, d: Device): Result<(int, Device)> {
    if !slot.streamed then SeekOnceSpec(slot, offset, origin, d)
    else match SeekOnceSpec(slot, offset, origin, d)
      case Err(e) => Err(e)
      case Ok(v) => SeekOnceSpec(slot, offset, origin, v.1)
  }

  /** A method's result and device agree with a specification's outcome. */
  predicate SeekMatches(s: Result<(int, Device)>, r: Result<int>, d': Device) {
    match s
    case Ok(v) => r == Ok(v.0) && d' == v.1
    case Err(e) => r == Err(e)
  }

  /**
   * On an archive entry, a seek from the start or the current position
   * reports the offset and leaves the entry `offset` bytes further on (or at
   * its end); a negative offset or FS_SEEK_END is refused.
   */
  lemma ZipSeekLandsAtOffset(slot: Slot, offset: int, origin: int, d: Device)
    requires slot.zipFile
    ensures (SeekOnceSpec(slot, offset, origin, d) == Err(UnsupportedSeek)) <==> (offset < 0 || origin == FS_SEEK_END)
    ensures offset >= 0 && (origin == FS_SEEK_SET || origin == FS_SEEK_CUR) ==>
              var start := if origin == FS_SEEK_SET then d.(pos := 0) else d;
              var s := SeekOnceSpec(slot, offset, origin, d);
              s.Ok? && s.value.0 == offset && s.value.1.content == d.content
              && Rest(s.value.1) == Rest(start)[Min(offset, |Rest(start)|)..]
  {
    if offset >= 0 {
      SeekChunksSkipOffset(d.(pos := 0), offset);
      SeekChunksSkipOffset(d, offset);
    }
  }

  /**
   * Within an entry, the emulated seek from the start reaches the same place
   * as a native seek on the entry's bytes would.
   */
  lemma ZipSetSeekAgreesWithNative(slot: Slot, offset: int, d: Device)
    requires slot.zipFile && 0 <= offset <= |d.content|
    ensures var s := SeekOnceSpec(slot, offset, FS_SEEK_SET, d);
            s.Ok? && Rest(s.value.1) == Rest(FSeek(d, offset, FS_SEEK_SET).1)
  {
    ZipSeekLandsAtOffset(slot, offset, FS_SEEK_SET, d);
  }

  /**
   * On a streamed archive handle the extra seek is not harmless: a relative
   * seek skips its offset twice.
   */
  lemma StreamedZipSeekSkipsTwice(slot: Slot, offset: nat, d: Device)
    requires slot.zipFile && slot.streamed
    ensures var s := SeekSpec(slot, offset, FS_SEEK_CUR, d);
            s.Ok? && Rest(s.value.1) == Rest(d)[Min(2 * offset, |Rest(d)|)..]
  {
    ZipSeekLandsAtOffset(slot, offset, FS_SEEK_CUR, d);
    var d1 := SeekOnceSpec(slot, offset, FS_SEEK_CUR, d).value.1;
    ZipSeekLandsAtOffset(slot, offset, FS_SEEK_CUR, d1);
  }

  /** A seek from the start on a streamed archive handle lands where a single one would. */
  lemma StreamedZipSetSeekIsRepeatable(slot: Slot, offset: nat, d: Device)
    requires slot.zipFile && slot.streamed
    ensures var s := SeekSpec(slot, offset, FS_SEEK_SET, d);
            s.Ok? && Rest(s.value.1) == Rest(SeekOnceSpec(slot, offset, FS_SEEK_SET, d).value.1)
  {
    ZipSeekLandsAtOffset(slot, offset, FS_SEEK_SET, d);
    var d1 := SeekOnceSpec(slot, offset, FS_SEEK_SET, d).value.1;
    ZipSeekLandsAtOffset(slot, offset, FS_SEEK_SET, d1);
  }

  /**
   * fread(buf + off, 1, remaining, file) as the k-th native call on a stream
   * whose unread bytes are avail[off..] (`left` of them): the count of
   * FreadCount, with that many bytes of the stream stored at `off` and the
   * rest of the buffer untouched.
   */
  method Fread(buffer: array<byte>, off: nat, remaining: nat, avail: seq<byte>, left: nat,
               schedule: seq<Call>, k: nat) returns (read: int)
    requires off + left == |avail| && off + remaining <= buffer.Length
    modifies buffer
    ensures read == FreadCount(schedule, k, left, remaining)
    ensures forall i :: 0 <= i < buffer.Length ==>
              buffer[i] == if off <= i < off + read then avail[i] else old(buffer[i])
  {
    read := FreadCount(schedule, k, left, remaining);
    forall i | off <= i < off + read {
      buffer[i] := avail[i];
    }
  }

  /**
   * The partial-read loop of FS_Read on a plain file: the trace ReadLoop
   * gives, with the bytes it counts, the next ones of the stream, stored at
   * the start of the buffer and the rest of the buffer untouched.
   */
  method FreadLoop(buffer: array<byte>, len: nat, d: Device) returns (t: ReadTrace)
    requires len <= buffer.Length
    modifies buffer
    ensures t == ReadLoop(d.schedule, |Rest(d)|, len)
    ensures forall i :: 0 <= i < buffer.Length ==>
              buffer[i] == if i < t.count then Rest(d)[i] else old(buffer[i])
  {
    var avail := Rest(d);
    var remaining: nat := len;
    var tries := false;
    var k: nat := 0;
    var off: nat := 0;
    var left: nat := |avail|;
    while remaining > 0
      invariant off + remaining == len && off + left == |avail|
      invariant ReadFrom(d.schedule, k, left, remaining, tries, off) == ReadLoop(d.schedule, |avail|, len)
      invariant forall i :: 0 <= i < buffer.Length ==>
                  buffer[i] == if i < off then avail[i] else old(buffer[i])
      decreases remaining, if tries then 0 else 1
    {
      var read := Fread(buffer, off, remaining, avail, left, d.schedule, k);
      k := k + 1;
      if read == 0 {
        if !tries {
          tries := true;
        } else {
          return ReadTrace(off, false, k);
        }
      }
      if read == -1 {
        return ReadTrace(off, true, k);
      }
      remaining := remaining - read;
      left := left - read;
      off := off + read;
    }
    return ReadTrace(off, false, k);
  }

  /** FS_CreatePath on a buffer holding the C string `p`. */
  method CreatePathFor(p: string) returns (refused: bool, mkdirs: seq<string>)
    requires |p| >= 1 && IsCString(p)
    ensures refused == CreatePath.Traverses(p)
    ensures refused ==> mkdirs == []
    ensures !refused ==> mkdirs == CreatePath.DirPrefixes(p, |p|)
  {
    var buf := new char[|p|](i requires 0 <= i < |p| => p[i]);
    assert buf[..] == p;
    refused, mkdirs := CreatePath.CreatePath(buf);
  }

  class FileSystem {
    /** fs_searchpaths: the mounted packs and directories, in search order. */
    var searchPaths: seq<SearchPath>
    /** fsh: the handle table. */
    const fsh: array<Slot>

    ghost predicate Valid()
      reads this, fsh
    {
      fsh.Length == MAX_FILE_HANDLES && fsh[0] == EmptySlot
    }

    /** FS_Initialized: some search path is mounted. */
    predicate Initialized()
      reads this
    {
      searchPaths != []
    }

    /** A filesystem with the given search path and every handle free. */
    constructor (searchPaths: seq<SearchPath>)
      ensures Valid() && fresh(fsh)
      ensures this.searchPaths == searchPaths
      ensures forall i :: 0 <= i < fsh.Length ==> fsh[i] == EmptySlot
    {
      this.searchPaths := searchPaths;
      fsh := new Slot[MAX_FILE_HANDLES](_ => EmptySlot);
    }

    /**
     * FS_HandleForFile: the lowest free handle from 1 on; never 0, and
     * NoneFree exactly when handles 1 .. MAX_FILE_HANDLES-1 are all in use.
     */
    method HandleForFile() returns (r: Result<nat>)
      requires Valid()
      ensures r == FreeSlot(fsh[..])
      ensures r.Ok? ==> 1 <= r.value < MAX_FILE_HANDLES && fsh[r.value].stream == 0
                        && forall j :: 1 <= j < r.value ==> fsh[j].stream != 0
      ensures r.Err? <==> forall j :: 1 <= j < MAX_FILE_HANDLES ==> fsh[j].stream != 0
    {
      var i := 1;
      while i < MAX_FILE_HANDLES
        invariant 1 <= i <= MAX_FILE_HANDLES
        invariant FreeSlotFrom(fsh[..], i) == FreeSlot(fsh[..])
      {
        if fsh[i].stream == 0 {
          return Ok(i);
        }
        i := i + 1;
      }
      return Err(NoneFree);
    }

    /**
     * FS_FileForHandle, with its range check corrected to refuse
     * MAX_FILE_HANDLES: the stream of an open handle, OutOfRange for an
     * index outside the table, NullHandle for a free slot (handle 0 always).
     */
    method FileForHandle(f: int) returns (r: Result<nat>)
      requires Valid()
      ensures r.Ok? <==> InTable(f) && fsh[f].stream != 0
      ensures r.Ok? ==> r.value == fsh[f].stream && r.value != 0
      ensures !InTable(f) ==> r == Err(OutOfRange)
      ensures InTable(f) && fsh[f].stream == 0 ==> r == Err(NullHandle)
      ensures f == 0 ==> r == Err(NullHandle)
    {
      if f < 0 || f >= MAX_FILE_HANDLES {
        return Err(OutOfRange);
      }
      if fsh[f].stream == 0 {
        return Err(NullHandle);
      }
      return Ok(fsh[f].stream);
    }

    /**
     * FS_FCloseFile: closes the entry (and the archive if the handle owns
     * it) or the plain file, and clears the slot.  The result says whether
     * anything was open; nothing but slot f changes.
     */
    method FCloseFile(f: int) returns (closed: bool, calls: seq<NativeCall>)
      requires Valid() && InTable(f)
      modifies fsh
      ensures Valid()
      ensures fsh[f] == EmptySlot
      ensures forall j :: 0 <= j < MAX_FILE_HANDLES && j != f ==> fsh[j] == old(fsh[j])
      ensures closed <==> old(fsh[f]).zipFile || old(fsh[f]).stream != 0
      ensures old(fsh[f]).zipFile ==>
                calls == [CloseCurrentEntry(old(fsh[f]).stream)]
                         + (if old(fsh[f]).unique then [CloseArchive(old(fsh[f]).stream)] else [])
      ensures !old(fsh[f]).zipFile && old(fsh[f]).stream != 0 ==> calls == [CloseStream(old(fsh[f]).stream)]
      ensures !closed ==> calls == []
    {
      var s := fsh[f];
      if s.zipFile {
        calls := [CloseCurrentEntry(s.stream)];
        if s.unique {
          calls := calls + [CloseArchive(s.stream)];
        }
        fsh[f] := EmptySlot;
        return true, calls;
      }
      if s.stream != 0 {
        fsh[f] := EmptySlot;
        return true, [CloseStream(s.stream)];
      }
      fsh[f] := EmptySlot;
      return false, [];
    }

    /**
     * FS_Read of `len` bytes into `buffer` from handle f, whose stream is `d`.
     * A plain file is read by the partial-read loop ReadLoop describes: the
     * bytes stored are the next ones of the stream, and the result is how
     * many were stored.  An archive entry is read by the codec in one call.
     * Handle 0 reads nothing.
     */
    method Read(buffer: array<byte>, len: nat, f: int, d: Device) returns (r: Result<nat>, d': Device)
      requires Valid() && (Initialized() ==> InTable(f)) && len <= buffer.Length
      requires Initialized() && f != 0 && !fsh[f].zipFile ==> fsh[f].stream != 0
      modifies buffer
      ensures !Initialized() ==> r == Err(Uninitialized) && d' == d && unchanged(buffer)
      ensures Initialized() && f == 0 ==> r == Ok(0) && d' == d && unchanged(buffer)
      ensures Initialized() && f != 0 && fsh[f].zipFile ==>
                var n := Min(len, |Rest(d)|);
                r == Ok(n) && d' == CodecRead(d, len)
                && forall i :: 0 <= i < buffer.Length ==> buffer[i] == if i < n then Rest(d)[i] else old(buffer[i])
      ensures Initialized() && f != 0 && !fsh[f].zipFile ==>
                var t := ReadLoop(d.schedule, |Rest(d)|, len);
                r == (if t.fault then Err(ReadFault) else Ok(t.count))
                && d' == Advance(d, t.count, t.calls)
                && forall i :: 0 <= i < buffer.Length ==> buffer[i] == if i < t.count then Rest(d)[i] else old(buffer[i])
    {
      if !Initialized() {
        return Err(Uninitialized), d;
      }
      if f == 0 {
        return Ok(0), d;
      }
      if fsh[f].zipFile {
        var avail := Rest(d);
        var n := Min(len, |avail|);
        forall i | 0 <= i < n {
          buffer[i] := avail[i];
        }
        return Ok(n), CodecRead(d, len);
      }
      var t := FreadLoop(buffer, len, d);
      r := if t.fault then Err(ReadFault) else Ok(t.count);
      d' := Advance(d, t.count, t.calls);
    }

    /**
     * FS_Write of the first `len` bytes of `buffer` to handle h, whose stream
     * grants writes by `schedule`.  `accepted` is what the stream took,
     * `flushed` whether it was flushed afterwards.  The result is `len`
     * when every byte was taken and 0 otherwise; handle 0 writes nothing.
     */
    method Write(buffer: seq<byte>, len: nat, h: int, schedule: seq<Call>)
      returns (r: Result<nat>, accepted: seq<byte>, flushed: bool)
      requires Valid() && len <= |buffer|
      ensures !Initialized() ==> r == Err(Uninitialized) && accepted == [] && !flushed
      ensures Initialized() && h == 0 ==> r == Ok(0) && accepted == [] && !flushed
      ensures Initialized() && h != 0 && !InTable(h) ==> r == Err(OutOfRange) && accepted == []
      ensures Initialized() && h != 0 && InTable(h) && fsh[h].stream == 0 ==> r == Err(NullHandle) && accepted == []
      ensures Initialized() && h != 0 && InTable(h) && fsh[h].stream != 0 ==>
                var t := WriteLoop(schedule, 0, len, false);
                r == Ok(WriteResult(t, len)) && accepted == buffer[..t.accepted]
                && flushed == (t.ok && fsh[h].handleSync)
    {
      if !Initialized() {
        return Err(Uninitialized), [], false;
      }
      if h == 0 {
        return Ok(0), [], false;
      }
      var file := FileForHandle(h);
      if file.Err? {
        return Err(file.error), [], false;
      }
      var remaining: nat := len;
      var tries := false;
      var k: nat := 0;
      var off: nat := 0;
      while remaining > 0
        invariant off + remaining == len
        invariant var t := WriteLoop(schedule, 0, len, false);
                  var u := WriteLoop(schedule, k, remaining, tries);
                  t.accepted == off + u.accepted && t.ok == u.ok
        decreases remaining, if tries then 0 else 1
      {
        var written := Granted(schedule, k, remaining);
        k := k + 1;
        if written == 0 {
          if !tries {
            tries := true;
          } else {
            return Ok(0), buffer[..off], false;
          }
        }
        if written == -1 {
          return Ok(0), buffer[..off], false;
        }
        remaining := remaining - written;
        off := off + written;
      }
      return Ok(len), buffer[..len], fsh[h].handleSync;
    }

    /**
     * FS_SV_FOpenFileWrite: takes the lowest free handle, creates the
     * directories of the file below the home path and opens it; `fopened` is
     * what fopen returns (0 for failure).  A path with ".." or "::" gives 0
     * and creates nothing; so does a failed open.  Only the chosen slot
     * changes.
     */
    method SvOpenFileWrite(filename: string, homepath: string, gamedir: string, fopened: nat)
      returns (r: Result<nat>, mkdirs: seq<string>)
      requires Valid() && IsCString(filename) && IsCString(homepath) && IsCString(gamedir)
      modifies fsh
      ensures Valid()
      ensures !Initialized() ==> r == Err(Uninitialized) && mkdirs == [] && unchanged(fsh)
      ensures Initialized() && FreeSlot(old(fsh[..])).Err? ==>
                r == Err(NoneFree) && mkdirs == [] && unchanged(fsh)
      ensures Initialized() && FreeSlot(old(fsh[..])).Ok? ==>
                var f := FreeSlot(old(fsh[..])).value;
                var p := SvWritePath(homepath, filename, gamedir);
                (forall j :: 0 <= j < MAX_FILE_HANDLES && j != f ==> fsh[j] == old(fsh[j]))
                && (CreatePath.Traverses(p) ==>
                      r == Ok(0) && mkdirs == [] && fsh[f] == old(fsh[f]).(zipFile := false))
                && (!CreatePath.Traverses(p) ==>
                      mkdirs == CreatePath.DirPrefixes(p, |p|)
                      && fsh[f] == old(fsh[f]).(zipFile := false, stream := fopened, handleSync := false)
                      && r == Ok(if fopened == 0 then 0 else f))
    {
      if !Initialized() {
        return Err(Uninitialized), [];
      }
      var ospath := SvWritePath(homepath, filename, gamedir);
      SvWritePathIsCString(homepath, filename, gamedir);
      var h := HandleForFile();
      if h.Err? {
        return Err(NoneFree), [];
      }
      var f := h.value;
      fsh[f] := fsh[f].(zipFile := false);
      var refused;
      refused, mkdirs := CreatePathFor(ospath);
      if refused {
        return Ok(0), mkdirs;
      }
      fsh[f] := fsh[f].(stream := fopened, handleSync := false);
      if fopened == 0 {
        return Ok(0), mkdirs;
      }
      return Ok(f), mkdirs;
    }

    /**
     * The forward skip of the zip branch: `offset` bytes are read and thrown
     * away, PK3_SEEK_BUFFER_SIZE at a time, then the remainder.  `sizes` are
     * the lengths of the FS_Read calls in the order they are made: those of
     * SeekChunks(offset), so they total `offset` and none exceeds the scratch
     * buffer (SeekChunksCoverOffset).
     */
    method ZipSkip(f: int, offset: nat, dev: Device) returns (dev': Device, sizes: seq<nat>)
      requires Valid() && Initialized() && InTable(f) && f != 0 && fsh[f].zipFile
      ensures sizes == SeekChunks(offset)
      ensures Sum(sizes) == offset && forall i :: 0 <= i < |sizes| ==> sizes[i] <= PK3_SEEK_BUFFER_SIZE
      ensures dev' == CodecReads(dev, sizes)
    {
      var buffer := new byte[PK3_SEEK_BUFFER_SIZE];
      var remainder: nat := offset;
      dev' := dev;
      sizes := [];
      while remainder > PK3_SEEK_BUFFER_SIZE
        invariant sizes + SeekChunks(remainder) == SeekChunks(offset)
        invariant dev' == CodecReads(dev, sizes)
      {
        CodecReadsAppend(dev, sizes, PK3_SEEK_BUFFER_SIZE);
        SeekChunksAdvance(sizes, remainder, offset);
        var n;
        n, dev' := Read(buffer, PK3_SEEK_BUFFER_SIZE, f, dev');
        sizes := sizes + [PK3_SEEK_BUFFER_SIZE];
        remainder := remainder - PK3_SEEK_BUFFER_SIZE;
      }
      CodecReadsAppend(dev, sizes, remainder);
      SeekChunksFinish(sizes, remainder, offset);
      var n;
      n, dev' := Read(buffer, remainder, f, dev');
      sizes := sizes + [remainder];
      SeekChunksCoverOffset(offset);
    }

    /**
     * One FS_Seek on slot f with its streamed flag ignored (see SeekOnceSpec).
     * `sizes` are the lengths of the FS_Read calls the archive emulation makes.
     */
    method SeekOnce(f: int, offset: int, origin: int, d: Device) returns (r: Result<int>, d': Device, sizes: seq<nat>)
      requires Valid() && Initialized() && InTable(f)
      ensures SeekMatches(SeekOnceSpec(fsh[f], offset, origin, d), r, d')
      ensures sizes == if fsh[f].zipFile && offset >= 0 && r.Ok? then SeekChunks(offset) else []
    {
      sizes := [];
      if fsh[f].zipFile {
        if offset < 0 || origin == FS_SEEK_END {
          return Err(UnsupportedSeek), d, sizes;
        }
        var dev := d;
        if origin == FS_SEEK_SET {
          dev := d.(pos := 0);
        } else if origin != FS_SEEK_CUR {
          return Err(BadOrigin), d, sizes;
        }
        dev, sizes := ZipSkip(f, offset, dev);
        return Ok(offset), dev, sizes;
      }
      var file := FileForHandle(f);
      if file.Err? {
        return Err(file.error), d, sizes;
      }
      if !(origin == FS_SEEK_CUR || origin == FS_SEEK_END || origin == FS_SEEK_SET) {
        return Err(BadOrigin), d, sizes;
      }
      var (rc, dev) := FSeek(d, offset, origin);
      return Ok(rc), dev, sizes;
    }

    /**
     * FS_Seek on handle f, whose stream is `d`: the result and new stream
     * SeekSpec gives, including the repeated seek of a streamed handle.  A
     * successful seek on an archive entry reads the chunks of the offset, twice
     * over on a streamed handle.
     */
    method Seek(f: int, offset: int, origin: int, d: Device) returns (r: Result<int>, d': Device, sizes: seq<nat>)
      requires Valid() && (Initialized() ==> InTable(f))
      ensures !Initialized() ==> r == Err(Uninitialized) && d' == d && sizes == []
      ensures Initialized() ==> SeekMatches(SeekSpec(fsh[f], offset, origin, d), r, d')
      ensures Initialized() && fsh[f].zipFile && offset >= 0 && r.Ok? ==>
                sizes == if fsh[f].streamed then SeekChunks(offset) + SeekChunks(offset) else SeekChunks(offset)
      ensures Initialized() && !(fsh[f].zipFile && offset >= 0 && r.Ok?) ==> sizes == []
    {
      if !Initialized() {
        return Err(Uninitialized), d, [];
      }
      var dev := d;
      var first: seq<nat> := [];
      if fsh[f].streamed {
        var once;
        once, dev, first := SeekOnce(f, offset, origin, d);
        if once.Err? {
          return once, dev, [];
        }
      }
      var last;
      r, d', last := SeekOnce(f, offset, origin, dev);
      sizes := first + last;
    }

    /**
     * FS_VerifyPak: whether a client may download `pak`; `fsGame` is the
     * value of fs_game.  Accepted exactly when PakAccepted holds.
     */
    method VerifyPak(pak: string, fsGame: string) returns (ok: bool)
      ensures ok == PakAccepted(searchPaths, fsGame, pak)
    {
      var i := 0;
      while i < |searchPaths|
        invariant i <= |searchPaths|
        invariant forall j :: 0 <= j < i ==> !MountedAt(searchPaths, j, pak)
      {
        if searchPaths[i].PackPath? && EqualsIgnoreCase(PackIdentity(searchPaths[i].pack), pak) {
          assert MountedAt(searchPaths, i, pak);
          return true;
        }
        i := i + 1;
      }
      if EqualsIgnoreCase(fsGame + "/mod.ff", pak) {
        return true;
      }
      if StartsWithIgnoreCase(pak, "usermaps/") {
        if Contains(pak, "..") || Contains(pak, ";") {
          return false;
        } else {
          return true;
        }
      }
      return false;
    }
  }
}
