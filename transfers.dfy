/**
 * What the partial-transfer loops of FS_Read and FS_Write and the chunked
 * seek emulation of FS_Seek compute (filesystem.c), as functions of the native
 * stream they talk to.
 *
 * The native layer (fread, fwrite, the archive codec) is an oracle: a Device
 * holds the bytes behind a stream, the current position, and a schedule that
 * says how much each successive native call is willing to move.
 */
module Transfers {

  type byte = b: int | 0 <= b < 256

  /** What one native call grants: at most `n` bytes, or a failure (the call returns -1). */
  datatype Call = Upto(n: nat) | Fault

  /**
   * The stream behind a handle: its bytes, the position of the next byte, and
   * the grants of the coming native calls; once the schedule is used up every
   * call is granted all it asks for.
   */
  datatype Device = Device(content: seq<byte>, pos: nat, schedule: seq<Call>)

  function Min(a: int, b: int): int {
    if a <= b then a else b
  }

  /** The bytes from the position to the end of the stream (none past the end). */
  function Rest(d: Device): (r: seq<byte>)
    ensures |r| <= |d.content|
  {
    if d.pos < |d.content| then d.content[d.pos..] else []
  }

  /** The device after `n` bytes were moved by calls 0 .. k-1 of its schedule. */
  function Advance(d: Device, n: nat, k: nat): (r: Device)
    ensures r.content == d.content && r.pos == d.pos + n
  {
    Device(d.content, d.pos + n, if k <= |d.schedule| then d.schedule[k..] else [])
  }

  lemma RestAfter(d: Device, n: nat)
    requires n <= |Rest(d)|
    ensures Rest(d.(pos := d.pos + n)) == Rest(d)[n..]
  {
  }

  /** The count the k-th native call returns when asked for `block` bytes, before the end of data is considered. */
  function Granted(schedule: seq<Call>, k: nat, block: nat): (n: int)
    ensures -1 <= n <= block
  {
    if k >= |schedule| then block
    else if schedule[k].Fault? then -1
    else Min(schedule[k].n, block)
  }

  /**
   * fread as the k-th native call with `avail` bytes left in the stream: -1
   * on failure, otherwise what is granted and still there.
   */
  function FreadCount(schedule: seq<Call>, k: nat, avail: nat, block: nat): (n: int)
    ensures -1 <= n <= block && n <= avail
  {
    var g := Granted(schedule, k, block);
    if g < 0 then -1 else Min(g, avail)
  }

  /**
   * What the plain-file loop of FS_Read achieves: how many bytes it stored
   * (they are always the next bytes of the stream, see FreadLoop), whether it
   * stopped on a native failure, and the index of the next native call.
   */
  datatype ReadTrace = ReadTrace(count: nat, fault: bool, calls: nat)

  /**
   * The loop of FS_Read from a state where `count` bytes are stored,
   * `remaining` are still wanted, `avail` are left in the stream, the next
   * native call is the k-th, and `tries` records that a zero-byte read has
   * already been seen (it is never reset).  It never stores more than was
   * wanted or more than the stream holds.
   */
  function ReadFrom(schedule: seq<Call>, k: nat, avail: nat, remaining: nat, tries: bool, count: nat): ReadTrace
    decreases remaining, if tries then 0 else 1
  {
    if remaining == 0 then ReadTrace(count, false, k)
    else
      var n := FreadCount(schedule, k, avail, remaining);
      if n == 0 && tries then ReadTrace(count, false, k + 1)
      else if n == -1 then ReadTrace(count, true, k + 1)
      else ReadFrom(schedule, k + 1, avail - n, remaining - n, tries || n == 0, count + n)
  }

  /** The read loop stores at least what it had and never more than was wanted or is there. */
  lemma {:induction false} ReadFromBounds(schedule: seq<Call>, k: nat, avail: nat, remaining: nat, tries: bool, count: nat)
    ensures var t := ReadFrom(schedule, k, avail, remaining, tries, count);
            count <= t.count <= count + remaining && t.count <= count + avail
    decreases remaining, if tries then 0 else 1
  {
    if remaining > 0 {
      var n := FreadCount(schedule, k, avail, remaining);
      if !(n == 0 && tries) && n != -1 {
        ReadFromBounds(schedule, k + 1, avail - n, remaining - n, tries || n == 0, count + n);
      }
    }
  }

  /** The whole loop of FS_Read for `len` bytes on a stream with `avail` bytes left. */
  function ReadLoop(schedule: seq<Call>, avail: nat, len: nat): (t: ReadTrace)
    ensures t.count <= len && t.count <= avail
  {
    ReadFromBounds(schedule, 0, avail, len, false, 0);
    ReadFrom(schedule, 0, avail, len, false, 0)
  }

  /** No native call from the k-th on fails or stalls. */
  predicate Steady(schedule: seq<Call>, k: nat) {
    forall i :: k <= i < |schedule| ==> schedule[i].Upto? && schedule[i].n > 0
  }

  /**
   * On a stream that never stalls or fails, the read obtains everything that
   * is wanted or, at the end of the data, everything that is left.
   */
  lemma {:induction false} SteadyReadObtainsAvailable(schedule: seq<Call>, k: nat, avail: nat, remaining: nat, tries: bool, count: nat)
    requires Steady(schedule, k)
    ensures var t := ReadFrom(schedule, k, avail, remaining, tries, count);
            !t.fault && t.count == count + Min(remaining, avail)
    decreases remaining, if tries then 0 else 1
  {
    if remaining > 0 {
      var n := FreadCount(schedule, k, avail, remaining);
      assert n >= 0;
      assert n == 0 ==> avail == 0;
      if n > 0 || !tries {
        SteadyReadObtainsAvailable(schedule, k + 1, avail - n, remaining - n, tries || n == 0, count + n);
      }
    }
  }

  /** One zero-byte read is tolerated: the read still obtains all that is wanted and there. */
  lemma OneStallIsTolerated(schedule: seq<Call>, avail: nat, len: nat)
    requires |schedule| > 0 && schedule[0] == Upto(0) && Steady(schedule, 1)
    ensures var t := ReadLoop(schedule, avail, len);
            !t.fault && t.count == Min(len, avail)
  {
    if len > 0 {
      SteadyReadObtainsAvailable(schedule, 1, avail, len, true, 0);
    }
  }

  /**
   * The stall count is never reset: a zero-byte read, some progress, and a
   * second zero-byte read end the read with only the bytes of the middle call,
   * although more were wanted and available.
   */
  lemma StallsAreNeverForgiven(schedule: seq<Call>, m: nat, avail: nat, len: nat)
    requires |schedule| >= 3 && schedule[0] == Upto(0) && schedule[1] == Upto(m) && schedule[2] == Upto(0)
    requires 0 < m < len && m < avail
    ensures var t := ReadLoop(schedule, avail, len);
            !t.fault && t.count == m && m < Min(len, avail)
  {
    assert ReadFrom(schedule, 2, avail - m, len - m, true, m) == ReadTrace(m, false, 3);
    assert ReadFrom(schedule, 1, avail, len, true, 0) == ReadFrom(schedule, 2, avail - m, len - m, true, m);
    assert ReadFrom(schedule, 0, avail, len, false, 0) == ReadFrom(schedule, 1, avail, len, true, 0);
  }

  /** A failing native read is fatal. */
  lemma FailedReadIsFatal(schedule: seq<Call>, avail: nat, len: nat)
    requires len > 0 && |schedule| > 0 && schedule[0] == Fault
    ensures ReadLoop(schedule, avail, len).fault
  {
  }

  /** What the loop of FS_Write achieves: bytes the stream accepted, and whether all were. */
  datatype WriteTrace = WriteTrace(accepted: nat, ok: bool, calls: nat)

  /**
   * The loop of FS_Write from a state where `remaining` bytes are still to be
   * written, the next native call is the k-th, and `tries` records an earlier
   * zero-byte write.  The accepted bytes never exceed what was to be written,
   * and success means every byte was accepted.
   */
  function WriteLoop(schedule: seq<Call>, k: nat, remaining: nat, tries: bool): (t: WriteTrace)
    ensures t.accepted <= remaining
    ensures t.ok ==> t.accepted == remaining
    decreases remaining, if tries then 0 else 1
  {
    if remaining == 0 then WriteTrace(0, true, k)
    else
      var n := Granted(schedule, k, remaining);
      if n == 0 && tries then WriteTrace(0, false, k + 1)
      else if n == -1 then WriteTrace(0, false, k + 1)
      else
        var rest := WriteLoop(schedule, k + 1, remaining - n, tries || n == 0);
        WriteTrace(n + rest.accepted, rest.ok, rest.calls)
  }

  /** The number FS_Write reports for a finished loop: all of `len`, or 0. */
  function WriteResult(t: WriteTrace, len: nat): (r: nat)
    ensures r == len || r == 0
    ensures r == len <==> t.ok || len == 0
  {
    if t.ok then len else 0
  }

  /** A stream that never stalls or fails, or stalls once, accepts every byte. */
  lemma {:induction false} SteadyWriteCompletes(schedule: seq<Call>, k: nat, remaining: nat, tries: bool)
    requires Steady(schedule, k)
    ensures WriteLoop(schedule, k, remaining, tries).ok
    decreases remaining
  {
    if remaining > 0 {
      var n := Granted(schedule, k, remaining);
      assert n > 0;
      SteadyWriteCompletes(schedule, k + 1, remaining - n, tries);
    }
  }

  lemma OneWriteStallIsTolerated(schedule: seq<Call>, remaining: nat)
    requires |schedule| > 0 && schedule[0] == Upto(0) && Steady(schedule, 1)
    ensures WriteLoop(schedule, 0, remaining, false).ok
  {
    if remaining > 0 {
      SteadyWriteCompletes(schedule, 1, remaining, true);
    }
  }

  /**
   * A failure after partial progress is reported as 0 bytes written although
   * the stream has already accepted some.
   */
  lemma PartialWriteReportsZero(schedule: seq<Call>, m: nat, len: nat)
    requires |schedule| >= 2 && schedule[0] == Upto(m) && schedule[1] == Fault && 0 < m < len
    ensures var t := WriteLoop(schedule, 0, len, false);
            t.accepted == m && WriteResult(t, len) == 0
  {
    assert WriteLoop(schedule, 1, len - m, false) == WriteTrace(0, false, 2);
  }

  /** The scratch-buffer size of FS_Seek's archive emulation. */
  const PK3_SEEK_BUFFER_SIZE: nat := 65536

  /** The sizes FS_Seek passes to FS_Read while discarding `remainder` bytes. */
  function SeekChunks(remainder: nat): seq<nat>
    decreases remainder
  {
    if remainder > PK3_SEEK_BUFFER_SIZE then [PK3_SEEK_BUFFER_SIZE] + SeekChunks(remainder - PK3_SEEK_BUFFER_SIZE)
    else [remainder]
  }

  function Sum(s: seq<nat>): nat {
    if s == [] then 0 else s[0] + Sum(s[1..])
  }

  /**
   * The reads total exactly the offset, none is larger than the scratch
   * buffer, every one but the last fills it, and there is at least one.
   */
  lemma {:induction false} SeekChunksCoverOffset(offset: nat)
    ensures Sum(SeekChunks(offset)) == offset
    ensures |SeekChunks(offset)| >= 1
    ensures forall i :: 0 <= i < |SeekChunks(offset)| ==> SeekChunks(offset)[i] <= PK3_SEEK_BUFFER_SIZE
    ensures forall i :: 0 <= i < |SeekChunks(offset)| - 1 ==> SeekChunks(offset)[i] == PK3_SEEK_BUFFER_SIZE
    decreases offset
  {
    if offset > PK3_SEEK_BUFFER_SIZE {
      SeekChunksCoverOffset(offset - PK3_SEEK_BUFFER_SIZE);
      var c := SeekChunks(offset);
      assert c[1..] == SeekChunks(offset - PK3_SEEK_BUFFER_SIZE);
    }
  }

  /** The device after the archive codec reads `len` bytes of the current entry. */
  function CodecRead(d: Device, len: nat): Device {
    d.(pos := d.pos + Min(len, |Rest(d)|))
  }

  /** A codec read consumes the first `len` unread bytes, or all of them, and nothing else. */
  lemma CodecReadConsumes(d: Device, len: nat)
    ensures var r := CodecRead(d, len);
            r.content == d.content && r.schedule == d.schedule
            && Rest(r) == Rest(d)[Min(len, |Rest(d)|)..]
  {
    RestAfter(d, Min(len, |Rest(d)|));
  }

  /** The device after the codec reads each chunk in turn. */
  function CodecReads(d: Device, chunks: seq<nat>): Device
    decreases |chunks|
  {
    if chunks == [] then d else CodecReads(CodecRead(d, chunks[0]), chunks[1..])
  }

  /** After the chunks `done`, one full buffer is read: the rest are those of the smaller remainder. */
  lemma SeekChunksAdvance(done: seq<nat>, remainder: nat, offset: nat)
    requires remainder > PK3_SEEK_BUFFER_SIZE && done + SeekChunks(remainder) == SeekChunks(offset)
    ensures (done + [PK3_SEEK_BUFFER_SIZE]) + SeekChunks(remainder - PK3_SEEK_BUFFER_SIZE) == SeekChunks(offset)
  {
    assert SeekChunks(remainder) == [PK3_SEEK_BUFFER_SIZE] + SeekChunks(remainder - PK3_SEEK_BUFFER_SIZE);
  }

  /** After the chunks `done`, a remainder of at most one buffer is the last chunk. */
  lemma SeekChunksFinish(done: seq<nat>, remainder: nat, offset: nat)
    requires remainder <= PK3_SEEK_BUFFER_SIZE && done + SeekChunks(remainder) == SeekChunks(offset)
    ensures done + [remainder] == SeekChunks(offset)
  {
    assert SeekChunks(remainder) == [remainder];
  }

  /** Reading one more chunk after a sequence of chunks. */
  lemma {:induction false} CodecReadsAppend(d: Device, chunks: seq<nat>, n: nat)
    ensures CodecReads(d, chunks + [n]) == CodecRead(CodecReads(d, chunks), n)
    decreases |chunks|
  {
    if chunks == [] {
      assert CodecReads(CodecRead(d, n), []) == CodecRead(d, n);
      assert [] + [n] == [n];
    } else {
      assert (chunks + [n])[1..] == chunks[1..] + [n];
      CodecReadsAppend(CodecRead(d, chunks[0]), chunks[1..], n);
    }
  }

  /**
   * Discarding the chunks of an offset leaves the entry `offset` bytes
   * further on, or at its end.
   */
  lemma {:induction false} SeekChunksSkipOffset(d: Device, offset: nat)
    ensures var r := CodecReads(d, SeekChunks(offset));
            r.content == d.content && r.schedule == d.schedule
            && Rest(r) == Rest(d)[Min(offset, |Rest(d)|)..]
    decreases offset
  {
    if offset > PK3_SEEK_BUFFER_SIZE {
      var d1 := CodecRead(d, PK3_SEEK_BUFFER_SIZE);
      CodecReadConsumes(d, PK3_SEEK_BUFFER_SIZE);
      SeekChunksSkipOffset(d1, offset - PK3_SEEK_BUFFER_SIZE);
      assert SeekChunks(offset)[1..] == SeekChunks(offset - PK3_SEEK_BUFFER_SIZE);
    } else {
      assert SeekChunks(offset)[1..] == [];
      CodecReadConsumes(d, offset);
    }
  }
}
