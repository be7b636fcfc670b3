# Handle-based virtual filesystem: a Dafny model

This project models the in-memory logic of `filesystem.c`, the Quake III-derived
virtual filesystem of the CoD4X server, and proves properties of it.

- **Handle table** (`file_system.dfy`, module `Files`, class `FileSystem`):
  - `fsh` is an array of `MAX_FILE_HANDLES` slots;
  - `FS_HandleForFile` hands out the lowest free slot, never slot 0;
  - `FS_FileForHandle` checks the range and the slot;
  - `FS_FCloseFile` closes the native stream and zeroes the slot.
- **Transfers** (`file_system.dfy`, with the loop specifications in `transfers.dfy`):
  - the partial-read loop of `FS_Read` and the partial-write loop of `FS_Write`;
  - the seek of `FS_Seek`, including the read-and-discard emulation on archive entries and the repeated seek of a streamed handle;
  - `FS_SV_FOpenFileWrite`, which ties the handle table to the path builder and the directory guard.
- **Path helpers:**
  - `path_rewrite.dfy`: `FS_ReplaceSeparators` and `FS_ConvertPath`, which rewrite in place, and `FS_BuildOSPath`;
  - `path_compare.dfy`: `FS_PathCmp`, `FS_FilenameCompare` and `FS_IsExt`;
  - `create_path.dfy`: `FS_CreatePath`, the ".."/"::" guard in front of `Sys_Mkdir`.
- **Download check** (`pak_check.dfy`): `FS_VerifyPak`, the pack-name check that closes CVE-2006-2082.

## How the model is built

- **C strings:**
  - A C string is a `string` whose characters are bytes 1..255 (`CStrings.IsCString`). The terminator is implicit.
  - A buffer that a routine rewrites in place is an `array<char>`.
  - `Q_stricmp`, `Q_stricmpn` and `strstr` are not part of this model. They are given their meaning as predicates: ASCII case-insensitive equality, ASCII case-insensitive prefix, and substring search.
- **Character codes:** the comparison loops see `char` codes. `char` is signed on the x86 targets the server is built for, so a byte of 0x80 or more compares below the terminator.
- **Handle table:**
  - The global table is a class with `const fsh: array<Slot>`, updated in place, and `var searchPaths` (`fs_searchpaths`).
  - `FS_Initialized()` is `searchPaths != []`.
  - A slot's `stream` stands for the union of the `FILE *` and the archive handle; 0 is NULL.
- **Native calls:**
  - `fread`, `fseek` and the unzip codec act on a `Device`: the bytes behind a stream, the position, and a schedule of what each successive native call grants (`Upto(n)` or `Fault`, that is -1). `Read` and `Seek` return the device in its new state.
  - `fwrite` is only a schedule of grants. `Write` returns the prefix of the buffer the stream accepted and whether it flushed; there is no device to return.
  - `Sys_Mkdir` calls are returned as a list of arguments.
  - `FS_FCloseFile` returns its native close calls.
  - `fopen`'s result is a parameter.
- **Errors:** `Com_Error` does not return. It becomes an `Err(...)` result, with one constructor per message.
- **Constants:** `MAX_FILE_HANDLES` = 64, `PATH_SEP` = '/' (the Linux build), `FS_SEEK_CUR/END/SET` = 0/1/2, `PK3_SEEK_BUFFER_SIZE` = 65536. The first three come from headers that are not part of this model. The values are those of the Quake III code base.
- **Usable handles:** the code never hands out slot 0, so at most 63 files are open at once, not 64. The model follows the code.

## Model

| member | source | states |
|---|---|---|
| PathCompare.SignedCode | filesystem.c:712-713 | a character's code is in -128..127 and is 0 exactly for the terminator |
| PathCompare.Fold | filesystem.c:715-727 | the folded code is 0 only for the terminator, and is never a lower-case letter, '\\' or ':' |
| PathCompare.FoldedCodes | filesystem.c:708-738 | the codes the loop walks: one per character, none zero, then the terminator's 0 |
| PathCompare.Compare | filesystem.c:728-734 | the three-way result is -1, 0 or 1 |
| PathCompare.CompareReflexive | filesystem.c:708-738 | every code sequence compares equal to itself |
| PathCompare.CompareAntisymmetric | filesystem.c:708-738 | swapping the arguments negates the result |
| PathCompare.CompareZeroIffEqual | filesystem.c:708-738 | the result is 0 exactly when the sequences are equal |
| PathCompare.CompareTransitive | filesystem.c:708-738 | "compares at most" is transitive |
| PathCompare.CompareSkipsCommonPrefix | filesystem.c:711-735 | a common prefix does not affect the result |
| PathCompare.FoldedCodesEqual | filesystem.c:582-609 | two strings fold to the same codes exactly when they are the same path |
| PathCompare.PathCmp | filesystem.c:708-738 | FS_PathCmp returns the lexicographic comparison of the folded codes, and 0 exactly for the same path up to case and separator spelling |
| PathCompare.FilenameCompare | filesystem.c:582-609 | FS_FilenameCompare returns 0 exactly for the same path, -1 otherwise, never 1 |
| PathCompare.FilenameCompareAgreesWithPathCmp | filesystem.c:582-609 | FS_FilenameCompare reports equality exactly when FS_PathCmp returns 0 |
| PathCompare.PathOrderIsTotalPreorder | filesystem.c:708-738 | FS_PathCmp gives 0 on equal input, PathCmp(b,a) == -PathCmp(a,b), and its order is transitive |
| PathCompare.MixedSpellingsAreSamePath | filesystem.c:589-601 | "MP/X" and "mp\\x" are the same path |
| PathCompare.HighByteSortsBelowTerminator | filesystem.c:711-735 | a path sorts above itself extended by a byte of 0x80 or more (signed `char`) |
| PathCompare.IsExt | filesystem.c:658-670 | with namelen the string's length, FS_IsExt is true exactly when the name ends in `ext` ignoring case; when namelen falls short of the length, the result is false |
| PathRewrite.OsSeparators | filesystem.c:327-335 | keeps the length and maps each character through OsSeparator |
| PathRewrite.QpathSeparators | filesystem.c:692-699 | keeps the length and maps each character through QpathSeparator |
| PathRewrite.ReplaceSeparators | filesystem.c:327-335 | a buffer holding a C string (no NUL before its end) becomes OsSeparators of its old contents |
| PathRewrite.ConvertPath | filesystem.c:692-699 | a buffer holding a C string becomes QpathSeparators of its old contents |
| PathRewrite.SeparatorRewritesChangeOnlySeparators | filesystem.c:327-335 | both rewrites keep the length, change only '\\' (or '\\' and ':'), and are idempotent |
| PathRewrite.ConvertPathLeavesNoForeignSeparator | filesystem.c:692-699 | after FS_ConvertPath no '\\' or ':' remains |
| PathRewrite.ConvertPathComparesEqual | filesystem.c:692-738 | a converted path is still a C string and FS_PathCmp finds it equal to the original |
| PathRewrite.BuildOSPath | filesystem.c:344-360 | for C-string inputs, the OS path is base, PATH_SEP, the game directory (fs_gamedir when `game` is empty), PATH_SEP, the qpath, with every separator after `base` made native and no '\\' left there |
| PathRewrite.OsSeparatorsKeepsDotsAndColons | filesystem.c:327-335 | separator rewriting keeps every ".." and "::" |
| PathRewrite.BuildOSPathKeepsTraversal | filesystem.c:344-360 | a ".." or "::" in the game directory or qpath survives into the OS path |
| CreatePath.CutAtNul | filesystem.c:383-384 | with a NUL written at `ofs`, Sys_Mkdir sees exactly the characters before it |
| CreatePath.CreatePath | filesystem.c:370-389 | refuses exactly the paths holding ".." or "::" and then makes no Sys_Mkdir call; otherwise it calls Sys_Mkdir on every prefix ending before a PATH_SEP at index 1 or more, left to right; the buffer is as on entry |
| CreatePath.DirPrefixesEndBeforeSeparators | filesystem.c:380-387 | every Sys_Mkdir argument is a proper prefix ending just before a separator |
| CreatePath.DirPrefixesGrow | filesystem.c:380-387 | the Sys_Mkdir arguments grow strictly, so they come left to right |
| CreatePath.DirPrefixesCoverSeparators | filesystem.c:380-387 | every separator at index 1 or more gets its Sys_Mkdir call |
| CreatePath.SafePathHasSafePrefixes | filesystem.c:370-389 | no created directory holds ".." or "::" |
| CreatePath.ParentStepQpathIsRefused | filesystem.c:344-389 | a qpath with ".." gives an OS path that FS_CreatePath refuses, whatever the base and game |
| PakCheck.PackIdentity | filesystem.c:1435-1438 | the name a pack is requested under is "<gamename>/<basename>.iwd" |
| PakCheck.MountedPakAcceptedInAnyCase | filesystem.c:1433-1441 | every mounted pack is accepted under its name in any letter case |
| PakCheck.MountedPakAcceptedDespiteTraversal | filesystem.c:1433-1456 | the mounted-pack test comes first, so a mounted pack whose name holds ".." is accepted under "usermaps/" |
| PakCheck.UsermapsTraversalRejected | filesystem.c:1451-1456 | a name with ".." or ';' that is neither mounted nor the mod file is refused |
| PakCheck.UsermapsEscapeIsRefused | filesystem.c:1451-1456 | "usermaps/../../server.cfg" has the prefix but fails the user-map test |
| PakCheck.UnlistedPakRejected | filesystem.c:1429-1461 | a name that is not mounted, not the mod file and not under "usermaps/" is refused |
| Transfers.Granted | filesystem.c:1061 | a native call grants -1 up to the block it was asked for |
| Transfers.FreadCount | filesystem.c:1061 | fread returns -1, or at most the block and at most what is left |
| Transfers.ReadFrom | filesystem.c:1057-1080 | the outcome of FS_Read's loop from a given state: bytes stored, whether fread failed, and the next native call; a second zero-byte read ends it; its bounds are stated by ReadFromBounds |
| Transfers.ReadFromBounds | filesystem.c:1057-1080 | the read loop never stores more than was wanted or more than the stream holds |
| Transfers.ReadLoop | filesystem.c:1057-1080 | FS_Read's loop stores at most `len` bytes and at most what is there |
| Transfers.SteadyReadObtainsAvailable | filesystem.c:1057-1080 | on a stream that never stalls or fails, the loop obtains min(wanted, available) with no fault |
| Transfers.OneStallIsTolerated | filesystem.c:1062-1071 | one zero-byte read is tolerated: the read still obtains min(len, available) |
| Transfers.StallsAreNeverForgiven | filesystem.c:1058-1071 | `tries` is never reset: a stall, progress of m bytes, and a second stall end the read at m though more was wanted and there |
| Transfers.FailedReadIsFatal | filesystem.c:1073-1075 | a -1 read ends FS_Read with the fatal error |
| Transfers.WriteLoop | filesystem.c:1134-1155 | the loop accepts no more than was to be written, and succeeds only when all was accepted |
| Transfers.WriteResult | filesystem.c:1139-1160 | FS_Write reports `len` exactly on success and 0 otherwise |
| Transfers.SteadyWriteCompletes | filesystem.c:1134-1155 | on a stream that never stalls or fails, every byte is accepted |
| Transfers.OneWriteStallIsTolerated | filesystem.c:1139-1146 | one zero-byte write is tolerated |
| Transfers.PartialWriteReportsZero | filesystem.c:1148-1151 | a failure after m accepted bytes makes FS_Write report 0, not m |
| Transfers.SeekChunksCoverOffset | filesystem.c:1314-1334 | the seek's reads total exactly the offset, there is at least one, none exceeds 65536, and all but the last are 65536 |
| Transfers.CodecReadConsumes | filesystem.c:1082 | a codec read consumes the first `len` unread bytes, or all of them, and changes nothing else |
| Transfers.SeekChunks | filesystem.c:1329-1333 | the sizes of the codec reads the archive seek issues for a remainder: 65536 while more than that is left, then the rest; their bounds are stated by SeekChunksCoverOffset |
| Transfers.SeekChunksAdvance | filesystem.c:1329-1331 | after one full-buffer read the remaining chunks are those of the remainder less 65536 |
| Transfers.SeekChunksFinish | filesystem.c:1333 | once at most 65536 remain, the last chunk is the remainder itself |
| Transfers.CodecReadsAppend | filesystem.c:1329-1333 | issuing one more codec read after a list of reads is the same as issuing the longer list |
| Transfers.SeekChunksSkipOffset | filesystem.c:1314-1334 | discarding the chunks leaves the entry `offset` bytes further on, or at its end |
| Files.RangeCheckAsWrittenAdmitsOnePastEnd | filesystem.c:261 | the range check as written lets MAX_FILE_HANDLES through, and nothing else outside the table |
| Files.FreeSlotFrom | filesystem.c:251-257 | the lowest index from i on whose stream is NULL, or NoneFree when there is none |
| Files.SvWritePath | filesystem.c:907-908 | the path FS_SV_FOpenFileWrite opens is the home path, PATH_SEP and the file name (fs_gamedir when empty) with its separators made native |
| Files.SvWritePathIsCString | filesystem.c:907-908 | that path is a non-empty C string |
| Files.SvWritePathKeepsTraversal | filesystem.c:907-919 | a file name with ".." or "::" gives a path FS_CreatePath refuses |
| Files.FSeek | filesystem.c:1343-1360 | fseek returns 0 or -1 and changes only the position |
| Files.ZipSeekLandsAtOffset | filesystem.c:1310-1341 | on an archive entry the seek refuses exactly a negative offset or FS_SEEK_END; otherwise it returns the offset and leaves the entry that many bytes after the start (SET) or the current position (CUR), or at its end |
| Files.ZipSetSeekAgreesWithNative | filesystem.c:1322-1334 | the emulated seek from the start reaches the same place as a native seek would |
| Files.StreamedZipSeekSkipsTwice | filesystem.c:1304-1334 | on a streamed archive handle, a seek from the current position skips the offset twice |
| Files.StreamedZipSetSeekIsRepeatable | filesystem.c:1304-1334 | on a streamed archive handle, a seek from the start lands where a single seek would |
| Files.Fread | filesystem.c:1061 | one fread stores the bytes it counts at the buffer offset, next in the stream, and leaves the rest of the buffer alone |
| Files.FreadLoop | filesystem.c:1057-1080 | the read loop's result is ReadLoop's trace; the bytes counted are the next ones of the stream, stored from buffer[0], and the rest of the buffer is untouched |
| Files.CreatePathFor | filesystem.c:917 | FS_CreatePath on a buffer holding the path: refused exactly for a traversal, otherwise the directory prefixes |
| Files.FileSystem.constructor | filesystem.c:251-252 | a filesystem with every slot empty: `fsh` is a static global array, so it starts zeroed and every stream reads as NULL (its declaration is not part of this model) |
| Files.FileSystem.Initialized | filesystem.c:242-244 | FS_Initialized: the filesystem is initialized exactly when the search path list is not empty |
| Files.FileSystem.HandleForFile | filesystem.c:248-258 | the lowest free slot from 1 on, never 0; NoneFree exactly when slots 1..63 are all in use |
| Files.FileSystem.FileForHandle | filesystem.c:260-269 | with the corrected range check: the stream of an open in-range handle, OutOfRange outside the table, NullHandle for an empty slot and for handle 0 |
| Files.FileSystem.FCloseFile | filesystem.c:550-572 | zeroes slot f and no other; closes the entry (and the archive if the handle owns it) or the plain file; returns true exactly when the slot held an archive entry or a stream |
| Files.FileSystem.Read | filesystem.c:1040-1084 | Uninitialized before initialization; 0 for handle 0; an archive entry yields min(len, available) next bytes; a plain file yields ReadLoop's count with those bytes stored from buffer[0], or ReadFault on a -1 read |
| Files.FileSystem.Write | filesystem.c:1116-1161 | 0 for handle 0; the errors of FS_FileForHandle; otherwise the stream accepts WriteLoop's prefix of the buffer, the result is len or 0, and the stream is flushed exactly on success with handleSync |
| Files.FileSystem.SvOpenFileWrite | filesystem.c:899-930 | takes the lowest free slot and changes no other; a traversal path gives 0 with no directory made; otherwise creates the directory prefixes and returns the slot, or 0 when fopen fails |
| Files.FileSystem.ZipSkip | filesystem.c:1329-1334 | the reads issued are exactly SeekChunks(offset): they total `offset` and none is larger than 65536; the entry ends where those codec reads leave it |
| Files.FileSystem.SeekOnce | filesystem.c:1310-1361 | one seek agrees with SeekOnceSpec: the archive emulation or fseek, with their errors; a successful archive seek issues the reads SeekChunks(offset), any other seek none |
| Files.FileSystem.Seek | filesystem.c:1296-1362 | Uninitialized before initialization; otherwise agrees with SeekSpec, including the extra seek of a streamed handle; a successful archive seek issues SeekChunks(offset) once, or twice on a streamed handle |
| Files.FileSystem.VerifyPak | filesystem.c:1429-1461 | accepts exactly a mounted pack's name, the mod's "mod.ff", or a "usermaps/" name free of ".." and ';', all ignoring case |

## Left out

- Native I/O (`fopen`, `fread`, `fwrite`, `fseek`, `fflush`, `fclose`, `Sys_Mkdir`) and the unzip codec are oracles or recorded calls. Their failures beyond the counts they return are not modelled.
- Files.FileSystem.Read: the codec's own error codes from `unzReadCurrentFile` are not modelled. An archive read returns the bytes available.
- Files.FileSystem.Read: a plain slot with a NULL stream is excluded by a precondition. The original passes NULL to `fread`.
- Files.FileSystem.Read and Files.FileSystem.Write: `len` is a `nat`. A negative `len` is not modelled.
- Files.FileSystem.Seek: `offset` is an unbounded integer. The truncation of the `long` offset to the `int` remainder is not modelled.
- Files.FileSystem.Seek: the `streamed` flag is not toggled around the inner seek. The flag's value after an inner `Com_Error` does not matter, because `Com_Error` does not return.
- Files.FileSystem.Seek: the rewind by `unzSetOffset`/`unzOpenCurrentFile` to `zipFilePos` is modelled as moving to the start of the entry's bytes.
- Files.FileSystem.SvOpenFileWrite: the slot's `name` field and its `Q_strncpyz` copy are not modelled.
- `Com_sprintf`, `Q_strncpyz` and `Q_strcat` truncation at `MAX_OSPATH` and `BIG_INFO_STRING` is not modelled. Strings are unbounded.
- PathRewrite.BuildOSPath: the static flip-flop result buffer is not modelled. The result is a fresh string.
- CreatePath.CreatePath: the empty path is excluded. The loop starts one character in, past the terminator of "".
- Logging (`Com_Printf`), `fs_debug` and the other cvars are not modelled. The home path, the game directory and `fs_game` are parameters.
- The rest of filesystem.c (`FS_Read2`, the file listing and reading helpers, the commented-out resolver and startup code) is not part of this model.

## Findings

| source | as written | input that shows it | evidently intended | confidence | as-written member | corrected member |
|---|---|---|---|---|---|---|
| filesystem.c:261 | `f < 0 \|\| f > MAX_FILE_HANDLES` refuses handles above 64 only | f = 64 (MAX_FILE_HANDLES) passes the check, and `fsh[64]` is read one past the end of the table | `f >= MAX_FILE_HANDLES` | high (not executed) | Files.RangeCheckAsWrittenAdmitsOnePastEnd | Files.FileSystem.FileForHandle |
