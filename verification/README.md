# cement-extractor, modelled in Dafny

cement-extractor unpacks "ATG CORE CEMENT LIBRARY" archives. An archive is read front to back:

- a 60-byte header, whose last field is the file count n;
- an index table of n 12-byte records, each holding a payload offset and length;
- a skip to the next 2048-byte sector boundary, then 8 more bytes;
- a filename table of n variable-length records;
- another sector alignment;
- the payloads, one after the other, each followed by a sector alignment.

The index is sorted stably by offset. Entry i of the sorted index is then paired with name i of the filename table. Each payload is copied in chunks of at most 4 MiB into a file whose path comes from the sanitised name. The stored offsets are never used to seek: they only decide the order of the lengths.

The model works on the archive as a byte sequence with a cursor (`Input.Stream`). Every fatal condition becomes one typed `Errors.Failure`: an I/O error propagated with `?`, an `unwrap`/`expect` that panics, or a panic on a malformed name. Each failure names the stage and, where there is one, the entry at fault.

The writes of a run become its result, `Extraction.Run`. That result is the list of output files, each a target path (directories and file component) with the bytes written to it, plus the failure if the run stopped early.

Modules, in the order the program uses them:

- `Bytes`: bytes, `u32`, little-endian decoding.
- `Input`: the stream and the four primitive operations: `read_exact`, `read_u32`, a relative seek and a plain `read`.
- `Alignment`: `next_multiple`, `nm_to_skip`, `skip_to_multiple`.
- `Header`: `read_archive_header`.
- `IndexTable`: `read_number_of_files` and its stable sort.
- `Utf8`: `String::from_utf8`.
- `FilenameTable`: `read_filenames`.
- `Paths`: `file_from_path`.
- `Extraction`: `main` after the input is opened.

Where a description of the format and the code disagree, the model follows the code:

- The sort is Rust's `sort_by`, which is stable. Ties keep their table order, and the model proves this.
- A non-final chunk that reads nothing is not an error in the code. The loop repeats forever, writing the whole buffer each time (`Stalled` / `PayloadStalled`). Only a short final chunk panics.
- After a short non-final chunk, the whole 4 MiB buffer is still written, including stale bytes.
- There is no alignment between the header and the index table.
- `file_from_path`'s own check refuses only a name with no path components at all. A name whose directories are all dropped by the sanitiser is still extracted. A name whose last component is `/`, `.` or `..` passes that check but makes `File::create` fail later; see `Paths.FileFromPath` under "## Left out".

## Model

| member | source | states |
|---|---|---|
| `Bytes.U32LeOfStored` | src/main.rs:77-82 | re-encoding a little-endian u32 read from four bytes gives back exactly those bytes, so the decoding is injective on 4-byte windows |
| `Input.ReadExact` | src/main.rs:72 | `read_exact` succeeds exactly when k bytes remain, returns the k bytes at the cursor and moves the cursor by k |
| `Input.ReadU32` | src/main.rs:77 | `read_u32::<LE>` succeeds exactly when 4 bytes remain and returns their little-endian value, cursor advanced by 4 |
| `Input.ReadUpTo` | src/main.rs:191 | a plain `read` returns min(requested, remaining) bytes, the bytes at the cursor, and moves the cursor by that many |
| `Alignment.NextMultiple` | src/main.rs:19-26 | the result is a multiple of target, at least n and less than n + target, equal to n when n is already a multiple, and no larger than any multiple at least n (the least one) |
| `Alignment.NmToSkip` | src/main.rs:28-30 | the padding is below target, lands on a multiple, and is zero exactly when the position is already aligned |
| `Alignment.SkipToMultiple` | src/main.rs:32-37 | the seek lands on the next multiple of target (aligned, within target bytes), reports the distance skipped and stays below the i32 limit |
| `Header.ReadArchiveHeader` | src/main.rs:70-87 | decoding succeeds exactly when 60 bytes remain, fails otherwise with `HeaderTruncated`, reads each field at its fixed little-endian position and leaves the cursor right after the header |
| `Header.MagicIsInformational` | src/main.rs:72-75 | replacing the 32 magic bytes by anything changes neither success nor any other field: the signature comparison only logs |
| `Header.HeaderRoundTrip` | src/main.rs:39-48 | a header encoded in the on-disk layout, wherever it sits, decodes back to itself with the cursor 60 bytes further on |
| `IndexTable.ReadRecordBySteps` | src/main.rs:93-97 | skip 4, read offset, read length: succeeds exactly when 12 bytes remain and yields the record stored at the cursor |
| `IndexTable.ReadRecords` | src/main.rs:92-100 | the loop succeeds exactly when the n records fit, fails only with `IndexTruncated`, returns n entries and leaves the cursor 12·n bytes on |
| `IndexTable.ReadRecordsOnDisk` | src/main.rs:92-100 | the entries read are the records stored, in table order |
| `IndexTable.SortByOffset` | src/main.rs:102 | the sorted table is ordered by offset and is a permutation of its input |
| `IndexTable.SortIsStable` | src/main.rs:102 | for every offset, the entries with that offset keep their table order |
| `IndexTable.StableSortIsUnique` | src/main.rs:102 | two offset-ordered stable reorderings of the same entries are equal, so any stable sort gives SortByOffset's result |
| `IndexTable.SortKeepsSortedTable` | src/main.rs:102 | a table already in offset order is left unchanged, so then extraction follows table order |
| `IndexTable.ReadIndexTable` | src/main.rs:89-105 | `read_number_of_files`: the same success condition and error, n entries ordered by offset, a stable permutation of the records on disk |
| `FilenameTable.ReadNameRecord` | src/main.rs:113-131 | one record fails only with `FilenamesTruncated`, `ZeroNameLength` or `MalformedName` for this entry, and a success moves the cursor past the 20 fixed bytes and the name while staying within 4 bytes past the end |
| `FilenameTable.RecordReadsAgree` | src/main.rs:113-131 | the step-by-step stream reading of a record (seek 12, length, zero check, name bytes, seek 4, UTF-8 check) and the reading stated over the bytes agree on every input |
| `FilenameTable.NameAtReads` | src/main.rs:113-131 | a record reads as `name` exactly when its stored length is at least one and the following length - 1 bytes decode to `name`, and the cursor then moves past the whole record |
| `FilenameTable.NameAtIff` | src/main.rs:114-125 | a record reads as `name` exactly when its length field is one more than the length of `name`'s UTF-8 form and those bytes follow it |
| `FilenameTable.ReadNamesFrom` | src/main.rs:112-132 | the loop returns one name per record, fails only with the three record errors, and blames an entry inside the range read |
| `FilenameTable.ReadFilenames` | src/main.rs:107-135 | `read_filenames`: n names, or one of the three record errors blaming an entry below n; the contents are the laid-out table (see the lemmas below) |
| `FilenameTable.LaidOutReads` | src/main.rs:107-135 | bytes laid out as a table of `names` read back as exactly `names`, ending where the layout ends |
| `FilenameTable.ReadNamesLaidOut` | src/main.rs:107-135 | whatever a successful read returns is laid out as a table of those names, ending where the read stopped |
| `FilenameTable.ReadNamesIff` | src/main.rs:107-135 | reading succeeds with `names` ending at `end` if and only if the bytes are laid out as that table |
| `FilenameTable.FailedRecordAborts` | src/main.rs:112-131 | after records that read, a record that fails aborts the whole table with that record's error; the names before it are not returned |
| `FilenameTable.NameTableRoundTrip` | src/main.rs:107-135 | a table written from any storable names, with zero reserved and padding bytes, decodes back to those names and stops right after it |
| `Utf8.DecodeEncode` | src/main.rs:125-131 | every string survives encoding to UTF-8 and `from_utf8` |
| `Utf8.EncodeDecode` | src/main.rs:125-131 | whatever `from_utf8` accepts re-encodes to the very bytes it was decoded from |
| `Utf8.EncodeInjective` | src/main.rs:125 | distinct names have distinct encodings |
| `Paths.Normalise` | src/main.rs:138 | every backslash becomes a slash and every other character is kept, position by position |
| `Paths.JoinSplit` | src/main.rs:139-140 | splitting a path at slashes loses nothing: the fields joined with slashes give the path back |
| `Paths.SplitJoin` | src/main.rs:139-140 | slash-free fields joined with slashes split back into the same fields |
| `Paths.ComponentsShape` | src/main.rs:140 | the components of a backslash-free path never include `Prefix`, have `RootDir`/`CurDir` only first, and every `Normal` name is a plain name |
| `Paths.ComponentsEmpty` | src/main.rs:140-144 | a path has no components exactly when it is empty |
| `Paths.FileFromPath` | src/main.rs:137-160 | the target of a name, or `EmptyPath` for this entry as the only failure |
| `Paths.FileFromPathFails` | src/main.rs:141-144 | `file_from_path` fails (the `expect` on `pop`) exactly when the name is empty |
| `Paths.DirsArePlain` | src/main.rs:146-154 | every kept directory is a plain name: no root, prefix, `.` or `..` survives and no separator hides in one |
| `Paths.Sanitize` | src/main.rs:146-154 | the sanitiser keeps at most one name per component, and drops nothing exactly when every component is `Normal` |
| `Paths.SanitizeKeepsNames` | src/main.rs:146-154 | the sanitiser keeps exactly the names of the `Normal` components |
| `Paths.SanitizeAppend` | src/main.rs:146-154 | sanitising distributes over concatenation, so the order of the kept names is the path order |
| `Paths.SanitizeIdempotent` | src/main.rs:146-154 | sanitising the kept names again changes nothing |
| `Extraction.DecodeDirectory` | src/main.rs:169-177 | the directory reads n entries and n names, fails only with a header, index or filename error, and leaves the cursor sector-aligned and at most two alignments and the gap past the end |
| `Extraction.DirectoryHeader` | src/main.rs:169 | the run fails at the header exactly when the input is shorter than 60 bytes, and the header is the one at byte 0 |
| `Extraction.DirectoryIndex` | src/main.rs:172 | the entries are the index records after the header, stably sorted by offset: they equal the stable sort of the on-disk table, so records with equal offsets keep their table order and their pairing with names |
| `Extraction.DirectoryNames` | src/main.rs:173-177 | the names are laid out as a filename table 8 bytes after the sector boundary following the index, and the first payload starts at the sector boundary after that table |
| `Extraction.CopyPayload` | src/main.rs:183-203 | the copy completes exactly when `length` bytes remain and then writes exactly those bytes and moves the cursor by `length`; it stalls (the source's endless loop) exactly when more than one buffer of the payload lies past the end of the input, and reads short (the source's panic) exactly when the missing part fits in one buffer; an unfinished copy has written whole buffers only |
| `Extraction.ExtractEntry` | src/main.rs:183-204 | an entry yields no file exactly when its name is empty; otherwise the file goes to the name's target, the copy completes exactly when the payload fits, and then the file holds the payload and the cursor moves to the sector boundary after it; the copy stalls exactly when more than a buffer of the payload is missing |
| `Extraction.ExtractEntries` | src/main.rs:179-205 | the run completes exactly when every entry has a name and a payload that fits, producing file i from entry i and name i; otherwise it stops at the first entry that does not, after writing the files before it in full and, unless its name was empty, a file at that entry's target holding whole buffers only, with a stall exactly when more than a buffer of that entry's payload is missing |
| `Extraction.Extract` | src/main.rs:169-205 | a directory failure ends the run with no files; otherwise the run completes exactly when every entry is extractable and then writes the expected files in order, and an aborted run stops at the first entry that is not, with the files before it written in full and the stall or short read decided as in `CopyPayload` |
| `Extraction.ExpectedFilesAt` | src/main.rs:181 | file i of a run is built from entry i of the sorted index and name i of the table |
| `Extraction.PayloadsDisjoint` | src/main.rs:187-204 | payload i ends before payload j starts whenever i < j |
| `Extraction.PayloadsAligned` | src/main.rs:177-204 | every payload starts on a sector boundary when the first one does |
| `Extraction.StartsIgnoreOffsets` | src/main.rs:181-204 | two index tables with the same lengths in the same order give the same payload starts: the stored offsets are never used to seek |

## Left out

- Printing (`println!`), the command line and opening the input file: `Extraction.Extract` takes the archive contents as its input.
- Output I/O: `create_dir_all`, `File::create` and `write_all` are not performed. Their effect is the `Target` and contents of each `OutputFile`, and none of their failures is modelled, so the model reports a completed run where the source panics. These failures come from the environment (permissions, disk full) and also from the archive itself: a name that is used as a file and then as a directory (`a`, then `a\b`, where `create_dir_all("a")` fails), a name that repeats a directory's path as a file, and a name containing a NUL character.
- `Paths.Components`: follows the Unix rules of `Path::components`. Windows prefixes (`C:`) are never produced, though the sanitiser handles `Prefix`.
- `Paths.FileFromPath`: a last component that is `/`, `.` or `..` is kept as a `Component`. What `Path::join` and `File::create` then do with it (replace the path, or fail on a directory) is not modelled.
- `Alignment.SkipToMultiple`: requires the position plus the sector to stay below 2^31, because the source casts the position to `i32`. Wrapping casts are not modelled. `Extraction.DecodeDirectory` and `Extraction.Extract` require the input to be at most 2^31 - 8192 bytes, which keeps every position in range.
- `Extraction.CopyPayload`: when a non-final chunk reads nothing, the source loops forever, writing the buffer each time. The model ends there with outcome `Stalled`, after the writes made so far.
- `Input.ReadUpTo`: a plain `read` of a regular file is taken to return everything asked for that remains. Reads that return fewer bytes for other reasons (signals, pipes) are not modelled.
- Allocation failure is not modelled. This includes a `fn_length - 1` of `u32::MAX - 1` and the underflow of a zero length in a release build. A zero length is always the failure `ZeroNameLength`, as in a debug build.
- The comparison of the magic bytes with `ATG_HEADER` only prints a message, so it is not modelled; `Header.MagicIsInformational` states that the magic changes nothing else.
- The reserved header words and the reserved bytes of the index and filename records are skipped, never read, so they are not part of the decoded records.
