/**
 * The extraction run of `main`: the header, the index table, a sector
 * alignment and an 8-byte skip, the filename table, another alignment, and
 * then, for each sorted index entry paired with the filename at the same
 * position, the payload copied in chunks of at most `BufferSize` bytes
 * followed by an alignment. Payloads are read one after the other from the
 * cursor; the stored offsets only decide the order of the lengths.
 */
module Extraction {
  import opened Wrappers
  import opened Bytes
  import opened Input
  import opened Errors
  import opened Alignment
  import opened Header
  import opened IndexTable
  import opened FilenameTable
  import opened Paths

  /** `BUFFER_SIZE`: the chunk size of the payload copy, 4 MiB. */
  const BufferSize: nat := 4 * 1024 * 1024

  /** The bytes skipped after the aligned end of the index table. */
  const NamesGap: nat := 4 + 4

  /** How far past the end of the input the cursor can be: two alignments
      and the gap. */
  const CursorSlack: nat := 2 * Sector + NamesGap

  /** The longest input whose cursor always stays inside the i32 range the
      alignment casts it to. */
  const MaxArchiveLength: nat := I32Limit - 4 * Sector

  /** Everything read before the first payload. */
  datatype Directory = Directory(header: ArchiveHeader, entries: seq<IndexEntry>, names: seq<string>)

  /** Where the filename table starts for a table of n index records. */
  function NamesStart(n: nat): nat {
    NextMultiple(HeaderLength + RecordSize * n, Sector) + NamesGap
  }

  /** The directory part of `main`, up to the aligned start of the first
      payload. */
  function DecodeDirectory(data: seq<byte>): (r: Result<Taken<Directory>, Failure>)
    requires |data| <= MaxArchiveLength
    ensures r.Failure? ==> !r.error.EmptyPath? && !r.error.PayloadTruncated? && !r.error.PayloadStalled?
    ensures r.Success? ==>
      && |r.value.value.entries| == r.value.value.header.fileCount
      && |r.value.value.names| == r.value.value.header.fileCount
      && r.value.rest.data == data
      && IsMultipleOf(r.value.rest.pos, Sector)
      && r.value.rest.pos <= |data| + CursorSlack
  {
    var header :- ReadArchiveHeader(Stream(data, 0));
    var n := header.value.fileCount;
    var files :- ReadIndexTable(header.rest, n);
    var aligned := SkipToMultiple(files.rest, Sector);
    var s := Seek(aligned.rest, NamesGap);
    var names :- ReadFilenames(s, n);
    var payloads := SkipToMultiple(names.rest, Sector);
    Success(Taken(Directory(header.value, files.value, names.value), payloads.rest))
  }

  /** The directory's header is the 60 bytes at the start of the input; an
      input shorter than that fails there. */
  lemma DirectoryHeader(data: seq<byte>)
    requires |data| <= MaxArchiveLength
    ensures |data| < HeaderLength <==> DecodeDirectory(data) == Failure(HeaderTruncated)
    ensures DecodeDirectory(data).Success? ==>
      ReadArchiveHeader(Stream(data, 0))
        == Success(Taken(DecodeDirectory(data).value.value.header, Stream(data, HeaderLength)))
  {
    var header := ReadArchiveHeader(Stream(data, 0));
    if header.Success? {
      var n := header.value.value.fileCount;
      var files := ReadIndexTable(header.value.rest, n);
      assert files.Failure? ==> files.error == IndexTruncated;
      if files.Success? {
        var s := Seek(SkipToMultiple(files.value.rest, Sector).rest, NamesGap);
        var names := ReadFilenames(s, n);
        assert names.Failure? ==> names.error != HeaderTruncated;
      }
    }
  }

  /** The directory's entries are the index records that follow the header,
      stably sorted by offset: records with equal offsets keep their table
      order, so each is paired with the same name as in the source. */
  lemma DirectoryIndex(data: seq<byte>)
    requires |data| <= MaxArchiveLength
    ensures DecodeDirectory(data).Success? ==>
      var d := DecodeDirectory(data).value.value;
      && SortedByOffset(d.entries)
      && (d.header.fileCount == 0 ||
          multiset(d.entries) == multiset(OnDiskIndex(data, HeaderLength, d.header.fileCount)))
      && (d.header.fileCount > 0 ==>
          d.entries == SortByOffset(OnDiskIndex(data, HeaderLength, d.header.fileCount)))
  {
    if DecodeDirectory(data).Success? {
      var header := ReadArchiveHeader(Stream(data, 0)).value;
      var n := header.value.fileCount;
      assert header.rest == Stream(data, HeaderLength);
      var files := ReadIndexTable(header.rest, n).value;
      ReadRecordsOnDisk(header.rest, n);
      assert DecodeDirectory(data).value.value.entries == files.value;
    }
  }

  /** The directory's names are laid out as a filename table at the sector
      boundary after the index table, 8 bytes in, and the first payload
      starts at the sector boundary after that table. */
  lemma DirectoryNames(data: seq<byte>)
    requires |data| <= MaxArchiveLength
    ensures DecodeDirectory(data).Success? ==>
      var d := DecodeDirectory(data).value.value;
      exists e :: LaidOut(data, NamesStart(d.header.fileCount), d.names, e)
        && DecodeDirectory(data).value.rest.pos == NextMultiple(e, Sector)
  {
    if DecodeDirectory(data).Success? {
      var header := ReadArchiveHeader(Stream(data, 0)).value;
      var n := header.value.fileCount;
      var files := ReadIndexTable(header.rest, n).value;
      var s := Seek(SkipToMultiple(files.rest, Sector).rest, NamesGap);
      assert s.pos == NamesStart(n);
      ReadNamesLaidOut(s, n, 0);
    }
  }

  /** How one payload copy ended. `Stalled` is a non-final chunk that read
      nothing: the source loops forever there, writing the buffer each time. */
  datatype CopyOutcome = Copied | ShortRead | Stalled

  /** The copy loop of `main` for one payload of `length` bytes. While more
      than a buffer remains, it reads up to a buffer and writes the WHOLE
      buffer, whose tail still holds bytes of earlier chunks after a short
      read; the last chunk is read into a buffer of its own size and must
      read in full. `buffer` is the 4 MiB buffer as the previous payloads
      left it. */
  method CopyPayload(s0: Stream, length: nat, buffer: seq<byte>)
    returns (outcome: CopyOutcome, written: seq<byte>, rest: Stream, buf: seq<byte>)
    requires |buffer| == BufferSize
    ensures rest.data == s0.data && |buf| == BufferSize
    ensures outcome.Copied? <==> length <= Available(s0)
    ensures outcome.Copied? ==>
      && rest.pos == s0.pos + length
      && |written| == length
      && forall i :: 0 <= i < length ==> written[i] == s0.data[s0.pos + i]
    ensures outcome.ShortRead? <==> Available(s0) < length <= Available(s0) + BufferSize
    ensures outcome.Stalled? <==> Available(s0) + BufferSize < length
    ensures !outcome.Copied? ==> |written| % BufferSize == 0
    ensures rest.pos == s0.pos || rest.pos <= |s0.data|
  {
    var s := s0;
    var toRead: nat := length;
    written := [];
    buf := buffer;
    while BufferSize < toRead
      invariant s.data == s0.data && |buf| == BufferSize
      invariant toRead <= length && s.pos == s0.pos + (length - toRead)
      invariant length - toRead <= Available(s0)
      invariant Available(s) == Available(s0) - (length - toRead)
      invariant toRead - Available(s) == length - Available(s0)
      invariant |written| % BufferSize == 0
      invariant length <= Available(s0) ==>
        && |written| == length - toRead
        && forall i :: 0 <= i < |written| ==> written[i] == s0.data[s0.pos + i]
      invariant s.pos == s0.pos || s.pos <= |s0.data|
      decreases toRead
    {
      var chunk := ReadUpTo(s, BufferSize);
      buf := chunk.value + buf[|chunk.value|..];
      written := written + buf;
      if |chunk.value| == 0 {
        return Stalled, written, s, buf;
      }
      toRead := toRead - |chunk.value|;
      s := chunk.rest;
    }
    var last := ReadUpTo(s, toRead);
    if |last.value| != toRead {
      return ShortRead, written, last.rest, buf;
    }
    written := written + last.value;
    return Copied, written, last.rest, buf;
  }

  /** One file written by the run: where it goes and what it holds. */
  datatype OutputFile = OutputFile(target: Target, contents: seq<byte>)

  /** A run either extracts every entry or stops at the first failure; the
      files written up to then stay written. */
  datatype Run =
    | Completed(outputs: seq<OutputFile>)
    | Aborted(outputs: seq<OutputFile>, error: Failure)

  /** Where payload i starts when the first one starts at `first`: each
      payload starts at the first sector boundary after the one before. */
  ghost function PayloadStart(first: nat, entries: seq<IndexEntry>, i: nat): nat
    requires i <= |entries|
  {
    if i == 0 then first
    else NextMultiple(PayloadStart(first, entries, i - 1) + entries[i - 1].length, Sector)
  }

  /** `len` bytes can be read at p. */
  ghost predicate Fits(data: seq<byte>, p: nat, len: nat) {
    len <= Available(Stream(data, p))
  }

  /** The `len` bytes at p. */
  ghost function Payload(data: seq<byte>, p: nat, len: nat): seq<byte>
    requires Fits(data, p, len)
  {
    if len == 0 then [] else data[p..p + len]
  }

  /** Entry i has a non-empty name and a payload that fits. */
  ghost predicate EntryFits(data: seq<byte>, first: nat, entries: seq<IndexEntry>, names: seq<string>, i: nat)
    requires i < |entries| == |names|
  {
    names[i] != "" && Fits(data, PayloadStart(first, entries, i), entries[i].length)
  }

  /** The first k entries can be extracted. */
  ghost predicate ExtractableUpTo(data: seq<byte>, first: nat, entries: seq<IndexEntry>, names: seq<string>, k: nat)
    requires k <= |entries| == |names|
  {
    forall i :: 0 <= i < k ==> EntryFits(data, first, entries, names, i)
  }

  /** Every entry can be extracted. */
  ghost predicate Extractable(data: seq<byte>, first: nat, entries: seq<IndexEntry>, names: seq<string>)
    requires |entries| == |names|
  {
    ExtractableUpTo(data, first, entries, names, |entries|)
  }

  /** The file entry i should produce: its name's target, holding its payload. */
  ghost function ExpectedFile(data: seq<byte>, first: nat, entries: seq<IndexEntry>, names: seq<string>, i: nat): OutputFile
    requires i < |entries| == |names|
    requires EntryFits(data, first, entries, names, i)
  {
    FileFromPathFails(names[i], i);
    OutputFile(FileFromPath(names[i], i).value,
               Payload(data, PayloadStart(first, entries, i), entries[i].length))
  }

  /** The files the first k entries should produce, in order. */
  ghost function ExpectedFiles(data: seq<byte>, first: nat, entries: seq<IndexEntry>, names: seq<string>, k: nat): (r: seq<OutputFile>)
    requires k <= |entries| == |names|
    requires ExtractableUpTo(data, first, entries, names, k)
    ensures |r| == k
  {
    if k == 0 then []
    else
      assert ExtractableUpTo(data, first, entries, names, k - 1);
      ExpectedFiles(data, first, entries, names, k - 1) + [ExpectedFile(data, first, entries, names, k - 1)]
  }

  /** File i of the expected files is the one entry i should produce: the
      i-th entry of the sorted index is paired with the i-th name. */
  lemma {:induction false} ExpectedFilesAt(
    data: seq<byte>, first: nat, entries: seq<IndexEntry>, names: seq<string>, k: nat, i: nat)
    requires k <= |entries| == |names|
    requires ExtractableUpTo(data, first, entries, names, k)
    requires i < k
    ensures ExpectedFiles(data, first, entries, names, k)[i] == ExpectedFile(data, first, entries, names, i)
    decreases k
  {
    assert ExtractableUpTo(data, first, entries, names, k - 1);
    if i < k - 1 {
      ExpectedFilesAt(data, first, entries, names, k - 1, i);
    } else if k > 1 {
      ExpectedFilesAt(data, first, entries, names, k - 1, 0);
    }
  }

  /** How a run that aborts has ended: at entry k, the first entry that has
      an empty name or a payload that does not fit, with the files of the
      entries before it written in full and, unless the name was empty, the
      file of entry k holding what its copy wrote. A payload that does not
      fit stalls (the source's endless loop) exactly when more than a buffer
      of it lies past the end of the input, and reads short otherwise. */
  ghost predicate StoppedAt(
    data: seq<byte>, first: nat, entries: seq<IndexEntry>, names: seq<string>,
    outputs: seq<OutputFile>, error: Failure)
    requires |entries| == |names|
  {
    && (error.EmptyPath? || error.PayloadTruncated? || error.PayloadStalled?)
    && var k := error.entry;
    && k < |entries|
    && ExtractableUpTo(data, first, entries, names, k)
    && !EntryFits(data, first, entries, names, k)
    && (error.EmptyPath? <==> names[k] == "")
    && (!error.EmptyPath? ==>
          (error.PayloadStalled? <==>
             Available(Stream(data, PayloadStart(first, entries, k))) + BufferSize < entries[k].length))
    && |outputs| == (if error.EmptyPath? then k else k + 1)
    && (!error.EmptyPath? ==>
          && FileFromPath(names[k], k).Success?
          && outputs[k].target == FileFromPath(names[k], k).value
          && |outputs[k].contents| % BufferSize == 0)
    && outputs[..k] == ExpectedFiles(data, first, entries, names, k)
  }

  /** One pass of the payload loop of `main`: the target of the name (no
      file for an empty name), the copy of `length` bytes into it, and the
      alignment after the copy. For an empty name no copy happens: the
      `outcome` returned then is a placeholder that carries no meaning. */
  method ExtractEntry(s: Stream, length: nat, name: string, i: nat, buffer: seq<byte>)
    returns (file: Option<OutputFile>, outcome: CopyOutcome, rest: Stream, buf: seq<byte>)
    requires |s.data| <= MaxArchiveLength && s.pos <= |s.data| + CursorSlack
    requires IsMultipleOf(s.pos, Sector)
    requires |buffer| == BufferSize
    ensures |buf| == BufferSize
    ensures file.None? <==> name == ""
    ensures file.Some? ==> FileFromPath(name, i) == Success(file.value.target)
    ensures file.Some? ==> (outcome.Copied? <==> Fits(s.data, s.pos, length))
    ensures file.Some? ==> (outcome.Stalled? <==> Available(s) + BufferSize < length)
    ensures file.Some? && !outcome.Copied? ==> |file.value.contents| % BufferSize == 0
    ensures file.Some? && outcome.Copied? ==>
      && file.value.contents == Payload(s.data, s.pos, length)
      && rest == Stream(s.data, NextMultiple(s.pos + length, Sector))
      && rest.pos <= |s.data| + CursorSlack
  {
    var target := FileFromPath(name, i);
    FileFromPathFails(name, i);
    if target.Failure? {
      return None, ShortRead, s, buffer;
    }
    var written, copied;
    outcome, written, copied, buf := CopyPayload(s, length, buffer);
    file := Some(OutputFile(target.value, written));
    rest := s;
    if outcome.Copied? {
      assert written == Payload(s.data, s.pos, length);
      rest := SkipToMultiple(copied, Sector).rest;
    }
  }

  /** The payload loop of `main`: entry i of the sorted index is paired with
      name i of the table, and the payloads are copied from `first` on. The
      run stops at the first entry with an empty name or a payload that does
      not fit, after writing what that entry's copy wrote. */
  method ExtractEntries(data: seq<byte>, first: nat, entries: seq<IndexEntry>, names: seq<string>)
    returns (run: Run)
    requires |data| <= MaxArchiveLength && first <= |data| + CursorSlack
    requires IsMultipleOf(first, Sector)
    requires |entries| == |names|
    ensures run.Completed? <==> Extractable(data, first, entries, names)
    ensures run.Completed? ==> run.outputs == ExpectedFiles(data, first, entries, names, |entries|)
    ensures run.Aborted? ==> StoppedAt(data, first, entries, names, run.outputs, run.error)
  {
    var s := Stream(data, first);
    var buf := seq(BufferSize, _ => 0 as byte);
    var outputs := [];
    var i := 0;
    while i < |entries|
      invariant 0 <= i <= |entries|
      invariant s == Stream(data, PayloadStart(first, entries, i))
      invariant s.pos <= |data| + CursorSlack && IsMultipleOf(s.pos, Sector)
      invariant |buf| == BufferSize
      invariant ExtractableUpTo(data, first, entries, names, i)
      invariant outputs == ExpectedFiles(data, first, entries, names, i)
    {
      var file, outcome, rest, nextBuf := ExtractEntry(s, entries[i].length, names[i], i, buf);
      if file.None? {
        StopAtEmptyName(data, first, entries, names, outputs, i);
        return Aborted(outputs, EmptyPath(i));
      }
      if !outcome.Copied? {
        var error := if outcome.ShortRead? then PayloadTruncated(i) else PayloadStalled(i);
        StopAtShortPayload(data, first, entries, names, outputs, file.value, error);
        return Aborted(outputs + [file.value], error);
      }
      ExtractStep(data, first, entries, names, outputs, file.value, i);
      outputs := outputs + [file.value];
      buf := nextBuf;
      s := rest;
      i := i + 1;
    }
    return Completed(outputs);
  }

  /** An entry with an empty name stops the run before it writes anything. */
  lemma StopAtEmptyName(
    data: seq<byte>, first: nat, entries: seq<IndexEntry>, names: seq<string>,
    outputs: seq<OutputFile>, i: nat)
    requires i < |entries| == |names|
    requires ExtractableUpTo(data, first, entries, names, i)
    requires outputs == ExpectedFiles(data, first, entries, names, i)
    requires names[i] == ""
    ensures StoppedAt(data, first, entries, names, outputs, EmptyPath(i))
  {
    assert outputs[..i] == outputs;
  }

  /** A payload that does not fit stops the run after its partial file. */
  lemma StopAtShortPayload(
    data: seq<byte>, first: nat, entries: seq<IndexEntry>, names: seq<string>,
    outputs: seq<OutputFile>, file: OutputFile, error: Failure)
    requires (error.PayloadTruncated? || error.PayloadStalled?) && error.entry < |entries| == |names|
    requires ExtractableUpTo(data, first, entries, names, error.entry)
    requires outputs == ExpectedFiles(data, first, entries, names, error.entry)
    requires names[error.entry] != ""
    requires !Fits(data, PayloadStart(first, entries, error.entry), entries[error.entry].length)
    requires error.PayloadStalled? <==>
      Available(Stream(data, PayloadStart(first, entries, error.entry))) + BufferSize < entries[error.entry].length
    requires FileFromPath(names[error.entry], error.entry) == Success(file.target)
    requires |file.contents| % BufferSize == 0
    ensures StoppedAt(data, first, entries, names, outputs + [file], error)
  {
    assert (outputs + [file])[..error.entry] == outputs;
  }

  /** A copied entry extends the expected files by its own. */
  lemma ExtractStep(
    data: seq<byte>, first: nat, entries: seq<IndexEntry>, names: seq<string>,
    outputs: seq<OutputFile>, file: OutputFile, i: nat)
    requires i < |entries| == |names|
    requires ExtractableUpTo(data, first, entries, names, i)
    requires outputs == ExpectedFiles(data, first, entries, names, i)
    requires FileFromPath(names[i], i) == Success(file.target)
    requires Fits(data, PayloadStart(first, entries, i), entries[i].length)
    requires file.contents == Payload(data, PayloadStart(first, entries, i), entries[i].length)
    ensures ExtractableUpTo(data, first, entries, names, i + 1)
    ensures outputs + [file] == ExpectedFiles(data, first, entries, names, i + 1)
  {
    FileFromPathFails(names[i], i);
    assert EntryFits(data, first, entries, names, i);
  }

  /** `main` after the input file is open: decode the directory, then
      extract every entry, writing file i from entry i of the sorted index
      and name i of the table. */
  method Extract(data: seq<byte>) returns (run: Run)
    requires |data| <= MaxArchiveLength
    ensures DecodeDirectory(data).Failure? ==> run == Aborted([], DecodeDirectory(data).error)
    ensures DecodeDirectory(data).Success? ==>
      var d := DecodeDirectory(data).value.value;
      var first := DecodeDirectory(data).value.rest.pos;
      && (run.Completed? <==> Extractable(data, first, d.entries, d.names))
      && (run.Completed? ==> run.outputs == ExpectedFiles(data, first, d.entries, d.names, |d.entries|))
      && (run.Aborted? ==> StoppedAt(data, first, d.entries, d.names, run.outputs, run.error))
  {
    var directory := DecodeDirectory(data);
    if directory.Failure? {
      return Aborted([], directory.error);
    }
    var d := directory.value.value;
    run := ExtractEntries(data, directory.value.rest.pos, d.entries, d.names);
  }

  /** Every payload after the first starts on a sector boundary, and so does
      the first when the directory ends on one. */
  lemma PayloadsAligned(first: nat, entries: seq<IndexEntry>, i: nat)
    requires i <= |entries|
    requires IsMultipleOf(first, Sector)
    ensures IsMultipleOf(PayloadStart(first, entries, i), Sector)
  {
  }

  /** Payloads follow each other without overlapping: payload i ends before
      payload j starts whenever i < j. */
  lemma {:induction false} PayloadsDisjoint(first: nat, entries: seq<IndexEntry>, i: nat, j: nat)
    requires i < j <= |entries|
    ensures PayloadStart(first, entries, i) + entries[i].length <= PayloadStart(first, entries, j)
    decreases j
  {
    if i < j - 1 {
      PayloadsDisjoint(first, entries, i, j - 1);
    }
  }

  /** The stored offsets do not decide where a payload is read from: two
      index tables with the same lengths in the same order give the same
      payload starts. */
  lemma {:induction false} StartsIgnoreOffsets(first: nat, a: seq<IndexEntry>, b: seq<IndexEntry>, i: nat)
    requires |a| == |b| && i <= |a|
    requires forall j :: 0 <= j < |a| ==> a[j].length == b[j].length
    ensures PayloadStart(first, a, i) == PayloadStart(first, b, i)
    decreases i
  {
    if i > 0 {
      StartsIgnoreOffsets(first, a, b, i - 1);
      assert a[i - 1].length == b[i - 1].length;
    }
  }
}
