/**
 * The filename table (`read_filenames`): n variable-length records in table
 * order. A record is 12 reserved bytes, a little-endian u32 length that counts
 * a NUL terminator, length - 1 name bytes, and a fixed 4-byte skip (the
 * terminator and three more bytes).
 */
module FilenameTable {
  import opened Wrappers
  import opened Bytes
  import opened Input
  import opened Errors
  import Utf8

  /** Bytes a record with stored length `len` takes: 12 + 4 + (len - 1) + 4. */
  function RecordLength(len: nat): nat
    requires 1 <= len
  {
    12 + 4 + (len - 1) + 4
  }

  /** The stored length field of the record at p. */
  function StoredLength(data: seq<byte>, p: nat): u32
    requires p + 16 <= |data|
  {
    LeU32At(data, p + 12)
  }

  /** One record, as the stream calls of `read_filenames` read it: skip the
      reserved bytes, read the length, refuse a zero length, read length - 1
      bytes, skip the 4 trailing bytes, then check the name is UTF-8.
      `entry` is the record's position in the table, for error reports. */
  function ReadNameRecordBySteps(s: Stream, entry: nat): (r: Result<Taken<string>, Failure>)
    ensures r.Success? ==> r.value.rest.data == s.data
  {
    var s := Seek(s, 4 * 3);
    var nameLength :- ReadU32(s).ToResult(FilenamesTruncated);
    if nameLength.value == 0 then Failure(ZeroNameLength(entry))
    else
      var raw :- ReadExact(nameLength.rest, nameLength.value - 1).ToResult(FilenamesTruncated);
      var s := Seek(raw.rest, 4);
      match Utf8.Decode(raw.value)
      case None => Failure(MalformedName(entry))
      case Some(name) => Success(Taken(name, s))
  }

  /** One record, stated over the bytes: the 16 fixed bytes must be there,
      the length must not be zero, the length - 1 name bytes must be there
      and be well-formed UTF-8. The 4 trailing bytes need not exist: a seek
      past the end does not fail. */
  function ReadNameRecord(s: Stream, entry: nat): (r: Result<Taken<string>, Failure>)
    ensures r.Success? ==> r.value.rest.data == s.data && s.pos + 20 <= r.value.rest.pos <= |s.data| + 4
    ensures r.Failure? ==>
      r.error == FilenamesTruncated || r.error == ZeroNameLength(entry) || r.error == MalformedName(entry)
  {
    if |s.data| < s.pos + 16 then Failure(FilenamesTruncated)
    else
      var len := StoredLength(s.data, s.pos);
      if len == 0 then Failure(ZeroNameLength(entry))
      else if |s.data| < s.pos + 16 + (len - 1) then Failure(FilenamesTruncated)
      else
        match Utf8.Decode(s.data[s.pos + 16..s.pos + 16 + (len - 1)])
        case None => Failure(MalformedName(entry))
        case Some(name) => Success(Taken(name, Stream(s.data, s.pos + RecordLength(len))))
  }

  /** The two readings of a record agree on every input. */
  lemma RecordReadsAgree(s: Stream, entry: nat)
    ensures ReadNameRecordBySteps(s, entry) == ReadNameRecord(s, entry)
  {
    if s.pos + 16 <= |s.data| {
      var len := StoredLength(s.data, s.pos);
      assert ReadU32(Seek(s, 4 * 3)) == Some(Taken(len, Stream(s.data, s.pos + 16)));
      if 0 < len && s.pos + 16 + (len - 1) <= |s.data| {
        var raw := ReadExact(Stream(s.data, s.pos + 16), len - 1);
        assert raw.Some? && raw.value.value == s.data[s.pos + 16..s.pos + 16 + (len - 1)];
      }
    }
  }

  /** The record at p reads as `name`: its length field is at least one and
      is followed by that many bytes less one, which are the UTF-8 form of
      `name`. */
  ghost predicate NameAt(data: seq<byte>, p: nat, name: string) {
    && p + 16 <= |data|
    && 1 <= StoredLength(data, p)
    && p + 16 + (StoredLength(data, p) - 1) <= |data|
    && Utf8.Decode(data[p + 16..p + 16 + (StoredLength(data, p) - 1)]) == Some(name)
  }

  /** The table layout: from byte p on, one record per name in this order,
      the last one ending at `end`. */
  ghost predicate LaidOut(data: seq<byte>, p: nat, names: seq<string>, end: nat)
    decreases |names|
  {
    if |names| == 0 then end == p
    else
      && NameAt(data, p, names[0])
      && LaidOut(data, p + RecordLength(StoredLength(data, p)), names[1..], end)
  }

  /** A record reads as `name` exactly when `NameAt` holds, and the cursor
      then moves past the whole record. */
  lemma NameAtReads(data: seq<byte>, p: nat, name: string, entry: nat)
    ensures NameAt(data, p, name) <==>
      && p + 16 <= |data|
      && 1 <= StoredLength(data, p)
      && ReadNameRecord(Stream(data, p), entry)
         == Success(Taken(name, Stream(data, p + RecordLength(StoredLength(data, p)))))
  {
  }

  /** `count` records; the first is entry `first` of the table. */
  function ReadNamesFrom(s: Stream, count: nat, first: nat): (r: Result<Taken<seq<string>>, Failure>)
    decreases count
    ensures r.Success? ==> |r.value.value| == count
    ensures r.Success? ==> r.value.rest.data == s.data
    ensures r.Success? && 0 < count ==> r.value.rest.pos <= |s.data| + 4
    ensures r.Failure? ==> r.error == FilenamesTruncated || r.error.ZeroNameLength? || r.error.MalformedName?
    ensures r.Failure? && (r.error.ZeroNameLength? || r.error.MalformedName?) ==>
      first <= r.error.entry < first + count
  {
    if count == 0 then Success(Taken([], s))
    else
      var name :- ReadNameRecord(s, first);
      var more :- ReadNamesFrom(name.rest, count - 1, first + 1);
      assert ([name.value] + more.value)[1..] == more.value;
      Success(Taken([name.value] + more.value, more.rest))
  }

  /** `read_filenames`: all n names in table order, or the first failure. */
  function ReadFilenames(s: Stream, n: nat): (r: Result<Taken<seq<string>>, Failure>)
    ensures r.Success? ==> |r.value.value| == n
    ensures r.Success? ==> r.value.rest.data == s.data
    ensures r.Success? && 0 < n ==> r.value.rest.pos <= |s.data| + 4
    ensures r.Failure? ==> r.error == FilenamesTruncated || r.error.ZeroNameLength? || r.error.MalformedName?
    ensures r.Failure? && (r.error.ZeroNameLength? || r.error.MalformedName?) ==> r.error.entry < n
  {
    ReadNamesFrom(s, n, 0)
  }

  /** Every table laid out for `names` reads back as exactly `names`, ending
      where the layout ends. */
  lemma {:induction false} LaidOutReads(data: seq<byte>, p: nat, names: seq<string>, end: nat, first: nat)
    requires LaidOut(data, p, names, end)
    ensures ReadNamesFrom(Stream(data, p), |names|, first) == Success(Taken(names, Stream(data, end)))
    decreases |names|
  {
    if |names| > 0 {
      var next := p + RecordLength(StoredLength(data, p));
      LaidOutReads(data, next, names[1..], end, first + 1);
      NameAtReads(data, p, names[0], first);
      ReadNamesUnfold(Stream(data, p), |names|, first);
      assert [names[0]] + names[1..] == names;
    }
  }

  /** Whatever a successful read returns is laid out as a table of those
      names, ending where the read stopped. */
  lemma {:induction false} ReadNamesLaidOut(s: Stream, count: nat, first: nat)
    requires ReadNamesFrom(s, count, first).Success?
    ensures LaidOut(s.data, s.pos, ReadNamesFrom(s, count, first).value.value,
                    ReadNamesFrom(s, count, first).value.rest.pos)
    decreases count
  {
    if count > 0 {
      var name := ReadNameRecord(s, first).value;
      var more := ReadNamesFrom(name.rest, count - 1, first + 1).value;
      ReadNamesUnfold(s, count, first);
      ReadNamesLaidOut(name.rest, count - 1, first + 1);
      NameAtReads(s.data, s.pos, name.value, first);
      assert ([name.value] + more.value)[1..] == more.value;
    }
  }

  /** Reading succeeds with `names`, ending at `end`, exactly when the bytes
      are laid out as a table of `names`. */
  lemma ReadNamesIff(data: seq<byte>, p: nat, names: seq<string>, end: nat, first: nat)
    ensures ReadNamesFrom(Stream(data, p), |names|, first) == Success(Taken(names, Stream(data, end)))
        <==> LaidOut(data, p, names, end)
  {
    if LaidOut(data, p, names, end) {
      LaidOutReads(data, p, names, end, first);
    }
    if ReadNamesFrom(Stream(data, p), |names|, first) == Success(Taken(names, Stream(data, end))) {
      ReadNamesLaidOut(Stream(data, p), |names|, first);
    }
  }

  /** `names` in front of what a read returned; a failure stays a failure. */
  function Prepend(names: seq<string>, r: Result<Taken<seq<string>>, Failure>): (p: Result<Taken<seq<string>>, Failure>)
    ensures p.Success? <==> r.Success?
    ensures p.Success? ==> p.value.value == names + r.value.value && p.value.rest == r.value.rest
    ensures p.Failure? ==> p.error == r.error
  {
    match r
    case Success(t) => Success(Taken(names + t.value, t.rest))
    case Failure(e) => Failure(e)
  }

  /** One unfolding of `ReadNamesFrom` after a record that reads. */
  lemma ReadNamesUnfold(s: Stream, n: nat, first: nat)
    requires n > 0 && ReadNameRecord(s, first).Success?
    ensures ReadNamesFrom(s, n, first)
      == Prepend([ReadNameRecord(s, first).value.value],
                 ReadNamesFrom(ReadNameRecord(s, first).value.rest, n - 1, first + 1))
  {
  }

  /** A record that cannot be read aborts the whole table with that record's
      error: the names read before it are not returned. */
  lemma {:induction false} FailedRecordAborts(
    data: seq<byte>, p: nat, names: seq<string>, q: nat, count: nat, first: nat)
    requires LaidOut(data, p, names, q)
    requires |names| < count
    requires ReadNameRecord(Stream(data, q), first + |names|).Failure?
    ensures ReadNamesFrom(Stream(data, p), count, first)
      == Failure(ReadNameRecord(Stream(data, q), first + |names|).error)
    decreases |names|
  {
    if |names| > 0 {
      var next := p + RecordLength(StoredLength(data, p));
      FailedRecordAborts(data, next, names[1..], q, count - 1, first + 1);
      NameAtReads(data, p, names[0], first);
      ReadNamesUnfold(Stream(data, p), count, first);
    }
  }

  /** The record at p holds `bytes` as its name: its length field is one
      more than the name's length and the name bytes follow it. */
  ghost predicate HoldsName(data: seq<byte>, p: nat, bytes: seq<byte>) {
    && p + 16 + |bytes| <= |data|
    && StoredLength(data, p) == |bytes| + 1
    && data[p + 16..p + 16 + |bytes|] == bytes
  }

  /** A record reads as `name` exactly when it holds the UTF-8 form of `name`. */
  lemma NameAtIff(data: seq<byte>, p: nat, name: string)
    ensures NameAt(data, p, name) <==> HoldsName(data, p, Utf8.Encode(name))
  {
    var bytes := Utf8.Encode(name);
    if NameAt(data, p, name) {
      var len := StoredLength(data, p);
      Utf8.EncodeDecode(data[p + 16..p + 16 + (len - 1)]);
    }
    if HoldsName(data, p, bytes) {
      Utf8.DecodeOfEncoding(name, bytes);
    }
  }

  /** A record holding `bytes` as its name, with zeros in the reserved and
      padding bytes (the first padding byte is the terminator). */
  function RawRecord(bytes: seq<byte>): (r: seq<byte>)
    requires |bytes| + 1 < U32Limit
    ensures |r| == RecordLength(|bytes| + 1)
  {
    Zeros(12) + U32Le(|bytes| + 1) + bytes + Zeros(4)
  }

  /** A name whose length field fits in a u32. */
  predicate Storable(name: string) {
    |Utf8.Encode(name)| + 1 < U32Limit
  }

  /** The table that stores `names` in this order. */
  function NameTable(names: seq<string>): seq<byte>
    requires forall name :: name in names ==> Storable(name)
  {
    if |names| == 0 then []
    else
      assert names[0] in names;
      assert Storable(names[0]);
      RawRecord(Utf8.Encode(names[0])) + NameTable(names[1..])
  }

  /** A raw record found at byte p holds its name bytes. */
  lemma RawRecordAt(data: seq<byte>, p: nat, bytes: seq<byte>)
    requires |bytes| + 1 < U32Limit
    requires p + |RawRecord(bytes)| <= |data| && data[p..p + |RawRecord(bytes)|] == RawRecord(bytes)
    ensures HoldsName(data, p, bytes)
  {
    var rec := RawRecord(bytes);
    var len := U32Le(|bytes| + 1);
    assert rec[12..16] == len;
    assert forall i :: 0 <= i < |rec| ==> data[p + i] == rec[i];
    assert data[p + 12] == len[0] && data[p + 13] == len[1] && data[p + 14] == len[2] && data[p + 15] == len[3];
    assert rec[16..16 + |bytes|] == bytes;
    assert data[p + 16..p + 16 + |bytes|] == rec[16..16 + |bytes|];
  }

  /** A window holding a + b holds a, then b. */
  lemma WindowSplit(data: seq<byte>, p: nat, a: seq<byte>, b: seq<byte>)
    requires p + |a| + |b| <= |data| && data[p..p + |a| + |b|] == a + b
    ensures data[p..p + |a|] == a
    ensures data[p + |a|..p + |a| + |b|] == b
  {
    assert data[p..p + |a|] == (a + b)[..|a|];
    assert data[p + |a|..p + |a| + |b|] == (a + b)[|a|..];
  }

  /** A table written by `NameTable` has the table layout of its names. */
  lemma {:induction false} NameTableLaidOut(data: seq<byte>, p: nat, names: seq<string>, end: nat)
    requires forall name :: name in names ==> Storable(name)
    requires end == p + |NameTable(names)| && end <= |data| && data[p..end] == NameTable(names)
    ensures LaidOut(data, p, names, end)
    decreases |names|
  {
    if |names| > 0 {
      assert names[0] in names;
      var bytes := Utf8.Encode(names[0]);
      var rec := RawRecord(bytes);
      var tail := NameTable(names[1..]);
      assert NameTable(names) == rec + tail;
      WindowSplit(data, p, rec, tail);
      RawRecordAt(data, p, bytes);
      NameAtIff(data, p, names[0]);
      var next := p + |rec|;
      NameTableLaidOut(data, next, names[1..], end);
      LaidOutCons(data, p, names[0], names[1..], next, end);
      assert [names[0]] + names[1..] == names;
    }
  }

  /** A record for `name` followed by a table of `names` is a table of both. */
  lemma LaidOutCons(data: seq<byte>, p: nat, name: string, names: seq<string>, next: nat, end: nat)
    requires NameAt(data, p, name) && next == p + RecordLength(StoredLength(data, p))
    requires LaidOut(data, next, names, end)
    ensures LaidOut(data, p, [name] + names, end)
  {
    assert ([name] + names)[1..] == names;
  }

  /** Decoding a stored table gives back its names in table order and stops
      right after the last record, at `end`. */
  lemma NameTableRoundTrip(data: seq<byte>, p: nat, names: seq<string>, end: nat, first: nat)
    requires forall name :: name in names ==> Storable(name)
    requires end == p + |NameTable(names)| && end <= |data| && data[p..end] == NameTable(names)
    ensures ReadNamesFrom(Stream(data, p), |names|, first) == Success(Taken(names, Stream(data, end)))
  {
    NameTableLaidOut(data, p, names, end);
    LaidOutReads(data, p, names, end, first);
  }
}
