/** The index table (`RCFile`, `read_number_of_files`): n fixed 12-byte
    records, then a stable sort by offset (`sort_by` is a stable sort). */
module IndexTable {
  import opened Wrappers
  import opened Bytes
  import opened Input
  import opened Errors

  /** Bytes taken by one record: 4 reserved, then offset and length. */
  const RecordSize: nat := 12

  /** One archived file: where its payload claims to start, and its size. */
  datatype IndexEntry = IndexEntry(offset: u32, length: u32)

  /** The record stored at byte p. */
  function RecordAt(data: seq<byte>, p: nat): IndexEntry
    requires p + RecordSize <= |data|
  {
    IndexEntry(LeU32At(data, p + 4), LeU32At(data, p + 8))
  }

  /** The n records stored from byte p on, in table order. */
  function OnDiskIndex(data: seq<byte>, p: nat, n: nat): (r: seq<IndexEntry>)
    requires p + RecordSize * n <= |data|
    ensures |r| == n
  {
    seq(n, i requires 0 <= i < n => RecordAt(data, p + RecordSize * i))
  }

  lemma OnDiskIndexUnfold(data: seq<byte>, p: nat, n: nat)
    requires 0 < n && p + RecordSize * n <= |data|
    ensures OnDiskIndex(data, p, n) == [RecordAt(data, p)] + OnDiskIndex(data, p + RecordSize, n - 1)
  {
    var tail := OnDiskIndex(data, p + RecordSize, n - 1);
    forall i | 1 <= i < n
      ensures OnDiskIndex(data, p, n)[i] == tail[i - 1]
    {
      assert p + RecordSize * i == p + RecordSize + RecordSize * (i - 1);
    }
  }

  /** One record: skip 4 bytes, then read offset and length. */
  function ReadRecordBySteps(s: Stream): (r: Option<Taken<IndexEntry>>)
    ensures r.Some? <==> s.pos + RecordSize <= |s.data|
    ensures r.Some? ==> r.value == Taken(RecordAt(s.data, s.pos), Stream(s.data, s.pos + RecordSize))
  {
    var s := Seek(s, 4);
    var offset :- ReadU32(s);
    var length :- ReadU32(offset.rest);
    Some(Taken(IndexEntry(offset.value, length.value), length.rest))
  }

  /** The same read in one step; ReadRecordBySteps's contract says the two
      agree. */
  function ReadRecord(s: Stream): Option<Taken<IndexEntry>> {
    if s.pos + RecordSize <= |s.data| then
      Some(Taken(RecordAt(s.data, s.pos), Stream(s.data, s.pos + RecordSize)))
    else None
  }

  /** The loop of `read_number_of_files`: n records in table order. */
  function ReadRecords(s: Stream, n: nat): (r: Result<Taken<seq<IndexEntry>>, Failure>)
    decreases n
    ensures r.Success? <==> n == 0 || s.pos + RecordSize * n <= |s.data|
    ensures r.Failure? ==> r.error == IndexTruncated
    ensures r.Success? ==> r.value.rest == Stream(s.data, s.pos + RecordSize * n)
    ensures r.Success? ==> |r.value.value| == n
  {
    if n == 0 then Success(Taken([], s))
    else
      TableStep(n);
      match ReadRecord(s)
      case None => Failure(IndexTruncated)
      case Some(first) =>
        match ReadRecords(first.rest, n - 1)
        case Failure(e) => Failure(e)
        case Success(more) =>
          Success(Taken([first.value] + more.value, more.rest))
  }

  /** The records read are exactly the records stored, in table order. */
  lemma {:induction false} ReadRecordsOnDisk(s: Stream, n: nat)
    requires ReadRecords(s, n).Success?
    ensures 0 < n ==> ReadRecords(s, n).value.value == OnDiskIndex(s.data, s.pos, n)
    decreases n
  {
    if n == 0 { return; }
    TableStep(n);
    var first := ReadRecord(s).value;
    var more := ReadRecords(first.rest, n - 1).value;
    assert ReadRecords(s, n).value.value == [first.value] + more.value;
    assert first.rest == Stream(s.data, s.pos + RecordSize);
    OnDiskIndexUnfold(s.data, s.pos, n);
    if n == 1 {
      assert |more.value| == 0;
    } else {
      ReadRecordsOnDisk(first.rest, n - 1);
    }
  }

  /** A table of n records is one record and a table of n - 1. */
  lemma TableStep(n: nat)
    requires n > 0
    ensures RecordSize * n == RecordSize * (n - 1) + RecordSize
  {
  }

  predicate SortedByOffset(xs: seq<IndexEntry>) {
    forall i, j :: 0 <= i < j < |xs| ==> xs[i].offset <= xs[j].offset
  }

  /** The entries of xs whose offset is k, in the order they occur in xs. */
  function WithOffset(xs: seq<IndexEntry>, k: u32): seq<IndexEntry> {
    if |xs| == 0 then []
    else (if xs[0].offset == k then [xs[0]] else []) + WithOffset(xs[1..], k)
  }

  /** A stable reordering keeps, for every offset, the entries with that
      offset in their original relative order. */
  ghost predicate StableFor(r: seq<IndexEntry>, xs: seq<IndexEntry>) {
    forall k :: WithOffset(r, k) == WithOffset(xs, k)
  }

  /** Inserts x before the first entry whose offset is not smaller. */
  function InsertByOffset(x: IndexEntry, ys: seq<IndexEntry>): (r: seq<IndexEntry>)
    ensures |r| == |ys| + 1
    ensures multiset(r) == multiset(ys) + multiset{x}
  {
    if |ys| == 0 || x.offset <= ys[0].offset then [x] + ys
    else
      assert ys == [ys[0]] + ys[1..];
      [ys[0]] + InsertByOffset(x, ys[1..])
  }

  /** Rust's stable `sort_by`, keyed on `offset`. */
  function SortByOffset(xs: seq<IndexEntry>): (r: seq<IndexEntry>)
    ensures |r| == |xs|
    ensures SortedByOffset(r)
    ensures multiset(r) == multiset(xs)
  {
    if |xs| == 0 then []
    else
      assert xs == [xs[0]] + xs[1..];
      var rest := SortByOffset(xs[1..]);
      InsertKeepsSorted(xs[0], rest);
      InsertByOffset(xs[0], rest)
  }

  lemma {:induction false} InsertKeepsSorted(x: IndexEntry, ys: seq<IndexEntry>)
    requires SortedByOffset(ys)
    ensures SortedByOffset(InsertByOffset(x, ys))
    decreases |ys|
  {
    if |ys| > 0 && x.offset > ys[0].offset {
      var rest := InsertByOffset(x, ys[1..]);
      InsertKeepsSorted(x, ys[1..]);
      InsertKeepsBound(x, ys[1..], ys[0].offset);
      var r := [ys[0]] + rest;
      forall i, j | 0 <= i < j < |r|
        ensures r[i].offset <= r[j].offset
      {
        if i > 0 {
          assert r[i] == rest[i - 1] && r[j] == rest[j - 1];
        } else {
          assert r[j] == rest[j - 1];
        }
      }
    }
  }

  /** Inserting keeps a lower bound on the offsets that x and ys respect. */
  lemma {:induction false} InsertKeepsBound(x: IndexEntry, ys: seq<IndexEntry>, b: u32)
    requires b <= x.offset
    requires forall i :: 0 <= i < |ys| ==> b <= ys[i].offset
    ensures forall j :: 0 <= j < |ys| + 1 ==> b <= InsertByOffset(x, ys)[j].offset
    decreases |ys|
  {
    if |ys| > 0 && x.offset > ys[0].offset {
      InsertKeepsBound(x, ys[1..], b);
      var rest := InsertByOffset(x, ys[1..]);
      assert forall j :: 1 <= j < |ys| + 1 ==> InsertByOffset(x, ys)[j] == rest[j - 1];
    }
  }

  lemma {:induction false} InsertIsStable(x: IndexEntry, ys: seq<IndexEntry>, k: u32)
    ensures WithOffset(InsertByOffset(x, ys), k) == (if x.offset == k then [x] else []) + WithOffset(ys, k)
    decreases |ys|
  {
    if |ys| == 0 || x.offset <= ys[0].offset {
      assert ([x] + ys)[1..] == ys;
    } else {
      var rest := InsertByOffset(x, ys[1..]);
      assert ([ys[0]] + rest)[1..] == rest;
      InsertIsStable(x, ys[1..], k);
    }
  }

  /** The sort is stable: entries sharing an offset keep their table order. */
  lemma {:induction false} SortIsStable(xs: seq<IndexEntry>)
    ensures StableFor(SortByOffset(xs), xs)
    decreases |xs|
  {
    if |xs| > 0 {
      forall k {
        SortIsStableAt(xs, k);
      }
    }
  }

  lemma {:induction false} SortIsStableAt(xs: seq<IndexEntry>, k: u32)
    ensures WithOffset(SortByOffset(xs), k) == WithOffset(xs, k)
    decreases |xs|
  {
    if |xs| > 0 {
      InsertIsStable(xs[0], SortByOffset(xs[1..]), k);
      SortIsStableAt(xs[1..], k);
    }
  }

  lemma WithOffsetMember(xs: seq<IndexEntry>, k: u32)
    ensures |WithOffset(xs, k)| > 0 <==> exists i :: 0 <= i < |xs| && xs[i].offset == k
    ensures |WithOffset(xs, k)| > 0 ==> WithOffset(xs, k)[0].offset == k
  {
    if |xs| > 0 {
      WithOffsetMember(xs[1..], k);
      if xs[0].offset != k && |WithOffset(xs[1..], k)| > 0 {
        var i :| 0 <= i < |xs[1..]| && xs[1..][i].offset == k;
        assert xs[i + 1].offset == k;
      }
      if |WithOffset(xs, k)| == 0 {
        assert xs[0].offset != k;
        forall i | 0 <= i < |xs| ensures xs[i].offset != k {
          if i > 0 { assert xs[1..][i - 1] == xs[i]; }
        }
      }
    }
  }

  /** A sorted, stable reordering is unique: whatever stable sort produced it,
      it is exactly SortByOffset's result. */
  lemma {:induction false} StableSortIsUnique(a: seq<IndexEntry>, b: seq<IndexEntry>)
    requires SortedByOffset(a) && SortedByOffset(b)
    requires forall k :: WithOffset(a, k) == WithOffset(b, k)
    ensures a == b
    decreases |a|
  {
    if |a| == 0 {
      if |b| > 0 {
        WithOffsetMember(b, b[0].offset);
        WithOffsetMember(a, b[0].offset);
      }
    } else if |b| == 0 {
      WithOffsetMember(a, a[0].offset);
      WithOffsetMember(b, a[0].offset);
    } else {
      WithOffsetMember(a, b[0].offset);
      WithOffsetMember(b, a[0].offset);
      var i :| 0 <= i < |a| && a[i].offset == b[0].offset;
      var j :| 0 <= j < |b| && b[j].offset == a[0].offset;
      assert a[0].offset <= a[i].offset;
      assert b[0].offset <= b[j].offset;
      var k0 := a[0].offset;
      assert WithOffset(a, k0) == [a[0]] + WithOffset(a[1..], k0);
      assert WithOffset(b, k0) == [b[0]] + WithOffset(b[1..], k0);
      assert a[0] == WithOffset(a, k0)[0] == WithOffset(b, k0)[0] == b[0];
      forall k ensures WithOffset(a[1..], k) == WithOffset(b[1..], k) {
        var pre := if a[0].offset == k then [a[0]] else [];
        assert WithOffset(a, k) == pre + WithOffset(a[1..], k);
        assert WithOffset(b, k) == pre + WithOffset(b[1..], k);
        assert (pre + WithOffset(a[1..], k))[|pre|..] == WithOffset(a[1..], k);
        assert (pre + WithOffset(b[1..], k))[|pre|..] == WithOffset(b[1..], k);
      }
      StableSortIsUnique(a[1..], b[1..]);
      assert a == [a[0]] + a[1..] && b == [b[0]] + b[1..];
    }
  }

  /** An index table already in offset order is left as it is, so then the
      extraction order is the table order. */
  lemma SortKeepsSortedTable(xs: seq<IndexEntry>)
    requires SortedByOffset(xs)
    ensures SortByOffset(xs) == xs
  {
    SortIsStable(xs);
    StableSortIsUnique(SortByOffset(xs), xs);
  }

  /** `read_number_of_files`: the records of the table, sorted stably by offset. */
  function ReadIndexTable(s: Stream, n: nat): (r: Result<Taken<seq<IndexEntry>>, Failure>)
    ensures r.Success? <==> n == 0 || s.pos + RecordSize * n <= |s.data|
    ensures r.Failure? ==> r.error == IndexTruncated
    ensures r.Success? ==>
      && r.value.rest == Stream(s.data, s.pos + RecordSize * n)
      && |r.value.value| == n
      && SortedByOffset(r.value.value)
      && (n == 0 || multiset(r.value.value) == multiset(OnDiskIndex(s.data, s.pos, n)))
      && (n == 0 || StableFor(r.value.value, OnDiskIndex(s.data, s.pos, n)))
  {
    var records :- ReadRecords(s, n);
    ReadRecordsOnDisk(s, n);
    SortIsStable(records.value);
    Success(Taken(SortByOffset(records.value), records.rest))
  }

}
