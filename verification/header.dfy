/** The fixed 60-byte archive header (`ArchiveHeader`, `read_archive_header`). */
module Header {
  import opened Wrappers
  import opened Bytes
  import opened Input
  import opened Errors

  /** Bytes taken by the header: 32 magic, 4 reserved, four u32, 4 reserved, one u32. */
  const HeaderLength: nat := 60

  /** The decoded header. The two reserved words are skipped, never read, so
      they are not part of the record. */
  datatype ArchiveHeader = ArchiveHeader(
    magic: seq<byte>,
    directoryOffset: u32,
    directoryLength: u32,
    filenameDirectoryOffset: u32,
    filenameDirectoryLength: u32,
    fileCount: u32)

  /** `read_archive_header`: the fields in on-disk order, little-endian. */
  function ReadArchiveHeader(s: Stream): (r: Result<Taken<ArchiveHeader>, Failure>)
    ensures r.Success? <==> s.pos + HeaderLength <= |s.data|
    ensures r.Failure? ==> r.error == HeaderTruncated
    ensures r.Success? ==>
      var h := r.value.value;
      && r.value.rest == Stream(s.data, s.pos + HeaderLength)
      && h.magic == s.data[s.pos..s.pos + 32]
      && h.directoryOffset == LeU32At(s.data, s.pos + 36)
      && h.directoryLength == LeU32At(s.data, s.pos + 40)
      && h.filenameDirectoryOffset == LeU32At(s.data, s.pos + 44)
      && h.filenameDirectoryLength == LeU32At(s.data, s.pos + 48)
      && h.fileCount == LeU32At(s.data, s.pos + 56)
  {
    var magic :- ReadExact(s, 32).ToResult(HeaderTruncated);
    var s := Seek(magic.rest, 4);
    var directoryOffset :- ReadU32(s).ToResult(HeaderTruncated);
    var directoryLength :- ReadU32(directoryOffset.rest).ToResult(HeaderTruncated);
    var filenameDirectoryOffset :- ReadU32(directoryLength.rest).ToResult(HeaderTruncated);
    var filenameDirectoryLength :- ReadU32(filenameDirectoryOffset.rest).ToResult(HeaderTruncated);
    var s := Seek(filenameDirectoryLength.rest, 4);
    var fileCount :- ReadU32(s).ToResult(HeaderTruncated);
    Success(Taken(
      ArchiveHeader(magic.value, directoryOffset.value, directoryLength.value,
                    filenameDirectoryOffset.value, filenameDirectoryLength.value, fileCount.value),
      fileCount.rest))
  }

  /** Whatever the 32 magic bytes hold, decoding succeeds or fails alike and
      yields the same fields: the signature comparison only logs. */
  lemma MagicIsInformational(s: Stream, magic: seq<byte>)
    requires |magic| == 32 && s.pos + 32 <= |s.data|
    ensures
      var s' := Stream(s.data[..s.pos] + magic + s.data[s.pos + 32..], s.pos);
      && ReadArchiveHeader(s').Success? == ReadArchiveHeader(s).Success?
      && (ReadArchiveHeader(s).Success? ==>
            ReadArchiveHeader(s').value.value == ReadArchiveHeader(s).value.value.(magic := magic))
  {
    var d := s.data;
    var p := s.pos;
    var d' := d[..p] + magic + d[p + 32..];
    assert |d'| == |d|;
    assert d'[p..p + 32] == magic;
    if p + HeaderLength <= |d| {
      UnchangedU32(d, d', p + 36);
      UnchangedU32(d, d', p + 40);
      UnchangedU32(d, d', p + 44);
      UnchangedU32(d, d', p + 48);
      UnchangedU32(d, d', p + 56);
    }
  }

  lemma UnchangedU32(a: seq<byte>, b: seq<byte>, p: nat)
    requires p + 4 <= |a| == |b|
    requires forall i :: p <= i < p + 4 ==> a[i] == b[i]
    ensures LeU32At(a, p) == LeU32At(b, p)
  {
  }

  /** The header bytes of h, with zeros in the reserved words. */
  function EncodeHeader(h: ArchiveHeader): (r: seq<byte>)
    requires |h.magic| == 32
    ensures |r| == HeaderLength
  {
    h.magic + Zeros(4) + U32Le(h.directoryOffset) + U32Le(h.directoryLength)
    + U32Le(h.filenameDirectoryOffset) + U32Le(h.filenameDirectoryLength)
    + Zeros(4) + U32Le(h.fileCount)
  }

  /** Decoding an encoded header, wherever it sits, gives back the header and
      leaves the cursor just past it. */
  lemma HeaderRoundTrip(h: ArchiveHeader, pre: seq<byte>, post: seq<byte>)
    requires |h.magic| == 32
    ensures
      var data := pre + EncodeHeader(h) + post;
      ReadArchiveHeader(Stream(data, |pre|)) == Success(Taken(h, Stream(data, |pre| + HeaderLength)))
  {
    var data := pre + EncodeHeader(h) + post;
    var p := |pre|;
    assert data[p..p + HeaderLength] == EncodeHeader(h);
    HeaderFields(data, p, h);
  }

  /** The fields of a header encoded at byte p read back from there. */
  lemma HeaderFields(data: seq<byte>, p: nat, h: ArchiveHeader)
    requires |h.magic| == 32
    requires p + HeaderLength <= |data| && data[p..p + HeaderLength] == EncodeHeader(h)
    ensures data[p..p + 32] == h.magic
    ensures LeU32At(data, p + 36) == h.directoryOffset
    ensures LeU32At(data, p + 40) == h.directoryLength
    ensures LeU32At(data, p + 44) == h.filenameDirectoryOffset
    ensures LeU32At(data, p + 48) == h.filenameDirectoryLength
    ensures LeU32At(data, p + 56) == h.fileCount
  {
    var e := EncodeHeader(h);
    Window(data, p, e, 0, 32);
    FieldAt(data, p, e, 36, h.directoryOffset);
    FieldAt(data, p, e, 40, h.directoryLength);
    FieldAt(data, p, e, 44, h.filenameDirectoryOffset);
    FieldAt(data, p, e, 48, h.filenameDirectoryLength);
    FieldAt(data, p, e, 56, h.fileCount);
  }

  /** Bytes i to j of a window holding e are bytes i to j of e. */
  lemma Window(data: seq<byte>, p: nat, e: seq<byte>, i: nat, j: nat)
    requires p + |e| <= |data| && data[p..p + |e|] == e && i <= j <= |e|
    ensures data[p + i..p + j] == e[i..j]
  {
    assert forall k :: i <= k < j ==> data[p + k] == e[k];
  }

  /** A u32 encoded at byte k of a window holding e reads back from there. */
  lemma FieldAt(data: seq<byte>, p: nat, e: seq<byte>, k: nat, x: u32)
    requires p + |e| <= |data| && data[p..p + |e|] == e && k + 4 <= |e|
    requires forall i :: 0 <= i < 4 ==> e[k + i] == U32Le(x)[i]
    ensures LeU32At(data, p + k) == x
  {
    Window(data, p, e, k, k + 4);
    assert data[p + k..p + k + 4] == U32Le(x);
    U32At(data, p + k, x);
  }

  lemma U32At(data: seq<byte>, p: nat, x: u32)
    requires p + 4 <= |data| && data[p..p + 4] == U32Le(x)
    ensures LeU32At(data, p) == x
  {
    var b := U32Le(x);
    assert data[p] == b[0] && data[p + 1] == b[1] && data[p + 2] == b[2] && data[p + 3] == b[3];
  }
}
