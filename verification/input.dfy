/**
 * The archive as a byte sequence with a cursor, and the four primitive
 * operations the extractor performs on its open file: `read_exact`,
 * `read_u32::<LittleEndian>`, a relative `seek`, and a plain `read`.
 */
module Input {
  import opened Bytes
  import opened Wrappers

  /** The archive contents and the current stream position. The position may
      lie beyond the end: seeking past the end of a file is allowed. */
  datatype Stream = Stream(data: seq<byte>, pos: nat)

  /** A decoded value together with the stream after it was consumed. */
  datatype Taken<+T> = Taken(value: T, rest: Stream)

  /** Bytes left before the end of the input (none once the cursor is past it). */
  function Available(s: Stream): nat {
    if s.pos <= |s.data| then |s.data| - s.pos else 0
  }

  /** A relative seek forward by k bytes; it never fails. */
  function Seek(s: Stream, k: nat): (r: Stream)
    ensures r.data == s.data
  {
    Stream(s.data, s.pos + k)
  }

  /** `read_exact`: exactly k bytes, or failure at end of input. */
  function ReadExact(s: Stream, k: nat): (r: Option<Taken<seq<byte>>>)
    ensures r.Some? <==> k <= Available(s)
    ensures r.Some? && 0 < k ==> s.pos + k <= |s.data|
    ensures r.Some? ==> |r.value.value| == k && r.value.rest == Stream(s.data, s.pos + k)
    ensures r.Some? ==> forall i :: 0 <= i < k ==> r.value.value[i] == s.data[s.pos + i]
  {
    if k == 0 then Some(Taken([], s))
    else if k <= Available(s) then Some(Taken(s.data[s.pos..s.pos + k], Seek(s, k)))
    else None
  }

  /** `read_u32::<LittleEndian>`: four bytes, or failure at end of input. */
  function ReadU32(s: Stream): (r: Option<Taken<u32>>)
    ensures r.Some? <==> s.pos + 4 <= |s.data|
    ensures r.Some? ==> r.value.value == LeU32At(s.data, s.pos) && r.value.rest == Stream(s.data, s.pos + 4)
  {
    var b :- ReadExact(s, 4);
    Some(Taken(LeU32At(b.value, 0), b.rest))
  }

  /** A plain `read` of up to k bytes. On a regular file it returns what was
      asked for, or everything up to the end of the input if less remains. */
  function ReadUpTo(s: Stream, k: nat): (r: Taken<seq<byte>>)
    ensures |r.value| == if k <= Available(s) then k else Available(s)
    ensures r.rest == Stream(s.data, s.pos + |r.value|)
    ensures 0 < |r.value| ==> s.pos + |r.value| <= |s.data| && r.value == s.data[s.pos..s.pos + |r.value|]
  {
    var got := if k <= Available(s) then k else Available(s);
    if got == 0 then Taken([], s) else Taken(s.data[s.pos..s.pos + got], Seek(s, got))
  }
}
