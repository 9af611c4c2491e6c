/**
 The check of an out-of-line value against its chunks in the toast table (verify_heapam.c).
 */
module HeapToast {
  import opened Optional

  const CHUNK: nat := 1996    // TOAST_MAX_CHUNK_SIZE
  const WORD: nat := 0x1_0000_0000

  /** The external size is a 30-bit field of the toast pointer. */
  type ExtSize = n: nat | n < 0x4000_0000

  type Int32 = n: int | -0x8000_0000 <= n < 0x8000_0000

  /** A chunk's data column: null, a plain or a short varlena with its total size, or neither. */
  datatype Data = NullData | Plain(size: nat) | Short(size: nat) | Compressed

  /** A row of the toast table, as the index scan returns it. */
  datatype Chunk = Chunk(seqno: Option<Int32>, data: Data)

  datatype Fault = NullSequence | UnexpectedSequence | NullChunk | InvalidHeader | PastLast | WrongSize | NotFound | EndedEarly

  /** last_chunk_seq, with the 32-bit wrap-around of the subtraction */
  function LastChunk(extsize: ExtSize): (last: Int32)
    ensures last >= 0
  {
    ((extsize - 1) % WORD) / CHUNK
  }

  function ExpectedSize(seqno: int, extsize: ExtSize): nat {
    if seqno < LastChunk(extsize) then CHUNK else (extsize - LastChunk(extsize) * CHUNK) % WORD
  }

  function DataSize(d: Data): Option<int> {
    match d
    case Plain(size) => Some(size - 4)
    case Short(size) => Some(size - 1)
    case _ => None
  }

  /** int32 increment */
  function Next(seqno: Int32): Int32 {
    if seqno == 0x7fff_ffff then -0x8000_0000 else seqno + 1
  }

  ghost predicate ChunkFits(c: Chunk, seqno: int, extsize: ExtSize) {
    c.seqno == Some(seqno) && seqno <= LastChunk(extsize) && DataSize(c.data) == Some(ExpectedSize(seqno, extsize))
  }

  /** check_toast_tuple; `next` is the sequence number to expect afterwards. */
  method CheckToastTuple(c: Chunk, expected: Int32, extsize: ExtSize) returns (next: Int32, faults: seq<Fault>)
    ensures faults == [] <==> ChunkFits(c, expected, extsize)
    ensures next == if c.seqno.Some? then Next(c.seqno.value) else expected
  {
    next, faults := expected, [];
    if c.seqno.None? { return next, [NullSequence]; }
    var seqno := c.seqno.value;
    if seqno != expected { faults := faults + [UnexpectedSequence]; }
    next := Next(seqno);
    var size: int;
    match c.data {
      case NullData => return next, faults + [NullChunk];
      case Compressed => return next, faults + [InvalidHeader];
      case Plain(n) => size := n - 4;
      case Short(n) => size := n - 1;
    }
    var last := LastChunk(extsize);
    if seqno > last { return next, faults + [PastLast]; }
    var want := if seqno < last then CHUNK else (extsize - last * CHUNK) % WORD;
    if size != want { faults := faults + [WrongSize]; }
  }

  /** The chunk list that the external size calls for. */
  ghost predicate Complete(chunks: seq<Chunk>, extsize: ExtSize) {
    |chunks| == LastChunk(extsize) + 1 && forall i :: 0 <= i < |chunks| ==> ChunkFits(chunks[i], i, extsize)
  }

  /** check_toasted_attribute: silent exactly for the complete chunk list. */
  method CheckToastedAttribute(chunks: seq<Chunk>, extsize: ExtSize) returns (faults: seq<Fault>)
    ensures faults == [] <==> Complete(chunks, extsize)
  {
    faults := [];
    var expected: Int32, found, i := 0, false, 0;
    var last := LastChunk(extsize);
    while i < |chunks|
      invariant 0 <= i <= |chunks| && (found <==> i > 0)
      invariant faults == [] <==> forall k :: 0 <= k < i ==> ChunkFits(chunks[k], k, extsize)
      invariant faults == [] ==> expected == i
    {
      found := true;
      var more;
      expected, more := CheckToastTuple(chunks[i], expected, extsize);
      faults := faults + more;
      i := i + 1;
    }
    if faults == [] && chunks != [] { assert ChunkFits(chunks[|chunks| - 1], |chunks| - 1, extsize); }
    if !found {
      faults := faults + [NotFound];
    } else if expected <= last {
      faults := faults + [EndedEarly];
    }
  }

  /** The bytes of the first n chunks. */
  function Total(chunks: seq<Chunk>, n: nat): int
    requires n <= |chunks|
  {
    if n == 0 then 0 else Total(chunks, n - 1) + if DataSize(chunks[n - 1].data).Some? then DataSize(chunks[n - 1].data).value else 0
  }

  lemma {:induction false} FullChunks(chunks: seq<Chunk>, extsize: ExtSize, n: nat)
    requires Complete(chunks, extsize) && n < |chunks|
    ensures Total(chunks, n) == n * CHUNK
  {
    if n > 0 {
      FullChunks(chunks, extsize, n - 1);
      assert ChunkFits(chunks[n - 1], n - 1, extsize);
    }
  }

  /**
   The chunks of a silent value add up to its external size.  A value of external size 0 would
   need chunks of 2^32 bytes altogether, since the size wraps around when 1 is taken from it.
   */
  lemma ChunksAddUp(chunks: seq<Chunk>, extsize: ExtSize)
    requires Complete(chunks, extsize)
    ensures Total(chunks, |chunks|) == if extsize == 0 then WORD else extsize
  {
    var last := LastChunk(extsize);
    FullChunks(chunks, extsize, last);
    assert ChunkFits(chunks[last], last, extsize);
  }
}
