/** `ChunkView`: a buffer seen as consecutive chunks, walked by a mutable iterator. Positions are indices
    into the buffer instead of pointers. */
module ChunkViews {
  import opened Numeric

  datatype ChunkError = ZeroChunkSize

  /** A stretch of the buffer. */
  datatype Chunk = Chunk(start: nat, length: nat)

  class Iterator {
    var current: nat
    const end: nat
    const chunkSize: nat

    ghost predicate Valid()
      reads this
    {
      current <= end && chunkSize > 0
    }

    constructor (current: nat, end: nat, chunkSize: nat)
      requires current <= end && chunkSize > 0
      ensures Valid() && this.current == current && this.end == end && this.chunkSize == chunkSize
    {
      this.current := current;
      this.end := end;
      this.chunkSize := chunkSize;
    }

    /** `operator*`: the chunk at the current position, shorter than the others only at the end. */
    function Deref(): (chunk: Chunk)
      requires Valid()
      reads this
      ensures chunk.start == current && chunk.start + chunk.length <= end
      ensures chunk.length == chunkSize || chunk.start + chunk.length == end
      ensures current < end ==> 0 < chunk.length <= chunkSize
    {
      var remaining := end - current;
      Chunk(current, if remaining < chunkSize then remaining else chunkSize)
    }

    /** `operator++`: moves to the end of the current chunk. */
    method Next()
      requires Valid()
      modifies this
      ensures Valid()
      ensures current == old(Deref().start + Deref().length)
    {
      var remaining := end - current;
      current := current + (if chunkSize < remaining then chunkSize else remaining);
    }
  }

  datatype ChunkView = ChunkView(size: nat, chunkSize: nat)

  /** The constructor throws for chunk size zero. */
  function MakeChunkView(size: nat, chunkSize: nat): (result: Result<ChunkView, ChunkError>)
    ensures result.Ok? <==> chunkSize > 0
  {
    if chunkSize == 0 then Err(ZeroChunkSize) else Ok(ChunkView(size, chunkSize))
  }

  /** The chunks from position `from` on. */
  ghost function ChunksFrom(view: ChunkView, from: nat): seq<Chunk>
    requires view.chunkSize > 0 && from <= view.size
    decreases view.size - from
  {
    if from == view.size then []
    else
      var length := if view.size - from < view.chunkSize then view.size - from else view.chunkSize;
      [Chunk(from, length)] + ChunksFrom(view, from + length)
  }

  /** `begin()` to `end()` visits exactly those chunks, in order, and terminates. */
  method Chunks(view: ChunkView) returns (visited: seq<Chunk>)
    requires view.chunkSize > 0
    ensures visited == ChunksFrom(view, 0)
  {
    visited := [];
    var it := new Iterator(0, view.size, view.chunkSize);
    while it.current != view.size
      invariant it.Valid() && it.end == view.size && it.chunkSize == view.chunkSize && fresh(it)
      invariant visited + ChunksFrom(view, it.current) == ChunksFrom(view, 0)
      decreases view.size - it.current
    {
      ghost var rest := ChunksFrom(view, it.current);
      var chunk := it.Deref();
      assert rest == [chunk] + ChunksFrom(view, chunk.start + chunk.length);
      visited := visited + [chunk];
      it.Next();
    }
  }

  /** The chunks tile the buffer: position k lies in exactly one chunk, number k / chunkSize, which starts
      at a multiple of the chunk size and is full unless it is the last. */
  lemma {:induction false} ChunkOfPosition(view: ChunkView, from: nat, i: nat)
    requires view.chunkSize > 0 && from <= view.size && i < |ChunksFrom(view, from)|
    ensures var chunk := ChunksFrom(view, from)[i];
            && chunk.start == from + i * view.chunkSize
            && 0 < chunk.length <= view.chunkSize && chunk.start + chunk.length <= view.size
            && (chunk.length < view.chunkSize ==> i == |ChunksFrom(view, from)| - 1)
            && (i == |ChunksFrom(view, from)| - 1 <==> chunk.start + chunk.length == view.size)
    decreases view.size - from
  {
    var length := if view.size - from < view.chunkSize then view.size - from else view.chunkSize;
    if i > 0 {
      ChunkOfPosition(view, from + length, i - 1);
      assert (i - 1) * view.chunkSize + view.chunkSize == i * view.chunkSize;
    } else {
      assert ChunksFrom(view, from)[0] == Chunk(from, length);
    }
  }

  lemma {:induction false} EveryPositionInAChunk(view: ChunkView, from: nat, k: nat)
    requires view.chunkSize > 0 && from <= k < view.size
    ensures exists i :: 0 <= i < |ChunksFrom(view, from)|
              && var chunk := ChunksFrom(view, from)[i]; chunk.start <= k < chunk.start + chunk.length
    decreases view.size - from
  {
    var length := if view.size - from < view.chunkSize then view.size - from else view.chunkSize;
    var chunks := ChunksFrom(view, from);
    if k < from + length {
      assert chunks[0] == Chunk(from, length);
    } else {
      EveryPositionInAChunk(view, from + length, k);
      var rest := ChunksFrom(view, from + length);
      var i :| 0 <= i < |rest| && rest[i].start <= k < rest[i].start + rest[i].length;
      assert chunks[i + 1] == rest[i];
    }
  }

  /** Two chunks do not overlap. */
  lemma ChunksAreDisjoint(view: ChunkView, i: nat, j: nat)
    requires view.chunkSize > 0 && i < j < |ChunksFrom(view, 0)|
    ensures ChunksFrom(view, 0)[i].start + ChunksFrom(view, 0)[i].length <= ChunksFrom(view, 0)[j].start
  {
    ChunkOfPosition(view, 0, i);
    ChunkOfPosition(view, 0, j);
    LaterMultiple(i, j, view.chunkSize);
  }

  lemma LaterMultiple(i: nat, j: nat, size: nat)
    requires i < j
    ensures i * size + size <= j * size
  {
    assert (i + 1) * size <= j * size;
  }
}
