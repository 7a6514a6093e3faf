/** How the parallel branches of the manager split the work `[0, n)` into
    `ThreadCount` ranges before queuing them on the thread pool: every range
    has `n / ThreadCount` elements, except the last, which runs to `n`; empty
    ranges are not queued. The pool itself is not modelled. */
module ThreadSplit {

  /** A half-open range `[begin, end)` queued on the pool. */
  datatype Chunk = Chunk(begin: nat, end: nat)

  /** The common chunk length `s = n / ThreadCount`. */
  function ChunkLength(n: nat, threads: nat): (s: nat)
    requires threads > 0
    ensures s * threads <= n < s * threads + threads
  {
    n / threads
  }

  /** `begin = s * i`: the start of chunk `i`, never past `n` for the
      first `ThreadCount` chunks. */
  function ChunkBegin(n: nat, threads: nat, i: nat): (r: nat)
    requires threads > 0
    ensures i <= threads ==> r <= n
  {
    if i <= threads then
      MulMonotone(ChunkLength(n, threads), i, threads);
      ChunkLength(n, threads) * i
    else ChunkLength(n, threads) * i
  }

  /** `end = n` for the last chunk, `s * (i + 1)` for the others: every chunk
      lies inside `[0, n)` and is not reversed. */
  function ChunkEnd(n: nat, threads: nat, i: nat): (r: nat)
    requires threads > 0
    ensures i < threads ==> ChunkBegin(n, threads, i) <= r <= n
  {
    var s := ChunkLength(n, threads);
    if i < threads - 1 then
      MulMonotone(s, i, i + 1);
      MulMonotone(s, i + 1, threads);
      s * (i + 1)
    else if i == threads - 1 then n
    else s * (i + 1)
  }

  lemma MulMonotone(s: nat, a: nat, b: nat)
    requires a <= b
    ensures s * a <= s * b
  {
  }

  /** Neighbouring chunks touch: each ends where the next begins. The first
      begins at 0 and the last ends at `n`, so the chunks tile `[0, n)`. */
  lemma ChunksContiguous(n: nat, threads: nat)
    requires threads > 0
    ensures ChunkBegin(n, threads, 0) == 0
    ensures ChunkEnd(n, threads, threads - 1) == n
    ensures forall i :: 0 <= i < threads - 1 ==> ChunkEnd(n, threads, i) == ChunkBegin(n, threads, i + 1)
  {
  }

  /** Chunks do not overlap: an earlier chunk ends before a later begins. */
  lemma ChunksDisjoint(n: nat, threads: nat, i: nat, j: nat)
    requires threads > 0 && i < j < threads
    ensures ChunkEnd(n, threads, i) <= ChunkBegin(n, threads, j)
  {
    MulMonotone(ChunkLength(n, threads), i + 1, j);
  }

  /** The last chunk absorbs the remainder `n % ThreadCount`. */
  lemma LastChunkAbsorbsRemainder(n: nat, threads: nat)
    requires threads > 0
    ensures ChunkEnd(n, threads, threads - 1) - ChunkBegin(n, threads, threads - 1)
      == ChunkLength(n, threads) + n % threads
  {
    var s := ChunkLength(n, threads);
    assert s * (threads - 1) == s * threads - s;
  }

  /** The chunk that holds element `x`. */
  function ChunkOf(n: nat, threads: nat, x: nat): (i: nat)
    requires threads > 0 && x < n
    ensures i < threads
    ensures ChunkBegin(n, threads, i) <= x < ChunkEnd(n, threads, i)
  {
    var s := ChunkLength(n, threads);
    if s == 0 then threads - 1
    else
      var q := x / s;
      if q < threads - 1 then
        assert s * q <= x < s * (q + 1);
        q
      else
        assert s * (threads - 1) <= s * q <= x by {
          MulMonotone(s, threads - 1, q);
        }
        threads - 1
  }

  /** Every element lies in exactly one chunk. */
  lemma ExactlyOneChunk(n: nat, threads: nat, x: nat, i: nat)
    requires threads > 0 && x < n && i < threads
    ensures ChunkBegin(n, threads, i) <= x < ChunkEnd(n, threads, i) <==> i == ChunkOf(n, threads, x)
  {
    var c := ChunkOf(n, threads, x);
    if i < c {
      ChunksDisjoint(n, threads, i, c);
    } else if c < i {
      ChunksDisjoint(n, threads, c, i);
    }
  }

  /** Where the first `i` chunks end. */
  function Frontier(n: nat, threads: nat, i: nat): (r: nat)
    requires threads > 0
    ensures r <= n
  {
    if i < threads then ChunkBegin(n, threads, i) else n
  }

  /** The ranges the parallel branch queues, in thread order: chunk `i` for
      each `i < ThreadCount`, skipping a chunk with `begin == end`. */
  method QueuedChunks(n: nat, threads: nat) returns (chunks: seq<Chunk>)
    requires threads > 0
    ensures forall k :: 0 <= k < |chunks| ==> chunks[k].begin < chunks[k].end <= n
    ensures |chunks| > 0 ==> chunks[0].begin == 0 && chunks[|chunks| - 1].end == n
    ensures forall k :: 0 <= k < |chunks| - 1 ==> chunks[k].end == chunks[k + 1].begin
    ensures |chunks| == 0 <==> n == 0
  {
    chunks := [];
    var i := 0;
    while i < threads
      invariant i <= threads
      invariant forall k :: 0 <= k < |chunks| ==> chunks[k].begin < chunks[k].end <= n
      invariant |chunks| > 0 ==> chunks[0].begin == 0
      invariant |chunks| > 0 ==> chunks[|chunks| - 1].end == Frontier(n, threads, i)
      invariant |chunks| == 0 ==> Frontier(n, threads, i) == 0
      invariant n == 0 ==> |chunks| == 0
      invariant forall k :: 0 <= k < |chunks| - 1 ==> chunks[k].end == chunks[k + 1].begin
    {
      var begin := ChunkBegin(n, threads, i);
      var end := ChunkEnd(n, threads, i);
      ChunksContiguous(n, threads);
      if begin != end {
        chunks := chunks + [Chunk(begin, end)];
      }
      i := i + 1;
    }
    ChunksContiguous(n, threads);
  }
}
