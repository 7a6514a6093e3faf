/** What the parallel matching branches compute, with the threads taken one
    after the other: each queued range is scanned like the sequential loop,
    and the ranges together visit exactly the ids the sequential loop
    visits. The order in which threads run is not modelled. */
module ChunkedVisits {
  import opened Meta
  import opened Bitsets
  import opened EntityManager
  import opened Queries
  import opened ThreadSplit

  /** The selected ids in `[begin, end)`, ascending. */
  function MatchingIn(m: Manager, q: Query, begin: nat, end: nat): (r: seq<nat>)
    requires Valid(m) && Fits(m.layout, q) && begin <= end
    ensures forall k :: 0 <= k < |r| ==> begin <= r[k] < end && Selects(m, q, r[k])
    decreases end - begin
  {
    if end == begin then []
    else
      var below := MatchingIn(m, q, begin, end - 1);
      if Selects(m, q, end - 1) then below + [end - 1] else below
  }

  /** Scanning `[0, begin)` and then `[begin, end)` is scanning `[0, end)`. */
  lemma {:induction false} SplitScan(m: Manager, q: Query, begin: nat, end: nat)
    requires Valid(m) && Fits(m.layout, q) && begin <= end
    ensures MatchingBelow(m, q, end) == MatchingBelow(m, q, begin) + MatchingIn(m, q, begin, end)
    decreases end - begin
  {
    if end > begin {
      SplitScan(m, q, begin, end - 1);
      if Selects(m, q, end - 1) {
        assert MatchingBelow(m, q, end) == MatchingBelow(m, q, end - 1) + [end - 1];
        assert MatchingIn(m, q, begin, end) == MatchingIn(m, q, begin, end - 1) + [end - 1];
        AppendAssociative(MatchingBelow(m, q, begin), MatchingIn(m, q, begin, end - 1), [end - 1]);
      } else {
        assert MatchingBelow(m, q, end) == MatchingBelow(m, q, end - 1);
        assert MatchingIn(m, q, begin, end) == MatchingIn(m, q, begin, end - 1);
      }
    }
  }

  /** The loop one pool task runs over its range: skip dead ids and collect
      those that pass the filter. */
  method ScanRange(m: Manager, q: Query, begin: nat, end: nat) returns (visited: seq<nat>)
    requires Valid(m) && Fits(m.layout, q) && begin <= end <= m.size
    ensures visited == MatchingIn(m, q, begin, end)
  {
    visited := [];
    var i := begin;
    while i < end
      invariant begin <= i <= end
      invariant visited == MatchingIn(m, q, begin, i)
    {
      if IsAlive(m, i) && Passes(m.layout, m.entities[i].bits, q) {
        visited := visited + [i];
      }
      i := i + 1;
    }
  }

  /** Ranges that start at 0, follow each other without gap or overlap, and
      stop at `end`. */
  predicate Tiles(chunks: seq<Chunk>, end: nat)
  {
    && (|chunks| == 0 ==> end == 0)
    && (|chunks| > 0 ==> chunks[0].begin == 0 && chunks[|chunks| - 1].end == end)
    && (forall k :: 0 <= k < |chunks| ==> chunks[k].begin <= chunks[k].end)
    && (forall k :: 0 <= k < |chunks| - 1 ==> chunks[k].end == chunks[k + 1].begin)
  }

  /** The ids the tasks visit, task after task. */
  function ChunkedScan(m: Manager, q: Query, chunks: seq<Chunk>): (r: seq<nat>)
    requires Valid(m) && Fits(m.layout, q)
    requires forall k :: 0 <= k < |chunks| ==> chunks[k].begin <= chunks[k].end
    ensures forall k :: 0 <= k < |r| ==> Selects(m, q, r[k])
  {
    if |chunks| == 0 then []
    else
      var last := chunks[|chunks| - 1];
      ChunkedScan(m, q, chunks[..|chunks| - 1]) + MatchingIn(m, q, last.begin, last.end)
  }

  /** Tasks over ranges that tile `[0, end)` together visit, in task order,
      the ids a sequential scan of `[0, end)` visits. */
  lemma {:induction false} TiledScan(m: Manager, q: Query, chunks: seq<Chunk>, end: nat)
    requires Valid(m) && Fits(m.layout, q)
    requires Tiles(chunks, end)
    ensures ChunkedScan(m, q, chunks) == MatchingBelow(m, q, end)
    decreases |chunks|
  {
    if |chunks| > 0 {
      var last := chunks[|chunks| - 1];
      var front := chunks[..|chunks| - 1];
      assert Tiles(front, last.begin);
      TiledScan(m, q, front, last.begin);
      SplitScan(m, q, last.begin, end);
    }
  }

  /** The parallel branch of a matching loop visits the same ids as the
      sequential one: the queued chunks tile `[0, currentSize)`. */
  method ParallelScan(m: Manager, q: Query, threads: nat) returns (visited: seq<nat>)
    requires Valid(m) && Fits(m.layout, q) && threads > 0
    ensures visited == MatchingIds(m, q)
  {
    var chunks := QueuedChunks(m.size, threads);
    visited := [];
    var k := 0;
    while k < |chunks|
      invariant k <= |chunks|
      invariant visited == ChunkedScan(m, q, chunks[..k])
    {
      assert chunks[..k + 1][..k] == chunks[..k];
      var part := ScanRange(m, q, chunks[k].begin, chunks[k].end);
      visited := visited + part;
      k := k + 1;
    }
    assert chunks[..|chunks|] == chunks;
    TiledScan(m, q, chunks, m.size);
  }
}
