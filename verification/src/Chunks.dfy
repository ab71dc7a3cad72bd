/** Pricing problems are priced in chunks; the controller rotates through the chunks. */
module Chunks {
  import opened Numbers

  function ActChunkSize(chunksize: nat, nrel: nat): nat {
    if chunksize < nrel then chunksize else nrel
  }

  /** SCIPceil(nrel / actchunksize) */
  function NChunks(nrel: nat, actchunksize: nat): int
    requires actchunksize > 0
  {
    Ceil(nrel as real / actchunksize as real)
  }

  /** The chunk of the k-th relevant pricing problem. */
  function ChunkOf(k: nat, actchunksize: nat): nat
    requires actchunksize > 0
  {
    k / actchunksize
  }

  lemma DivisionBounds(k: nat, d: nat)
    requires d > 0
    ensures d * (k / d) <= k < d * (k / d) + d
  {
  }

  lemma TimesMonotone(d: nat, a: int, b: int)
    requires a <= b
    ensures d * a <= d * b
  {
  }

  lemma TimesOneMore(d: nat, a: int)
    ensures d * (a + 1) == d * a + d
  {
  }

  lemma QuotientUnique(k: nat, d: nat, q: nat)
    requires d > 0 && d * q <= k < d * q + d
    ensures k / d == q
  {
    DivisionBounds(k, d);
    var r := k / d;
    TimesOneMore(d, r);
    TimesOneMore(d, q);
    if r < q { TimesMonotone(d, r + 1, q); }
    if q < r { TimesMonotone(d, q + 1, r); }
  }

  lemma NChunksBounds(nrel: nat, act: nat)
    requires 0 < act <= nrel
    ensures 0 < NChunks(nrel, act)
    ensures act * (NChunks(nrel, act) - 1) < nrel <= act * NChunks(nrel, act)
  {
    CeilBounds(nrel, act, nrel as real / act as real, NChunks(nrel, act));
  }

  lemma CeilBounds(t: nat, d: nat, x: real, n: int)
    requires d > 0 && t > 0 && x * d as real == t as real && n as real - 1.0 < x <= n as real
    ensures 0 < n && d * (n - 1) < t <= d * n
  {
    var below, above := d * (n - 1), d * n;
    RealTimes(d, n - 1, below);
    RealTimes(d, n, above);
    Scaled(x, (n - 1) as real, n as real, d as real, t as real, below as real, above as real);
    if n <= 0 { TimesMonotone(d, n, 0); }
  }

  lemma RealTimes(d: nat, n: int, m: int)
    requires m == d * n
    ensures m as real == d as real * n as real
  {
  }

  lemma Scaled(x: real, lo: real, hi: real, d: real, y: real, below: real, above: real)
    requires d > 0.0 && lo < x <= hi && y == x * d && below == d * lo && above == d * hi
    ensures below < y <= above
  {
  }

  /** Chunk ids lie in range. */
  lemma ChunkInRange(nrel: nat, act: nat, k: nat)
    requires 0 < act <= nrel && k < nrel
    ensures ChunkOf(k, act) < NChunks(nrel, act)
  {
    NChunksBounds(nrel, act);
    DivisionBounds(k, act);
    var q, n := k / act, NChunks(nrel, act);
    if q >= n { TimesMonotone(act, n, q); }
  }

  /** A chunk consists of the problems in an interval of at most act positions, and no chunk is empty. */
  lemma ChunkMembers(nrel: nat, act: nat, chunk: nat)
    requires 0 < act <= nrel && chunk < NChunks(nrel, act)
    ensures act * chunk < nrel && ChunkOf(act * chunk, act) == chunk
    ensures forall k: nat :: ChunkOf(k, act) == chunk <==> act * chunk <= k < act * chunk + act
  {
    NChunksBounds(nrel, act);
    TimesMonotone(act, chunk, NChunks(nrel, act) - 1);
    QuotientUnique(act * chunk, act, chunk);
    forall k: nat ensures ChunkOf(k, act) == chunk <==> act * chunk <= k < act * chunk + act {
      DivisionBounds(k, act);
      if act * chunk <= k < act * chunk + act { QuotientUnique(k, act, chunk); }
    }
  }

  // ---------- rotation ----------

  function NextChunk(chunk: nat, nchunks: nat): (c: nat)
    requires nchunks > 0
    ensures c < nchunks
  {
    (chunk + 1) % nchunks
  }

  /** The chunk reached by i successful calls of checkNextChunk. */
  function ChunkAfter(start: nat, nchunks: nat, i: nat): (c: nat)
    requires start < nchunks
    ensures c < nchunks
  {
    if i == 0 then start else NextChunk(ChunkAfter(start, nchunks, i - 1), nchunks)
  }

  lemma NextChunkWraps(chunk: nat, nchunks: nat)
    requires chunk < nchunks
    ensures NextChunk(chunk, nchunks) == if chunk + 1 < nchunks then chunk + 1 else 0
  {
  }

  lemma {:induction false} ChunkAfterClosed(start: nat, nchunks: nat, i: nat)
    requires start < nchunks && i <= nchunks
    ensures ChunkAfter(start, nchunks, i) == if start + i < nchunks then start + i else start + i - nchunks
  {
    if i > 0 {
      ChunkAfterClosed(start, nchunks, i - 1);
      NextChunkWraps(ChunkAfter(start, nchunks, i - 1), nchunks);
    }
  }

  ghost predicate Visited(start: nat, nchunks: nat, c: nat)
    requires start < nchunks
  {
    exists i: nat :: i < nchunks && ChunkAfter(start, nchunks, i) == c
  }

  /** checkNextChunk moves on nchunks-1 times, and refuses the call that would return to the start. */
  lemma RotationStops(start: nat, nchunks: nat, i: nat)
    requires start < nchunks && i < nchunks
    ensures NextChunk(ChunkAfter(start, nchunks, i), nchunks) == start <==> i == nchunks - 1
  {
    ChunkAfterClosed(start, nchunks, i);
    NextChunkWraps(ChunkAfter(start, nchunks, i), nchunks);
  }

  /** By then every chunk has been visited, and none twice. */
  lemma RotationVisitsAll(start: nat, nchunks: nat)
    requires start < nchunks
    ensures forall i: nat, j: nat :: i < j < nchunks ==> ChunkAfter(start, nchunks, i) != ChunkAfter(start, nchunks, j)
    ensures forall c: nat :: c < nchunks ==> Visited(start, nchunks, c)
  {
    forall i: nat, j: nat | i < j < nchunks
      ensures ChunkAfter(start, nchunks, i) != ChunkAfter(start, nchunks, j)
    {
      ChunkAfterClosed(start, nchunks, i);
      ChunkAfterClosed(start, nchunks, j);
    }
    forall c: nat | c < nchunks ensures Visited(start, nchunks, c) {
      var i := if c >= start then c - start else c + nchunks - start;
      ChunkAfterClosed(start, nchunks, i);
    }
  }
}
