/**
 * Splitting a decoded audio file into fixed-length time chunks.
 *
 * The audio itself is opaque; only its duration in whole milliseconds
 * matters. A chunk is the half-open time range [start, end) that a slice
 * `audio[i:i + L]` selects, clipped at the end of the audio.
 */
module Chunking {

  /** Length of one chunk: ten minutes, in milliseconds. */
  const AudioChunkLengthMs: nat := 10 * 60 * 1000

  /** The half-open time range [start, end), in milliseconds. */
  datatype Span = Span(start: nat, end: nat) {
    function Length(): int { end - start }
    predicate Contains(t: int) { start <= t < end }
  }

  function Min(a: int, b: int): int { if a <= b then a else b }

  /** The number of chunks: the ceiling of durationMs / chunkLengthMs. */
  function ChunkCount(durationMs: nat, chunkLengthMs: nat): (n: nat)
    requires chunkLengthMs > 0
    ensures n * chunkLengthMs >= durationMs
    ensures n == 0 || (n - 1) * chunkLengthMs < durationMs
  {
    var q := (durationMs + chunkLengthMs - 1) / chunkLengthMs;
    var r := (durationMs + chunkLengthMs - 1) % chunkLengthMs;
    assert q * chunkLengthMs + r == durationMs + chunkLengthMs - 1;
    assert (q - 1) * chunkLengthMs == q * chunkLengthMs - chunkLengthMs;
    q
  }

  /** The k-th slice `audio[k*L : (k+1)*L]`, clipped to the duration. */
  function ChunkSpan(k: nat, durationMs: nat, chunkLengthMs: nat): Span
  {
    Span(k * chunkLengthMs, Min((k + 1) * chunkLengthMs, durationMs))
  }

  /** Every slice taken by stepping through [0, durationMs) in strides of chunkLengthMs. */
  function Chunks(durationMs: nat, chunkLengthMs: nat): seq<Span>
    requires chunkLengthMs > 0
  {
    seq(ChunkCount(durationMs, chunkLengthMs), (k: nat) => ChunkSpan(k, durationMs, chunkLengthMs))
  }

  lemma MulMonotone(a: nat, b: nat, c: nat)
    requires a <= b
    ensures a * c <= b * c
  {
  }

  /** ceil(d / L) is the only count n with (n - 1) * L < d <= n * L. */
  lemma {:induction false} ChunkCountUnique(durationMs: nat, chunkLengthMs: nat, n: nat)
    requires chunkLengthMs > 0
    requires n * chunkLengthMs >= durationMs
    requires n == 0 || (n - 1) * chunkLengthMs < durationMs
    ensures n == ChunkCount(durationMs, chunkLengthMs)
  {
    var c := ChunkCount(durationMs, chunkLengthMs);
    if n < c {
      MulMonotone(n, c - 1, chunkLengthMs);
    } else if c < n {
      MulMonotone(c, n - 1, chunkLengthMs);
    }
  }

  /** Chunk k of the sequence starts at k * L, which lies inside the audio. */
  lemma ChunkAt(durationMs: nat, chunkLengthMs: nat, k: nat)
    requires chunkLengthMs > 0
    requires k < ChunkCount(durationMs, chunkLengthMs)
    ensures k * chunkLengthMs < durationMs
    ensures Chunks(durationMs, chunkLengthMs)[k]
         == Span(k * chunkLengthMs, Min(k * chunkLengthMs + chunkLengthMs, durationMs))
  {
    MulMonotone(k, ChunkCount(durationMs, chunkLengthMs) - 1, chunkLengthMs);
    assert (k + 1) * chunkLengthMs == k * chunkLengthMs + chunkLengthMs;
  }

  /** Consecutive chunk starts are L apart. */
  lemma NextStart(k: nat, chunkLengthMs: nat)
    ensures (k + 1) * chunkLengthMs == k * chunkLengthMs + chunkLengthMs
  {
  }

  /**
   * The chunks tile [0, durationMs): none is empty or longer than L, the
   * first starts at 0, each one ends where the next starts, and the last
   * ends at durationMs.
   */
  lemma {:induction false} ChunksTile(durationMs: nat, chunkLengthMs: nat)
    requires chunkLengthMs > 0
    ensures var cs := Chunks(durationMs, chunkLengthMs);
      && (cs == [] <==> durationMs == 0)
      && (cs != [] ==> cs[0].start == 0 && cs[|cs| - 1].end == durationMs)
      && (forall k :: 0 <= k < |cs| ==> 0 < cs[k].Length() <= chunkLengthMs)
      && (forall k :: 0 <= k < |cs| - 1 ==> cs[k].end == cs[k + 1].start)
  {
    var cs := Chunks(durationMs, chunkLengthMs);
    var n := |cs|;
    forall k | 0 <= k < n
      ensures 0 < cs[k].Length() <= chunkLengthMs
    {
      ChunkAt(durationMs, chunkLengthMs, k);
    }
    forall k | 0 <= k < n - 1
      ensures cs[k].end == cs[k + 1].start
    {
      ChunkAt(durationMs, chunkLengthMs, k);
      ChunkAt(durationMs, chunkLengthMs, k + 1);
      NextStart(k, chunkLengthMs);
    }
    if n > 0 {
      ChunkAt(durationMs, chunkLengthMs, n - 1);
      NextStart(n - 1, chunkLengthMs);
    }
  }

  /**
   * Start offsets strictly increase and chunks are pairwise disjoint:
   * an earlier chunk ends no later than a later one starts.
   */
  lemma {:induction false} ChunksOrderedDisjoint(durationMs: nat, chunkLengthMs: nat)
    requires chunkLengthMs > 0
    ensures var cs := Chunks(durationMs, chunkLengthMs);
      forall i, j :: 0 <= i < j < |cs| ==> cs[i].start < cs[j].start && cs[i].end <= cs[j].start
  {
    var cs := Chunks(durationMs, chunkLengthMs);
    forall i, j | 0 <= i < j < |cs|
      ensures cs[i].start < cs[j].start && cs[i].end <= cs[j].start
    {
      ChunkAt(durationMs, chunkLengthMs, i);
      ChunkAt(durationMs, chunkLengthMs, j);
      NextStart(i, chunkLengthMs);
      MulMonotone(i + 1, j, chunkLengthMs);
    }
  }

  /** t / L is the chunk index of t: (t / L) * L <= t < (t / L) * L + L. */
  lemma DivBounds(t: nat, chunkLengthMs: nat)
    requires chunkLengthMs > 0
    ensures (t / chunkLengthMs) * chunkLengthMs <= t < (t / chunkLengthMs) * chunkLengthMs + chunkLengthMs
  {
    var q, r := t / chunkLengthMs, t % chunkLengthMs;
    assert q * chunkLengthMs + r == t;
  }

  /** The only k with k * L <= t < k * L + L is t / L. */
  lemma QuotientUnique(t: nat, chunkLengthMs: nat, k: nat)
    requires chunkLengthMs > 0
    requires k * chunkLengthMs <= t < k * chunkLengthMs + chunkLengthMs
    ensures t / chunkLengthMs == k
  {
    var q := t / chunkLengthMs;
    DivBounds(t, chunkLengthMs);
    if q < k {
      MulMonotone(q + 1, k, chunkLengthMs);
    } else if k < q {
      MulMonotone(k + 1, q, chunkLengthMs);
    }
  }

  /** The chunk count is d / L, plus one for a shorter last chunk when L does not divide d. */
  lemma CountByRemainder(durationMs: nat, chunkLengthMs: nat)
    requires chunkLengthMs > 0
    ensures ChunkCount(durationMs, chunkLengthMs)
         == if durationMs % chunkLengthMs != 0 then durationMs / chunkLengthMs + 1 else durationMs / chunkLengthMs
  {
    var q, r := durationMs / chunkLengthMs, durationMs % chunkLengthMs;
    assert q * chunkLengthMs + r == durationMs;
    if r != 0 {
      NextStart(q, chunkLengthMs);
      ChunkCountUnique(durationMs, chunkLengthMs, q + 1);
    } else {
      if q > 0 {
        NextStart(q - 1, chunkLengthMs);
      }
      ChunkCountUnique(durationMs, chunkLengthMs, q);
    }
  }

  /** The instant t of the audio lies in chunk t / L. */
  lemma InstantInChunk(durationMs: nat, chunkLengthMs: nat, t: nat)
    requires chunkLengthMs > 0
    requires t < durationMs
    ensures t / chunkLengthMs < |Chunks(durationMs, chunkLengthMs)|
    ensures Chunks(durationMs, chunkLengthMs)[t / chunkLengthMs].Contains(t)
  {
    var L := chunkLengthMs;
    var n := ChunkCount(durationMs, L);
    var q := t / L;
    DivBounds(t, L);
    if q >= n {
      MulMonotone(n, q, L);
    }
    ChunkAt(durationMs, L, q);
  }

  /** An instant in chunk k lies inside the audio, and k is t / L. */
  lemma ChunkOfInstant(durationMs: nat, chunkLengthMs: nat, k: nat, t: int)
    requires chunkLengthMs > 0
    requires k < |Chunks(durationMs, chunkLengthMs)|
    requires Chunks(durationMs, chunkLengthMs)[k].Contains(t)
    ensures 0 <= t < durationMs && k == t / chunkLengthMs
  {
    ChunkAt(durationMs, chunkLengthMs, k);
    QuotientUnique(t, chunkLengthMs, k);
  }

  /**
   * Exact cover: every instant t of the audio lies in chunk t / L, and an
   * instant that lies in chunk k is inside the audio and has k == t / L,
   * so no instant lies in two chunks.
   */
  lemma {:induction false} ChunksCover(durationMs: nat, chunkLengthMs: nat)
    requires chunkLengthMs > 0
    ensures var cs := Chunks(durationMs, chunkLengthMs);
      && (forall t :: 0 <= t < durationMs ==> t / chunkLengthMs < |cs| && cs[t / chunkLengthMs].Contains(t))
      && (forall k, t :: 0 <= k < |cs| && cs[k].Contains(t) ==> 0 <= t < durationMs && k == t / chunkLengthMs)
  {
    forall t | 0 <= t < durationMs
      ensures t / chunkLengthMs < |Chunks(durationMs, chunkLengthMs)|
      ensures Chunks(durationMs, chunkLengthMs)[t / chunkLengthMs].Contains(t)
    {
      InstantInChunk(durationMs, chunkLengthMs, t);
    }
    forall k, t | 0 <= k < |Chunks(durationMs, chunkLengthMs)| && Chunks(durationMs, chunkLengthMs)[k].Contains(t)
      ensures 0 <= t < durationMs && k == t / chunkLengthMs
    {
      ChunkOfInstant(durationMs, chunkLengthMs, k, t);
    }
  }

  /**
   * Every chunk but the last is exactly L long; the last is durationMs mod L
   * long when that is nonzero, and L long otherwise.
   */
  lemma {:induction false} ChunkLengths(durationMs: nat, chunkLengthMs: nat)
    requires chunkLengthMs > 0
    ensures var cs := Chunks(durationMs, chunkLengthMs);
      && (forall k :: 0 <= k < |cs| - 1 ==> cs[k].Length() == chunkLengthMs)
      && (cs != [] ==>
            cs[|cs| - 1].Length()
              == if durationMs % chunkLengthMs != 0 then durationMs % chunkLengthMs else chunkLengthMs)
  {
    var cs := Chunks(durationMs, chunkLengthMs);
    var n := |cs|;
    var L := chunkLengthMs;
    forall k | 0 <= k < n - 1
      ensures cs[k].Length() == L
    {
      ChunkAt(durationMs, L, k);
      ChunkAt(durationMs, L, k + 1);
      NextStart(k, L);
    }
    if n > 0 {
      var q, r := durationMs / L, durationMs % L;
      assert q * L + r == durationMs;
      CountByRemainder(durationMs, L);
      ChunkAt(durationMs, L, n - 1);
      if r == 0 {
        NextStart(n - 1, L);
      }
    }
  }

  /** An empty audio has no chunks; audio no longer than one chunk is one whole chunk. */
  lemma {:induction false} ShortAudioChunks(durationMs: nat, chunkLengthMs: nat)
    requires chunkLengthMs > 0
    ensures durationMs == 0 ==> Chunks(durationMs, chunkLengthMs) == []
    ensures 0 < durationMs <= chunkLengthMs ==> Chunks(durationMs, chunkLengthMs) == [Span(0, durationMs)]
  {
    if 0 < durationMs <= chunkLengthMs {
      ChunkCountUnique(durationMs, chunkLengthMs, 1);
    }
  }

  /** A 25-minute file is cut into chunks of 10, 10 and 5 minutes. */
  lemma TwentyFiveMinutes()
    ensures Chunks(25 * 60 * 1000, AudioChunkLengthMs)
         == [Span(0, 600000), Span(600000, 1200000), Span(1200000, 1500000)]
  {
    ChunkCountUnique(25 * 60 * 1000, AudioChunkLengthMs, 3);
  }

  /**
   * `split_audio_file`: step i through range(0, durationMs, L) and append
   * the clipped slice [i, i + L) at each step.
   */
  method SplitAudioFile(durationMs: nat) returns (chunks: seq<Span>)
    ensures chunks == Chunks(durationMs, AudioChunkLengthMs)
  {
    chunks := [];
    var i: nat := 0;
    while i < durationMs
      invariant i == |chunks| * AudioChunkLengthMs
      invariant |chunks| <= ChunkCount(durationMs, AudioChunkLengthMs)
      invariant forall k :: 0 <= k < |chunks| ==> chunks[k] == ChunkSpan(k, durationMs, AudioChunkLengthMs)
    {
      chunks := chunks + [Span(i, Min(i + AudioChunkLengthMs, durationMs))];
      i := i + AudioChunkLengthMs;
    }
  }
}
