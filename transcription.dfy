/**
 * Transcribing one audio file: the size decision, the chunk loop that seeds
 * each call with the previous call's text, and the assembly of the result.
 *
 * The speech-to-text service is a parameter: a total function from a
 * request to either the recognised text or a failure (None). A failing call
 * stands for the exception the service raises, which ends the whole file.
 */
module Transcription {
  import opened Wrappers
  import opened Chunking
  import opened Assembly

  /** Files larger than this many MiB are split before transcription. */
  const MaxFileSizeMb: nat := 25
  const BytesPerMb: nat := 1024 * 1024

  /** What a request sends: the whole file, or the encoded slice of one chunk. */
  datatype Audio = WholeFile | Slice(span: Span)

  /** One call of the service; `prompt` is None when no prompt argument is passed. */
  datatype Request = Request(audio: Audio, prompt: Option<string>)

  type Service = Request -> Option<string>

  /** The single call made for a file at or under the size limit: the whole file, no prompt. */
  function WholeFileRequest(): Request
  {
    Request(WholeFile, None)
  }

  /** The call made for one chunk, with the previous chunk's text as prompt. */
  function ChunkRequest(span: Span, prompt: string): Request
  {
    Request(Slice(span), Some(prompt))
  }

  /**
   * The size test `getsize(f) / (1024 * 1024) > 25`, on integers: it holds
   * exactly when the size in MiB, as an exact quotient, exceeds the limit.
   */
  function ExceedsSizeLimit(sizeBytes: nat): (b: bool)
    ensures b <==> (sizeBytes as real) / (BytesPerMb as real) > MaxFileSizeMb as real
  {
    var mb := (sizeBytes as real) / (BytesPerMb as real);
    assert mb * (BytesPerMb as real) == sizeBytes as real;
    sizeBytes > MaxFileSizeMb * BytesPerMb
  }

  /** The outcome of the chunk loop: every chunk's text in order, or the chunk whose call failed. */
  datatype Chained = Transcribed(texts: seq<string>) | FailedAt(chunk: nat)

  /** The prompt for the next call: the last text so far, or "" before the first call. */
  function PromptFor(texts: seq<string>): string
  {
    if texts == [] then "" else texts[|texts| - 1]
  }

  /** The chunk loop as a fold over the chunks, one chunk at a time. */
  function Chain(chunks: seq<Span>, service: Service): (r: Chained)
    ensures r.Transcribed? ==> |r.texts| == |chunks|
    ensures r.FailedAt? ==> r.chunk < |chunks|
    decreases |chunks|
  {
    if chunks == [] then Transcribed([])
    else
      match Chain(chunks[..|chunks| - 1], service)
      case FailedAt(f) => FailedAt(f)
      case Transcribed(texts) =>
        match service(ChunkRequest(chunks[|chunks| - 1], PromptFor(texts)))
        case None => FailedAt(|chunks| - 1)
        case Some(t) => Transcribed(texts + [t])
  }

  /** The requests the chunk loop issues, in the order it issues them. */
  function ChainCalls(chunks: seq<Span>, service: Service): seq<Request>
    decreases |chunks|
  {
    if chunks == [] then []
    else
      var init := chunks[..|chunks| - 1];
      match Chain(init, service)
      case FailedAt(_) => ChainCalls(init, service)
      case Transcribed(texts) =>
        ChainCalls(init, service) + [ChunkRequest(chunks[|chunks| - 1], PromptFor(texts))]
  }

  /**
   * ts is one text per chunk, and each chunk's call, prompted with the text
   * before it ("" for the first), returns that chunk's text.
   */
  predicate ChainedTexts(chunks: seq<Span>, service: Service, ts: seq<string>)
  {
    && |ts| == |chunks|
    && forall k {:trigger chunks[k]} :: 0 <= k < |chunks| ==>
         service(ChunkRequest(chunks[k], if k == 0 then "" else ts[k - 1])) == Some(ts[k])
  }

  lemma {:induction false} ChainTranscribedSound(chunks: seq<Span>, service: Service, ts: seq<string>)
    requires Chain(chunks, service) == Transcribed(ts)
    ensures ChainedTexts(chunks, service, ts)
    decreases |chunks|
  {
    if chunks != [] {
      var n := |chunks|;
      var init := chunks[..n - 1];
      var texts := Chain(init, service).texts;
      assert texts + [service(ChunkRequest(chunks[n - 1], PromptFor(texts))).value] == ts;
      ChainTranscribedSound(init, service, texts);
      forall k | 0 <= k < n
        ensures service(ChunkRequest(chunks[k], if k == 0 then "" else ts[k - 1])) == Some(ts[k])
      {
        if k < n - 1 {
          assert init[k] == chunks[k] && texts[k] == ts[k];
          assert k > 0 ==> texts[k - 1] == ts[k - 1];
        }
      }
    }
  }

  lemma {:induction false} ChainTranscribedComplete(chunks: seq<Span>, service: Service, ts: seq<string>)
    requires ChainedTexts(chunks, service, ts)
    ensures Chain(chunks, service) == Transcribed(ts)
    decreases |chunks|
  {
    if chunks != [] {
      var n := |chunks|;
      var init, ts' := chunks[..n - 1], ts[..n - 1];
      forall k | 0 <= k < n - 1
        ensures service(ChunkRequest(init[k], if k == 0 then "" else ts'[k - 1])) == Some(ts'[k])
      {
        assert init[k] == chunks[k] && ts'[k] == ts[k];
        assert k > 0 ==> ts'[k - 1] == ts[k - 1];
      }
      ChainTranscribedComplete(init, service, ts');
      assert Chain(init, service) == Transcribed(ts');
      var prompt := if n - 1 == 0 then "" else ts[n - 2];
      assert PromptFor(ts') == prompt;
      assert service(ChunkRequest(chunks[n - 1], prompt)) == Some(ts[n - 1]);
      assert ts' + [ts[n - 1]] == ts;
    }
  }

  /** The loop succeeds with texts ts exactly when ts are the chained texts of the chunks. */
  lemma ChainTranscribedIff(chunks: seq<Span>, service: Service, ts: seq<string>)
    ensures Chain(chunks, service) == Transcribed(ts) <==> ChainedTexts(chunks, service, ts)
  {
    if Chain(chunks, service) == Transcribed(ts) {
      ChainTranscribedSound(chunks, service, ts);
    }
    if ChainedTexts(chunks, service, ts) {
      ChainTranscribedComplete(chunks, service, ts);
    }
  }

  /**
   * The loop fails at chunk f exactly when every earlier chunk succeeded and
   * the call for chunk f, prompted with chunk f - 1's text, failed.
   */
  lemma {:induction false} ChainFailedAtIff(chunks: seq<Span>, service: Service, f: nat)
    ensures Chain(chunks, service) == FailedAt(f)
        <==> (&& f < |chunks|
              && Chain(chunks[..f], service).Transcribed?
              && service(ChunkRequest(chunks[f], PromptFor(Chain(chunks[..f], service).texts))) == None)
    decreases |chunks|
  {
    if chunks != [] {
      var n := |chunks|;
      var init := chunks[..n - 1];
      ChainFailedAtIff(init, service, f);
      if f < n - 1 {
        assert init[..f] == chunks[..f];
        assert init[f] == chunks[f];
      } else if f == n - 1 {
        assert chunks[..f] == init;
      }
    }
  }

  /** The loop's outcome on a prefix that already failed is its outcome on the whole. */
  lemma {:induction false} ChainFailureFinal(chunks: seq<Span>, i: nat, service: Service)
    requires i <= |chunks|
    requires Chain(chunks[..i], service).FailedAt?
    ensures Chain(chunks, service) == Chain(chunks[..i], service)
    ensures ChainCalls(chunks, service) == ChainCalls(chunks[..i], service)
    decreases |chunks| - i
  {
    if i < |chunks| {
      var next := chunks[..i + 1];
      assert next[..i] == chunks[..i];
      assert Chain(next, service) == Chain(chunks[..i], service);
      ChainFailureFinal(chunks, i + 1, service);
    } else {
      assert chunks[..i] == chunks;
    }
  }

  /**
   * How the calls end: one call per chunk when the loop succeeds, call k
   * returning the k-th text; when chunk f fails, exactly f + 1 calls, the
   * last of them the failing one, and none after it.
   */
  lemma {:induction false} ChainCallsOutcome(chunks: seq<Span>, service: Service)
    ensures var calls := ChainCalls(chunks, service);
      match Chain(chunks, service)
      case Transcribed(texts) =>
        && |calls| == |chunks|
        && forall k :: 0 <= k < |calls| ==> service(calls[k]) == Some(texts[k])
      case FailedAt(f) =>
        && |calls| == f + 1
        && service(calls[f]) == None
    decreases |chunks|
  {
    if chunks != [] {
      var n := |chunks|;
      var init := chunks[..n - 1];
      ChainCallsOutcome(init, service);
      match Chain(init, service)
      case FailedAt(_) =>
      case Transcribed(texts) =>
        var calls := ChainCalls(chunks, service);
        assert calls == ChainCalls(init, service) + [ChunkRequest(chunks[n - 1], PromptFor(texts))];
    }
  }

  /**
   * The calls go out in chunk order, each with a prompt: the first prompt is
   * "", and every later prompt is exactly the text the call before it
   * returned.
   */
  lemma {:induction false} ChainCallsChained(chunks: seq<Span>, service: Service)
    ensures var calls := ChainCalls(chunks, service);
      && (forall k :: 0 <= k < |calls| ==> k < |chunks| && calls[k].audio == Slice(chunks[k]) && calls[k].prompt.Some?)
      && (calls != [] ==> calls[0].prompt == Some(""))
      && (forall k :: 0 < k < |calls| ==> service(calls[k - 1]) == calls[k].prompt)
    decreases |chunks|
  {
    if chunks != [] {
      var n := |chunks|;
      var init := chunks[..n - 1];
      ChainCallsChained(init, service);
      ChainCallsOutcome(init, service);
      var calls' := ChainCalls(init, service);
      assert forall k :: 0 <= k < |calls'| ==> init[k] == chunks[k];
      match Chain(init, service)
      case FailedAt(_) =>
      case Transcribed(texts) =>
        var calls := ChainCalls(chunks, service);
        assert calls == calls' + [ChunkRequest(chunks[n - 1], PromptFor(texts))];
        if n > 1 {
          assert service(calls'[n - 2]) == Some(texts[n - 2]);
        }
    }
  }

  /**
   * The chunked branch's loop: each chunk is transcribed in order with the
   * previous transcript as prompt, its text appended and carried forward;
   * a failing call ends the loop at once. `calls` records every request.
   */
  method TranscribeChunks(chunks: seq<Span>, service: Service) returns (outcome: Chained, ghost calls: seq<Request>)
    ensures outcome == Chain(chunks, service)
    ensures calls == ChainCalls(chunks, service)
  {
    var transcriptions: seq<string> := [];
    var previousTranscript := "";
    calls := [];
    for i := 0 to |chunks|
      invariant Chain(chunks[..i], service) == Transcribed(transcriptions)
      invariant previousTranscript == PromptFor(transcriptions)
      invariant calls == ChainCalls(chunks[..i], service)
    {
      var request := ChunkRequest(chunks[i], previousTranscript);
      calls := calls + [request];
      var reply := service(request);
      assert chunks[..i + 1][..i] == chunks[..i];
      if reply.None? {
        outcome := FailedAt(i);
        ChainFailureFinal(chunks, i + 1, service);
        return;
      }
      transcriptions := transcriptions + [reply.value];
      previousTranscript := reply.value;
    }
    assert chunks[..|chunks|] == chunks;
    outcome := Transcribed(transcriptions);
  }

  /** The text written for a file: the newline join on success, nothing when a call failed. */
  function Assembled(r: Chained): Option<string>
  {
    match r
    case Transcribed(texts) => Some(Join(texts))
    case FailedAt(_) => None
  }

  /**
   * One file of the batch: above the size limit, split it, run the chunk
   * loop and join the texts; otherwise make one whole-file call without a
   * prompt. `written` is what goes into the file's `.txt` sibling (None:
   * nothing is written); `calls` records every request.
   */
  method TranscribeFile(sizeBytes: nat, durationMs: nat, service: Service)
    returns (written: Option<string>, ghost calls: seq<Request>)
    ensures !ExceedsSizeLimit(sizeBytes) ==> written == service(WholeFileRequest())
    ensures ExceedsSizeLimit(sizeBytes) ==>
      written == Assembled(Chain(Chunks(durationMs, AudioChunkLengthMs), service))
    ensures !ExceedsSizeLimit(sizeBytes) ==> calls == [WholeFileRequest()]
    ensures ExceedsSizeLimit(sizeBytes) ==>
      calls == ChainCalls(Chunks(durationMs, AudioChunkLengthMs), service)
  {
    if ExceedsSizeLimit(sizeBytes) {
      var audioChunks := SplitAudioFile(durationMs);
      var outcome;
      outcome, calls := TranscribeChunks(audioChunks, service);
      match outcome
      case FailedAt(_) =>
        written := None;
      case Transcribed(transcriptions) =>
        written := Some(Join(transcriptions));
    } else {
      calls := [WholeFileRequest()];
      written := service(WholeFileRequest());
    }
  }

  /**
   * A chunked file gets text exactly when some chained texts of its chunks
   * exist, and the text is then their newline join. (When a chunk call
   * fails there is no text, by the definition of Assembled.)
   */
  lemma ChunkedFileText(chunks: seq<Span>, service: Service, text: string)
    ensures Assembled(Chain(chunks, service)) == Some(text)
        <==> exists ts :: ChainedTexts(chunks, service, ts) && text == Join(ts)
  {
    match Chain(chunks, service)
    case Transcribed(ts) =>
      ChainTranscribedSound(chunks, service, ts);
      if exists ts' :: ChainedTexts(chunks, service, ts') && text == Join(ts') {
        var ts' :| ChainedTexts(chunks, service, ts') && text == Join(ts');
        ChainTranscribedComplete(chunks, service, ts');
      }
    case FailedAt(_) =>
      if exists ts' :: ChainedTexts(chunks, service, ts') && text == Join(ts') {
        var ts' :| ChainedTexts(chunks, service, ts') && text == Join(ts');
        ChainTranscribedComplete(chunks, service, ts');
        assert false;
      }
  }

  /**
   * A 25-minute file over the size limit is sent as three chunks; when the
   * three chained calls return a, b and c, the file's text is a, b and c on
   * three lines.
   */
  lemma TwentyFiveMinuteFile(service: Service, a: string, b: string, c: string)
    requires ChainedTexts(Chunks(25 * 60 * 1000, AudioChunkLengthMs), service, [a, b, c])
    ensures |Chunks(25 * 60 * 1000, AudioChunkLengthMs)| == 3
    ensures Assembled(Chain(Chunks(25 * 60 * 1000, AudioChunkLengthMs), service))
         == Some(a + "\n" + b + "\n" + c)
  {
    TwentyFiveMinutes();
    ChainTranscribedComplete(Chunks(25 * 60 * 1000, AudioChunkLengthMs), service, [a, b, c]);
    assert [a, b, c][1..] == [b, c];
    assert [b, c][1..] == [c];
    assert Join([b, c]) == b + [Separator] + c;
    assert Join([a, b, c]) == a + [Separator] + (b + [Separator] + c);
    assert "\n" == [Separator];
    assert a + [Separator] + (b + [Separator] + c) == a + [Separator] + b + [Separator] + c;
  }

  /** At exactly 25 MiB the file is not split; one byte more and it is. */
  lemma SizeThresholdBoundary()
    ensures !ExceedsSizeLimit(25 * 1024 * 1024)
    ensures ExceedsSizeLimit(25 * 1024 * 1024 + 1)
  {
  }
}
