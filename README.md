# Chunked, context-chained audio transcription

This project models the core of a batch transcriber for MP3 files. The
transcriber sends each file to a remote speech-to-text service. A file
larger than 25 MiB is first cut into ten-minute chunks. The chunks are
transcribed one after another, and each call gets the previous chunk's
full transcript as its prompt. The per-chunk texts are then joined with
newlines. A file of 25 MiB or less is sent whole, in one call without a
prompt.

Modules, one per file:

- `Wrappers` (`wrappers.dfy`): `Option`. `None` stands for a failed service call.
- `Chunking` (`chunking.dfy`): `split_audio_file`. Audio is modelled only
  by its duration in whole milliseconds. A chunk is the `Span` `[start, end)`
  that the clipped slice `audio[i:i + L]` selects. `Chunks(d, L)` is the
  reference sequence of chunks. `SplitAudioFile` is the loop, proved equal
  to it. Lemmas prove that the chunks tile, order and exactly cover the
  audio, how many there are, and how long each one is.
- `Assembly` (`assembly.dfy`): `'\n'.join` as `Join`, together with its
  inverse `Split` (Python's `str.split('\n')`). The two round-trip lemmas
  show that joining adds one separator between neighbours and nothing else.
- `Transcription` (`transcription.dfy`): the size test, the chunk loop and
  one file's pipeline. The service is a parameter: a total function from a
  `Request` (the whole file or one chunk's slice, plus an optional prompt)
  to `Option<string>`. `Chain` is the chunk loop written as a fold, and
  `ChainCalls` lists the requests the loop issues. `TranscribeChunks` is the
  loop itself, proved equal to both. `TranscribeFile` is the body of `main`
  for one file. Its result `written` is what goes into the `.txt` file;
  `None` means nothing is written.

In the source nothing catches the service's exception, so one failing
file ends the whole run and later files are never processed. The model
covers one file: a failed call there yields `None`, and no text is written.

## Model

| member | source | states |
|---|---|---|
| `Chunking.ChunkCount` | openai_whisper_api.py:25 | the number of loop steps `n` is the ceiling of duration / L: `n * L >= d` and `(n - 1) * L < d` |
| `Chunking.ChunkCountUnique` | openai_whisper_api.py:25 | any count `n` with `(n - 1) * L < d <= n * L` is that ceiling |
| `Chunking.ChunkAt` | openai_whisper_api.py:25-26 | chunk k is `[k * L, min(k * L + L, d))` and its start `k * L` lies inside the audio |
| `Chunking.ChunksTile` | openai_whisper_api.py:25-27 | no chunks iff the duration is 0; the first starts at 0, the last ends at the duration, each chunk has length in `(0, L]`, and each ends where the next begins |
| `Chunking.ChunksOrderedDisjoint` | openai_whisper_api.py:25-27 | start offsets strictly increase, and an earlier chunk ends no later than any later chunk starts (pairwise disjoint) |
| `Chunking.ChunksCover` | openai_whisper_api.py:25-27 | every instant `t` in `[0, d)` lies in chunk `t / L`, and an instant in chunk k lies in `[0, d)` with `k == t / L`, so it lies in no other chunk |
| `Chunking.ChunkLengths` | openai_whisper_api.py:26 | every chunk but the last is exactly L long; the last is `d mod L` long when that is nonzero, otherwise L |
| `Chunking.ShortAudioChunks` | openai_whisper_api.py:25-27 | zero duration gives no chunks; `0 < d <= L` gives the single chunk `[0, d)` |
| `Chunking.TwentyFiveMinutes` | openai_whisper_api.py:11 | with L = 600000 ms, a 25-minute file gives chunks of 10, 10 and 5 minutes |
| `Chunking.ChunkSpan` | openai_whisper_api.py:26 | the clipped slice `audio[k*L : (k+1)*L]` as a time range; its properties are stated by `ChunkAt`, `ChunksTile` and `ChunkLengths` |
| `Chunking.Chunks` | openai_whisper_api.py:25-27 | the sequence of slices the loop collects; `SplitAudioFile` is proved equal to it, and its tiling, cover, order and lengths are stated by the lemmas above |
| `Chunking.SplitAudioFile` | openai_whisper_api.py:23-29 | the loop over `range(0, len, L)`, with clipped slices appended, returns exactly `Chunks(d, 600000)` |
| `Assembly.Join` | openai_whisper_api.py:76 | `'\n'.join`; `JoinAppend`, `JoinLength`, `SplitJoin` and `JoinSplit` state what it does |
| `Assembly.JoinAppend` | openai_whisper_api.py:76 | joining one more text adds exactly one `'\n'` and then that text, unchanged |
| `Assembly.JoinLength` | openai_whisper_api.py:76 | the joined text's length is the total length of the texts plus one separator per boundary |
| `Assembly.SplitJoin` | openai_whisper_api.py:76 | for every nonempty list `ts` of newline-free texts, `Split(Join(ts)) == ts`: the join can be taken apart into exactly the texts it was made from |
| `Assembly.JoinSplit` | openai_whisper_api.py:76 | joining the pieces of any string gives the string back: nothing is trimmed, merged or dropped |
| `Transcription.ExceedsSizeLimit` | openai_whisper_api.py:61-64 | the integer test `bytes > 25 * 1048576` holds exactly when `bytes / 1048576` (exact division) exceeds 25 |
| `Transcription.SizeThresholdBoundary` | openai_whisper_api.py:64 | a file of exactly 25 MiB is not split; one byte more and it is |
| `Transcription.WholeFileRequest` | openai_whisper_api.py:80-81 | the one call for a file at or under the limit: the whole file, with no prompt argument; `TranscribeFile` states that it is the only call made |
| `Transcription.ChunkRequest` | openai_whisper_api.py:71 | the call `transcribe_chunk(chunk, prompt=previous_transcript)`: the chunk's slice with the prompt given; `ChainCallsChained` states which prompts the loop passes |
| `Transcription.Chain` | openai_whisper_api.py:66-74 | on success the loop has one text per chunk; on failure the failing chunk's index is a valid chunk index |
| `Transcription.ChainCalls` | openai_whisper_api.py:69-71 | the requests the loop sends, in order; `ChainCallsOutcome` states how many there are and how they end, `ChainCallsChained` their chunks and prompts, and `TranscribeChunks` that the loop sends exactly these |
| `Transcription.ChainTranscribedSound` | openai_whisper_api.py:67-74 | a successful loop's texts are chained: the call for chunk k, prompted with text k - 1 ("" for the first chunk), returned text k |
| `Transcription.ChainTranscribedComplete` | openai_whisper_api.py:67-74 | conversely, chained texts are what the loop returns |
| `Transcription.ChainTranscribedIff` | openai_whisper_api.py:67-74 | the loop succeeds with texts ts if and only if ts are the chained texts of the chunks |
| `Transcription.ChainFailedAtIff` | openai_whisper_api.py:69-74 | the loop fails at chunk f if and only if every chunk before f succeeded and the call for chunk f, prompted with the previous text, failed |
| `Transcription.ChainFailureFinal` | openai_whisper_api.py:71 | once a prefix of the chunks has failed, the later chunks change neither the outcome nor the calls issued |
| `Transcription.ChainCallsOutcome` | openai_whisper_api.py:69-72 | on success, one call per chunk, and call k returned text k; on failure at chunk f, exactly f + 1 calls, the last of which failed, and no later call |
| `Transcription.ChainCallsChained` | openai_whisper_api.py:67-74 | call k is for chunk k (chunk order); the first prompt is `""`, and each later prompt is exactly the text the call before it returned |
| `Transcription.TranscribeChunks` | openai_whisper_api.py:66-74 | the loop, with its early exit on a failing call, returns `Chain` and issues exactly `ChainCalls` |
| `Transcription.PromptFor` | openai_whisper_api.py:67-74 | the value of `previous_transcript`: `""` before the first call, then the last text; `TranscribeChunks` keeps this as a loop invariant and `ChainCallsChained` states the resulting prompts |
| `Transcription.Assembled` | openai_whisper_api.py:76-85 | the text written for a chunked file: the join on success, nothing on failure; `ChunkedFileText` and `TranscribeFile` state it |
| `Transcription.TranscribeFile` | openai_whisper_api.py:61-85 | at or under the limit: one whole-file call with no prompt, and its text is written; above it: the chunk loop's calls, and the newline join of its texts is written, or nothing if a chunk failed |
| `Transcription.ChunkedFileText` | openai_whisper_api.py:64-76 | a chunked file's text exists iff the chunks have chained texts, and it is then their newline join |
| `Transcription.TwentyFiveMinuteFile` | openai_whisper_api.py:64-76 | a 25-minute file goes out as three chunks, and chained replies a, b, c give the text `a\nb\nc` |

## Left out

- Loading the API key from `api_key.txt` (lines 6-7): file I/O and global configuration.
- The service call `openai.Audio.transcribe` (lines 47, 81) is a parameter of type `Request -> Option<string>`. Its behaviour is not modelled. Being a function, it answers the same request the same way every time. `None` stands for a raised exception only.
- Decoding the MP3 with pydub (line 22) and exporting chunks to MP3 (line 43): audio codecs belong to a foreign library. Audio is modelled only by its duration. A file that fails to decode is not modelled.
- Creating and removing the temporary file `temp_chunk.mp3` (lines 42-50): a filesystem side effect. It is removed after a successful call and left behind when the call raises. A chunk's request carries its `Span` instead of the encoded bytes.
- Listing the directory, the `.mp3` filter, `os.path.getsize`, and writing the `.txt` sibling (lines 56-61, 84-85): filesystem plumbing. The size and the duration are inputs of `TranscribeFile`, and its `written` result stands for the text written.
- A reply without a `text` field: `.get('text')` (line 47) then gives Python's `None` without raising. That value is appended and becomes the next prompt (lines 71-74), so later chunk calls still go out. The crash comes only at the join (line 76). In the whole-file branch it comes at the write (line 85), after line 84 has already created or truncated the `.txt` file. The model does not represent such a reply. Its promises that no later call is made and nothing is written (ChainCallsOutcome, ChainFailedAtIff, TranscribeFile, ChunkedFileText) hold for a raised exception only.
- Across files: the source has no error handling, so a failing call ends the whole batch. The model describes one file.
- ExceedsSizeLimit: compares with exact real division, not IEEE double division. The two agree for every size below 2^53 bytes, because dividing by 2^20 is exact in binary floating point.
