# YouTube RAG assistant — a Dafny model of its core

The assistant turns a YouTube video into an answerable knowledge base. It
fetches a transcript and cuts it into overlapping, time-stamped chunks. It
stores those chunks in a vector store, one copy per video. To answer a
question, it formats the retrieved chunks into a context with citation links
and keeps a short chat memory per session. This project models the parts of
that pipeline that decide *what* is stored, cited and remembered, and proves
their properties:

- **Chunking** (`chunker.dfy`, module `Chunker`): `build_chunks` is an
  imperative method whose nested loops are proved against `Chunks`.
  `Chunks` is a specification function that reads one window of segments
  per chunk. The lemmas state what every chunk holds, how consecutive
  windows overlap and that nothing non-blank is lost. They hold for every
  word budget and overlap, including the defaults of 400 and 50 words
  (`DefaultTargetWords`, `DefaultOverlapWords`).
- **Chat memory and answering** (`ragpipeline.dfy`, module `RagPipeline`):
  - The in-process session store is a class with a `map` field. Its two
    methods are proved against `History` and `Saved`.
  - `ask` is a method over that store. It receives the answering chain as a
    function parameter.
  - Timestamp rendering is proved to read back as the clamped number of
    seconds.
  - The context formatting of retrieved chunks is a method proved against
    `Context`.
- **Indexing with deduplication** (`embedder.dfy`, module `Embedder`):
  - The vector store is an append-only sequence of chunks held by a class.
  - `index_documents` drops the chunks of videos the store already holds.
  - The existence lookups may raise. That exception is swallowed, and the
    model makes that path explicit.
- **Video-id extraction and transcript normalisation**
  (`transcriptfetcher.dfy`, module `TranscriptFetcher`):
  - `extract_video_id` is modelled over a model of `urlparse` and
    `parse_qs`. Its rules are proved for every URL shape the app documents.
    The proofs also cover the rules' error cases and the fallback.
  - The normalisation loop over Whisper segments is a method proved against
    `Normalised`.
- **Citations** (`citations.dfy`, module `Citations`): the link a context
  header cites leads back, through the id-extraction rules, to the cited
  video.
- Shared modules:
  - `text.dfy` (module `Text`) models Python's whitespace set and
    `strip`/`split`/`join`, word counting, `in`, `find` and `lower`. It also
    models decimal rendering and `repr` of strings.
  - `records.dfy` holds the segment, transcript and chunk records.
  - `wrappers.dfy` holds `Option` and `Result`.

Environment reads, the clock, the network and the LLM are parameters or are
left out; see below.

## Model

| member | source | states |
|---|---|---|
| Chunker.Trunc | utils/chunker.py:70 | `int(float(x))` truncates toward zero: the result lies within one of `x`, on zero's side |
| Chunker.CollectChunk | utils/chunker.py:52-62 | the inner loop collects exactly the non-blank segments of the window from `i0` and stops where `CollectEnd` says |
| Chunker.CollectEndWords | utils/chunker.py:55-62 | a window ends at the first segment where its word count reaches the target, or at the end of the transcript; one segment earlier it was still short of the target |
| Chunker.OverlapStart | utils/chunker.py:85-92 | the backward walk returns `OverlapPoint` of the chunk |
| Chunker.OverlapPointSpec | utils/chunker.py:85-92 | the tail from the returned position holds at least `overlap_words` words, unless the position is 0; no later tail does; with no overlap wanted the walk stays at the end of the chunk |
| Chunker.Advance | utils/chunker.py:94 | the window start always moves on by 1 to `len(chunk)`; by the overlap start when that is positive, and by the whole chunk when the overlap start is the chunk's length |
| Chunker.NextStartBounds | utils/chunker.py:55-94 | the next window starts strictly after the current one's start and at most at its end; exactly at its end when no overlap is wanted |
| Chunker.ChunkForWindow | utils/chunker.py:62-82 | a chunk's text is non-empty and has as many words as the running count summed over its segments |
| Chunker.BuildChunks | utils/chunker.py:15-96 | the method returns `Chunks(t, target, overlap)`, one chunk per window |
| Chunker.ChunkAt | utils/chunker.py:40-82 | every chunk is built from a window of the transcript. Its text is the trimmed non-blank texts joined by spaces, and it is not empty. Its start time is the truncated start of the first non-blank segment. It carries the transcript's id, URL and title, `Untitled video` when the title is empty. It reaches the target unless it ends the transcript, and without its last segment it would fall short |
| Chunker.ChunksInOrder | utils/chunker.py:84-94 | consecutive windows: the next starts after the previous start and no later than the previous end, so no segment is skipped; with no overlap the windows tile the transcript |
| Chunker.ChunksCover | utils/chunker.py:43-65 | there is at most one chunk per non-blank segment; there are none exactly when the target is not positive or every segment is blank; the first window starts at segment 0; with a positive target no non-blank segment follows the last window |
| Text.WordCount | utils/chunker.py:99-101 | `len(text.split()) if text else 0`: the number of maximal runs of non-whitespace characters |
| Text.WordCountBound | utils/chunker.py:99-101 | the count of whitespace-separated words is at most half the length, rounded up |
| Text.WordCountZero | utils/chunker.py:99-101 | `_word_count` is 0 exactly when the text is blank |
| Text.WordCountJoin | utils/chunker.py:67-69 | joining with single spaces neither merges nor splits words: the word count of the join is the sum of the parts' counts |
| Text.JoinStrippedUnchanged | utils/chunker.py:67-69 | the final `.strip()` of a join of non-empty, already trimmed texts changes nothing |
| Text.StripEmpty | utils/chunker.py:57-58 | stripping leaves nothing exactly when the text is blank |
| Text.StripIdempotent | utils/rag_pipeline.py:65 | stripping twice is stripping once |
| RagPipeline.SessionKey | utils/rag_pipeline.py:65 | the session key is never empty |
| RagPipeline.SessionKeyBlank | utils/rag_pipeline.py:65 | a blank id maps to `"default"`, any other to its stripped form |
| RagPipeline.SessionKeyIdempotent | utils/rag_pipeline.py:65 | normalising a key again gives the same key |
| RagPipeline.Recent | utils/rag_pipeline.py:68 | `exchanges[-5:]`: the last `min(5, n)` exchanges, in order |
| RagPipeline.HistoryLinesAt | utils/rag_pipeline.py:71-74 | line `2k` is `Human: ` plus question `k` and line `2k+1` is `Assistant: ` plus answer `k` |
| RagPipeline.HistoryEmpty | utils/rag_pipeline.py:66-70 | the history string is empty exactly when the session holds no exchanges |
| RagPipeline.RenderEndsWithLast | utils/rag_pipeline.py:71-75 | the rendered history ends with the newest exchange's two lines |
| RagPipeline.HistoryAfterSave | utils/rag_pipeline.py:62-84 | right after a save, the session's history ends with the saved exchange |
| RagPipeline.SaveAppends | utils/rag_pipeline.py:81-84 | a save appends exactly one exchange under the session's key and changes no other session |
| RagPipeline.SessionIsolation | utils/rag_pipeline.py:65-84 | saving under one session never changes the history of a session with a different key |
| RagPipeline.MemoryStore.constructor | utils/rag_pipeline.py:28 | the store starts empty |
| RagPipeline.MemoryStore.GetHistory | utils/rag_pipeline.py:62-75 | the loop builds exactly `History(sessions, id)` |
| RagPipeline.MemoryStore.SaveHistory | utils/rag_pipeline.py:78-84 | the new sessions map is `Saved(old sessions, id, q, a)` |
| RagPipeline.Ask | utils/rag_pipeline.py:31-59 | a blank question gets the please-enter reply and a missing key the missing-key reply, and neither changes memory. Otherwise the chain receives the trimmed question and the history read before the call. An answer is returned and saved. A raised exception becomes the `Sorry — …(Class: message)` reply and nothing is saved |
| RagPipeline.ClockOf | utils/rag_pipeline.py:156-159 | negative durations clamp to 0; minutes and seconds are below 60 and add back up to the clamped total |
| RagPipeline.FormatTimestamp | utils/rag_pipeline.py:153-162 | the rendering is at least `MM:SS` wide and holds only digits and colons |
| RagPipeline.TimestampFields | utils/rag_pipeline.py:160-162 | the colon-separated fields are hours, then two-digit minutes and seconds from one hour on; otherwise just the two-digit minutes and seconds |
| RagPipeline.TimestampShape | utils/rag_pipeline.py:153-162 | `H:MM:SS` exactly from 3600 seconds on, else `MM:SS`, with the last two fields always two digits wide |
| RagPipeline.TimestampRoundTrip | utils/rag_pipeline.py:153-162 | reading the rendered timestamp back gives the clamped number of seconds |
| Text.NatToStringRoundTrip | utils/rag_pipeline.py:161 | the decimal rendering of a number reads back as that number |
| Text.Pad2RoundTrip | utils/rag_pipeline.py:161-162 | the zero-padded two-digit rendering reads back as the number |
| RagPipeline.FormatDocs | utils/rag_pipeline.py:130-150 | the loop builds exactly `Context(docs)` |
| RagPipeline.ContextPartsAt | utils/rag_pipeline.py:135-148 | part `2k` is the header of chunk `k+1` and part `2k+1` is chunk `k`'s stripped content, in retrieval order |
| RagPipeline.CitationLink | utils/rag_pipeline.py:144 | the watch link ends with a digit, the last digit of its `t=` seconds, so no strip can cut into it |
| RagPipeline.Header | utils/rag_pipeline.py:137-146 | every header is non-empty, opens with `[` and ends with the link's last digit |
| RagPipeline.HeaderLink | utils/rag_pipeline.py:144-146 | every header ends with the watch link built from the chunk's stripped video id and its start time |
| Text.IntToString | utils/rag_pipeline.py:144-146 | `str(n)` is non-empty and ends with a digit; every character is a digit except a leading `-` for a negative number |
| RagPipeline.ContextStartsWithHeader | utils/rag_pipeline.py:146-150 | the context of a non-empty retrieval starts with the first chunk's header, which survives the final strip |
| Text.ReprRoundTrip | utils/rag_pipeline.py:146 | the `!r` rendering of a title or id loses nothing: it reads back as the string |
| Text.ReprOneLine | utils/rag_pipeline.py:146 | the `!r` rendering never contains a newline character, so a header stays on one line |
| Citations.CitationRoundTrip | utils/rag_pipeline.py:144 | the citation link of a valid video id, whatever the start time, is read back to that id by `extract_video_id` |
| Citations.ContextLinksRecoverIds | utils/rag_pipeline.py:135-148 | the header of the k-th retrieved chunk is context part `2k`; it ends with that chunk's link; if the chunk's stripped id is valid, `extract_video_id` reads the link back to it |
| Embedder.AdmittedMembers | utils/embedder.py:87-89 | a chunk is kept exactly when it is in the batch and its stripped id is to be indexed |
| Embedder.AdmittedAppend | utils/embedder.py:87-89 | the filter keeps batch order: it distributes over concatenation |
| Embedder.VectorStore.constructor | utils/embedder.py:36-45 | a store created over an empty persistence directory holds no chunks |
| Embedder.VectorStore.AddDocuments | utils/embedder.py:100 | the store grows by the batch, at its end |
| Embedder.ExistingVideoIds | utils/embedder.py:71-80 | the ids reported are batch ids that exist in the store. When no lookup raises, they are all the non-empty batch ids that exist in the store, in whatever order the set is iterated |
| Embedder.IndexDocuments | utils/embedder.py:26-100 | the call raises exactly for a non-empty batch with a blank `OPENAI_API_KEY`; it raises the missing-key `RuntimeError` and stores nothing. Otherwise an empty batch changes nothing, and a batch without ids is appended whole. Otherwise the store grows by the batch chunks of some set of ids to index. That set lies between the ids new to the store and all batch ids. When no lookup raises, the store becomes `Indexed(old, batch)` |
| Embedder.IndexedAppendOnly | utils/embedder.py:48-100 | indexing only appends: what was stored stays, in place |
| Embedder.IndexedAppends | utils/embedder.py:82-89 | a chunk is appended exactly when it belongs to the batch and its stripped id is empty or not yet in the store |
| Embedder.AllStoredUnchanged | utils/embedder.py:82-85 | when every video of the batch is already stored, nothing is added |
| Embedder.IndexedStoresBatch | utils/embedder.py:60-100 | after indexing a batch with stripped ids, every one of its ids is in the store |
| Embedder.IndexTwice | utils/embedder.py:60-89 | indexing the same batch again adds nothing, when the batch carries ids and they are stripped |
| Embedder.PaddedIdReindexed | utils/embedder.py:61-88 | a chunk whose id has surrounding spaces is looked up by its stripped id, never finds its stored copy, and is appended again |
| TranscriptFetcher.ValidateVideoId | utils/transcript_fetcher.py:161-164 | succeeds exactly on an 11-character id of `[A-Za-z0-9_-]` and returns it; otherwise the error names the original input |
| TranscriptFetcher.StripLeadingSlashes | utils/transcript_fetcher.py:130 | `lstrip("/")` keeps a suffix that does not start with `/` |
| TranscriptFetcher.StripLeadingSlashesOnlySlashes | utils/transcript_fetcher.py:130 | every character `lstrip("/")` removes is a `/`; with the contract above, the result is the input minus its leading slashes |
| TranscriptFetcher.ExtractVideoId | utils/transcript_fetcher.py:101-158 | every id `extract_video_id` returns is a valid id; it fails only with the empty-URL, invalid-URL, invalid-id or no-id message |
| TranscriptFetcher.FromParts | utils/transcript_fetcher.py:125-158 | every id the host rules return is a valid id; they fail only with the invalid-id or the no-id message |
| TranscriptFetcher.FromYouTubePath | utils/transcript_fetcher.py:133-153 | every id the youtube.com rules return is a valid id, and they fail only with the invalid-id or the no-id message. On `/watch` they succeed exactly when the first `v` value is a valid id, return that value, and otherwise fail as an invalid id |
| TranscriptFetcher.ExtractYouTubeFallback | utils/transcript_fetcher.py:133-153 | on a youtube.com host, a path other than `/watch` that starts with neither `/shorts/<id>` nor `/embed/<id>` falls through to the `v` query rule |
| TranscriptFetcher.FromQuery | utils/transcript_fetcher.py:150-158 | the fallback succeeds exactly when the query has a `v` value that is a valid id, and returns that value; otherwise it fails with the invalid-id or the no-id message |
| TranscriptFetcher.SplitPathQuery | utils/transcript_fetcher.py:121 | the path holds no `?` or `#`, and the query holds no `#` |
| TranscriptFetcher.SplitPathQueryReassembles | utils/transcript_fetcher.py:121 | path, `?` and query, then `#` and fragment, put back together give the input; a part whose delimiter is absent is empty. With the delimiter-free parts, this places the fragment after the first `#` and the query after the first `?` before it |
| TranscriptFetcher.SplitUrl | utils/transcript_fetcher.py:120-123 | `urlparse` yields a path without `?` or `#`, a query without `#`, and a network location whose square brackets are matched. It raises the `ValueError` exactly when the network location has one square bracket but not the other |
| TranscriptFetcher.FirstV | utils/transcript_fetcher.py:136-137 | the result is absent exactly when no field is `v=` with a non-empty value; otherwise it is the value of the first such field |
| TranscriptFetcher.QueryV | utils/transcript_fetcher.py:151-153 | `parse_qs(query)["v"][0]`: a `v` value is never empty, and there is none exactly when no `&`-separated field is a non-empty `v=` field |
| TranscriptFetcher.ExtractBlank | utils/transcript_fetcher.py:112-114 | the empty-URL error is raised exactly for blank input |
| TranscriptFetcher.ExtractRawId | utils/transcript_fetcher.py:116-118 | a bare id with surrounding whitespace is returned stripped |
| TranscriptFetcher.SplitHttps | utils/transcript_fetcher.py:121 | `urlparse` of an `https` URL with a plain host and path gives scheme, host, path and query, with an empty fragment |
| TranscriptFetcher.ExtractHttps | utils/transcript_fetcher.py:112-126 | such a URL reaches the host rules whole, with the lower-cased host and the path and query |
| TranscriptFetcher.YouTubeHostIsContains | utils/transcript_fetcher.py:134 | the `m.youtube.com` and `www.youtube.com` tests add nothing: a host is YouTube's exactly when it contains `youtube.com` |
| TranscriptFetcher.ExtractShortLinkInvalid | utils/transcript_fetcher.py:128-131 | on a host containing `youtu.be`, a first path component that is not an id is refused as an invalid id, whatever the query holds: the fallback is never reached |
| TranscriptFetcher.ExtractShortLink | utils/transcript_fetcher.py:129-131 | on a host containing `youtu.be`, the path `/<id>` yields the id |
| TranscriptFetcher.ExtractShortLinkRule | utils/transcript_fetcher.py:128-131 | on a host containing `youtu.be`, for every plain path and every query, the result is the validation of the path's first component |
| TranscriptFetcher.ExtractShortLinkWithQuery | utils/transcript_fetcher.py:129-131 | `youtu.be/<id>?<query>` yields the id for every `#`-free query, such as `si=…` |
| TranscriptFetcher.QueryVLeading | utils/transcript_fetcher.py:136-137 | `parse_qs` finds `v` as the first field of `v=<id>&…` |
| TranscriptFetcher.QueryVAfter | utils/transcript_fetcher.py:136-137 | `parse_qs` finds `v` after a leading field that is not a `v=` field, as in `feature=share&v=<id>` |
| TranscriptFetcher.ExtractWatchRule | utils/transcript_fetcher.py:133-138 | on a youtube.com host that does not contain `youtu.be`, for every query, `/watch` gives the validation of the first `v` value, or of the empty string when there is none |
| TranscriptFetcher.ExtractWatchLater | utils/transcript_fetcher.py:133-138 | `/watch?<field>&v=<id>` yields the id when the leading field is not a `v=` field |
| TranscriptFetcher.ExtractWatch | utils/transcript_fetcher.py:134-138 | on a youtube.com host, `/watch?v=<id>` yields the id, whatever parameters follow |
| TranscriptFetcher.ExtractWatchWithoutV | utils/transcript_fetcher.py:135-138 | `/watch` with no query is refused as an invalid id; the later rules are not tried |
| TranscriptFetcher.ShortsOrEmbedPath | utils/transcript_fetcher.py:140-148 | `/shorts/<id>` and `/embed/<id>` give the 11 characters after the prefix, whatever follows them |
| TranscriptFetcher.ExtractShortsOrEmbed | utils/transcript_fetcher.py:140-148 | on a youtube.com host, `/shorts/<id>…` and `/embed/<id>…` yield the id |
| TranscriptFetcher.ExtractOtherHost | utils/transcript_fetcher.py:150-158 | on any other host only a `v` query value counts, validated, else the no-id error |
| TranscriptFetcher.NoQueryNoId | utils/transcript_fetcher.py:150-158 | with no query at all the fallback raises the no-id error |
| TranscriptFetcher.ExtractUnmatchedBracket | utils/transcript_fetcher.py:120-123 | a host with one square bracket but not the other makes the URL invalid |
| TranscriptFetcher.WatchForm | utils/transcript_fetcher.py:105 | `https://www.youtube.com/watch?v=<id>` yields the id |
| TranscriptFetcher.ShortLinkForm | utils/transcript_fetcher.py:106 | `https://youtu.be/<id>` yields the id |
| TranscriptFetcher.ShortsForm | utils/transcript_fetcher.py:107 | `https://www.youtube.com/shorts/<id>` yields the id |
| TranscriptFetcher.OtherSiteRefused | test_fetcher.py:34-37 | `https://www.google.com` raises the no-id error |
| TranscriptFetcher.Normalise | utils/transcript_fetcher.py:266-275 | an element is kept exactly when it is an object whose `str(text).strip()` is non-empty. The kept segment holds that stripped text and `start`, which defaults to 0. Its duration is `max(0, end - start)`, where `end` defaults to `start` |
| TranscriptFetcher.NormaliseSegments | utils/transcript_fetcher.py:261-278 | the loop returns `Normalised(raw)`: the no-segments error for an empty list, the no-usable-text error when nothing survives, else the usable segments |
| TranscriptFetcher.UsableWellFormed | utils/transcript_fetcher.py:265-275 | every usable segment is well formed, and there are no more of them than raw elements |
| TranscriptFetcher.UsableAppend | utils/transcript_fetcher.py:265-275 | normalisation keeps input order: it distributes over concatenation |
| TranscriptFetcher.UsableEmpty | utils/transcript_fetcher.py:273-278 | nothing survives exactly when no element normalises to a segment |

## Left out

- Network, disk and process I/O: `yt-dlp` downloads, Whisper and OpenAI
  calls, the transcript cache and the Streamlit app. Environment variables
  are parameters, for example the `apiKey` of `Ask` and of `IndexDocuments`, which is `""` when unset.
- `_build_rag_chain`, the retriever and the LLM prompt. `Ask` takes the
  answering chain as a function parameter. An exception raised while the
  chain is being built happens before the `try` and escapes `ask`; it is not
  modelled.
- Chroma internals, embeddings and `get_retriever`. The store is the
  sequence of chunks it holds, and `vectordb.get(where=…)` is an exact match
  on the stored `video_id`.
- Embedder.ExistingVideoIds: Python iterates a set in an unspecified order.
  The model picks ids by nondeterministic choice. Which lookup raises is the
  `failing` parameter; the first failing lookup ends the loop, as the
  exception does. Which ids were found before that depends on the order, so
  the contract bounds the result rather than naming it.
- `urlparse` details not exercised by these rules are left out:
  - the `;params` split;
  - removal of tab and newline characters and of leading C0 characters;
  - NFKC checks on the network location;
  - validation of bracketed IPv6 hosts.
- `parse_qs` percent-decoding and `+`-to-space decoding are left out.
- ASCII-only `lower()`: the host tests look only for ASCII needles.
- `str()` of non-string segment texts is left out: texts are strings or
  missing. Failures of `float()` conversion are left out, and so is a
  `segments` value that is not a list (an empty list stands for it).
- `repr` is modelled for the escapes `\\`, the quote and the control
  characters; non-ASCII, non-printable escapes are not.
- Embedder.IndexTwice: requires the batch's ids to be stripped already. The
  lookup uses the stripped id but the stored metadata keeps the raw one, so
  padded ids are re-indexed on every call (Embedder.PaddedIdReindexed).
- Chunker.ChunksInOrder: the source comment says the next chunk starts at
  the segment the backward walk chose. The code adds the walk's offset to
  `i`, and `i` was moved past every blank segment of the window. The next
  start therefore overshoots the chosen segment by the number of blank
  segments that follow it inside the window. The model states the code's
  position, and not the comment's.
