/**
 * Timestamp-aware transcript chunking (`build_chunks`): groups the segments
 * of one transcript into overlapping, word-budgeted chunks, each carrying the
 * start time of its first segment as a citation anchor.
 */
module Chunker {
  import opened Text
  import opened Records

  /** The word budget and overlap `build_chunks` uses when its caller gives
      none; the app relies on these. */
  const DefaultTargetWords: int := 400
  const DefaultOverlapWords: int := 50

  /** Title used when the transcript has none. */
  const UntitledVideo := "Untitled video"

  /** `int(x)` for a float: truncation toward zero (the floor only for
      non-negative `x`). */
  function Trunc(x: real): (r: int)
    ensures 0.0 <= x ==> 0 <= r && r as real <= x < r as real + 1.0
    ensures x < 0.0 ==> r <= 0 && r as real - 1.0 < x <= r as real
  {
    if x >= 0.0 then x.Floor else -((-x).Floor)
  }

  /** A segment whose trimmed text is empty; the chunker skips it. */
  predicate Blank(seg: Segment) {
    Strip(seg.text) == ""
  }

  /** The non-blank segments of `segs[lo..hi]`, in order. */
  function Kept(segs: seq<Segment>, lo: nat, hi: nat): (r: seq<Segment>)
    requires lo <= hi <= |segs|
    ensures |r| <= hi - lo
    decreases hi - lo
  {
    if lo == hi then []
    else Kept(segs, lo, hi - 1) + (if Blank(segs[hi - 1]) then [] else [segs[hi - 1]])
  }

  /** Every kept segment is a non-blank segment of the window. */
  lemma {:induction false} KeptElements(segs: seq<Segment>, lo: nat, hi: nat)
    requires lo <= hi <= |segs|
    ensures forall k :: 0 <= k < |Kept(segs, lo, hi)| ==>
              !Blank(Kept(segs, lo, hi)[k]) && Kept(segs, lo, hi)[k] in segs[lo..hi]
    decreases hi - lo
  {
    if lo < hi {
      KeptElements(segs, lo, hi - 1);
      assert forall x :: x in segs[lo..hi - 1] ==> x in segs[lo..hi];
    }
  }

  /** Splitting a window splits its non-blank segments. */
  lemma {:induction false} KeptSplit(segs: seq<Segment>, lo: nat, mid: nat, hi: nat)
    requires lo <= mid <= hi <= |segs|
    ensures Kept(segs, lo, hi) == Kept(segs, lo, mid) + Kept(segs, mid, hi)
    decreases hi - mid
  {
    if mid < hi {
      KeptSplit(segs, lo, mid, hi - 1);
    }
  }

  /** The trimmed texts of `parts`, in order. */
  function Texts(parts: seq<Segment>): (r: seq<string>)
    ensures |r| == |parts|
  {
    if parts == [] then [] else Texts(parts[..|parts| - 1]) + [Strip(parts[|parts| - 1].text)]
  }

  /** The trimmed texts of non-blank segments are non-empty stripped strings. */
  lemma {:induction false} TextsStripped(parts: seq<Segment>)
    requires forall k :: 0 <= k < |parts| ==> !Blank(parts[k])
    ensures AllStripped(Texts(parts))
  {
    if parts != [] {
      TextsStripped(parts[..|parts| - 1]);
      StripEnds(parts[|parts| - 1].text);
    }
  }

  /** `doc` is the chunk built from the window `t.segments[lo..hi]`: its text
      is the single-space join of the trimmed texts of the window's non-blank
      segments, its start time is the truncated start of the first of them,
      and it carries the transcript's metadata. */
  predicate ChunkOf(t: Transcript, lo: nat, hi: nat, doc: Chunk)
  {
    && lo < hi <= |t.segments|
    && var parts := Kept(t.segments, lo, hi);
       && parts != []
       && doc.text == Join(" ", Texts(parts))
       && doc.startTime == Trunc(parts[0].start)
       && doc.videoId == t.videoId
       && doc.videoTitle == (if t.title == "" then UntitledVideo else t.title)
       && doc.url == t.url
  }

  /** Words the chunker counts for one segment: those of its trimmed text
      (none for a blank segment, whose trimmed text is empty). */
  function SegWords(seg: Segment): nat {
    WordCount(Strip(seg.text))
  }

  /** Words in `chunk[j..]`, each segment's text trimmed. */
  function TailWords(chunk: seq<Segment>, j: nat): nat
    decreases |chunk| - j
  {
    if j >= |chunk| then 0 else WordCount(Strip(chunk[j].text)) + TailWords(chunk, j + 1)
  }

  /** Words in the non-blank segments of `segs[lo..hi]`, each text trimmed:
      what the inner loop of `build_chunks` has counted when the window it
      reads reaches `hi`. */
  function KeptWords(segs: seq<Segment>, lo: nat, hi: nat): nat
    requires lo <= hi <= |segs|
    decreases hi - lo
  {
    if lo == hi then 0
    else KeptWords(segs, lo, hi - 1) + SegWords(segs[hi - 1])
  }

  /** Moving the end of a window past a blank segment changes nothing. */
  lemma KeptSkip(segs: seq<Segment>, lo: nat, hi: nat)
    requires lo <= hi < |segs| && Blank(segs[hi])
    ensures Kept(segs, lo, hi + 1) == Kept(segs, lo, hi)
    ensures KeptWords(segs, lo, hi + 1) == KeptWords(segs, lo, hi)
  {
    assert Kept(segs, lo, hi + 1) == Kept(segs, lo, hi) + [];
  }

  /** Moving the end of a window past a non-blank segment keeps it and
      counts its words. */
  lemma KeptTake(segs: seq<Segment>, lo: nat, hi: nat)
    requires lo <= hi < |segs| && !Blank(segs[hi])
    ensures Kept(segs, lo, hi + 1) == Kept(segs, lo, hi) + [segs[hi]]
    ensures KeptWords(segs, lo, hi + 1) == KeptWords(segs, lo, hi) + WordCount(Strip(segs[hi].text))
  {
  }

  lemma TextsSnoc(parts: seq<Segment>, seg: Segment)
    ensures Texts(parts + [seg]) == Texts(parts) + [Strip(seg.text)]
  {
    assert (parts + [seg])[..|parts|] == parts;
  }

  /** The running word count is the word count of the kept texts. */
  lemma {:induction false} KeptWordsSum(segs: seq<Segment>, lo: nat, hi: nat)
    requires lo <= hi <= |segs|
    ensures KeptWords(segs, lo, hi) == SumWords(Texts(Kept(segs, lo, hi)))
    decreases hi - lo
  {
    if lo < hi {
      KeptWordsSum(segs, lo, hi - 1);
      var seg := segs[hi - 1];
      if Blank(seg) {
        assert Kept(segs, lo, hi) == Kept(segs, lo, hi - 1);
      } else {
        assert Kept(segs, lo, hi) == Kept(segs, lo, hi - 1) + [seg];
        TextsSnoc(Kept(segs, lo, hi - 1), seg);
        SumWordsSnoc(Texts(Kept(segs, lo, hi - 1)), Strip(seg.text));
      }
    }
  }

  /** A window with words has a non-blank segment. */
  lemma {:induction false} KeptWordsNonEmpty(segs: seq<Segment>, lo: nat, hi: nat)
    requires lo <= hi <= |segs|
    requires KeptWords(segs, lo, hi) > 0
    ensures Kept(segs, lo, hi) != []
    decreases hi - lo
  {
    if lo < hi && Blank(segs[hi - 1]) {
      KeptWordsNonEmpty(segs, lo, hi - 1);
    }
  }

  /** Where the inner loop of `build_chunks`, reading a window from `lo`,
      stops once it has reached position `pos`: at the first position from
      `pos` on where the window's words reach `targetWords`, or at the end of
      the transcript. */
  function CollectEnd(segs: seq<Segment>, lo: nat, pos: nat, targetWords: int): (e: nat)
    requires lo <= pos <= |segs|
    ensures pos <= e <= |segs|
    decreases |segs| - pos
  {
    if pos < |segs| && KeptWords(segs, lo, pos) < targetWords then CollectEnd(segs, lo, pos + 1, targetWords)
    else pos
  }

  /** The window read from `lo` ends at the first position where its words
      reach the target, or at the end of the transcript: one segment earlier
      they were still short of it. */
  lemma {:induction false} CollectEndWords(segs: seq<Segment>, lo: nat, pos: nat, targetWords: int)
    requires lo <= pos <= |segs|
    requires lo < pos ==> KeptWords(segs, lo, pos - 1) < targetWords
    ensures var e := CollectEnd(segs, lo, pos, targetWords);
            && (KeptWords(segs, lo, e) >= targetWords || e == |segs|)
            && (lo < e ==> KeptWords(segs, lo, e - 1) < targetWords)
    decreases |segs| - pos
  {
    if pos < |segs| && KeptWords(segs, lo, pos) < targetWords {
      CollectEndWords(segs, lo, pos + 1, targetWords);
    }
  }

  /** The backward walk after a chunk is closed, as a search from position
      `j` downwards: the largest position `p <= j` whose tail `chunk[p..]`
      holds at least `overlapWords` words, or 0 when none does. */
  function OverlapPoint(chunk: seq<Segment>, overlapWords: int, j: nat): (p: nat)
    requires j <= |chunk|
    ensures p <= j
    decreases j
  {
    if j == 0 || TailWords(chunk, j) >= overlapWords then j else OverlapPoint(chunk, overlapWords, j - 1)
  }

  /** What the walk finds: the tail from the returned position holds enough
      words (unless it is 0), and no later tail does; with no overlap wanted
      it stays at the end of the chunk. */
  lemma {:induction false} OverlapPointSpec(chunk: seq<Segment>, overlapWords: int, j: nat)
    requires j <= |chunk|
    ensures var p := OverlapPoint(chunk, overlapWords, j);
            && (p == 0 || TailWords(chunk, p) >= overlapWords)
            && (forall q :: p < q <= j ==> TailWords(chunk, q) < overlapWords)
            && (overlapWords <= 0 ==> p == j)
    decreases j
  {
    if j > 0 && TailWords(chunk, j) < overlapWords {
      OverlapPointSpec(chunk, overlapWords, j - 1);
    }
  }

  /** The backward `while` loop of `build_chunks`: walks from the last
      segment of the chunk towards its first, adding trimmed word counts
      until `overlapWords` is reached, and returns the position after the
      last segment it added. */
  method OverlapStart(chunk: seq<Segment>, overlapWords: int) returns (start: nat)
    ensures start == OverlapPoint(chunk, overlapWords, |chunk|)
  {
    var overlapCount := 0;
    var overlapStart := |chunk| - 1;
    while overlapStart >= 0 && overlapCount < overlapWords
      invariant -1 <= overlapStart < |chunk|
      invariant overlapCount == TailWords(chunk, overlapStart + 1)
      invariant OverlapPoint(chunk, overlapWords, |chunk|) == OverlapPoint(chunk, overlapWords, overlapStart + 1)
      decreases overlapStart + 1
    {
      overlapCount := overlapCount + WordCount(Strip(chunk[overlapStart].text));
      overlapStart := overlapStart - 1;
    }
    start := overlapStart + 1;
  }

  /** How far the window start moves after a chunk of `len` segments whose
      overlap begins at `overlapStart`: at least one segment, at most the
      whole chunk, and the whole chunk when there is no overlap. */
  function Advance(len: nat, overlapStart: nat): (r: nat)
    requires 1 <= len && overlapStart <= len
    ensures 1 <= r <= len
    ensures overlapStart == len ==> r == len
    ensures 0 < overlapStart ==> r == overlapStart
  {
    if overlapStart > 0 then overlapStart else if len - 1 > 1 then len - 1 else 1
  }

  /** The window `segs[lo..hi]` one chunk is read from. */
  datatype Window = Window(lo: nat, hi: nat)

  /** A window that lies within `segs` and holds a non-blank segment. */
  predicate Readable(segs: seq<Segment>, w: Window) {
    w.lo <= w.hi <= |segs| && Kept(segs, w.lo, w.hi) != []
  }

  /** Where the outer loop of `build_chunks` goes on after reading window
      `w`. The inner loop moved `i` past every blank segment of `w`, so it
      stands at `w.lo` plus the number of blanks, which is `w.hi` minus the
      number of non-blank segments. The overlap walk then moves it on by
      `Advance`. */
  function NextStart(segs: seq<Segment>, overlapWords: int, w: Window): nat
    requires Readable(segs, w)
  {
    var parts := Kept(segs, w.lo, w.hi);
    w.hi - |parts| + Advance(|parts|, OverlapPoint(parts, overlapWords, |parts|))
  }

  /** The next window starts strictly after the start of `w`, past the point
      where the non-blank segments of `w` could begin and no later than its
      end; right at its end when no overlap is wanted. */
  lemma NextStartBounds(segs: seq<Segment>, overlapWords: int, w: Window)
    requires Readable(segs, w)
    ensures var next := NextStart(segs, overlapWords, w);
            && w.lo < next
            && w.hi - |Kept(segs, w.lo, w.hi)| < next <= w.hi
            && (overlapWords <= 0 ==> next == w.hi)
  {
    var parts := Kept(segs, w.lo, w.hi);
    OverlapPointSpec(parts, overlapWords, |parts|);
  }

  /** The windows `build_chunks` reads, from position `i` on: the inner loop
      reads up to `CollectEnd`; when the window holds nothing non-blank the
      outer loop stops, otherwise it goes on at `NextStart`. */
  function WindowsFrom(segs: seq<Segment>, targetWords: int, overlapWords: int, i: nat): seq<Window>
    requires i <= |segs|
    decreases |segs| - i
  {
    if i == |segs| then []
    else
      var w := Window(i, CollectEnd(segs, i, i, targetWords));
      if !Readable(segs, w) then []
      else
        NextStartBounds(segs, overlapWords, w);
        [w] + WindowsFrom(segs, targetWords, overlapWords, NextStart(segs, overlapWords, w))
  }

  /** The windows of a whole transcript. */
  function Windows(segs: seq<Segment>, targetWords: int, overlapWords: int): seq<Window> {
    WindowsFrom(segs, targetWords, overlapWords, 0)
  }

  /** The first window read from `i` starts at `i`, holds a non-blank
      segment, and reaches the word target unless it runs to the end of the
      transcript; the others are those read from `NextStart`. */
  lemma WindowsFromFirst(segs: seq<Segment>, targetWords: int, overlapWords: int, i: nat)
    requires i <= |segs|
    requires WindowsFrom(segs, targetWords, overlapWords, i) != []
    ensures var ws := WindowsFrom(segs, targetWords, overlapWords, i);
            && ws[0].lo == i
            && Readable(segs, ws[0])
            && (KeptWords(segs, i, ws[0].hi) >= targetWords || ws[0].hi == |segs|)
            && KeptWords(segs, i, ws[0].hi - 1) < targetWords
            && ws[1..] == WindowsFrom(segs, targetWords, overlapWords, NextStart(segs, overlapWords, ws[0]))
  {
    CollectEndWords(segs, i, i, targetWords);
  }

  /** Title used for every chunk (the transcript's, or a placeholder). */
  function TitleOf(t: Transcript): string {
    if t.title == "" then UntitledVideo else t.title
  }

  /** The chunk read from window `w`: the trimmed texts of its non-blank
      segments joined by single spaces and trimmed, the truncated start time
      of the first of them, and the transcript's metadata. (Windows from
      `Windows` always lie within the transcript and hold a non-blank
      segment; other windows give an empty chunk at time 0.) */
  function ChunkFor(t: Transcript, w: Window): Chunk {
    var parts := if w.lo <= w.hi <= |t.segments| then Kept(t.segments, w.lo, w.hi) else [];
    Chunk(Strip(Join(" ", Texts(parts))), t.videoId, TitleOf(t),
          if parts == [] then 0 else Trunc(parts[0].start), t.url)
  }

  /** The chunks read from the windows `ws`, in order. */
  function ChunksOf(t: Transcript, ws: seq<Window>): (r: seq<Chunk>)
    ensures |r| == |ws|
  {
    if ws == [] then [] else ChunksOf(t, ws[..|ws| - 1]) + [ChunkFor(t, ws[|ws| - 1])]
  }

  lemma {:induction false} ChunksOfAt(t: Transcript, ws: seq<Window>, k: nat)
    requires k < |ws|
    ensures ChunksOf(t, ws)[k] == ChunkFor(t, ws[k])
  {
    if k < |ws| - 1 {
      ChunksOfAt(t, ws[..|ws| - 1], k);
    }
  }

  /** `build_chunks` of a transcript: one chunk per window. */
  function Chunks(t: Transcript, targetWords: int, overlapWords: int): seq<Chunk> {
    ChunksOf(t, Windows(t.segments, targetWords, overlapWords))
  }

  /** The chunk read from a window of the transcript that holds a non-blank
      segment is the chunk `ChunkOf` describes, and its words are the words
      of the window. */
  lemma ChunkForWindow(t: Transcript, w: Window)
    requires w.lo < w.hi <= |t.segments| && Kept(t.segments, w.lo, w.hi) != []
    ensures ChunkOf(t, w.lo, w.hi, ChunkFor(t, w))
    ensures ChunkFor(t, w).text != ""
    ensures WordCount(ChunkFor(t, w).text) == KeptWords(t.segments, w.lo, w.hi)
  {
    var parts := Kept(t.segments, w.lo, w.hi);
    KeptElements(t.segments, w.lo, w.hi);
    TextsStripped(parts);
    JoinStrippedUnchanged(" ", Texts(parts));
    JoinStrippedEnds(" ", Texts(parts));
    WordCountJoin(Texts(parts));
    KeptWordsSum(t.segments, w.lo, w.hi);
  }

  /** The windows read from position `i` on, from the `k`-th one on, are
      the windows read from where that one starts. */
  lemma {:induction false} WindowsFromSuffix(segs: seq<Segment>, targetWords: int, overlapWords: int, i: nat, k: nat)
    requires i <= |segs|
    requires k < |WindowsFrom(segs, targetWords, overlapWords, i)|
    ensures var ws := WindowsFrom(segs, targetWords, overlapWords, i);
            && i <= ws[k].lo <= |segs|
            && ws[k..] == WindowsFrom(segs, targetWords, overlapWords, ws[k].lo)
    decreases |segs| - i
  {
    var ws := WindowsFrom(segs, targetWords, overlapWords, i);
    WindowsFromFirst(segs, targetWords, overlapWords, i);
    if k > 0 {
      var next := NextStart(segs, overlapWords, ws[0]);
      NextStartBounds(segs, overlapWords, ws[0]);
      var rest := WindowsFrom(segs, targetWords, overlapWords, next);
      WindowsFromSuffix(segs, targetWords, overlapWords, next, k - 1);
      assert ws[k] == rest[k - 1];
      assert ws[k..] == rest[k - 1..];
    }
  }

  /** The `k`-th window read from position `i` on lies within the
      transcript after `i`, holds a non-blank segment, and reaches the word
      target unless it runs to the end of the transcript, but only with its
      last segment. */
  lemma WindowsFromAt(segs: seq<Segment>, targetWords: int, overlapWords: int, i: nat, k: nat)
    requires i <= |segs|
    requires k < |WindowsFrom(segs, targetWords, overlapWords, i)|
    ensures var w := WindowsFrom(segs, targetWords, overlapWords, i)[k];
            && i <= w.lo < w.hi <= |segs|
            && Readable(segs, w)
            && (KeptWords(segs, w.lo, w.hi) >= targetWords || w.hi == |segs|)
            && KeptWords(segs, w.lo, w.hi - 1) < targetWords
  {
    var ws := WindowsFrom(segs, targetWords, overlapWords, i);
    WindowsFromSuffix(segs, targetWords, overlapWords, i, k);
    var from := ws[k].lo;
    assert ws[k] == WindowsFrom(segs, targetWords, overlapWords, from)[0];
    WindowsFromFirst(segs, targetWords, overlapWords, from);
  }

  /** Consecutive windows read from position `i` on: the later one starts
      at `NextStart` of the earlier one. */
  lemma WindowsFromNext(segs: seq<Segment>, targetWords: int, overlapWords: int, i: nat, k: nat)
    requires i <= |segs|
    requires k + 1 < |WindowsFrom(segs, targetWords, overlapWords, i)|
    ensures var ws := WindowsFrom(segs, targetWords, overlapWords, i);
            Readable(segs, ws[k]) && ws[k + 1].lo == NextStart(segs, overlapWords, ws[k])
  {
    var ws := WindowsFrom(segs, targetWords, overlapWords, i);
    WindowsFromSuffix(segs, targetWords, overlapWords, i, k);
    var from := ws[k].lo;
    var tail := WindowsFrom(segs, targetWords, overlapWords, from);
    assert ws[k] == tail[0] && ws[k + 1] == tail[1];
    WindowsFromFirst(segs, targetWords, overlapWords, from);
    NextStartBounds(segs, overlapWords, ws[k]);
    WindowsFromFirst(segs, targetWords, overlapWords, NextStart(segs, overlapWords, ws[k]));
  }

  /** At most one window per non-blank segment from `i` on. */
  lemma {:induction false} WindowsFromCount(segs: seq<Segment>, targetWords: int, overlapWords: int, i: nat)
    requires i <= |segs|
    ensures |WindowsFrom(segs, targetWords, overlapWords, i)| <= |Kept(segs, i, |segs|)|
    decreases |segs| - i
  {
    var ws := WindowsFrom(segs, targetWords, overlapWords, i);
    if ws != [] {
      WindowsFromFirst(segs, targetWords, overlapWords, i);
      var w := ws[0];
      var next := NextStart(segs, overlapWords, w);
      NextStartBounds(segs, overlapWords, w);
      WindowsFromCount(segs, targetWords, overlapWords, next);
      ProgressBound(segs, i, next, w.hi);
    }
  }

  /** A window that holds more non-blank segments than the distance the next
      window start moved past its skipped blanks consumes at least one
      non-blank segment of the rest of the transcript. */
  lemma ProgressBound(segs: seq<Segment>, start: nat, next: nat, end: nat)
    requires start <= next <= end <= |segs|
    requires end - next < |Kept(segs, start, end)|
    ensures |Kept(segs, next, |segs|)| < |Kept(segs, start, |segs|)|
  {
    KeptSplit(segs, start, next, end);
    KeptSplit(segs, start, next, |segs|);
  }

  /** With a positive target nothing non-blank is left after the last
      window (after `i` when there is none): every non-blank segment is read
      into some chunk. */
  lemma {:induction false} WindowsFromCover(segs: seq<Segment>, targetWords: int, overlapWords: int, i: nat)
    requires i <= |segs| && targetWords > 0
    ensures var ws := WindowsFrom(segs, targetWords, overlapWords, i);
            var from := if ws == [] then i else ws[|ws| - 1].hi;
            from <= |segs| && Kept(segs, from, |segs|) == []
    decreases |segs| - i
  {
    var ws := WindowsFrom(segs, targetWords, overlapWords, i);
    if ws == [] {
      WindowsFromEmpty(segs, targetWords, overlapWords, i);
    } else {
      WindowsFromFirst(segs, targetWords, overlapWords, i);
      var w := ws[0];
      var next := NextStart(segs, overlapWords, w);
      NextStartBounds(segs, overlapWords, w);
      var rest := WindowsFrom(segs, targetWords, overlapWords, next);
      WindowsFromCover(segs, targetWords, overlapWords, next);
      if rest == [] {
        KeptSplit(segs, next, w.hi, |segs|);
      } else {
        assert ws[|ws| - 1] == rest[|rest| - 1];
      }
    }
  }

  /** With a target of zero or less nothing is read; with a positive target
      a chunk is read exactly when some segment from `i` on is non-blank. */
  lemma WindowsFromEmpty(segs: seq<Segment>, targetWords: int, overlapWords: int, i: nat)
    requires i <= |segs|
    ensures targetWords <= 0 ==> WindowsFrom(segs, targetWords, overlapWords, i) == []
    ensures targetWords > 0 ==>
              (WindowsFrom(segs, targetWords, overlapWords, i) == [] <==> Kept(segs, i, |segs|) == [])
  {
    if i < |segs| {
      var e := CollectEnd(segs, i, i, targetWords);
      CollectEndWords(segs, i, i, targetWords);
      KeptSplit(segs, i, e, |segs|);
      if targetWords > 0 && e < |segs| {
        KeptWordsNonEmpty(segs, i, e);
      }
    }
  }

  /** One step of the outer loop of `build_chunks`: a window that the inner
      loop read from `start` and that holds non-blank segments is the first
      window from `start`, and the next one starts where the loop resumes. */
  lemma WindowsFromStep(segs: seq<Segment>, targetWords: int, overlapWords: int, start: nat,
                        i: nat, chunkSegs: seq<Segment>, overlapStart: nat, end: nat, next: nat)
    requires start <= |segs|
    requires start <= i && end == i + |chunkSegs| && end == CollectEnd(segs, start, start, targetWords)
    requires chunkSegs == Kept(segs, start, end) && chunkSegs != []
    requires overlapStart == OverlapPoint(chunkSegs, overlapWords, |chunkSegs|)
    requires next == i + Advance(|chunkSegs|, overlapStart)
    ensures next <= |segs|
    ensures WindowsFrom(segs, targetWords, overlapWords, start)
         == [Window(start, end)] + WindowsFrom(segs, targetWords, overlapWords, next)
  {
    var w := Window(start, end);
    assert Readable(segs, w);
    NextStartBounds(segs, overlapWords, w);
    assert NextStart(segs, overlapWords, w) == next;
  }

  /** Moving the first pending window onto the list of windows read. */
  lemma SpliceWindow(ws: seq<Window>, w: Window, rest: seq<Window>, rest': seq<Window>, all: seq<Window>)
    requires ws + rest == all && rest == [w] + rest'
    ensures (ws + [w]) + rest' == all
  {
    assert (ws + [w]) + rest' == ws + ([w] + rest');
  }

  /** The chunk for a window, given its non-blank segments. */
  lemma ChunkForKept(t: Transcript, start: nat, end: nat, chunkSegs: seq<Segment>, doc: Chunk)
    requires start <= end <= |t.segments|
    requires chunkSegs == Kept(t.segments, start, end) && chunkSegs != []
    requires doc.text == Strip(Join(" ", Texts(chunkSegs)))
    requires doc.videoId == t.videoId && doc.videoTitle == TitleOf(t) && doc.url == t.url
    requires doc.startTime == Trunc(chunkSegs[0].start)
    ensures ChunkFor(t, Window(start, end)) == doc
  {
  }

  lemma ChunksOfSnoc(t: Transcript, ws: seq<Window>, w: Window)
    ensures ChunksOf(t, ws + [w]) == ChunksOf(t, ws) + [ChunkFor(t, w)]
  {
    assert (ws + [w])[..|ws|] == ws;
  }

  /** The inner loop of `build_chunks`: starting at `i0`, reads segments into
      the current chunk until it holds `targetWords` words or the transcript
      ends, skipping blank segments by moving `i` past them. On return the
      chunk is exactly the non-blank segments of `segs[i0..i + |chunk|]`. */
  method CollectChunk(segs: seq<Segment>, i0: nat, targetWords: int) returns (i: nat, chunkSegs: seq<Segment>)
    requires i0 <= |segs|
    ensures i0 <= i && i + |chunkSegs| == CollectEnd(segs, i0, i0, targetWords)
    ensures chunkSegs == Kept(segs, i0, i + |chunkSegs|)
  {
    i := i0;
    chunkSegs := [];
    var wordCount := 0;
    ghost var pos := i0;
    while i + |chunkSegs| < |segs| && wordCount < targetWords
      invariant pos == i + |chunkSegs|
      invariant i0 <= i && pos <= |segs|
      invariant chunkSegs == Kept(segs, i0, pos)
      invariant wordCount == KeptWords(segs, i0, pos)
      invariant CollectEnd(segs, i0, i0, targetWords) == CollectEnd(segs, i0, pos, targetWords)
      decreases |segs| - pos
    {
      var seg := segs[i + |chunkSegs|];
      var text := Strip(seg.text);
      assert seg == segs[pos];
      if text == "" {
        KeptSkip(segs, i0, pos);
        i := i + 1;
        pos := pos + 1;
        continue;
      }
      KeptTake(segs, i0, pos);
      chunkSegs := chunkSegs + [seg];
      wordCount := wordCount + WordCount(text);
      pos := pos + 1;
    }
  }

  /** `build_chunks(transcript, target_words, overlap_words)`: the chunks
      read from the transcript's windows, in order. */
  method BuildChunks(t: Transcript, targetWords: int, overlapWords: int) returns (docs: seq<Chunk>)
    ensures docs == Chunks(t, targetWords, overlapWords)
  {
    var segs := t.segments;
    var videoId := t.videoId;
    var videoTitle := if t.title == "" then UntitledVideo else t.title;
    var url := t.url;
    docs := [];
    if segs == [] {
      assert Windows(segs, targetWords, overlapWords) == [];
      assert docs == ChunksOf(t, Windows(segs, targetWords, overlapWords));
      return;
    }
    ghost var all := Windows(segs, targetWords, overlapWords);
    ghost var ws: seq<Window> := [];
    ghost var rest := all;
    var i: nat := 0;
    while i < |segs|
      invariant i <= |segs|
      invariant docs == ChunksOf(t, ws)
      invariant ws + rest == all
      invariant rest == WindowsFrom(segs, targetWords, overlapWords, i)
      decreases |segs| - i
    {
      ghost var start := i;
      var chunkSegs;
      i, chunkSegs := CollectChunk(segs, i, targetWords);
      ghost var end := i + |chunkSegs|;
      if chunkSegs == [] {
        assert rest == [];
        assert ws + [] == ws;
        break;
      }

      var pageContent := Strip(Join(" ", Texts(chunkSegs)));
      var startTime := Trunc(chunkSegs[0].start);
      var doc := Chunk(pageContent, videoId, videoTitle, startTime, url);
      ChunkForKept(t, start, end, chunkSegs, doc);
      ChunksOfSnoc(t, ws, Window(start, end));
      docs := docs + [doc];

      var overlapStart := OverlapStart(chunkSegs, overlapWords);
      var advance := Advance(|chunkSegs|, overlapStart);
      ghost var next := i + advance;
      WindowsFromStep(segs, targetWords, overlapWords, start, i, chunkSegs, overlapStart, end, next);
      ghost var rest' := WindowsFrom(segs, targetWords, overlapWords, next);
      SpliceWindow(ws, Window(start, end), rest, rest', all);
      ws := ws + [Window(start, end)];
      i := i + advance;
      rest := rest';
      assert next == i;
      assert rest == WindowsFrom(segs, targetWords, overlapWords, next);
    }
    if i == |segs| {
      assert rest == [];
      assert ws + [] == ws;
    }
    assert ws == all;
  }

  /** Every chunk `build_chunks` returns is read from a window of the
      transcript that holds a non-blank segment: its text is the join of the
      window's trimmed non-blank texts and is not empty, its start time is
      that of the window's first non-blank segment, it carries the
      transcript's metadata, and it holds at least `targetWords` words unless
      it reaches the end of the transcript, while without its last segment
      it would hold fewer. */
  lemma ChunkAt(t: Transcript, targetWords: int, overlapWords: int, k: nat)
    requires k < |Chunks(t, targetWords, overlapWords)|
    ensures var w := Windows(t.segments, targetWords, overlapWords)[k];
            var doc := Chunks(t, targetWords, overlapWords)[k];
            && ChunkOf(t, w.lo, w.hi, doc)
            && doc.text != ""
            && (WordCount(doc.text) >= targetWords || w.hi == |t.segments|)
            && KeptWords(t.segments, w.lo, w.hi - 1) < targetWords
  {
    var ws := Windows(t.segments, targetWords, overlapWords);
    assert k < |ws|;
    WindowsFromAt(t.segments, targetWords, overlapWords, 0, k);
    var w := ws[k];
    assert KeptWords(t.segments, w.lo, w.hi - 1) < targetWords;
    var doc := Chunks(t, targetWords, overlapWords)[k];
    assert doc == ChunkFor(t, w) by {
      ChunksOfAt(t, ws, k);
    }
    ChunkForWindow(t, w);
    var words := KeptWords(t.segments, w.lo, w.hi);
    assert WordCount(doc.text) == words;
    assert words >= targetWords || w.hi == |t.segments|;
  }

  /** Consecutive chunks: the next window starts after the start of the
      previous one and no later than its end, so no segment between them is
      skipped; it starts where the backward walk over the previous chunk's
      segments puts it, and right at the previous end when no overlap is
      asked for. */
  lemma ChunksInOrder(t: Transcript, targetWords: int, overlapWords: int, k: nat)
    requires k + 1 < |Chunks(t, targetWords, overlapWords)|
    ensures var ws := Windows(t.segments, targetWords, overlapWords);
            && ws[k].lo < ws[k + 1].lo <= ws[k].hi
            && Readable(t.segments, ws[k])
            && ws[k + 1].lo == NextStart(t.segments, overlapWords, ws[k])
            && (overlapWords <= 0 ==> ws[k + 1].lo == ws[k].hi)
  {
    var ws := Windows(t.segments, targetWords, overlapWords);
    WindowsFromNext(t.segments, targetWords, overlapWords, 0, k);
    NextStartBounds(t.segments, overlapWords, ws[k]);
  }

  /** The chunks as a whole: there is at most one per non-blank segment; there
      are none exactly when the target is not positive or every segment is
      blank; the first window starts at the first segment, and with a
      positive target no non-blank segment follows the last window. */
  lemma ChunksCover(t: Transcript, targetWords: int, overlapWords: int)
    ensures var segs := t.segments;
            var ws := Windows(segs, targetWords, overlapWords);
            && |Chunks(t, targetWords, overlapWords)| == |ws| <= |Kept(segs, 0, |segs|)|
            && (ws == [] <==> targetWords <= 0 || Kept(segs, 0, |segs|) == [])
            && (ws != [] ==> ws[0].lo == 0)
            && (ws != [] && targetWords > 0 ==>
                  ws[|ws| - 1].hi <= |segs| && Kept(segs, ws[|ws| - 1].hi, |segs|) == [])
  {
    var segs := t.segments;
    WindowsFromCount(segs, targetWords, overlapWords, 0);
    WindowsFromEmpty(segs, targetWords, overlapWords, 0);
    if Windows(segs, targetWords, overlapWords) != [] {
      WindowsFromFirst(segs, targetWords, overlapWords, 0);
      if targetWords > 0 {
        WindowsFromCover(segs, targetWords, overlapWords, 0);
      }
    }
  }
}
