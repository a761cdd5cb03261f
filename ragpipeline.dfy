/**
 * Conversation memory, the `ask` control flow and the formatting helpers of
 * the question-answering pipeline: session memory keyed by a normalised
 * session id, the last-five-exchanges history string, timestamp rendering and
 * the citation context built from retrieved chunks.
 */
module RagPipeline {
  import opened Wrappers
  import opened Text
  import opened Records

  /** One question/answer pair kept in session memory. */
  datatype Exchange = Exchange(question: string, answer: string)

  const DefaultSession: string := "default"

  /** How many past exchanges the history shows. */
  const HistoryWindow: nat := 5

  /** The memory key of a session id: the trimmed id, or "default" when
      that is empty. */
  function SessionKey(sessionId: string): (k: string)
    ensures k != ""
  {
    if Strip(sessionId) == "" then DefaultSession else Strip(sessionId)
  }

  /** A key is already normalised: normalising it again changes nothing. */
  lemma SessionKeyIdempotent(sessionId: string)
    ensures SessionKey(SessionKey(sessionId)) == SessionKey(sessionId)
  {
    if Strip(sessionId) == "" {
      GraphicNotSpace('d');
      GraphicNotSpace('t');
      StripUnchanged(DefaultSession);
    } else {
      StripIdempotent(sessionId);
    }
  }

  /** Blank ids and "default" share one session; any other id is its own
      trimmed text. */
  lemma SessionKeyBlank(sessionId: string)
    ensures IsBlank(sessionId) ==> SessionKey(sessionId) == DefaultSession
    ensures !IsBlank(sessionId) ==> SessionKey(sessionId) == Strip(sessionId)
  {
    StripEmpty(sessionId);
  }

  /** `store.get(key, [])`. */
  function Lookup(sessions: map<string, seq<Exchange>>, key: string): seq<Exchange> {
    if key in sessions then sessions[key] else []
  }

  /** The last `HistoryWindow` exchanges (all of them when there are fewer). */
  function Recent(exchanges: seq<Exchange>): (r: seq<Exchange>)
    ensures |r| == if |exchanges| < HistoryWindow then |exchanges| else HistoryWindow
    ensures r == exchanges[|exchanges| - |r|..]
  {
    if |exchanges| <= HistoryWindow then exchanges else exchanges[|exchanges| - HistoryWindow..]
  }

  /** The `Human:` / `Assistant:` line pair of each exchange, oldest first. */
  function HistoryLines(exchanges: seq<Exchange>): seq<string>
    decreases |exchanges|
  {
    if exchanges == [] then []
    else
      var last := exchanges[|exchanges| - 1];
      HistoryLines(exchanges[..|exchanges| - 1]) + ["Human: " + last.question, "Assistant: " + last.answer]
  }

  /** The history string handed to the answering chain: "" without
      exchanges, else the lines joined by newlines. */
  function RenderHistory(exchanges: seq<Exchange>): string {
    if exchanges == [] then "" else Join("\n", HistoryLines(exchanges))
  }

  /** What `_get_history(sessionId)` returns for a given memory. */
  function History(sessions: map<string, seq<Exchange>>, sessionId: string): string {
    RenderHistory(Recent(Lookup(sessions, SessionKey(sessionId))))
  }

  /** The memory after `_save_history(sessionId, question, answer)`. */
  function Saved(sessions: map<string, seq<Exchange>>, sessionId: string, question: string, answer: string)
    : map<string, seq<Exchange>>
  {
    var key := SessionKey(sessionId);
    sessions[key := Lookup(sessions, key) + [Exchange(question, answer)]]
  }

  /** Line `2k` is exchange `k`'s question and line `2k + 1` its answer. */
  lemma {:induction false} HistoryLinesAt(exchanges: seq<Exchange>)
    ensures |HistoryLines(exchanges)| == 2 * |exchanges|
    ensures forall k {:trigger exchanges[k]} :: 0 <= k < |exchanges| ==>
              HistoryLines(exchanges)[2 * k] == "Human: " + exchanges[k].question
              && HistoryLines(exchanges)[2 * k + 1] == "Assistant: " + exchanges[k].answer
    decreases |exchanges|
  {
    if exchanges != [] {
      var init := exchanges[..|exchanges| - 1];
      HistoryLinesAt(init);
      assert forall k :: 0 <= k < |init| ==> init[k] == exchanges[k];
    }
  }

  /** The history is empty exactly when the session has no exchanges. */
  lemma HistoryEmpty(sessions: map<string, seq<Exchange>>, sessionId: string)
    ensures History(sessions, sessionId) == "" <==> Lookup(sessions, SessionKey(sessionId)) == []
  {
    var recent := Recent(Lookup(sessions, SessionKey(sessionId)));
    if recent != [] {
      HistoryLinesAt(recent);
      JoinFirst("\n", HistoryLines(recent));
      assert HistoryLines(recent)[0] == "Human: " + recent[0].question;
    }
  }

  /** The rendered history ends with the line pair of its newest exchange. */
  lemma RenderEndsWithLast(exchanges: seq<Exchange>)
    requires exchanges != []
    ensures var last := exchanges[|exchanges| - 1];
            EndsWith(RenderHistory(exchanges), ("Human: " + last.question) + "\n" + ("Assistant: " + last.answer))
  {
    var last := exchanges[|exchanges| - 1];
    var init := exchanges[..|exchanges| - 1];
    var h := "Human: " + last.question;
    var a := "Assistant: " + last.answer;
    var tail := h + "\n" + a;
    var lines := HistoryLines(exchanges);
    assert RenderHistory(exchanges) == Join("\n", lines);
    assert lines == HistoryLines(init) + [h, a];
    if init == [] {
      assert lines[..1] == [h];
      assert Join("\n", lines) == [] + tail;
      EndsWithConcat([], tail);
    } else {
      var front := HistoryLines(init);
      assert front != [] by {
        assert init[..|init| - 1] + [init[|init| - 1]] == init;
      }
      JoinSnoc("\n", front, h);
      JoinSnoc("\n", front + [h], a);
      assert front + [h] + [a] == lines;
      assert Join("\n", lines) == (Join("\n", front) + "\n") + tail;
      EndsWithConcat(Join("\n", front) + "\n", tail);
    }
  }

  /** Right after saving, the history ends with the new exchange. */
  lemma HistoryAfterSave(sessions: map<string, seq<Exchange>>, sessionId: string, question: string, answer: string)
    ensures EndsWith(History(Saved(sessions, sessionId, question, answer), sessionId),
                     ("Human: " + question) + "\n" + ("Assistant: " + answer))
  {
    var key := SessionKey(sessionId);
    var exchanges := Lookup(sessions, key) + [Exchange(question, answer)];
    assert Lookup(Saved(sessions, sessionId, question, answer), key) == exchanges;
    var recent := Recent(exchanges);
    assert recent[|recent| - 1] == Exchange(question, answer);
    RenderEndsWithLast(recent);
  }

  /** Saving appends exactly one exchange to the session's list and leaves
      every other session's list as it was. */
  lemma SaveAppends(sessions: map<string, seq<Exchange>>, sessionId: string, question: string, answer: string)
    ensures var after := Saved(sessions, sessionId, question, answer);
            && Lookup(after, SessionKey(sessionId)) == Lookup(sessions, SessionKey(sessionId)) + [Exchange(question, answer)]
            && (forall key :: key != SessionKey(sessionId) ==> Lookup(after, key) == Lookup(sessions, key))
            && after.Keys == sessions.Keys + {SessionKey(sessionId)}
  {
  }

  /** Sessions are isolated: saving under one id does not change the
      history of an id with a different key. */
  lemma SessionIsolation(sessions: map<string, seq<Exchange>>, sessionId: string, question: string, answer: string,
                         otherId: string)
    requires SessionKey(otherId) != SessionKey(sessionId)
    ensures History(Saved(sessions, sessionId, question, answer), otherId) == History(sessions, otherId)
  {
    SaveAppends(sessions, sessionId, question, answer);
  }

  /** The process-wide session memory. */
  class MemoryStore {
    var sessions: map<string, seq<Exchange>>

    constructor()
      ensures sessions == map[]
    {
      sessions := map[];
    }

    /** `_get_history`: the recent exchanges as `Human:` / `Assistant:` lines. */
    method GetHistory(sessionId: string) returns (history: string)
      ensures history == History(sessions, sessionId)
    {
      var key := SessionKey(sessionId);
      var exchanges := if key in sessions then sessions[key] else [];
      exchanges := Recent(exchanges);
      if exchanges == [] {
        return "";
      }
      var lines: seq<string> := [];
      var i := 0;
      while i < |exchanges|
        invariant i <= |exchanges|
        invariant lines == HistoryLines(exchanges[..i])
      {
        lines := lines + ["Human: " + exchanges[i].question];
        lines := lines + ["Assistant: " + exchanges[i].answer];
        assert exchanges[..i + 1][..i] == exchanges[..i];
        i := i + 1;
      }
      assert exchanges[..i] == exchanges;
      history := Join("\n", lines);
    }

    /** `_save_history`: create the session's list if absent, then append. */
    method SaveHistory(sessionId: string, question: string, answer: string)
      modifies this
      ensures sessions == Saved(old(sessions), sessionId, question, answer)
    {
      var key := SessionKey(sessionId);
      if key !in sessions {
        sessions := sessions[key := []];
      }
      sessions := sessions[key := sessions[key] + [Exchange(question, answer)]];
    }
  }

  /** What invoking the answering chain does: return an answer or raise an
      exception of some class with some message. */
  datatype ChainOutcome = Answered(answer: string) | Raised(kind: string, message: string)

  const PleaseEnter: string := "Please enter a question."

  /** The reply when the chain raises. */
  function ErrorReply(kind: string, message: string): string {
    "Sorry \U{2014} I ran into an error while answering that. (" + kind + ": " + message + ")"
  }

  /** `ask`: guard the question and the API key, read the history, invoke
      the chain, and save the exchange only when the chain answers. The
      chain is the retrieval-and-LLM pipeline as a function of the trimmed
      question and the history string; `apiKey` is the environment value
      ("" when unset). */
  method Ask(store: MemoryStore, question: string, sessionId: string, apiKey: string,
             chain: (string, string) -> ChainOutcome)
    returns (reply: string)
    modifies store
    ensures Strip(question) == "" ==> reply == PleaseEnter && store.sessions == old(store.sessions)
    ensures Strip(question) != "" && Strip(apiKey) == "" ==>
              reply == MissingKey && store.sessions == old(store.sessions)
    ensures Strip(question) != "" && Strip(apiKey) != "" ==>
              var outcome := chain(Strip(question), History(old(store.sessions), sessionId));
              && (outcome.Answered? ==>
                    reply == outcome.answer
                    && store.sessions == Saved(old(store.sessions), sessionId, Strip(question), outcome.answer))
              && (outcome.Raised? ==>
                    reply == ErrorReply(outcome.kind, outcome.message)
                    && store.sessions == old(store.sessions))
  {
    var q := Strip(question);
    if q == "" {
      return PleaseEnter;
    }
    if Strip(apiKey) == "" {
      return MissingKey;
    }
    var chatHistory := store.GetHistory(sessionId);
    var outcome := chain(q, chatHistory);
    match outcome {
      case Answered(answer) =>
        store.SaveHistory(sessionId, q, answer);
        reply := answer;
      case Raised(kind, message) =>
        reply := ErrorReply(kind, message);
    }
  }

  /** A duration split into hours, minutes and seconds. */
  datatype Clock = Clock(hours: nat, minutes: nat, seconds: nat)

  /** Negative durations clamp to zero; minutes and seconds stay below 60
      and the three parts add back up to the clamped duration. */
  function ClockOf(totalSeconds: int): (c: Clock)
    ensures c.minutes < 60 && c.seconds < 60
    ensures c.hours * 3600 + c.minutes * 60 + c.seconds == if totalSeconds < 0 then 0 else totalSeconds
  {
    var s := if totalSeconds < 0 then 0 else totalSeconds;
    Clock(s / 3600, (s % 3600) / 60, s % 60)
  }

  /** `_format_timestamp`: `H:MM:SS` from one hour on, else `MM:SS`. */
  function FormatTimestamp(totalSeconds: int): (r: string)
    ensures |r| >= 5 && forall k :: 0 <= k < |r| ==> IsDigit(r[k]) || r[k] == ':'
  {
    var c := ClockOf(totalSeconds);
    if c.hours > 0 then NatToString(c.hours) + ":" + Pad2(c.minutes) + ":" + Pad2(c.seconds)
    else Pad2(c.minutes) + ":" + Pad2(c.seconds)
  }

  /** Reading a rendered timestamp back into seconds: two or three
      colon-separated decimal fields, minutes and seconds below 60. */
  function ParseTimestamp(s: string): Option<nat> {
    var f := Split(s, ':');
    if |f| == 3 && AllDigits(f[0]) && AllDigits(f[1]) && AllDigits(f[2])
       && DecimalValue(f[1]) < 60 && DecimalValue(f[2]) < 60
    then Some(3600 * DecimalValue(f[0]) + 60 * DecimalValue(f[1]) + DecimalValue(f[2]))
    else if |f| == 2 && AllDigits(f[0]) && AllDigits(f[1])
       && DecimalValue(f[0]) < 60 && DecimalValue(f[1]) < 60
    then Some(60 * DecimalValue(f[0]) + DecimalValue(f[1]))
    else None
  }

  lemma DigitsNoColon(s: string)
    requires AllDigits(s)
    ensures ':' !in s
  {
  }

  /** The colon-separated fields of a rendered timestamp: three from one
      hour on, else two, and the last two always two digits wide. */
  lemma TimestampFields(totalSeconds: int)
    ensures var c := ClockOf(totalSeconds);
            && (c.hours > 0 ==> Split(FormatTimestamp(totalSeconds), ':') == [NatToString(c.hours), Pad2(c.minutes), Pad2(c.seconds)])
            && (c.hours == 0 ==> Split(FormatTimestamp(totalSeconds), ':') == [Pad2(c.minutes), Pad2(c.seconds)])
  {
    var c := ClockOf(totalSeconds);
    var h, m, s := NatToString(c.hours), Pad2(c.minutes), Pad2(c.seconds);
    DigitsNoColon(h);
    DigitsNoColon(m);
    DigitsNoColon(s);
    SplitNone(s, ':');
    SplitCons(m, ':', s);
    if c.hours > 0 {
      SplitCons(h, ':', m + ":" + s);
      ConcatAssoc(h + ":", m, ":");
      ConcatAssoc(h + ":", m + ":", s);
    }
  }

  /** `H:MM:SS` exactly when the clamped duration is at least an hour,
      minutes and seconds always zero-padded to two digits. */
  lemma TimestampShape(totalSeconds: int)
    ensures var f := Split(FormatTimestamp(totalSeconds), ':');
            && |f| == (if totalSeconds >= 3600 then 3 else 2)
            && |f[|f| - 1]| == 2 && |f[|f| - 2]| == 2
  {
    TimestampFields(totalSeconds);
  }

  /** The rendering loses nothing: it reads back as the clamped number of
      seconds. */
  lemma TimestampRoundTrip(totalSeconds: int)
    ensures ParseTimestamp(FormatTimestamp(totalSeconds)) == Some(if totalSeconds < 0 then 0 else totalSeconds)
  {
    var c := ClockOf(totalSeconds);
    TimestampFields(totalSeconds);
    NatToStringRoundTrip(c.hours);
    Pad2RoundTrip(c.minutes);
    Pad2RoundTrip(c.seconds);
  }

  const NoChunks: string := "No relevant transcript chunks were retrieved."

  /** The watch link citing `startTime` seconds into video `videoId`. */
  function CitationLink(videoId: string, startTime: int): (link: string)
    ensures link != [] && IsDigit(link[|link| - 1])
  {
    "https://www.youtube.com/watch?v=" + videoId + "&t=" + IntToString(startTime)
  }

  /** The header line of the `index`-th (1-based) retrieved chunk. */
  function Header(index: nat, doc: Chunk): (h: string)
    ensures h != [] && h[0] == '[' && IsDigit(h[|h| - 1])
  {
    HeaderFields(index, doc) + CitationLink(Strip(doc.videoId), doc.startTime)
  }

  /** Everything a header shows before its link. */
  function HeaderFields(index: nat, doc: Chunk): string {
    var videoId := Strip(doc.videoId);
    var title := Strip(doc.videoTitle);
    "[Chunk " + NatToString(index) + "] video_title=" + Repr(title) + " video_id=" + Repr(videoId)
    + " start_time=" + IntToString(doc.startTime) + " (" + FormatTimestamp(doc.startTime) + ") link="
  }

  /** A header closes with the link citing its chunk's video (the stripped
      id) at the chunk's start time. */
  lemma HeaderLink(index: nat, doc: Chunk)
    ensures EndsWith(Header(index, doc), CitationLink(Strip(doc.videoId), doc.startTime))
  {
    EndsWithConcat(HeaderFields(index, doc), CitationLink(Strip(doc.videoId), doc.startTime));
  }

  /** Header and stripped content of each chunk, in retrieval order. */
  function ContextParts(docs: seq<Chunk>): seq<string>
    decreases |docs|
  {
    if docs == [] then []
    else
      var last := docs[|docs| - 1];
      ContextParts(docs[..|docs| - 1]) + [Header(|docs|, last), Strip(last.text)]
  }

  /** What `_format_docs(docs)` returns. */
  function Context(docs: seq<Chunk>): string {
    if docs == [] then NoChunks else Strip(Join("\n\n", ContextParts(docs)))
  }

  lemma ContextPartsSnoc(docs: seq<Chunk>, i: nat)
    requires i < |docs|
    ensures ContextParts(docs[..i + 1]) == ContextParts(docs[..i]) + [Header(i + 1, docs[i])] + [Strip(docs[i].text)]
  {
    assert docs[..i + 1][..i] == docs[..i];
  }

  /** `_format_docs`: build the parts list in a loop, join with blank lines. */
  method FormatDocs(docs: seq<Chunk>) returns (context: string)
    ensures context == Context(docs)
  {
    if docs == [] {
      return NoChunks;
    }
    var parts: seq<string> := [];
    var i := 0;
    while i < |docs|
      invariant i <= |docs|
      invariant parts == ContextParts(docs[..i])
    {
      var doc := docs[i];
      parts := parts + [Header(i + 1, doc)];
      parts := parts + [Strip(doc.text)];
      ContextPartsSnoc(docs, i);
      i := i + 1;
    }
    assert docs[..i] == docs;
    context := Strip(Join("\n\n", parts));
  }

  /** Part `2k` is the header of chunk `k + 1` and part `2k + 1` its
      stripped content. */
  lemma {:induction false} ContextPartsAt(docs: seq<Chunk>)
    ensures |ContextParts(docs)| == 2 * |docs|
    ensures forall k {:trigger docs[k]} :: 0 <= k < |docs| ==>
              ContextParts(docs)[2 * k] == Header(k + 1, docs[k])
              && ContextParts(docs)[2 * k + 1] == Strip(docs[k].text)
    decreases |docs|
  {
    if docs != [] {
      var init := docs[..|docs| - 1];
      var parts := ContextParts(docs);
      ContextPartsAt(init);
      assert parts == ContextParts(init) + [Header(|docs|, docs[|docs| - 1]), Strip(docs[|docs| - 1].text)];
      forall k | 0 <= k < |docs|
        ensures parts[2 * k] == Header(k + 1, docs[k]) && parts[2 * k + 1] == Strip(docs[k].text)
      {
        if k < |init| {
          assert init[k] == docs[k];
          assert parts[2 * k] == ContextParts(init)[2 * k];
          assert parts[2 * k + 1] == ContextParts(init)[2 * k + 1];
        } else {
          assert k + 1 == |docs| && 2 * k == |ContextParts(init)|;
        }
      }
    }
  }

  /** A non-empty context opens with the first chunk's full header. */
  lemma ContextStartsWithHeader(docs: seq<Chunk>)
    requires docs != []
    ensures Header(1, docs[0]) <= Context(docs)
  {
    var h := Header(1, docs[0]);
    var parts := ContextParts(docs);
    var joined := Join("\n\n", parts);
    ContextPartsAt(docs);
    assert parts[0] == h;
    JoinFirst("\n\n", parts);
    assert h <= joined;
    GraphicNotSpace('[');
    assert joined[0] == '[';
    assert !IsSpace(joined[0]);
    DigitNotSpace(h[|h| - 1]);
    assert !IsSpace(h[|h| - 1]);
    StripKeepsPrefix(joined, h);
  }
}
