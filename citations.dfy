/**
 * The citation links the answer context offers point back to the video they
 * cite: the id-extraction rules recover the chunk's video id from its link.
 */
module Citations {
  import opened Wrappers
  import opened Text
  import opened Records
  import RagPipeline
  import opened TranscriptFetcher

  /** The `&t=` parameter of a link is a query tail the watch rule skips. */
  lemma TimeParameter(startTime: int)
    ensures var more := "&t=" + IntToString(startTime);
            more[0] == '&' && !IsSpace(more[|more| - 1]) && '#' !in more
  {
    var more := "&t=" + IntToString(startTime);
    DigitNotSpace(more[|more| - 1]);
  }

  /** Following the link of a chunk with a valid video id leads back to
      that id, whatever the start time. */
  lemma CitationRoundTrip(videoId: string, startTime: int)
    requires IsVideoId(videoId)
    ensures ExtractVideoId(RagPipeline.CitationLink(videoId, startTime)) == Success(videoId)
  {
    var more := "&t=" + IntToString(startTime);
    TimeParameter(startTime);
    WwwYouTubeHost();
    ExtractWatch("www.youtube.com", videoId, more);
    WatchUrlText(videoId, more);
    ConcatAssoc("https://www.youtube.com/watch?v=" + videoId, "&t=", IntToString(startTime));
  }

  /** In the context handed to the model, the header of every chunk with a
      valid (stripped) video id ends with a link that leads back to it. */
  lemma ContextLinksRecoverIds(docs: seq<Chunk>, k: nat)
    requires k < |docs| && IsVideoId(Strip(docs[k].videoId))
    ensures var link := RagPipeline.CitationLink(Strip(docs[k].videoId), docs[k].startTime);
            && 2 * k < |RagPipeline.ContextParts(docs)|
            && EndsWith(RagPipeline.ContextParts(docs)[2 * k], link)
            && ExtractVideoId(link) == Success(Strip(docs[k].videoId))
  {
    RagPipeline.ContextPartsAt(docs);
    RagPipeline.HeaderLink(k + 1, docs[k]);
    CitationRoundTrip(Strip(docs[k].videoId), docs[k].startTime);
  }
}
