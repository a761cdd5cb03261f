/** The records passed between the transcript fetcher, the chunker, the index
    store and the answer composer. */
module Records {

  /** One timestamped span of transcribed speech (`TranscriptSegment`):
      `start` and `duration` are seconds. */
  datatype Segment = Segment(text: string, start: real, duration: real)

  /** The part of a `TranscriptResult` the chunker reads. A missing key and
      an empty string are both written `""` here: the chunker's `or`
      defaults treat them alike. */
  datatype Transcript = Transcript(videoId: string, title: string, url: string, segments: seq<Segment>)

  /** A LangChain `Document` produced by the chunker: its `page_content` and
      its four metadata entries. */
  datatype Chunk = Chunk(text: string, videoId: string, videoTitle: string, startTime: int, url: string)

  /** The message given when `OPENAI_API_KEY` is unset or blank: returned by
      `ask`, raised as `RuntimeError` by `_get_embeddings`. */
  const MissingKey: string := "Missing OPENAI_API_KEY. Add it to your .env file and restart the app."
}
