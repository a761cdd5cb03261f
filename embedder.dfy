/**
 * Video-level deduplication when indexing chunks: a batch is filtered
 * against the videos the vector store already holds, and only the chunks of
 * new videos are appended. The store is an append-only sequence of chunks;
 * embedding and similarity search are not part of this model.
 */
module Embedder {
  import opened Wrappers
  import opened Text
  import opened Records

  /** The stripped ids of the chunks whose raw `video_id` is non-empty. */
  function BatchIds(documents: seq<Chunk>): set<string> {
    set doc | doc in documents && doc.videoId != "" :: Strip(doc.videoId)
  }

  /** Some stored chunk's metadata has exactly this `video_id`
      (`vectordb.get(where={"video_id": vid})` finds ids). */
  predicate Stored(stored: seq<Chunk>, videoId: string) {
    exists doc :: doc in stored && doc.videoId == videoId
  }

  /** The batch ids an uninterrupted lookup does not find in the store (an
      empty id is never looked up, so it always counts as new). */
  function NewIds(documents: seq<Chunk>, stored: seq<Chunk>): set<string> {
    set videoId | videoId in BatchIds(documents) && !(videoId != "" && Stored(stored, videoId))
  }

  /** The chunks of `documents` whose stripped id is in `ids`, in batch order. */
  function Admitted(documents: seq<Chunk>, ids: set<string>): seq<Chunk>
    decreases |documents|
  {
    if documents == [] then []
    else
      var rest := Admitted(documents[..|documents| - 1], ids);
      var last := documents[|documents| - 1];
      if Strip(last.videoId) in ids then rest + [last] else rest
  }

  /** A chunk is admitted exactly when it is in the batch with an id to index. */
  lemma {:induction false} AdmittedMembers(documents: seq<Chunk>, ids: set<string>)
    ensures |Admitted(documents, ids)| <= |documents|
    ensures forall doc :: doc in Admitted(documents, ids) <==> doc in documents && Strip(doc.videoId) in ids
    decreases |documents|
  {
    if documents != [] {
      var init := documents[..|documents| - 1];
      AdmittedMembers(init, ids);
      assert documents == init + [documents[|documents| - 1]];
    }
  }

  /** Filtering keeps batch order: it distributes over concatenation. */
  lemma {:induction false} AdmittedAppend(a: seq<Chunk>, b: seq<Chunk>, ids: set<string>)
    ensures Admitted(a + b, ids) == Admitted(a, ids) + Admitted(b, ids)
    decreases |b|
  {
    if b == [] {
      assert a + b == a;
    } else {
      var init := b[..|b| - 1];
      AdmittedAppend(a, init, ids);
      assert (a + b)[..|a + b| - 1] == a + init;
    }
  }

  /** No ids to index admits nothing. */
  lemma {:induction false} AdmittedNone(documents: seq<Chunk>)
    ensures Admitted(documents, {}) == []
    decreases |documents|
  {
    if documents != [] {
      AdmittedNone(documents[..|documents| - 1]);
    }
  }

  /** The store after a call in which no existence lookup fails. */
  function Indexed(stored: seq<Chunk>, documents: seq<Chunk>): seq<Chunk> {
    if documents == [] then stored
    else if BatchIds(documents) == {} then stored + documents
    else stored + Admitted(documents, NewIds(documents, stored))
  }

  /** The persistent vector store, seen as the chunks it holds in insertion order. */
  class VectorStore {
    var docs: seq<Chunk>

    constructor()
      ensures docs == []
    {
      docs := [];
    }

    predicate HasVideo(videoId: string)
      reads this
    {
      Stored(docs, videoId)
    }

    /** `add_documents`: the store grows by the batch, at the end. */
    method AddDocuments(batch: seq<Chunk>)
      modifies this
      ensures docs == old(docs) + batch
    {
      docs := docs + batch;
    }
  }

  /** The lookup loop: look each non-empty batch id up, in the unspecified
      order in which a Python set is iterated; the first lookup of an id in
      `failing` raises, which ends the loop and is swallowed. Every id
      reported exists in the store, and without a failure all stored ids of
      the batch are reported. */
  method ExistingVideoIds(store: VectorStore, videoIds: set<string>, failing: set<string>)
    returns (existing: set<string>)
    ensures existing <= videoIds
    ensures forall videoId :: videoId in existing ==> videoId != "" && store.HasVideo(videoId)
    ensures (forall videoId :: videoId in videoIds && videoId != "" ==> videoId !in failing) ==>
              existing == set videoId | videoId in videoIds && videoId != "" && store.HasVideo(videoId)
  {
    existing := {};
    var remaining := videoIds;
    var failed := false;
    while remaining != {} && !failed
      invariant remaining <= videoIds
      invariant existing <= videoIds
      invariant forall videoId :: videoId in existing ==> videoId != "" && store.HasVideo(videoId)
      invariant !failed ==>
                  existing == set videoId | videoId in videoIds - remaining && videoId != "" && store.HasVideo(videoId)
      invariant failed ==> exists videoId :: videoId in videoIds && videoId != "" && videoId in failing
      decreases |remaining|, !failed
    {
      var videoId :| videoId in remaining;
      remaining := remaining - {videoId};
      if videoId == "" {
        continue;
      }
      if videoId in failing {
        failed := true;
      } else if store.HasVideo(videoId) {
        existing := existing + {videoId};
      }
    }
  }

  /** `index_documents`: drop the chunks of videos the store already holds
      and append the rest; an empty batch changes nothing and a batch
      without any `video_id` is appended whole. With a failing lookup, the
      ids found before the failure are still skipped and all others are
      indexed. `apiKey` is the `OPENAI_API_KEY` environment value (`""`
      when unset): opening the store for a non-empty batch raises
      `RuntimeError(MissingKey)` when it is blank, before anything is
      stored. */
  method IndexDocuments(store: VectorStore, documents: seq<Chunk>, apiKey: string, failing: set<string>)
    returns (r: Result<(), string>)
    modifies store
    ensures r.Failure? <==> documents != [] && Strip(apiKey) == ""
    ensures r.Failure? ==> r.error == MissingKey && store.docs == old(store.docs)
    ensures documents == [] ==> store.docs == old(store.docs)
    ensures documents != [] && Strip(apiKey) != "" && BatchIds(documents) == {} ==>
              store.docs == old(store.docs) + documents
    ensures documents != [] && Strip(apiKey) != "" && BatchIds(documents) != {} ==>
              exists toIndex :: NewIds(documents, old(store.docs)) <= toIndex <= BatchIds(documents)
                                && store.docs == old(store.docs) + Admitted(documents, toIndex)
    ensures Strip(apiKey) != "" && (forall videoId :: videoId in BatchIds(documents) && videoId != "" ==> videoId !in failing) ==>
              store.docs == Indexed(old(store.docs), documents)
  {
    r := Success(());
    if documents == [] {
      return;
    }
    if Strip(apiKey) == "" {
      return Failure(MissingKey);
    }
    var videoIds := BatchIds(documents);
    if videoIds == {} {
      store.AddDocuments(documents);
      return;
    }
    var existing := ExistingVideoIds(store, videoIds, failing);
    var toIndex := videoIds - existing;
    assert NewIds(documents, store.docs) <= toIndex;
    if forall videoId :: videoId in videoIds && videoId != "" ==> videoId !in failing {
      assert toIndex == NewIds(documents, store.docs);
    }
    if toIndex == {} {
      AdmittedNone(documents);
      assert store.docs == old(store.docs) + Admitted(documents, toIndex);
      return;
    }
    var docsToAdd := Admitted(documents, toIndex);
    if docsToAdd == [] {
      return;
    }
    store.AddDocuments(docsToAdd);
  }

  /** Indexing only appends: what was stored stays, in place. */
  lemma IndexedAppendOnly(stored: seq<Chunk>, documents: seq<Chunk>)
    ensures stored <= Indexed(stored, documents)
  {
  }

  /** With ids present, a chunk is appended exactly when it belongs to the
      batch and its stripped id is new to the store. */
  lemma IndexedAppends(stored: seq<Chunk>, documents: seq<Chunk>)
    requires BatchIds(documents) != {}
    ensures var added := Indexed(stored, documents)[|stored|..];
            forall doc :: doc in added <==>
              doc in documents && Strip(doc.videoId) in BatchIds(documents)
              && !(Strip(doc.videoId) != "" && Stored(stored, Strip(doc.videoId)))
  {
    AdmittedMembers(documents, NewIds(documents, stored));
    assert Indexed(stored, documents)[|stored|..] == Admitted(documents, NewIds(documents, stored));
  }

  /** When every video of the batch is already stored, the store is unchanged. */
  lemma AllStoredUnchanged(stored: seq<Chunk>, documents: seq<Chunk>)
    requires BatchIds(documents) != {}
    requires forall videoId :: videoId in BatchIds(documents) ==> videoId != "" && Stored(stored, videoId)
    ensures Indexed(stored, documents) == stored
  {
    assert NewIds(documents, stored) == {};
    AdmittedNone(documents);
  }

  /** Every non-empty id of a batch whose ids carry no surrounding
      whitespace is stored once the batch has been indexed. */
  lemma IndexedStoresBatch(stored: seq<Chunk>, documents: seq<Chunk>)
    requires BatchIds(documents) != {}
    requires forall doc :: doc in documents ==> Strip(doc.videoId) == doc.videoId
    ensures forall videoId :: videoId in BatchIds(documents) ==> videoId != "" && Stored(Indexed(stored, documents), videoId)
  {
    var after := Indexed(stored, documents);
    var newIds := NewIds(documents, stored);
    AdmittedMembers(documents, newIds);
    forall videoId | videoId in BatchIds(documents)
      ensures videoId != "" && Stored(after, videoId)
    {
      var doc :| doc in documents && doc.videoId != "" && Strip(doc.videoId) == videoId;
      if Stored(stored, videoId) {
        var old_ :| old_ in stored && old_.videoId == videoId;
        assert old_ in after;
      } else {
        assert videoId in newIds;
        assert doc in Admitted(documents, newIds);
        assert doc in after[|stored|..];
        assert doc in after;
      }
    }
  }

  /** Indexing the same batch twice adds nothing the second time, provided
      the batch carries some id and its ids are already stripped. */
  lemma IndexTwice(stored: seq<Chunk>, documents: seq<Chunk>)
    requires BatchIds(documents) != {}
    requires forall doc :: doc in documents ==> Strip(doc.videoId) == doc.videoId
    ensures Indexed(Indexed(stored, documents), documents) == Indexed(stored, documents)
  {
    IndexedStoresBatch(stored, documents);
    AllStoredUnchanged(Indexed(stored, documents), documents);
  }

  /** Why the stripped-ids proviso is needed: a chunk whose id carries a
      space is looked up by its stripped id, never matches its own stored
      copy, and is appended again on every call. */
  lemma PaddedIdReindexed(c: Chunk)
    requires c.videoId == " abc"
    ensures Indexed([c], [c]) == [c, c]
  {
    var s := " abc";
    OccursIn(' ', Whitespace);
    GraphicNotSpace('a');
    GraphicNotSpace('c');
    assert s[1..] == "abc";
    assert TrimLeft(s) == "abc";
    assert Strip(s) == "abc";
    assert "abc" in BatchIds([c]);
    assert !Stored([c], "abc");
    var ids := NewIds([c], [c]);
    assert "abc" in ids;
    assert [c][..0] == [];
    assert Admitted([c], ids) == [c];
  }
}
