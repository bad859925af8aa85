/** `embed_texts`: the texts are sent to the embedding service in consecutive
    batches of at most `BatchSize`, and the vectors of each response are
    appended in order.

    The service is a parameter: a function from one batch of texts to either
    the vectors it returned or the message of the exception it raised. Vectors
    are opaque values of type `V`; the float32 array conversion and the L2
    normalisation that follow are numerics and are not modelled. */
module Embedder {
  import opened Windows
  import opened Results
  import Ingest

  const BatchSize: nat := 16

  /** The batches `texts[0:16]`, `texts[16:32]`, ...: windows of 16 without overlap. */
  function Batches<T>(texts: seq<T>): (batches: seq<seq<T>>)
    ensures Flatten(batches) == texts
  {
    SlidePartitions(texts, BatchSize);
    Slide(texts, BatchSize, 0)
  }

  /** The batches partition the input: each holds 1 to 16 texts, all but the
      last exactly 16, there are ceil(len / 16) of them, and their
      concatenation is the input in its original order. */
  lemma BatchesPartition<T>(texts: seq<T>)
    ensures Flatten(Batches(texts)) == texts
    ensures |Batches(texts)| == (|texts| + 15) / 16
    ensures forall i :: 0 <= i < |Batches(texts)| ==> 0 < |Batches(texts)[i]| <= BatchSize
    ensures forall i :: 0 <= i < |Batches(texts)| - 1 ==> |Batches(texts)[i]| == BatchSize
  {
    SlidePartitions(texts, BatchSize);
    SlideCount(texts, BatchSize, 0);
  }

  /** Calls the service on each batch in turn and appends the returned vectors;
      the first failing call ends the embedding with its message. */
  function EmbedBatches<V>(batches: seq<seq<string>>, service: seq<string> -> Result<seq<V>>): (r: Result<seq<V>>)
    decreases |batches|
    ensures r.Failure? ==>
              exists i :: 0 <= i < |batches| && service(batches[i]) == Failure(r.error)
                          && forall j :: 0 <= j < i ==> service(batches[j]).Success?
    ensures r.Success? ==> forall i :: 0 <= i < |batches| ==> service(batches[i]).Success?
  {
    if |batches| == 0 then Success([])
    else
      assert forall i :: 0 < i < |batches| ==> batches[i] == batches[1..][i - 1];
      match service(batches[0])
      case Failure(m) => Failure(m)
      case Success(vs) =>
        match EmbedBatches(batches[1..], service)
        case Failure(m) =>
          var i :| 0 <= i < |batches| - 1 && service(batches[1..][i]) == Failure(m)
                   && forall j :: 0 <= j < i ==> service(batches[1..][j]).Success?;
          assert service(batches[i + 1]) == Failure(m);
          assert forall j :: 0 < j < i + 1 ==> service(batches[j]).Success?;
          Failure(m)
        case Success(rest) => Success(vs + rest)
  }

  /** `embed_texts`: the service's answers for the batches of 16, appended in
      order; a failure carries the exception message of the first batch whose
      call failed. */
  function EmbedTexts<V>(texts: seq<string>, service: seq<string> -> Result<seq<V>>): (r: Result<seq<V>>)
    ensures r.Failure? ==>
              exists i :: 0 <= i < |Batches(texts)| && service(Batches(texts)[i]) == Failure(r.error)
                          && forall j :: 0 <= j < i ==> service(Batches(texts)[j]).Success?
    ensures r.Success? ==> forall i :: 0 <= i < |Batches(texts)| ==> service(Batches(texts)[i]).Success?
  {
    EmbedBatches(Batches(texts), service)
  }

  /** The service answered `batch` with one vector per text. */
  predicate OneVectorPerText<V>(service: seq<string> -> Result<seq<V>>, batch: seq<string>) {
    service(batch).Success? && |service(batch).value| == |batch|
  }

  /** A service that embeds each text on its own, whatever batch it comes in. */
  function EmbedEach<V>(embed: string -> V, texts: seq<string>): (vs: seq<V>)
    ensures |vs| == |texts|
  {
    seq(|texts|, i requires 0 <= i < |texts| => embed(texts[i]))
  }

  /** Embedding fails exactly when some batch call fails. */
  lemma {:induction false} EmbedBatchesFails<V>(batches: seq<seq<string>>, service: seq<string> -> Result<seq<V>>)
    decreases |batches|
    ensures EmbedBatches(batches, service).Failure? <==>
              exists i :: 0 <= i < |batches| && service(batches[i]).Failure?
  {
    if |batches| > 0 {
      EmbedBatchesFails(batches[1..], service);
      assert forall i :: 0 < i < |batches| ==> batches[i] == batches[1..][i - 1];
      if EmbedBatches(batches[1..], service).Failure? {
        var i :| 0 <= i < |batches| - 1 && service(batches[1..][i]).Failure?;
        assert service(batches[i + 1]).Failure?;
      }
    }
  }

  lemma EmbedTextsFails<V>(texts: seq<string>, service: seq<string> -> Result<seq<V>>)
    ensures EmbedTexts(texts, service).Failure? <==>
              exists i :: 0 <= i < |Batches(texts)| && service(Batches(texts)[i]).Failure?
  {
    EmbedBatchesFails(Batches(texts), service);
  }

  lemma {:induction false} EmbedBatchesCount<V>(batches: seq<seq<string>>, service: seq<string> -> Result<seq<V>>)
    requires forall i :: 0 <= i < |batches| ==> OneVectorPerText(service, batches[i])
    decreases |batches|
    ensures EmbedBatches(batches, service).Success?
    ensures |EmbedBatches(batches, service).value| == |Flatten(batches)|
  {
    if |batches| > 0 {
      assert forall i :: 0 <= i < |batches| - 1 ==> batches[1..][i] == batches[i + 1];
      EmbedBatchesCount(batches[1..], service);
    }
  }

  /** When every batch call returns one vector per text, embedding succeeds
      with exactly one vector per input text. */
  lemma EmbedTextsCount<V>(texts: seq<string>, service: seq<string> -> Result<seq<V>>)
    requires forall i :: 0 <= i < |Batches(texts)| ==> OneVectorPerText(service, Batches(texts)[i])
    ensures EmbedTexts(texts, service).Success?
    ensures |EmbedTexts(texts, service).value| == |texts|
  {
    EmbedBatchesCount(Batches(texts), service);
    BatchesPartition(texts);
  }

  lemma EmbedEachAppend<V>(embed: string -> V, a: seq<string>, b: seq<string>)
    ensures EmbedEach(embed, a + b) == EmbedEach(embed, a) + EmbedEach(embed, b)
  {
  }

  lemma {:induction false} EmbedBatchesPointwise<V>(batches: seq<seq<string>>, service: seq<string> -> Result<seq<V>>, embed: string -> V)
    requires forall i :: 0 <= i < |batches| ==> service(batches[i]) == Success(EmbedEach(embed, batches[i]))
    decreases |batches|
    ensures EmbedBatches(batches, service) == Success(EmbedEach(embed, Flatten(batches)))
  {
    if |batches| > 0 {
      assert forall i :: 0 <= i < |batches| - 1 ==> batches[1..][i] == batches[i + 1];
      EmbedBatchesPointwise(batches[1..], service, embed);
      EmbedEachAppend(embed, batches[0], Flatten(batches[1..]));
    }
  }

  /** Batch boundaries do not affect the output: if the service embeds each
      text of a batch independently, the result is each input's vector, in
      input order, as if every text had been embedded on its own. */
  lemma EmbedTextsPointwise<V>(texts: seq<string>, service: seq<string> -> Result<seq<V>>, embed: string -> V)
    requires forall i :: 0 <= i < |Batches(texts)| ==>
               service(Batches(texts)[i]) == Success(EmbedEach(embed, Batches(texts)[i]))
    ensures EmbedTexts(texts, service) == Success(EmbedEach(embed, texts))
  {
    EmbedBatchesPointwise(Batches(texts), service, embed);
    BatchesPartition(texts);
  }

  /** Index build at start-up: the corpus's chunks are embedded, and when the
      service returns one vector per text the vectors, chunks and file names
      are three index-aligned lists of the same length. */
  lemma CorpusEmbeddingsAligned<V>(docs: seq<Ingest.Document>, service: seq<string> -> Result<seq<V>>)
    requires forall i :: 0 <= i < |Batches(Ingest.LoadAndChunk(docs).chunks)| ==>
               OneVectorPerText(service, Batches(Ingest.LoadAndChunk(docs).chunks)[i])
    ensures EmbedTexts(Ingest.LoadAndChunk(docs).chunks, service).Success?
    ensures |EmbedTexts(Ingest.LoadAndChunk(docs).chunks, service).value|
              == |Ingest.LoadAndChunk(docs).chunks|
              == |Ingest.LoadAndChunk(docs).docNames|
  {
    EmbedTextsCount(Ingest.LoadAndChunk(docs).chunks, service);
  }
}
