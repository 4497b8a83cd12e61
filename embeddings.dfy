/** `generate_embeddings` of lib/ai/ai_model_code.py: the guard on the dataset file, the
    loop over batches of 45 sentences with its progress messages, and the concatenation
    of the per-batch results. The tokenizer, the encoder's forward pass, pooling and
    normalisation of one batch are one opaque step, the parameter `encode`. */
module Embeddings {
  import opened Wrappers
  import opened Seqs
  import opened Pooling

  /** `batch_size`. */
  const BatchSize: nat := 45

  /** Progress is printed when the batch start is a multiple of `batch_size * 10`. */
  const ProgressStride: nat := 450

  function Min(a: int, b: int): int
  {
    if a < b then a else b
  }

  /** `sentences[i:i + batch_size]`. */
  function Slice(s: seq<string>, i: nat): seq<string>
    requires i <= |s|
  {
    s[i..Min(i + BatchSize, |s|)]
  }

  /** The batches for the starts `range(i, len(sentences), batch_size)`, in order. */
  function BatchesFrom(s: seq<string>, i: nat): seq<seq<string>>
    decreases |s| - i
  {
    if i >= |s| then [] else [Slice(s, i)] + BatchesFrom(s, i + BatchSize)
  }

  /** The batches the loop hands to the encoder. */
  function Batches(s: seq<string>): seq<seq<string>>
  {
    BatchesFrom(s, 0)
  }

  /** `embeddings_list`: one encoder result per batch. */
  function EncodeEach(encode: seq<string> -> seq<Vector>, batches: seq<seq<string>>): seq<seq<Vector>>
  {
    seq(|batches|, k requires 0 <= k < |batches| => encode(batches[k]))
  }

  /** `torch.cat(embeddings_list, dim=0)` over the batches of `s`. */
  function EmbedAll(encode: seq<string> -> seq<Vector>, s: seq<string>): seq<Vector>
  {
    Flatten(EncodeEach(encode, Batches(s)))
  }

  /** The counts printed by the progress messages of the batches from start `i` on. */
  function ProgressFrom(n: nat, i: nat): seq<nat>
    decreases n - i
  {
    if i >= n then []
    else (if i % ProgressStride == 0 then [Min(i + BatchSize, n)] else []) + ProgressFrom(n, i + BatchSize)
  }

  /** How a run ends: the early return when the dataset file is absent; the error
      `torch.cat` raises on an empty list when there are no sentences; or the saved
      embedding matrix (one row per sentence, and both output files written, when the
      encoder gives one row per sentence of its batch). */
  datatype Outcome = DatasetMissing | ConcatFailed | Saved(embeddings: seq<Vector>)

  /** `generate_embeddings`. `dataset` is the `text_content` column of the dataset file,
      `None` when the file does not exist. Besides the outcome it returns the batches
      handed to the encoder and the counts the progress messages print, in order. */
  method GenerateEmbeddings(dataset: Option<seq<string>>, encode: seq<string> -> seq<Vector>)
    returns (outcome: Outcome, encoded: seq<seq<string>>, progress: seq<nat>)
    ensures dataset.None? ==> outcome == DatasetMissing && encoded == [] && progress == []
    ensures dataset.Some? ==> encoded == Batches(dataset.value)
    ensures dataset.Some? ==> progress == ProgressFrom(|dataset.value|, 0)
    ensures dataset.Some? && dataset.value == [] ==> outcome == ConcatFailed
    ensures dataset.Some? && dataset.value != [] ==> outcome == Saved(EmbedAll(encode, dataset.value))
  {
    encoded, progress := [], [];
    if dataset.None? {
      return DatasetMissing, encoded, progress;
    }
    var sentences := dataset.value;
    var n := |sentences|;
    var embeddingsList: seq<seq<Vector>> := [];
    var i := 0;
    while i < n
      invariant encoded + BatchesFrom(sentences, i) == Batches(sentences)
      invariant embeddingsList == EncodeEach(encode, encoded)
      invariant progress + ProgressFrom(n, i) == ProgressFrom(n, 0)
      invariant i == 0 <==> encoded == []
      decreases n - i
    {
      var batch := Slice(sentences, i);
      embeddingsList := embeddingsList + [encode(batch)];
      EncodeEachAppend(encode, encoded, batch);
      AppendAssoc(encoded, [batch], BatchesFrom(sentences, i + BatchSize));
      encoded := encoded + [batch];
      var printed: seq<nat> := [];
      if i % (BatchSize * 10) == 0 {
        printed := [Min(i + BatchSize, n)];
      }
      AppendAssoc(progress, printed, ProgressFrom(n, i + BatchSize));
      progress := progress + printed;
      i := i + BatchSize;
    }
    assert BatchesFrom(sentences, i) == [] && ProgressFrom(n, i) == [];
    assert encoded == Batches(sentences);
    if embeddingsList == [] {
      return ConcatFailed, encoded, progress;
    }
    outcome := Saved(Flatten(embeddingsList));
  }

  lemma EncodeEachAppend(encode: seq<string> -> seq<Vector>, batches: seq<seq<string>>, b: seq<string>)
    ensures EncodeEach(encode, batches + [b]) == EncodeEach(encode, batches) + [encode(b)]
  {
  }

  // ---------------------------------------------------------------------------
  // Batches

  /** Concatenating the batches in loop order gives back the sentences. */
  lemma {:induction false} BatchesFromCover(s: seq<string>, i: nat)
    requires i <= |s|
    ensures Flatten(BatchesFrom(s, i)) == s[i..]
    decreases |s| - i
  {
    if i < |s| {
      var rest := BatchesFrom(s, i + BatchSize);
      var blocks := [Slice(s, i)] + rest;
      assert blocks[0] == Slice(s, i) && blocks[1..] == rest;
      assert Flatten(BatchesFrom(s, i)) == Slice(s, i) + Flatten(rest);
      if i + BatchSize <= |s| {
        BatchesFromCover(s, i + BatchSize);
        assert s[i..] == s[i..i + BatchSize] + s[i + BatchSize..];
      } else {
        assert Slice(s, i) == s[i..];
      }
    }
  }

  lemma BatchesCover(s: seq<string>)
    ensures Flatten(Batches(s)) == s
  {
    BatchesFromCover(s, 0);
  }

  /** Every batch holds between 1 and 45 sentences, and there are ceil(n / 45) of them. */
  lemma {:induction false} BatchesFromShape(s: seq<string>, i: nat)
    requires i <= |s|
    ensures forall b :: b in BatchesFrom(s, i) ==> 1 <= |b| <= BatchSize
    ensures |BatchesFrom(s, i)| == (|s| - i + BatchSize - 1) / BatchSize
    decreases |s| - i
  {
    if i < |s| {
      if i + BatchSize <= |s| {
        BatchesFromShape(s, i + BatchSize);
      } else {
        assert BatchesFrom(s, i + BatchSize) == [];
      }
    }
  }

  lemma BatchesShape(s: seq<string>)
    ensures forall b :: b in Batches(s) ==> 1 <= |b| <= BatchSize
    ensures |Batches(s)| == (|s| + BatchSize - 1) / BatchSize
    ensures |s| == 0 <==> Batches(s) == []
  {
    BatchesFromShape(s, 0);
  }

  /** Batch number b starts at sentence 45 * b; it prints progress exactly when b is a
      multiple of 10. */
  lemma TenthBatchPrints(b: nat)
    ensures (b * BatchSize) % ProgressStride == 0 <==> b % 10 == 0
  {
    var q, r := b / 10, b % 10;
    assert b == 10 * q + r;
    assert b * BatchSize == ProgressStride * q + BatchSize * r;
    assert 0 <= BatchSize * r < ProgressStride;
  }

  // ---------------------------------------------------------------------------
  // Reassembly

  /** An encoder that gives one row per sentence of its batch. */
  ghost predicate RowPerSentence(encode: seq<string> -> seq<Vector>)
  {
    forall b :: |encode(b)| == |b|
  }

  lemma {:induction false} EmbedFromAt(encode: seq<string> -> seq<Vector>, s: seq<string>, i: nat)
    requires RowPerSentence(encode) && i <= |s| && i % BatchSize == 0
    ensures |Flatten(EncodeEach(encode, BatchesFrom(s, i)))| == |s| - i
    ensures forall j :: i <= j < |s| ==>
      Flatten(EncodeEach(encode, BatchesFrom(s, i)))[j - i] == encode(Slice(s, j - j % BatchSize))[j % BatchSize]
    decreases |s| - i
  {
    if i < |s| {
      var rest := BatchesFrom(s, i + BatchSize);
      var head := encode(Slice(s, i));
      assert EncodeEach(encode, BatchesFrom(s, i)) == [head] + EncodeEach(encode, rest);
      assert ([head] + EncodeEach(encode, rest))[1..] == EncodeEach(encode, rest);
      var tail := Flatten(EncodeEach(encode, rest));
      assert Flatten(EncodeEach(encode, BatchesFrom(s, i))) == head + tail;
      if i + BatchSize <= |s| {
        EmbedFromAt(encode, s, i + BatchSize);
      } else {
        assert rest == [] && tail == [];
      }
      forall j | i <= j < |s|
        ensures (head + tail)[j - i] == encode(Slice(s, j - j % BatchSize))[j % BatchSize]
      {
        if j < i + BatchSize {
          InBatch(i, j);
        } else {
          assert (head + tail)[j - i] == tail[j - (i + BatchSize)];
        }
      }
    }
  }

  lemma InBatch(i: nat, j: nat)
    requires i % BatchSize == 0 && i <= j < i + BatchSize
    ensures j % BatchSize == j - i && j - j % BatchSize == i
  {
    assert j == BatchSize * (i / BatchSize) + (j - i);
  }

  /** With an encoder that gives one row per sentence, the concatenated matrix has one
      row per sentence, and row j is the row the encoder gave sentence j inside its
      batch. */
  lemma RowsMatchSentences(encode: seq<string> -> seq<Vector>, s: seq<string>)
    requires RowPerSentence(encode)
    ensures |EmbedAll(encode, s)| == |s|
    ensures forall j :: 0 <= j < |s| ==>
      EmbedAll(encode, s)[j] == encode(Slice(s, j - j % BatchSize))[j % BatchSize]
  {
    EmbedFromAt(encode, s, 0);
  }

  /** An encoder that embeds each sentence on its own, whatever batch it is in. */
  ghost predicate Pointwise(encode: seq<string> -> seq<Vector>, f: string -> Vector)
  {
    forall b :: encode(b) == seq(|b|, k requires 0 <= k < |b| => f(b[k]))
  }

  /** Then the matrix is exactly the per-sentence embeddings, in sentence order:
      batching changes nothing. */
  lemma BatchingIsTransparent(encode: seq<string> -> seq<Vector>, f: string -> Vector, s: seq<string>)
    requires Pointwise(encode, f)
    ensures EmbedAll(encode, s) == seq(|s|, j requires 0 <= j < |s| => f(s[j]))
  {
    assert RowPerSentence(encode);
    RowsMatchSentences(encode, s);
    forall j | 0 <= j < |s| ensures EmbedAll(encode, s)[j] == f(s[j]) {
      SliceAt(s, j);
    }
  }

  /** Sentence j sits at position j % 45 of the batch that starts at j - j % 45. */
  lemma SliceAt(s: seq<string>, j: nat)
    requires j < |s|
    ensures j % BatchSize < |Slice(s, j - j % BatchSize)|
    ensures Slice(s, j - j % BatchSize)[j % BatchSize] == s[j]
  {
  }

  // ---------------------------------------------------------------------------
  // Progress messages

  /** The batches between two progress messages print nothing: from a start `r` past a
      multiple `base` of 450 the next message is the one at `base + 450`. */
  lemma {:induction false} QuietBatches(n: nat, base: nat, r: nat)
    requires base % ProgressStride == 0 && 0 < r < ProgressStride && r % BatchSize == 0
    ensures ProgressFrom(n, base + r) == ProgressFrom(n, base + ProgressStride)
    decreases ProgressStride - r
  {
    OffsetMod(base, r);
    if base + r < n {
      assert ProgressFrom(n, base + r) == ProgressFrom(n, base + (r + BatchSize));
      if r + BatchSize < ProgressStride {
        QuietBatches(n, base, r + BatchSize);
      } else {
        assert r + BatchSize == ProgressStride;
      }
    }
  }

  lemma OffsetMod(base: nat, r: nat)
    requires base % ProgressStride == 0 && r < ProgressStride
    ensures (base + r) % ProgressStride == r
  {
    var q := base / ProgressStride;
    assert base == ProgressStride * q;
    assert base + r == ProgressStride * q + r;
  }

  /** Number of progress messages from a batch start `i` (a multiple of 450) on. */
  function PrintCount(n: nat, i: nat): nat
  {
    if i >= n then 0 else (n - i + ProgressStride - 1) / ProgressStride
  }

  lemma PrintCountStep(n: nat, i: nat)
    requires i < n
    ensures PrintCount(n, i) == PrintCount(n, i + ProgressStride) + 1
  {
    var m := n - i;
    if i + ProgressStride < n {
      assert (m + ProgressStride - 1) / ProgressStride == (m - ProgressStride + ProgressStride - 1) / ProgressStride + 1;
    }
  }

  lemma {:induction false} PrintsFrom(n: nat, i: nat)
    requires i % ProgressStride == 0
    ensures |ProgressFrom(n, i)| == PrintCount(n, i)
    ensures forall k :: 0 <= k < |ProgressFrom(n, i)| ==> ProgressFrom(n, i)[k] == Min(i + ProgressStride * k + BatchSize, n)
    decreases n - i
  {
    if i < n {
      var next := i + ProgressStride;
      var rest := ProgressFrom(n, next);
      assert ProgressFrom(n, i) == [Min(i + BatchSize, n)] + ProgressFrom(n, i + BatchSize);
      QuietBatches(n, i, BatchSize);
      PrintsFrom(n, next);
      PrintCountStep(n, i);
      forall k | 0 <= k < |ProgressFrom(n, i)|
        ensures ProgressFrom(n, i)[k] == Min(i + ProgressStride * k + BatchSize, n)
      {
        if k > 0 {
          assert ProgressFrom(n, i)[k] == rest[k - 1];
        }
      }
    }
  }

  /** The progress messages of a run over n sentences: one per 10 batches, that is
      ceil(n / 450) of them; message k prints min(450 k + 45, n); the printed counts never
      exceed n and strictly increase. */
  lemma ProgressSpec(n: nat)
    ensures |ProgressFrom(n, 0)| == (n + ProgressStride - 1) / ProgressStride
    ensures forall k :: 0 <= k < |ProgressFrom(n, 0)| ==> ProgressFrom(n, 0)[k] == Min(ProgressStride * k + BatchSize, n)
    ensures forall k :: 0 <= k < |ProgressFrom(n, 0)| ==> 0 < ProgressFrom(n, 0)[k] <= n
    ensures forall k, m :: 0 <= k < m < |ProgressFrom(n, 0)| ==> ProgressFrom(n, 0)[k] < ProgressFrom(n, 0)[m]
  {
    PrintsFrom(n, 0);
    assert PrintCount(n, 0) == (n + ProgressStride - 1) / ProgressStride;
    var p := ProgressFrom(n, 0);
    forall k, m | 0 <= k < m < |p| ensures p[k] < p[m] {
      assert ProgressStride * m < n;
      assert ProgressStride * k + BatchSize < ProgressStride * m;
    }
  }
}
