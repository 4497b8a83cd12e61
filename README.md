# Physics corpus pipeline: dataset unification and batched embedding

This project models the two pieces of sequential logic in a two-stage batch pipeline and
proves properties about them.

1. Stage one builds a unified corpus `(id, text_content, source)` from eleven physics
   text sources (`lib/ai/data.py`). `load_all_datasets` tries every source in turn. For
   each source that loads it picks the text column and appends a block tagged with the
   source name. `create_final_dataset` concatenates the blocks and then, in this order:
   - drops missing texts;
   - strips surrounding whitespace;
   - keeps texts of at least 20 characters;
   - drops exact duplicates, keeping the first occurrence;
   - numbers the surviving rows 1..n.
2. Stage two embeds the corpus (`lib/ai/ai_model_code.py`). `generate_embeddings`
   returns early when the dataset file is absent. Otherwise it encodes the sentences in
   batches of 45. Every tenth batch it prints a progress count. It concatenates the
   batch results into one matrix. `mean_pooling` averages token vectors weighted by the
   attention mask.

Modules:

- `Wrappers`: `Option`.
- `Seqs`: concatenation of a list of blocks (`pd.concat` and `torch.cat`).
- `PyStr`: Python's `str.strip()`, using the exact set of characters for which
  `str.isspace()` is true.
- `Unify`: `load_all_datasets` and `create_final_dataset`.
  - A pandas table is a sequence of rows. Each row carries its index label.
  - `concat(ignore_index=True)` labels rows by position. `dropna`, boolean filtering and
    `drop_duplicates` keep the labels. `reset_index(drop=True)` discards them.
  - Because the labels are kept, "rows keep their input order" and "row k came from input
    row j" can be stated directly.
  - `LoadAllDatasets` is a loop that appends. The cleaning steps are functions over
    sequences. `CreateFinalDataset` runs them one after the other on `df_all`.
- `Pooling`: `mean_pooling` for one sequence, over exact reals.
- `Embeddings`: the batching loop of `generate_embeddings` as a method.
  - The loop invariant ties the batches handed out so far, the blocks collected and the
    progress counts printed to functions of the input.
  - The encoder is a parameter. The encoder here means the tokenizer, the forward pass,
    pooling and normalisation of one batch.

Behaviour of the code worth noting:

- `load_all_datasets` tries eleven source blocks: eight datasets, with MMLU fetched in
  three configurations and ARC in two.
- When none of a source's candidate columns exists, the `if`/`elif` chain assigns
  nothing. The projection `df[['text_content']]` then succeeds if the fetched table
  already has a `text_content` column. Otherwise it raises `KeyError` inside the `try`,
  and the source is skipped. `TextColumn` and `LoadSource` model exactly this.
- With zero sentences the loop appends nothing, so `torch.cat([])` raises. The run then
  ends with an error before anything is saved. This is the `ConcatFailed` outcome.

## Model

| member | source | states |
|---|---|---|
| `Unify.FirstPresent` | lib/ai/data.py:20-23 | the chosen candidate is a column and no earlier candidate is; `None` exactly when no candidate is a column |
| `Unify.TextColumn` | lib/ai/data.py:20-24 | the chosen column exists; when some candidate is a column it is the first such candidate; `None` (the projection fails) exactly when no candidate and no `text_content` column exists |
| `Unify.LoadSource` | lib/ai/data.py:17-27 | a block is produced exactly when the fetch succeeded and a text column exists; it has one row per cell of that column, holding the cell and the source's tag |
| `Unify.WikipediaColumnChoice` | lib/ai/data.py:20-24 | the Wikipedia block takes `content` over `text`, takes `text` otherwise, and is skipped when neither nor `text_content` exists |
| `Unify.Collected` | lib/ai/data.py:10-126 | the blocks the loop appends, one per source that loads; a definition with no contract of its own; `CollectedOrder` and `CollectedBlocks` state what it holds |
| `Unify.LoadAllDatasets` | lib/ai/data.py:10-126 | the loop returns the blocks of the sources that loaded, in source order |
| `Unify.CollectedBlocks` | lib/ai/data.py:10-126 | no more blocks than sources; no blocks exactly when every source failed; every block is the block of some source that loaded; the block of every source that loads is collected |
| `Unify.CollectedOrder` | lib/ai/data.py:10-126 | the blocks are those of the sources that load, each exactly once and in source order |
| `Unify.CollectedAppend` | lib/ai/data.py:10-126 | trying two runs of sources one after the other collects the first run's blocks followed by the second's |
| `Unify.FailedSourceSkipped` | lib/ai/data.py:17-28 | a source whose fetch or projection fails contributes nothing; the blocks of the sources before and after it are kept, in order |
| `Seqs.Flatten` | lib/ai/data.py:144 | `pd.concat` of the blocks in order; a definition with no contract of its own; `FlattenAppend` and `FlattenMember` state it |
| `Seqs.FlattenAppend` | lib/ai/data.py:144 | concatenating two lists of blocks is concatenating their concatenations |
| `Seqs.FlattenMember` | lib/ai/data.py:144 | a row of the concatenation lies in one of the blocks, and every row of a block is in the concatenation |
| `Unify.ConcatenatedTags` | lib/ai/data.py:144 | every row of the concatenated table carries the tag of a source that loaded |
| `Unify.DropNull` | lib/ai/data.py:148 | never longer than the input; labels increase; each row is a non-missing input row with its text and source; every non-missing input row is kept |
| `Unify.StripText` | lib/ai/data.py:149 | one row per row; every text has no surrounding whitespace |
| `Unify.StripTextKeeps` | lib/ai/data.py:149 | stripping keeps each row's label and source and so keeps the order |
| `PyStr.IsSpace` | lib/ai/data.py:149 | the characters `str.isspace()` accepts, which `str.strip()` removes; a definition with no contract of its own; `Strip` and `StripRemovesOnlySpace` use it |
| `PyStr.Strip` | lib/ai/data.py:149 | the result has no whitespace at either end and is no longer than the input |
| `PyStr.StripRemovesOnlySpace` | lib/ai/data.py:149 | the input is the result with whitespace added on the left and on the right |
| `PyStr.StripPadded` | lib/ai/data.py:149 | whitespace added around an already stripped text is removed again exactly |
| `PyStr.StripStripped` | lib/ai/data.py:149 | a text without surrounding whitespace is left as it is |
| `PyStr.StripIdempotent` | lib/ai/data.py:149 | stripping twice is stripping once |
| `Unify.KeepLong` | lib/ai/data.py:150 | the length filter; a definition with no contract of its own; `KeepLongSpec` states it |
| `Unify.KeepLongSpec` | lib/ai/data.py:150 | the length filter keeps exactly the rows of at least 20 characters and keeps their order |
| `Unify.KeepLongKeeps` | lib/ai/data.py:150 | every kept row is an input row of at least 20 characters |
| `Unify.KeepLongComplete` | lib/ai/data.py:150 | every input row of at least 20 characters is kept |
| `Unify.KeepLongOrdered` | lib/ai/data.py:150 | filtering keeps the rows in order |
| `Unify.DropDuplicates` | lib/ai/data.py:153 | deduplication on `text_content` keeping the first row; a definition with no contract of its own; `DropDuplicatesSpec` and `DropDuplicatesKeepsFirst` state it |
| `Unify.DropDuplicatesSpec` | lib/ai/data.py:153 | deduplication keeps only input rows, leaves no text twice, loses no text, and keeps the order |
| `Unify.DropDuplicatesKeeps` | lib/ai/data.py:153 | every kept row is an input row |
| `Unify.DropDuplicatesDistinct` | lib/ai/data.py:153 | no two kept rows share a text |
| `Unify.DropDuplicatesComplete` | lib/ai/data.py:153 | every input text is the text of a kept row |
| `Unify.DropDuplicatesOrdered` | lib/ai/data.py:153 | deduplication keeps the rows in order |
| `Unify.DropDuplicatesKeepsFirst` | lib/ai/data.py:153 | of the rows sharing a text, the kept one is the earliest (`keep='first'`) |
| `Unify.DropDuplicatesCount` | lib/ai/data.py:153 | exactly one row is kept per distinct text |
| `Unify.Cleaned` | lib/ai/data.py:147-153 | the four cleaning steps in order; a definition with no contract of its own; `CleanedSpec` states it |
| `Unify.CleanedSpec` | lib/ai/data.py:147-153 | the cleaned table is in input order, never longer than the input, each row is an input row with its text stripped and its source; texts are stripped, at least 20 long and distinct; the kept row of a text is the earliest input row with that stripped text; every long enough stripped input text is present |
| `Unify.CleanedShorter` | lib/ai/data.py:147-153 | the cleaned table is never longer than the concatenated input |
| `Unify.CleanedOrdered` | lib/ai/data.py:147-153 | the cleaned rows keep their concatenation order |
| `Unify.CleanedFromInput` | lib/ai/data.py:147-153 | each cleaned row is the input row its label names, with its text stripped and its source |
| `Unify.CleanedShape` | lib/ai/data.py:149-150 | every cleaned text is stripped and at least 20 long |
| `Unify.CleanedDistinct` | lib/ai/data.py:153 | no two cleaned rows share a text |
| `Unify.CleanedKeepsFirst` | lib/ai/data.py:149-153 | a cleaned row comes from the earliest input row whose stripped text equals its text |
| `Unify.CleanedComplete` | lib/ai/data.py:147-153 | every input text whose stripped form is at least 20 long survives, stripped |
| `Unify.LongRowsTexts` | lib/ai/data.py:148-150 | the texts reaching deduplication are exactly the long enough stripped non-missing input texts |
| `Unify.CleanedCount` | lib/ai/data.py:147-153 | the cleaned table has one row per distinct long enough stripped input text |
| `Unify.KeptOnce` | lib/ai/data.py:149-153 | a long enough stripped text of input row i appears exactly once, from a row no later than i |
| `Unify.PaddedTextsCollapse` | lib/ai/data.py:149-153 | two input texts that differ only in surrounding whitespace become one record, taken from the earlier row |
| `Unify.Number` | lib/ai/data.py:153-159 | the index reset, the `id` column and the column projection; a definition with no contract of its own; `NumberedTableSpec` states it |
| `Unify.NumberedTableSpec` | lib/ai/data.py:153-159 | the numbered table has ids 1..n in row order, one record per cleaned row with its input row's stripped text and source, stripped distinct texts of at least 20 characters, every long enough input text, and one record per distinct such text |
| `Unify.NumberedTraces` | lib/ai/data.py:153-159 | record k holds the stripped text and source of the input row cleaned row k is labelled with |
| `Unify.NumberedCovers` | lib/ai/data.py:153-159 | every long enough stripped input text is the text of some record |
| `Unify.FinalDataset` | lib/ai/data.py:138-159 | `create_final_dataset` after loading; a definition with no contract of its own; `FinalDatasetSpec` states it |
| `Unify.FinalDatasetSpec` | lib/ai/data.py:138-159 | `None` exactly when no block loaded; otherwise the table satisfies every promise of `NumberedTableSpec` for the concatenated blocks |
| `Unify.FinalSourceLoaded` | lib/ai/data.py:144-159 | every record's source is the tag of a source that loaded |
| `Unify.CreateFinalDataset` | lib/ai/data.py:132-159 | the method's result is the specified final table of the collected blocks, and `None` exactly when every source failed |
| `Unify.TwoSourceExample` | lib/ai/data.py:144-156 | five distinct long texts plus a duplicate, a short text and one new text give 6 records with ids 1..6 |
| `Pooling.MaskSum` | lib/ai/ai_model_code.py:10 | `mask_expanded.sum(1)` in one feature position; a definition with no contract of its own; `UnmaskedSums` states that for a 0/1 mask it counts the real tokens |
| `Pooling.WeightedSum` | lib/ai/ai_model_code.py:10 | the mask-weighted token sum in one feature position; a definition with no contract of its own; `UnmaskedSums` states that for a 0/1 mask it sums the real tokens' vectors |
| `Pooling.UnmaskedSums` | lib/ai/ai_model_code.py:9-10 | for a 0/1 mask, the weighted sum in a feature position is the sum of the unmasked token vectors there, and the mask sum is the number of unmasked tokens |
| `Pooling.Divisor` | lib/ai/ai_model_code.py:10 | the divisor is at least 1e-9, so never zero, and equals the mask count whenever that reaches the clamp |
| `Pooling.MeanPool` | lib/ai/ai_model_code.py:7-10 | the pooled vector has the hidden size |
| `Pooling.PoolIsAverageOfRealTokens` | lib/ai/ai_model_code.py:9-10 | with a 0/1 mask marking some real token, pooling is the plain average of the real tokens' vectors |
| `Pooling.PaddingIgnored` | lib/ai/ai_model_code.py:9-10 | changing the vectors at padded positions does not change the pooled vector |
| `Pooling.PoolExample` | lib/ai/ai_model_code.py:9-10 | mask [1, 1, 0] over vectors [a, b, c] pools to (a + b) / 2 |
| `Pooling.AllPaddingPoolsToZero` | lib/ai/ai_model_code.py:10 | with every position padded the division stays defined and the pooled vector is zero |
| `Embeddings.GenerateEmbeddings` | lib/ai/ai_model_code.py:12-66 | absent dataset: returns early having encoded nothing and printed no progress count; otherwise the batches the encoder sees are `Batches(sentences)` and the printed counts are `ProgressFrom(n, 0)`; no sentences: the concatenation fails; otherwise the saved matrix is the concatenation of the per-batch results |
| `Embeddings.Slice` | lib/ai/ai_model_code.py:42 | `sentences[i:i + batch_size]`; a definition with no contract of its own; `SliceAt` and `BatchesFromShape` state it |
| `Embeddings.SliceAt` | lib/ai/ai_model_code.py:41-42 | sentence j lies at position j % 45 of the batch that starts at j - j % 45 |
| `Embeddings.BatchesFrom` | lib/ai/ai_model_code.py:41-42 | the batches for the starts from i on; a definition with no contract of its own; `BatchesFromCover` and `BatchesFromShape` state it |
| `Embeddings.Batches` | lib/ai/ai_model_code.py:41-42 | all batches of the loop; a definition with no contract of its own; `BatchesCover` and `BatchesShape` state it |
| `Embeddings.EncodeEach` | lib/ai/ai_model_code.py:60 | `embeddings_list`, one encoder result per batch; a definition with no contract of its own; `GenerateEmbeddings` keeps it as a loop invariant |
| `Embeddings.EmbedAll` | lib/ai/ai_model_code.py:66 | `torch.cat` of the per-batch results; a definition with no contract of its own; `RowsMatchSentences` and `BatchingIsTransparent` state it |
| `Embeddings.ProgressFrom` | lib/ai/ai_model_code.py:62-63 | the progress counts printed from start i on; a definition with no contract of its own; `PrintsFrom` and `ProgressSpec` state it |
| `Embeddings.BatchesFromCover` | lib/ai/ai_model_code.py:41-42 | the batches from start i concatenate to the sentences from i on |
| `Embeddings.BatchesCover` | lib/ai/ai_model_code.py:41-42 | concatenating the batches in loop order gives back the sentence list |
| `Embeddings.BatchesFromShape` | lib/ai/ai_model_code.py:38-42 | every batch from start i holds 1 to 45 sentences, and there are ceil((n - i) / 45) of them |
| `Embeddings.BatchesShape` | lib/ai/ai_model_code.py:38-42 | every batch holds 1 to 45 sentences; there are ceil(n / 45) batches, none exactly when n = 0 |
| `Embeddings.TenthBatchPrints` | lib/ai/ai_model_code.py:62 | batch b, starting at 45 * b, prints exactly when b is a multiple of 10 |
| `Embeddings.EmbedFromAt` | lib/ai/ai_model_code.py:41-66 | with one row per sentence per batch, the blocks from start i have n - i rows, and row j is the result for sentence j within its batch |
| `Embeddings.RowsMatchSentences` | lib/ai/ai_model_code.py:41-66 | with one row per sentence per batch, the matrix has n rows and row j is the encoder's row for sentence j in the batch holding it |
| `Embeddings.BatchingIsTransparent` | lib/ai/ai_model_code.py:41-66 | an encoder that embeds sentences one by one gives the per-sentence embeddings in sentence order, whatever the batching |
| `Embeddings.QuietBatches` | lib/ai/ai_model_code.py:62 | batches between two multiples of 450 print nothing |
| `Embeddings.PrintsFrom` | lib/ai/ai_model_code.py:62-63 | from a multiple i of 450, message k prints min(i + 450k + 45, n), and the count of messages is ceil((n - i) / 450) |
| `Embeddings.ProgressSpec` | lib/ai/ai_model_code.py:62-63 | a run prints ceil(n / 450) messages; message k prints min(450k + 45, n); every count is positive and at most n; the counts strictly increase |

## Left out

- Fetching the sources (`pd.read_parquet`, `load_dataset`, `to_pandas`) is network I/O. Each source's fetched table is an input, `None` when the fetch failed.
- The per-source `try`/`except` and every `print`. A failed source is modelled only as "not appended". The console messages are left out, except that the progress counts are returned as a sequence.
- `astype(str)` on non-string cells. Every cell is modelled as a string or missing, so the conversion is the identity.
- Strings are sequences of code points. Python strings holding lone surrogates have no counterpart.
- Reading and writing CSV files and `torch.save` are file I/O. `GenerateEmbeddings` takes the `text_content` column of the dataset file as an input, `None` when the file is absent.
- The augmented CSV with an `embedding` column, and the printing of `embeddings[0][:10]` and of the shape, are presentation or I/O.
- Loading the tokenizer and the model, tokenisation (padding, truncation to 512 tokens) and the transformer forward pass are foreign calls. They are wrapped, together with pooling and normalisation of one batch, in the abstract parameter `encode`.
- `F.normalize` and all floating-point arithmetic. Pooling is over exact reals, so a unit norm "within 1e-5" is not stated.
- `value_counts()` of the source column is presentation only.
- `Pooling.MeanPool`: works on one sequence of the batch. The source applies the same rule to every row of the batch tensor at once.
- `Embeddings.GenerateEmbeddings`: the encoder is a total function on batches. A run that fails inside the tokenizer or the model is not represented.
- `Embeddings.GenerateEmbeddings`: an encoder that does not give one row per sentence makes `df_embeddings['embedding'] = embeddings.tolist()` raise after `torch.save` has run. That failure is not represented: such a run still ends in `Saved`.
