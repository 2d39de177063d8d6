# ACE playbook core in Dafny

This project models the core of ACE, a framework that keeps a **playbook**:
a store of short natural-language insights an agent has learnt. It covers:

- **Store** (`Database.Store`): the `playbook_entries` table (id, content,
  metadata, embedding, cluster id) and the `clusters` table (id, summary),
  with the Postgres upsert semantics.
  - `ON CONFLICT (id) DO UPDATE` rewrites content, metadata and embedding in
    place and keeps the cluster id.
  - A content that another id already holds violates the table's `UNIQUE`
    constraint. The upsert then returns `UniqueViolation` and changes nothing.
  - The store also has the content lookup, the cluster-id update, the
    summary upsert, and the LIMIT/OFFSET batched similarity scan.
  - It also builds the cluster listing: one key per summary row and per
    assigned cluster id, with `""` as the default summary.
- **Similarity service** (`Similarity`): the strict `> threshold` test, the
  `0.95` default threshold, and the first-call-wins singleton.
- **Summarization service** (`Summarization`): the exact prompt layout, the
  call to the language model, and the first-call-wins singleton.
- **Cluster manager** (`Clustering`):
  - groups the entry snapshot by the clustering algorithm's labels, in
    first-seen label order;
  - writes every entry's cluster id;
  - upserts one generated summary per label;
  - fails with the `IndexError` case when there are fewer labels than
    entries.
- **In-memory playbook** (`Models.Playbook`): append with a fresh id, and
  lookup of the first entry with an id.
- **Curator** (`Curation.Curator`): appends every insight, as written. A
  corrected curator drops empty and duplicate contents (see Findings).
- **Self-healing pass** (`Healing.SelfHealing`):
  - asks the model about each entry of one snapshot;
  - rewrites an entry whose answer differs, under the same id, with the
    answer's embedding and the metadata `{"source": "self-healing"}`;
  - stops with the store's error when a rewrite collides with another
    entry's content.

External services become parameters of the model, typed as functions:

- the language model's `generate`;
- the sentence-embedding model;
- cosine similarity;
- the clustering algorithm (KMeans).

Python's random `uuid4` becomes a deterministic id that differs from every
id already present. An embedding is a `seq<real>`, and metadata is a
`map<string, string>`.

## Model

| member | source | states |
|---|---|---|
| Similarity.ThresholdOf | ace/similarity.py:48 | the threshold is `config['similarity']['threshold']` when both keys exist, else 0.95 |
| Similarity.AnyAbove | ace/similarity.py:54-57 | true iff some existing embedding scores strictly above the threshold |
| Similarity.SimilarityService.IsSimilar | ace/similarity.py:34-57 | an empty list is never similar; otherwise similar iff some stored embedding has cosine strictly above the configured threshold |
| Similarity.IsSimilarSplit | ace/similarity.py:54-57 | similarity over a concatenation is the disjunction over the parts (what makes a batched scan equal to a full one) |
| Similarity.IsSimilarIgnoresOrder | ace/similarity.py:54-57 | the verdict depends only on the multiset of stored embeddings, not their order |
| Similarity.ThresholdIsExclusive | ace/similarity.py:57 | a score exactly equal to the threshold is not similar |
| Similarity.SimilarityRegistry.GetSimilarityService | ace/similarity.py:61-68 | the first call creates the service with its config; later calls return that same service |
| Similarity.LaterConfigIgnored | ace/similarity.py:61-68 | a second `get_similarity_service` with another config still judges with the first config's threshold |
| Summarization.Bullets | ace/summarization.py:38 | item i is `"- "` followed by text i, one item per text |
| Summarization.Prompt | ace/summarization.py:36-39 | with no texts the prompt is exactly the header |
| Summarization.PromptStartsWithHeader | ace/summarization.py:36-39 | every prompt starts with the fixed header |
| Summarization.DistinctTextsSamePrompt | ace/summarization.py:36-39 | texts are not escaped: the list `["a\n- b"]` and the list `["a", "b"]` give the same prompt |
| Summarization.PromptListsTexts | ace/summarization.py:36-39 | every text appears in the prompt after its `"- "` marker and is followed by a newline unless it is last; the next item starts 3 characters after it |
| Summarization.BlockHoldsItem | ace/summarization.py:38 | in the joined block, item i sits at its computed offset |
| Summarization.BlockOffsetStep | ace/summarization.py:38 | consecutive items are separated by exactly one newline |
| Summarization.PromptAppend | ace/summarization.py:36-39 | adding one more text appends `"\n- "` and the text (or `"- "` and the text to a bare header) |
| Summarization.JoinAppend | ace/summarization.py:38 | `"\n".join` of a longer list is the shorter join, a newline and the new item |
| Summarization.BulletsTail | ace/summarization.py:38 | bulleting commutes with dropping the first text |
| Summarization.SummarizationService.SummarizeCluster | ace/summarization.py:23-41 | the summary is the language model's answer to the prompt built from the texts |
| Summarization.SummarizationRegistry.GetSummarizationService | ace/summarization.py:46-63 | the first call binds the service to its model; later calls return the same service |
| Summarization.LaterModelIgnored | ace/summarization.py:46-63 | after a second `get_summarization_service` with another model, summaries still come from the first model |
| Database.UpsertWritesOneRow | ace/database.py:92-101 | after an upsert without a content clash, ids and contents stay unique and the row with the id holds the new content, metadata and embedding |
| Database.UpsertLeavesOthers | ace/database.py:92-101 | an upsert keeps every old row's id and cluster id, leaves rows with other ids untouched, and grows the table only for a new id, whose cluster id is NULL |
| Database.WithClusterOnlySetsCluster | ace/database.py:137-145 | a cluster update changes only the cluster id of rows with the given id |
| Database.WithClusterGrow | ace/database.py:137-145 | updating ids one at a time equals updating the whole set |
| Database.NonNullEmbeddingsAreStored | ace/database.py:175-183 | the `embedding IS NOT NULL` projection lists exactly the stored embeddings, and no more of them than rows |
| Database.Page | ace/database.py:181-184 | `LIMIT b OFFSET o` yields at most b embeddings, none past the end, else the slice starting at o |
| Database.ScanReadsCount | ace/database.py:169-195 | a scan from offset o that finds nothing reads ⌈(n−o)/b⌉ non-empty pages plus one empty page |
| Database.ScanStep | ace/database.py:186-193 | no match so far and none in the page means no match up to the page's end |
| Database.PageStartIsProduct | ace/database.py:167-193 | after p pages of b rows the offset is p·b |
| Database.ScanAdvance | ace/database.py:186-193 | a rejected non-empty page moves the offset on by b, keeps the read count on track and extends the no-match prefix to the page's end |
| Database.ScanAccept | ace/database.py:186-188 | an accepted page means the whole list is similar, with a positive batch size, within the read bound, and no match before the page |
| Database.ScanExhausted | ace/database.py:183-184 | an empty page after rejecting every earlier row means no stored embedding is similar and every page of the full scan was read |
| Database.ScanPages | ace/database.py:167-195 | the paging loop answers exactly what one similarity test over the whole list answers; at most ⌈n/b⌉+1 reads, exactly that many when nothing matches; on a match the accepting page starts at (reads−1)·b, is similar, and nothing before it is |
| Database.Store.IndexOfId | ace/database.py:97 | finds the row holding an id, or reports that none does |
| Database.Store.AddOrUpdatePlaybookEntry | ace/database.py:83-101 | fails with `UniqueViolation` exactly when another id holds the content, leaving the table unchanged; otherwise the table becomes the upsert of the row; cluster summaries untouched |
| Database.Store.GetAllPlaybookEntries | ace/database.py:104-122 | one entry per row in table order with its id and content; ids and contents distinct |
| Database.Store.ContentExists | ace/database.py:124-134 | true iff some row has exactly this content |
| Database.AnyContent | ace/database.py:133-134 | true iff some row in the list has exactly this content |
| Database.Store.UpdateEntryCluster | ace/database.py:137-145 | every row with the id gets the cluster id; nothing else changes |
| Database.Store.AddOrUpdateClusterSummary | ace/database.py:148-159 | the clusters table maps the id to the new summary, inserted or replaced; entries untouched; the store's log of summary upserts gains this id |
| Database.Store.IsSimilarEmbeddingPresent | ace/database.py:162-195 | the batched scan answers exactly what one similarity test over all stored embeddings answers; it reads at most ⌈n/b⌉+1 pages, exactly that many when nothing matches; on a match it stops at the first matching page: that page starts at offset (reads−1)·b, is similar, and no embedding before it is; a batch size of 0 reads one empty page and answers false |
| Database.Store.GetAllClustersWithEntries | ace/database.py:197-227 | the listing has one key per summary row and per assigned cluster id; each key has its summary or `""` and its member rows in table order |
| Database.MembersOfExact | ace/database.py:222-225 | every listed member is built from a row assigned to the cluster (a row is listed only under its own cluster id), every row assigned to it is listed, and no more members than rows |
| Database.MembersOfEmpty | ace/database.py:200 | a cluster id no row carries has an empty member list |
| Database.ClusterIdsStep | ace/database.py:222-225 | the assigned cluster ids of a longer table add the last row's id, if any |
| Clustering.GroupIndicesExact | ace/cluster_manager.py:36-38 | the positions of a group are ascending and are exactly the positions labelled with it |
| Clustering.GroupOfPicksIndices | ace/cluster_manager.py:36-38 | a group is the entries at its positions, in snapshot order |
| Clustering.GroupIdsIff | ace/cluster_manager.py:36-45 | with distinct ids, an entry's id is in group k iff the entry is labelled k |
| Clustering.GroupOfAbsent | ace/cluster_manager.py:36-38 | a label that does not occur has an empty group |
| Clustering.FirstSeenExact | ace/cluster_manager.py:36-41 | the dictionary's labels are distinct and are exactly the labels that occur |
| Clustering.FirstSeenCovers | ace/cluster_manager.py:36-41 | every entry's label is among the grouped labels |
| Clustering.Texts | ace/cluster_manager.py:48 | one text per group member: its content |
| Clustering.RelabeledOnlySetsCluster | ace/cluster_manager.py:41-45 | a run writes only cluster ids: every row keeps its id, content, metadata and embedding, and its cluster id becomes its label |
| Clustering.SummariesKeepOthers | ace/cluster_manager.py:47-50 | a run deletes no cluster row: the table gains the occurring labels and keeps every other label's summary |
| Clustering.RelabelStep | ace/cluster_manager.py:44-45 | updating group k by id moves exactly the rows labelled k to their label |
| Clustering.WrittenStep | ace/cluster_manager.py:50 | each summary upsert extends the written summaries by one label |
| Clustering.GroupByLabel | ace/cluster_manager.py:36-38 | fails iff the labels run out before the entries; otherwise each label maps to its group and labels are listed in first-seen order |
| Clustering.ClusterManager.constructor | ace/cluster_manager.py:13-23 | the summarizer is the singleton's, which is bound to this model only if none existed |
| Clustering.ClusterManager.AssignCluster | ace/cluster_manager.py:44-45 | every member of the group gets cluster id k; summaries untouched |
| Clustering.ClusterManager.WriteCluster | ace/cluster_manager.py:41-50 | one label's pass: its rows get the id, its summary is the model's answer on the group's contents, written by exactly one summary upsert |
| Clustering.ClusterManager.WriteClusters | ace/cluster_manager.py:41-50 | every row gets its own label as cluster id; the store's log of summary upserts grows by exactly the labels in first-seen order, one upsert per label |
| Clustering.ClusterManager.RunClustering | ace/cluster_manager.py:25-50 | an empty store is left alone; too few labels fail before any write; otherwise every row gets its label as cluster id, each occurring label gets the model's summary of its group's contents, and the store's log of summary upserts grows by exactly the labels in first-seen order; the empty and failing runs write no summary |
| Clustering.ClusterManager.GetClusters | ace/cluster_manager.py:52-61 | returns the store's cluster listing |
| Clustering.ListingOfTwo | ace/database.py:197-227 | two rows in clusters 0 and 1 with summaries list exactly those two clusters, one member each |
| Clustering.TwoEntriesTwoClusters | ace/tests/test_clustering.py:99-118 | two entries labelled 0 and 1 give two clusters of one entry each, both with "Summary of cluster" |
| Models.Playbook.FreshId | ace/core/models.py:8 | the new id differs from every id in the playbook |
| Models.Playbook.AddEntry | ace/core/models.py:17-23 | appends exactly one entry with the content, the metadata or `{}`, and a fresh id; earlier entries are unchanged and ids stay distinct |
| Models.Playbook.GetEntry | ace/core/models.py:25-30 | `None` iff no entry has the id; otherwise the first entry with it |
| Curation.Contents | ace/core/curator.py:15-19 | one content per entry |
| Curation.InsightContents | ace/core/curator.py:17 | one content per insight, `""` when missing |
| Curation.AdmittedIsDeduplicated | ace/tests/test_curator.py:13-37 | the admitted insights have no empty content, none already in the playbook, no two alike, and every other insight's content is admitted |
| Curation.Curator.Curate | ace/core/curator.py:7-19 | appends one entry per insight in order, with its content (`""` if missing) and metadata (`{}` if missing); earlier entries are unchanged |
| Curation.Curator.CurateDeduplicated | ace/tests/test_curator.py:13-37 | appends exactly the admitted insights, in order, with their metadata |
| Curation.PipelineRun | ace/tests/test_ace_pipeline.py:27-40 | curating the reflector's two insights into an empty playbook gives two entries with those contents and source "reflector" |
| Curation.DuplicatesAreKept | ace/core/curator.py:15-19 | the code as written stores a duplicate insight twice |
| Curation.EmptyContentIsKept | ace/core/curator.py:15-19 | the code as written stores an empty insight |
| Curation.DuplicatesAreDropped | ace/tests/test_curator.py:13-25 | the corrected curator stores "Unique insight 1" and "Unique insight 2" once each |
| Curation.EmptyContentIsDropped | ace/tests/test_curator.py:27-37 | the corrected curator stores only "A valid insight" |
| Healing.ReviewPromptShape | ace/self_healing.py:43-50 | the entry's content sits exactly between the fixed review head and the "Corrected Entry:" tail |
| Healing.ReviewPromptInjective | ace/self_healing.py:43-50 | different contents give different prompts |
| Healing.HealedRow | ace/self_healing.py:51-60 | a reviewed row keeps id and cluster id; it is unchanged iff the answer equals its content, else it holds the answer, the answer's embedding and only the self-healing tag |
| Healing.HealStep | ace/self_healing.py:55-60 | accepting a correction is one upsert by the entry's id that rewrites that row alone |
| Healing.HealedKeepsUniqueKeys | ace/self_healing.py:42-60 | while no correction collides, ids and contents stay unique |
| Healing.EchoChangesNothing | ace/self_healing.py:51-52 | when the model echoes every entry, the pass rejects nothing and changes nothing |
| Healing.SelfHealing.AnalyzeAndCorrect | ace/self_healing.py:32-61 | visits the snapshot in order; on success every entry is reviewed and the count is unchanged; on a collision it stops at the first colliding entry with the store's error, with the earlier entries reviewed and the rest untouched |
| Healing.CorrectsOutdatedEntry | ace/tests/test_self_healing.py:34-57 | one entry "Old content" with a model answering "New content" ends as one entry with the same id, the new content and source "self-healing" |

## Left out

- Connection and pool lifecycle, table creation (DDL), and JSON encoding of metadata are not modelled. Metadata is a map of strings.
- The SQLite backend is not modelled. There, `INSERT OR REPLACE` deletes a row that clashes on content and resets `cluster_id`. Only the Postgres upsert is modelled.
- Embedding byte encoding (`tobytes` and `frombuffer` as float32) is not modelled. Embeddings are sequences of reals.
- The numerics are not modelled: SentenceTransformer embedding, cosine similarity and KMeans are function parameters.
- The language-model layer, the Generator and Reflector (apart from the reflector's two fixed insights), plugins, API, CLI, configuration loading and logging are outside the core.
- `async` execution and concurrent interleavings are not modelled. Each operation runs to completion, with no lock between the components.
- Models.Playbook.FreshId: produces a deterministic id that differs from all present ids, not a random `uuid4`.
- Database.Store.IsSimilarEmbeddingPresent: the batch size is a natural number. A negative `LIMIT` is outside the model.
- Database.Store.GetAllPlaybookEntries: SQL gives no row order without `ORDER BY`. The model fixes the table order as insertion order.
- Database.Store.IsSimilarEmbeddingPresent: the page queries use `LIMIT`/`OFFSET` without `ORDER BY` (ace/database.py:175 and :182). The model reads every page from one fixed order, the table order, so the pages partition the stored embeddings. A database that returned pages from different orders could skip or repeat rows; that is not modelled.
- Similarity.SimilarityService.GetEmbedding: a direct call to the embedding model parameter. The model states nothing more about it, since the embedding numerics are external.
- Generate and Similarity.Embedder are total, deterministic functions. An exception from `generate` or from the embedding model is not modelled: in the code it stops the pass and keeps the writes already made. Nondeterminism is not modelled either, such as the mock model's `random.choice` (ace/llm/mock_model.py:23). Equal prompts get equal answers. Distinct text lists can give the same summary prompt (Summarization.DistinctTextsSamePrompt), so two such groups get the same summary in `NewSummaries`.
- Healing.SelfHealing.AnalyzeAndCorrect, Healing.CorrectsOutdatedEntry and Clustering.TwoEntriesTwoClusters use the store in place of the playbook API the code calls. The code calls `playbook.get_all_entries()` and `add_entry(entry_id=..., embedding=...)` (ace/self_healing.py:41 and :55-60). The in-memory `Playbook` (ace/core/models.py:17-30) has neither, and its `add_entry` is synchronous although the tests await it (ace/tests/test_self_healing.py:42, ace/tests/test_clustering.py:105-106). The model reads with `Store.GetAllPlaybookEntries` and writes with `Store.AddOrUpdatePlaybookEntry`, the store-backed operations that match those calls.
- Clustering.ClusterManager.RunClustering: the number of clusters is whatever the clustering function returns. The code has no clamping of `n_clusters` to the entry count, so none is modelled.
- Curation.Curator.Curate: the curator in the code has no lock, no content check and no similarity check. The deduplicating behaviour the tests expect is modelled separately (see Findings).

## Findings

| source | as written | input that shows it | evidently intended | confidence | as-written member | corrected member |
|---|---|---|---|---|---|---|
| ace/core/curator.py:15-19 | every insight is appended, duplicates included | insights "Unique insight 1", "Unique insight 2", "Unique insight 1" give three entries; ace/tests/test_curator.py:23 expects two | a content already stored or already admitted in the batch is skipped | not executed | Curation.DuplicatesAreKept | Curation.Curator.CurateDeduplicated (with Curation.AdmittedIsDeduplicated, Curation.DuplicatesAreDropped) |
| ace/core/curator.py:15-19 | an insight with empty content is appended | insights "" and "A valid insight" give two entries; ace/tests/test_curator.py:36 expects one | an empty content is skipped | not executed | Curation.EmptyContentIsKept | Curation.Curator.CurateDeduplicated (with Curation.AdmittedIsDeduplicated, Curation.EmptyContentIsDropped) |
