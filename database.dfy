/**
 * The entry store: the `playbook_entries` and `clusters` tables as in-memory
 * state, with the operations the rest of the kernel calls.  Upserts follow
 * the Postgres backend: `ON CONFLICT (id) DO UPDATE` keeps the row's
 * `cluster_id`, and a content that another row already holds violates the
 * `UNIQUE` constraint and is reported as an error.
 */
module Database {
  import opened Types
  import Similarity

  /** One row of `playbook_entries`. */
  datatype Row = Row(id: EntryId, content: string, metadata: Metadata,
                     embedding: Option<Embedding>, clusterId: Option<int>)

  /** One row of `get_all_playbook_entries` (the cluster id is not selected). */
  datatype Entry = Entry(id: EntryId, content: string, metadata: Metadata, embedding: Option<Embedding>)

  /** One member of a cluster in `get_all_clusters_with_entries` (the embedding is not selected). */
  datatype Member = Member(id: EntryId, content: string, metadata: Metadata, clusterId: int)

  datatype ClusterView = ClusterView(summary: string, entries: seq<Member>)

  /** The storage error raised by the `UNIQUE` constraint on `content`. */
  datatype StoreError = UniqueViolation(content: string)

  /** The schema constraints: `id` is the primary key and `content` is unique. */
  ghost predicate UniqueKeys(rows: seq<Row>) {
    forall i, j :: 0 <= i < j < |rows| ==> rows[i].id != rows[j].id && rows[i].content != rows[j].content
  }

  ghost predicate HasId(rows: seq<Row>, id: EntryId) {
    exists j :: 0 <= j < |rows| && rows[j].id == id
  }

  /** Writing `content` under `id` would collide with another row's content. */
  ghost predicate ContentClash(rows: seq<Row>, id: EntryId, content: string) {
    exists j :: 0 <= j < |rows| && rows[j].content == content && rows[j].id != id
  }

  /** The table after a successful upsert: the row with `id` is rewritten in place, or a new row is appended. */
  ghost function Upserted(rows: seq<Row>, id: EntryId, content: string, metadata: Metadata,
                          embedding: Option<Embedding>): seq<Row>
  {
    if HasId(rows, id) then
      seq(|rows|, j requires 0 <= j < |rows| =>
        if rows[j].id == id then rows[j].(content := content, metadata := metadata, embedding := embedding)
        else rows[j])
    else rows + [Row(id, content, metadata, embedding, None)]
  }

  /** After an upsert exactly one row has `id`, and it holds what was written. */
  lemma UpsertWritesOneRow(rows: seq<Row>, id: EntryId, content: string, metadata: Metadata,
                           embedding: Option<Embedding>)
    requires UniqueKeys(rows) && !ContentClash(rows, id, content)
    ensures var r := Upserted(rows, id, content, metadata, embedding);
            UniqueKeys(r) &&
            exists j :: 0 <= j < |r| && r[j].id == id && r[j].content == content &&
                        r[j].metadata == metadata && r[j].embedding == embedding
  {
    var r := Upserted(rows, id, content, metadata, embedding);
    if HasId(rows, id) {
      var j :| 0 <= j < |rows| && rows[j].id == id;
      assert r[j].id == id;
    } else {
      assert r[|rows|].id == id;
    }
  }

  /**
   * Rows with other ids keep their place and value; an existing row keeps its
   * position and its `cluster_id`, a new row is appended without one.
   */
  lemma UpsertLeavesOthers(rows: seq<Row>, id: EntryId, content: string, metadata: Metadata,
                           embedding: Option<Embedding>)
    ensures var r := Upserted(rows, id, content, metadata, embedding);
            |r| == (if HasId(rows, id) then |rows| else |rows| + 1) &&
            (forall j :: 0 <= j < |rows| ==> r[j].id == rows[j].id && r[j].clusterId == rows[j].clusterId) &&
            (forall j :: 0 <= j < |rows| && rows[j].id != id ==> r[j] == rows[j]) &&
            (!HasId(rows, id) ==> r[|rows|].clusterId == None)
  {
  }

  /** The table after setting `cluster_id` on the rows whose id is in `ids`. */
  ghost function WithCluster(rows: seq<Row>, ids: set<EntryId>, k: int): (r: seq<Row>)
  {
    seq(|rows|, j requires 0 <= j < |rows| =>
      if rows[j].id in ids then rows[j].(clusterId := Some(k)) else rows[j])
  }

  /** Setting a cluster id touches no id, content, metadata or embedding, and an absent id changes nothing. */
  lemma WithClusterOnlySetsCluster(rows: seq<Row>, ids: set<EntryId>, k: int)
    ensures var r := WithCluster(rows, ids, k);
            |r| == |rows| &&
            (forall j :: 0 <= j < |rows| ==>
               r[j].id == rows[j].id && r[j].content == rows[j].content &&
               r[j].metadata == rows[j].metadata && r[j].embedding == rows[j].embedding) &&
            (UniqueKeys(rows) ==> UniqueKeys(r)) &&
            ((forall j :: 0 <= j < |rows| ==> rows[j].id !in ids) ==> r == rows)
  {
  }

  lemma WithClusterGrow(rows: seq<Row>, ids: set<EntryId>, id: EntryId, k: int)
    ensures WithCluster(WithCluster(rows, ids, k), {id}, k) == WithCluster(rows, ids + {id}, k)
  {
  }

  /** Embeddings of the rows whose embedding is not NULL, in table order. */
  function NonNullEmbeddings(rows: seq<Row>): seq<Embedding>
    decreases |rows|
  {
    if rows == [] then []
    else (if rows[0].embedding.Some? then [rows[0].embedding.value] else []) + NonNullEmbeddings(rows[1..])
  }

  /** The scan sees each stored embedding and nothing else: NULL embeddings are never compared. */
  lemma {:induction false} NonNullEmbeddingsAreStored(rows: seq<Row>)
    ensures |NonNullEmbeddings(rows)| <= |rows|
    ensures forall e :: e in NonNullEmbeddings(rows) <==> exists j :: 0 <= j < |rows| && rows[j].embedding == Some(e)
    decreases |rows|
  {
    if rows != [] {
      NonNullEmbeddingsAreStored(rows[1..]);
      forall e ensures (exists j :: 1 <= j < |rows| && rows[j].embedding == Some(e)) <==>
                       (exists j :: 0 <= j < |rows[1..]| && rows[1..][j].embedding == Some(e)) {
        if j :| 1 <= j < |rows| && rows[j].embedding == Some(e) {
          assert rows[1..][j - 1] == rows[j];
        }
      }
    }
  }

  function Min(a: int, b: int): int {
    if a <= b then a else b
  }

  /** `LIMIT limit OFFSET offset` over a result list. */
  function Page<T>(es: seq<T>, limit: nat, offset: nat): (p: seq<T>)
    ensures |p| <= limit
    ensures offset >= |es| ==> p == []
    ensures offset < |es| ==> |p| == Min(limit, |es| - offset) && p == es[offset .. offset + |p|]
  {
    if offset >= |es| then [] else es[offset .. Min(offset + limit, |es|)]
  }

  /** How many batch reads a full scan of `n` rows makes from `offset` on, the final empty read included. */
  function ScanReads(n: nat, batchSize: nat, offset: nat): nat
    requires batchSize > 0
    decreases n - offset
  {
    if offset >= n then 1 else 1 + ScanReads(n, batchSize, offset + batchSize)
  }

  /**
   * A full scan from `offset` reads ceil((n - offset) / batchSize) non-empty
   * batches and then one empty batch: with `r` reads,
   * (r - 2) * batchSize < n - offset <= (r - 1) * batchSize.
   */
  lemma {:induction false} ScanReadsCount(n: nat, batchSize: nat, offset: nat)
    requires batchSize > 0 && offset <= n
    ensures var r := ScanReads(n, batchSize, offset);
            r >= 1 && (r - 2) * batchSize < n - offset <= (r - 1) * batchSize
    decreases n - offset
  {
    var b := batchSize;
    if offset < n {
      if offset + b >= n {
        assert ScanReads(n, b, offset + b) == 1;
      } else {
        ScanReadsCount(n, b, offset + b);
        var r' := ScanReads(n, b, offset + b);
        assert (r' - 1) * b + b == r' * b;
        assert (r' - 2) * b + b == (r' - 1) * b;
      }
    }
  }

  /** The offset after `pages` pages of `batchSize` rows. */
  function PageStart(pages: nat, batchSize: nat): nat {
    if pages == 0 then 0 else PageStart(pages - 1, batchSize) + batchSize
  }

  lemma {:induction false} PageStartIsProduct(pages: nat, batchSize: nat)
    ensures PageStart(pages, batchSize) == pages * batchSize
  {
    if pages > 0 {
      PageStartIsProduct(pages - 1, batchSize);
      assert (pages - 1) * batchSize + batchSize == pages * batchSize;
    }
  }

  /** One more rejected page extends the rejected prefix of the scan. */
  lemma ScanStep(service: Similarity.SimilarityService, x: Embedding, es: seq<Embedding>, batchSize: nat, offset: nat)
    requires offset < |es|
    requires !service.IsSimilar(x, es[..offset])
    requires !service.IsSimilar(x, Page(es, batchSize, offset))
    ensures !service.IsSimilar(x, es[..Min(offset + batchSize, |es|)])
  {
    assert es[..Min(offset + batchSize, |es|)] == es[..offset] + Page(es, batchSize, offset);
    Similarity.IsSimilarSplit(service, x, es[..offset], Page(es, batchSize, offset));
  }

  /** One rejected non-empty page: the scan moves one page on and its read count stays on track. */
  lemma ScanAdvance(service: Similarity.SimilarityService, x: Embedding, es: seq<Embedding>, batchSize: nat,
                    offset: nat, pageReads: nat)
    requires batchSize > 0 && offset < |es|
    requires pageReads + ScanReads(|es|, batchSize, offset) == ScanReads(|es|, batchSize, 0) + 1
    requires !service.IsSimilar(x, es[..Min(offset, |es|)])
    requires !service.IsSimilar(x, Page(es, batchSize, offset))
    requires pageReads >= 1 && offset == PageStart(pageReads - 1, batchSize)
    ensures offset + batchSize == PageStart(pageReads, batchSize)
    ensures pageReads + ScanReads(|es|, batchSize, offset + batchSize) == ScanReads(|es|, batchSize, 0)
    ensures !service.IsSimilar(x, es[..Min(offset + batchSize, |es|)])
  {
    ScanStep(service, x, es, batchSize, offset);
  }

  /** A row of a page is a row of the list. */
  lemma InPage<T>(es: seq<T>, limit: nat, offset: nat, e: T)
    requires e in Page(es, limit, offset)
    ensures e in es
  {
    var i :| 0 <= i < |Page(es, limit, offset)| && Page(es, limit, offset)[i] == e;
    assert es[offset + i] == e;
  }

  /** The scan stops at a page the service accepts: the whole list is similar and no earlier row was. */
  lemma ScanAccept(service: Similarity.SimilarityService, x: Embedding, es: seq<Embedding>, batchSize: nat,
                   offset: nat, pageReads: nat)
    requires offset < |es| && pageReads >= 1
    requires batchSize > 0 ==> pageReads - 1 + ScanReads(|es|, batchSize, offset) == ScanReads(|es|, batchSize, 0)
    requires !service.IsSimilar(x, es[..Min(offset, |es|)])
    requires service.IsSimilar(x, Page(es, batchSize, offset))
    ensures batchSize > 0 && service.IsSimilar(x, es)
    ensures pageReads <= ScanReads(|es|, batchSize, 0)
    ensures !service.IsSimilar(x, es[..offset])
  {
    var p := Page(es, batchSize, offset);
    var e :| e in p && service.cosine(x, e) > Similarity.ThresholdOf(service.config);
    InPage(es, batchSize, offset, e);
    assert Min(offset, |es|) == offset;
  }

  /** The scan reads an empty page: every row was rejected and every page was read. */
  lemma ScanExhausted(service: Similarity.SimilarityService, x: Embedding, es: seq<Embedding>, batchSize: nat,
                      offset: nat, pageReads: nat)
    requires |Page(es, batchSize, offset)| == 0 && pageReads >= 1
    requires batchSize == 0 ==> pageReads == 1
    requires batchSize > 0 ==> pageReads - 1 + ScanReads(|es|, batchSize, offset) == ScanReads(|es|, batchSize, 0)
    requires !service.IsSimilar(x, es[..Min(offset, |es|)])
    ensures batchSize > 0 ==> !service.IsSimilar(x, es) && pageReads == ScanReads(|es|, batchSize, 0)
  {
    if batchSize > 0 {
      assert es[..Min(offset, |es|)] == es;
    }
  }

  /**
   * The paging loop of `is_similar_embedding_present` over the query result
   * `es`: `LIMIT batchSize OFFSET offset` page after page until a page is
   * empty or the service accepts one.
   */
  method ScanPages(service: Similarity.SimilarityService, embedding: Embedding, es: seq<Embedding>, batchSize: nat)
    returns (found: bool, ghost pageReads: nat, ghost acceptedAt: nat)
    ensures batchSize > 0 ==> found == service.IsSimilar(embedding, es)
    ensures batchSize == 0 ==> !found && pageReads == 1
    ensures batchSize > 0 ==> pageReads <= ScanReads(|es|, batchSize, 0)
    ensures batchSize > 0 && !found ==> pageReads == ScanReads(|es|, batchSize, 0)
    ensures found ==> batchSize > 0 && pageReads >= 1 && acceptedAt == PageStart(pageReads - 1, batchSize)
    ensures found ==>
              acceptedAt < |es| &&
              service.IsSimilar(embedding, Page(es, batchSize, acceptedAt)) &&
              !service.IsSimilar(embedding, es[..acceptedAt])
  {
    var offset := 0;
    pageReads, acceptedAt := 0, 0;
    while true
      invariant batchSize == 0 ==> offset == 0 && pageReads == 0
      invariant offset == PageStart(pageReads, batchSize)
      invariant batchSize > 0 ==> pageReads + ScanReads(|es|, batchSize, offset) == ScanReads(|es|, batchSize, 0)
      invariant !service.IsSimilar(embedding, es[..Min(offset, |es|)])
      decreases |es| - offset
    {
      var rows := Page(es, batchSize, offset);
      pageReads := pageReads + 1;
      if |rows| == 0 {
        ScanExhausted(service, embedding, es, batchSize, offset, pageReads);
        break;
      }
      if service.IsSimilar(embedding, rows) {
        ScanAccept(service, embedding, es, batchSize, offset, pageReads);
        acceptedAt := offset;
        return true, pageReads, acceptedAt;
      }
      ScanAdvance(service, embedding, es, batchSize, offset, pageReads);
      offset := offset + batchSize;
    }
    found := false;
  }

  class Store {
    /** `playbook_entries`, in insertion order. */
    var entries: seq<Row>
    /** `clusters`: cluster id to summary. */
    var clusters: map<int, string>
    /** The cluster ids of the summary upserts so far, in order. */
    ghost var summaryWrites: seq<int>

    ghost predicate Valid()
      reads this
    {
      UniqueKeys(entries)
    }

    /** Freshly initialized, empty tables. */
    constructor ()
      ensures Valid() && entries == [] && clusters == map[] && summaryWrites == []
    {
      entries := [];
      clusters := map[];
      summaryWrites := [];
    }

    /** The primary-key lookup. */
    method IndexOfId(id: EntryId) returns (r: Option<nat>)
      ensures r.None? <==> !HasId(entries, id)
      ensures r.Some? ==> r.value < |entries| && entries[r.value].id == id
    {
      var i := 0;
      while i < |entries|
        invariant 0 <= i <= |entries|
        invariant forall j :: 0 <= j < i ==> entries[j].id != id
      {
        if entries[i].id == id {
          return Some(i);
        }
        i := i + 1;
      }
      return None;
    }

    /** `add_or_update_playbook_entry` on Postgres. */
    method AddOrUpdatePlaybookEntry(id: EntryId, content: string, metadata: Metadata, embedding: Option<Embedding>)
      returns (r: Outcome<StoreError>)
      requires Valid()
      modifies this
      ensures Valid() && clusters == old(clusters) && summaryWrites == old(summaryWrites)
      ensures r.Err? <==> ContentClash(old(entries), id, content)
      ensures r.Err? ==> r.error == UniqueViolation(content) && entries == old(entries)
      ensures r.Ok? ==> entries == Upserted(old(entries), id, content, metadata, embedding)
    {
      var i := 0;
      while i < |entries|
        invariant 0 <= i <= |entries|
        invariant forall j :: 0 <= j < i ==> !(entries[j].content == content && entries[j].id != id)
      {
        if entries[i].content == content && entries[i].id != id {
          return Err(UniqueViolation(content));
        }
        i := i + 1;
      }
      UpsertWritesOneRow(entries, id, content, metadata, embedding);
      var at := IndexOfId(id);
      match at {
        case Some(k) =>
          entries := entries[k := entries[k].(content := content, metadata := metadata, embedding := embedding)];
        case None =>
          entries := entries + [Row(id, content, metadata, embedding, None)];
      }
      r := Ok;
    }

    /** `get_all_playbook_entries`: every row, in table order, without its cluster id. */
    function GetAllPlaybookEntries(): (es: seq<Entry>)
      reads this
      ensures |es| == |entries|
      ensures forall j :: 0 <= j < |es| ==> es[j].id == entries[j].id && es[j].content == entries[j].content
      ensures Valid() ==> forall i, j :: 0 <= i < j < |es| ==> es[i].id != es[j].id && es[i].content != es[j].content
    {
      seq(|entries|, j reads this requires 0 <= j < |entries| =>
        Entry(entries[j].id, entries[j].content, entries[j].metadata, entries[j].embedding))
    }

    /** `content_exists`: an exact-match test against every row. */
    function ContentExists(content: string): (b: bool)
      reads this
      ensures b <==> exists j :: 0 <= j < |entries| && entries[j].content == content
    {
      AnyContent(entries, content)
    }

    /** `update_entry_cluster`: only the `cluster_id` of the row with `id` changes. */
    method UpdateEntryCluster(id: EntryId, clusterId: int)
      requires Valid()
      modifies this
      ensures Valid() && clusters == old(clusters) && summaryWrites == old(summaryWrites)
      ensures entries == WithCluster(old(entries), {id}, clusterId)
    {
      var at := IndexOfId(id);
      if at.Some? {
        var k := at.value;
        entries := entries[k := entries[k].(clusterId := Some(clusterId))];
      }
    }

    /** `add_or_update_cluster_summary`. */
    method AddOrUpdateClusterSummary(clusterId: int, summary: string)
      modifies this
      ensures entries == old(entries)
      ensures clusters == old(clusters)[clusterId := summary]
      ensures summaryWrites == old(summaryWrites) + [clusterId]
    {
      clusters := clusters[clusterId := summary];
      summaryWrites := summaryWrites + [clusterId];
    }

    /**
     * `is_similar_embedding_present`: pages through the non-NULL embeddings
     * `batchSize` at a time and stops at the first page the similarity
     * service accepts.  Nothing writes during the scan, so every page query
     * sees the same table.  `pageReads` counts the page reads; `acceptedAt`
     * is the offset of the accepting page.
     */
    method IsSimilarEmbeddingPresent(service: Similarity.SimilarityService, embedding: Embedding, batchSize: nat)
      returns (found: bool, ghost pageReads: nat, ghost acceptedAt: nat)
      ensures batchSize > 0 ==> found == service.IsSimilar(embedding, NonNullEmbeddings(entries))
      ensures batchSize == 0 ==> !found && pageReads == 1
      ensures batchSize > 0 ==> pageReads <= ScanReads(|NonNullEmbeddings(entries)|, batchSize, 0)
      ensures batchSize > 0 && !found ==> pageReads == ScanReads(|NonNullEmbeddings(entries)|, batchSize, 0)
      ensures found ==> batchSize > 0 && pageReads >= 1 && acceptedAt == PageStart(pageReads - 1, batchSize)
      ensures found ==>
                var es := NonNullEmbeddings(entries);
                acceptedAt < |es| &&
                service.IsSimilar(embedding, Page(es, batchSize, acceptedAt)) &&
                !service.IsSimilar(embedding, es[..acceptedAt])
    {
      found, pageReads, acceptedAt := ScanPages(service, embedding, NonNullEmbeddings(entries), batchSize);
    }

    /** `get_all_clusters_with_entries`. */
    method GetAllClustersWithEntries() returns (view: map<int, ClusterView>)
      ensures view == ClusterListing(entries, clusters)
    {
      view := map k | k in clusters :: ClusterView(clusters[k], []);
      var i := 0;
      while i < |entries|
        invariant 0 <= i <= |entries|
        invariant view.Keys == clusters.Keys + ClusterIds(entries[..i])
        invariant forall k :: k in view ==> view[k] == ClusterView(SummaryOf(clusters, k), MembersOf(entries[..i], k))
      {
        ghost var prefix := entries[..i + 1];
        assert prefix[..i] == entries[..i];
        ClusterIdsStep(prefix);
        var row := entries[i];
        if row.clusterId.Some? {
          var k := row.clusterId.value;
          if k !in view {
            MembersOfEmpty(entries[..i], k);
          }
          var current := if k in view then view[k] else ClusterView("", []);
          view := view[k := current.(entries := current.entries + [AsMember(row, k)])];
        }
        i := i + 1;
      }
      assert entries[..i] == entries;
    }
  }

  /** Whether some row holds exactly `content`. */
  function AnyContent(rows: seq<Row>, content: string): (b: bool)
    ensures b <==> exists j :: 0 <= j < |rows| && rows[j].content == content
  {
    if rows == [] then false
    else
      var rest := AnyContent(rows[1..], content);
      assert rest <==> exists j :: 1 <= j < |rows| && rows[j].content == content by {
        forall j | 1 <= j < |rows| ensures rows[1..][j - 1] == rows[j] { }
      }
      rows[0].content == content || rest
  }

  function AsMember(row: Row, k: int): Member {
    Member(row.id, row.content, row.metadata, k)
  }

  /** The members of cluster `k`, in table order. */
  function MembersOf(rows: seq<Row>, k: int): seq<Member>
    decreases |rows|
  {
    if rows == [] then []
    else
      var last := rows[|rows| - 1];
      MembersOf(rows[..|rows| - 1], k) + (if last.clusterId == Some(k) then [AsMember(last, k)] else [])
  }

  ghost function ClusterIds(rows: seq<Row>): set<int> {
    set j | 0 <= j < |rows| && rows[j].clusterId.Some? :: rows[j].clusterId.value
  }

  function SummaryOf(clusters: map<int, string>, k: int): string {
    if k in clusters then clusters[k] else ""
  }

  /**
   * The cluster listing: one key per cluster row and per assigned cluster id;
   * the summary is `""` when no cluster row exists.
   */
  ghost function ClusterListing(rows: seq<Row>, clusters: map<int, string>): map<int, ClusterView> {
    map k | k in clusters.Keys + ClusterIds(rows) :: ClusterView(SummaryOf(clusters, k), MembersOf(rows, k))
  }

  lemma ClusterIdsStep(rows: seq<Row>)
    requires rows != []
    ensures var last := rows[|rows| - 1];
            ClusterIds(rows) == ClusterIds(rows[..|rows| - 1]) + (if last.clusterId.Some? then {last.clusterId.value} else {})
  {
    var init := rows[..|rows| - 1];
    var last := rows[|rows| - 1];
    forall c | c in ClusterIds(rows) ensures c in ClusterIds(init) || last.clusterId == Some(c) {
      var j :| 0 <= j < |rows| && rows[j].clusterId.Some? && rows[j].clusterId.value == c;
      if j < |rows| - 1 { assert init[j] == rows[j]; }
    }
    forall c | c in ClusterIds(init) ensures c in ClusterIds(rows) {
      var j :| 0 <= j < |init| && init[j].clusterId.Some? && init[j].clusterId.value == c;
      assert rows[j] == init[j];
    }
  }

  lemma {:induction false} MembersOfEmpty(rows: seq<Row>, k: int)
    requires k !in ClusterIds(rows)
    ensures MembersOf(rows, k) == []
    decreases |rows|
  {
    if rows != [] {
      var init := rows[..|rows| - 1];
      forall j | 0 <= j < |init| ensures init[j] == rows[j] { }
      MembersOfEmpty(init, k);
    }
  }

  /**
   * Each member listed under `k` comes from a row assigned to `k` (so a row
   * is listed under its own cluster only), and every row assigned to `k` is
   * listed there.
   */
  lemma {:induction false} MembersOfExact(rows: seq<Row>, k: int)
    ensures forall m :: m in MembersOf(rows, k) ==>
              exists j :: 0 <= j < |rows| && rows[j].clusterId == Some(k) && m == AsMember(rows[j], k)
    ensures forall j :: 0 <= j < |rows| && rows[j].clusterId == Some(k) ==> AsMember(rows[j], k) in MembersOf(rows, k)
    ensures |MembersOf(rows, k)| <= |rows|
    decreases |rows|
  {
    if rows != [] {
      var init := rows[..|rows| - 1];
      MembersOfExact(init, k);
      forall j | 0 <= j < |rows| - 1 ensures rows[j] == init[j] { }
    }
  }
}
