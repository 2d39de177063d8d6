/**
 * The cluster manager: groups the stored entries by the labels the
 * clustering algorithm gives them, writes each entry's cluster id, and
 * stores one generated summary per distinct label.
 */
module Clustering {
  import opened Types
  import opened Database
  import Summarization

  /** `labels[i]` was read past the end of the label list (an `IndexError`). */
  datatype RunError = LabelIndexOutOfRange(entries: nat, labels: nat)

  /** The clustering algorithm (KMeans): one label per clustered entry. */
  type Clusterer = seq<Entry> -> seq<int>

  /** Group `k`: the entries labelled `k`, in listing order. */
  function GroupOf(entries: seq<Entry>, labels: seq<int>, k: int): seq<Entry>
    requires |entries| <= |labels|
    decreases |entries|
  {
    if entries == [] then []
    else
      GroupOf(entries[..|entries| - 1], labels, k) +
      (if labels[|entries| - 1] == k then [entries[|entries| - 1]] else [])
  }

  /** The positions carrying label `k` among the first `n` labels, ascending. */
  function GroupIndices(labels: seq<int>, n: nat, k: int): seq<nat>
    requires n <= |labels|
  {
    if n == 0 then []
    else GroupIndices(labels, n - 1, k) + (if labels[n - 1] == k then [n - 1] else [])
  }

  /** The positions of group `k` are ascending, and they are exactly the positions labelled `k`. */
  lemma {:induction false} GroupIndicesExact(labels: seq<int>, n: nat, k: int)
    requires n <= |labels|
    ensures forall s, t :: 0 <= s < t < |GroupIndices(labels, n, k)| ==>
              GroupIndices(labels, n, k)[s] < GroupIndices(labels, n, k)[t]
    ensures forall t :: 0 <= t < |GroupIndices(labels, n, k)| ==>
              GroupIndices(labels, n, k)[t] < n && labels[GroupIndices(labels, n, k)[t]] == k
    ensures forall i :: 0 <= i < n && labels[i] == k ==> i in GroupIndices(labels, n, k)
  {
    if n > 0 {
      GroupIndicesExact(labels, n - 1, k);
      var prev := GroupIndices(labels, n - 1, k);
      if labels[n - 1] == k {
        var ix := prev + [n - 1];
        assert GroupIndices(labels, n, k) == ix;
        forall t | 0 <= t < |ix| ensures ix[t] < n && labels[ix[t]] == k {
          if t < |prev| {
            assert ix[t] == prev[t];
          }
        }
      } else {
        assert GroupIndices(labels, n, k) == prev;
      }
    }
  }

  /** Group `k` is the entries at the positions labelled `k`, in order. */
  lemma {:induction false} GroupOfPicksIndices(entries: seq<Entry>, labels: seq<int>, k: int)
    requires |entries| <= |labels|
    ensures var ix := GroupIndices(labels, |entries|, k);
            var g := GroupOf(entries, labels, k);
            |g| == |ix| && forall t :: 0 <= t < |ix| ==> ix[t] < |entries| && g[t] == entries[ix[t]]
    decreases |entries|
  {
    if entries != [] {
      var n := |entries|;
      var init := entries[..n - 1];
      GroupOfPicksIndices(init, labels, k);
      var prevIx := GroupIndices(labels, n - 1, k);
      var prevG := GroupOf(init, labels, k);
      assert forall t :: 0 <= t < |prevIx| ==> prevIx[t] < n - 1 && prevG[t] == entries[prevIx[t]];
      if labels[n - 1] == k {
        assert GroupIndices(labels, n, k) == prevIx + [n - 1];
        assert GroupOf(entries, labels, k) == prevG + [entries[n - 1]];
      } else {
        assert GroupIndices(labels, n, k) == prevIx;
        assert GroupOf(entries, labels, k) == prevG;
      }
    }
  }

  function IdsOf(group: seq<Entry>): set<EntryId> {
    set t | 0 <= t < |group| :: group[t].id
  }

  /** With distinct ids, an entry's id is in group `k` exactly when the entry is labelled `k`. */
  lemma GroupIdsIff(entries: seq<Entry>, labels: seq<int>, k: int)
    requires |entries| <= |labels|
    requires forall i, j :: 0 <= i < j < |entries| ==> entries[i].id != entries[j].id
    ensures forall j :: 0 <= j < |entries| ==> (entries[j].id in IdsOf(GroupOf(entries, labels, k)) <==> labels[j] == k)
  {
    var ix := GroupIndices(labels, |entries|, k);
    var g := GroupOf(entries, labels, k);
    GroupOfPicksIndices(entries, labels, k);
    GroupIndicesExact(labels, |entries|, k);
    forall j | 0 <= j < |entries|
      ensures entries[j].id in IdsOf(g) <==> labels[j] == k
    {
      if labels[j] == k {
        var t :| 0 <= t < |ix| && ix[t] == j;
        assert g[t].id == entries[j].id;
      }
      if entries[j].id in IdsOf(g) {
        var t :| 0 <= t < |g| && g[t].id == entries[j].id;
        assert entries[ix[t]].id == entries[j].id;
      }
    }
  }

  lemma {:induction false} GroupOfAbsent(entries: seq<Entry>, labels: seq<int>, k: int)
    requires |entries| <= |labels|
    requires k !in labels[..|entries|]
    ensures GroupOf(entries, labels, k) == []
    decreases |entries|
  {
    if entries != [] {
      var n := |entries|;
      assert labels[..n - 1] == labels[..n][..n - 1];
      assert labels[n - 1] == labels[..n][n - 1];
      GroupOfAbsent(entries[..n - 1], labels, k);
    }
  }

  /** The distinct labels in order of first appearance (the grouping dict's key order). */
  function FirstSeen(labels: seq<int>): seq<int>
    decreases |labels|
  {
    if labels == [] then []
    else
      var seen := FirstSeen(labels[..|labels| - 1]);
      if labels[|labels| - 1] in seen then seen else seen + [labels[|labels| - 1]]
  }

  /** Each label is listed once, and exactly the labels that occur are listed. */
  lemma {:induction false} FirstSeenExact(labels: seq<int>)
    ensures forall s, t :: 0 <= s < t < |FirstSeen(labels)| ==> FirstSeen(labels)[s] != FirstSeen(labels)[t]
    ensures forall x :: x in FirstSeen(labels) <==> x in labels
    decreases |labels|
  {
    if labels != [] {
      var init := labels[..|labels| - 1];
      FirstSeenExact(init);
      var last := labels[|labels| - 1];
      var prev := FirstSeen(init);
      assert labels == init + [last];
      if last !in prev {
        var seen := prev + [last];
        assert FirstSeen(labels) == seen;
        forall s, t | 0 <= s < t < |seen| ensures seen[s] != seen[t] {
          if t == |prev| {
            assert seen[s] == prev[s];
          } else {
            assert seen[s] == prev[s] && seen[t] == prev[t];
          }
        }
      }
    }
  }

  /** Every label among the first `n` is in the first-seen list. */
  lemma FirstSeenCovers(labels: seq<int>, n: nat)
    requires n <= |labels|
    ensures forall j :: 0 <= j < n ==> labels[j] in FirstSeen(labels[..n])
    ensures forall k :: k in labels[..n] ==> k in FirstSeen(labels[..n])
  {
    FirstSeenExact(labels[..n]);
    forall j | 0 <= j < n ensures labels[j] in FirstSeen(labels[..n]) {
      assert labels[j] == labels[..n][j];
    }
  }

  /** `[e['content'] for e in cluster_entries]`. */
  function Texts(group: seq<Entry>): (texts: seq<string>)
    ensures |texts| == |group| && forall t :: 0 <= t < |group| ==> texts[t] == group[t].content
  {
    seq(|group|, t requires 0 <= t < |group| => group[t].content)
  }

  /** Every row's cluster id set to its label. */
  ghost function Relabeled(rows: seq<Row>, labels: seq<int>): seq<Row>
    requires |rows| <= |labels|
  {
    seq(|rows|, j requires 0 <= j < |rows| => rows[j].(clusterId := Some(labels[j])))
  }

  /** One summary per label that occurs: the model's answer on that group's contents, in order. */
  ghost function NewSummaries(entries: seq<Entry>, labels: seq<int>, generate: Generate): map<int, string>
    requires |entries| <= |labels|
  {
    map k | k in labels[..|entries|] :: generate(Summarization.Prompt(Texts(GroupOf(entries, labels, k))))
  }

  /** Relabelling writes only the cluster id: every row keeps its id, content, metadata and embedding. */
  lemma RelabeledOnlySetsCluster(rows: seq<Row>, labels: seq<int>)
    requires |rows| <= |labels|
    ensures |Relabeled(rows, labels)| == |rows|
    ensures forall j :: 0 <= j < |rows| ==>
              Relabeled(rows, labels)[j].id == rows[j].id &&
              Relabeled(rows, labels)[j].content == rows[j].content &&
              Relabeled(rows, labels)[j].metadata == rows[j].metadata &&
              Relabeled(rows, labels)[j].embedding == rows[j].embedding &&
              Relabeled(rows, labels)[j].clusterId == Some(labels[j])
  {
  }

  /**
   * A run never deletes a cluster row: the clusters table gains or replaces
   * the summaries of the labels that occur and keeps every other summary.
   */
  lemma SummariesKeepOthers(clusters: map<int, string>, entries: seq<Entry>, labels: seq<int>, generate: Generate)
    requires |entries| <= |labels|
    ensures forall k :: k in clusters + NewSummaries(entries, labels, generate) <==> k in clusters || k in labels[..|entries|]
    ensures forall k :: k in clusters && k !in labels[..|entries|] ==>
              (clusters + NewSummaries(entries, labels, generate))[k] == clusters[k]
  {
  }

  /** The rows after the labels in `done` have been written: each row whose label is done carries it. */
  ghost function PartlyRelabeled(rows: seq<Row>, labels: seq<int>, done: seq<int>): seq<Row>
    requires |rows| <= |labels|
  {
    seq(|rows|, j requires 0 <= j < |rows| =>
      if labels[j] in done then rows[j].(clusterId := Some(labels[j])) else rows[j])
  }

  /** Writing group `k` (by id) moves exactly the rows labelled `k` into the written set. */
  lemma RelabelStep(rows: seq<Row>, entries: seq<Entry>, labels: seq<int>, done: seq<int>, k: int)
    requires |rows| == |entries| <= |labels|
    requires forall j :: 0 <= j < |rows| ==> entries[j].id == rows[j].id
    requires forall i, j :: 0 <= i < j < |entries| ==> entries[i].id != entries[j].id
    ensures WithCluster(PartlyRelabeled(rows, labels, done), IdsOf(GroupOf(entries, labels, k)), k)
            == PartlyRelabeled(rows, labels, done + [k])
  {
    GroupIdsIff(entries, labels, k);
    var before := PartlyRelabeled(rows, labels, done);
    var after := WithCluster(before, IdsOf(GroupOf(entries, labels, k)), k);
    forall j | 0 <= j < |rows|
      ensures after[j] == PartlyRelabeled(rows, labels, done + [k])[j]
    {
      assert before[j].id == entries[j].id;
    }
  }

  /** Once every label that occurs is written, every row carries its own label. */
  lemma RelabelDone(rows: seq<Row>, labels: seq<int>, done: seq<int>)
    requires |rows| <= |labels|
    requires forall j :: 0 <= j < |rows| ==> labels[j] in done
    ensures PartlyRelabeled(rows, labels, done) == Relabeled(rows, labels)
  {
  }

  /** The summaries written so far: those of the labels in `done`. */
  ghost function Written(base: map<int, string>, summaries: map<int, string>, done: seq<int>): map<int, string> {
    base + map k | k in done && k in summaries :: summaries[k]
  }

  lemma WrittenStep(base: map<int, string>, summaries: map<int, string>, done: seq<int>, k: int)
    requires k in summaries
    ensures Written(base, summaries, done + [k]) == Written(base, summaries, done)[k := summaries[k]]
  {
  }

  lemma WrittenAll(base: map<int, string>, summaries: map<int, string>, done: seq<int>)
    requires forall k :: k in summaries ==> k in done
    ensures Written(base, summaries, done) == base + summaries
  {
    var m := map k | k in done && k in summaries :: summaries[k];
    forall k | k in summaries ensures k in m && m[k] == summaries[k] { }
    assert m == summaries;
  }

  /**
   * The grouping loop of `run_clustering`: fails when the label list runs out
   * before the entries do; otherwise maps each label to its group and lists
   * the labels in first-seen order.
   */
  method GroupByLabel(entries: seq<Entry>, labels: seq<int>)
      returns (ok: bool, groups: map<int, seq<Entry>>, order: seq<int>)
    ensures ok <==> |entries| <= |labels|
    ensures ok ==> order == FirstSeen(labels[..|entries|])
    ensures ok ==> forall k :: k in groups <==> k in labels[..|entries|]
    ensures ok ==> forall k :: k in groups ==> groups[k] == GroupOf(entries, labels, k)
  {
    groups := map[];
    order := [];
    var i := 0;
    while i < |entries|
      invariant 0 <= i <= |entries| && i <= |labels|
      invariant order == FirstSeen(labels[..i])
      invariant forall k :: k in groups <==> k in labels[..i]
      invariant forall k :: k in groups ==> groups[k] == GroupOf(entries[..i], labels, k)
    {
      if i >= |labels| {
        return false, groups, order;
      }
      var k := labels[i];
      assert labels[..i + 1][..i] == labels[..i];
      assert entries[..i + 1][..i] == entries[..i];
      FirstSeenExact(labels[..i]);
      assert labels[..i + 1][i] == k;
      if k !in groups {
        GroupOfAbsent(entries[..i], labels, k);
        order := order + [k];
      }
      var members := if k in groups then groups[k] else [];
      groups := groups[k := members + [entries[i]]];
      i := i + 1;
    }
    assert entries[..i] == entries;
    ok := true;
  }

  class ClusterManager {
    const store: Store
    const clusterer: Clusterer
    const summarizer: Summarization.SummarizationService

    /** Takes the summarization service from the singleton, which may ignore `llm`. */
    constructor (store: Store, clusterer: Clusterer, registry: Summarization.SummarizationRegistry, llm: Generate)
      modifies registry
      ensures this.store == store && this.clusterer == clusterer
      ensures old(registry.instance) != null ==> summarizer == old(registry.instance)
      ensures old(registry.instance) == null ==> summarizer.generate == llm
      ensures registry.instance == summarizer
    {
      this.store := store;
      this.clusterer := clusterer;
      var service := registry.GetSummarizationService(llm);
      this.summarizer := service;
    }

    /** The inner loop of the write phase: every entry of the group gets cluster id `k`. */
    method AssignCluster(group: seq<Entry>, k: int)
      requires store.Valid()
      modifies store
      ensures store.Valid() && store.clusters == old(store.clusters) && store.summaryWrites == old(store.summaryWrites)
      ensures store.entries == WithCluster(old(store.entries), IdsOf(group), k)
    {
      assert WithCluster(store.entries, {}, k) == store.entries;
      var t := 0;
      while t < |group|
        invariant 0 <= t <= |group|
        invariant store.Valid() && store.clusters == old(store.clusters) && store.summaryWrites == old(store.summaryWrites)
        invariant store.entries == WithCluster(old(store.entries), IdsOf(group[..t]), k)
      {
        WithClusterGrow(old(store.entries), IdsOf(group[..t]), group[t].id, k);
        store.UpdateEntryCluster(group[t].id, k);
        assert IdsOf(group[..t + 1]) == IdsOf(group[..t]) + {group[t].id} by {
          forall s | 0 <= s < t ensures group[..t + 1][s] == group[..t][s] { }
        }
        t := t + 1;
      }
      assert group[..t] == group;
    }

    /**
     * `run_clustering`.  The store's `summaryWrites` log shows the summary
     * upserts: one per label that occurs, in first-seen order.
     */
    method RunClustering() returns (r: Outcome<RunError>)
      requires store.Valid()
      modifies store
      ensures store.Valid()
      ensures old(store.entries) == [] ==>
                r.Ok? && store.summaryWrites == old(store.summaryWrites) &&
                store.entries == old(store.entries) && store.clusters == old(store.clusters)
      ensures var snapshot := old(store.GetAllPlaybookEntries());
              var labels := clusterer(snapshot);
              snapshot != [] && |labels| < |snapshot| ==>
                r == Err(LabelIndexOutOfRange(|snapshot|, |labels|)) && store.summaryWrites == old(store.summaryWrites) &&
                store.entries == old(store.entries) && store.clusters == old(store.clusters)
      ensures var snapshot := old(store.GetAllPlaybookEntries());
              var labels := clusterer(snapshot);
              snapshot != [] && |labels| >= |snapshot| ==>
                r.Ok? &&
                store.entries == Relabeled(old(store.entries), labels) &&
                store.clusters == old(store.clusters) + NewSummaries(snapshot, labels, summarizer.generate) &&
                store.summaryWrites == old(store.summaryWrites) + FirstSeen(labels[..|snapshot|])
    {
      var snapshot := store.GetAllPlaybookEntries();
      if snapshot == [] {
        return Ok;
      }
      var labels := clusterer(snapshot);
      var n := |snapshot|;

      var grouped, groups, order := GroupByLabel(snapshot, labels);
      if !grouped {
        return Err(LabelIndexOutOfRange(n, |labels|));
      }
      assert forall i, j :: 0 <= i < j < n ==> snapshot[i].id != snapshot[j].id;
      WriteClusters(snapshot, labels, groups, order);
      r := Ok;
    }

    /** One pass of the write loop: group `k` gets its cluster id, then its summary. */
    method WriteCluster(ghost rows: seq<Row>, snapshot: seq<Entry>, labels: seq<int>, ghost done: seq<int>,
                        k: int, group: seq<Entry>)
      requires store.Valid()
      requires |rows| == |snapshot| <= |labels|
      requires forall j :: 0 <= j < |rows| ==> snapshot[j].id == rows[j].id
      requires forall i, j :: 0 <= i < j < |snapshot| ==> snapshot[i].id != snapshot[j].id
      requires store.entries == PartlyRelabeled(rows, labels, done)
      requires group == GroupOf(snapshot, labels, k)
      modifies store
      ensures store.Valid()
      ensures store.entries == PartlyRelabeled(rows, labels, done + [k])
      ensures store.clusters == old(store.clusters)[k := summarizer.generate(Summarization.Prompt(Texts(group)))]
      ensures store.summaryWrites == old(store.summaryWrites) + [k]
    {
      RelabelStep(rows, snapshot, labels, done, k);
      AssignCluster(group, k);
      var summary := summarizer.SummarizeCluster(Texts(group));
      store.AddOrUpdateClusterSummary(k, summary);
    }

    /**
     * The write loop of `run_clustering`: for each label in first-seen order,
     * set the group's cluster ids, then upsert the group's summary.
     */
    method WriteClusters(snapshot: seq<Entry>, labels: seq<int>, groups: map<int, seq<Entry>>, order: seq<int>)
      requires store.Valid()
      requires |snapshot| == |store.entries| <= |labels|
      requires forall j :: 0 <= j < |snapshot| ==> snapshot[j].id == store.entries[j].id
      requires forall i, j :: 0 <= i < j < |snapshot| ==> snapshot[i].id != snapshot[j].id
      requires order == FirstSeen(labels[..|snapshot|])
      requires forall k :: k in groups <==> k in labels[..|snapshot|]
      requires forall k :: k in groups ==> groups[k] == GroupOf(snapshot, labels, k)
      modifies store
      ensures store.Valid()
      ensures store.entries == Relabeled(old(store.entries), labels)
      ensures store.clusters == old(store.clusters) + NewSummaries(snapshot, labels, summarizer.generate)
      ensures store.summaryWrites == old(store.summaryWrites) + order
    {
      var n := |snapshot|;
      ghost var rows := store.entries;
      ghost var summaries := NewSummaries(snapshot, labels, summarizer.generate);
      assert PartlyRelabeled(rows, labels, []) == rows;
      assert Written(store.clusters, summaries, []) == store.clusters;
      var p := 0;
      while p < |order|
        invariant 0 <= p <= |order|
        invariant store.Valid()
        invariant store.entries == PartlyRelabeled(rows, labels, order[..p])
        invariant store.clusters == Written(old(store.clusters), summaries, order[..p])
        invariant store.summaryWrites == old(store.summaryWrites) + order[..p]
      {
        var k := order[p];
        assert order[..p + 1] == order[..p] + [k];
        assert k in labels[..n] && k in summaries by {
          FirstSeenExact(labels[..n]);
        }
        ghost var logBefore := store.summaryWrites;
        WriteCluster(rows, snapshot, labels, order[..p], k, groups[k]);
        WrittenStep(old(store.clusters), summaries, order[..p], k);
        assert store.summaryWrites == old(store.summaryWrites) + order[..p + 1] by {
          assert store.summaryWrites == logBefore + [k];
          assert logBefore + [k] == old(store.summaryWrites) + (order[..p] + [k]);
        }
        p := p + 1;
      }
      assert order[..p] == order;
      FirstSeenCovers(labels, n);
      RelabelDone(rows, labels, order);
      WrittenAll(old(store.clusters), summaries, order);
    }

    /** `get_clusters`: the store's cluster listing, unchanged. */
    method GetClusters() returns (view: map<int, ClusterView>)
      ensures view == ClusterListing(store.entries, store.clusters)
    {
      view := store.GetAllClustersWithEntries();
    }
  }

  /** The listing of two rows in clusters 0 and 1, both with a summary row. */
  lemma ListingOfTwo(a: Row, b: Row, summary: string)
    requires a.clusterId == Some(0) && b.clusterId == Some(1)
    ensures var view := ClusterListing([a, b], map[0 := summary, 1 := summary]);
            view.Keys == {0, 1} &&
            view[0] == ClusterView(summary, [AsMember(a, 0)]) &&
            view[1] == ClusterView(summary, [AsMember(b, 1)])
  {
    var rows := [a, b];
    assert rows[..1] == [a] && [a][..0] == [];
    ClusterIdsStep(rows);
    ClusterIdsStep([a]);
    assert ClusterIds([]) == {};
    assert MembersOf([a], 0) == MembersOf([], 0) + [AsMember(a, 0)];
    assert MembersOf(rows, 0) == MembersOf([a], 0);
    assert MembersOf([a], 1) == MembersOf([], 1);
    assert MembersOf(rows, 1) == MembersOf([a], 1) + [AsMember(b, 1)];
  }

  /** Two entries labelled 0 and 1: two clusters, one entry each, each with the model's summary. */
  method TwoEntriesTwoClusters() returns (view: map<int, ClusterView>)
    ensures view.Keys == {0, 1}
    ensures |view[0].entries| == 1 && |view[1].entries| == 1
    ensures view[0].summary == "Summary of cluster" && view[1].summary == "Summary of cluster"
  {
    var store := new Store();
    var first := Row("entry-1", "Entry 1", map[], Some([1.0, 1.0, 1.0]), None);
    var second := Row("entry-2", "Entry 2", map[], Some([-1.0, -1.0, -1.0]), None);
    var _ := store.AddOrUpdatePlaybookEntry(first.id, first.content, first.metadata, first.embedding);
    assert store.entries == [first];
    assert second.content[6] != first.content[6];
    assert second.id[6] != first.id[6];
    var _ := store.AddOrUpdatePlaybookEntry(second.id, second.content, second.metadata, second.embedding);
    assert store.entries == [first, second];
    var registry := new Summarization.SummarizationRegistry();
    var generate: Generate := _ => "Summary of cluster";
    var manager := new ClusterManager(store, _ => [0, 1], registry, generate);
    assert manager.summarizer.generate == generate;
    var snapshot := store.GetAllPlaybookEntries();
    assert manager.clusterer(snapshot) == [0, 1];
    var _ := manager.RunClustering();
    var labels := [0, 1];
    assert store.entries == Relabeled([first, second], labels);
    assert store.entries == [first.(clusterId := Some(0)), second.(clusterId := Some(1))];
    assert NewSummaries(snapshot, labels, generate) == map[0 := "Summary of cluster", 1 := "Summary of cluster"];
    assert store.clusters == map[0 := "Summary of cluster", 1 := "Summary of cluster"];
    ListingOfTwo(first.(clusterId := Some(0)), second.(clusterId := Some(1)), "Summary of cluster");
    view := manager.GetClusters();
  }
}
