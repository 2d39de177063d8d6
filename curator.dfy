/**
 * The curator: turns a batch of insights into playbook entries.  As written
 * it appends one entry per insight; `CurateDeduplicated` is the behaviour its
 * tests expect (no empty contents, no repeated contents).
 */
module Curation {
  import opened Types
  import opened Models

  /** An insight dict, either of whose keys may be missing. */
  datatype Insight = Insight(content: Option<string>, metadata: Option<Metadata>)

  /** `insight.get("content", "")`. */
  function ContentOf(insight: Insight): string {
    insight.content.GetOr("")
  }

  /** `insight.get("metadata", {})`. */
  function MetadataOf(insight: Insight): Metadata {
    insight.metadata.GetOr(map[])
  }

  function Contents(es: seq<PlaybookEntry>): (cs: seq<string>)
    ensures |cs| == |es| && forall j :: 0 <= j < |es| ==> cs[j] == es[j].content
  {
    seq(|es|, j requires 0 <= j < |es| => es[j].content)
  }

  function InsightContents(insights: seq<Insight>): (cs: seq<string>)
    ensures |cs| == |insights| && forall j :: 0 <= j < |insights| ==> cs[j] == ContentOf(insights[j])
  {
    seq(|insights|, j requires 0 <= j < |insights| => ContentOf(insights[j]))
  }

  /**
   * The insights a deduplicating curator admits, in order: those with a
   * non-empty content that is neither `present` already nor admitted earlier
   * in the batch.
   */
  function Admitted(present: seq<string>, insights: seq<Insight>): seq<Insight>
    decreases |insights|
  {
    if insights == [] then []
    else
      var init := Admitted(present, insights[..|insights| - 1]);
      var c := ContentOf(insights[|insights| - 1]);
      if c == "" || c in present || c in InsightContents(init) then init
      else init + [insights[|insights| - 1]]
  }

  /**
   * What deduplication guarantees: no admitted content is empty or already
   * present, admitted contents are pairwise distinct, and every non-empty
   * content of the batch ends up present or admitted.
   */
  lemma {:induction false} AdmittedIsDeduplicated(present: seq<string>, insights: seq<Insight>)
    ensures var adm := InsightContents(Admitted(present, insights));
            (forall t :: 0 <= t < |adm| ==> adm[t] != "" && adm[t] !in present) &&
            (forall s, t :: 0 <= s < t < |adm| ==> adm[s] != adm[t]) &&
            (forall i :: 0 <= i < |insights| && ContentOf(insights[i]) != "" ==>
               ContentOf(insights[i]) in present || ContentOf(insights[i]) in adm)
    decreases |insights|
  {
    if insights != [] {
      var init := insights[..|insights| - 1];
      AdmittedIsDeduplicated(present, init);
      var before := InsightContents(Admitted(present, init));
      var adm := InsightContents(Admitted(present, insights));
      var c := ContentOf(insights[|insights| - 1]);
      if !(c == "" || c in present || c in before) {
        assert adm == before + [c];
      } else {
        assert adm == before;
      }
      forall i | 0 <= i < |insights| - 1 ensures insights[i] == init[i] { }
    }
  }

  class Curator {
    constructor () { }

    /** `curate`: one new entry per insight, in input order, with missing keys defaulted. */
    method Curate(playbook: Playbook, insights: seq<Insight>)
      modifies playbook
      ensures |playbook.entries| == |old(playbook.entries)| + |insights|
      ensures playbook.entries[..|old(playbook.entries)|] == old(playbook.entries)
      ensures forall i :: 0 <= i < |insights| ==>
                playbook.entries[|old(playbook.entries)| + i].content == ContentOf(insights[i]) &&
                playbook.entries[|old(playbook.entries)| + i].metadata == MetadataOf(insights[i])
      ensures old(playbook.Valid()) ==> playbook.Valid()
    {
      var i := 0;
      while i < |insights|
        invariant 0 <= i <= |insights|
        invariant |playbook.entries| == |old(playbook.entries)| + i
        invariant playbook.entries[..|old(playbook.entries)|] == old(playbook.entries)
        invariant forall t :: 0 <= t < i ==>
                    playbook.entries[|old(playbook.entries)| + t].content == ContentOf(insights[t]) &&
                    playbook.entries[|old(playbook.entries)| + t].metadata == MetadataOf(insights[t])
        invariant old(playbook.Valid()) ==> playbook.Valid()
      {
        var _ := playbook.AddEntry(ContentOf(insights[i]), Some(MetadataOf(insights[i])));
        i := i + 1;
      }
    }

    /** The curator its tests describe: skips empty contents and contents already in the playbook. */
    method CurateDeduplicated(playbook: Playbook, insights: seq<Insight>)
      modifies playbook
      ensures var adm := Admitted(Contents(old(playbook.entries)), insights);
              |playbook.entries| == |old(playbook.entries)| + |adm| &&
              playbook.entries[..|old(playbook.entries)|] == old(playbook.entries) &&
              forall t :: 0 <= t < |adm| ==>
                playbook.entries[|old(playbook.entries)| + t].content == ContentOf(adm[t]) &&
                playbook.entries[|old(playbook.entries)| + t].metadata == MetadataOf(adm[t])
      ensures old(playbook.Valid()) ==> playbook.Valid()
    {
      ghost var start := old(playbook.entries);
      ghost var present := Contents(start);
      var i := 0;
      while i < |insights|
        invariant 0 <= i <= |insights|
        invariant var adm := Admitted(present, insights[..i]);
                  |playbook.entries| == |start| + |adm| &&
                  playbook.entries[..|start|] == start &&
                  forall t :: 0 <= t < |adm| ==>
                    playbook.entries[|start| + t].content == ContentOf(adm[t]) &&
                    playbook.entries[|start| + t].metadata == MetadataOf(adm[t])
        invariant old(playbook.Valid()) ==> playbook.Valid()
      {
        ghost var adm := Admitted(present, insights[..i]);
        assert insights[..i + 1][..i] == insights[..i];
        var c := ContentOf(insights[i]);
        assert Contents(playbook.entries) == present + InsightContents(adm);
        var known := c in Contents(playbook.entries);
        if c != "" && !known {
          var _ := playbook.AddEntry(c, Some(MetadataOf(insights[i])));
        }
        i := i + 1;
      }
      assert insights[..i] == insights;
    }
  }

  /** The two insights the reflector produces (ace/core/reflector.py). */
  const ReflectorInsights: seq<Insight> := [
    Insight(Some("When analyzing task requirements, it's crucial to identify the key objectives."),
            Some(map["source" := "reflector", "type" := "strategy"])),
    Insight(Some("Consulting the playbook can reveal effective strategies from past experiences."),
            Some(map["source" := "reflector", "type" := "recommendation"]))
  ]

  /** The pipeline run: the reflector's two insights become entries 0 and 1, both tagged as from the reflector. */
  method PipelineRun() returns (entries: seq<PlaybookEntry>)
    ensures |entries| == 2
    ensures entries[0].content == ContentOf(ReflectorInsights[0]) && "source" in entries[0].metadata &&
            entries[0].metadata["source"] == "reflector"
    ensures entries[1].content == ContentOf(ReflectorInsights[1]) && "source" in entries[1].metadata &&
            entries[1].metadata["source"] == "reflector"
  {
    var playbook := new Playbook();
    var curator := new Curator();
    curator.Curate(playbook, ReflectorInsights);
    entries := playbook.entries;
  }

  const DuplicateBatch: seq<Insight> := [
    Insight(Some("Unique insight 1"), Some(map[])),
    Insight(Some("Unique insight 2"), Some(map[])),
    Insight(Some("Unique insight 1"), Some(map[]))
  ]

  const EmptyContentBatch: seq<Insight> := [
    Insight(Some(""), Some(map[])),
    Insight(Some("A valid insight"), Some(map[]))
  ]

  /** As written, the repeated insight is stored a second time: three entries, not two. */
  method DuplicatesAreKept() returns (contents: seq<string>)
    ensures contents == ["Unique insight 1", "Unique insight 2", "Unique insight 1"]
  {
    var playbook := new Playbook();
    var curator := new Curator();
    curator.Curate(playbook, DuplicateBatch);
    contents := Contents(playbook.entries);
    assert |contents| == 3;
    assert contents[0] == ContentOf(DuplicateBatch[0]) && contents[1] == ContentOf(DuplicateBatch[1]);
    assert contents[2] == ContentOf(DuplicateBatch[2]);
  }

  /** As written, the empty insight is stored: two entries, the first one empty. */
  method EmptyContentIsKept() returns (contents: seq<string>)
    ensures contents == ["", "A valid insight"]
  {
    var playbook := new Playbook();
    var curator := new Curator();
    curator.Curate(playbook, EmptyContentBatch);
    contents := Contents(playbook.entries);
    assert |contents| == 2;
    assert contents[0] == ContentOf(EmptyContentBatch[0]) && contents[1] == ContentOf(EmptyContentBatch[1]);
  }

  /** Deduplicated, the same batch yields the two distinct insights in order. */
  method DuplicatesAreDropped() returns (contents: seq<string>)
    ensures contents == ["Unique insight 1", "Unique insight 2"]
  {
    var playbook := new Playbook();
    var curator := new Curator();
    curator.CurateDeduplicated(playbook, DuplicateBatch);
    contents := Contents(playbook.entries);
    var b := DuplicateBatch;
    assert Contents([]) == [];
    assert b[..2][..1] == b[..1] && b[..1][..0] == [];
    assert Admitted([], b[..1]) == [b[0]];
    assert "Unique insight 2"[15] != "Unique insight 1"[15];
    assert Admitted([], b[..2]) == [b[0], b[1]];
    assert b[..2] == b[..|b| - 1];
    assert Admitted([], b) == [b[0], b[1]];
    assert |contents| == 2;
    assert contents[0] == ContentOf(b[0]) && contents[1] == ContentOf(b[1]);
  }

  /** Deduplicated, the empty insight is skipped and only the valid one is stored. */
  method EmptyContentIsDropped() returns (contents: seq<string>)
    ensures contents == ["A valid insight"]
  {
    var playbook := new Playbook();
    var curator := new Curator();
    curator.CurateDeduplicated(playbook, EmptyContentBatch);
    contents := Contents(playbook.entries);
    var b := EmptyContentBatch;
    assert Contents([]) == [];
    assert b[..1][..0] == [];
    assert Admitted([], b[..1]) == [];
    assert b[..1] == b[..|b| - 1];
    assert Admitted([], b) == [b[1]];
    assert |contents| == 1;
    assert Admitted(Contents([]), b)[0] == b[1];
    assert contents[0] == ContentOf(b[1]);
  }
}
