/**
 * The self-healing pass: every stored entry is shown to the language model,
 * and an entry whose answer differs from its content is rewritten in place
 * under the same id with the answer, its embedding and a self-healing tag.
 */
module Healing {
  import opened Types
  import opened Database
  import Similarity

  const ReviewHead := "Review the following playbook entry and determine if it is still accurate and relevant. If it is not, provide a corrected version. If it is correct, respond with the original content.\n\nEntry: "
  const ReviewTail := "\n\nCorrected Entry:"

  /** The metadata a corrected entry gets, replacing what it had. */
  const SelfHealingMetadata: Metadata := map["source" := "self-healing"]

  /** The review prompt for an entry's content. */
  function ReviewPrompt(content: string): string {
    ReviewHead + content + ReviewTail
  }

  /** The content sits between the fixed head and tail. */
  lemma ReviewPromptShape(content: string)
    ensures var p := ReviewPrompt(content);
            |p| == |ReviewHead| + |content| + |ReviewTail| &&
            p[..|ReviewHead|] == ReviewHead &&
            p[|ReviewHead|..|ReviewHead| + |content|] == content &&
            p[|ReviewHead| + |content|..] == ReviewTail
  {
    var p := ReviewPrompt(content);
    assert p[..|ReviewHead|] == ReviewHead;
    assert p[|ReviewHead|..|ReviewHead| + |content|] == content;
  }

  /** Different contents give different prompts, so the model sees which entry it reviews. */
  lemma ReviewPromptInjective(a: string, b: string)
    requires ReviewPrompt(a) == ReviewPrompt(b)
    ensures a == b
  {
    ReviewPromptShape(a);
    ReviewPromptShape(b);
  }

  /** The model's answer to the review of each content. */
  type Answer = string -> string

  /** Asking the model with the review prompt. */
  function Answers(generate: Generate): Answer {
    content => generate(ReviewPrompt(content))
  }

  /** The model's answer for a row. */
  function Correction(row: Row, answer: Answer): string {
    answer(row.content)
  }

  /** A row after its review: unchanged when the answer echoes it, else rewritten. */
  ghost function Healed(row: Row, answer: Answer, embed: Similarity.Embedder): Row {
    var c := Correction(row, answer);
    if c == row.content then row
    else row.(content := c, metadata := SelfHealingMetadata, embedding := Some(embed(c)))
  }

  /** A reviewed row keeps its id and cluster; it either is untouched or holds the answer, its embedding and the tag. */
  lemma HealedRow(row: Row, answer: Answer, embed: Similarity.Embedder)
    ensures var h := Healed(row, answer, embed);
            var c := Correction(row, answer);
            h.id == row.id && h.clusterId == row.clusterId &&
            (c == row.content <==> h == row) &&
            (c != row.content ==>
               h.content == c && h.metadata == SelfHealingMetadata && h.embedding == Some(embed(c)))
  {
  }

  /** The table after the first `i` rows (in table order) have been reviewed. */
  ghost function HealedPrefix(rows: seq<Row>, i: nat, answer: Answer, embed: Similarity.Embedder): seq<Row>
  {
    seq(|rows|, j requires 0 <= j < |rows| => if j < i then Healed(rows[j], answer, embed) else rows[j])
  }

  /** Row `i`'s correction collides with another row's content in the table as it is when row `i` is reviewed. */
  ghost predicate Rejected(rows: seq<Row>, i: nat, answer: Answer, embed: Similarity.Embedder)
    requires i < |rows|
  {
    var c := Correction(rows[i], answer);
    c != rows[i].content && ContentClash(HealedPrefix(rows, i, answer, embed), rows[i].id, c)
  }

  /** Reviewing row `i` when its correction is accepted is one upsert by its id. */
  lemma HealStep(rows: seq<Row>, i: nat, answer: Answer, embed: Similarity.Embedder)
    requires UniqueKeys(rows) && i < |rows|
    requires Correction(rows[i], answer) != rows[i].content
    ensures var c := Correction(rows[i], answer);
            Upserted(HealedPrefix(rows, i, answer, embed), rows[i].id, c, SelfHealingMetadata, Some(embed(c)))
              == HealedPrefix(rows, i + 1, answer, embed)
  {
    var before := HealedPrefix(rows, i, answer, embed);
    assert before[i].id == rows[i].id;
  }

  lemma SameUniqueKeys(a: seq<Row>, b: seq<Row>)
    requires UniqueKeys(a) && a == b
    ensures UniqueKeys(b)
  {
  }

  /** Accepted corrections keep ids and contents unique. */
  lemma {:induction false} HealedKeepsUniqueKeys(rows: seq<Row>, i: nat, answer: Answer, embed: Similarity.Embedder)
    requires UniqueKeys(rows) && i <= |rows|
    requires forall j :: 0 <= j < i ==> !Rejected(rows, j, answer, embed)
    ensures UniqueKeys(HealedPrefix(rows, i, answer, embed))
  {
    if i > 0 {
      HealedKeepsUniqueKeys(rows, i - 1, answer, embed);
      var before := HealedPrefix(rows, i - 1, answer, embed);
      var after := HealedPrefix(rows, i, answer, embed);
      var c := Correction(rows[i - 1], answer);
      if c == rows[i - 1].content {
        assert after == before;
      } else {
        assert !ContentClash(before, rows[i - 1].id, c) by {
          assert !Rejected(rows, i - 1, answer, embed);
        }
        UpsertWritesOneRow(before, rows[i - 1].id, c, SelfHealingMetadata, Some(embed(c)));
        HealStep(rows, i - 1, answer, embed);
        SameUniqueKeys(Upserted(before, rows[i - 1].id, c, SelfHealingMetadata, Some(embed(c))), after);
      }
    } else {
      assert HealedPrefix(rows, 0, answer, embed) == rows;
    }
  }

  /** When the model echoes every entry, the pass rejects nothing and changes nothing. */
  lemma EchoChangesNothing(rows: seq<Row>, answer: Answer, embed: Similarity.Embedder)
    requires forall j :: 0 <= j < |rows| ==> Correction(rows[j], answer) == rows[j].content
    ensures HealedPrefix(rows, |rows|, answer, embed) == rows
    ensures forall j :: 0 <= j < |rows| ==> !Rejected(rows, j, answer, embed)
  {
    forall j | 0 <= j < |rows| ensures HealedPrefix(rows, |rows|, answer, embed)[j] == rows[j] {
      assert Correction(rows[j], answer) == rows[j].content;
    }
  }

  class SelfHealing {
    const generate: Generate
    const store: Store
    const similarity: Similarity.SimilarityService

    constructor (generate: Generate, store: Store, similarity: Similarity.SimilarityService)
      ensures this.generate == generate && this.store == store && this.similarity == similarity
    {
      this.generate := generate;
      this.store := store;
      this.similarity := similarity;
    }

    /**
     * `analyze_and_correct`: reviews the snapshot of all entries in order.  A
     * correction that collides with another entry's content stops the pass with
     * the store's error; `failedAt` is then the position of that entry.
     */
    method AnalyzeAndCorrect() returns (r: Outcome<StoreError>, ghost failedAt: nat)
      requires store.Valid()
      modifies store
      ensures store.Valid() && store.clusters == old(store.clusters)
      ensures |store.entries| == |old(store.entries)|
      ensures r.Ok? ==>
                (forall j :: 0 <= j < |old(store.entries)| ==> !Rejected(old(store.entries), j, Answers(generate), similarity.embed)) &&
                store.entries == HealedPrefix(old(store.entries), |old(store.entries)|, Answers(generate), similarity.embed)
      ensures r.Err? ==>
                failedAt < |old(store.entries)| &&
                (forall j :: 0 <= j < failedAt ==> !Rejected(old(store.entries), j, Answers(generate), similarity.embed)) &&
                Rejected(old(store.entries), failedAt, Answers(generate), similarity.embed) &&
                r.error == UniqueViolation(Correction(old(store.entries)[failedAt], Answers(generate))) &&
                store.entries == HealedPrefix(old(store.entries), failedAt, Answers(generate), similarity.embed)
    {
      ghost var rows := store.entries;
      ghost var answer := Answers(generate);
      var snapshot := store.GetAllPlaybookEntries();
      failedAt := 0;
      assert HealedPrefix(rows, 0, answer, similarity.embed) == rows;
      var i := 0;
      while i < |snapshot|
        invariant 0 <= i <= |snapshot| == |rows|
        invariant store.Valid() && store.clusters == old(store.clusters)
        invariant store.entries == HealedPrefix(rows, i, answer, similarity.embed)
        invariant forall j :: 0 <= j < i ==> !Rejected(rows, j, answer, similarity.embed)
      {
        var entry := snapshot[i];
        var corrected := generate(ReviewPrompt(entry.content));
        assert corrected == Correction(rows[i], answer);
        if corrected != entry.content {
          var embedding := similarity.GetEmbedding(corrected);
          HealStep(rows, i, answer, similarity.embed);
          r := store.AddOrUpdatePlaybookEntry(entry.id, corrected, SelfHealingMetadata, Some(embedding));
          if r.Err? {
            return r, i;
          }
        } else {
          assert HealedPrefix(rows, i + 1, answer, similarity.embed) == HealedPrefix(rows, i, answer, similarity.embed);
        }
        i := i + 1;
      }
      r := Ok;
    }
  }

  /** One entry "Old content", a model answering "New content": the entry keeps its id and is rewritten and tagged. */
  method CorrectsOutdatedEntry() returns (entries: seq<Row>)
    ensures |entries| == 1
    ensures entries[0].id == "old-entry"
    ensures entries[0].content == "New content"
    ensures "source" in entries[0].metadata && entries[0].metadata["source"] == "self-healing"
  {
    var store := new Store();
    var _ := store.AddOrUpdatePlaybookEntry("old-entry", "Old content", map[], None);
    var embed: Similarity.Embedder := text => [|text| as real];
    var cosine: Similarity.Score := (x, y) => 0.0;
    var similarity := new Similarity.SimilarityService(map[], embed, cosine);
    var healing := new SelfHealing(_ => "New content", store, similarity);
    assert "New content"[0] != "Old content"[0];
    var _, _ := healing.AnalyzeAndCorrect();
    entries := store.entries;
  }
}
