/**
 * Cluster summaries: the prompt `SummarizationService.summarize_cluster`
 * builds from a group's texts, the single call to the language model, and
 * the module-level singleton that hands out the service.
 */
module Summarization {
  import opened Types

  const Header: string := "Summarize the following insights into a single, coherent concept:\n\n"

  /** `f"- {text}"` for each text, in order. */
  function Bullets(texts: seq<string>): (items: seq<string>)
    ensures |items| == |texts|
    ensures forall i :: 0 <= i < |texts| ==> items[i] == "- " + texts[i]
  {
    seq(|texts|, i requires 0 <= i < |texts| => "- " + texts[i])
  }

  /** `"\n".join(items)`. */
  function JoinLines(items: seq<string>): string
    decreases |items|
  {
    if |items| == 0 then ""
    else if |items| == 1 then items[0]
    else items[0] + "\n" + JoinLines(items[1..])
  }

  /** The prompt sent to the language model for one cluster. */
  function Prompt(texts: seq<string>): (p: string)
    ensures texts == [] ==> p == Header
  {
    Header + JoinLines(Bullets(texts))
  }

  /** The prompt does not escape newlines: two different text lists can give the same prompt. */
  lemma DistinctTextsSamePrompt()
    ensures ["a\n- b"] != ["a", "b"] && Prompt(["a\n- b"]) == Prompt(["a", "b"])
  {
    var two := Bullets(["a", "b"]);
    var one := Bullets(["a\n- b"]);
    assert two[0] == "- " + "a" == "- a";
    assert two[1] == "- " + "b" == "- b";
    assert JoinLines(two[1..]) == "- b";
    assert one[0] == "- " + "a\n- b" == "- a\n- b";
    assert JoinLines(one) == "- a" + "\n" + "- b";
  }

  /** Every prompt starts with the fixed header. */
  lemma PromptStartsWithHeader(texts: seq<string>)
    ensures Header <= Prompt(texts)
  {
  }

  /** Where the bullet of `texts[i]` starts inside the bullet block. */
  function BlockOffset(texts: seq<string>, i: nat): nat
    requires i < |texts|
  {
    if i == 0 then 0 else |texts[0]| + 3 + BlockOffset(texts[1..], i - 1)
  }

  /** Where the bullet of `texts[i]` starts inside the prompt. */
  function ItemOffset(texts: seq<string>, i: nat): nat
    requires i < |texts|
  {
    |Header| + BlockOffset(texts, i)
  }

  lemma BulletsTail(texts: seq<string>)
    requires |texts| > 0
    ensures Bullets(texts)[1..] == Bullets(texts[1..])
  {
  }

  /** The bullet block holds `"- " + texts[i]` at `BlockOffset(texts, i)`, and a newline right after it unless it is the last. */
  lemma {:induction false} BlockHoldsItem(texts: seq<string>, i: nat)
    requires i < |texts|
    ensures var b := JoinLines(Bullets(texts));
            var o := BlockOffset(texts, i);
            o + 2 + |texts[i]| <= |b| &&
            b[o .. o + 2 + |texts[i]|] == "- " + texts[i] &&
            (i + 1 < |texts| ==> o + 2 + |texts[i]| < |b| && b[o + 2 + |texts[i]|] == '\n')
  {
    var items := Bullets(texts);
    var b := JoinLines(items);
    if |texts| == 1 {
      assert b == "- " + texts[0];
    } else {
      BulletsTail(texts);
      var head := items[0] + "\n";
      var rest := JoinLines(Bullets(texts[1..]));
      assert b == head + rest;
      assert |head| == |texts[0]| + 3;
      if i == 0 {
        assert b[0 .. 2 + |texts[0]|] == "- " + texts[0] by {
          assert b[0 .. 2 + |texts[0]|] == head[0 .. 2 + |texts[0]|];
        }
        assert b[2 + |texts[0]|] == head[2 + |texts[0]|];
      } else {
        BlockHoldsItem(texts[1..], i - 1);
        var o' := BlockOffset(texts[1..], i - 1);
        var n := 2 + |texts[i]|;
        assert texts[1..][i - 1] == texts[i];
        assert BlockOffset(texts, i) == |head| + o';
        AppendRight(head, rest, o', o' + n);
      }
    }
  }

  /** A stretch of the right operand of `h + r`, seen through the concatenation. */
  lemma AppendRight<T>(h: seq<T>, r: seq<T>, lo: nat, hi: nat)
    requires lo <= hi <= |r|
    ensures (h + r)[|h| + lo .. |h| + hi] == r[lo .. hi]
    ensures hi < |r| ==> (h + r)[|h| + hi] == r[hi]
  {
  }

  /**
   * Every text appears in the prompt as its own bullet, in input order,
   * each bullet followed by a newline except the last.
   */
  lemma PromptListsTexts(texts: seq<string>, i: nat)
    requires i < |texts|
    ensures var p := Prompt(texts);
            var o := ItemOffset(texts, i);
            o + 2 + |texts[i]| <= |p| &&
            p[o .. o + 2 + |texts[i]|] == "- " + texts[i] &&
            (i + 1 < |texts| ==>
               ItemOffset(texts, i + 1) == o + 3 + |texts[i]| &&
               o + 2 + |texts[i]| < |p| && p[o + 2 + |texts[i]|] == '\n')
  {
    var b := JoinLines(Bullets(texts));
    var o := BlockOffset(texts, i);
    BlockHoldsItem(texts, i);
    assert Prompt(texts) == Header + b;
    assert Prompt(texts)[|Header| + o .. |Header| + o + 2 + |texts[i]|] == b[o .. o + 2 + |texts[i]|];
    if i + 1 < |texts| {
      BlockOffsetStep(texts, i);
      assert Prompt(texts)[|Header| + o + 2 + |texts[i]|] == b[o + 2 + |texts[i]|];
    }
  }

  lemma {:induction false} BlockOffsetStep(texts: seq<string>, i: nat)
    requires i + 1 < |texts|
    ensures BlockOffset(texts, i + 1) == BlockOffset(texts, i) + |texts[i]| + 3
  {
    if i > 0 {
      BlockOffsetStep(texts[1..], i - 1);
      assert texts[1..][i - 1] == texts[i];
    }
  }

  /** Adding one more text appends exactly one more line to the prompt. */
  lemma {:induction false} PromptAppend(texts: seq<string>, t: string)
    ensures Prompt(texts + [t]) == if texts == [] then Header + "- " + t else Prompt(texts) + "\n- " + t
    decreases |texts|
  {
    if texts == [] {
      assert texts + [t] == [t];
    } else {
      JoinAppend(Bullets(texts), "- " + t);
      assert Bullets(texts + [t]) == Bullets(texts) + ["- " + t];
    }
  }

  lemma {:induction false} JoinAppend(items: seq<string>, s: string)
    requires items != []
    ensures JoinLines(items + [s]) == JoinLines(items) + "\n" + s
    decreases |items|
  {
    if |items| == 1 {
      assert items + [s] == [items[0], s];
      assert (items + [s])[1..] == [s];
    } else {
      assert (items + [s])[1..] == items[1..] + [s];
      JoinAppend(items[1..], s);
    }
  }

  class SummarizationService {
    /** The language model's `generate`. */
    const generate: Generate

    constructor (generate: Generate)
      ensures this.generate == generate
    {
      this.generate := generate;
    }

    /** The model is asked once, with the prompt built from `texts`, and its answer is returned unchanged. */
    method SummarizeCluster(texts: seq<string>) returns (summary: string)
      ensures summary == generate(Prompt(texts))
    {
      var prompt := Prompt(texts);
      summary := generate(prompt);
    }
  }

  /** The module-level `_summarization_service` global. */
  class SummarizationRegistry {
    var instance: SummarizationService?

    constructor ()
      ensures instance == null
    {
      instance := null;
    }

    /** The first call creates the service; every later call returns it and ignores `llm`. */
    method GetSummarizationService(llm: Generate) returns (s: SummarizationService)
      modifies this
      ensures old(instance) != null ==> s == old(instance)
      ensures old(instance) == null ==> fresh(s) && s.generate == llm
      ensures instance == s
    {
      if instance == null {
        instance := new SummarizationService(llm);
      }
      s := instance;
    }
  }

  /** A second request with another model still summarizes with the first model. */
  method LaterModelIgnored(first: Generate, later: Generate, texts: seq<string>) returns (summary: string)
    ensures summary == first(Prompt(texts))
  {
    var registry := new SummarizationRegistry();
    var _ := registry.GetSummarizationService(first);
    var s := registry.GetSummarizationService(later);
    summary := s.SummarizeCluster(texts);
  }
}
