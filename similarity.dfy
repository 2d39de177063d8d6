/**
 * The similarity decision of `SimilarityService` and the module-level
 * singleton that hands out the service.  The embedding model and the cosine
 * score are external numerics: the service carries them as functions it was
 * built with, and nothing is assumed about them.
 */
module Similarity {
  import opened Types

  /** The configuration dictionary: section name to key to number. */
  type Config = map<string, map<string, real>>

  /** A similarity score between a candidate and a stored embedding. */
  type Score = (Embedding, Embedding) -> real

  /** The sentence-embedding model: text to embedding vector. */
  type Embedder = string -> Embedding

  const DefaultThreshold: real := 0.95

  /** `config.get('similarity', {}).get('threshold', 0.95)`. */
  function ThresholdOf(config: Config): (t: real)
    ensures "similarity" in config && "threshold" in config["similarity"] ==>
              t == config["similarity"]["threshold"]
    ensures !("similarity" in config && "threshold" in config["similarity"]) ==>
              t == DefaultThreshold
  {
    var section := if "similarity" in config then config["similarity"] else map[];
    if "threshold" in section then section["threshold"] else DefaultThreshold
  }

  /** `np.any(similarities > threshold)` over the vector of scores. */
  function AnyAbove(score: Score, threshold: real, x: Embedding, existing: seq<Embedding>): (r: bool)
    ensures r <==> exists i :: 0 <= i < |existing| && score(x, existing[i]) > threshold
  {
    if existing == [] then false
    else
      var rest := AnyAbove(score, threshold, x, existing[1..]);
      assert rest <==> exists i :: 1 <= i < |existing| && score(x, existing[i]) > threshold by {
        forall i | 1 <= i < |existing| ensures existing[1..][i - 1] == existing[i] { }
      }
      score(x, existing[0]) > threshold || rest
  }

  class SimilarityService {
    const config: Config
    /** The sentence-embedding model chosen by the configuration. */
    const embed: Embedder
    /** Cosine similarity, as computed by the numerics library. */
    const cosine: Score

    constructor (config: Config, embed: Embedder, cosine: Score)
      ensures this.config == config && this.embed == embed && this.cosine == cosine
    {
      this.config := config;
      this.embed := embed;
      this.cosine := cosine;
    }

    function GetEmbedding(text: string): Embedding {
      embed(text)
    }

    /**
     * Never similar to an empty list; otherwise similar exactly when some
     * stored embedding scores strictly above the configured threshold.
     */
    function IsSimilar(x: Embedding, existing: seq<Embedding>): (r: bool)
      ensures existing == [] ==> !r
      ensures r <==> exists e :: e in existing && cosine(x, e) > ThresholdOf(config)
    {
      if existing == [] then false
      else AnyAbove(cosine, ThresholdOf(config), x, existing)
    }
  }

  /** Comparing against two lists is comparing against each. */
  lemma IsSimilarSplit(s: SimilarityService, x: Embedding, a: seq<Embedding>, b: seq<Embedding>)
    ensures s.IsSimilar(x, a + b) == (s.IsSimilar(x, a) || s.IsSimilar(x, b))
  {
    var t := ThresholdOf(s.config);
    if s.IsSimilar(x, a + b) {
      var e :| e in a + b && s.cosine(x, e) > t;
      assert e in a || e in b;
    }
  }

  /** The decision does not depend on the order of the stored list. */
  lemma IsSimilarIgnoresOrder(s: SimilarityService, x: Embedding, a: seq<Embedding>, b: seq<Embedding>)
    requires multiset(a) == multiset(b)
    ensures s.IsSimilar(x, a) == s.IsSimilar(x, b)
  {
    forall e ensures e in a <==> e in b {
      assert e in a <==> e in multiset(a);
      assert e in b <==> e in multiset(b);
    }
  }

  /** A score equal to the threshold is not similar: the comparison is strict. */
  lemma ThresholdIsExclusive(s: SimilarityService, x: Embedding, e: Embedding)
    requires s.cosine(x, e) == ThresholdOf(s.config)
    ensures !s.IsSimilar(x, [e])
  {
  }

  /** The module-level `similarity_service` global. */
  class SimilarityRegistry {
    var instance: SimilarityService?

    constructor ()
      ensures instance == null
    {
      instance := null;
    }

    /** The first call creates the service; every later call returns it and ignores its arguments. */
    method GetSimilarityService(config: Config, embed: Embedder, cosine: Score)
      returns (s: SimilarityService)
      modifies this
      ensures old(instance) != null ==> s == old(instance)
      ensures old(instance) == null ==>
                fresh(s) && s.config == config && s.embed == embed && s.cosine == cosine
      ensures instance == s
    {
      if instance == null {
        instance := new SimilarityService(config, embed, cosine);
      }
      s := instance;
    }
  }

  /** Two services requested with different configurations: the second uses the first one's threshold. */
  method LaterConfigIgnored(first: Config, later: Config, embed: Embedder, cosine: Score,
                            x: Embedding, existing: seq<Embedding>)
    returns (similar: bool)
    ensures similar <==> exists e :: e in existing && cosine(x, e) > ThresholdOf(first)
  {
    var registry := new SimilarityRegistry();
    var _ := registry.GetSimilarityService(first, embed, cosine);
    var s := registry.GetSimilarityService(later, embed, cosine);
    similar := s.IsSimilar(x, existing);
  }
}
