/**
 * The selection step of `extract_keywords`: rank the vectorizer's
 * (term, weight) pairs by descending weight with a stable sort and keep the
 * terms of the first `num_keywords` of them. The vectorizer itself (tokens,
 * stop words, TF-IDF weights) is a library; its output is the input here.
 */
module KeywordExtraction {
  import opened StableSort
  import opened Text

  /** One column of the vectorizer output: a vocabulary term and its weight. */
  datatype WeightedTerm = WeightedTerm(term: string, weight: int)

  /** The default of the `num_keywords` parameter. */
  const DefaultNumKeywords: nat := 10

  function Weight(t: WeightedTerm): real { t.weight as real }

  function Terms(ts: seq<WeightedTerm>): (r: seq<string>)
    ensures |r| == |ts| && forall i :: 0 <= i < |ts| ==> r[i] == ts[i].term
  {
    if ts == [] then [] else [ts[0].term] + Terms(ts[1..])
  }

  /** No two entries share a term (the vectorizer's vocabulary has this shape). */
  predicate DistinctTerms(ts: seq<WeightedTerm>) {
    forall i, j :: 0 <= i < j < |ts| ==> ts[i].term != ts[j].term
  }

  /** The pairs `extract_keywords` keeps: the first `n` of the weight-sorted vectorizer output. */
  function Selected(features: seq<WeightedTerm>, n: nat): seq<WeightedTerm> {
    Prefix(Sort(features, Weight), n)
  }

  /** `extract_keywords(jd_text, num_keywords)`, given the vectorizer output for `jd_text`. */
  function ExtractKeywords(features: seq<WeightedTerm>, numKeywords: nat): (words: seq<string>)
    ensures |words| == if numKeywords < |features| then numKeywords else |features|
  {
    Terms(Selected(features, numKeywords))
  }

  /** Every returned word is a term of some feature. */
  lemma KeywordsAreFeatures(features: seq<WeightedTerm>, n: nat, i: nat)
    requires i < |ExtractKeywords(features, n)|
    ensures exists f :: f in features && f.term == ExtractKeywords(features, n)[i]
  {
    var ranked := Sort(features, Weight);
    assert ExtractKeywords(features, n)[i] == ranked[i].term;
    assert ranked[i] in multiset(ranked);
  }

  /** The weights of the selected pairs never increase, so the words come in descending weight. */
  lemma KeywordsDescending(features: seq<WeightedTerm>, n: nat)
    ensures |Selected(features, n)| == |ExtractKeywords(features, n)|
    ensures forall i :: 0 <= i < |Selected(features, n)| ==> Selected(features, n)[i].term == ExtractKeywords(features, n)[i]
    ensures forall i, j :: 0 <= i < j < |Selected(features, n)| ==> Selected(features, n)[i].weight >= Selected(features, n)[j].weight
  {
    var ranked := Sort(features, Weight);
    forall i, j | 0 <= i < j < |Selected(features, n)|
      ensures Selected(features, n)[i].weight >= Selected(features, n)[j].weight
    {
      assert Weight(ranked[i]) >= Weight(ranked[j]);
    }
  }

  /** A feature that is not selected weighs no more than any selected one. */
  lemma UnselectedWeighLess(features: seq<WeightedTerm>, n: nat, f: WeightedTerm, i: nat)
    requires f in features && f !in Selected(features, n)
    requires i < |Selected(features, n)|
    ensures f.weight <= Selected(features, n)[i].weight
  {
    var ranked := Sort(features, Weight);
    assert f in multiset(features);
    assert f in multiset(ranked);
    var k :| 0 <= k < |ranked| && ranked[k] == f;
    assert k >= |Selected(features, n)|;
    assert Weight(ranked[i]) >= Weight(ranked[k]);
  }

  /** Among equal weights the selection keeps the order of the feature array, and takes the earliest ones. */
  lemma KeywordsStable(features: seq<WeightedTerm>, n: nat, w: int)
    ensures WithKey(Selected(features, n), Weight, w as real) <= WithKey(features, Weight, w as real)
  {
    var ranked := Sort(features, Weight);
    SortStable(features, Weight, w as real);
    WithKeyOfPrefix(ranked, |Selected(features, n)|, Weight, w as real);
  }

  lemma {:induction false} InsertDistinct(x: WeightedTerm, t: seq<WeightedTerm>)
    requires DistinctTerms(t)
    requires forall k :: 0 <= k < |t| ==> t[k].term != x.term
    ensures DistinctTerms(Insert(x, t, Weight))
    decreases |t|
  {
    if t != [] && Weight(t[0]) > Weight(x) {
      var rest := Insert(x, t[1..], Weight);
      InsertDistinct(x, t[1..]);
      forall k | 0 <= k < |rest| ensures rest[k].term != t[0].term {
        InsertMember(x, t[1..], Weight, rest[k]);
      }
      assert Insert(x, t, Weight) == [t[0]] + rest;
    }
  }

  lemma {:induction false} SortDistinct(s: seq<WeightedTerm>)
    requires DistinctTerms(s)
    ensures DistinctTerms(Sort(s, Weight))
    decreases |s|
  {
    if s != [] {
      var rest := Sort(s[1..], Weight);
      SortDistinct(s[1..]);
      forall k | 0 <= k < |rest| ensures rest[k].term != s[0].term {
        assert rest[k] in multiset(rest);
        assert rest[k] in multiset(s[1..]);
      }
      InsertDistinct(s[0], rest);
    }
  }

  /** Distinct features give distinct keywords. */
  lemma KeywordsDistinct(features: seq<WeightedTerm>, n: nat)
    requires DistinctTerms(features)
    ensures forall i, j :: 0 <= i < j < |ExtractKeywords(features, n)| ==>
      ExtractKeywords(features, n)[i] != ExtractKeywords(features, n)[j]
  {
    SortDistinct(features);
  }
}
