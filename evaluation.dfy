/**
  `eval_retriever`: the share of example questions for which the top three
  results of an unfiltered search name at least one expected source.
 */
module Evaluation {
  import opened Optional
  import opened Retrieval

  /** One example: a question and the titles that count as a hit. */
  datatype Example = Example(query: string, expected: seq<string>)

  /** The titles of a result list, in rank order. */
  function Retrieved(results: seq<Hit>): (t: seq<string>)
    ensures |t| == |results|
  {
    seq(|results|, j requires 0 <= j < |results| => results[j].title)
  }

  /** `any(src in retrieved for src in expected_sources)`. */
  predicate IsHit(expected: seq<string>, results: seq<Hit>) {
    exists e :: e in expected && e in Retrieved(results)
  }

  /** `outcomes[i]` is what `search(examples[i].query, top_k=3)` returns,
      `pickeds[i]` the documents behind it. */
  ghost predicate Outcomes(r: Retriever, examples: seq<Example>, outcomes: seq<seq<Hit>>, pickeds: seq<seq<int>>)
    requires Valid(r)
  {
    && |outcomes| == |pickeds| == |examples|
    && forall i :: 0 <= i < |examples| ==> SearchSpec(r, examples[i].query, 3, None, outcomes[i], pickeds[i])
  }

  /** How many examples were hits. */
  function Hits(examples: seq<Example>, outcomes: seq<seq<Hit>>): (h: nat)
    requires |outcomes| == |examples|
    ensures h <= |examples|
  {
    if examples == [] then 0
    else
      var n := |examples| - 1;
      Hits(examples[..n], outcomes[..n]) + (if IsHit(examples[n].expected, outcomes[n]) then 1 else 0)
  }

  /** `hits / len(example_queries) if example_queries else 0.0`. */
  function Rate(examples: seq<Example>, outcomes: seq<seq<Hit>>): real
    requires |outcomes| == |examples|
  {
    if examples == [] then 0.0 else Hits(examples, outcomes) as real / |examples| as real
  }

  /** `eval_retriever(example_queries)`. */
  method EvalRetriever(r: Retriever, examples: seq<Example>) returns (rate: real, ghost outcomes: seq<seq<Hit>>, ghost pickeds: seq<seq<int>>)
    requires Valid(r)
    ensures Outcomes(r, examples, outcomes, pickeds)
    ensures rate == Rate(examples, outcomes) && 0.0 <= rate <= 1.0
  {
    var hits := 0;
    outcomes := [];
    pickeds := [];
    for i := 0 to |examples|
      invariant Outcomes(r, examples[..i], outcomes, pickeds)
      invariant hits == Hits(examples[..i], outcomes)
    {
      var results := Search(r, examples[i].query, 3, None);
      ghost var picked :| SearchSpec(r, examples[i].query, 3, None, results, picked);
      HitsStep(examples, outcomes, i, results);
      OutcomesStep(r, examples, outcomes, pickeds, i, results, picked);
      if IsHit(examples[i].expected, results) {
        hits := hits + 1;
      }
      outcomes := outcomes + [results];
      pickeds := pickeds + [picked];
    }
    assert examples[..|examples|] == examples;
    rate := if |examples| > 0 then hits as real / |examples| as real else 0.0;
    RateBounds(examples, outcomes);
  }

  /** One more example adds one to the counter exactly when it is a hit. */
  lemma HitsStep(examples: seq<Example>, outcomes: seq<seq<Hit>>, i: nat, results: seq<Hit>)
    requires i < |examples| && |outcomes| == i
    ensures Hits(examples[..i + 1], outcomes + [results])
         == Hits(examples[..i], outcomes) + (if IsHit(examples[i].expected, results) then 1 else 0)
  {
    assert examples[..i + 1][..i] == examples[..i];
    assert (outcomes + [results])[..i] == outcomes;
  }

  /** One more search result extends the outcomes by one. */
  lemma OutcomesStep(r: Retriever, examples: seq<Example>, outcomes: seq<seq<Hit>>, pickeds: seq<seq<int>>,
                     i: nat, results: seq<Hit>, picked: seq<int>)
    requires Valid(r) && i < |examples| && Outcomes(r, examples[..i], outcomes, pickeds)
    requires SearchSpec(r, examples[i].query, 3, None, results, picked)
    ensures Outcomes(r, examples[..i + 1], outcomes + [results], pickeds + [picked])
  {
    var ex, os, ps := examples[..i + 1], outcomes + [results], pickeds + [picked];
    forall m | 0 <= m < |ex| ensures SearchSpec(r, ex[m].query, 3, None, os[m], ps[m]) {
      if m < i {
        assert ex[m] == examples[..i][m] && os[m] == outcomes[m] && ps[m] == pickeds[m];
      } else {
        assert ex[m] == examples[i] && os[m] == results && ps[m] == picked;
      }
    }
  }

  /** The hit rate is a proportion: 0 for no examples, in [0, 1] always, 1
      exactly when every example was a hit and 0 exactly when none was. */
  lemma RateBounds(examples: seq<Example>, outcomes: seq<seq<Hit>>)
    requires |outcomes| == |examples|
    ensures 0.0 <= Rate(examples, outcomes) <= 1.0
    ensures examples == [] ==> Rate(examples, outcomes) == 0.0
    ensures examples != [] ==>
      (Rate(examples, outcomes) == 1.0 <==> forall i :: 0 <= i < |examples| ==> IsHit(examples[i].expected, outcomes[i]))
    ensures Rate(examples, outcomes) == 0.0 <==> forall i :: 0 <= i < |examples| ==> !IsHit(examples[i].expected, outcomes[i])
  {
    AllHits(examples, outcomes);
    NoHits(examples, outcomes);
    if examples != [] {
      Proportion(Hits(examples, outcomes), |examples|);
    }
  }

  /** `h / n` for `0 <= h <= n` lies in [0, 1], is 1 only for `h == n` and 0 only for `h == 0`. */
  lemma Proportion(h: nat, n: nat)
    requires 0 < n && h <= n
    ensures 0.0 <= h as real / n as real <= 1.0
    ensures h as real / n as real == 1.0 <==> h == n
    ensures h as real / n as real == 0.0 <==> h == 0
  {
    var q := h as real / n as real;
    assert q * n as real == h as real;
  }

  lemma {:induction false} AllHits(examples: seq<Example>, outcomes: seq<seq<Hit>>)
    requires |outcomes| == |examples|
    ensures Hits(examples, outcomes) == |examples| <==>
      forall i :: 0 <= i < |examples| ==> IsHit(examples[i].expected, outcomes[i])
  {
    if examples != [] {
      var n := |examples| - 1;
      AllHits(examples[..n], outcomes[..n]);
    }
  }

  lemma {:induction false} NoHits(examples: seq<Example>, outcomes: seq<seq<Hit>>)
    requires |outcomes| == |examples|
    ensures Hits(examples, outcomes) == 0 <==>
      forall i :: 0 <= i < |examples| ==> !IsHit(examples[i].expected, outcomes[i])
  {
    if examples != [] {
      var n := |examples| - 1;
      NoHits(examples[..n], outcomes[..n]);
    }
  }
}
