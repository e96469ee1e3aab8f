/**
  `HybridRetriever.search`: ranks the corpus against a query by
  0.7 x (rescaled TF-IDF similarity) + 0.3 x (rescaled keyword overlap),
  optionally restricted to one category, and returns the best `top_k`.

  The fitted TF-IDF model is a foreign computation; it is the field
  `tfidfOf`, which maps a normalised query to one similarity per document.
 */
module Retrieval {
  import opened Optional
  import opened Text

  /** A hybrid score, or the `-np.inf` that marks a document the filter removed. */
  datatype Score = NegInf | Finite(value: real)

  /** `a >= b` on scores; `NegInf` is below every finite score. */
  predicate AtLeast(a: Score, b: Score) {
    b.NegInf? || (a.Finite? && a.value >= b.value)
  }

  /** One result tuple `(title, doc, hybrid score, tfidf score)`. */
  datatype Hit = Hit(title: string, content: string, hybrid: real, tfidf: real)

  /** The retriever's three index-aligned lists and its fitted TF-IDF model. */
  datatype Retriever = Retriever(
    documents: seq<string>,
    titles: seq<string>,
    categories: seq<string>,
    tfidfOf: string -> seq<real>)

  /** The lists are aligned and non-empty (fitting TF-IDF on no documents
      fails), and the model yields one non-negative similarity per document. */
  ghost predicate Valid(r: Retriever) {
    && |r.documents| > 0
    && |r.titles| == |r.documents|
    && |r.categories| == |r.documents|
    && (forall q :: |r.tfidfOf(q)| == |r.documents|)
    && (forall q, i :: 0 <= i < |r.tfidfOf(q)| ==> 0.0 <= r.tfidfOf(q)[i])
  }

  // ---------------------------------------------------------------------------
  // Specification of the scores
  // ---------------------------------------------------------------------------

  /** `a.max()`. */
  function Max(s: seq<real>): (m: real)
    requires |s| > 0
    ensures forall i :: 0 <= i < |s| ==> s[i] <= m
    ensures exists i :: 0 <= i < |s| && s[i] == m
  {
    if |s| == 1 then s[0]
    else
      var m := Max(s[..|s| - 1]);
      assert forall i :: 0 <= i < |s| - 1 ==> s[..|s| - 1][i] == s[i];
      if s[|s| - 1] > m then s[|s| - 1] else m
  }

  /** `if a.max() > 0: a /= a.max()`. */
  function Rescale(s: seq<real>): (r: seq<real>)
    requires |s| > 0
    ensures |r| == |s|
  {
    var m := Max(s);
    if m > 0.0 then seq(|s|, i requires 0 <= i < |s| => s[i] / m) else s
  }

  /** On non-negative scores, rescaling lands in [0, 1]. */
  lemma RescaleBounds(s: seq<real>)
    requires |s| > 0
    requires forall i :: 0 <= i < |s| ==> 0.0 <= s[i]
    ensures forall i :: 0 <= i < |s| ==> 0.0 <= Rescale(s)[i] <= 1.0
  {
    var m := Max(s);
    if m > 0.0 {
      forall i | 0 <= i < |s| ensures 0.0 <= Rescale(s)[i] <= 1.0 {
        DivideBelow(s[i], m);
      }
    }
  }

  lemma DivideBelow(x: real, m: real)
    requires 0.0 <= x <= m && m > 0.0
    ensures 0.0 <= x / m <= 1.0
  {
  }

  /** When some score is positive the best score becomes exactly 1; an
      array whose maximum is not positive is left alone. */
  lemma RescaleTop(s: seq<real>)
    requires |s| > 0
    ensures Max(s) > 0.0 ==> exists i :: 0 <= i < |s| && Rescale(s)[i] == 1.0
    ensures Max(s) <= 0.0 ==> Rescale(s) == s
  {
    var m := Max(s);
    if m > 0.0 {
      var k :| 0 <= k < |s| && s[k] == m;
      assert Rescale(s)[k] == s[k] / m;
      assert m / m == 1.0;
      assert Rescale(s)[k] == 1.0;
    }
  }

  /** Rescaling keeps the order of any two scores, so it never changes the ranking. */
  lemma RescaleMonotone(s: seq<real>, i: int, j: int)
    requires |s| > 0 && 0 <= i < |s| && 0 <= j < |s| && s[i] <= s[j]
    ensures Rescale(s)[i] <= Rescale(s)[j]
  {
    var m := Max(s);
    if m > 0.0 {
      DivideMonotone(s[i], s[j], m);
    }
  }

  lemma DivideMonotone(x: real, y: real, m: real)
    requires x <= y && m > 0.0
    ensures x / m <= y / m
  {
  }

  /** The keyword overlap of every document: how many distinct query tokens
      also occur among the document's tokens. */
  function KeywordScores(queryTokens: set<string>, documents: seq<string>): (k: seq<real>)
    ensures |k| == |documents|
  {
    if documents == [] then []
    else
      KeywordScores(queryTokens, documents[..|documents| - 1])
        + [Overlap(queryTokens, documents[|documents| - 1]) as real]
  }

  /** Entry `i` is the overlap of document `i`, so no keyword score is negative. */
  lemma {:induction false} KeywordScoresAt(queryTokens: set<string>, documents: seq<string>, i: int)
    requires 0 <= i < |documents|
    ensures KeywordScores(queryTokens, documents)[i] == Overlap(queryTokens, documents[i]) as real
    ensures KeywordScores(queryTokens, documents)[i] >= 0.0
    decreases |documents|
  {
    var init := documents[..|documents| - 1];
    if i < |init| {
      KeywordScoresAt(queryTokens, init, i);
    }
  }

  /** `len(query_tokens & set(_normalize(doc).split()))`. */
  function Overlap(queryTokens: set<string>, document: string): nat {
    |queryTokens * Tokens(Normalize(document))|
  }

  /** The rescaled TF-IDF similarities of the normalised query. */
  ghost function TfidfScores(r: Retriever, query: string): (t: seq<real>)
    requires Valid(r)
    ensures |t| == |r.documents|
  {
    Rescale(r.tfidfOf(Normalize(query)))
  }

  /** The rescaled keyword overlaps of the normalised query. */
  ghost function OverlapScores(r: Retriever, query: string): (k: seq<real>)
    requires Valid(r)
    ensures |k| == |r.documents|
  {
    Rescale(KeywordScores(Tokens(Normalize(query)), r.documents))
  }

  ghost function HybridScore(r: Retriever, query: string, i: int): real
    requires Valid(r) && 0 <= i < |r.documents|
  {
    0.7 * TfidfScores(r, query)[i] + 0.3 * OverlapScores(r, query)[i]
  }

  /** `if category_filter:` is false for `None` and for `""`; otherwise a
      document survives when its category matches case-insensitively. */
  predicate Eligible(r: Retriever, filter: Option<string>, i: int)
    requires 0 <= i < |r.categories|
  {
    filter.None? || filter.value == [] || LowerStr(r.categories[i]) == LowerStr(filter.value)
  }

  /** The documents the filter leaves eligible. */
  ghost function EligibleSet(r: Retriever, filter: Option<string>): set<int>
    requires Valid(r)
  {
    set i | 0 <= i < |r.documents| && Eligible(r, filter, i)
  }

  /** The length of `ranked[:k]` for a list of length `n`, with Python's
      slice semantics (a negative `k` drops `-k` elements from the end). */
  function Cut(k: int, n: nat): (c: nat)
    ensures c <= n
  {
    if k >= 0 then (if k < n then k else n)
    else (if n + k > 0 then n + k else 0)
  }

  /** The array `search` ranks: each eligible document's hybrid score, and
      `-inf` for the documents the category filter removed. */
  ghost function RankedScores(r: Retriever, query: string, filter: Option<string>): (s: seq<Score>)
    requires Valid(r)
    ensures |s| == |r.documents|
  {
    seq(|r.documents|, i requires 0 <= i < |r.documents| =>
      if Eligible(r, filter, i) then Finite(HybridScore(r, query, i)) else NegInf)
  }

  /** The indices with a finite score. */
  ghost function FiniteSet(scores: seq<Score>): set<int> {
    set i | 0 <= i < |scores| && scores[i].Finite?
  }

  /** `hits` is what walking `ranked[:c]` of a ranking of `scores` and skipping
      `-inf` produces, stated without the ranking: `picked` holds the index
      behind each hit. */
  ghost predicate TopHits(titles: seq<string>, documents: seq<string>, scores: seq<Score>, tfidf: seq<real>,
                          c: nat, hits: seq<Hit>, picked: seq<int>)
    requires |scores| == |tfidf| == |documents| == |titles|
  {
    // each hit is one finite-scored document's own title, text, hybrid and TF-IDF score
    && |hits| == |picked| <= c
    && (forall m :: 0 <= m < |picked| ==>
          0 <= picked[m] < |scores| && scores[picked[m]].Finite?
          && hits[m] == Hit(titles[picked[m]], documents[picked[m]], scores[picked[m]].value, tfidf[picked[m]]))
    // no document twice
    && (forall m, m' :: 0 <= m < m' < |picked| ==> picked[m] != picked[m'])
    // best first
    && (forall m, m' :: 0 <= m < m' < |hits| ==> hits[m].hybrid >= hits[m'].hybrid)
    // fewer than c only once the finite-scored documents run out
    && (|hits| < c ==> forall i :: 0 <= i < |scores| && scores[i].Finite? ==> i in picked)
    // nothing left out scores above anything returned
    && (forall i, m :: 0 <= i < |scores| && scores[i].Finite? && i !in picked && 0 <= m < |hits| ==>
          scores[i].value <= hits[m].hybrid)
  }

  /** What `search(query, top_k, category_filter)` promises. */
  ghost predicate SearchSpec(r: Retriever, query: string, topK: int, filter: Option<string>,
                             hits: seq<Hit>, picked: seq<int>)
    requires Valid(r)
  {
    && (query == [] ==> hits == [] && picked == [])
    && (query != [] ==>
          TopHits(r.titles, r.documents, RankedScores(r, query, filter), TfidfScores(r, query),
                  Cut(topK, |r.documents|), hits, picked))
  }

  // ---------------------------------------------------------------------------
  // The search itself
  // ---------------------------------------------------------------------------

  /** `max()` over an array, by a scan. */
  method MaxOf(a: array<real>) returns (m: real)
    requires a.Length > 0
    ensures m == Max(a[..])
  {
    m := a[0];
    var i := 1;
    while i < a.Length
      invariant 1 <= i <= a.Length
      invariant m == Max(a[..i])
    {
      assert a[..i + 1][..i] == a[..i];
      if a[i] > m {
        m := a[i];
      }
      i := i + 1;
    }
    assert a[..a.Length] == a[..];
  }

  /** `if a.max() > 0: a /= a.max()`, in place. */
  method RescaleInPlace(a: array<real>)
    requires a.Length > 0
    modifies a
    ensures a[..] == Rescale(old(a[..]))
  {
    var m := MaxOf(a);
    if m > 0.0 {
      ghost var before := a[..];
      for i := 0 to a.Length
        invariant forall j :: 0 <= j < i ==> a[j] == before[j] / m
        invariant forall j :: i <= j < a.Length ==> a[j] == before[j]
      {
        a[i] := a[i] / m;
      }
    }
  }

  /** The loop that appends one overlap count per document. */
  method KeywordOverlaps(queryTokens: set<string>, documents: seq<string>) returns (scores: seq<real>)
    ensures scores == KeywordScores(queryTokens, documents)
  {
    scores := [];
    for i := 0 to |documents|
      invariant scores == KeywordScores(queryTokens, documents[..i])
    {
      assert documents[..i + 1][..i] == documents[..i];
      var docTokens := Tokens(Normalize(documents[i]));
      var overlap := |queryTokens * docTokens|;
      scores := scores + [overlap as real];
    }
    assert documents[..|documents|] == documents;
  }

  /** Sets the score of every document whose category does not match
      `filter` case-insensitively to `-inf`, in place. */
  method MaskInPlace(scores: array<Score>, categories: seq<string>, filter: string)
    requires scores.Length == |categories|
    modifies scores
    ensures forall i :: 0 <= i < scores.Length ==>
      scores[i] == if LowerStr(categories[i]) != LowerStr(filter) then NegInf else old(scores[i])
  {
    for i := 0 to |categories|
      invariant forall j :: 0 <= j < i ==>
        scores[j] == if LowerStr(categories[j]) != LowerStr(filter) then NegInf else old(scores[j])
      invariant forall j :: i <= j < scores.Length ==> scores[j] == old(scores[j])
    {
      if LowerStr(categories[i]) != LowerStr(filter) {
        scores[i] := NegInf;
      }
    }
  }

  /** `order` lists the indices `0 .. i-1` exactly once, highest score first. */
  ghost predicate PartialRanking(order: seq<int>, s: seq<Score>, i: int) {
    && 0 <= i <= |s| && |order| == i
    && (forall p :: 0 <= p < i ==> 0 <= order[p] < i)
    && (forall p, q :: 0 <= p < q < i ==> order[p] != order[q])
    && (forall x :: 0 <= x < i ==> x in order)
    && (forall p, q :: 0 <= p < q < i ==> AtLeast(s[order[p]], s[order[q]]))
  }

  /** `order` lists every index of `s` exactly once, highest score first. */
  ghost predicate IsRanking(order: seq<int>, s: seq<Score>) {
    PartialRanking(order, s, |s|)
  }

  /** Inserting index `i` in front of the first entry it beats keeps the ranking. */
  lemma InsertKeepsRanking(order: seq<int>, s: seq<Score>, i: int, p: int)
    requires PartialRanking(order, s, i) && i < |s| && 0 <= p <= i
    requires forall q :: 0 <= q < p ==> AtLeast(s[order[q]], s[i])
    requires p < i ==> !AtLeast(s[order[p]], s[i])
    ensures PartialRanking(order[..p] + [i] + order[p..], s, i + 1)
  {
    var next := order[..p] + [i] + order[p..];
    assert forall x {:trigger next[x]} :: 0 <= x < |next| ==>
      next[x] == if x < p then order[x] else if x == p then i else order[x - 1];
    InsertedIndices(order, s, i, p, next);
    forall a, b | 0 <= a < b < i + 1 ensures AtLeast(s[next[a]], s[next[b]]) {
      if a == p && b > p {
        if b - 1 > p {
          assert AtLeast(s[order[p]], s[order[b - 1]]);
        }
      }
    }
  }

  lemma InsertedIndices(order: seq<int>, s: seq<Score>, i: int, p: int, next: seq<int>)
    requires PartialRanking(order, s, i) && i < |s| && 0 <= p <= i
    requires |next| == i + 1
    requires forall x {:trigger next[x]} :: 0 <= x < |next| ==>
      next[x] == if x < p then order[x] else if x == p then i else order[x - 1]
    ensures forall x :: 0 <= x < i + 1 ==> 0 <= next[x] < i + 1
    ensures forall x, y :: 0 <= x < y < i + 1 ==> next[x] != next[y]
    ensures forall x :: 0 <= x < i + 1 ==> x in next
  {
    forall x | 0 <= x < i + 1 ensures x in next {
      if x == i {
        assert next[p] == i;
      } else {
        assert x in order;
        var y :| 0 <= y < i && order[y] == x;
        if y < p {
          assert next[y] == x;
        } else {
          assert next[y + 1] == x;
        }
      }
    }
  }

  /** `np.argsort(-scores)`: the indices by descending score. The order of
      equal scores is not part of the contract. */
  method ArgsortDescending(s: seq<Score>) returns (order: seq<int>)
    ensures IsRanking(order, s)
  {
    order := [];
    for i := 0 to |s|
      invariant PartialRanking(order, s, i)
    {
      var p := 0;
      while p < |order| && AtLeast(s[order[p]], s[i])
        invariant 0 <= p <= |order|
        invariant forall q :: 0 <= q < p ==> AtLeast(s[order[q]], s[i])
      {
        p := p + 1;
      }
      InsertKeepsRanking(order, s, i, p);
      order := order[..p] + [i] + order[p..];
    }
  }

  /** What walking the first `j` entries of `ranked` has produced: `pos` holds
      the rank position behind each hit. */
  ghost predicate Walked(titles: seq<string>, documents: seq<string>, scores: seq<Score>, tfidf: seq<real>,
                         ranked: seq<int>, j: int, hits: seq<Hit>, picked: seq<int>, pos: seq<int>)
    requires |scores| == |tfidf| == |documents| == |titles| && IsRanking(ranked, scores)
  {
    && 0 <= j <= |ranked|
    && |hits| == |picked| == |pos| <= j
    && (forall m :: 0 <= m < |pos| ==> 0 <= pos[m] < j && ranked[pos[m]] == picked[m])
    && (forall m, m' :: 0 <= m < m' < |pos| ==> pos[m] < pos[m'])
    && (forall m :: 0 <= m < |picked| ==>
          0 <= picked[m] < |scores| && scores[picked[m]].Finite?
          && hits[m] == Hit(titles[picked[m]], documents[picked[m]], scores[picked[m]].value, tfidf[picked[m]]))
    && (forall q :: 0 <= q < j && scores[ranked[q]].Finite? ==> ranked[q] in picked)
    && (|picked| < j ==> exists q :: 0 <= q < j && scores[ranked[q]].NegInf?)
  }

  lemma WalkSkip(titles: seq<string>, documents: seq<string>, scores: seq<Score>, tfidf: seq<real>,
                 ranked: seq<int>, j: int, hits: seq<Hit>, picked: seq<int>, pos: seq<int>)
    requires |scores| == |tfidf| == |documents| == |titles| && IsRanking(ranked, scores)
    requires Walked(titles, documents, scores, tfidf, ranked, j, hits, picked, pos)
    requires j < |ranked| && scores[ranked[j]].NegInf?
    ensures Walked(titles, documents, scores, tfidf, ranked, j + 1, hits, picked, pos)
  {
  }

  lemma WalkTake(titles: seq<string>, documents: seq<string>, scores: seq<Score>, tfidf: seq<real>,
                 ranked: seq<int>, j: int, hits: seq<Hit>, picked: seq<int>, pos: seq<int>)
    requires |scores| == |tfidf| == |documents| == |titles| && IsRanking(ranked, scores)
    requires Walked(titles, documents, scores, tfidf, ranked, j, hits, picked, pos)
    requires j < |ranked| && scores[ranked[j]].Finite?
    ensures var i := ranked[j];
      Walked(titles, documents, scores, tfidf, ranked, j + 1,
             hits + [Hit(titles[i], documents[i], scores[i].value, tfidf[i])], picked + [i], pos + [j])
  {
    var i := ranked[j];
    var hits' := hits + [Hit(titles[i], documents[i], scores[i].value, tfidf[i])];
    var picked', pos' := picked + [i], pos + [j];
    NothingSkippedBeforeFinite(titles, documents, scores, tfidf, ranked, j, hits, picked, pos);
    forall m | 0 <= m < |pos'| ensures 0 <= pos'[m] < j + 1 && ranked[pos'[m]] == picked'[m] {
    }
    forall m, m' | 0 <= m < m' < |pos'| ensures pos'[m] < pos'[m'] {
    }
    forall m | 0 <= m < |picked'|
      ensures 0 <= picked'[m] < |scores| && scores[picked'[m]].Finite?
        && hits'[m] == Hit(titles[picked'[m]], documents[picked'[m]], scores[picked'[m]].value, tfidf[picked'[m]])
    {
    }
    forall q | 0 <= q < j + 1 && scores[ranked[q]].Finite? ensures ranked[q] in picked' {
      if q < j {
        assert ranked[q] in picked;
      }
    }
  }

  /** A finite score is ranked after finite scores only, so no entry was
      skipped before one. */
  lemma NothingSkippedBeforeFinite(titles: seq<string>, documents: seq<string>, scores: seq<Score>,
                                   tfidf: seq<real>, ranked: seq<int>, j: int, hits: seq<Hit>,
                                   picked: seq<int>, pos: seq<int>)
    requires |scores| == |tfidf| == |documents| == |titles| && IsRanking(ranked, scores)
    requires Walked(titles, documents, scores, tfidf, ranked, j, hits, picked, pos)
    requires j < |ranked| && scores[ranked[j]].Finite?
    ensures |picked| == j
  {
    forall q | 0 <= q < j ensures scores[ranked[q]].Finite? {
      assert AtLeast(scores[ranked[q]], scores[ranked[j]]);
    }
  }

  /** After walking `ranked[:c]` the hits are the top `c` finite-scored documents. */
  lemma WalkDone(titles: seq<string>, documents: seq<string>, scores: seq<Score>, tfidf: seq<real>,
                 ranked: seq<int>, c: int, hits: seq<Hit>, picked: seq<int>, pos: seq<int>)
    requires |scores| == |tfidf| == |documents| == |titles| && IsRanking(ranked, scores)
    requires Walked(titles, documents, scores, tfidf, ranked, c, hits, picked, pos)
    ensures TopHits(titles, documents, scores, tfidf, c, hits, picked)
  {
    forall m, m' | 0 <= m < m' < |picked| ensures picked[m] != picked[m'] && hits[m].hybrid >= hits[m'].hybrid {
      assert AtLeast(scores[ranked[pos[m]]], scores[ranked[pos[m']]]);
    }
    WalkDoneRest(titles, documents, scores, tfidf, ranked, c, hits, picked, pos);
  }

  lemma WalkDoneRest(titles: seq<string>, documents: seq<string>, scores: seq<Score>, tfidf: seq<real>,
                     ranked: seq<int>, c: int, hits: seq<Hit>, picked: seq<int>, pos: seq<int>)
    requires |scores| == |tfidf| == |documents| == |titles| && IsRanking(ranked, scores)
    requires Walked(titles, documents, scores, tfidf, ranked, c, hits, picked, pos)
    ensures forall i, m :: 0 <= i < |scores| && scores[i].Finite? && i !in picked && 0 <= m < |hits| ==>
      scores[i].value <= hits[m].hybrid
    ensures |hits| < c ==> forall i :: 0 <= i < |scores| && scores[i].Finite? ==> i in picked
  {
    forall i, m | 0 <= i < |scores| && scores[i].Finite? && i !in picked && 0 <= m < |hits|
      ensures scores[i].value <= hits[m].hybrid
    {
      assert i in ranked;
      var p :| 0 <= p < |ranked| && ranked[p] == i;
      assert AtLeast(scores[ranked[pos[m]]], scores[ranked[p]]);
    }
    if |hits| < c {
      var q :| 0 <= q < c && scores[ranked[q]].NegInf?;
      forall i | 0 <= i < |scores| && scores[i].Finite? ensures i in picked {
        assert i in ranked;
        var p :| 0 <= p < |ranked| && ranked[p] == i;
      }
    }
  }

  /** Walks `ranked[:c]`, skipping `-inf` entries, and builds the result tuples. */
  method TakeRanked(r: Retriever, scores: seq<Score>, tfidf: seq<real>, ranked: seq<int>, c: nat)
    returns (hits: seq<Hit>)
    requires |scores| == |tfidf| == |r.documents| == |r.titles|
    requires IsRanking(ranked, scores) && c <= |ranked|
    ensures exists picked :: TopHits(r.titles, r.documents, scores, tfidf, c, hits, picked)
  {
    hits := [];
    ghost var picked: seq<int> := [];
    ghost var pos: seq<int> := [];
    for j := 0 to c
      invariant Walked(r.titles, r.documents, scores, tfidf, ranked, j, hits, picked, pos)
    {
      var idx := ranked[j];
      if scores[idx].NegInf? {
        WalkSkip(r.titles, r.documents, scores, tfidf, ranked, j, hits, picked, pos);
        continue;
      }
      WalkTake(r.titles, r.documents, scores, tfidf, ranked, j, hits, picked, pos);
      hits := hits + [Hit(r.titles[idx], r.documents[idx], scores[idx].value, tfidf[idx])];
      picked := picked + [idx];
      pos := pos + [j];
    }
    WalkDone(r.titles, r.documents, scores, tfidf, ranked, c, hits, picked, pos);
    assert TopHits(r.titles, r.documents, scores, tfidf, c, hits, picked);
  }

  /** The two rescaled similarity arrays `search` computes for a query. */
  method Similarities(r: Retriever, query: string) returns (ts: seq<real>, ks: seq<real>)
    requires Valid(r)
    ensures ts == TfidfScores(r, query) && ks == OverlapScores(r, query)
  {
    var n := |r.documents|;
    var qNorm := Normalize(query);
    var rawTfidf := r.tfidfOf(qNorm);
    var tfidf := new real[n](i requires 0 <= i < n => rawTfidf[i]);
    var queryTokens := Tokens(qNorm);
    var overlaps := KeywordOverlaps(queryTokens, r.documents);
    var keyword := new real[n](i requires 0 <= i < n => overlaps[i]);
    assert tfidf[..] == rawTfidf && keyword[..] == overlaps;
    RescaleInPlace(keyword);
    RescaleInPlace(tfidf);
    ts, ks := tfidf[..], keyword[..];
  }

  /** `hybrid = 0.7 * tfidf + 0.3 * keyword`, then the category mask. */
  method MaskedHybrid(r: Retriever, query: string, filter: Option<string>, ts: seq<real>, ks: seq<real>)
    returns (scores: seq<Score>)
    requires Valid(r) && ts == TfidfScores(r, query) && ks == OverlapScores(r, query)
    ensures scores == RankedScores(r, query, filter)
  {
    var n := |r.documents|;
    var hybrid := new Score[n](i requires 0 <= i < n => Finite(0.7 * ts[i] + 0.3 * ks[i]));
    assert forall i :: 0 <= i < n ==> hybrid[i] == Finite(HybridScore(r, query, i));
    if filter.Some? && filter.value != [] {
      MaskInPlace(hybrid, r.categories, filter.value);
    }
    scores := hybrid[..];
    forall i | 0 <= i < n ensures scores[i] == RankedScores(r, query, filter)[i] {
    }
  }

  /** `HybridRetriever.search(query, top_k, category_filter)`. */
  method Search(r: Retriever, query: string, topK: int, filter: Option<string>)
    returns (hits: seq<Hit>)
    requires Valid(r)
    ensures Searched(r, query, topK, filter, hits)
  {
    if query == [] {
      assert SearchSpec(r, query, topK, filter, [], []);
      return [];
    }
    var ts, ks := Similarities(r, query);
    var scores := MaskedHybrid(r, query, filter, ts, ks);
    var ranked := ArgsortDescending(scores);
    hits := TakeRanked(r, scores, ts, ranked, Cut(topK, |r.documents|));
    ghost var picked :| TopHits(r.titles, r.documents, scores, ts, Cut(topK, |r.documents|), hits, picked);
    assert SearchSpec(r, query, topK, filter, hits, picked);
  }

  /** `hits` is a result `search` may return: some choice of documents
      behind the hits meets `SearchSpec`. */
  ghost predicate Searched(r: Retriever, query: string, topK: int, filter: Option<string>, hits: seq<Hit>)
    requires Valid(r)
  {
    exists picked :: SearchSpec(r, query, topK, filter, hits, picked)
  }

  // ---------------------------------------------------------------------------
  // Properties of search
  // ---------------------------------------------------------------------------

  /** A sequence without repetitions has as many distinct elements as entries. */
  lemma {:induction false} DistinctCard(xs: seq<int>)
    requires forall j, j' :: 0 <= j < j' < |xs| ==> xs[j] != xs[j']
    ensures |set x | x in xs| == |xs|
  {
    if xs != [] {
      var tail := xs[1..];
      DistinctCard(tail);
      assert (set x | x in xs) == (set x | x in tail) + {xs[0]};
      assert xs[0] !in tail;
    }
  }

  lemma SubsetCard(a: set<int>, b: set<int>)
    requires a <= b
    ensures |a| <= |b|
  {
    assert b == a + (b - a);
  }

  /** The walk returns exactly `min(c, number of finite scores)` hits. */
  lemma TopHitsCount(titles: seq<string>, documents: seq<string>, scores: seq<Score>, tfidf: seq<real>,
                     c: nat, hits: seq<Hit>, picked: seq<int>)
    requires |scores| == |tfidf| == |documents| == |titles|
    requires TopHits(titles, documents, scores, tfidf, c, hits, picked)
    ensures |hits| == if c < |FiniteSet(scores)| then c else |FiniteSet(scores)|
  {
    var chosen := set x | x in picked;
    DistinctCard(picked);
    assert chosen <= FiniteSet(scores);
    SubsetCard(chosen, FiniteSet(scores));
    if |hits| < c {
      assert FiniteSet(scores) <= chosen;
      assert chosen == FiniteSet(scores);
    }
  }

  /** The documents that keep a finite score are exactly the eligible ones. */
  lemma RankedScoresFinite(r: Retriever, query: string, filter: Option<string>)
    requires Valid(r)
    ensures FiniteSet(RankedScores(r, query, filter)) == EligibleSet(r, filter)
  {
  }

  /** For a non-empty query `search` returns exactly
      `min(len(range(n)[:top_k]), number of eligible documents)` results. */
  lemma SearchCount(r: Retriever, query: string, topK: int, filter: Option<string>,
                    hits: seq<Hit>, picked: seq<int>)
    requires Valid(r) && SearchSpec(r, query, topK, filter, hits, picked) && query != []
    ensures var c, e := Cut(topK, |r.documents|), |EligibleSet(r, filter)|;
      |hits| == if c < e then c else e
  {
    RankedScoresFinite(r, query, filter);
    TopHitsCount(r.titles, r.documents, RankedScores(r, query, filter), TfidfScores(r, query),
                 Cut(topK, |r.documents|), hits, picked);
  }

  /** Without a filter (`None` or `""`) every document is eligible. */
  lemma NoFilterKeepsAll(r: Retriever, filter: Option<string>)
    requires Valid(r) && (filter.None? || filter.value == [])
    ensures |EligibleSet(r, filter)| == |r.documents|
  {
    EligibleUpToCard(r, filter, |r.documents|);
    assert EligibleUpTo(r, filter, |r.documents|) == EligibleSet(r, filter);
  }

  ghost function EligibleUpTo(r: Retriever, filter: Option<string>, k: nat): set<int>
    requires Valid(r) && k <= |r.documents|
  {
    set i | 0 <= i < k && Eligible(r, filter, i)
  }

  lemma {:induction false} EligibleUpToCard(r: Retriever, filter: Option<string>, k: nat)
    requires Valid(r) && (filter.None? || filter.value == []) && k <= |r.documents|
    ensures |EligibleUpTo(r, filter, k)| == k
  {
    if k > 0 {
      EligibleUpToCard(r, filter, k - 1);
      assert EligibleUpTo(r, filter, k) == EligibleUpTo(r, filter, k - 1) + {k - 1};
    }
  }

  /** Each hit is the eligible document `picked[j]`: its own title, text,
      hybrid score `0.7 t + 0.3 k` and rescaled TF-IDF score `t`, best first. */
  lemma SearchHits(r: Retriever, query: string, topK: int, filter: Option<string>,
                   hits: seq<Hit>, picked: seq<int>)
    requires Valid(r) && SearchSpec(r, query, topK, filter, hits, picked)
    ensures forall j :: 0 <= j < |hits| ==>
      var i := picked[j];
      && 0 <= i < |r.documents| && Eligible(r, filter, i)
      && hits[j].title == r.titles[i] && hits[j].content == r.documents[i]
      && hits[j].tfidf == TfidfScores(r, query)[i]
      && hits[j].hybrid == 0.7 * TfidfScores(r, query)[i] + 0.3 * OverlapScores(r, query)[i]
    ensures forall j, j' :: 0 <= j < j' < |hits| ==> hits[j].hybrid >= hits[j'].hybrid
  {
  }

  /** With a non-empty filter every result's category equals the filter,
      ignoring case; a filter naming no category gives no results. */
  lemma SearchFilter(r: Retriever, query: string, topK: int, f: string,
                     hits: seq<Hit>, picked: seq<int>)
    requires Valid(r) && SearchSpec(r, query, topK, Some(f), hits, picked) && f != []
    ensures forall j :: 0 <= j < |hits| ==> LowerStr(r.categories[picked[j]]) == LowerStr(f)
    ensures (forall i :: 0 <= i < |r.categories| ==> LowerStr(r.categories[i]) != LowerStr(f)) ==> hits == []
  {
    if query != [] {
      var scores := RankedScores(r, query, Some(f));
      forall j | 0 <= j < |hits| ensures LowerStr(r.categories[picked[j]]) == LowerStr(f) {
        assert scores[picked[j]].Finite?;
      }
      if hits != [] {
        var i := picked[0];
        assert LowerStr(r.categories[i]) == LowerStr(f);
      }
    }
  }

  /** Every returned hybrid and TF-IDF score lies in [0, 1]. */
  lemma SearchScoreBounds(r: Retriever, query: string, topK: int, filter: Option<string>,
                          hits: seq<Hit>, picked: seq<int>)
    requires Valid(r) && SearchSpec(r, query, topK, filter, hits, picked)
    ensures forall j :: 0 <= j < |hits| ==> 0.0 <= hits[j].hybrid <= 1.0 && 0.0 <= hits[j].tfidf <= 1.0
  {
    if query != [] {
      var raw := r.tfidfOf(Normalize(query));
      var kw := KeywordScores(Tokens(Normalize(query)), r.documents);
      RescaleBounds(raw);
      forall i | 0 <= i < |kw| ensures 0.0 <= kw[i] {
        KeywordScoresAt(Tokens(Normalize(query)), r.documents, i);
      }
      RescaleBounds(kw);
      SearchHits(r, query, topK, filter, hits, picked);
    }
  }
}
