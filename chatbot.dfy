/**
  `AdvancedLegalChatbot`: the retrieval answer (`_handle_rag`) and the one
  stateful entry point, `ask`, which logs the exchange in `history` and
  routes the question by the classifier's label.

  The classifier (a fitted TF-IDF + logistic regression pipeline), the
  fitted TF-IDF model and Python's `eval` are foreign computations; they
  are the functions `classify`, `tfidfOf` and `evaluate`. The index drawn by
  `random.choice` is a parameter of `Ask`.
 */
module LegalChatBot {
  import opened Optional
  import opened Text
  import opened Retrieval
  import opened Responses
  import Corpus
  import Specialty
  import Calculator

  const GeneralLabel := "general_conversation"
  const OutOfScopeLabel := "out_of_scope"
  const CalculationLabel := "calculation"

  /** Only labels other than the three fixed ones are answered by retrieval. */
  predicate UsesRag(category: string) {
    category != GeneralLabel && category != OutOfScopeLabel && category != CalculationLabel
  }

  // ---------------------------------------------------------------------------
  // _handle_rag
  // ---------------------------------------------------------------------------

  const NothingFound := "Não encontrei informações relevantes."

  /** The documents of the results, in rank order. */
  function HitContents(results: seq<Hit>): (c: seq<string>)
    ensures |c| == |results|
  {
    if results == [] then [] else HitContents(results[..|results| - 1]) + [results[|results| - 1].content]
  }

  /** The titles of the results, in rank order. */
  function HitTitles(results: seq<Hit>): (t: seq<string>)
    ensures |t| == |results|
  {
    if results == [] then [] else HitTitles(results[..|results| - 1]) + [results[|results| - 1].title]
  }

  /** The triple `_handle_rag` returns for a list of search results. */
  function RagAnswer(results: seq<Hit>): (string, real, seq<string>) {
    if results == [] then (NothingFound, 0.0, [])
    else (Join(HitContents(results), " "), results[0].hybrid, HitTitles(results))
  }

  /** The loop of `_handle_rag` that collects the documents and the titles. */
  method Collect(results: seq<Hit>) returns (answer: string, confidence: real, sources: seq<string>)
    ensures (answer, confidence, sources) == RagAnswer(results)
  {
    if results == [] {
      return NothingFound, 0.0, [];
    }
    var lines: seq<string> := [];
    sources := [];
    confidence := results[0].hybrid;
    for i := 0 to |results|
      invariant lines == HitContents(results[..i])
      invariant sources == HitTitles(results[..i])
    {
      assert results[..i + 1][..i] == results[..i];
      lines := lines + [results[i].content];
      sources := sources + [results[i].title];
    }
    assert results[..|results|] == results;
    answer := Join(lines, " ");
  }

  /** No results give the fixed apology with confidence 0 and no sources;
      otherwise the confidence is the first result's hybrid score, the
      sources are the result titles in rank order, and the answer is the
      result documents in rank order, separated by single spaces. */
  lemma {:induction false} RagAnswerShape(results: seq<Hit>)
    ensures results == [] ==> RagAnswer(results) == (NothingFound, 0.0, [])
    ensures results != [] ==> RagAnswer(results).1 == results[0].hybrid
    ensures |RagAnswer(results).2| == |results|
    ensures forall j :: 0 <= j < |results| ==> RagAnswer(results).2[j] == results[j].title
    ensures results != [] ==> forall j :: 0 <= j < |results| ==> ItemAt(HitContents(results), " ", j)
    ensures results != [] ==> forall j :: 0 < j < |results| ==> SepBefore(HitContents(results), " ", j)
    ensures results != [] ==> |RagAnswer(results).0| + 1 == JoinOffset(HitContents(results), " ", |results|)
    ensures forall j :: 0 <= j < |results| ==> HitContents(results)[j] == results[j].content
  {
    TitlesInOrder(results);
    ContentsInOrder(results);
    if results != [] {
      JoinParts(HitContents(results), " ");
    }
  }

  /** The answer joins the result documents in rank order. */
  lemma {:induction false} ContentsInOrder(results: seq<Hit>)
    ensures forall j :: 0 <= j < |results| ==> HitContents(results)[j] == results[j].content
    ensures results != [] ==> RagAnswer(results).0 == Join(HitContents(results), " ")
  {
    if results != [] {
      var init := results[..|results| - 1];
      ContentsInOrder(init);
    }
  }

  lemma {:induction false} TitlesInOrder(results: seq<Hit>)
    ensures forall j :: 0 <= j < |results| ==> HitTitles(results)[j] == results[j].title
  {
    if results != [] {
      var init := results[..|results| - 1];
      TitlesInOrder(init);
    }
  }

  /** The retrieval triple for a query over a retriever: results as `search`
      promises them with top 3 and the detected specialty as the filter. */
  ghost predicate RagSpec(r: Retriever, query: string, answer: string, confidence: real, sources: seq<string>)
    requires Valid(r)
  {
    exists hits ::
      && Searched(r, query, 3, Specialty.Detect(query), hits)
      && (answer, confidence, sources) == RagAnswer(hits)
  }

  /** `source` is the title of some document of the table, of the given
      category (compared case-insensitively) when one is given. */
  ghost predicate CitedFrom(r: Retriever, source: string, category: Option<string>)
    requires |r.categories| == |r.titles|
  {
    exists i :: 0 <= i < |r.titles| && source == r.titles[i]
      && (category.Some? ==> LowerStr(r.categories[i]) == LowerStr(category.value))
  }

  /** A retrieval answer cites at most three sources, each the title of a
      document of the detected specialty (of any document when none was
      detected), and its confidence lies in [0, 1]. */
  lemma RagBounds(r: Retriever, query: string, answer: string, confidence: real, sources: seq<string>)
    requires Valid(r) && RagSpec(r, query, answer, confidence, sources)
    ensures |sources| <= 3
    ensures 0.0 <= confidence <= 1.0
    ensures forall j :: 0 <= j < |sources| ==> CitedFrom(r, sources[j], Specialty.Detect(query))
  {
    var hits: seq<Hit> :| Searched(r, query, 3, Specialty.Detect(query), hits) && (answer, confidence, sources) == RagAnswer(hits);
    var picked: seq<int> :| SearchSpec(r, query, 3, Specialty.Detect(query), hits, picked);
    RagAnswerShape(hits);
    HitBounds(r, query, hits, picked);
    SourcesFrom(r, Specialty.Detect(query), hits, picked, sources);
  }

  /** Sources that are the titles of the picked documents are cited from the
      table, from the filter's category when there is one. */
  lemma SourcesFrom(r: Retriever, filter: Option<string>, hits: seq<Hit>, picked: seq<int>, sources: seq<string>)
    requires |r.categories| == |r.titles|
    requires |sources| == |hits| == |picked|
    requires forall j :: 0 <= j < |hits| ==> sources[j] == hits[j].title
    requires forall j :: 0 <= j < |hits| ==> 0 <= picked[j] < |r.titles| && hits[j].title == r.titles[picked[j]]
    requires filter.Some? ==> forall j :: 0 <= j < |hits| ==> LowerStr(r.categories[picked[j]]) == LowerStr(filter.value)
    ensures forall j :: 0 <= j < |sources| ==> CitedFrom(r, sources[j], filter)
  {
    forall j | 0 <= j < |sources|
      ensures CitedFrom(r, sources[j], filter)
    {
      var i := picked[j];
      assert 0 <= i < |r.titles| && sources[j] == r.titles[i];
    }
  }

  /** The facts behind `RagBounds`, about the search result itself. */
  lemma HitBounds(r: Retriever, query: string, hits: seq<Hit>, picked: seq<int>)
    requires Valid(r) && SearchSpec(r, query, 3, Specialty.Detect(query), hits, picked)
    ensures |hits| == |picked| <= 3
    ensures hits != [] ==> 0.0 <= hits[0].hybrid <= 1.0
    ensures forall j :: 0 <= j < |hits| ==> 0 <= picked[j] < |r.titles| && hits[j].title == r.titles[picked[j]]
    ensures Specialty.Detect(query).Some? ==>
      forall j :: 0 <= j < |hits| ==> LowerStr(r.categories[picked[j]]) == LowerStr(Specialty.Detect(query).value)
  {
    SearchScoreBounds(r, query, 3, Specialty.Detect(query), hits, picked);
    SearchHits(r, query, 3, Specialty.Detect(query), hits, picked);
    if query != [] {
      assert |hits| <= Cut(3, |r.documents|);
    }
    if Specialty.Detect(query).Some? {
      NamedCategory(query);
      SearchFilter(r, query, 3, Specialty.Detect(query).value, hits, picked);
    }
  }

  /** A detected specialty is one of the table's (non-empty) category names. */
  lemma NamedCategory(query: string)
    requires Specialty.Detect(query).Some?
    ensures Specialty.Detect(query).value != []
  {
    Specialty.DetectSpec(query);
  }

  // ---------------------------------------------------------------------------
  // The chatbot
  // ---------------------------------------------------------------------------

  /** The answer `ask` formats on the three direct paths. */
  function DirectAnswer(category: string, query: string, choice: nat,
                        evaluate: string -> Option<Calculator.PyValue>): string
    requires !UsesRag(category) && choice < |Greetings|
  {
    if category == GeneralLabel then HandleGeneral(query, choice)
    else if category == OutOfScopeLabel then HandleOutOfScope(query)
    else Calculator.Reply(evaluate(Calculator.Expression(query)))
  }

  class Chatbot {
    const retriever: Retriever
    const classify: string -> string
    const evaluate: string -> Option<Calculator.PyValue>
    var history: seq<(string, string)>

    /** `__post_init__`: the retriever over the flattened table, an empty history. */
    constructor (tfidfOf: string -> seq<real>, classify: string -> string,
                 evaluate: string -> Option<Calculator.PyValue>)
      requires forall q :: |tfidfOf(q)| == Corpus.Size(Corpus.Data)
      requires forall q, i :: 0 <= i < |tfidfOf(q)| ==> 0.0 <= tfidfOf(q)[i]
      ensures Valid(retriever)
      ensures retriever == Retriever(Corpus.Documents(Corpus.Data), Corpus.Titles(Corpus.Data),
                                     Corpus.Categories(Corpus.Data), tfidfOf)
      ensures this.classify == classify && this.evaluate == evaluate
      ensures history == []
    {
      var docs, titles, categories := Corpus.GenerateDocuments();
      Corpus.DataShape();
      this.retriever := Retriever(docs, titles, categories, tfidfOf);
      this.classify := classify;
      this.evaluate := evaluate;
      this.history := [];
    }

    /** `_handle_rag(query)`. */
    method HandleRag(query: string) returns (answer: string, confidence: real, sources: seq<string>)
      requires Valid(retriever)
      ensures RagSpec(retriever, query, answer, confidence, sources)
    {
      var category := Specialty.Detect(query);
      var results := Search(retriever, query, 3, category);
      answer, confidence, sources := Collect(results);
    }

    /** The reply `ask` gives: a direct answer with confidence 0 and no
        sources for the three fixed labels, and otherwise some retrieval
        triple `_handle_rag` may produce, marked as retrieved. */
    ghost predicate Answers(query: string, choice: nat, reply: string)
      requires Valid(retriever) && choice < |Greetings|
    {
      var category := classify(query);
      if UsesRag(category) then
        exists answer, confidence, sources ::
          && RagSpec(retriever, query, answer, confidence, sources)
          && reply == FormatResponse(answer, true, confidence, sources)
      else
        reply == FormatResponse(DirectAnswer(category, query, choice, evaluate), false, 0.0, [])
    }

    /** `ask(query)`: logs the question, answers it and logs the answer. */
    method Ask(query: string, choice: nat) returns (reply: string)
      requires Valid(retriever) && choice < |Greetings|
      modifies this
      ensures history == old(history) + [("user", query), ("assistant", reply)]
      ensures Answers(query, choice, reply)
    {
      history := history + [("user", query)];
      var category := classify(query);
      var usedRag := false;
      var confidence := 0.0;
      var sources: seq<string> := [];
      var answer;
      if category == GeneralLabel {
        answer := HandleGeneral(query, choice);
      } else if category == OutOfScopeLabel {
        answer := HandleOutOfScope(query);
      } else if category == CalculationLabel {
        answer := Calculator.HandleCalculation(query, evaluate);
      } else {
        usedRag := true;
        answer, confidence, sources := HandleRag(query);
      }
      reply := FormatResponse(answer, usedRag, confidence, sources);
      history := history + [("assistant", reply)];
    }
  }

  /** What a reply of `ask` looks like: it is marked as retrieved exactly
      when the label is not one of the three fixed ones, it always ends with
      the disclaimers, a direct answer has confidence 0 and no sources, and a
      retrieved one cites at most three sources with a percentage in [0, 100]. */
  lemma AskReply(bot: Chatbot, query: string, choice: nat, reply: string)
    requires Valid(bot.retriever) && choice < |Greetings| && bot.Answers(query, choice, reply)
    ensures RagTag <= reply <==> UsesRag(bot.classify(query))
    ensures |Footer| <= |reply| && reply[|reply| - |Footer|..] == Footer
    ensures !UsesRag(bot.classify(query)) ==> exists answer :: reply == FormatResponse(answer, false, 0.0, [])
    ensures bot.classify(query) == OutOfScopeLabel ==> reply == FormatResponse(OutOfScope, false, 0.0, [])
    ensures UsesRag(bot.classify(query)) ==>
      exists answer, confidence, sources ::
        && reply == FormatResponse(answer, true, confidence, sources)
        && |sources| <= 3 && 0 <= Percent(confidence) <= 100
  {
    var category := bot.classify(query);
    if UsesRag(category) {
      var answer, confidence, sources :|
        && RagSpec(bot.retriever, query, answer, confidence, sources)
        && reply == FormatResponse(answer, true, confidence, sources);
      RagBounds(bot.retriever, query, answer, confidence, sources);
      PercentTruncates(confidence);
      FormatTag(answer, true, confidence, sources);
      FormatLayout(answer, true, confidence, sources);
    } else {
      var answer := DirectAnswer(category, query, choice, bot.evaluate);
      FormatTag(answer, false, 0.0, []);
      FormatLayout(answer, false, 0.0, []);
    }
  }
}
