/**
  `_detect_specialty`: guesses the branch of law a question is about from an
  ordered keyword table, so that retrieval can be restricted to it.
 */
module Specialty {
  import opened Optional
  import opened Text

  /** One category of the keyword table and its keywords, in order. */
  datatype Entry = Entry(category: string, words: seq<string>)

  /** The keyword table, in declaration order. */
  const Keywords: seq<Entry> := [
      Entry("Consumidor", [
        "consumidor",
        "consumidores",
        "produto",
        "compra",
        "cdc",
        "defesa do consumidor",
        "venda",
        "garantia",
        "Produto com Defeito",
        "Em caso de vício do produto, o consumidor pode exigir a substituição do item por outro da mesma espécie, a restituição imediata da quantia paga ou o abatimento proporcional do preço, conforme o CDC."
      ]),
      Entry("Trabalho", [
        "trabalh",
        "clt",
        "empregad",
        "empregador",
        "licença",
        "salário",
        "ferias",
        "fgts"
      ]),
      Entry("Civil", [
        "civil",
        "usucapi",
        "posse",
        "propriedade",
        "contrato",
        "herança",
        "família",
        "casamento"
      ]),
      Entry("Constitucional", [
        "constitui",
        "direitos fundamentais",
        "liberdade",
        "igualdade",
        "habeas",
        "mandado de segurança"
      ]),
      Entry("Penal", [
        "penal",
        "crime",
        "homicídio",
        "furto",
        "estelionato",
        "pena",
        "roubo"
      ]),
      Entry("Família", [
        "guarda",
        "adoção",
        "pensão",
        "divórcio",
        "união estável",
        "tutela",
        "curatela"
      ]),
      Entry("Administrativo", [
        "licita",
        "servidor",
        "agente público",
        "improbidade",
        "bens públicos",
        "concurso público"
      ])
    ]

  /** Some keyword of `words` is a substring of `q`: the inner `for w in words` loop. */
  predicate MatchesAny(words: seq<string>, q: string) {
    words != [] && (Contains(q, words[0]) || MatchesAny(words[1..], q))
  }

  /** Entry `k` is the first whose keywords match `q`. */
  predicate FirstAt(table: seq<Entry>, q: string, k: int) {
    && 0 <= k < |table|
    && MatchesAny(table[k].words, q)
    && forall k' :: 0 <= k' < k ==> !MatchesAny(table[k'].words, q)
  }

  /** The outer scan: the category of the first entry with a matching keyword. */
  function FirstMatch(table: seq<Entry>, q: string): (r: Option<string>)
  {
    if table == [] then None
    else if MatchesAny(table[0].words, q) then Some(table[0].category)
    else FirstMatch(table[1..], q)
  }

  /** `_detect_specialty(query)`. */
  function Detect(query: string): Option<string> {
    FirstMatch(Keywords, LowerStr(query))
  }

  // ---------------------------------------------------------------------------
  // Properties
  // ---------------------------------------------------------------------------

  /** `MatchesAny` is the `any(w in q for w in words)` it stands for. */
  lemma {:induction false} MatchesAnyIff(words: seq<string>, q: string)
    ensures MatchesAny(words, q) <==> exists i :: 0 <= i < |words| && Contains(q, words[i])
  {
    if words != [] {
      MatchesAnyIff(words[1..], q);
      if exists i :: 0 <= i < |words| && Contains(q, words[i]) {
        var i :| 0 <= i < |words| && Contains(q, words[i]);
        if i > 0 {
          assert Contains(q, words[1..][i - 1]);
        }
      }
      if MatchesAny(words[1..], q) {
        var i :| 0 <= i < |words[1..]| && Contains(q, words[1..][i]);
        assert Contains(q, words[i + 1]);
      }
    }
  }

  /** The scan returns `None` exactly when no entry matches, and otherwise
      the category of the first entry that does. */
  lemma {:induction false} FirstMatchSpec(table: seq<Entry>, q: string)
    ensures FirstMatch(table, q).None? <==> forall k :: 0 <= k < |table| ==> !MatchesAny(table[k].words, q)
    ensures FirstMatch(table, q).Some? ==>
      exists k :: FirstAt(table, q, k) && table[k].category == FirstMatch(table, q).value
  {
    if table != [] && !MatchesAny(table[0].words, q) {
      var tail := table[1..];
      FirstMatchSpec(tail, q);
      forall k | 1 <= k < |table| ensures table[k] == tail[k - 1] { }
      if FirstMatch(tail, q).Some? {
        var k :| FirstAt(tail, q, k) && tail[k].category == FirstMatch(tail, q).value;
        assert FirstAt(table, q, k + 1);
      }
    } else if table != [] {
      assert FirstAt(table, q, 0);
    }
  }

  /** A keyword with an upper-case letter never matches the lower-cased
      query, whatever the query. */
  lemma UpperKeywordNeverMatches(query: string, w: string)
    requires !IsLowerStr(w)
    ensures !Contains(LowerStr(query), w)
  {
    LowerStrIsLower(query);
    if Contains(LowerStr(query), w) {
      LowerContainsOnlyLower(LowerStr(query), w);
    }
  }

  /** The last two consumer-law keywords ("Produto com Defeito" and the long
      sentence about defective products) hold capitals, so they never match. */
  lemma DeadConsumerKeywords(query: string)
    ensures |Keywords[0].words| == 10
    ensures !Contains(LowerStr(query), Keywords[0].words[8])
    ensures !Contains(LowerStr(query), Keywords[0].words[9])
  {
    var w8, w9 := Keywords[0].words[8], Keywords[0].words[9];
    assert Lower(w8[0]) != w8[0];
    assert w9[|w9| - 2] == 'C';
    assert Lower(w9[|w9| - 2]) != w9[|w9| - 2];
    UpperKeywordNeverMatches(query, w8);
    UpperKeywordNeverMatches(query, w9);
  }

  /** `_detect_specialty` returns `None` exactly when no keyword of any
      category occurs in the lower-cased query; otherwise it returns the first
      category, in table order, one of whose keywords occurs in it. */
  lemma DetectSpec(query: string)
    ensures Detect(query).None? <==>
      forall k, i :: 0 <= k < |Keywords| && 0 <= i < |Keywords[k].words| ==>
        !Contains(LowerStr(query), Keywords[k].words[i])
    ensures Detect(query).Some? ==>
      exists k :: FirstAt(Keywords, LowerStr(query), k) && Keywords[k].category == Detect(query).value
  {
    var q := LowerStr(query);
    FirstMatchSpec(Keywords, q);
    forall k | 0 <= k < |Keywords| {
      MatchesAnyIff(Keywords[k].words, q);
    }
  }
}
