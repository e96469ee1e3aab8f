/**
  The fixed replies and the answer layout: `_format_response`,
  `_handle_general` and `_handle_out_of_scope`.
 */
module Responses {
  import opened Text

  const DirectTag := "(Resposta direta)"
  const RagTag := "(Resposta via RAG)"
  const NoSources := "Nenhuma fonte relevante"
  const Disclaimer := "⚠️ Esta resposta é informativa e não substitui consulta profissional."
  const Limitations := "Limitações: base de conhecimento sintética; respostas podem ser incompletas."

  /** The two closing lines every formatted answer ends with. */
  const Footer := "\n" + Disclaimer + "\n" + Limitations

  // ---------------------------------------------------------------------------
  // _format_response
  // ---------------------------------------------------------------------------

  /** Python's `int(x)` on a float: truncation toward zero. */
  function Trunc(x: real): int {
    if x >= 0.0 then x.Floor else -((-x).Floor)
  }

  /** `int(confidence * 100)`. */
  function Percent(confidence: real): int {
    Trunc(confidence * 100.0)
  }

  /** `"; ".join(sources) if sources else "Nenhuma fonte relevante"`. */
  function SourcesText(sources: seq<string>): string {
    if sources == [] then NoSources else Join(sources, "; ")
  }

  /** The first line: the tag and the confidence percentage. */
  function Header(usedRag: bool, confidence: real): string {
    (if usedRag then RagTag else DirectTag) + " Confiança: " + IntToString(Percent(confidence)) + "%\n"
  }

  /** `_format_response(answer, used_rag, confidence, sources)`. */
  function FormatResponse(answer: string, usedRag: bool, confidence: real, sources: seq<string>): string {
    Header(usedRag, confidence) + answer + "\n\nFontes: " + SourcesText(sources) + Footer
  }

  /** The text opens with "(Resposta via RAG)" exactly when retrieval was
      used, and with "(Resposta direta)" otherwise. */
  lemma FormatTag(answer: string, usedRag: bool, confidence: real, sources: seq<string>)
    ensures var r := FormatResponse(answer, usedRag, confidence, sources);
      && (RagTag <= r <==> usedRag)
      && (DirectTag <= r <==> !usedRag)
  {
    var tag := if usedRag then RagTag else DirectTag;
    var h := Header(usedRag, confidence);
    var r := FormatResponse(answer, usedRag, confidence, sources);
    Opens(tag, " Confiança: ", IntToString(Percent(confidence)), "%\n");
    Opens(h, answer, "\n\nFontes: ", SourcesText(sources) + Footer);
    assert r == h + answer + "\n\nFontes: " + (SourcesText(sources) + Footer);
    PrefixTransitive(tag, h, r);
    TagsExclusive(r);
  }

  /** The first part of a four-part concatenation is a prefix of it. */
  lemma Opens(a: string, b: string, c: string, d: string)
    ensures a <= a + b + c + d
  {
    assert (a + b + c + d)[..|a|] == a;
  }

  lemma PrefixTransitive(a: string, b: string, c: string)
    requires a <= b && b <= c
    ensures a <= c
  {
    assert c[..|b|][..|a|] == c[..|a|];
  }

  /** No text starts with both tags: they differ at their eleventh character. */
  lemma TagsExclusive(r: string)
    ensures !(RagTag <= r && DirectTag <= r)
  {
    if RagTag <= r {
      assert r[10] == RagTag[10] == 'v';
      assert DirectTag[10] == 'd';
    }
  }

  /** The answer sits unchanged right after the header line, and the text
      always ends with the two fixed disclaimer lines. */
  lemma FormatLayout(answer: string, usedRag: bool, confidence: real, sources: seq<string>)
    ensures var r, h := FormatResponse(answer, usedRag, confidence, sources), Header(usedRag, confidence);
      && |h| + |answer| <= |r|
      && r[|h|..|h| + |answer|] == answer
      && |Footer| <= |r| && r[|r| - |Footer|..] == Footer
  {
    var h := Header(usedRag, confidence);
    var body := "\n\nFontes: " + SourcesText(sources);
    var f := Footer;
    Layout(h, answer, body, f);
  }

  /** Where the parts of a four-part concatenation sit. */
  lemma Layout(h: string, a: string, b: string, f: string)
    ensures |h| + |a| <= |h + a + b + f|
    ensures (h + a + b + f)[|h|..|h| + |a|] == a
    ensures (h + a + b + f)[|h + a + b + f| - |f|..] == f
  {
    var r := h + a + b + f;
    forall i | 0 <= i < |a| ensures r[|h|..|h| + |a|][i] == a[i] {
    }
    forall i | 0 <= i < |f| ensures r[|r| - |f|..][i] == f[i] {
    }
  }

  /** `int()` truncates: for a non-negative confidence the percentage is the
      whole part of `100 * confidence`, so a confidence in [0, 1] shows 0 to 100. */
  lemma PercentTruncates(confidence: real)
    requires confidence >= 0.0
    ensures Percent(confidence) as real <= confidence * 100.0 < Percent(confidence) as real + 1.0
    ensures confidence <= 1.0 ==> 0 <= Percent(confidence) <= 100
  {
  }

  /** With no sources the list reads "Nenhuma fonte relevante"; otherwise it
      is the sources in order, each at its own offset and each but the first
      preceded by "; ", and nothing more. */
  lemma SourcesShown(sources: seq<string>)
    ensures sources == [] ==> SourcesText(sources) == NoSources
    ensures sources != [] ==> |SourcesText(sources)| + 2 == JoinOffset(sources, "; ", |sources|)
    ensures sources != [] ==> forall j :: 0 <= j < |sources| ==> ItemAt(sources, "; ", j)
    ensures sources != [] ==> forall j :: 0 < j < |sources| ==> SepBefore(sources, "; ", j)
  {
    if sources != [] {
      JoinParts(sources, "; ");
    }
  }

  // ---------------------------------------------------------------------------
  // _handle_general and _handle_out_of_scope
  // ---------------------------------------------------------------------------

  const Greetings: seq<string> := [
    "Olá! Como posso ajudar?",
    "Oi! Estou aqui para conversar ou esclarecer dúvidas jurídicas.",
    "Olá! Pergunte-me algo sobre leis ou apenas cumprimente."
  ]

  const GreetingWords: seq<string> := ["oi", "olá", "bom dia", "boa tarde", "boa noite"]

  const SmallTalk := "Estou disponível para falar sobre direitos, leis e também bater um papo."

  const OutOfScope := "Desculpe, essa pergunta está fora do escopo do meu conhecimento jurídico."

  /** Some greeting word is a substring of the lower-cased query. */
  predicate IsGreeting(query: string) {
    exists i :: 0 <= i < |GreetingWords| && Contains(LowerStr(query), GreetingWords[i])
  }

  /** `_handle_general(query)`; `choice` is the index `random.choice` draws. */
  function HandleGeneral(query: string, choice: nat): string
    requires choice < |Greetings|
  {
    if IsGreeting(query) then Greetings[choice] else SmallTalk
  }

  /** A greeting gets one of the three greetings, each reachable by some
      draw; anything else gets the fixed small-talk line. */
  lemma GeneralReply(query: string, choice: nat)
    requires choice < |Greetings|
    ensures IsGreeting(query) ==> HandleGeneral(query, choice) in Greetings
    ensures IsGreeting(query) ==> forall g :: g in Greetings ==> exists c: nat :: c < |Greetings| && HandleGeneral(query, c) == g
    ensures !IsGreeting(query) ==> HandleGeneral(query, choice) == SmallTalk
  {
    if IsGreeting(query) {
      forall g | g in Greetings ensures exists c: nat :: c < |Greetings| && HandleGeneral(query, c) == g {
        var c :| 0 <= c < |Greetings| && Greetings[c] == g;
        assert HandleGeneral(query, c) == g;
      }
    }
  }

  /** `_handle_out_of_scope(query)`. */
  function HandleOutOfScope(query: string): string {
    OutOfScope
  }

}
