# Legal chat bot — a verified model of its routing and answer assembly

This project models the deterministic core of `AdvancedLegalChatbot`, a
Brazilian-Portuguese legal question-answering bot. It covers these pieces:

- Text normalisation (`_normalize`).
- The hybrid retriever (`HybridRetriever.search`). It mixes 70 % TF-IDF similarity with 30 % keyword overlap, applies an optional category filter and returns the top `k` hits.
- The synthetic knowledge base (`_generate_documents`).
- Specialty detection (`_detect_specialty`).
- The arithmetic handler (`_handle_calculation`).
- The fixed replies (`_handle_general`, `_handle_out_of_scope`).
- The retrieval answer (`_handle_rag`).
- The answer layout (`_format_response`).
- The stateful entry point (`ask`), which logs the exchange in `history`.
- The retriever hit rate (`eval_retriever`).

Foreign computations are parameters of the model:

| Foreign computation | Model parameter | What it stands for |
|---|---|---|
| The fitted TF-IDF model | `tfidfOf` | One non-negative similarity per document |
| The scikit-learn query classifier | `classify` | The label for a question |
| Python's `eval` | `evaluate` | A value, or `None` for any exception |
| The index drawn by `random.choice` | the `choice` argument of `Ask` | Which greeting is returned |

Modules, one file each:

| Module | File | What it holds |
|---|---|---|
| `Optional` | `optional.dfy` | The `Option` type |
| `Text` | `text.dfy` | `str.lower`, `str.strip`, `re.sub(r"\s+", …)`, `str.split`, `in`, `str.replace`, `str.join`, `str(int)`, and `_normalize` with its properties |
| `Retrieval` | `retrieval.dfy` | The search, imperatively over arrays and loops, proved against `SearchSpec` |
| `Corpus` | `corpus.dfy` | The 76-snippet table and the nested flattening loops |
| `Specialty` | `specialty.dfy` | The keyword table and the first-match scan |
| `Calculator` | `calculator.dfy` | The rewrite, sanitise, evaluate and render pipeline |
| `Responses` | `responses.dfy` | Formatting and the two fixed handlers |
| `LegalChatBot` | `chatbot.dfy` | `_handle_rag`, and the `Chatbot` class with its `history` field and `Ask` |
| `Evaluation` | `evaluation.dfy` | `eval_retriever` |

## Model

| member | source | states |
|---|---|---|
| Text.LowerStr | LEGAL_CHAT_BOT/legal_chat_bot.py:31 | `str.lower()` character by character; `LowerStrIsLower` and `LowerKeepsSpaces` state that it gives lower case and keeps whitespace |
| Text.Strip | LEGAL_CHAT_BOT/legal_chat_bot.py:31 | `str.strip()`: whitespace dropped at both ends; `StripShape` states the result has no edge whitespace |
| Text.Collapse | LEGAL_CHAT_BOT/legal_chat_bot.py:31 | `re.sub(r"\s+", " ", ·)`: each whitespace run becomes one space; `CollapseIsSingleSpaced` and `CollapseEnds` state its shape |
| Text.Normalize | LEGAL_CHAT_BOT/legal_chat_bot.py:29-31 | `_normalize`: strip, lower, collapse; `NormalizeShape` and `NormalizeIdempotent` state what it yields |
| Text.Words | LEGAL_CHAT_BOT/legal_chat_bot.py:73 | `str.split()` with no separator: the maximal whitespace-free runs; `WordsAreWords` states every token is a non-empty word |
| Text.Tokens | LEGAL_CHAT_BOT/legal_chat_bot.py:73-76 | `set(·.split())`: the set of the words |
| Text.Contains | LEGAL_CHAT_BOT/legal_chat_bot.py:416 | Python's `w in q` on strings; `ContainsIsInfix` states it holds exactly when `w` occurs at some offset |
| Text.ReplaceAll | LEGAL_CHAT_BOT/legal_chat_bot.py:350 | `str.replace(k, v)`: every non-overlapping occurrence, left to right; `ReplaceAbsent`, `ReplaceRemovesChar` and `ReplaceKeepsAbsentChar` state its effect |
| Text.Join | LEGAL_CHAT_BOT/legal_chat_bot.py:373 | `sep.join(xs)`; `JoinParts` states where each item and separator sits |
| Text.JoinParts | LEGAL_CHAT_BOT/legal_chat_bot.py:320 | in `sep.join(xs)`, item `j` sits at its offset (the lengths of the earlier items and separators), a separator sits just before every item but the first, and nothing else is there: the length is the items plus one separator fewer than items |
| Text.IntToString | LEGAL_CHAT_BOT/legal_chat_bot.py:323 | `str(i)` for an int: `-` for a negative value, then `NatToString` of its magnitude; `IntToStringDigits` states it reads back as `i` |
| Text.NatToStringLength | LEGAL_CHAT_BOT/legal_chat_bot.py:357 | `str(n)` has at most `k` digits exactly when `n < 10^k` |
| Text.LowerStrIsLower | LEGAL_CHAT_BOT/legal_chat_bot.py:31 | `str.lower()` yields a lower-case text |
| Text.LowerKeepsSpaces | LEGAL_CHAT_BOT/legal_chat_bot.py:31 | lower-casing a character keeps whether it is whitespace, and is idempotent |
| Text.StripShape | LEGAL_CHAT_BOT/legal_chat_bot.py:31 | `strip()` leaves no whitespace at either end |
| Text.SkipSpacesShape | LEGAL_CHAT_BOT/legal_chat_bot.py:31 | dropping leading whitespace removes a whitespace-only prefix and stops at a non-space |
| Text.SkipTrailingSpacesShape | LEGAL_CHAT_BOT/legal_chat_bot.py:31 | dropping trailing whitespace removes a whitespace-only suffix and stops at a non-space |
| Text.CollapseEnds | LEGAL_CHAT_BOT/legal_chat_bot.py:31 | `re.sub(r"\s+", " ", ·)` keeps a text empty or non-empty and keeps whether it starts or ends with whitespace |
| Text.CollapseIsSingleSpaced | LEGAL_CHAT_BOT/legal_chat_bot.py:31 | after collapsing, the only whitespace is single `' '` characters, never two adjacent |
| Text.CollapseKeepsLower | LEGAL_CHAT_BOT/legal_chat_bot.py:31 | collapsing keeps a lower-case text lower case |
| Text.CollapseSingleSpaced | LEGAL_CHAT_BOT/legal_chat_bot.py:31 | collapsing leaves an already single-spaced text unchanged |
| Text.NormalizeShape | LEGAL_CHAT_BOT/legal_chat_bot.py:29-31 | `_normalize` output is lower case, has no edge whitespace and is single-spaced |
| Text.NormalizeIdempotent | LEGAL_CHAT_BOT/legal_chat_bot.py:29-31 | `_normalize(_normalize(s)) == _normalize(s)` |
| Text.WordPrefixShape | LEGAL_CHAT_BOT/legal_chat_bot.py:73 | the first word is the longest whitespace-free prefix |
| Text.WordsAreWords | LEGAL_CHAT_BOT/legal_chat_bot.py:73 | every token of `split()` is non-empty and holds no whitespace |
| Text.ContainsIsInfix | LEGAL_CHAT_BOT/legal_chat_bot.py:416 | Python's `w in q` holds exactly when `w` occurs at some offset of `q` |
| Text.ContainsWitness | LEGAL_CHAT_BOT/legal_chat_bot.py:416 | when `w in s`, `w` occurs at some offset of `s` |
| Text.ContainsAt | LEGAL_CHAT_BOT/legal_chat_bot.py:416 | an occurrence at any offset makes `w in s` true |
| Text.ContainsKeepsChars | LEGAL_CHAT_BOT/legal_chat_bot.py:416 | every character of a substring is a character of the text |
| Text.LowerContainsOnlyLower | LEGAL_CHAT_BOT/legal_chat_bot.py:403-416 | a substring of a lower-case text is lower case |
| Text.ReplaceAbsent | LEGAL_CHAT_BOT/legal_chat_bot.py:349-350 | `replace` with a key that does not occur leaves the text unchanged |
| Text.ReplaceRemovesChar | LEGAL_CHAT_BOT/legal_chat_bot.py:349-350 | replacing every occurrence of a one-character key by a text lacking it removes that character |
| Text.ReplaceKeepsAbsentChar | LEGAL_CHAT_BOT/legal_chat_bot.py:349-350 | `replace` never introduces a character that is in neither the text nor the replacement |
| Text.NoCharNoContains | LEGAL_CHAT_BOT/legal_chat_bot.py:349-350 | a text lacking a character contains no word holding it |
| Text.NatToString | LEGAL_CHAT_BOT/legal_chat_bot.py:357 | `str(n)`, as `{result}` and `{conf_pct}` (line 323) show it, is a non-empty digit string without a leading zero |
| Text.NatToStringRoundTrip | LEGAL_CHAT_BOT/legal_chat_bot.py:357 | reading back the digits of `str(n)` gives `n` |
| Retrieval.Max | LEGAL_CHAT_BOT/legal_chat_bot.py:81-83 | `max()` is an element that bounds every element |
| Retrieval.Rescale | LEGAL_CHAT_BOT/legal_chat_bot.py:81-84 | `a /= a.max()` only when the maximum is positive, otherwise the array unchanged, with the length kept; `RescaleBounds`, `RescaleTop` and `RescaleMonotone` state that non-negative scores land in [0, 1], a positive maximum becomes 1 and the order is kept |
| Retrieval.RescaleBounds | LEGAL_CHAT_BOT/legal_chat_bot.py:81-84 | rescaling non-negative scores by their maximum, when it is positive, puts every score in [0, 1] |
| Retrieval.RescaleTop | LEGAL_CHAT_BOT/legal_chat_bot.py:81-84 | a positive maximum becomes exactly 1 |
| Retrieval.RescaleMonotone | LEGAL_CHAT_BOT/legal_chat_bot.py:81-84 | rescaling keeps the order between any two scores |
| Retrieval.Overlap | LEGAL_CHAT_BOT/legal_chat_bot.py:76-77 | `len(query_tokens & set(_normalize(doc).split()))`; `KeywordScoresAt` states each keyword score is this count |
| Retrieval.HybridScore | LEGAL_CHAT_BOT/legal_chat_bot.py:85 | `0.7·t + 0.3·k` of the two rescaled scores; `SearchHits` states each result carries it |
| Retrieval.Eligible | LEGAL_CHAT_BOT/legal_chat_bot.py:87-89 | `None` and `""` keep every document; otherwise a document survives when its category equals the filter ignoring case; `NoFilterKeepsAll` and `SearchFilter` state the consequences |
| Retrieval.TopHits | LEGAL_CHAT_BOT/legal_chat_bot.py:92-98 | walking a descending ranking cut at `c` and dropping `-inf`: at most `c` distinct finite-scored documents, best first, fewer only when the finite ones run out, nothing left out above anything taken; `WalkDone` and `TakeRanked` establish it |
| Retrieval.SearchSpec | LEGAL_CHAT_BOT/legal_chat_bot.py:66-99 | `[]` for an empty query, otherwise `TopHits` of the masked hybrid scores cut at `top_k`; `Search` meets it, and `SearchCount`, `SearchHits`, `SearchFilter` and `SearchScoreBounds` state what it implies |
| Retrieval.KeywordScores | LEGAL_CHAT_BOT/legal_chat_bot.py:73-79 | one keyword score per document |
| Retrieval.KeywordScoresAt | LEGAL_CHAT_BOT/legal_chat_bot.py:73-79 | document `i`'s keyword score is the number of distinct query tokens among its own tokens, so it is non-negative |
| Retrieval.TfidfScores | LEGAL_CHAT_BOT/legal_chat_bot.py:68-84 | the rescaled similarity of the normalised query, one per document |
| Retrieval.OverlapScores | LEGAL_CHAT_BOT/legal_chat_bot.py:73-82 | the rescaled keyword scores, one per document |
| Retrieval.Cut | LEGAL_CHAT_BOT/legal_chat_bot.py:92 | the length of `xs[:top_k]` (Python slice, negative `top_k` included) never exceeds the list length |
| Retrieval.RankedScores | LEGAL_CHAT_BOT/legal_chat_bot.py:85-90 | the ranked array has one entry per document: the hybrid score, or `-inf` for documents the filter removes |
| Retrieval.MaxOf | LEGAL_CHAT_BOT/legal_chat_bot.py:81-83 | the scan returns `Max` of the array |
| Retrieval.RescaleInPlace | LEGAL_CHAT_BOT/legal_chat_bot.py:81-84 | `a /= a.max()` when the maximum is positive: the array becomes `Rescale` of its old contents |
| Retrieval.KeywordOverlaps | LEGAL_CHAT_BOT/legal_chat_bot.py:74-79 | the appending loop yields `KeywordScores` of the documents |
| Retrieval.MaskInPlace | LEGAL_CHAT_BOT/legal_chat_bot.py:87-90 | entries whose category differs from the filter, ignoring case, become `-inf`; the rest are untouched |
| Retrieval.InsertKeepsRanking | LEGAL_CHAT_BOT/legal_chat_bot.py:92 | inserting the next index at its place keeps a partial descending ranking |
| Retrieval.InsertedIndices | LEGAL_CHAT_BOT/legal_chat_bot.py:92 | after the insertion the ranking holds exactly the indices seen so far |
| Retrieval.ArgsortDescending | LEGAL_CHAT_BOT/legal_chat_bot.py:92 | `argsort(-scores)`: a permutation of the indices in non-increasing score order, with `-inf` last |
| Retrieval.WalkSkip | LEGAL_CHAT_BOT/legal_chat_bot.py:94-97 | skipping a `-inf` entry keeps the walk's invariant |
| Retrieval.WalkTake | LEGAL_CHAT_BOT/legal_chat_bot.py:94-98 | appending a finite entry keeps the walk's invariant |
| Retrieval.NothingSkippedBeforeFinite | LEGAL_CHAT_BOT/legal_chat_bot.py:94-97 | no `-inf` entry precedes a finite one in the ranking |
| Retrieval.WalkDone | LEGAL_CHAT_BOT/legal_chat_bot.py:92-99 | at the end of the walk the hits satisfy `TopHits` |
| Retrieval.WalkDoneRest | LEGAL_CHAT_BOT/legal_chat_bot.py:92-99 | every finite document left out of the hits scores no higher than any hit |
| Retrieval.TakeRanked | LEGAL_CHAT_BOT/legal_chat_bot.py:92-99 | walking `ranked[:top_k]` and dropping `-inf` gives hits that some choice of distinct finite-scored documents satisfies `TopHits` for |
| Retrieval.Similarities | LEGAL_CHAT_BOT/legal_chat_bot.py:68-84 | the two rescaled score arrays are `TfidfScores` and `OverlapScores` |
| Retrieval.MaskedHybrid | LEGAL_CHAT_BOT/legal_chat_bot.py:85-90 | `0.7·t + 0.3·k` followed by the category mask gives `RankedScores` |
| Retrieval.Search | LEGAL_CHAT_BOT/legal_chat_bot.py:58-99 | the returned hits are `[]` for an empty query. Otherwise they are the top hits of the masked hybrid scores, cut at `top_k`: some set of distinct eligible documents lies behind them, and they meet `SearchSpec` |
| Retrieval.TopHitsCount | LEGAL_CHAT_BOT/legal_chat_bot.py:92-99 | the walk returns `min(cut, number of finite scores)` hits |
| Retrieval.RankedScoresFinite | LEGAL_CHAT_BOT/legal_chat_bot.py:87-90 | the finite entries of the ranked array are exactly the eligible documents |
| Retrieval.SearchCount | LEGAL_CHAT_BOT/legal_chat_bot.py:66-99 | for a non-empty query, `search` returns exactly `min(top_k slice length, number of eligible documents)` results |
| Retrieval.NoFilterKeepsAll | LEGAL_CHAT_BOT/legal_chat_bot.py:87 | a `None` or empty filter leaves every document eligible |
| Retrieval.SearchHits | LEGAL_CHAT_BOT/legal_chat_bot.py:85-98 | each result is one eligible document's title, text, hybrid `0.7·t + 0.3·k` and TF-IDF `t`; results come in non-increasing hybrid order |
| Retrieval.SearchFilter | LEGAL_CHAT_BOT/legal_chat_bot.py:87-97 | with a non-empty filter, every result's category equals it ignoring case, and a filter naming no category gives `[]` |
| Retrieval.SearchScoreBounds | LEGAL_CHAT_BOT/legal_chat_bot.py:81-98 | every returned hybrid and TF-IDF score lies in [0, 1] |
| Corpus.ContentsOf | LEGAL_CHAT_BOT/legal_chat_bot.py:311-313 | one text per snippet |
| Corpus.TitlesOf | LEGAL_CHAT_BOT/legal_chat_bot.py:311-312 | one title per snippet |
| Corpus.Documents | LEGAL_CHAT_BOT/legal_chat_bot.py:310-313 | the document list has one entry per snippet of the table |
| Corpus.Titles | LEGAL_CHAT_BOT/legal_chat_bot.py:310-312 | the title list has one entry per snippet of the table |
| Corpus.Categories | LEGAL_CHAT_BOT/legal_chat_bot.py:310-314 | the category list has one entry per snippet of the table |
| Corpus.Flatten | LEGAL_CHAT_BOT/legal_chat_bot.py:310-315 | the nested loops produce `Documents`, `Titles` and `Categories` of the table |
| Corpus.GenerateDocuments | LEGAL_CHAT_BOT/legal_chat_bot.py:206-315 | `_generate_documents` returns the three flattened lists of the fixed table |
| Corpus.FlattenLocates | LEGAL_CHAT_BOT/legal_chat_bot.py:310-314 | snippet `j` of section `k` sits at offset `Size(table[..k]) + j` in all three lists |
| Corpus.FlattenCovers | LEGAL_CHAT_BOT/legal_chat_bot.py:310-314 | every list position belongs to exactly such a snippet |
| Corpus.FlattenAligned | LEGAL_CHAT_BOT/legal_chat_bot.py:310-315 | the three lists have equal length; entry `i` of each is the title, text and section name of one snippet |
| Corpus.DataShape | LEGAL_CHAT_BOT/legal_chat_bot.py:216-308 | there are seven categories in table order: 16 Consumidor snippets, then 10 each; 76 entries in all |
| Specialty.MatchesAny | LEGAL_CHAT_BOT/legal_chat_bot.py:415-417 | the inner `for w in words: if w in q` scan; `MatchesAnyIff` states it holds exactly when some keyword occurs in `q` |
| Specialty.FirstMatch | LEGAL_CHAT_BOT/legal_chat_bot.py:414-418 | the outer scan over the categories in table order; `FirstMatchSpec` states it returns the first matching category or `None` |
| Specialty.Detect | LEGAL_CHAT_BOT/legal_chat_bot.py:396-418 | `_detect_specialty`: the scan over `query.lower()`; `DetectSpec` states its result |
| Specialty.MatchesAnyIff | LEGAL_CHAT_BOT/legal_chat_bot.py:415-417 | the inner scan matches exactly when some keyword is a substring of the query |
| Specialty.FirstMatchSpec | LEGAL_CHAT_BOT/legal_chat_bot.py:414-418 | the outer scan returns `None` exactly when no entry matches; otherwise the first matching entry's category |
| Specialty.UpperKeywordNeverMatches | LEGAL_CHAT_BOT/legal_chat_bot.py:403-416 | a keyword with an upper-case letter is never a substring of the lower-cased query |
| Specialty.DeadConsumerKeywords | LEGAL_CHAT_BOT/legal_chat_bot.py:406 | "Produto com Defeito" and the long CDC sentence never match any query |
| Specialty.DetectSpec | LEGAL_CHAT_BOT/legal_chat_bot.py:396-418 | `_detect_specialty` returns `None` exactly when no keyword is a substring of `query.lower()`; otherwise the first category, in table order, with a matching keyword |
| Calculator.ApplyAll | LEGAL_CHAT_BOT/legal_chat_bot.py:349-350 | `expr_norm = expr_norm.replace(k, v)` for each pair, in table order; `ApplyAllSplit`, `UntouchedTable`, `GuardedThrough` and `NoMinusThrough` state its effect |
| Calculator.Squeeze | LEGAL_CHAT_BOT/legal_chat_bot.py:352 | `re.sub(r"\s+", "", ·)`; `SqueezeKeeps` states it drops exactly the whitespace |
| Calculator.Sanitize | LEGAL_CHAT_BOT/legal_chat_bot.py:351-352 | the two filters in order; `SanitizedAlphabet` states what survives |
| Calculator.Expression | LEGAL_CHAT_BOT/legal_chat_bot.py:340-352 | lower-case, replace, filter: the text handed to `eval`; `MenosExpression` and `AdditionExpression` compute it for two questions |
| Calculator.Render | LEGAL_CHAT_BOT/legal_chat_bot.py:355-357 | `f"{result}"` after an integral float became an `int`, `None` when the conversion raises; `RenderFails` and `RenderIntegral` state when and what |
| Calculator.Reply | LEGAL_CHAT_BOT/legal_chat_bot.py:354-359 | the reply for an `eval` outcome; `ReplyApology` states when it is the apology |
| Calculator.Mask | LEGAL_CHAT_BOT/legal_chat_bot.py:351 | replacing characters outside `0-9+-*/().` keeps the length |
| Calculator.HandleCalculation | LEGAL_CHAT_BOT/legal_chat_bot.py:338-359 | the replacement loop, the two filters and `eval` yield `Reply(evaluate(Expression(query)))` |
| Calculator.SqueezeKeeps | LEGAL_CHAT_BOT/legal_chat_bot.py:352 | removing whitespace drops exactly the whitespace characters |
| Calculator.SanitizedAlphabet | LEGAL_CHAT_BOT/legal_chat_bot.py:351-352 | the text given to `eval` holds only `0-9 + - * / ( ) .` and no whitespace |
| Calculator.ApplyAllSplit | LEGAL_CHAT_BOT/legal_chat_bot.py:349-350 | running the replacement loop over a table in two parts is running it over the whole table |
| Calculator.AbsentThroughTable | LEGAL_CHAT_BOT/legal_chat_bot.py:349-350 | over any table, a character the text lacks and no replacement writes stays absent |
| Calculator.GuardedThrough | LEGAL_CHAT_BOT/legal_chat_bot.py:349-350 | over any table, an entry writing `c` whose key holds a character that is absent and never written never fires, so `c` stays absent |
| Calculator.UntouchedTable | LEGAL_CHAT_BOT/legal_chat_bot.py:349-350 | when every key holds a character the text lacks, the loop leaves the text unchanged |
| Calculator.ValuesAreOperators | LEGAL_CHAT_BOT/legal_chat_bot.py:343-347 | every replacement value is made of `+ - * /` |
| Calculator.MinusWriters | LEGAL_CHAT_BOT/legal_chat_bot.py:343-347 | only "menos", "subtrair" and "subtraia" write `-`; the first holds an `e`, the others a `b` |
| Calculator.KeysMarked | LEGAL_CHAT_BOT/legal_chat_bot.py:343-347 | every key holds one of `d`, `e`, `i`, `m`, `s` among its first two characters |
| Calculator.EGone | LEGAL_CHAT_BOT/legal_chat_bot.py:343-350 | after the fifth replacement, `"e" -> "+"`, the text holds no `e` |
| Calculator.NoMinusBefore | LEGAL_CHAT_BOT/legal_chat_bot.py:343-350 | the first six replacements write neither `-` nor `b` |
| Calculator.NoMinusAfter | LEGAL_CHAT_BOT/legal_chat_bot.py:344-350 | from "menos" on, a text without `-`, `b` and `e` gains no `-` |
| Calculator.NoEAfterStep | LEGAL_CHAT_BOT/legal_chat_bot.py:343-350 | once `"e" -> "+"` has run, no later text holds an `e` |
| Calculator.DeadKeys | LEGAL_CHAT_BOT/legal_chat_bot.py:343-350 | every key after `"e"` that contains an `e` ("menos", "vezes", "multiplique", "elevado à", "elevado a") never changes the text |
| Calculator.AbsentThrough | LEGAL_CHAT_BOT/legal_chat_bot.py:349-350 | a character that no replacement writes and the text lacks stays absent |
| Calculator.NoMinusThrough | LEGAL_CHAT_BOT/legal_chat_bot.py:343-350 | without `-` and `b` in the question, the replacement loop never writes `-` |
| Calculator.SanitizeKeepsAbsent | LEGAL_CHAT_BOT/legal_chat_bot.py:351-352 | the two filters introduce no character |
| Calculator.MenosIsNotMinus | LEGAL_CHAT_BOT/legal_chat_bot.py:340-352 | a question whose subtraction is spelt "menos" (and has no `-` or `b`) is never evaluated with a `-` |
| Calculator.MenosExpression | LEGAL_CHAT_BOT/legal_chat_bot.py:340-352 | "Calcule 100 menos 25." reaches `eval` as exactly `+100+25.`: the `e` of "calcule" and of "menos" become `+`, and the key "menos" never fires |
| Calculator.MenosRewrite | LEGAL_CHAT_BOT/legal_chat_bot.py:343-350 | the replacement loop turns "calcule 100 menos 25." into "calcul+ 100 m+nos 25." |
| Calculator.MenosExample | LEGAL_CHAT_BOT/legal_chat_bot.py:338-359 | when `eval("+100+25.")` is the float 125.0, which is integral and so shown as an int, "Calcule 100 menos 25." is answered "O resultado é 125.", not 75 |
| Calculator.UnmarkedUntouched | LEGAL_CHAT_BOT/legal_chat_bot.py:349-350 | a text without `d`, `e`, `i`, `m`, `s` is unchanged by any prefix of the replacement loop |
| Calculator.UnmarkedExpression | LEGAL_CHAT_BOT/legal_chat_bot.py:349-350 | such a text is unchanged by the whole loop |
| Calculator.AdditionExpression | LEGAL_CHAT_BOT/legal_chat_bot.py:340-352 | "Quanto é 2 + 2?", in any letter case, is evaluated as `2+2` |
| Calculator.AdditionExample | LEGAL_CHAT_BOT/legal_chat_bot.py:338-357 | "Quanto é 2 + 2?" gets "O resultado é 4." when `eval("2+2")` is 4 |
| Calculator.ReplyApology | LEGAL_CHAT_BOT/legal_chat_bot.py:354-359 | the reply is "Desculpe, não consegui calcular essa expressão." exactly when `eval` raised or formatting its value raised; every other reply begins "O resultado é " |
| Calculator.RenderFails | LEGAL_CHAT_BOT/legal_chat_bot.py:355-357 | formatting raises exactly for an int, or an integral float, of magnitude at least 10^4300 (more than 4300 digits) |
| Calculator.RenderIntegral | LEGAL_CHAT_BOT/legal_chat_bot.py:355-357 | an integral int or float below 10^4300 in magnitude is shown with no `.`, as decimal digits after a `-` when negative, and the digits read back as the value |
| Calculator.IntToStringDigits | LEGAL_CHAT_BOT/legal_chat_bot.py:355-357 | `str(n)` has no `.`; it is the digits of the magnitude of `n`, after a `-` when `n < 0`, and they read back as that magnitude |
| Responses.Trunc | LEGAL_CHAT_BOT/legal_chat_bot.py:319 | Python's `int()` on a float, truncating toward zero; `PercentTruncates` states its bounds |
| Responses.Percent | LEGAL_CHAT_BOT/legal_chat_bot.py:319 | `int(confidence * 100)`; `PercentTruncates` states it lies in 0..100 for a confidence in [0, 1] |
| Responses.SourcesText | LEGAL_CHAT_BOT/legal_chat_bot.py:320 | the sources line; `SourcesShown` states its layout |
| Responses.FormatResponse | LEGAL_CHAT_BOT/legal_chat_bot.py:317-323 | `_format_response`: header line, answer, blank line, sources line, two disclaimer lines; `FormatTag` and `FormatLayout` state its shape |
| Responses.FormatTag | LEGAL_CHAT_BOT/legal_chat_bot.py:317-323 | the text starts with "(Resposta via RAG)" exactly when `used_rag`, and with "(Resposta direta)" otherwise |
| Responses.TagsExclusive | LEGAL_CHAT_BOT/legal_chat_bot.py:318 | no text starts with both "(Resposta via RAG)" and "(Resposta direta)" |
| Responses.FormatLayout | LEGAL_CHAT_BOT/legal_chat_bot.py:317-323 | the answer follows the header line unchanged, and the text always ends with the two disclaimer lines |
| Responses.PercentTruncates | LEGAL_CHAT_BOT/legal_chat_bot.py:319 | `int(confidence*100)` truncates, so a confidence in [0, 1] shows 0 to 100 |
| Responses.SourcesShown | LEGAL_CHAT_BOT/legal_chat_bot.py:320 | no sources give "Nenhuma fonte relevante"; otherwise each source sits at its offset, "; " sits before every source but the first, and nothing else is there (the length is the sources plus the separators) |
| Responses.HandleGeneral | LEGAL_CHAT_BOT/legal_chat_bot.py:325-333 | `_handle_general`, with the index `random.choice` draws as a parameter; `GeneralReply` states its result |
| Responses.GeneralReply | LEGAL_CHAT_BOT/legal_chat_bot.py:325-333 | a greeting substring gives one of the three greetings, each reachable by some draw; otherwise the fixed small-talk line |
| Responses.HandleOutOfScope | LEGAL_CHAT_BOT/legal_chat_bot.py:335-336 | `_handle_out_of_scope`: the fixed refusal whatever the query; `AskReply` states the reply `ask` formats from it |
| LegalChatBot.UsesRag | LEGAL_CHAT_BOT/legal_chat_bot.py:382-389 | the labels `ask` answers by retrieval: any other than the three fixed ones |
| LegalChatBot.RagAnswer | LEGAL_CHAT_BOT/legal_chat_bot.py:365-374 | `_handle_rag` for a result list; `RagAnswerShape`, `ContentsInOrder` and `RagBounds` state its parts |
| LegalChatBot.RagSpec | LEGAL_CHAT_BOT/legal_chat_bot.py:361-374 | some `search(query, 3, detected specialty)` result meeting `SearchSpec` gives the triple; `RagBounds` states its consequences |
| LegalChatBot.DirectAnswer | LEGAL_CHAT_BOT/legal_chat_bot.py:382-387 | the answer of the three fixed paths: `_handle_general`, `_handle_out_of_scope` or `_handle_calculation` |
| LegalChatBot.HitContents | LEGAL_CHAT_BOT/legal_chat_bot.py:370-371 | one answer line per result |
| LegalChatBot.HitTitles | LEGAL_CHAT_BOT/legal_chat_bot.py:370-372 | one source per result |
| LegalChatBot.Collect | LEGAL_CHAT_BOT/legal_chat_bot.py:365-374 | the collecting loop returns `RagAnswer` of the results |
| LegalChatBot.RagAnswerShape | LEGAL_CHAT_BOT/legal_chat_bot.py:365-374 | no results give ("Não encontrei informações relevantes.", 0.0, []); otherwise the confidence is the first hybrid score, the sources are the titles in rank order, and the answer holds each result's document at its offset in rank order, one space before each but the first, and nothing else |
| LegalChatBot.ContentsInOrder | LEGAL_CHAT_BOT/legal_chat_bot.py:365-373 | the answer lines are the results' documents in rank order, and the answer is `" ".join` of them |
| LegalChatBot.RagBounds | LEGAL_CHAT_BOT/legal_chat_bot.py:361-374 | a retrieval answer cites at most three sources, each the title of a document of the detected specialty (of any document when none is detected), and its confidence lies in [0, 1] |
| LegalChatBot.HitBounds | LEGAL_CHAT_BOT/legal_chat_bot.py:363-364 | the search behind a retrieval answer (`top_k` 3, filter the detected specialty) gives at most three hits, the first scoring in [0, 1], each the title of its picked document, of the detected category when there is one |
| LegalChatBot.NamedCategory | LEGAL_CHAT_BOT/legal_chat_bot.py:405-418 | a detected specialty is a non-empty name, so it always acts as a filter |
| LegalChatBot.Chatbot.constructor | LEGAL_CHAT_BOT/legal_chat_bot.py:199-203 | the retriever is built over the flattened table, and the history starts empty |
| LegalChatBot.Chatbot.HandleRag | LEGAL_CHAT_BOT/legal_chat_bot.py:361-374 | `_handle_rag` returns `RagAnswer` of a `search(query, 3, detected specialty)` result |
| LegalChatBot.Chatbot.Answers | LEGAL_CHAT_BOT/legal_chat_bot.py:376-394 | the reply of `ask`: the formatted direct answer with confidence 0 and no sources on the three fixed labels, otherwise some `RagSpec` triple formatted as retrieved; `Ask` meets it and `AskReply` states its shape |
| LegalChatBot.Chatbot.Ask | LEGAL_CHAT_BOT/legal_chat_bot.py:376-394 | `ask` appends ("user", query) and then ("assistant", reply), leaving earlier entries untouched; the reply is the label's handler output, formatted |
| LegalChatBot.AskReply | LEGAL_CHAT_BOT/legal_chat_bot.py:376-394 | a reply is marked as retrieved exactly when the label is none of the three fixed ones, and always ends with the disclaimers. Direct replies have confidence 0 and no sources; retrieved ones cite at most three sources with a 0–100 percentage. An out-of-scope label gives the fixed refusal, formatted as direct |
| Evaluation.Retrieved | LEGAL_CHAT_BOT/legal_chat_bot.py:446 | one title per result |
| Evaluation.IsHit | LEGAL_CHAT_BOT/legal_chat_bot.py:447 | `any(src in retrieved for src in expected_sources)`; `HitsStep` states how it moves the counter |
| Evaluation.Outcomes | LEGAL_CHAT_BOT/legal_chat_bot.py:444-445 | each example's outcome is a `search(query, top_k=3)` result meeting `SearchSpec`; `EvalRetriever` states its loop produces such outcomes |
| Evaluation.Rate | LEGAL_CHAT_BOT/legal_chat_bot.py:449 | `hits / len(example_queries)`, or 0.0 with no examples; `RateBounds` states its range |
| Evaluation.Hits | LEGAL_CHAT_BOT/legal_chat_bot.py:443-448 | the hit counter never exceeds the number of examples |
| Evaluation.HitsStep | LEGAL_CHAT_BOT/legal_chat_bot.py:447-448 | one more example adds one to the counter exactly when one of its expected titles was retrieved |
| Evaluation.EvalRetriever | LEGAL_CHAT_BOT/legal_chat_bot.py:442-449 | the loop returns the hit rate over the outcomes of `search(query, 3)`, and it lies in [0, 1] |
| Evaluation.RateBounds | LEGAL_CHAT_BOT/legal_chat_bot.py:449 | the rate is 0.0 for no examples, always in [0, 1], 1 exactly when every example hits and 0 exactly when none does |
| Evaluation.AllHits | LEGAL_CHAT_BOT/legal_chat_bot.py:443-448 | the counter equals the number of examples exactly when every example hits |
| Evaluation.NoHits | LEGAL_CHAT_BOT/legal_chat_bot.py:443-448 | the counter is 0 exactly when no example hits |

## Left out

- The query classifier (`AdvancedQueryClassifier`, lines 102-188): a scikit-learn pipeline. It is the parameter `classify`.
- The TF-IDF fit and transform (lines 53-56 and 69-71): foreign numerics. They are the parameter `tfidfOf`, which must give one non-negative similarity per document.
- `eval_classifier` (lines 438-441): scikit-learn precision, recall and F1.
- Calculator.Render: formatting follows CPython 3.11 and later, where `str()` of an int longer than the default limit (`sys.get_int_max_str_digits()`, 4300 digits) raises. A limit changed through `PYTHONINTMAXSTRDIGITS` is not modelled, nor older Pythons, which have no limit.
- Python `eval` (line 354): its int/float distinction, `**`, `//`, syntax errors and division by zero. It is the partial function `evaluate`. A finite float result is modelled as a real plus the text of its `repr`; `inf` and `nan` (reachable, e.g. `10.**308*10.`) are not reals, so `evaluate` gives them as `PyOther` with their `repr`, which `Render` shows unchanged, as the source does since `is_integer()` is false for them. The float case of `Calculator.RenderFails` therefore never arises for IEEE doubles, whose largest value is about 1.8e308.
- `random.choice` (line 332): the drawn index is the argument `choice` of `Ask`.
- Retrieval.ArgsortDescending: the order among equal scores is not fixed, because `np.argsort` uses an unstable sort by default. Results with equal scores may come in any order.
- Floating point: scores are exact reals. The weights 0.7 and 0.3 and the product `confidence*100` are not rounded as IEEE doubles.
- Text.LowerStr: `str.lower()` is modelled for ASCII and the Latin-1 letters only. Other Unicode letters are left unchanged.
- `chat()` (lines 420-434) and `feedback_log`: console input and output.
- `LEGAL_CHAT_BOT/gerarperguntas.py`: a driver script that prints and writes CSV. It is not part of this model.
- Docstrings that disagree with the code: the retriever docstring says filtered-out documents score zero, but the code gives them `-inf`; the classifier docstring says three categories, but it uses four labels. The model follows the code.
- The arithmetic question "Calcule 100 menos 25." is rewritten to `+100+25.` (the `e` of "calcule" and of "menos" each become `+` before the key "menos" is tried), so `eval` yields 125 rather than 75. `Calculator.MenosExpression` states the exact text; the model follows the code.
- LegalChatBot.Chatbot.Ask: the reply is fixed up to the search's freedom among tied scores. It is stated through some search result that satisfies `SearchSpec`.
