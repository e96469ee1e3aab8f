/**
  `_handle_calculation`: rewrites number words into operators, keeps only
  the characters of an arithmetic expression, hands the result to Python's
  `eval` and renders the value, or apologises when evaluation fails.

  `eval` is a foreign computation; it is the parameter `evaluate`, which
  yields the value of an expression or `None` for any exception.
 */
module Calculator {
  import opened Optional
  import opened Text

  /** The values `eval` can produce from the sanitised alphabet: an int, a
      finite float with its `repr`, or anything else (an empty tuple, a
      non-finite float) with its `str`. */
  datatype PyValue = PyInt(i: int) | PyFloat(x: real, repr: string) | PyOther(repr: string)

  /** The word-to-operator table, in declaration order. */
  const Replacements: seq<(string, string)> := [
    ("mais", "+"), ("somar", "+"), ("adição", "+"), ("soma", "+"), ("e", "+"), ("add", "+"),
    ("menos", "-"), ("subtrair", "-"), ("subtraia", "-"),
    ("vezes", "*"), ("multiplicar", "*"), ("multiplique", "*"),
    ("dividido por", "/"), ("dividir", "/"),
    ("elevado à", "**"), ("elevado a", "**")
  ]

  // Written in two parts so that proofs can read its first word off directly.
  const Apology := "Desculpe," + " não consegui calcular essa expressão."

  /** Every key is non-empty, as `str.replace` here requires. */
  predicate KeysNonEmpty(table: seq<(string, string)>) {
    forall i :: 0 <= i < |table| ==> table[i].0 != []
  }

  /** `s` after `s = s.replace(k, v)` for each pair of `table`, in order. */
  function ApplyAll(s: string, table: seq<(string, string)>): string
    requires KeysNonEmpty(table)
  {
    if table == [] then s
    else
      var last := table[|table| - 1];
      ReplaceAll(ApplyAll(s, table[..|table| - 1]), last.0, last.1)
  }

  // The characters the class [0-9+\-*/().] keeps.
  predicate Allowed(c: char) {
    '0' <= c <= '9' || c == '+' || c == '-' || c == '*' || c == '/' || c == '(' || c == ')' || c == '.'
  }

  // re.sub(r"[^0-9+\-*/().]", " ", s)
  function Mask(s: string): (r: string)
    ensures |r| == |s|
  {
    seq(|s|, i requires 0 <= i < |s| => if Allowed(s[i]) then s[i] else ' ')
  }

  /** `re.sub(r"\s+", "", s)`. */
  function Squeeze(s: string): string {
    if s == [] then []
    else if IsSpace(s[0]) then Squeeze(s[1..])
    else [s[0]] + Squeeze(s[1..])
  }

  /** The text handed to `eval`. */
  function Sanitize(s: string): string {
    Squeeze(Mask(s))
  }

  /** The expression `_handle_calculation` evaluates for `query`. */
  function Expression(query: string): string {
    Sanitize(ApplyAll(LowerStr(query), Replacements))
  }

  /** CPython's default limit on the digits `str()` may produce from an int
      (`sys.get_int_max_str_digits()`); a longer int makes it raise `ValueError`. */
  const MaxStrDigits := 4300

  function Abs(i: int): nat {
    if i < 0 then -i else i
  }

  /** `f"{i}"` for an int, or `None` when the conversion raises. */
  function RenderInt(i: int): Option<string> {
    if |NatToString(Abs(i))| > MaxStrDigits then None else Some(IntToString(i))
  }

  /** `f"{result}"` after an integral float became an `int`, or `None` when
      formatting raises. */
  function Render(v: PyValue): Option<string> {
    match v
    case PyInt(i) => RenderInt(i)
    case PyFloat(x, repr) => if x.Floor as real == x then RenderInt(x.Floor) else Some(repr)
    case PyOther(repr) => Some(repr)
  }

  /** The reply for a value, or the apology when `eval` or the formatting
      inside the same `try` raised. */
  function Reply(result: Option<PyValue>): string {
    match result
    case None => Apology
    case Some(v) =>
      match Render(v)
      case None => Apology
      case Some(text) => "O resultado é " + text + "."
  }

  /** `_handle_calculation(query)`: the replacement loop, the two filters and the evaluation. */
  method HandleCalculation(query: string, evaluate: string -> Option<PyValue>) returns (reply: string)
    ensures reply == Reply(evaluate(Expression(query)))
  {
    var expr := LowerStr(query);
    for i := 0 to |Replacements|
      invariant expr == ApplyAll(LowerStr(query), Replacements[..i])
    {
      assert Replacements[..i + 1][..i] == Replacements[..i];
      var (k, v) := Replacements[i];
      expr := ReplaceAll(expr, k, v);
    }
    assert Replacements[..|Replacements|] == Replacements;
    expr := Sanitize(expr);
    var result := evaluate(expr);
    reply := Reply(result);
  }

  // ---------------------------------------------------------------------------
  // Properties
  // ---------------------------------------------------------------------------

  /** Squeeze drops exactly the whitespace and keeps the rest in order. */
  lemma {:induction false} SqueezeKeeps(s: string, c: char)
    ensures c in Squeeze(s) <==> c in s && !IsSpace(c)
  {
    if s != [] {
      SqueezeKeeps(s[1..], c);
      assert s == [s[0]] + s[1..];
    }
  }

  // The text passed to eval holds only 0-9 + - * / ( ) . and so no whitespace.
  lemma SanitizedAlphabet(s: string)
    ensures forall c :: c in Sanitize(s) ==> Allowed(c) && !IsSpace(c)
  {
    forall c | c in Sanitize(s) ensures Allowed(c) && !IsSpace(c) {
      SqueezeKeeps(Mask(s), c);
      var i :| 0 <= i < |Mask(s)| && Mask(s)[i] == c;
    }
  }

  /** Running a table in two parts is running it whole. */
  lemma {:induction false} ApplyAllSplit(s: string, t1: seq<(string, string)>, t2: seq<(string, string)>)
    requires KeysNonEmpty(t1) && KeysNonEmpty(t2)
    ensures KeysNonEmpty(t1 + t2)
    ensures ApplyAll(s, t1 + t2) == ApplyAll(ApplyAll(s, t1), t2)
    decreases |t2|
  {
    if t2 == [] {
      assert t1 + t2 == t1;
    } else {
      var init := t2[..|t2| - 1];
      ApplyAllSplit(s, t1, init);
      assert (t1 + t2)[..|t1 + t2| - 1] == t1 + init;
    }
  }

  /** A character that the text lacks and no entry of `table` writes stays absent. */
  lemma {:induction false} AbsentThroughTable(s: string, table: seq<(string, string)>, c: char)
    requires KeysNonEmpty(table) && c !in s
    requires forall i :: 0 <= i < |table| ==> c !in table[i].1
    ensures c !in ApplyAll(s, table)
    decreases |table|
  {
    if table != [] {
      var init := table[..|table| - 1];
      AbsentThroughTable(s, init, c);
      ReplaceKeepsAbsentChar(ApplyAll(s, init), table[|table| - 1].0, table[|table| - 1].1, c);
    }
  }

  /** `guards` are characters the text lacks and no entry writes. When every
      entry that writes `c` has a guard in its key, such an entry never
      fires, so a `c` the text lacks stays absent. */
  lemma {:induction false} GuardedThrough(s: string, table: seq<(string, string)>, c: char, guards: set<char>)
    requires KeysNonEmpty(table) && c !in s
    requires forall g :: g in guards ==> g !in s
    requires forall i :: 0 <= i < |table| ==> forall g :: g in guards ==> g !in table[i].1
    requires forall i :: 0 <= i < |table| && c in table[i].1 ==> exists g :: g in guards && g in table[i].0
    ensures c !in ApplyAll(s, table)
    ensures forall g :: g in guards ==> g !in ApplyAll(s, table)
    decreases |table|
  {
    if table != [] {
      var init := table[..|table| - 1];
      var k, v := table[|table| - 1].0, table[|table| - 1].1;
      GuardedThrough(s, init, c, guards);
      var before := ApplyAll(s, init);
      forall g | g in guards ensures g !in ApplyAll(s, table) {
        ReplaceKeepsAbsentChar(before, k, v, g);
      }
      if c in v {
        var g :| g in guards && g in k;
        NoCharNoContains(before, k, g);
        ReplaceAbsent(before, k, v);
      } else {
        ReplaceKeepsAbsentChar(before, k, v, c);
      }
    }
  }

  /** When every key holds a character the text lacks, no entry fires. */
  lemma {:induction false} UntouchedTable(s: string, table: seq<(string, string)>, guards: set<char>)
    requires KeysNonEmpty(table)
    requires forall g :: g in guards ==> g !in s
    requires forall i :: 0 <= i < |table| ==> exists g :: g in guards && g in table[i].0
    ensures ApplyAll(s, table) == s
    decreases |table|
  {
    if table != [] {
      var init := table[..|table| - 1];
      var k, v := table[|table| - 1].0, table[|table| - 1].1;
      UntouchedTable(s, init, guards);
      var g :| g in guards && g in k;
      NoCharNoContains(s, k, g);
      ReplaceAbsent(s, k, v);
    }
  }

  /** After the `"e" -> "+"` step no intermediate text holds an `e`, since
      no later replacement writes one. */
  lemma NoEAfterStep(s: string, k: nat)
    requires 5 <= k <= |Replacements|
    ensures 'e' !in ApplyAll(s, Replacements[..k])
  {
    var pre, post := Replacements[..5], Replacements[5..k];
    assert Replacements[..k] == pre + post;
    ApplyAllSplit(s, pre, post);
    EGone(s);
    ValuesAreOperators();
    forall i | 0 <= i < |post| ensures post[i] == Replacements[5 + i] {
    }
    AbsentThroughTable(ApplyAll(s, pre), post, 'e');
  }

  /** The fifth replacement, `"e" -> "+"`, removes every `e`. */
  lemma EGone(s: string)
    ensures 'e' !in ApplyAll(s, Replacements[..5])
  {
    assert Replacements[..5][..4] == Replacements[..4];
    assert Replacements[4] == ("e", "+");
    ReplaceRemovesChar(ApplyAll(s, Replacements[..4]), 'e', "+");
  }

  /** The keys "menos", "vezes", "multiplique", "elevado à" and "elevado a"
      are dead: their turn comes after `"e"` was rewritten, so they never
      occur and their replacement changes nothing. */
  lemma DeadKeys(s: string)
    ensures forall k :: 5 < k < |Replacements| && 'e' in Replacements[k].0 ==>
      ApplyAll(s, Replacements[..k + 1]) == ApplyAll(s, Replacements[..k])
    ensures 'e' in Replacements[6].0 && 'e' in Replacements[9].0 && 'e' in Replacements[11].0
      && 'e' in Replacements[14].0 && 'e' in Replacements[15].0
  {
    forall k | 5 < k < |Replacements| && 'e' in Replacements[k].0
      ensures ApplyAll(s, Replacements[..k + 1]) == ApplyAll(s, Replacements[..k])
    {
      var before := ApplyAll(s, Replacements[..k]);
      NoEAfterStep(s, k);
      NoCharNoContains(before, Replacements[k].0, 'e');
      ReplaceAbsent(before, Replacements[k].0, Replacements[k].1);
      assert Replacements[..k + 1][..k] == Replacements[..k];
    }
    assert Replacements[6].0[1] == 'e';
    assert Replacements[9].0[1] == 'e';
    assert Replacements[11].0[10] == 'e';
    assert Replacements[14].0[0] == 'e';
    assert Replacements[15].0[0] == 'e';
  }

  /** A character that no replacement writes and the text lacks stays absent. */
  lemma AbsentThrough(s: string, k: nat, c: char)
    requires k <= |Replacements| && c !in s
    requires forall i :: 0 <= i < |Replacements| ==> c !in Replacements[i].1
    ensures c !in ApplyAll(s, Replacements[..k])
  {
    AbsentThroughTable(s, Replacements[..k], c);
  }

  /** Every replacement writes operator characters only. */
  lemma ValuesAreOperators()
    ensures forall i :: 0 <= i < |Replacements| ==> forall c :: c in Replacements[i].1 ==> c in "+-*/"
  {
  }

  /** Only "menos", "subtrair" and "subtraia" write a `-`; the first holds
      an `e`, the other two a `b`. */
  lemma MinusWriters()
    ensures forall i :: 0 <= i < |Replacements| && '-' in Replacements[i].1 ==> 6 <= i <= 8
    ensures 'e' in Replacements[6].0 && 'b' in Replacements[7].0 && 'b' in Replacements[8].0
  {
    assert Replacements[6].0[1] == 'e';
    assert Replacements[7].0[2] == 'b';
    assert Replacements[8].0[2] == 'b';
  }

  /** Without a `-` and without a `b` (which both "subtrair" and "subtraia"
      hold) no step writes a `-`: "menos" is dead by then. */
  lemma NoMinusThrough(s: string, k: nat)
    requires k <= |Replacements| && '-' !in s && 'b' !in s
    ensures '-' !in ApplyAll(s, Replacements[..k])
  {
    if k <= 6 {
      NoMinusBefore(s, k);
    } else {
      var pre, post := Replacements[..6], Replacements[6..k];
      assert Replacements[..k] == pre + post;
      ApplyAllSplit(s, pre, post);
      NoMinusBefore(s, 6);
      NoEAfterStep(s, 6);
      NoMinusAfter(ApplyAll(s, pre), k);
    }
  }

  /** The first six replacements write no `-` and no `b`. */
  lemma NoMinusBefore(s: string, k: nat)
    requires k <= 6 && '-' !in s && 'b' !in s
    ensures '-' !in ApplyAll(s, Replacements[..k]) && 'b' !in ApplyAll(s, Replacements[..k])
  {
    ValuesAreOperators();
    AbsentThroughTable(s, Replacements[..k], '-');
    AbsentThroughTable(s, Replacements[..k], 'b');
  }

  /** From "menos" on, a text without `-`, `b` and `e` gains no `-`. */
  lemma NoMinusAfter(s: string, k: nat)
    requires 6 <= k <= |Replacements| && '-' !in s && 'b' !in s && 'e' !in s
    ensures '-' !in ApplyAll(s, Replacements[6..k])
  {
    var post := Replacements[6..k];
    ValuesAreOperators();
    MinusWriters();
    forall i | 0 <= i < |post| ensures post[i] == Replacements[6 + i] {
    }
    GuardedThrough(s, post, '-', {'b', 'e'});
  }

  /** Sanitising writes no character other than the spaces it then drops. */
  lemma SanitizeKeepsAbsent(s: string, c: char)
    requires c !in s
    ensures c !in Sanitize(s)
  {
    SqueezeKeeps(Mask(s), c);
    if c in Mask(s) {
      var i :| 0 <= i < |Mask(s)| && Mask(s)[i] == c;
    }
  }

  /** A question that writes its subtraction as "menos" is never evaluated as
      a subtraction: the expression holds no `-` at all. */
  lemma MenosIsNotMinus(query: string)
    requires '-' !in LowerStr(query) && 'b' !in LowerStr(query)
    ensures '-' !in Expression(query)
  {
    NoMinusThrough(LowerStr(query), |Replacements|);
    assert Replacements[..|Replacements|] == Replacements;
    SanitizeKeepsAbsent(ApplyAll(LowerStr(query), Replacements), '-');
  }

  /** "Calcule 100 menos 25." reaches `eval` as `+100+25.`: the `e` of
      "calcule" and of "menos" both became `+`, so no subtraction is left. */
  lemma MenosExpression()
    ensures Expression("Calcule 100 menos 25.") == "+100+25."
  {
    MenosExampleLower();
    MenosRewrite();
    MenosMask();
    MenosSqueeze();
  }

  /** `eval("+100+25.")` is the float 125.0 (`25.` is a float literal); being
      integral it is shown as an int, so "Calcule 100 menos 25." is answered
      "O resultado é 125.", not the 75 the words ask for. */
  lemma MenosExample(evaluate: string -> Option<PyValue>)
    requires evaluate("+100+25.") == Some(PyFloat(125.0, "125.0"))
    ensures Reply(evaluate(Expression("Calcule 100 menos 25."))) == "O resultado é 125."
  {
    MenosExpression();
    RenderIntegral(PyFloat(125.0, "125.0"), 125);
    assert NatToString(125) == "125";
  }

  lemma MenosExampleLower()
    ensures LowerStr("Calcule 100 menos 25.") == "calcule 100 menos 25."
  {
  }

  /** The replacement loop turns the lowered question into `calcul+ 100 m+nos 25.`. */
  lemma MenosRewrite()
    ensures ApplyAll("calcule 100 menos 25.", Replacements) == "calcul+ 100 m+nos 25."
  {
    MenosThroughE();
    MenosAfterE();
    ApplyAllSplit("calcule 100 menos 25.", Replacements[..5], Replacements[5..]);
    assert Replacements[..5] + Replacements[5..] == Replacements;
  }

  /** Up to and including `"e" -> "+"`, only that step changes the text. */
  lemma MenosThroughE()
    ensures ApplyAll("calcule 100 menos 25.", Replacements[..5]) == "calcul+ 100 m+nos 25."
  {
    MenosBeforeE();
    assert Replacements[..5][..4] == Replacements[..4];
    assert Replacements[..5][4] == ("e", "+");
    MenosEStep();
  }

  /** None of "mais", "somar", "adição" and "soma" occurs in the lowered question. */
  lemma MenosBeforeE()
    ensures ApplyAll("calcule 100 menos 25.", Replacements[..4]) == "calcule 100 menos 25."
  {
    MenosFirstThree();
    assert Replacements[..4][..3] == Replacements[..3];
    assert Replacements[..4][3] == ("soma", "+");
    NoSoma();
    ReplaceAbsent("calcule 100 menos 25.", "soma", "+");
  }

  /** "mais", "somar" and "adição" hold an `i`, an `r` and a `d`, which the
      lowered question lacks. */
  lemma MenosFirstThree()
    ensures ApplyAll("calcule 100 menos 25.", Replacements[..3]) == "calcule 100 menos 25."
  {
    var pre := Replacements[..3];
    EarlyKeysGuarded();
    forall i | 0 <= i < |pre| ensures GuardedKey(pre[i].0, "dir") {
      assert pre[i] == Replacements[i];
    }
    assert forall g :: g in "dir" ==> g !in "calcule 100 menos 25.";
    UntouchedGuarded("calcule 100 menos 25.", pre, "dir");
  }

  /** The only `s` of the lowered question is followed by a space. */
  lemma NoSoma()
    ensures !Contains("calcule 100 menos 25.", "soma")
  {
    assert "calcule 100 menos 25." == "calcule 100 meno" + "s 25.";
    ContainsSkips("calcule 100 meno", "s 25.", "soma");
    assert "s 25."[1..] == " 25." + [];
    assert Contains("s 25.", "soma") == Contains(" 25.", "soma");
    ContainsSkips(" 25.", [], "soma");
  }

  /** `"e" -> "+"` rewrites the two `e`s. */
  lemma MenosEStep()
    ensures ReplaceAll("calcule 100 menos 25.", "e", "+") == "calcul+ 100 m+nos 25."
  {
    assert "calcule 100 menos 25." == "calcul" + ("e" + (" 100 m" + ("e" + "nos 25.")));
    assert "calcul+ 100 m+nos 25." == "calcul" + ("+" + (" 100 m" + ("+" + "nos 25.")));
    ReplaceFirst("calcul", 'e', "+", " 100 m" + ("e" + "nos 25."));
    ReplaceFirst(" 100 m", 'e', "+", "nos 25.");
    NoCharNoContains("nos 25.", "e", 'e');
    ReplaceAbsent("nos 25.", "e", "+");
  }

  /** Replacing the character `c` up to its first occurrence. */
  lemma ReplaceFirst(a: string, c: char, v: string, rest: string)
    requires c !in a
    ensures ReplaceAll(a + ([c] + rest), [c], v) == a + (v + ReplaceAll(rest, [c], v))
  {
    ReplaceCharAppend(a, [c] + rest, c, v);
    NoCharNoContains(a, [c], c);
    ReplaceAbsent(a, [c], v);
    assert ([c] + rest)[1..] == rest;
  }

  /** No key after `"e"` occurs once the `e`s are gone: each holds a `b`,
      `d`, `e`, `t` or `v` among its first five characters. */
  lemma MenosAfterE()
    ensures ApplyAll("calcul+ 100 m+nos 25.", Replacements[5..]) == "calcul+ 100 m+nos 25."
  {
    var post := Replacements[5..];
    LateKeysGuarded();
    forall i | 0 <= i < |post| ensures GuardedKey(post[i].0, "bdetv") {
      assert post[i] == Replacements[5 + i];
    }
    assert forall g :: g in "bdetv" ==> g !in "calcul+ 100 m+nos 25.";
    UntouchedGuarded("calcul+ 100 m+nos 25.", post, "bdetv");
  }

  /** One of the first five characters of `key` is among `guards`. */
  predicate GuardedKey(key: string, guards: string) {
    || (|key| > 0 && key[0] in guards)
    || (|key| > 1 && key[1] in guards)
    || (|key| > 2 && key[2] in guards)
    || (|key| > 3 && key[3] in guards)
    || (|key| > 4 && key[4] in guards)
  }

  lemma EarlyKeysGuarded()
    ensures forall i :: 0 <= i < 3 ==> GuardedKey(Replacements[i].0, "dir")
  {
  }

  lemma LateKeysGuarded()
    ensures forall i :: 5 <= i < |Replacements| ==> GuardedKey(Replacements[i].0, "bdetv")
  {
  }

  /** When every key holds a character the text lacks, no entry fires. */
  lemma {:induction false} UntouchedGuarded(s: string, table: seq<(string, string)>, guards: string)
    requires KeysNonEmpty(table)
    requires forall g :: g in guards ==> g !in s
    requires forall i :: 0 <= i < |table| ==> GuardedKey(table[i].0, guards)
    ensures ApplyAll(s, table) == s
    decreases |table|
  {
    if table != [] {
      var init := table[..|table| - 1];
      var k, v := table[|table| - 1].0, table[|table| - 1].1;
      UntouchedGuarded(s, init, guards);
      assert GuardedKey(k, guards);
      var j := if k[0] in guards then 0 else if k[1] in guards then 1 else if k[2] in guards then 2
        else if k[3] in guards then 3 else 4;
      NoCharNoContains(s, k, k[j]);
      ReplaceAbsent(s, k, v);
    }
  }

  /** The character filter of the rewritten question. */
  lemma MenosMask()
    ensures Mask("calcul+ 100 m+nos 25.") == "      + 100  +    25."
  {
  }

  /** Dropping the whitespace leaves `+100+25.`. */
  lemma MenosSqueeze()
    ensures Squeeze("      + 100  +    25.") == "+100+25."
  {
    var tail := "    " + ("25." + []);
    assert "      + 100  +    25." == "      " + ("+" + (" " + ("100" + ("  " + ("+" + tail)))));
    assert "+100+25." == "+" + ("100" + ("+" + ("25." + [])));
    SqueezeRun("      ", "+", " " + ("100" + ("  " + ("+" + tail))));
    SqueezeRun(" ", "100", "  " + ("+" + tail));
    SqueezeRun("  ", "+", tail);
    SqueezeRun("    ", "25.", []);
  }

  /** A run of whitespace and then a run of other characters squeeze to the latter. */
  lemma SqueezeRun(sp: string, w: string, rest: string)
    requires AllSpace(sp) && NoSpace(w)
    ensures Squeeze(sp + (w + rest)) == w + Squeeze(rest)
  {
    SqueezeAppend(sp, w + rest);
    SqueezeAppend(w, rest);
    SqueezeSpaces(sp);
    SqueezeWord(w);
  }

  predicate AllSpace(s: string) {
    forall i :: 0 <= i < |s| ==> IsSpace(s[i])
  }

  lemma {:induction false} SqueezeSpaces(s: string)
    requires AllSpace(s)
    ensures Squeeze(s) == []
    decreases |s|
  {
    if s != [] {
      SqueezeSpaces(s[1..]);
    }
  }

  lemma {:induction false} SqueezeWord(s: string)
    requires NoSpace(s)
    ensures Squeeze(s) == s
    decreases |s|
  {
    if s != [] {
      SqueezeWord(s[1..]);
      assert s == [s[0]] + s[1..];
    }
  }

  /** Squeezing works piece by piece. */
  lemma {:induction false} SqueezeAppend(a: string, b: string)
    ensures Squeeze(a + b) == Squeeze(a) + Squeeze(b)
    decreases |a|
  {
    if a == [] {
      assert a + b == b;
    } else {
      assert (a + b)[0] == a[0];
      assert (a + b)[1..] == a[1..] + b;
      SqueezeAppend(a[1..], b);
    }
  }

  /** Each key holds one of `d`, `e`, `i`, `m`, `s` among its first two characters. */
  predicate Marked(key: string) {
    (|key| > 0 && key[0] in "deims") || (|key| > 1 && key[1] in "deims")
  }

  /** A text without `d`, `e`, `i`, `m` and `s` holds no key, so every
      replacement leaves it alone. */
  lemma UnmarkedUntouched(s: string, k: nat)
    requires k <= |Replacements|
    requires forall c :: c in "deims" ==> c !in s
    ensures ApplyAll(s, Replacements[..k]) == s
  {
    var guards := set c | c in "deims";
    KeysMarked();
    forall i | 0 <= i < k ensures exists g :: g in guards && g in Replacements[..k][i].0 {
      var key := Replacements[i].0;
      assert Replacements[..k][i] == Replacements[i];
      var g := if key[0] in "deims" then key[0] else key[1];
      assert g in guards && g in key;
    }
    UntouchedTable(s, Replacements[..k], guards);
  }

  lemma KeysMarked()
    ensures forall i :: 0 <= i < |Replacements| ==> Marked(Replacements[i].0)
  {
  }

  /** The rewriting step leaves a text without `d`, `e`, `i`, `m` and `s` as it is. */
  lemma UnmarkedExpression(s: string)
    requires forall c :: c in "deims" ==> c !in s
    ensures ApplyAll(s, Replacements) == s
  {
    UnmarkedUntouched(s, |Replacements|);
    assert Replacements[..|Replacements|] == Replacements;
  }

  /** "Quanto é 2 + 2?", in any letter case, is evaluated as `2+2`. */
  lemma AdditionExpression(query: string)
    requires LowerStr(query) == "quanto é 2 + 2?"
    ensures Expression(query) == "2+2"
  {
    AdditionExampleLower();
    UnmarkedExpression(LowerStr(query));
    AdditionExampleMask();
    AdditionExampleSqueeze();
  }

  /** "Quanto é 2 + 2?" is answered "O resultado é 4." when `eval` gives the int 4. */
  lemma AdditionExample(evaluate: string -> Option<PyValue>)
    requires evaluate("2+2") == Some(PyInt(4))
    ensures Reply(evaluate(Expression("Quanto é 2 + 2?"))) == "O resultado é 4."
  {
    AdditionExampleLower();
    AdditionExpression("Quanto é 2 + 2?");
  }

  lemma AdditionExampleLower()
    ensures LowerStr("Quanto é 2 + 2?") == "quanto é 2 + 2?"
    ensures forall c :: c in "deims" ==> c !in "quanto é 2 + 2?"
  {
  }

  lemma AdditionExampleMask()
    ensures Mask("quanto é 2 + 2?") == "         2 + 2 "
  {
  }

  lemma AdditionExampleSqueeze()
    ensures Squeeze("         2 + 2 ") == "2+2"
  {
    assert Squeeze("2 ") == "2";
    assert Squeeze(" 2 ") == "2";
    assert Squeeze("+ 2 ") == "+2";
    assert Squeeze(" + 2 ") == "+2";
    assert Squeeze("2 + 2 ") == "2+2";
  }

  /** The reply is the apology exactly when `eval` raised or the value could
      not be formatted; every other reply says "O resultado é ...". */
  lemma ReplyApology(result: Option<PyValue>)
    ensures Reply(result) == Apology <==> result.None? || Render(result.value).None?
    ensures Reply(result) != Apology ==> "O resultado é " <= Reply(result)
  {
    if result.Some? && Render(result.value).Some? {
      var t := Render(result.value).value;
      assert Reply(result) == "O resultado é " + t + ".";
      ResultOpens(t);
      ApologyOpens();
    }
  }

  lemma ResultOpens(t: string)
    ensures var r := "O resultado é " + t + "."; r[0] == 'O' && "O resultado é " <= r
  {
    var r := "O resultado é " + t + ".";
    assert r == "O resultado é " + (t + ".");
    assert "O resultado é " == "O" + " resultado é ";
  }

  lemma ApologyOpens()
    ensures Apology[0] == 'D'
  {
    assert "Desculpe,"[0] == 'D';
  }

  /** Formatting fails exactly for an integral value (an int, or a float with
      no fractional part) of magnitude 10^4300 or more. */
  lemma RenderFails(v: PyValue)
    ensures Render(v).None? <==>
      || (v.PyInt? && Pow10(MaxStrDigits) <= Abs(v.i))
      || (v.PyFloat? && v.x.Floor as real == v.x && Pow10(MaxStrDigits) <= Abs(v.x.Floor))
  {
    match v
    case PyInt(i) => NatToStringLength(Abs(i), MaxStrDigits);
    case PyFloat(x, _) => NatToStringLength(Abs(x.Floor), MaxStrDigits);
    case PyOther(_) =>
  }

  /** An integral result below 10^4300 in magnitude is shown as its decimal
      digits, after a `-` when negative, which read back as the value; an
      integral float thus loses its `.0`. */
  lemma RenderIntegral(v: PyValue, n: int)
    requires v == PyInt(n) || (v.PyFloat? && v.x == n as real)
    requires Abs(n) < Pow10(MaxStrDigits)
    ensures Render(v).Some?
    ensures var t := Render(v).value;
      && '.' !in t
      && (n >= 0 ==> (forall i :: 0 <= i < |t| ==> '0' <= t[i] <= '9') && DecimalValue(t) == n)
      && (n < 0 ==> |t| > 1 && t[0] == '-' && (forall i :: 1 <= i < |t| ==> '0' <= t[i] <= '9') && DecimalValue(t[1..]) == -n)
  {
    RenderShown(v, n);
    var t := Render(v).value;
    assert t == IntToString(n);
    IntToStringDigits(n);
  }

  /** Such a value is shown as `str(n)`. */
  lemma RenderShown(v: PyValue, n: int)
    requires v == PyInt(n) || (v.PyFloat? && v.x == n as real)
    requires Abs(n) < Pow10(MaxStrDigits)
    ensures Render(v) == Some(IntToString(n))
  {
    NatToStringLength(Abs(n), MaxStrDigits);
    if v.PyFloat? {
      assert v.x.Floor == n;
    }
  }

  /** `str(n)` is the digits of `|n|`, after a `-` when `n` is negative. */
  lemma IntToStringDigits(n: int)
    ensures var t := IntToString(n);
      && '.' !in t
      && (n >= 0 ==> (forall i :: 0 <= i < |t| ==> '0' <= t[i] <= '9') && DecimalValue(t) == n)
      && (n < 0 ==> |t| > 1 && t[0] == '-' && (forall i :: 1 <= i < |t| ==> '0' <= t[i] <= '9') && DecimalValue(t[1..]) == -n)
  {
    NatToStringRoundTrip(Abs(n));
    var t := IntToString(n);
    if n < 0 {
      assert t[1..] == NatToString(-n);
    }
  }
}
