/**
  The string operations the chatbot relies on: Python's whitespace class,
  `str.lower`, the module's `_normalize`, `str.split()`, the `in` substring
  test, `str.replace`, `str.join` and `str(int)`.
 */
module Text {

  // ---------------------------------------------------------------------------
  // Characters
  // ---------------------------------------------------------------------------

  /** `str.isspace()`, which is also the class `\s` matches in a `str` regex. */
  predicate IsSpace(c: char) {
    c == ' ' || ('\t' <= c <= '\r') || ('\U{1C}' <= c <= '\U{1F}')
    || c == '\U{85}' || c == '\U{A0}' || c == '\U{1680}'
    || ('\U{2000}' <= c <= '\U{200A}') || c == '\U{2028}' || c == '\U{2029}'
    || c == '\U{202F}' || c == '\U{205F}' || c == '\U{3000}'
  }

  /** `str.lower()` on one character, for ASCII and the Latin-1 letters. */
  function Lower(c: char): char {
    if 'A' <= c <= 'Z' || ('\U{C0}' <= c <= '\U{DE}' && c != '\U{D7}')
    then (c as int + 32) as char
    else c
  }

  /** Lower-casing never turns a non-space into a space or back. */
  lemma LowerKeepsSpaces(c: char)
    ensures IsSpace(Lower(c)) <==> IsSpace(c)
    ensures Lower(Lower(c)) == Lower(c)
  {
  }

  function LowerStr(s: string): string {
    seq(|s|, i requires 0 <= i < |s| => Lower(s[i]))
  }

  /** Every character is already its own lower case. */
  predicate IsLowerStr(s: string) {
    forall i :: 0 <= i < |s| ==> Lower(s[i]) == s[i]
  }

  /** A lower-cased text is lower case. */
  lemma LowerStrIsLower(s: string)
    ensures IsLowerStr(LowerStr(s))
  {
    forall i | 0 <= i < |s| ensures Lower(LowerStr(s)[i]) == LowerStr(s)[i] {
      LowerKeepsSpaces(s[i]);
    }
  }

  /** `s` neither starts nor ends with whitespace. */
  predicate NoEdgeSpace(s: string) {
    s == [] || (!IsSpace(s[0]) && !IsSpace(s[|s| - 1]))
  }

  /** The only whitespace in `s` is `' '`, and no two whitespace characters are adjacent. */
  predicate SingleSpaced(s: string) {
    forall i :: 0 <= i < |s| && IsSpace(s[i]) ==>
      s[i] == ' ' && (i + 1 < |s| ==> !IsSpace(s[i + 1]))
  }

  // ---------------------------------------------------------------------------
  // Stripping, collapsing and _normalize
  // ---------------------------------------------------------------------------

  /** Drops the leading whitespace of `s`. */
  function SkipSpaces(s: string): (r: string)
    ensures |r| <= |s|
  {
    if s != [] && IsSpace(s[0]) then SkipSpaces(s[1..]) else s
  }

  /** SkipSpaces drops a prefix made only of whitespace and stops at a non-space. */
  lemma {:induction false} SkipSpacesShape(s: string)
    ensures var r := SkipSpaces(s);
      && r == s[|s| - |r|..]
      && (forall i :: 0 <= i < |s| - |r| ==> IsSpace(s[i]))
      && (r == [] || !IsSpace(r[0]))
  {
    if s != [] && IsSpace(s[0]) {
      SkipSpacesShape(s[1..]);
      assert forall i :: 1 <= i < |s| - |SkipSpaces(s)| ==> s[i] == s[1..][i - 1];
    }
  }

  /** Drops the trailing whitespace of `s`. */
  function SkipTrailingSpaces(s: string): (r: string)
    ensures |r| <= |s|
  {
    if s != [] && IsSpace(s[|s| - 1]) then SkipTrailingSpaces(s[..|s| - 1]) else s
  }

  /** SkipTrailingSpaces drops a suffix made only of whitespace and stops at a non-space. */
  lemma {:induction false} SkipTrailingSpacesShape(s: string)
    ensures var r := SkipTrailingSpaces(s);
      && r == s[..|r|]
      && (forall i :: |r| <= i < |s| ==> IsSpace(s[i]))
      && (r == [] || !IsSpace(r[|r| - 1]))
  {
    if s != [] && IsSpace(s[|s| - 1]) {
      var init := s[..|s| - 1];
      SkipTrailingSpacesShape(init);
      assert forall i :: 0 <= i < |init| ==> init[i] == s[i];
    }
  }

  /** `str.strip()`. */
  function Strip(s: string): string {
    SkipTrailingSpaces(SkipSpaces(s))
  }

  /** `str.strip()` leaves no whitespace at either end. */
  lemma StripShape(s: string)
    ensures NoEdgeSpace(Strip(s))
  {
    var t := SkipSpaces(s);
    SkipSpacesShape(s);
    SkipTrailingSpacesShape(t);
    var r := Strip(s);
    if r != [] {
      assert r[0] == t[0];
    }
  }

  /** `re.sub(r"\s+", " ", s)`: every maximal run of whitespace becomes one space. */
  function Collapse(s: string): (r: string)
    ensures |r| <= |s|
    decreases |s|
  {
    if s == [] then []
    else if IsSpace(s[0]) then [' '] + Collapse(SkipSpaces(s))
    else [s[0]] + Collapse(s[1..])
  }

  /** Collapse keeps a text empty or not, and keeps whether it starts and ends with whitespace. */
  lemma {:induction false} CollapseEnds(s: string)
    ensures (Collapse(s) == []) <==> (s == [])
    ensures s != [] ==> (IsSpace(Collapse(s)[0]) <==> IsSpace(s[0]))
    ensures s != [] ==> (IsSpace(Collapse(s)[|Collapse(s)| - 1]) <==> IsSpace(s[|s| - 1]))
    decreases |s|
  {
    if s != [] {
      if IsSpace(s[0]) {
        var rest := SkipSpaces(s);
        SkipSpacesShape(s);
        CollapseEnds(rest);
        if rest != [] {
          assert rest[|rest| - 1] == s[|s| - 1];
        }
      } else {
        CollapseEnds(s[1..]);
      }
    }
  }

  /** After Collapse the only whitespace is single spaces. */
  lemma {:induction false} CollapseIsSingleSpaced(s: string)
    ensures SingleSpaced(Collapse(s))
    decreases |s|
  {
    if s == [] {
    } else if IsSpace(s[0]) {
      var rest := SkipSpaces(s);
      SkipSpacesShape(s);
      CollapseEnds(rest);
      CollapseIsSingleSpaced(rest);
      var tail := Collapse(rest);
      assert Collapse(s) == [' '] + tail;
      assert forall i :: 1 <= i < |Collapse(s)| ==> Collapse(s)[i] == tail[i - 1];
    } else {
      CollapseIsSingleSpaced(s[1..]);
      var tail := Collapse(s[1..]);
      assert Collapse(s) == [s[0]] + tail;
      assert forall i :: 1 <= i < |Collapse(s)| ==> Collapse(s)[i] == tail[i - 1];
    }
  }

  /** Collapse only inserts spaces, so it keeps a lower-case text lower case. */
  lemma {:induction false} CollapseKeepsLower(s: string)
    requires IsLowerStr(s)
    ensures IsLowerStr(Collapse(s))
    decreases |s|
  {
    if s != [] {
      var rest := if IsSpace(s[0]) then SkipSpaces(s) else s[1..];
      SkipSpacesShape(s);
      assert IsLowerStr(rest) by {
        forall i | 0 <= i < |rest| ensures Lower(rest[i]) == rest[i] {
          assert rest[i] == s[|s| - |rest| + i];
        }
      }
      CollapseKeepsLower(rest);
      var head := if IsSpace(s[0]) then ' ' else s[0];
      assert Collapse(s) == [head] + Collapse(rest);
      forall i | 0 <= i < |Collapse(s)| ensures Lower(Collapse(s)[i]) == Collapse(s)[i] {
        if i > 0 {
          assert Collapse(s)[i] == Collapse(rest)[i - 1];
        }
      }
    }
  }

  /** The module's `_normalize`: strip, lower-case, collapse whitespace runs. */
  function Normalize(s: string): string {
    Collapse(LowerStr(Strip(s)))
  }

  /** A normalised text is lower case, has no whitespace at either end, and
      its only whitespace is single spaces. */
  lemma NormalizeShape(s: string)
    ensures var r := Normalize(s); IsLowerStr(r) && NoEdgeSpace(r) && SingleSpaced(r)
  {
    var stripped := LowerStr(Strip(s));
    StripShape(s);
    forall i | 0 <= i < |Strip(s)| ensures IsSpace(stripped[i]) <==> IsSpace(Strip(s)[i]) {
      LowerKeepsSpaces(Strip(s)[i]);
    }
    assert IsLowerStr(stripped) by {
      forall i | 0 <= i < |stripped| ensures Lower(stripped[i]) == stripped[i] {
        LowerKeepsSpaces(Strip(s)[i]);
      }
    }
    CollapseEnds(stripped);
    CollapseIsSingleSpaced(stripped);
    CollapseKeepsLower(stripped);
  }

  /** A string that is already single-spaced is left alone by Collapse. */
  lemma {:induction false} CollapseSingleSpaced(s: string)
    requires SingleSpaced(s)
    ensures Collapse(s) == s
    decreases |s|
  {
    if s != [] {
      var t := s[1..];
      SingleSpacedTail(s);
      CollapseSingleSpaced(t);
      assert s == [s[0]] + t;
      if IsSpace(s[0]) {
        assert s[0] == ' ';
        SkipOneSpace(s);
        assert Collapse(s) == [' '] + Collapse(t);
      } else {
        assert Collapse(s) == [s[0]] + Collapse(t);
      }
    }
  }

  lemma SingleSpacedTail(s: string)
    requires s != [] && SingleSpaced(s)
    ensures SingleSpaced(s[1..])
  {
    var t := s[1..];
    forall i | 0 <= i < |t| && IsSpace(t[i]) ensures t[i] == ' ' && (i + 1 < |t| ==> !IsSpace(t[i + 1])) {
      assert t[i] == s[i + 1];
    }
  }

  lemma SkipOneSpace(s: string)
    requires s != [] && IsSpace(s[0]) && (|s| > 1 ==> !IsSpace(s[1]))
    ensures SkipSpaces(s) == s[1..]
  {
    var t := s[1..];
    assert t == [] || !IsSpace(t[0]);
    assert SkipSpaces(t) == t;
  }

  /** Normalising twice is the same as normalising once. */
  lemma NormalizeIdempotent(s: string)
    ensures Normalize(Normalize(s)) == Normalize(s)
  {
    var r := Normalize(s);
    NormalizeShape(s);
    assert SkipSpaces(r) == r;
    assert SkipTrailingSpaces(r) == r;
    assert LowerStr(r) == r;
    CollapseSingleSpaced(r);
  }

  // ---------------------------------------------------------------------------
  // str.split()
  // ---------------------------------------------------------------------------

  /** The leading run of non-whitespace characters of `s`. */
  function WordPrefix(s: string): (w: string)
    ensures |w| <= |s|
  {
    if s == [] || IsSpace(s[0]) then [] else [s[0]] + WordPrefix(s[1..])
  }

  /** WordPrefix is the longest prefix without whitespace. */
  lemma {:induction false} WordPrefixShape(s: string)
    ensures var w := WordPrefix(s); w <= s && NoSpace(w) && (|w| < |s| ==> IsSpace(s[|w|]))
  {
    if s != [] && !IsSpace(s[0]) {
      WordPrefixShape(s[1..]);
      assert forall i :: 1 <= i < |WordPrefix(s)| ==> WordPrefix(s)[i] == WordPrefix(s[1..])[i - 1];
    }
  }

  predicate NoSpace(w: string) {
    forall i :: 0 <= i < |w| ==> !IsSpace(w[i])
  }

  /** `str.split()` without arguments: the maximal runs of non-whitespace, in order. */
  function Words(s: string): (ws: seq<string>)
    ensures |ws| <= |s|
    decreases |s|
  {
    var t := SkipSpaces(s);
    if t == [] then []
    else
      SkipSpacesShape(s);
      var w := WordPrefix(t);
      [w] + Words(t[|w|..])
  }

  /** Every word is non-empty and holds no whitespace. */
  lemma {:induction false} WordsAreWords(s: string)
    ensures forall k :: 0 <= k < |Words(s)| ==> Words(s)[k] != [] && NoSpace(Words(s)[k])
    decreases |s|
  {
    var t := SkipSpaces(s);
    if t != [] {
      SkipSpacesShape(s);
      var w := WordPrefix(t);
      WordPrefixShape(t);
      var rest := Words(t[|w|..]);
      WordsAreWords(t[|w|..]);
      assert Words(s) == [w] + rest;
      assert w != [] && NoSpace(w);
      forall k | 1 <= k < |Words(s)| ensures Words(s)[k] != [] && NoSpace(Words(s)[k]) {
        assert Words(s)[k] == rest[k - 1];
      }
    }
  }

  /** `set(s.split())`. */
  function Tokens(s: string): set<string> {
    set w | w in Words(s)
  }

  // ---------------------------------------------------------------------------
  // Substrings, str.replace and str.join
  // ---------------------------------------------------------------------------

  /** Python's `w in s` for two strings. */
  predicate Contains(s: string, w: string)
    decreases |s|
  {
    w <= s || (s != [] && Contains(s[1..], w))
  }

  /** `w` occurs in `s` starting at offset `i`. */
  predicate OccursAt(s: string, w: string, i: int) {
    0 <= i <= |s| - |w| && s[i..i + |w|] == w
  }

  /** `Contains` is the usual substring test: `w` occurs at some offset of `s`. */
  lemma ContainsIsInfix(s: string, w: string)
    ensures Contains(s, w) <==> exists i :: OccursAt(s, w, i)
  {
    if Contains(s, w) {
      ContainsWitness(s, w);
    }
    if exists i :: OccursAt(s, w, i) {
      var i :| OccursAt(s, w, i);
      ContainsAt(s, w, i);
    }
  }

  lemma {:induction false} ContainsWitness(s: string, w: string)
    requires Contains(s, w)
    ensures exists i :: OccursAt(s, w, i)
    decreases |s|
  {
    if w <= s {
      assert OccursAt(s, w, 0);
    } else {
      ContainsWitness(s[1..], w);
      var i :| OccursAt(s[1..], w, i);
      assert s[1..][i..i + |w|] == s[i + 1..i + 1 + |w|];
      assert OccursAt(s, w, i + 1);
    }
  }

  lemma {:induction false} ContainsAt(s: string, w: string, i: int)
    requires OccursAt(s, w, i)
    ensures Contains(s, w)
    decreases i
  {
    if i == 0 {
      assert w <= s;
    } else {
      assert s[1..][i - 1..i - 1 + |w|] == s[i..i + |w|];
      assert OccursAt(s[1..], w, i - 1);
      ContainsAt(s[1..], w, i - 1);
    }
  }

  /** Every character of a substring of `s` is a character of `s`. */
  lemma {:induction false} ContainsKeepsChars(s: string, w: string, i: nat)
    requires Contains(s, w) && i < |w|
    ensures w[i] in s
    decreases |s|
  {
    if w <= s {
      assert w[i] == s[i];
    } else {
      ContainsKeepsChars(s[1..], w, i);
    }
  }

  /** A substring of a lower-case string is lower case: a word holding an
      upper-case letter never occurs in a lower-cased text. */
  lemma LowerContainsOnlyLower(s: string, w: string)
    requires IsLowerStr(s) && Contains(s, w)
    ensures IsLowerStr(w)
  {
    forall i | 0 <= i < |w| ensures Lower(w[i]) == w[i] {
      ContainsKeepsChars(s, w, i);
    }
  }

  /** `s.replace(k, v)` for a non-empty `k`: every occurrence of `k`, scanning
      left to right without overlaps, is replaced by `v`. */
  function ReplaceAll(s: string, k: string, v: string): string
    requires k != []
    decreases |s|
  {
    if s == [] then []
    else if k <= s then v + ReplaceAll(s[|k|..], k, v)
    else [s[0]] + ReplaceAll(s[1..], k, v)
  }

  /** Replacing a key that does not occur changes nothing. */
  lemma {:induction false} ReplaceAbsent(s: string, k: string, v: string)
    requires k != [] && !Contains(s, k)
    ensures ReplaceAll(s, k, v) == s
    decreases |s|
  {
    if s != [] {
      ReplaceAbsent(s[1..], k, v);
    }
  }

  /** A character that the replacement text does not hold survives only where
      it was already present outside the replaced occurrences; in particular
      replacing the one-character key `[c]` by a text without `c` removes every `c`. */
  lemma {:induction false} ReplaceRemovesChar(s: string, c: char, v: string)
    requires c !in v
    ensures c !in ReplaceAll(s, [c], v)
    decreases |s|
  {
    if s != [] {
      if [c] <= s {
        ReplaceRemovesChar(s[1..], c, v);
        assert s[|[c]|..] == s[1..];
      } else {
        ReplaceRemovesChar(s[1..], c, v);
      }
    }
  }

  /** Replacing with a text that lacks `c` never introduces `c`. */
  lemma {:induction false} ReplaceKeepsAbsentChar(s: string, k: string, v: string, c: char)
    requires k != [] && c !in s && c !in v
    ensures c !in ReplaceAll(s, k, v)
    decreases |s|
  {
    if s != [] {
      if k <= s {
        assert forall x :: x in s[|k|..] ==> x in s;
        ReplaceKeepsAbsentChar(s[|k|..], k, v, c);
      } else {
        assert forall x :: x in s[1..] ==> x in s;
        ReplaceKeepsAbsentChar(s[1..], k, v, c);
      }
    }
  }

  /** A text without the character `c` contains no word that holds `c`. */
  lemma NoCharNoContains(s: string, w: string, c: char)
    requires c !in s && c in w
    ensures !Contains(s, w)
  {
    if Contains(s, w) {
      var i :| 0 <= i < |w| && w[i] == c;
      ContainsKeepsChars(s, w, i);
    }
  }

  /** An occurrence of `w` cannot start inside a prefix that lacks `w`'s first character. */
  lemma {:induction false} ContainsSkips(p: string, q: string, w: string)
    requires w != [] && w[0] !in p
    ensures Contains(p + q, w) <==> Contains(q, w)
    decreases |p|
  {
    if p == [] {
      assert p + q == q;
    } else {
      assert (p + q)[0] == p[0] != w[0];
      assert (p + q)[1..] == p[1..] + q;
      ContainsSkips(p[1..], q, w);
    }
  }

  /** Replacing a one-character key works piece by piece. */
  lemma {:induction false} ReplaceCharAppend(a: string, b: string, c: char, v: string)
    ensures ReplaceAll(a + b, [c], v) == ReplaceAll(a, [c], v) + ReplaceAll(b, [c], v)
    decreases |a|
  {
    if a == [] {
      assert a + b == b;
    } else {
      assert (a + b)[1..] == a[1..] + b;
      assert ([c] <= a + b) == ([c] <= a) == (a[0] == c);
      ReplaceCharAppend(a[1..], b, c, v);
    }
  }

  /** `sep.join(xs)`. */
  function Join(xs: seq<string>, sep: string): string {
    if xs == [] then []
    else if |xs| == 1 then xs[0]
    else xs[0] + sep + Join(xs[1..], sep)
  }

  /** Where item `j` would start in `sep.join(xs)`: after every earlier item
      and its separator. */
  function JoinOffset(xs: seq<string>, sep: string, j: nat): nat
    requires j <= |xs|
  {
    if j == 0 then 0 else |xs[0]| + |sep| + JoinOffset(xs[1..], sep, j - 1)
  }

  /** Item `j` sits unchanged at its offset in the joined text. */
  predicate ItemAt(xs: seq<string>, sep: string, j: nat)
    requires j < |xs|
  {
    var o, t := JoinOffset(xs, sep, j), Join(xs, sep);
    o + |xs[j]| <= |t| && t[o..o + |xs[j]|] == xs[j]
  }

  /** The separator sits right before item `j`. */
  predicate SepBefore(xs: seq<string>, sep: string, j: nat)
    requires j < |xs|
  {
    var o, t := JoinOffset(xs, sep, j), Join(xs, sep);
    |sep| <= o <= |t| && t[o - |sep|..o] == sep
  }

  /** `sep.join(xs)` of a non-empty list is its items in order, each but the
      first preceded by `sep`, and nothing more. */
  lemma {:induction false} JoinParts(xs: seq<string>, sep: string)
    requires xs != []
    ensures |Join(xs, sep)| + |sep| == JoinOffset(xs, sep, |xs|)
    ensures forall j :: 0 <= j < |xs| ==> ItemAt(xs, sep, j)
    ensures forall j :: 0 < j < |xs| ==> SepBefore(xs, sep, j)
    decreases |xs|
  {
    var t := Join(xs, sep);
    if |xs| == 1 {
      assert JoinOffset(xs, sep, 1) == |xs[0]| + |sep| + JoinOffset(xs[1..], sep, 0);
      assert t[0..|xs[0]|] == xs[0];
      assert ItemAt(xs, sep, 0);
    } else {
      var rest, head := xs[1..], xs[0] + sep;
      var h := |head|;
      JoinParts(rest, sep);
      var u := Join(rest, sep);
      assert t == head + u;
      assert t[0..|xs[0]|] == xs[0];
      assert ItemAt(xs, sep, 0);
      assert t[|xs[0]|..h] == sep;
      assert SepBefore(xs, sep, 1);
      forall j | 0 < j < |xs|
        ensures ItemAt(xs, sep, j)
        ensures SepBefore(xs, sep, j)
      {
        JoinPartsStep(xs, sep, j);
      }
    }
  }

  /** Item `j > 0` and the separator before it sit where they sit in the
      join of the tail, shifted by the head and its separator. */
  lemma JoinPartsStep(xs: seq<string>, sep: string, j: nat)
    requires 0 < j < |xs| && |xs| > 1
    requires forall m :: 0 <= m < |xs| - 1 ==> ItemAt(xs[1..], sep, m)
    requires forall m :: 0 < m < |xs| - 1 ==> SepBefore(xs[1..], sep, m)
    ensures ItemAt(xs, sep, j) && SepBefore(xs, sep, j)
  {
    var rest, head := xs[1..], xs[0] + sep;
    var u := Join(rest, sep);
    assert Join(xs, sep) == head + u;
    var o' := JoinOffset(rest, sep, j - 1);
    assert JoinOffset(xs, sep, j) == |head| + o';
    assert ItemAt(rest, sep, j - 1);
    assert rest[j - 1] == xs[j];
    SliceRight(head, u, o', o' + |rest[j - 1]|);
    if j > 1 {
      assert SepBefore(rest, sep, j - 1);
      SliceRight(head, u, o' - |sep|, o');
    } else {
      assert Join(xs, sep)[|xs[0]|..|head|] == sep;
    }
  }

  /** A slice of the right part of a concatenation. */
  lemma SliceRight(a: string, b: string, i: int, k: int)
    requires 0 <= i <= k <= |b|
    ensures (a + b)[|a| + i..|a| + k] == b[i..k]
  {
    forall m | 0 <= m < k - i ensures (a + b)[|a| + i..|a| + k][m] == b[i..k][m] {
    }
  }

  // ---------------------------------------------------------------------------
  // str(int)
  // ---------------------------------------------------------------------------

  function DigitChar(d: nat): char
    requires d < 10
  {
    "0123456789"[d]
  }

  /** Decimal digits of a natural number, most significant first, no leading zeros. */
  function NatToString(n: nat): (s: string)
    ensures |s| > 0
    ensures forall i :: 0 <= i < |s| ==> '0' <= s[i] <= '9'
    ensures |s| > 1 ==> s[0] != '0'
  {
    if n < 10 then [DigitChar(n)] else NatToString(n / 10) + [DigitChar(n % 10)]
  }

  function Pow10(k: nat): (p: nat)
    ensures p >= 1
  {
    if k == 0 then 1 else 10 * Pow10(k - 1)
  }

  /** `str(n)` has at most `k` digits exactly when `n < 10^k`. */
  lemma {:induction false} NatToStringLength(n: nat, k: nat)
    requires k >= 1
    ensures |NatToString(n)| <= k <==> n < Pow10(k)
    decreases n
  {
    if n >= 10 {
      assert |NatToString(n)| == |NatToString(n / 10)| + 1;
      if k == 1 {
        assert Pow10(1) == 10;
      } else {
        NatToStringLength(n / 10, k - 1);
        assert Pow10(k) == 10 * Pow10(k - 1);
      }
    } else {
      assert Pow10(k) == 10 * Pow10(k - 1);
    }
  }

  /** `str(i)` for a Python int. */
  function IntToString(i: int): string {
    if i < 0 then "-" + NatToString(-i) else NatToString(i)
  }

  /** The number that a string of decimal digits denotes. */
  function DecimalValue(s: string): nat
    requires forall i :: 0 <= i < |s| ==> '0' <= s[i] <= '9'
  {
    if s == [] then 0 else 10 * DecimalValue(s[..|s| - 1]) + (s[|s| - 1] as int - '0' as int)
  }

  /** Reading back the rendered digits gives the number again. */
  lemma {:induction false} NatToStringRoundTrip(n: nat)
    ensures DecimalValue(NatToString(n)) == n
  {
    if n >= 10 {
      NatToStringRoundTrip(n / 10);
      var s := NatToString(n);
      assert s[..|s| - 1] == NatToString(n / 10);
    }
  }
}
