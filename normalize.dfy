/**
 * Whitespace normalization of the collected text (index.ts lines 55-58):
 *
 *     content.replace(/\s+/g, " ").replace(/\n+/g, "\n").trim()
 *
 * Each step is modelled as written. Strings are sequences of Unicode scalar
 * values; every character the `\s` class contains lies in the Basic
 * Multilingual Plane, so the model agrees with JavaScript's UTF-16 view.
 */
module Cleanup {

  /**
   * The characters matched by the regular-expression class `\s` and removed by
   * `String.prototype.trim`: ECMAScript WhiteSpace (section 12.2 of ECMA-262:
   * TAB, VT, FF, SP, NBSP, ZWNBSP and every Space_Separator) together with
   * LineTerminator (section 12.3: LF, CR, LS, PS).
   */
  predicate IsWs(c: char) {
    || c == '\t' || c == '\U{000B}' || c == '\U{000C}' || c == ' '
    || c == '\U{00A0}' || c == '\U{FEFF}'
    || c == '\U{1680}' || ('\U{2000}' <= c <= '\U{200A}')
    || c == '\U{202F}' || c == '\U{205F}' || c == '\U{3000}'
    || c == '\n' || c == '\r' || c == '\U{2028}' || c == '\U{2029}'
  }

  /** The two character classes the cleanup chain repeats: `\s` and `\n`. */
  datatype CharClass = Whitespace | Newline

  predicate InClass(cls: CharClass, c: char) {
    match cls
    case Whitespace => IsWs(c)
    case Newline => c == '\n'
  }

  /**
   * What remains after one greedy match of `[cls]+` at the start of `s`:
   * the longest suffix of `s` that does not start with a `cls` character.
   */
  function DropRun(s: string, cls: CharClass): (r: string)
    ensures |r| <= |s| && r == s[|s| - |r|..]
    ensures forall i :: 0 <= i < |s| - |r| ==> InClass(cls, s[i])
    ensures r == [] || !InClass(cls, r[0])
  {
    if s != [] && InClass(cls, s[0]) then DropRun(s[1..], cls) else s
  }

  /** The characters of `s` outside the class `cls`, in order. */
  function Outside(s: string, cls: CharClass): string {
    if s == [] then []
    else (if InClass(cls, s[0]) then [] else [s[0]]) + Outside(s[1..], cls)
  }

  /** A leading run of the class holds nothing outside it. */
  lemma {:induction false} OutsideDropRun(s: string, cls: CharClass)
    ensures Outside(DropRun(s, cls), cls) == Outside(s, cls)
  {
    if s != [] && InClass(cls, s[0]) {
      OutsideDropRun(s[1..], cls);
    }
  }

  /**
   * `s.replace(/[cls]+/g, sub)`: the global replace scans left to right, and at
   * each position either matches a maximal run of `cls` characters, which it
   * replaces by the single character `sub`, or copies one character.
   */
  function ReplaceRuns(s: string, cls: CharClass, sub: char): (r: string)
    ensures |r| <= |s| && (r == [] <==> s == [])
    ensures InClass(cls, sub) ==> forall i :: 0 <= i < |r| && InClass(cls, r[i]) ==> r[i] == sub
    ensures InClass(cls, sub) ==> Outside(r, cls) == Outside(s, cls)
    decreases |s|
  {
    if s == [] then []
    else if InClass(cls, s[0]) then
      var rest := ReplaceRuns(DropRun(s, cls), cls, sub);
      OutsideDropRun(s, cls);
      assert ([sub] + rest)[1..] == rest;
      [sub] + rest
    else
      var rest := ReplaceRuns(s[1..], cls, sub);
      assert ([s[0]] + rest)[1..] == rest;
      [s[0]] + rest
  }

  /** Line 56: `.replace(/\s+/g, " ")`. */
  function CollapseWhitespace(s: string): (r: string)
    ensures |r| <= |s| && (r == [] <==> s == [])
    ensures forall i :: 0 <= i < |r| && IsWs(r[i]) ==> r[i] == ' '
  {
    ReplaceRuns(s, Whitespace, ' ')
  }

  /** Line 57: `.replace(/\n+/g, "\n")`. */
  function CollapseNewlines(s: string): (r: string)
    ensures |r| <= |s| && (r == [] <==> s == [])
  {
    ReplaceRuns(s, Newline, '\n')
  }

  /** The trailing half of `String.prototype.trim`. */
  function TrimEnd(s: string): (r: string)
    ensures |r| <= |s| && r == s[..|r|]
    ensures forall i :: |r| <= i < |s| ==> IsWs(s[i])
    ensures r == [] || !IsWs(r[|r| - 1])
  {
    if s != [] && IsWs(s[|s| - 1]) then TrimEnd(s[..|s| - 1]) else s
  }

  /** `r` is `s` with `k` whitespace characters cut from its start and only whitespace cut from its end. */
  predicate CutAt(s: string, r: string, k: int) {
    && 0 <= k <= |s| - |r|
    && r == s[k..k + |r|]
    && (forall i :: 0 <= i < k ==> IsWs(s[i]))
    && (forall i :: k + |r| <= i < |s| ==> IsWs(s[i]))
  }

  /** Cutting leading whitespace first and then a piece of the rest is cutting a piece of the whole. */
  lemma CutAfterDrop(s: string, d: string, r: string)
    requires |d| <= |s| && d == s[|s| - |d|..]
    requires forall i :: 0 <= i < |s| - |d| ==> IsWs(s[i])
    requires CutAt(d, r, 0)
    ensures CutAt(s, r, |s| - |d|)
  {
    var k := |s| - |d|;
    forall i | k + |r| <= i < |s| ensures IsWs(s[i]) {
      assert s[i] == d[i - k];
    }
    assert s[k..k + |r|] == d[..|r|];
  }

  /** Line 58: `.trim()`, which strips leading and trailing `IsWs` characters. */
  function Trim(s: string): (r: string)
    ensures |r| <= |s|
    ensures exists k :: CutAt(s, r, k)
    ensures r == [] || (!IsWs(r[0]) && !IsWs(r[|r| - 1]))
    ensures r == [] <==> forall i :: 0 <= i < |s| ==> IsWs(s[i])
  {
    var d := DropRun(s, Whitespace);
    var r := TrimEnd(d);
    assert CutAt(d, r, 0);
    CutAfterDrop(s, d, r);
    assert r != [] ==> r[0] == d[0];
    r
  }

  /**
   * The whole cleanup chain of lines 55-58. It always yields a string in
   * canonical form, and never one holding a newline.
   */
  function Normalize(s: string): (r: string)
    ensures IsNormalized(r)
    ensures '\n' !in r
  {
    CollapseWhitespaceIsSingleSpaced(s);
    NewlineStepIsDead(s);
    TrimSingleSpaced(CollapseWhitespace(s));
    var r := Trim(CollapseNewlines(CollapseWhitespace(s)));
    assert forall i :: 0 <= i < |r| ==> r[i] != '\n';
    r
  }

  // ---------------------------------------------------------------------------
  // Reference definitions: words, and the canonical form of a text.

  /** A word: a non-empty string without whitespace. */
  predicate IsWord(w: string) {
    w != [] && forall i :: 0 <= i < |w| ==> !IsWs(w[i])
  }

  /** The maximal runs of non-whitespace characters of `s`, in order. */
  function Words(s: string): (ws: seq<string>)
    ensures forall w :: w in ws ==> IsWord(w)
    ensures s != [] && !IsWs(s[0]) ==> ws != [] && ws[0] != [] && ws[0][0] == s[0]
  {
    if s == [] then []
    else if IsWs(s[0]) then Words(s[1..])
    else
      var rest := Words(s[1..]);
      if |s| > 1 && !IsWs(s[1]) then
        assert IsWord(rest[0]);
        [[s[0]] + rest[0]] + rest[1..]
      else
        [[s[0]]] + rest
  }

  /** The words separated by single spaces. */
  function JoinWords(ws: seq<string>): string {
    if ws == [] then []
    else if |ws| == 1 then ws[0]
    else ws[0] + [' '] + JoinWords(ws[1..])
  }

  /** Every whitespace character is a space, and no two of them are adjacent. */
  ghost predicate SingleSpaced(s: string) {
    && (forall i :: 0 <= i < |s| && IsWs(s[i]) ==> s[i] == ' ')
    && (forall i, j :: 0 <= i < j < |s| && j == i + 1 ==> !IsWs(s[i]) || !IsWs(s[j]))
  }

  /** The canonical form: single-spaced, with no leading or trailing whitespace. */
  ghost predicate IsNormalized(s: string) {
    && SingleSpaced(s)
    && (s == [] || (!IsWs(s[0]) && !IsWs(s[|s| - 1])))
  }

  /** `s` with every whitespace character deleted. */
  function RemoveWs(s: string): string {
    Outside(s, Whitespace)
  }

  function Concat(ws: seq<string>): string {
    if ws == [] then [] else ws[0] + Concat(ws[1..])
  }

  // ---------------------------------------------------------------------------
  // The newline step of line 57 never changes anything.

  /** Every whitespace character `\s+ -> " "` leaves behind is a space, and none is adjacent to another. */
  lemma {:induction false} CollapseWhitespaceIsSingleSpaced(s: string)
    ensures SingleSpaced(CollapseWhitespace(s))
    ensures CollapseWhitespace(s) == [] <==> s == []
    ensures s != [] && !IsWs(s[0]) ==> CollapseWhitespace(s)[0] == s[0]
    ensures s != [] && IsWs(s[0]) ==> CollapseWhitespace(s)[0] == ' '
    decreases |s|
  {
    if s == [] {
    } else if IsWs(s[0]) {
      var d := DropRun(s, Whitespace);
      CollapseWhitespaceIsSingleSpaced(d);
      var r := CollapseWhitespace(s);
      assert r == [' '] + CollapseWhitespace(d);
      assert d == [] || !IsWs(d[0]);
    } else {
      CollapseWhitespaceIsSingleSpaced(s[1..]);
      var r := CollapseWhitespace(s);
      assert r == [s[0]] + CollapseWhitespace(s[1..]);
    }
  }

  /** A string without `\n` is left unchanged by `\n+ -> "\n"`. */
  lemma {:induction false} CollapseNewlinesWithoutNewline(s: string)
    requires '\n' !in s
    ensures CollapseNewlines(s) == s
  {
    if s != [] {
      assert s[0] != '\n';
      assert '\n' !in s[1..];
      CollapseNewlinesWithoutNewline(s[1..]);
    }
  }

  /**
   * Because `\s` already contains `\n`, the second replace of the chain is the
   * identity on the output of the first: the chain never yields a newline.
   */
  lemma NewlineStepIsDead(s: string)
    ensures '\n' !in CollapseWhitespace(s)
    ensures CollapseNewlines(CollapseWhitespace(s)) == CollapseWhitespace(s)
  {
    CollapseWhitespaceIsSingleSpaced(s);
    var r := CollapseWhitespace(s);
    assert forall i :: 0 <= i < |r| ==> r[i] != '\n';
    CollapseNewlinesWithoutNewline(r);
  }

  // ---------------------------------------------------------------------------
  // The output is in canonical form.

  /** A piece `t` of a single-spaced string, found at offset `i`, is single-spaced. */
  lemma SingleSpacedPart(s: string, t: string, i: nat)
    requires SingleSpaced(s) && i + |t| <= |s|
    requires forall k :: 0 <= k < |t| ==> t[k] == s[i + k]
    ensures SingleSpaced(t)
  {
    forall k | 0 <= k < |t| ensures IsWs(t[k]) ==> t[k] == ' ' {
      assert t[k] == s[i + k];
    }
    forall k, l | 0 <= k < l < |t| && l == k + 1 ensures !IsWs(t[k]) || !IsWs(t[l]) {
      assert t[k] == s[i + k] && t[l] == s[i + l];
    }
  }

  /** Trimming a single-spaced string leaves it in canonical form. */
  lemma TrimSingleSpaced(s: string)
    requires SingleSpaced(s)
    ensures IsNormalized(Trim(s))
  {
    var d := DropRun(s, Whitespace);
    SingleSpacedPart(s, d, |s| - |d|);
    TrimEndSingleSpaced(d);
  }

  /** Cutting the trailing whitespace of a single-spaced string that does not start with whitespace. */
  lemma TrimEndSingleSpaced(d: string)
    requires SingleSpaced(d) && (d == [] || !IsWs(d[0]))
    ensures IsNormalized(TrimEnd(d))
  {
    var r := TrimEnd(d);
    SingleSpacedPart(d, r, 0);
    if r != [] {
      assert r[0] == d[0];
    }
  }

  // ---------------------------------------------------------------------------
  // The output keeps the words of the input.

  lemma {:induction false} WordsSkipLeadingWhitespace(s: string)
    ensures Words(DropRun(s, Whitespace)) == Words(s)
  {
    if s != [] && IsWs(s[0]) {
      WordsSkipLeadingWhitespace(s[1..]);
    }
  }

  lemma {:induction false} WordsOfCollapseWhitespace(s: string)
    ensures Words(CollapseWhitespace(s)) == Words(s)
    decreases |s|
  {
    if s == [] {
    } else if IsWs(s[0]) {
      var d := DropRun(s, Whitespace);
      WordsOfCollapseWhitespace(d);
      WordsSkipLeadingWhitespace(s);
      var r := CollapseWhitespace(s);
      assert r == [' '] + CollapseWhitespace(d);
      assert r[1..] == CollapseWhitespace(d);
    } else {
      var t := s[1..];
      WordsOfCollapseWhitespace(t);
      CollapseWhitespaceIsSingleSpaced(t);
      var r := CollapseWhitespace(s);
      assert r == [s[0]] + CollapseWhitespace(t);
      assert r[1..] == CollapseWhitespace(t);
    }
  }

  lemma {:induction false} WordsIgnoreTrailingWhitespace(s: string, c: char)
    requires IsWs(c)
    ensures Words(s + [c]) == Words(s)
  {
    if s == [] {
      assert Words([c]) == Words([]);
    } else {
      WordsIgnoreTrailingWhitespace(s[1..], c);
      assert (s + [c])[1..] == s[1..] + [c];
    }
  }

  lemma {:induction false} WordsOfTrimEnd(s: string)
    ensures Words(TrimEnd(s)) == Words(s)
  {
    if s != [] && IsWs(s[|s| - 1]) {
      var p := s[..|s| - 1];
      WordsOfTrimEnd(p);
      WordsIgnoreTrailingWhitespace(p, s[|s| - 1]);
      assert p + [s[|s| - 1]] == s;
    }
  }

  /** Normalizing never merges, splits, drops or reorders words. */
  lemma NormalizeKeepsWords(s: string)
    ensures Words(Normalize(s)) == Words(s)
  {
    NewlineStepIsDead(s);
    var c := CollapseWhitespace(s);
    WordsOfCollapseWhitespace(s);
    WordsSkipLeadingWhitespace(c);
    WordsOfTrimEnd(DropRun(c, Whitespace));
  }

  // ---------------------------------------------------------------------------
  // A string in canonical form is determined by its words.

  lemma JoinConsChar(c: char, ws: seq<string>)
    requires ws != []
    ensures JoinWords([[c] + ws[0]] + ws[1..]) == [c] + JoinWords(ws)
  {
    var vs := [[c] + ws[0]] + ws[1..];
    if |ws| > 1 {
      assert vs[1..] == ws[1..];
    }
  }

  lemma {:induction false} NormalizedIsJoinOfWords(r: string)
    requires IsNormalized(r)
    ensures JoinWords(Words(r)) == r
    decreases |r|
  {
    if r == [] {
      return;
    }
    var t := r[1..];
    if t == [] {
      assert Words(r) == [[r[0]]];
    } else if !IsWs(r[1]) {
      SingleSpacedPart(r, t, 1);
      assert t[0] == r[1] && t[|t| - 1] == r[|r| - 1];
      NormalizedIsJoinOfWords(t);
      JoinWordContinues(r);
    } else {
      assert r[1] == ' ';
      assert |r| > 2 && !IsWs(r[2]);
      var u := r[2..];
      SingleSpacedPart(r, u, 2);
      assert u[0] == r[2] && u[|u| - 1] == r[|r| - 1];
      NormalizedIsJoinOfWords(u);
      JoinWordEnds(r);
    }
  }

  /** Step of `NormalizedIsJoinOfWords` where the first word goes on past `r[0]`. */
  lemma JoinWordContinues(r: string)
    requires |r| >= 2 && !IsWs(r[0]) && !IsWs(r[1])
    requires JoinWords(Words(r[1..])) == r[1..]
    ensures JoinWords(Words(r)) == r
  {
    var t := r[1..];
    assert t[0] == r[1];
    var wt := Words(t);
    assert wt != [];
    assert Words(r) == [[r[0]] + wt[0]] + wt[1..];
    JoinConsChar(r[0], wt);
    assert r == [r[0]] + t;
  }

  /** Step of `NormalizedIsJoinOfWords` where the first word is `r[0]` alone, followed by a space. */
  lemma JoinWordEnds(r: string)
    requires |r| >= 3 && !IsWs(r[0]) && r[1] == ' ' && !IsWs(r[2])
    requires JoinWords(Words(r[2..])) == r[2..]
    ensures JoinWords(Words(r)) == r
  {
    var t := r[1..];
    var u := r[2..];
    assert t[0] == ' ' && t[1..] == u;
    assert u[0] == r[2];
    var wu := Words(u);
    assert Words(t) == wu;
    assert wu != [];
    assert Words(r) == [[r[0]]] + wu;
    assert JoinWords([[r[0]]] + wu) == [r[0]] + [' '] + JoinWords(wu) by {
      assert ([[r[0]]] + wu)[1..] == wu;
    }
    assert r == [r[0]] + [' '] + u;
  }

  /**
   * The reference characterisation of the cleanup chain: its result is the
   * words of the input, in order, separated by single spaces.
   */
  lemma NormalizeIsJoinedWords(s: string)
    ensures Normalize(s) == JoinWords(Words(s))
  {
    NormalizedIsJoinOfWords(Normalize(s));
    NormalizeKeepsWords(s);
  }

  /** The strings the chain leaves unchanged are exactly those in canonical form. */
  lemma NormalizeFixedPoints(s: string)
    ensures Normalize(s) == s <==> IsNormalized(s)
  {
    if IsNormalized(s) {
      NormalizeIsJoinedWords(s);
      NormalizedIsJoinOfWords(s);
    }
  }

  /** Normalizing twice is the same as normalizing once. */
  lemma NormalizeIdempotent(s: string)
    ensures Normalize(Normalize(s)) == Normalize(s)
  {
    NormalizeFixedPoints(Normalize(s));
  }

  // ---------------------------------------------------------------------------
  // The output keeps every non-whitespace character, in order.

  lemma {:induction false} RemoveWsIsConcatOfWords(s: string)
    ensures RemoveWs(s) == Concat(Words(s))
  {
    if s == [] || IsWs(s[0]) {
      if s != [] {
        RemoveWsIsConcatOfWords(s[1..]);
      }
    } else {
      var t := s[1..];
      RemoveWsIsConcatOfWords(t);
      var wt := Words(t);
      if |s| > 1 && !IsWs(s[1]) {
        assert Words(s) == [[s[0]] + wt[0]] + wt[1..];
        assert Concat(wt) == wt[0] + Concat(wt[1..]);
      } else {
        assert Words(s) == [[s[0]]] + wt;
      }
    }
  }

  lemma {:induction false} RemoveWsOfWord(w: string)
    requires forall i :: 0 <= i < |w| ==> !IsWs(w[i])
    ensures RemoveWs(w) == w
  {
    if w != [] {
      RemoveWsOfWord(w[1..]);
    }
  }

  lemma {:induction false} RemoveWsAppend(a: string, b: string)
    ensures RemoveWs(a + b) == RemoveWs(a) + RemoveWs(b)
  {
    if a != [] {
      RemoveWsAppend(a[1..], b);
      assert (a + b)[1..] == a[1..] + b;
    } else {
      assert a + b == b;
    }
  }

  lemma {:induction false} RemoveWsOfJoin(ws: seq<string>)
    requires forall i :: 0 <= i < |ws| ==> IsWord(ws[i])
    ensures RemoveWs(JoinWords(ws)) == Concat(ws)
  {
    if ws != [] {
      assert IsWord(ws[0]);
      RemoveWsOfWord(ws[0]);
      var rest := ws[1..];
      if rest == [] {
        assert JoinWords(ws) == ws[0];
        assert Concat(ws) == ws[0] + Concat(rest);
      } else {
        forall i | 0 <= i < |rest| ensures IsWord(rest[i]) {
          assert rest[i] == ws[i + 1];
        }
        RemoveWsOfJoin(rest);
        assert JoinWords(ws) == ws[0] + [' '] + JoinWords(rest);
        RemoveWsAppend(ws[0] + [' '], JoinWords(rest));
        RemoveWsAppend(ws[0], [' ']);
        assert RemoveWs([' ']) == [' '][1..] == [];
        assert Concat(ws) == ws[0] + Concat(rest);
      }
    }
  }

  /** Deleting all whitespace from the output gives the input with all whitespace deleted. */
  lemma NormalizeKeepsContent(s: string)
    ensures RemoveWs(Normalize(s)) == RemoveWs(s)
  {
    NormalizeIsJoinedWords(s);
    RemoveWsOfJoin(Words(s));
    RemoveWsIsConcatOfWords(s);
  }

  /** The output is empty exactly when the collected text is empty or all whitespace. */
  lemma NormalizeBlank(s: string)
    ensures Normalize(s) == [] <==> RemoveWs(s) == []
  {
    var r := Normalize(s);
    NormalizeKeepsContent(s);
    if r != [] {
      assert !IsWs(r[0]);
      assert RemoveWs(r) == [r[0]] + RemoveWs(r[1..]);
    }
  }
}
