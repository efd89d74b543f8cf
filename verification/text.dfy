/**
 * Python string operations the pipeline relies on: str.isspace, str.strip,
 * str.lower, str.split() / " ".join, str.count, str.replace(pat, "") and
 * str.split(sep)[0]. Strings are sequences of Unicode scalar values.
 */
module Text {
  import opened Wrappers

  /** Python's str.isspace(); also what `\s` matches in a str pattern of `re`. */
  predicate IsSpace(c: char) {
    c == ' ' || ('\t' <= c <= '\r') || ('\U{1C}' <= c <= '\U{1F}') || c == '\U{85}' || c == '\U{A0}'
    || c == '\U{1680}' || ('\U{2000}' <= c <= '\U{200A}') || c == '\U{2028}' || c == '\U{2029}'
    || c == '\U{202F}' || c == '\U{205F}' || c == '\U{3000}'
  }

  predicate NoSpace(s: string) {
    forall i :: 0 <= i < |s| ==> !IsSpace(s[i])
  }

  predicate IsUpper(c: char) {
    'A' <= c <= 'Z'
  }

  predicate NoUpper(s: string) {
    forall i :: 0 <= i < |s| ==> !IsUpper(s[i])
  }

  /** str.lower() on the ASCII letters. */
  function LowerChar(c: char): (d: char)
    ensures !IsUpper(d)
    ensures IsSpace(d) <==> IsSpace(c)
  {
    if IsUpper(c) then (c as int + 32) as char else c
  }

  function Lower(s: string): (r: string)
    ensures |r| == |s| && NoUpper(r)
  {
    if s == [] then [] else [LowerChar(s[0])] + Lower(s[1..])
  }

  lemma {:induction false} LowerNoUpper(s: string)
    requires NoUpper(s)
    ensures Lower(s) == s
  {
    if s != [] {
      LowerNoUpper(s[1..]);
    }
  }

  /** str.lstrip(): drops the leading whitespace run, keeps the rest. */
  function StripLeft(s: string): (r: string)
    ensures |r| <= |s| && r == s[|s| - |r|..]
    ensures r == [] || !IsSpace(r[0])
    ensures forall i :: 0 <= i < |s| - |r| ==> IsSpace(s[i])
    decreases |s|
  {
    if s != [] && IsSpace(s[0]) then StripLeft(s[1..]) else s
  }

  /** str.rstrip(): drops the trailing whitespace run, keeps the rest. */
  function StripRight(s: string): (r: string)
    ensures |r| <= |s| && r == s[..|r|]
    ensures r == [] || !IsSpace(r[|r| - 1])
    ensures forall i :: |r| <= i < |s| ==> IsSpace(s[i])
    decreases |s|
  {
    if s != [] && IsSpace(s[|s| - 1]) then StripRight(s[..|s| - 1]) else s
  }

  /** str.strip(): drops whitespace from both ends; the result neither starts nor ends with whitespace. */
  function Strip(s: string): (r: string)
    ensures |r| <= |s|
    ensures r == [] || (!IsSpace(r[0]) && !IsSpace(r[|r| - 1]))
    decreases |s|
  {
    if s != [] && IsSpace(s[0]) then Strip(s[1..])
    else if s != [] && IsSpace(s[|s| - 1]) then Strip(s[..|s| - 1])
    else s
  }

  /** Strip leaves a string with no whitespace at either end unchanged. */
  lemma StripTrimmed(s: string)
    requires s == [] || (!IsSpace(s[0]) && !IsSpace(s[|s| - 1]))
    ensures Strip(s) == s
  {
  }

  /** Strip of a string made only of whitespace is empty, and only then. */
  lemma {:induction false} StripEmpty(s: string)
    ensures Strip(s) == [] <==> forall i :: 0 <= i < |s| ==> IsSpace(s[i])
    decreases |s|
  {
    if s != [] && IsSpace(s[0]) {
      StripEmpty(s[1..]);
      assert forall i :: 1 <= i < |s| ==> s[i] == s[1..][i - 1];
    } else if s != [] && IsSpace(s[|s| - 1]) {
      StripEmpty(s[..|s| - 1]);
    }
  }

  lemma StripIdempotent(s: string)
    ensures Strip(Strip(s)) == Strip(s)
  {
    StripTrimmed(Strip(s));
  }

  /** Whitespace around a core that starts and ends with non-whitespace is dropped. */
  lemma StripSurrounding(lead: string, core: string, trail: string)
    requires core != [] && !IsSpace(core[0]) && !IsSpace(core[|core| - 1])
    requires forall i :: 0 <= i < |lead| ==> IsSpace(lead[i])
    requires forall i :: 0 <= i < |trail| ==> IsSpace(trail[i])
    ensures Strip(lead + core + trail) == core
  {
    StripLead(lead, core + trail);
    assert lead + core + trail == lead + (core + trail);
    StripTrail(core, trail);
  }

  /** Leading whitespace does not change what Strip returns. */
  lemma {:induction false} StripLead(lead: string, x: string)
    requires forall i :: 0 <= i < |lead| ==> IsSpace(lead[i])
    ensures Strip(lead + x) == Strip(x)
    decreases |lead|
  {
    if lead != [] {
      assert (lead + x)[0] == lead[0];
      assert (lead + x)[1..] == lead[1..] + x;
      StripLead(lead[1..], x);
    } else {
      assert lead + x == x;
    }
  }

  /** Trailing whitespace after a core that starts and ends with non-whitespace is dropped. */
  lemma {:induction false} StripTrail(core: string, trail: string)
    requires core != [] && !IsSpace(core[0]) && !IsSpace(core[|core| - 1])
    requires forall i :: 0 <= i < |trail| ==> IsSpace(trail[i])
    ensures Strip(core + trail) == core
    decreases |trail|
  {
    var s := core + trail;
    if trail != [] {
      assert s[0] == core[0];
      assert s[|s| - 1] == trail[|trail| - 1];
      assert s[..|s| - 1] == core + trail[..|trail| - 1];
      StripTrail(core, trail[..|trail| - 1]);
    } else {
      assert s == core;
      StripTrimmed(core);
    }
  }

  /** re.sub(r"[\s]+", "_", s): every maximal whitespace run becomes one "_". */
  function CollapseSpaces(s: string): (r: string)
    ensures NoSpace(r)
    decreases |s|
  {
    if s == [] then []
    else if IsSpace(s[0]) then
      var rest := StripLeft(s);
      "_" + CollapseSpaces(rest)
    else [s[0]] + CollapseSpaces(s[1..])
  }

  lemma {:induction false} CollapseNoSpace(s: string)
    requires NoSpace(s)
    ensures CollapseSpaces(s) == s
    decreases |s|
  {
    if s != [] {
      CollapseNoSpace(s[1..]);
    }
  }

  /** A run of whitespace between a space-free prefix and a non-space character becomes exactly one "_". */
  lemma {:induction false} CollapseRun(a: string, w: string, b: string)
    requires NoSpace(a)
    requires w != [] && forall i :: 0 <= i < |w| ==> IsSpace(w[i])
    requires b == [] || !IsSpace(b[0])
    ensures CollapseSpaces(a + w + b) == a + "_" + CollapseSpaces(b)
    decreases |a|
  {
    if a == [] {
      assert a + w + b == w + b;
      CollapseRunHead(w, b);
    } else {
      assert (a + w + b)[0] == a[0];
      assert (a + w + b)[1..] == a[1..] + w + b;
      CollapseRun(a[1..], w, b);
      assert a + "_" + CollapseSpaces(b) == [a[0]] + (a[1..] + "_" + CollapseSpaces(b));
    }
  }

  lemma CollapseRunHead(w: string, b: string)
    requires w != [] && forall i :: 0 <= i < |w| ==> IsSpace(w[i])
    requires b == [] || !IsSpace(b[0])
    ensures CollapseSpaces(w + b) == "_" + CollapseSpaces(b)
  {
    assert (w + b)[0] == w[0];
    StripLeftRun(w, b);
  }

  lemma {:induction false} StripLeftRun(w: string, b: string)
    requires forall i :: 0 <= i < |w| ==> IsSpace(w[i])
    requires b == [] || !IsSpace(b[0])
    ensures StripLeft(w + b) == b
    decreases |w|
  {
    if w != [] {
      assert (w + b)[1..] == w[1..] + b;
      StripLeftRun(w[1..], b);
    }
  }

  /** The leading run of non-space characters. */
  function TakeWord(s: string): (w: string)
    ensures |w| <= |s| && w == s[..|w|] && NoSpace(w)
    ensures |w| < |s| ==> IsSpace(s[|w|])
    ensures s != [] && !IsSpace(s[0]) ==> w != []
  {
    if s == [] || IsSpace(s[0]) then [] else [s[0]] + TakeWord(s[1..])
  }

  predicate WellFormedWords(ws: seq<string>) {
    forall k :: 0 <= k < |ws| ==> ws[k] != [] && NoSpace(ws[k])
  }

  /** str.split() without arguments: the maximal non-whitespace runs, empty ones dropped. */
  function Words(s: string): seq<string>
    decreases |s|
  {
    var t := StripLeft(s);
    if t == [] then []
    else
      var w := TakeWord(t);
      [w] + Words(t[|w|..])
  }

  /** Every word is non-empty and holds no whitespace. */
  lemma {:induction false} WordsWellFormed(s: string)
    ensures WellFormedWords(Words(s))
    decreases |s|
  {
    var t := StripLeft(s);
    if t != [] {
      var w := TakeWord(t);
      var rest := Words(t[|w|..]);
      WordsWellFormed(t[|w|..]);
      assert Words(s) == [w] + rest;
      WellFormedCons(w, rest);
    }
  }

  lemma WellFormedCons(w: string, rest: seq<string>)
    requires w != [] && NoSpace(w) && WellFormedWords(rest)
    ensures WellFormedWords([w] + rest)
  {
    forall k | 0 <= k < |[w] + rest| ensures ([w] + rest)[k] != [] && NoSpace(([w] + rest)[k]) {
      if k > 0 { assert ([w] + rest)[k] == rest[k - 1]; }
    }
  }

  /** " ".join(ws) */
  function JoinSpace(ws: seq<string>): string {
    if ws == [] then ""
    else if |ws| == 1 then ws[0]
    else ws[0] + " " + JoinSpace(ws[1..])
  }

  /** Words separated by exactly one ' ', no whitespace at either end, no other whitespace character. */
  predicate SingleSpaced(r: string) {
    && (r == [] || (!IsSpace(r[0]) && !IsSpace(r[|r| - 1])))
    && (forall i :: 0 <= i < |r| && IsSpace(r[i]) ==> r[i] == ' ')
    && (forall i :: 0 <= i < |r| - 1 && IsSpace(r[i]) ==> !IsSpace(r[i + 1]))
  }

  lemma {:induction false} JoinSingleSpaced(ws: seq<string>)
    requires WellFormedWords(ws)
    ensures SingleSpaced(JoinSpace(ws))
    ensures JoinSpace(ws) == [] <==> ws == []
  {
    if |ws| > 1 {
      JoinSingleSpaced(ws[1..]);
      var j := JoinSpace(ws[1..]);
      var r := ws[0] + " " + j;
      assert r == JoinSpace(ws);
      forall i | 0 <= i < |r| && IsSpace(r[i])
        ensures r[i] == ' '
      {
        if i > |ws[0]| {
          assert r[i] == j[i - |ws[0]| - 1];
        }
      }
      forall i | 0 <= i < |r| - 1 && IsSpace(r[i])
        ensures !IsSpace(r[i + 1])
      {
        if i > |ws[0]| {
          assert r[i] == j[i - |ws[0]| - 1];
          assert r[i + 1] == j[i - |ws[0]|];
        } else {
          assert i == |ws[0]|;
          assert r[i + 1] == j[0];
        }
      }
      assert r[|r| - 1] == j[|j| - 1];
    }
  }

  lemma {:induction false} WordsOfJoin(ws: seq<string>)
    requires WellFormedWords(ws)
    ensures Words(JoinSpace(ws)) == ws
  {
    if |ws| == 1 {
      WordsOfWord(ws[0]);
    } else if |ws| > 1 {
      var j := JoinSpace(ws[1..]);
      assert j == [] || !IsSpace(j[0]) by {
        JoinSingleSpaced(ws[1..]);
      }
      calc {
        Words(JoinSpace(ws));
        Words(ws[0] + " " + j);
        { WordsCons(ws[0], j); }
        [ws[0]] + Words(j);
        { WordsOfJoin(ws[1..]); }
        [ws[0]] + ws[1..];
        { ConsSplit(ws); }
        ws;
      }
    }
  }

  lemma ConsSplit<T>(s: seq<T>)
    requires s != []
    ensures s == [s[0]] + s[1..]
  {
  }

  /** A single word splits into itself. */
  lemma WordsOfWord(w: string)
    requires w != [] && NoSpace(w)
    ensures Words(w) == [w]
  {
    assert StripLeft(w) == w;
    TakeWordAll(w, "");
    assert w + "" == w;
    assert w[|w|..] == [];
  }

  /** A word, one space and then text starting with a non-space character: the word, then the text's words. */
  lemma WordsCons(w: string, j: string)
    requires w != [] && NoSpace(w)
    requires j == [] || !IsSpace(j[0])
    ensures Words(w + " " + j) == [w] + Words(j)
  {
    var s := w + " " + j;
    var rest := " " + j;
    assert s == w + rest;
    TakeWordAll(w, rest);
    WordsUnfold(w, rest);
    WordsSkipSpace(j);
  }

  /** Text that starts with a word w splits into w, then the words of what follows it. */
  lemma WordsUnfold(w: string, rest: string)
    requires w != [] && !IsSpace(w[0])
    requires TakeWord(w + rest) == w
    ensures Words(w + rest) == [w] + Words(rest)
  {
    var s := w + rest;
    assert s[0] == w[0];
    assert s[|w|..] == rest;
  }

  lemma WordsSkipSpace(j: string)
    requires j == [] || !IsSpace(j[0])
    ensures Words(" " + j) == Words(j)
  {
    StripLeftRun(" ", j);
  }

  lemma {:induction false} TakeWordAll(w: string, rest: string)
    requires NoSpace(w)
    requires rest == [] || IsSpace(rest[0])
    ensures TakeWord(w + rest) == w
    decreases |w|
  {
    if w != [] {
      assert (w + rest)[1..] == w[1..] + rest;
      TakeWordAll(w[1..], rest);
    }
  }

  /** " ".join(s.split()) */
  function NormalizeWs(s: string): string {
    JoinSpace(Words(s))
  }

  /** Counts the occurrences of c in s (str.count for a one-character argument). */
  function Count(s: string, c: char): (n: nat)
    ensures n <= |s|
    ensures n == 0 <==> c !in s
  {
    if s == [] then 0 else (if s[0] == c then 1 else 0) + Count(s[1..], c)
  }

  /** s.replace(pat, ""): occurrences are found left to right and never overlap. */
  function RemoveAll(s: string, pat: string): (r: string)
    requires pat != []
    ensures |r| <= |s|
    decreases |s|
  {
    if |s| < |pat| then s
    else if s[..|pat|] == pat then RemoveAll(s[|pat|..], pat)
    else [s[0]] + RemoveAll(s[1..], pat)
  }

  /** Removing a pattern that holds a character c changes nothing in a string without c. */
  lemma {:induction false} RemoveAllAbsent(s: string, pat: string, c: char)
    requires pat != [] && c in pat && c !in s
    ensures RemoveAll(s, pat) == s
    decreases |s|
  {
    if |s| >= |pat| {
      var k :| 0 <= k < |pat| && pat[k] == c;
      assert s[..|pat|][k] != pat[k];
      RemoveAllAbsent(s[1..], pat, c);
    }
  }

  /** s.split(c)[0]: the text before the first c, or all of s. */
  function BeforeFirst(s: string, c: char): (r: string)
    ensures |r| <= |s| && c !in r && r == s[..|r|]
    ensures |r| < |s| ==> s[|r|] == c
  {
    if s == [] || s[0] == c then [] else [s[0]] + BeforeFirst(s[1..], c)
  }

  /** The text before the first c of a + [c] + b is a, when a has no c. */
  lemma {:induction false} BeforeFirstOf(a: string, c: char, b: string)
    requires c !in a
    ensures BeforeFirst(a + [c] + b, c) == a
  {
    if a != [] {
      assert (a + [c] + b)[1..] == a[1..] + [c] + b;
      BeforeFirstOf(a[1..], c, b);
    }
  }

  /** pat occurs in s at position j. */
  predicate MatchAt(s: string, pat: string, j: int) {
    0 <= j && j + |pat| <= |s| && s[j..j + |pat|] == pat
  }

  /** When no occurrence of pat starts inside a, removing pat from a + b leaves a alone. */
  lemma {:induction false} RemoveAllAfterHead(a: string, b: string, pat: string)
    requires pat != []
    requires forall j :: 0 <= j < |a| ==> !MatchAt(a + b, pat, j)
    ensures RemoveAll(a + b, pat) == a + RemoveAll(b, pat)
    decreases |a|
  {
    var s := a + b;
    if a == [] {
      assert s == b;
    } else if |s| < |pat| {
      assert RemoveAll(b, pat) == b;
    } else {
      assert !MatchAt(s, pat, 0);
      assert s[1..] == a[1..] + b;
      forall j | 0 <= j < |a[1..]|
        ensures !MatchAt(a[1..] + b, pat, j)
      {
        assert !MatchAt(s, pat, j + 1);
        if j + |pat| <= |s[1..]| {
          assert s[1..][j..j + |pat|] == s[j + 1..j + 1 + |pat|];
        }
      }
      RemoveAllAfterHead(a[1..], b, pat);
      assert a == [a[0]] + a[1..];
    }
  }

  /**
   * Removing a pattern whose ':' (at q) comes before any '/' leaves alone a
   * head without ':' that is followed by "/" or nothing.
   */
  lemma RemoveAllKeepsHead(h: string, r: string, pat: string, q: nat)
    requires q < |pat| && pat[q] == ':' && '/' !in pat[..q + 1]
    requires ':' !in h && (r == [] || r[0] == '/')
    ensures RemoveAll(h + r, pat) == h + RemoveAll(r, pat)
  {
    var s := h + r;
    forall j | 0 <= j < |h|
      ensures !MatchAt(s, pat, j)
    {
      if j + |pat| <= |s| {
        if j + q < |h| {
          assert s[j..j + |pat|][q] == h[j + q];
        } else {
          assert pat[..q + 1][|h| - j] == pat[|h| - j];
          assert s[j..j + |pat|][|h| - j] == r[0];
        }
      }
    }
    RemoveAllAfterHead(h, r, pat);
  }

  /** Text starting at "/" keeps its first "/" when a pattern not starting with "/" is removed. */
  lemma RemoveAllSlashHead(p: string, pat: string)
    requires p != [] && p[0] == '/' && pat != [] && pat[0] != '/'
    ensures RemoveAll(p, pat) != [] && RemoveAll(p, pat)[0] == '/'
  {
    if |p| >= |pat| {
      assert p[..|pat|][0] != pat[0];
    }
  }

  /** s.split(c, 1) unpacked into two parts; None when c does not occur (the unpacking raises). */
  function SplitOnce(s: string, c: char): (r: Option<(string, string)>)
    ensures r.None? <==> c !in s
    ensures r.Some? ==> c !in r.value.0 && s == r.value.0 + [c] + r.value.1
  {
    var head := BeforeFirst(s, c);
    if |head| == |s| then None
    else
      assert s == head + [c] + s[|head| + 1..];
      Some((head, s[|head| + 1..]))
  }

  predicate StartsWith(s: string, p: string) {
    |p| <= |s| && s[..|p|] == p
  }

  predicate EndsWith(s: string, p: string) {
    |p| <= |s| && s[|s| - |p|..] == p
  }
}
