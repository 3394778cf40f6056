/** The product catalogue's text normalisation: lower-case, keep only
    `[a-z0-9 ]`, collapse runs of spaces and trim; and the token split used
    to match product names. */
module Normalization {
  import opened Wrappers
  import opened Text

  /** .NET `char.IsWhiteSpace`: the space separators, the line and paragraph
      separators, and the control characters U+0009..U+000D and U+0085. */
  predicate IsWhiteSpace(c: char) {
    ('\U{9}' <= c <= '\U{D}') || c == ' ' || c == '\U{85}' || c == '\U{A0}' || c == '\U{1680}'
    || ('\U{2000}' <= c <= '\U{200A}') || c == '\U{2028}' || c == '\U{2029}' || c == '\U{202F}'
    || c == '\U{205F}' || c == '\U{3000}'
  }

  /** `string.IsNullOrWhiteSpace`. */
  predicate IsNullOrWhiteSpace(s: Option<string>) {
    s.None? || forall i :: 0 <= i < |s.value| ==> IsWhiteSpace(s.value[i])
  }

  /** Leading white space removed. */
  function TrimStart(s: string): (r: string)
    ensures |r| <= |s| && r == s[|s| - |r|..]
    ensures |r| == 0 || !IsWhiteSpace(r[0])
  {
    if |s| > 0 && IsWhiteSpace(s[0]) then TrimStart(s[1..]) else s
  }

  /** `TrimStart` removes white space only. */
  lemma {:induction false} TrimStartDropsWhiteSpace(s: string)
    ensures forall i :: 0 <= i < |s| - |TrimStart(s)| ==> IsWhiteSpace(s[i])
    decreases |s|
  {
    if |s| > 0 && IsWhiteSpace(s[0]) {
      TrimStartDropsWhiteSpace(s[1..]);
      assert forall i :: 1 <= i < |s| ==> s[i] == s[1..][i - 1];
    }
  }

  /** Trailing white space removed. */
  function TrimEnd(s: string): (r: string)
    ensures |r| <= |s| && r == s[..|r|]
    ensures |r| == 0 || !IsWhiteSpace(r[|r| - 1])
  {
    if |s| > 0 && IsWhiteSpace(s[|s| - 1]) then TrimEnd(s[..|s| - 1]) else s
  }

  /** `TrimEnd` removes white space only. */
  lemma {:induction false} TrimEndDropsWhiteSpace(s: string)
    ensures forall i :: |TrimEnd(s)| <= i < |s| ==> IsWhiteSpace(s[i])
    decreases |s|
  {
    if |s| > 0 && IsWhiteSpace(s[|s| - 1]) {
      TrimEndDropsWhiteSpace(s[..|s| - 1]);
    }
  }

  /** `string.Trim()`. */
  function Trim(s: string): string {
    TrimEnd(TrimStart(s))
  }

  /** Every character of `s` is white space. */
  predicate AllWhiteSpace(s: string) {
    forall i :: 0 <= i < |s| ==> IsWhiteSpace(s[i])
  }

  /** `TrimStart` cuts a white-space prefix. */
  lemma TrimStartCut(s: string)
    ensures s == s[..|s| - |TrimStart(s)|] + TrimStart(s)
    ensures AllWhiteSpace(s[..|s| - |TrimStart(s)|])
  {
    TrimStartDropsWhiteSpace(s);
    var a := |s| - |TrimStart(s)|;
    assert forall i :: 0 <= i < a ==> s[..a][i] == s[i];
  }

  /** `TrimEnd` cuts a white-space suffix. */
  lemma TrimEndCut(s: string)
    ensures s == TrimEnd(s) + s[|TrimEnd(s)|..]
    ensures AllWhiteSpace(s[|TrimEnd(s)|..])
  {
    TrimEndDropsWhiteSpace(s);
    var b := |TrimEnd(s)|;
    assert forall i :: 0 <= i < |s| - b ==> s[b..][i] == s[b + i];
  }

  /** `Trim` keeps a middle part of its input that neither starts nor ends
      with white space, and cuts only white space on either side. */
  lemma TrimCutsOnlyOuterWhiteSpace(s: string)
    ensures exists pre, post :: s == pre + Trim(s) + post && AllWhiteSpace(pre) && AllWhiteSpace(post)
    ensures |Trim(s)| == 0 || (!IsWhiteSpace(Trim(s)[0]) && !IsWhiteSpace(Trim(s)[|Trim(s)| - 1]))
  {
    TrimSplits(s);
    TrimEnds(s);
  }

  /** The input is the cut prefix, the trimmed text and the cut suffix. */
  lemma TrimSplits(s: string)
    ensures var t := TrimStart(s);
            s == s[..|s| - |t|] + Trim(s) + t[|TrimEnd(t)|..]
            && AllWhiteSpace(s[..|s| - |t|]) && AllWhiteSpace(t[|TrimEnd(t)|..])
  {
    TrimStartCut(s);
    TrimEndCut(TrimStart(s));
  }

  /** The trimmed text starts and ends with a non-white-space character. */
  lemma TrimEnds(s: string)
    ensures |Trim(s)| == 0 || (!IsWhiteSpace(Trim(s)[0]) && !IsWhiteSpace(Trim(s)[|Trim(s)| - 1]))
  {
    var t := TrimStart(s);
    var r := TrimEnd(t);
    if |r| > 0 {
      assert r[0] == t[0];
    }
  }

  /** A character the cleaning step keeps: `[a-z0-9 ]`. */
  predicate IsKept(c: char) {
    IsAsciiLower(c) || IsDigit(c) || c == ' '
  }

  /** `ToLowerInvariant` followed by deleting every character outside
      `[a-z0-9 ]`. */
  function Clean(s: string): (r: string)
    ensures forall i :: 0 <= i < |r| ==> IsKept(r[i])
  {
    if |s| == 0 then []
    else
      var c := ToLowerChar(s[0]);
      (if IsKept(c) then [c] else []) + Clean(s[1..])
  }

  /** Leading spaces removed. */
  function DropSpaces(s: string): (r: string)
    ensures |r| <= |s| && forall i :: 0 <= i < |r| ==> r[i] == s[|s| - |r| + i]
    ensures |r| == 0 || r[0] != ' '
  {
    if |s| > 0 && s[0] == ' ' then DropSpaces(s[1..]) else s
  }

  /** Trailing spaces removed. */
  function DropTrailingSpaces(s: string): (r: string)
    ensures |r| <= |s| && r == s[..|r|]
    ensures forall i :: |r| <= i < |s| ==> s[i] == ' '
    ensures |r| == 0 || r[|r| - 1] != ' '
  {
    if |s| > 0 && s[|s| - 1] == ' ' then DropTrailingSpaces(s[..|s| - 1]) else s
  }

  /** No two spaces in a row. */
  predicate NoDoubleSpace(s: string) {
    forall i :: 0 <= i < |s| - 1 ==> !(s[i] == ' ' && s[i + 1] == ' ')
  }

  /** `Regex.Replace(s, " +", " ")`: every run of spaces becomes one space. */
  function Collapse(s: string): (r: string)
    ensures NoDoubleSpace(r)
    ensures |r| == 0 <==> |s| == 0
    ensures |s| > 0 ==> r[0] == s[0]
    ensures (forall i :: 0 <= i < |s| ==> IsKept(s[i])) ==> forall i :: 0 <= i < |r| ==> IsKept(r[i])
    decreases |s|
  {
    if |s| == 0 then []
    else if s[0] == ' ' then [' '] + Collapse(DropSpaces(s))
    else [s[0]] + Collapse(s[1..])
  }

  /** The shape of every normalised string: only `[a-z0-9 ]`, no space at
      either end and no two spaces in a row. */
  predicate IsNormal(s: string) {
    (forall i :: 0 <= i < |s| ==> IsKept(s[i]))
    && (|s| == 0 || (s[0] != ' ' && s[|s| - 1] != ' '))
    && NoDoubleSpace(s)
  }

  /** `Program.Normalize`: null or blank input gives ""; otherwise the
      cleaned text with space runs collapsed, trimmed. */
  function Normalize(input: Option<string>): (r: string)
    ensures IsNormal(r)
    ensures IsNullOrWhiteSpace(input) ==> r == ""
  {
    if IsNullOrWhiteSpace(input) then ""
    else
      var c := Collapse(Clean(input.value));
      assert Cleaned(c);
      TrimIsNormal(c);
      Trim(c)
  }

  /** On cleaned text the only white space is the space character. */
  lemma KeptWhiteSpaceIsSpace(c: char)
    requires IsKept(c)
    ensures IsWhiteSpace(c) <==> c == ' '
  {
  }

  /** Only `[a-z0-9 ]` and no two spaces in a row: cleaned and collapsed. */
  predicate Cleaned(s: string) {
    (forall i :: 0 <= i < |s| ==> IsKept(s[i])) && NoDoubleSpace(s)
  }

  /** A slice of cleaned, collapsed text is still cleaned and collapsed. */
  lemma SliceKeepsShape(s: string, a: int, b: int)
    requires 0 <= a <= b <= |s| && Cleaned(s)
    ensures Cleaned(s[a..b])
  {
    assert forall i :: 0 <= i < b - a ==> s[a..b][i] == s[a + i];
  }

  /** On cleaned text `TrimStart` removes exactly the leading spaces. */
  lemma {:induction false} KeptTrimStart(s: string)
    requires forall i :: 0 <= i < |s| ==> IsKept(s[i])
    ensures TrimStart(s) == DropSpaces(s)
    decreases |s|
  {
    if |s| > 0 {
      KeptWhiteSpaceIsSpace(s[0]);
      if s[0] == ' ' {
        KeptTrimStart(s[1..]);
      }
    }
  }

  /** On cleaned text `TrimEnd` removes exactly the trailing spaces. */
  lemma {:induction false} KeptTrimEnd(s: string)
    requires forall i :: 0 <= i < |s| ==> IsKept(s[i])
    ensures TrimEnd(s) == DropTrailingSpaces(s)
    decreases |s|
  {
    if |s| > 0 {
      KeptWhiteSpaceIsSpace(s[|s| - 1]);
      if s[|s| - 1] == ' ' {
        KeptTrimEnd(s[..|s| - 1]);
      }
    }
  }

  /** The end of a cleaned text is cleaned. */
  lemma SuffixKept(s: string, k: int)
    requires 0 <= k <= |s| && forall i :: 0 <= i < |s| ==> IsKept(s[i])
    ensures forall i :: 0 <= i < |s| - k ==> IsKept(s[k..][i])
  {
    assert forall i :: 0 <= i < |s| - k ==> s[k..][i] == s[k + i];
  }

  /** On cleaned text `Trim` removes exactly the spaces at either end. */
  lemma KeptTrim(c: string)
    requires forall i :: 0 <= i < |c| ==> IsKept(c[i])
    ensures Trim(c) == DropTrailingSpaces(DropSpaces(c))
  {
    KeptTrimStart(c);
    var t := DropSpaces(c);
    SuffixKept(c, |c| - |t|);
    KeptTrimEnd(t);
  }

  lemma DropSpacesCleaned(c: string)
    requires Cleaned(c)
    ensures Cleaned(DropSpaces(c))
  {
    var t := DropSpaces(c);
    SliceKeepsShape(c, |c| - |t|, |c|);
    assert t == c[|c| - |t|..|c|];
  }

  lemma DropTrailingSpacesCleaned(t: string)
    requires Cleaned(t)
    ensures Cleaned(DropTrailingSpaces(t))
  {
    var r := DropTrailingSpaces(t);
    SliceKeepsShape(t, 0, |r|);
    assert r == t[0..|r|];
  }

  /** Cleaned, collapsed text without its end spaces is normal. */
  lemma DropEndSpacesIsNormal(c: string)
    requires Cleaned(c)
    ensures IsNormal(DropTrailingSpaces(DropSpaces(c)))
  {
    var t := DropSpaces(c);
    DropSpacesCleaned(c);
    DropTrailingSpacesCleaned(t);
    var r := DropTrailingSpaces(t);
    assert |r| > 0 ==> r[0] == t[0];
  }

  /** Trimming cleaned, collapsed text leaves a normal string. */
  lemma TrimIsNormal(c: string)
    requires Cleaned(c)
    ensures IsNormal(Trim(c))
  {
    KeptTrim(c);
    DropEndSpacesIsNormal(c);
  }

  // ---------------------------------------------------------------------
  // Tokens
  // ---------------------------------------------------------------------

  /** The word collected so far, if any. */
  function Emit(cur: string): seq<string> {
    if |cur| == 0 then [] else [cur]
  }

  /** `Split(' ', RemoveEmptyEntries)` continuing a word `cur` already begun. */
  function SplitFrom(s: string, cur: string): seq<string>
    decreases |s|
  {
    if |s| == 0 then Emit(cur)
    else if s[0] == ' ' then Emit(cur) + SplitFrom(s[1..], [])
    else SplitFrom(s[1..], cur + [s[0]])
  }

  /** `s.Split(' ', StringSplitOptions.RemoveEmptyEntries)`: the maximal runs
      of non-space characters, in order. */
  function Split(s: string): seq<string> {
    SplitFrom(s, [])
  }

  /** Every token is non-empty and holds no space. */
  lemma {:induction false} SplitFromTokens(s: string, cur: string)
    requires ' ' !in cur
    ensures forall k :: 0 <= k < |SplitFrom(s, cur)| ==>
      |SplitFrom(s, cur)[k]| > 0 && ' ' !in SplitFrom(s, cur)[k]
    decreases |s|
  {
    if |s| > 0 {
      if s[0] == ' ' {
        SplitFromTokens(s[1..], []);
      } else {
        SplitFromTokens(s[1..], cur + [s[0]]);
      }
    }
  }

  /** Spaces before the first word produce nothing. */
  lemma {:induction false} SplitFromDropSpaces(s: string)
    ensures SplitFrom(DropSpaces(s), []) == SplitFrom(s, [])
    decreases |s|
  {
    if |s| > 0 && s[0] == ' ' {
      SplitFromDropSpaces(s[1..]);
      assert DropSpaces(s) == DropSpaces(s[1..]);
      assert SplitFrom(s, []) == [] + SplitFrom(s[1..], []);
    }
  }

  /** Collapsing space runs does not change the words. */
  lemma {:induction false} SplitFromCollapse(s: string, cur: string)
    ensures SplitFrom(Collapse(s), cur) == SplitFrom(s, cur)
    decreases |s|
  {
    if |s| > 0 {
      var c := Collapse(s);
      if s[0] == ' ' {
        var d := DropSpaces(s);
        SplitFromCollapse(d, []);
        assert c[1..] == Collapse(d);
        assert DropSpaces(s[1..]) == d;
        SplitFromDropSpaces(s[1..]);
      } else {
        SplitFromCollapse(s[1..], cur + [s[0]]);
        assert c[1..] == Collapse(s[1..]);
      }
    }
  }

  /** Spaces after the last word produce nothing. */
  lemma {:induction false} SplitFromTrailingSpaces(t: string, sp: string, cur: string)
    requires forall i :: 0 <= i < |sp| ==> sp[i] == ' '
    ensures SplitFrom(t + sp, cur) == SplitFrom(t, cur)
    decreases |t| + |sp|
  {
    if |t| == 0 {
      if |sp| > 0 {
        SplitFromTrailingSpaces([], sp[1..], []);
        assert ([] + sp)[1..] == [] + sp[1..];
      }
    } else {
      assert (t + sp)[1..] == t[1..] + sp;
      if t[0] == ' ' {
        SplitFromTrailingSpaces(t[1..], sp, []);
      } else {
        SplitFromTrailingSpaces(t[1..], sp, cur + [t[0]]);
      }
    }
  }

  /** Trimming cleaned text does not change the words. */
  lemma SplitTrim(s: string)
    requires forall i :: 0 <= i < |s| ==> IsKept(s[i])
    ensures Split(Trim(s)) == Split(s)
  {
    KeptTrim(s);
    SplitFromDropSpaces(s);
    SplitDropTrailingSpaces(DropSpaces(s));
  }

  /** Trailing spaces hold no words. */
  lemma SplitDropTrailingSpaces(t: string)
    ensures Split(DropTrailingSpaces(t)) == Split(t)
  {
    var e := DropTrailingSpaces(t);
    assert t == e + t[|e|..];
    SplitFromTrailingSpaces(e, t[|e|..], []);
  }

  /** Blank text cleans to spaces only. */
  lemma {:induction false} CleanBlank(s: string)
    requires IsNullOrWhiteSpace(Some(s))
    ensures forall i :: 0 <= i < |Clean(s)| ==> Clean(s)[i] == ' '
    decreases |s|
  {
    if |s| > 0 {
      assert IsWhiteSpace(s[0]);
      CleanBlank(s[1..]);
    }
  }

  /** Blank text holds no words. */
  lemma BlankHasNoWords(s: string)
    requires IsNullOrWhiteSpace(Some(s))
    ensures Split(Clean(s)) == []
  {
    CleanBlank(s);
    SplitFromTrailingSpaces([], Clean(s), []);
    assert [] + Clean(s) == Clean(s);
  }

  /** Normalising keeps exactly the words of the cleaned text. */
  lemma NormalizeKeepsWords(s: string)
    ensures Split(Normalize(Some(s))) == Split(Clean(s))
  {
    if IsNullOrWhiteSpace(Some(s)) {
      BlankHasNoWords(s);
    } else {
      var c := Collapse(Clean(s));
      SplitTrim(c);
      SplitFromCollapse(Clean(s), []);
    }
  }

  /** Text without double spaces is its own collapse. */
  lemma {:induction false} CollapseNoDoubleSpace(s: string)
    requires NoDoubleSpace(s)
    ensures Collapse(s) == s
    decreases |s|
  {
    if |s| > 0 {
      if s[0] == ' ' {
        assert DropSpaces(s) == s[1..];
      }
      CollapseNoDoubleSpace(s[1..]);
    }
  }

  /** Kept characters survive cleaning unchanged. */
  lemma {:induction false} CleanKept(s: string)
    requires forall i :: 0 <= i < |s| ==> IsKept(s[i])
    ensures Clean(s) == s
    decreases |s|
  {
    if |s| > 0 {
      CleanKept(s[1..]);
    }
  }

  /** A normal string is its own normalisation. */
  lemma NormalIsFixed(n: string)
    requires IsNormal(n)
    ensures Normalize(Some(n)) == n
  {
    if |n| > 0 {
      KeptWhiteSpaceIsSpace(n[0]);
      KeptWhiteSpaceIsSpace(n[|n| - 1]);
      CleanKept(n);
      CollapseNoDoubleSpace(n);
    }
  }

  /** Normalising twice is normalising once. */
  lemma NormalizeIdempotent(input: Option<string>)
    ensures Normalize(Some(Normalize(input))) == Normalize(input)
  {
    NormalIsFixed(Normalize(input));
  }

  /** Upper-casing a character neither makes nor unmakes white space, and
      lower-casing undoes it. */
  lemma UpperChar(c: char)
    ensures IsWhiteSpace(ToUpperChar(c)) <==> IsWhiteSpace(c)
    ensures ToLowerChar(ToUpperChar(c)) == ToLowerChar(c)
  {
  }

  /** Case does not matter to cleaning. */
  lemma {:induction false} CleanIgnoresCase(s: string)
    ensures Clean(ToUpper(s)) == Clean(s)
    decreases |s|
  {
    if |s| > 0 {
      UpperChar(s[0]);
      assert ToUpper(s)[1..] == ToUpper(s[1..]);
      CleanIgnoresCase(s[1..]);
    }
  }

  /** Case does not matter: upper-casing the input leaves the result as is. */
  lemma NormalizeIgnoresCase(s: string)
    ensures Normalize(Some(ToUpper(s))) == Normalize(Some(s))
  {
    CleanIgnoresCase(s);
    forall i | 0 <= i < |s|
      ensures IsWhiteSpace(ToUpper(s)[i]) <==> IsWhiteSpace(s[i])
    {
      UpperChar(s[i]);
    }
  }
}
