/** The few Python 2 `str` operations the prefs tool relies on: `strip()`,
    `rstrip("\n")`, `find(sub)` and `lower()`, on byte strings in the C locale. */
module Text {

  /** Python 2 `str.isspace` of one character: space, tab, line feed,
      carriage return, vertical tab and form feed. */
  predicate IsSpace(c: char) {
    c == ' ' || c == '\t' || c == '\n' || c == '\r' || c == '\U{B}' || c == '\U{C}'
  }

  /** Every character of s is whitespace (true of the empty string). */
  predicate AllSpace(s: string) {
    forall i :: 0 <= i < |s| ==> IsSpace(s[i])
  }

  /** The first position at or after k that does not hold whitespace, or |s|
      (SkipSpaceSpec). */
  function SkipSpace(s: string, k: nat): (i: nat)
    requires k <= |s|
    ensures k <= i <= |s| && (i < |s| ==> !IsSpace(s[i]))
    decreases |s| - k
  {
    if k == |s| || !IsSpace(s[k]) then k else SkipSpace(s, k + 1)
  }

  /** Everything SkipSpace skips is whitespace. */
  lemma {:induction false} SkipSpaceSpec(s: string, k: nat)
    requires k <= |s|
    ensures forall j :: k <= j < SkipSpace(s, k) ==> IsSpace(s[j])
    decreases |s| - k
  {
    if k < |s| && IsSpace(s[k]) {
      SkipSpaceSpec(s, k + 1);
    }
  }

  /** The position just after the last character before k that does not hold
      whitespace, or 0 (SkipSpaceBackSpec). */
  function SkipSpaceBack(s: string, k: nat): (i: nat)
    requires k <= |s|
    ensures i <= k && (0 < i ==> !IsSpace(s[i - 1]))
  {
    if k == 0 || !IsSpace(s[k - 1]) then k else SkipSpaceBack(s, k - 1)
  }

  /** Everything SkipSpaceBack skips is whitespace. */
  lemma {:induction false} SkipSpaceBackSpec(s: string, k: nat)
    requires k <= |s|
    ensures forall j :: SkipSpaceBack(s, k) <= j < k ==> IsSpace(s[j])
  {
    if 0 < k && IsSpace(s[k - 1]) {
      SkipSpaceBackSpec(s, k - 1);
    }
  }

  /** The position of the first character of s that is not whitespace
      (FirstVisibleSpec). */
  function FirstVisible(s: string): (i: nat)
    requires !AllSpace(s)
    ensures i < |s| && !IsSpace(s[i])
  {
    SkipSpaceSpec(s, 0);
    SkipSpace(s, 0)
  }

  /** Only whitespace comes before the first visible character. */
  lemma FirstVisibleSpec(s: string)
    requires !AllSpace(s)
    ensures forall j :: 0 <= j < FirstVisible(s) ==> IsSpace(s[j])
  {
    SkipSpaceSpec(s, 0);
  }

  /** The position of the last character of s that is not whitespace
      (LastVisibleSpec). */
  function LastVisible(s: string): (i: nat)
    requires !AllSpace(s)
    ensures i < |s| && !IsSpace(s[i])
  {
    SkipSpaceBackSpec(s, |s|);
    SkipSpaceBack(s, |s|) - 1
  }

  /** Only whitespace comes after the last visible character. */
  lemma LastVisibleSpec(s: string)
    requires !AllSpace(s)
    ensures forall j :: LastVisible(s) < j < |s| ==> IsSpace(s[j])
  {
    SkipSpaceBackSpec(s, |s|);
  }

  /** A whitespace-only prefix followed by a visible character fixes FirstVisible. */
  lemma FirstVisibleUnique(s: string, m: nat)
    requires m < |s| && !IsSpace(s[m])
    requires forall j :: 0 <= j < m ==> IsSpace(s[j])
    ensures FirstVisible(s) == m
  {
    FirstVisibleSpec(s);
  }

  /** Python `s.strip()`: what lies between the first and the last visible
      character of s, or the empty string when s is all whitespace. */
  function Strip(s: string): (r: string)
    ensures |r| <= |s|
  {
    if AllSpace(s) then []
    else
      LastVisibleSpec(s);
      s[FirstVisible(s)..LastVisible(s) + 1]
  }

  /** `s.strip()` is empty exactly when s is all whitespace, and otherwise
      starts with the first visible character of s and ends with its last. */
  lemma StripFirst(s: string)
    ensures Strip(s) == [] <==> AllSpace(s)
    ensures !AllSpace(s) ==>
      Strip(s)[0] == s[FirstVisible(s)] && Strip(s)[|Strip(s)| - 1] == s[LastVisible(s)]
  {
    if !AllSpace(s) {
      var f, l := FirstVisible(s), LastVisible(s);
      LastVisibleSpec(s);
      assert f <= l;
      assert Strip(s) == s[f..l + 1];
    }
  }

  /** Stripping twice strips nothing more. */
  lemma StripIdempotent(s: string)
    ensures Strip(Strip(s)) == Strip(s)
  {
    var r := Strip(s);
    if r != [] {
      StripFirst(s);
      assert !AllSpace(r);
      FirstVisibleUnique(r, 0);
      LastVisibleSpec(r);
      var l := LastVisible(r);
      assert l == |r| - 1;
    }
  }

  /** Python `s.rstrip("\n")`: every trailing line feed removed (TrimNewlinesSpec). */
  function TrimNewlines(s: string): (r: string)
    ensures |r| <= |s|
  {
    if s != [] && s[|s| - 1] == '\n' then TrimNewlines(s[..|s| - 1]) else s
  }

  /** `rstrip("\n")` keeps a prefix of s, removes only line feeds, and leaves
      no line feed at the end. */
  lemma {:induction false} TrimNewlinesSpec(s: string)
    ensures var r := TrimNewlines(s);
      && r == s[..|r|]
      && (forall i :: |r| <= i < |s| ==> s[i] == '\n')
      && (r == [] || r[|r| - 1] != '\n')
  {
    if s != [] && s[|s| - 1] == '\n' {
      var init := s[..|s| - 1];
      TrimNewlinesSpec(init);
      var r := TrimNewlines(init);
      assert s[..|r|] == init[..|r|];
      forall i | |r| <= i < |s| ensures s[i] == '\n' {
        if i < |init| {
          assert s[i] == init[i];
        }
      }
    }
  }

  /** sub occurs in s at position i. */
  predicate OccursAt(s: string, sub: string, i: int) {
    0 <= i && i + |sub| <= |s| && s[i..i + |sub|] == sub
  }

  /** Python `s.find(sub)`: the lowest position where sub occurs in s, or -1
      (FindSpec). */
  function Find(s: string, sub: string): (r: int)
    ensures r >= -1 && (r >= 0 ==> r + |sub| <= |s|)
  {
    FindFrom(s, sub, 0)
  }

  /** The lowest position at or after start where sub occurs in s, or -1. */
  function FindFrom(s: string, sub: string, start: nat): (r: int)
    requires start <= |s|
    ensures r == -1 || (start <= r && r + |sub| <= |s|)
    decreases |s| - start
  {
    if start + |sub| > |s| then -1
    else if s[start..start + |sub|] == sub then start
    else FindFrom(s, sub, start + 1)
  }

  lemma {:induction false} FindFromSpec(s: string, sub: string, start: nat)
    requires start <= |s|
    ensures var r := FindFrom(s, sub, start);
      && (r >= 0 ==> OccursAt(s, sub, r))
      && forall j :: start <= j && (r < 0 || j < r) ==> !OccursAt(s, sub, j)
    decreases |s| - start
  {
    if start + |sub| <= |s| && s[start..start + |sub|] != sub {
      FindFromSpec(s, sub, start + 1);
    }
  }

  /** `find` gives the first occurrence of sub in s, and gives -1 only when there is none. */
  lemma FindSpec(s: string, sub: string)
    ensures var r := Find(s, sub);
      && (r >= 0 ==> OccursAt(s, sub, r))
      && forall j :: 0 <= j && (r < 0 || j < r) ==> !OccursAt(s, sub, j)
  {
    FindFromSpec(s, sub, 0);
  }

  /** Python 2 `str.lower` of one character: only ASCII letters change. */
  function LowerChar(c: char): char {
    if 'A' <= c <= 'Z' then (c as int - 'A' as int + 'a' as int) as char else c
  }

  /** Python 2 `s.lower()`. */
  function Lower(s: string): (r: string)
    ensures |r| == |s|
    ensures forall i :: 0 <= i < |s| ==> r[i] == LowerChar(s[i])
  {
    seq(|s|, i requires 0 <= i < |s| => LowerChar(s[i]))
  }

  /** The only strings whose lower-case form is "y" are "y" and "Y". */
  lemma LowerIsY(s: string)
    ensures Lower(s) == "y" <==> s == "y" || s == "Y"
  {
    if Lower(s) == "y" {
      assert LowerChar(s[0]) == 'y';
      assert s == [s[0]];
    }
  }
}
