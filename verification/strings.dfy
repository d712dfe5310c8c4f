/** Prefix, suffix and substring tests on text, the three `str` operations the
    path predicates are built from (`str::starts_with`, `str::ends_with`,
    `str::contains` with a `&str` pattern). */
module Strings {

  /** `pat` sits in `s` starting at index `i`. */
  ghost predicate OccursAt(s: string, pat: string, i: nat) {
    i + |pat| <= |s| && s[i..i + |pat|] == pat
  }

  /** `pat` is a contiguous piece of `s`. The empty pattern is a piece of every text. */
  ghost predicate IsSubstring(pat: string, s: string) {
    exists i: nat :: OccursAt(s, pat, i)
  }

  ghost predicate IsPrefix(pat: string, s: string) {
    |pat| <= |s| && s[..|pat|] == pat
  }

  ghost predicate IsSuffix(pat: string, s: string) {
    |pat| <= |s| && s[|s| - |pat|..] == pat
  }

  /** Compares `pat` with the head of `s` character by character. */
  function StartsWith(s: string, pat: string): (r: bool)
    ensures r <==> IsPrefix(pat, s)
  {
    if |pat| == 0 then true
    else if |s| == 0 then false
    else
      var r := s[0] == pat[0] && StartsWith(s[1..], pat[1..]);
      assert IsPrefix(pat, s) ==> s[1..][..|pat| - 1] == pat[1..];
      assert s[0] == pat[0] && IsPrefix(pat[1..], s[1..]) ==> s[..|pat|] == [s[0]] + s[1..][..|pat| - 1];
      r
  }

  /** Compares `pat` with the tail of `s`, last character first. */
  function EndsWith(s: string, pat: string): (r: bool)
    ensures r <==> IsSuffix(pat, s)
  {
    if |pat| == 0 then true
    else if |s| == 0 then false
    else
      var s', pat' := s[..|s| - 1], pat[..|pat| - 1];
      var r := s[|s| - 1] == pat[|pat| - 1] && EndsWith(s', pat');
      assert IsSuffix(pat, s) ==> s'[|s'| - |pat'|..] == pat';
      assert s[|s| - 1] == pat[|pat| - 1] && IsSuffix(pat', s') ==>
        s[|s| - |pat|..] == s'[|s'| - |pat'|..] + [s[|s| - 1]];
      r
  }

  /** Tries every start position in turn, as a plain forward search does. */
  function Contains(s: string, pat: string): (r: bool)
    ensures r <==> IsSubstring(pat, s)
    decreases |s|
  {
    if StartsWith(s, pat) then
      assert OccursAt(s, pat, 0);
      true
    else if |s| == 0 then false
    else
      var r := Contains(s[1..], pat);
      assert IsSubstring(pat, s) <==> IsSubstring(pat, s[1..]) by {
        SubstringOfTail(s, pat);
      }
      r
  }

  /** Once `pat` is not a prefix of a non-empty `s`, it occurs in `s` exactly when
      it occurs in `s` without its first character. */
  lemma SubstringOfTail(s: string, pat: string)
    requires |s| > 0 && !IsPrefix(pat, s)
    ensures IsSubstring(pat, s) <==> IsSubstring(pat, s[1..])
  {
    if IsSubstring(pat, s[1..]) {
      var i: nat :| OccursAt(s[1..], pat, i);
      assert s[i + 1..i + 1 + |pat|] == s[1..][i..i + |pat|];
      assert OccursAt(s, pat, i + 1);
    }
    if IsSubstring(pat, s) {
      var i: nat :| OccursAt(s, pat, i);
      assert s[1..][i - 1..i - 1 + |pat|] == s[i..i + |pat|];
      assert OccursAt(s[1..], pat, i - 1);
    }
  }

  /** A prefix is a substring: it occurs at index 0. */
  lemma PrefixIsSubstring(pat: string, s: string)
    requires IsPrefix(pat, s)
    ensures IsSubstring(pat, s)
  {
    assert OccursAt(s, pat, 0);
  }

  /** A suffix is a substring: it occurs at index `|s| - |pat|`. */
  lemma SuffixIsSubstring(pat: string, s: string)
    requires IsSuffix(pat, s)
    ensures IsSubstring(pat, s)
  {
    assert OccursAt(s, pat, |s| - |pat|);
  }

  /** A pattern holding a character the text lacks does not occur in it. */
  lemma MissingCharacter(pat: string, s: string, c: char)
    requires c in pat && c !in s
    ensures !IsSubstring(pat, s)
  {
  }

  /** Wrapping a text in a character the pattern lacks adds no occurrence. */
  lemma {:induction false} Wrapped(pat: string, s: string, c: char)
    requires c !in pat && IsSubstring(pat, [c] + s + [c])
    ensures IsSubstring(pat, s)
  {
    var w := [c] + s + [c];
    var i: nat :| OccursAt(w, pat, i);
    if pat == [] {
      assert OccursAt(s, pat, 0);
    } else {
      assert w[i] == pat[0] && w[i + |pat| - 1] == pat[|pat| - 1];
      assert w[0] == c && w[|w| - 1] == c;
      assert 1 <= i && i + |pat| <= |s| + 1;
      assert w[i..i + |pat|] == s[i - 1..i - 1 + |pat|];
      assert OccursAt(s, pat, i - 1);
    }
  }

  /** A pattern whose first character differs from the text's first one and whose
      last character differs from the text's last one neither starts nor ends
      the text. */
  lemma DiffersAtBothEnds(pat: string, s: string)
    requires |pat| > 0 && |s| > 0
    requires pat[0] != s[0] && pat[|pat| - 1] != s[|s| - 1]
    ensures !IsPrefix(pat, s) && !IsSuffix(pat, s)
  {
  }
}
