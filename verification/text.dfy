/** Ordinal string operations of .NET's `System.String` used by the modelled code. */
module Text {

  /** `s.StartsWith(p)` with ordinal comparison. */
  predicate StartsWith(s: string, p: string) {
    |p| <= |s| && s[..|p|] == p
  }

  /** `s.Contains(sub)` with ordinal comparison; every string contains "". */
  predicate Contains(s: string, sub: string)
    decreases |s|
  {
    StartsWith(s, sub) || (|s| > 0 && Contains(s[1..], sub))
  }

  /** `s.Replace(pat, rep)`: every non-overlapping occurrence of `pat`, found scanning left to right, is replaced. */
  function Replace(s: string, pat: string, rep: string): (r: string)
    requires |pat| > 0
    decreases |s|
  {
    if |s| < |pat| then s
    else if StartsWith(s, pat) then rep + Replace(s[|pat|..], pat, rep)
    else [s[0]] + Replace(s[1..], pat, rep)
  }

  /** A string without an occurrence of `pat` comes back from `Replace` unchanged. */
  lemma {:induction false} ReplaceAbsent(s: string, pat: string, rep: string)
    requires |pat| > 0
    ensures !Contains(s, pat) ==> Replace(s, pat, rep) == s
    decreases |s|
  {
    if |s| >= |pat| && !Contains(s, pat) {
      ReplaceAbsent(s[1..], pat, rep);
      assert [s[0]] + s[1..] == s;
    }
  }

  /** Replacing occurrences by the empty string never lengthens the text. */
  lemma {:induction false} ReplaceByEmptyShortens(s: string, pat: string)
    requires |pat| > 0
    ensures |Replace(s, pat, "")| <= |s|
    ensures Contains(s, pat) ==> |Replace(s, pat, "")| <= |s| - |pat|
    decreases |s|
  {
    if |s| < |pat| {
      assert !StartsWith(s, pat);
      if |s| > 0 { ContainsNeedsRoom(s[1..], pat); }
    } else if StartsWith(s, pat) {
      ReplaceByEmptyShortens(s[|pat|..], pat);
    } else {
      ReplaceByEmptyShortens(s[1..], pat);
    }
  }

  /** A string shorter than `sub` cannot contain it. */
  lemma {:induction false} ContainsNeedsRoom(s: string, sub: string)
    requires |s| < |sub|
    ensures !Contains(s, sub)
    decreases |s|
  {
    if |s| > 0 { ContainsNeedsRoom(s[1..], sub); }
  }
}
