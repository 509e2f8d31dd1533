/** The part of Go's `strings` package the repository manager uses. */
module Strings {
  import opened Outcomes

  /** `pat` occurs in `s` starting at index `i`. */
  predicate OccursAt(s: string, pat: string, i: int)
  {
    0 <= i && i + |pat| <= |s| && s[i..i + |pat|] == pat
  }

  /** `i` is the leftmost index at which `pat` occurs in `s`. */
  ghost predicate FirstOccurrence(s: string, pat: string, i: int)
  {
    OccursAt(s, pat, i) && forall j :: 0 <= j < i ==> !OccursAt(s, pat, j)
  }

  /** The leftmost occurrence of `pat` in `s` at or after `from`. */
  function IndexFrom(s: string, pat: string, from: nat): (r: Option<nat>)
    requires from <= |s|
    ensures r.Some? ==> from <= r.value && OccursAt(s, pat, r.value)
                        && forall j :: from <= j < r.value ==> !OccursAt(s, pat, j)
    ensures r.None? ==> forall j :: from <= j ==> !OccursAt(s, pat, j)
    decreases |s| - from
  {
    if from + |pat| > |s| then None
    else if s[from..from + |pat|] == pat then Some(from)
    else IndexFrom(s, pat, from + 1)
  }

  /** `strings.Index`: the leftmost occurrence of `pat` in `s`, `None` standing for Go's -1.
      The empty pattern occurs at index 0. */
  function Index(s: string, pat: string): (r: Option<nat>)
    ensures r.Some? ==> FirstOccurrence(s, pat, r.value)
    ensures r.None? ==> forall i :: !OccursAt(s, pat, i)
  {
    IndexFrom(s, pat, 0)
  }

  /** `strings.Replace(s, pat, repl, 1)`: the leftmost occurrence of `pat` is replaced by `repl`;
      `s` is returned unchanged when `pat` does not occur or equals `repl`.
      An empty `pat` matches at the start, so `repl` is then prepended. */
  function ReplaceFirst(s: string, pat: string, repl: string): (r: string)
    ensures (forall i :: !OccursAt(s, pat, i)) ==> r == s
    ensures forall i :: FirstOccurrence(s, pat, i) ==> r == s[..i] + repl + s[i + |pat|..]
  {
    if pat == repl then
      assert forall i :: OccursAt(s, pat, i) ==> s[..i] + pat + s[i + |pat|..] == s by {
        forall i | OccursAt(s, pat, i) ensures s[..i] + pat + s[i + |pat|..] == s {
          assert s == s[..i] + s[i..i + |pat|] + s[i + |pat|..];
        }
      }
      s
    else
      match Index(s, pat)
      case None => s
      case Some(i) => s[..i] + repl + s[i + |pat|..]
  }

  /** A text spliced between two others occurs right after the first of them. */
  lemma OccursInSplice(a: string, m: string, b: string)
    ensures OccursAt(a + m + b, m, |a|)
  {
    assert (a + m + b)[|a|..|a| + |m|] == m;
  }

  /** The first occurrence comes no later than any occurrence. */
  lemma FirstOccurrenceIsEarliest(s: string, pat: string, i: int, k: int)
    requires FirstOccurrence(s, pat, i) && OccursAt(s, pat, k)
    ensures i <= k
  {
  }

  /** Replacing at the first occurrence splices the replacement in its place. */
  lemma ReplaceFirstAt(s: string, pat: string, repl: string, i: int)
    requires FirstOccurrence(s, pat, i)
    ensures ReplaceFirst(s, pat, repl) == s[..i] + repl + s[i + |pat|..]
  {
  }
}
