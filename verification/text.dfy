/**
 * The .NET string operations the editor relies on, over `seq<char>`.
 * Comparisons are ordinal; `ToLower` is modelled on ASCII letters only.
 */
module Text {
  import opened Wrappers

  function LowerChar(c: char): char {
    if 'A' <= c <= 'Z' then (c as int + 32) as char else c
  }

  /** `string.ToLower()`, restricted to ASCII case mapping. */
  function Lower(s: string): (r: string)
    ensures |r| == |s|
    ensures forall i :: 0 <= i < |s| ==> r[i] == LowerChar(s[i])
  {
    seq(|s|, i requires 0 <= i < |s| => LowerChar(s[i]))
  }

  /** Lowering twice is lowering once. */
  lemma LowerIdempotent(s: string)
    ensures Lower(Lower(s)) == Lower(s)
  {
  }

  predicate OccursAt(s: string, pat: string, k: int) {
    0 <= k && k + |pat| <= |s| && s[k..k + |pat|] == pat
  }

  /** `s.Contains(pat)`. */
  predicate IsSubstring(pat: string, s: string) {
    exists k :: 0 <= k <= |s| - |pat| && OccursAt(s, pat, k)
  }

  /** `s.EndsWith(suffix)`. */
  predicate EndsWith(s: string, suffix: string) {
    |suffix| <= |s| && s[|s| - |suffix|..] == suffix
  }

  /**
   * `s.IndexOf(pat, from)`: the first occurrence at or after `from`, or -1.
   * The caller must pass `from <= |s|`; .NET throws otherwise.
   */
  function IndexOfFrom(s: string, pat: string, from: nat): (r: int)
    requires from <= |s|
    ensures r == -1 || (from <= r && OccursAt(s, pat, r))
    ensures r == -1 ==> forall k :: from <= k ==> !OccursAt(s, pat, k)
    ensures r >= 0 ==> forall k :: from <= k < r ==> !OccursAt(s, pat, k)
    decreases |s| - from
  {
    if from + |pat| > |s| then -1
    else if s[from..from + |pat|] == pat then from
    else IndexOfFrom(s, pat, from + 1)
  }

  /** `s.IndexOf(pat)`. */
  function IndexOf(s: string, pat: string): int {
    IndexOfFrom(s, pat, 0)
  }

  /** `s.Substring(start, len)`: None where .NET throws ArgumentOutOfRangeException. */
  function Substring(s: string, start: int, len: int): (r: Option<string>)
    ensures r.Some? <==> 0 <= start && 0 <= len && start + len <= |s|
    ensures r.Some? ==> |r.value| == len && r.value == s[start..start + len]
  {
    if 0 <= start && 0 <= len && start + len <= |s| then Some(s[start..start + len]) else None
  }

  /**
   * `s.Replace(pat, repl)`: every non-overlapping occurrence, scanning left to right.
   * .NET rejects an empty `pat`.
   */
  function Replace(s: string, pat: string, repl: string): string
    requires |pat| > 0
    decreases |s|
  {
    if |s| < |pat| then s
    else if s[..|pat|] == pat then repl + Replace(s[|pat|..], pat, repl)
    else [s[0]] + Replace(s[1..], pat, repl)
  }

  /**
   * Replacing a single character by a string that does not contain it
   * leaves no occurrence of that character.
   */
  lemma {:induction false} ReplaceCharRemovesAll(s: string, c: char, repl: string)
    requires c !in repl
    ensures c !in Replace(s, [c], repl)
  {
    if |s| < 1 {
    } else if s[..1] == [c] {
      ReplaceCharRemovesAll(s[1..], c, repl);
    } else {
      assert s[0] != c;
      ReplaceCharRemovesAll(s[1..], c, repl);
    }
  }

  /** Characters other than `c` pass through a one-character replacement untouched, in order. */
  lemma {:induction false} ReplaceCharKeepsOthers(s: string, c: char, d: char)
    ensures |Replace(s, [c], [d])| == |s|
    ensures forall i :: 0 <= i < |s| ==>
      Replace(s, [c], [d])[i] == (if s[i] == c then d else s[i])
  {
    if |s| >= 1 {
      ReplaceCharKeepsOthers(s[1..], c, d);
      var t := Replace(s[1..], [c], [d]);
      if s[..1] == [c] {
        assert Replace(s, [c], [d]) == [d] + t;
      } else {
        assert Replace(s, [c], [d]) == [s[0]] + t;
      }
    }
  }
}
