/** The Python `str` methods the converter relies on. */
module Strings {

  /** `s.startswith(prefix)` */
  predicate StartsWith(s: string, prefix: string): (r: bool)
    ensures r <==> |prefix| <= |s| && forall k :: 0 <= k < |prefix| ==> s[k] == prefix[k]
  {
    prefix <= s
  }

  /** `s.endswith(suffix)` */
  predicate EndsWith(s: string, suffix: string): (r: bool)
    ensures r <==> |suffix| <= |s| && forall k :: 0 <= k < |suffix| ==> s[|s| - |suffix| + k] == suffix[k]
  {
    |suffix| <= |s| && s[|s| - |suffix|..] == suffix
  }

  /** `p` occurs in `s` at position `i`. */
  predicate OccursAt(s: string, p: string, i: nat) {
    i <= |s| && p <= s[i..]
  }

  /**
    * `s.replace(p, "")`: scanning left to right, every non-overlapping
    * occurrence of `p` is dropped. Python leaves `s` alone when `p` is empty.
    */
  function RemoveAll(s: string, p: string): (r: string)
    ensures |r| <= |s|
    ensures |p| == 0 ==> r == s
    decreases |s|
  {
    if |p| == 0 || |s| == 0 then s
    else if p <= s then RemoveAll(s[|p|..], p)
    else [s[0]] + RemoveAll(s[1..], p)
  }

  /** A string in which `p` does not occur comes back unchanged. */
  lemma {:induction false} RemoveAllAbsent(s: string, p: string)
    requires forall i :: 0 <= i < |s| ==> !OccursAt(s, p, i)
    ensures RemoveAll(s, p) == s
    decreases |s|
  {
    if |p| > 0 && |s| > 0 {
      assert s[0..] == s;
      assert !OccursAt(s, p, 0);
      forall i | 0 <= i < |s[1..]|
        ensures !OccursAt(s[1..], p, i)
      {
        assert s[1..][i..] == s[i + 1..];
        assert !OccursAt(s, p, i + 1);
      }
      RemoveAllAbsent(s[1..], p);
    }
  }

  /** A leading occurrence is dropped and the scan resumes right after it. */
  lemma RemoveAllLeading(p: string, t: string)
    requires |p| > 0
    ensures RemoveAll(p + t, p) == RemoveAll(t, p)
  {
    assert p <= p + t;
    assert (p + t)[|p|..] == t;
  }

  /** Removing never introduces a character: the result draws on the characters of `s`. */
  lemma {:induction false} RemoveAllKeepsCharacters(s: string, p: string)
    ensures multiset(RemoveAll(s, p)) <= multiset(s)
    decreases |s|
  {
    if |p| > 0 && |s| > 0 {
      if p <= s {
        RemoveAllKeepsCharacters(s[|p|..], p);
        assert s == s[..|p|] + s[|p|..];
        assert multiset(s) == multiset(s[..|p|]) + multiset(s[|p|..]);
      } else {
        RemoveAllKeepsCharacters(s[1..], p);
        assert s == [s[0]] + s[1..];
        assert multiset(s) == multiset([s[0]]) + multiset(s[1..]);
      }
    }
  }
}
