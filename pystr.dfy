/**
 * The handful of Python `str` operations that the crawler's URL handling is
 * built from. The strip and split operations carry contracts, or (for
 * `Strip`) contracts plus the lemmas `StripIsTrimmed` and `TrimmedUnique`,
 * that determine their results; `RemoveAll` (`str.replace`) carries length
 * bounds, and the lemmas after it state which occurrences it removes.
 */
module PyStr {

  /** `pat` occurs in `s` starting at index `i`. */
  predicate MatchAt(s: string, pat: string, i: int) {
    0 <= i && i + |pat| <= |s| && s[i..i + |pat|] == pat
  }

  /** `pat in s` for Python strings. */
  predicate Occurs(pat: string, s: string) {
    exists i :: 0 <= i <= |s| && MatchAt(s, pat, i)
  }

  /** `s.endswith(suffix)`. */
  predicate EndsWith(s: string, suffix: string) {
    |suffix| <= |s| && s[|s| - |suffix|..] == suffix
  }

  /** Every character of `s` is `c`. */
  predicate AllAre(s: string, c: char) {
    forall i :: 0 <= i < |s| ==> s[i] == c
  }

  /** `r` is the slice of `s` at `i`, and everything of `s` around it is `c`. */
  predicate TrimmedAt(s: string, c: char, i: int, r: string) {
    && 0 <= i && i + |r| <= |s|
    && r == s[i..i + |r|]
    && (forall k :: 0 <= k < i ==> s[k] == c)
    && (forall k :: i + |r| <= k < |s| ==> s[k] == c)
  }

  /** `s.rstrip(c)`: every trailing `c` is dropped, and nothing else. */
  function RStrip(s: string, c: char): (r: string)
    ensures r <= s
    ensures r == [] || r[|r| - 1] != c
    ensures forall i :: |r| <= i < |s| ==> s[i] == c
  {
    if s != [] && s[|s| - 1] == c then RStrip(s[..|s| - 1], c) else s
  }

  /** `s.lstrip(c)`: every leading `c` is dropped, and nothing else. */
  function LStrip(s: string, c: char): (r: string)
    ensures |r| <= |s| && r == s[|s| - |r|..]
    ensures r == [] || r[0] != c
    ensures forall i :: 0 <= i < |s| - |r| ==> s[i] == c
  {
    if s != [] && s[0] == c then LStrip(s[1..], c) else s
  }

  /** `s.strip(c)`: leading and trailing `c` are dropped from both ends. */
  function Strip(s: string, c: char): (r: string)
    ensures r == [] || (r[0] != c && r[|r| - 1] != c)
    ensures r == [] <==> AllAre(s, c)
    ensures s != [] && s[0] != c ==> r != [] && r[0] == s[0]
    ensures s != [] && s[0] != c && s[|s| - 1] != c ==> r == s
  {
    StripEnds(s, c);
    StripEmpty(s, c);
    StripKeeps(s, c);
    RStrip(LStrip(s, c), c)
  }

  /**
   * What `strip` cuts off is only `c`: the result is the slice of `s`
   * between a leading and a trailing run of `c`. With the first clause of
   * `Strip`, this determines the result (`TrimmedUnique`).
   */
  lemma StripIsTrimmed(s: string, c: char)
    ensures exists i :: TrimmedAt(s, c, i, Strip(s, c))
  {
    StripSlice(s, c);
    assert Strip(s, c) == RStrip(LStrip(s, c), c);
    assert TrimmedAt(s, c, |s| - |LStrip(s, c)|, Strip(s, c));
  }

  /** Helper for `Strip`: neither end of the result is `c`. */
  lemma StripEnds(s: string, c: char)
    ensures var r := RStrip(LStrip(s, c), c);
      r == [] || (r[0] != c && r[|r| - 1] != c)
  {
    var left := LStrip(s, c);
    var r := RStrip(left, c);
    if r != [] {
      assert r[0] == left[0];
    }
  }

  /** Only one slice of `s` is trimmed of `c` and has no `c` at either end. */
  lemma TrimmedUnique(s: string, c: char, i: int, r: string, j: int, t: string)
    requires TrimmedAt(s, c, i, r) && TrimmedAt(s, c, j, t)
    requires r == [] || (r[0] != c && r[|r| - 1] != c)
    requires t == [] || (t[0] != c && t[|t| - 1] != c)
    ensures r == t
  {
    if r != [] && t != [] {
      assert s[i] == r[0] && s[j] == t[0];
      assert i == j;
      assert s[i + |r| - 1] == r[|r| - 1] && s[j + |t| - 1] == t[|t| - 1];
      assert |r| == |t|;
    }
  }

  /** Helper for `StripIsTrimmed`: the result is a slice of `s` with only `c` cut off around it. */
  lemma StripSlice(s: string, c: char)
    ensures TrimmedAt(s, c, |s| - |LStrip(s, c)|, RStrip(LStrip(s, c), c))
  {
    var left := LStrip(s, c);
    var i := |s| - |left|;
    var r := RStrip(left, c);
    assert left == s[i..];
    assert forall k :: 0 <= k < i ==> s[k] == c;
    assert r <= left && forall k :: |r| <= k < |left| ==> left[k] == c;
    TrimmedPrefixOfSuffix(s, c, i, left, r);
  }

  /** Helper for `StripSlice`: a prefix `r` of the suffix `s[i..]`, with only `c` around it, is trimmed from `s` at `i`. */
  lemma TrimmedPrefixOfSuffix(s: string, c: char, i: int, left: string, r: string)
    requires 0 <= i <= |s| && left == s[i..] && r <= left
    requires forall k :: 0 <= k < i ==> s[k] == c
    requires forall k :: |r| <= k < |left| ==> left[k] == c
    ensures TrimmedAt(s, c, i, r)
  {
    assert r == left[..|r|];
    assert left[..|r|] == s[i..i + |r|];
    forall k | i + |r| <= k < |s| ensures s[k] == c {
      assert s[k] == left[k - i];
    }
  }

  /** Helper for `Strip`: the result is empty exactly when `s` is all `c`. */
  lemma StripEmpty(s: string, c: char)
    ensures RStrip(LStrip(s, c), c) == [] <==> AllAre(s, c)
  {
    var left := LStrip(s, c);
    var cut := |s| - |left|;
    assert left != [] ==> left[0] == s[cut];
    assert RStrip(left, c) == [] ==> left == [];
  }

  /** Helper for `Strip`: a first character other than `c` is kept, and so is all of `s` if its last one is not `c` either. */
  lemma StripKeeps(s: string, c: char)
    ensures s != [] && s[0] != c ==> RStrip(LStrip(s, c), c) != [] && RStrip(LStrip(s, c), c)[0] == s[0]
    ensures s != [] && s[0] != c && s[|s| - 1] != c ==> RStrip(LStrip(s, c), c) == s
  {
    if s != [] && s[0] != c {
      var left := LStrip(s, c);
      assert left == s;
      var r := RStrip(s, c);
      assert r != [];
      assert r[0] == s[0];
      if s[|s| - 1] != c {
        assert |r| == |s|;
      }
    }
  }

  /** `s.split(c)[0]`: the part of `s` before its first `c`, or all of `s`. */
  function BeforeFirst(s: string, c: char): (r: string)
    ensures r <= s
    ensures c !in r
    ensures |r| < |s| ==> s[|r|] == c
    ensures c !in s ==> r == s
  {
    if s == [] || s[0] == c then [] else [s[0]] + BeforeFirst(s[1..], c)
  }

  /**
   * `s.replace(pat, "")`: a left-to-right scan that deletes every
   * non-overlapping occurrence of `pat`, wherever it stands. Python leaves
   * `s` unchanged when `pat` is empty.
   */
  function RemoveAll(s: string, pat: string): (r: string)
    ensures |r| <= |s|
    ensures pat != [] && MatchAt(s, pat, 0) ==> |r| <= |s| - |pat|
    decreases |s|
  {
    if pat == [] || |s| < |pat| then s
    else if s[..|pat|] == pat then RemoveAll(s[|pat|..], pat)
    else [s[0]] + RemoveAll(s[1..], pat)
  }

  /** Where `pat` does not occur, nothing is removed. */
  lemma {:induction false} RemoveAllNoOccurrence(s: string, pat: string)
    requires !Occurs(pat, s)
    ensures RemoveAll(s, pat) == s
    decreases |s|
  {
    if pat == [] || |s| < |pat| {
    } else {
      assert !MatchAt(s, pat, 0);
      assert !Occurs(pat, s[1..]) by {
        forall i | MatchAt(s[1..], pat, i) ensures false {
          SliceOfTail(s, i, |pat|);
          assert MatchAt(s, pat, i + 1);
        }
      }
      RemoveAllNoOccurrence(s[1..], pat);
    }
  }

  /** Helper: a slice of `s[1..]` is the slice of `s` one place further on. */
  lemma SliceOfTail(s: string, i: int, n: int)
    requires 0 <= i && 0 <= n && i + n < |s|
    ensures s[1..][i..i + n] == s[i + 1..i + 1 + n]
  {
    var a := s[1..][i..i + n];
    var b := s[i + 1..i + 1 + n];
    forall k | 0 <= k < n ensures a[k] == b[k] {
      assert a[k] == s[1..][i + k] == s[i + 1 + k];
    }
    assert a == b;
  }

  /** A leading copy of `pat` is removed, and nothing else when `pat` does not occur in the rest. */
  lemma {:induction false} RemoveAllLeading(pat: string, rest: string)
    requires pat != [] && !Occurs(pat, rest)
    ensures RemoveAll(pat + rest, pat) == rest
  {
    var s := pat + rest;
    assert s[..|pat|] == pat && s[|pat|..] == rest;
    RemoveAllNoOccurrence(rest, pat);
  }

  /**
   * The scan goes on after the first occurrence: a second copy of `pat`
   * behind `mid` is removed as well, provided no occurrence starts inside
   * `mid`.
   */
  lemma {:induction false} RemoveAllEveryOccurrence(mid: string, pat: string)
    requires pat != []
    requires forall i :: 0 <= i < |mid| ==> !MatchAt(mid + pat, pat, i)
    ensures RemoveAll(pat + mid + pat, pat) == mid
  {
    var s := pat + mid + pat;
    assert s[..|pat|] == pat;
    assert s[|pat|..] == mid + pat;
    RemoveAllTail(mid, pat);
  }

  /** Helper for `RemoveAllEveryOccurrence`: the part after the first copy. */
  lemma {:induction false} RemoveAllTail(mid: string, pat: string)
    requires pat != []
    requires forall i :: 0 <= i < |mid| ==> !MatchAt(mid + pat, pat, i)
    ensures RemoveAll(mid + pat, pat) == mid
    decreases |mid|
  {
    var s := mid + pat;
    if mid == [] {
      assert s == pat;
      assert s[..|pat|] == pat && s[|pat|..] == [];
    } else {
      assert !MatchAt(s, pat, 0);
      assert s[..|pat|] != pat;
      assert s[1..] == mid[1..] + pat;
      forall i | 0 <= i < |mid[1..]| ensures !MatchAt(mid[1..] + pat, pat, i) {
        assert !MatchAt(s, pat, i + 1);
        assert (mid[1..] + pat)[i..i + |pat|] == s[i + 1..i + 1 + |pat|];
      }
      RemoveAllTail(mid[1..], pat);
      assert [s[0]] + mid[1..] == mid;
    }
  }
}
