/**
 * Python's `str.replace(old, new)` and `str.count(sub)` for a non-empty
 * pattern, over strings as sequences of characters.
 *
 * Both scan left to right: at each position, if the pattern starts there it
 * is consumed whole (so matches never overlap), otherwise one character is
 * passed over. `Occurrences` is an independent reference that counts every
 * position where the pattern starts, overlapping or not; for a pattern whose
 * first character does not reappear in it, the two counts agree.
 */
module PyStr {

  predicate StartsWith(s: string, p: string) {
    |p| <= |s| && s[..|p|] == p
  }

  /** `p` occurs in `s` starting at index `i`. */
  predicate OccursAt(s: string, p: string, i: int) {
    0 <= i && i + |p| <= |s| && s[i..i + |p|] == p
  }

  /** Python's `p in s`. */
  ghost predicate Contains(s: string, p: string) {
    exists i :: OccursAt(s, p, i)
  }

  /**
   * Python's `s.replace(pat, rep)`; `pat` is non-empty. Deleting a pattern
   * never lengthens the string, and a replacement as long as the pattern
   * keeps the length.
   */
  function Replace(s: string, pat: string, rep: string): (r: string)
    requires |pat| > 0
    ensures rep == [] ==> |r| <= |s|
    ensures |rep| == |pat| ==> |r| == |s|
    decreases |s|
  {
    if |s| < |pat| then s
    else if StartsWith(s, pat) then rep + Replace(s[|pat|..], pat, rep)
    else [s[0]] + Replace(s[1..], pat, rep)
  }

  /** Python's `s.count(pat)`: the number of matches `Replace` substitutes. */
  function Count(s: string, pat: string): (n: nat)
    requires |pat| > 0
    ensures n * |pat| <= |s|
    decreases |s|
  {
    if |s| < |pat| then 0
    else if StartsWith(s, pat) then 1 + Count(s[|pat|..], pat)
    else Count(s[1..], pat)
  }

  /** The number of positions of `s` at which `pat` starts, overlapping or not. */
  function Occurrences(s: string, pat: string): nat
    requires |pat| > 0
    decreases |s|
  {
    if |s| < |pat| then 0
    else (if StartsWith(s, pat) then 1 else 0) + Occurrences(s[1..], pat)
  }

  /** The first character of `p` appears nowhere else in `p`; such a pattern cannot overlap itself. */
  predicate HeadUnique(p: string) {
    |p| > 0 && forall k :: 0 < k < |p| ==> p[k] != p[0]
  }

  lemma OccursAtTail(s: string, p: string, i: nat)
    requires |s| > 0
    ensures OccursAt(s[1..], p, i) <==> OccursAt(s, p, i + 1)
  {
    if i + 1 + |p| <= |s| {
      assert s[1..][i..i + |p|] == s[i + 1..i + 1 + |p|];
    }
  }

  /** A pattern too long for `s` does not occur in it. */
  lemma NotContainsShort(s: string, p: string)
    requires |s| < |p|
    ensures !Contains(s, p)
  {
  }

  lemma Distribute(c: nat, d: int)
    ensures (1 + c) * d == d + c * d
  {
  }

  /** Every replaced match is `|pat|` characters long and becomes `|rep|` characters. */
  lemma {:induction false} ReplaceLength(s: string, pat: string, rep: string)
    requires |pat| > 0
    ensures |Replace(s, pat, rep)| == |s| + Count(s, pat) * (|rep| - |pat|)
    decreases |s|
  {
    if |s| < |pat| {
    } else if StartsWith(s, pat) {
      var rest := s[|pat|..];
      ReplaceLength(rest, pat, rep);
      var c, d := Count(rest, pat), |rep| - |pat|;
      assert |Replace(s, pat, rep)| == |rep| + |Replace(rest, pat, rep)|;
      assert Count(s, pat) == 1 + c;
      Distribute(c, d);
    } else {
      ReplaceLength(s[1..], pat, rep);
    }
  }

  /** The left-to-right scan finds a match exactly when the pattern occurs somewhere. */
  lemma {:induction false} CountZeroIff(s: string, pat: string)
    requires |pat| > 0
    ensures Count(s, pat) == 0 <==> !Contains(s, pat)
    decreases |s|
  {
    if |s| < |pat| {
      NotContainsShort(s, pat);
    } else if StartsWith(s, pat) {
      assert OccursAt(s, pat, 0);
    } else {
      CountZeroIff(s[1..], pat);
      if Contains(s, pat) {
        var i :| OccursAt(s, pat, i);
        assert i != 0;
        OccursAtTail(s, pat, i - 1);
        assert Contains(s[1..], pat);
      }
      if Contains(s[1..], pat) {
        var j :| OccursAt(s[1..], pat, j);
        OccursAtTail(s, pat, j);
        assert Contains(s, pat);
      }
    }
  }

  /** Inside a match of a head-unique pattern no other match can start. */
  lemma {:induction false} NoStartInsideMatch(s: string, pat: string, k: nat)
    requires HeadUnique(pat) && StartsWith(s, pat) && 1 <= k <= |pat|
    ensures Occurrences(s[k..], pat) == Occurrences(s[|pat|..], pat)
    decreases |pat| - k
  {
    if k < |pat| {
      var t := s[k..];
      assert t[0] == pat[k] != pat[0];
      assert |t| >= |pat| ==> t[..|pat|][0] == t[0];
      assert !StartsWith(t, pat);
      assert t[1..] == s[k + 1..];
      NoStartInsideMatch(s, pat, k + 1);
    }
  }

  /**
   * For a pattern that cannot overlap itself, the non-overlapping
   * left-to-right count equals the number of positions where it occurs.
   */
  lemma {:induction false} CountIsOccurrences(s: string, pat: string)
    requires HeadUnique(pat)
    ensures Count(s, pat) == Occurrences(s, pat)
    decreases |s|
  {
    if |s| < |pat| {
    } else if StartsWith(s, pat) {
      CountIsOccurrences(s[|pat|..], pat);
      NoStartInsideMatch(s, pat, 1);
    } else {
      CountIsOccurrences(s[1..], pat);
    }
  }

  /** Replacing a pattern that does not occur changes nothing. */
  lemma {:induction false} ReplaceWithoutMatch(s: string, pat: string, rep: string)
    requires |pat| > 0 && !Contains(s, pat)
    ensures Replace(s, pat, rep) == s
    decreases |s|
  {
    if |s| < |pat| {
    } else {
      assert !OccursAt(s, pat, 0);
      assert s[0..|pat|] == s[..|pat|];
      assert !StartsWith(s, pat);
      assert !Contains(s[1..], pat) by {
        if Contains(s[1..], pat) {
          var j :| OccursAt(s[1..], pat, j);
          OccursAtTail(s, pat, j);
        }
      }
      ReplaceWithoutMatch(s[1..], pat, rep);
      assert [s[0]] + s[1..] == s;
    }
  }

  /** A string that starts with the pattern has that first match replaced. */
  lemma AtMatch(pat: string, rep: string, y: string)
    requires |pat| > 0
    ensures Replace(pat + y, pat, rep) == rep + Replace(y, pat, rep)
  {
    assert (pat + y)[..|pat|] == pat;
    assert (pat + y)[|pat|..] == y;
  }

  /** No match of a head-unique pattern can start less than `|pat|` characters before another match. */
  lemma NoStraddle(x: string, pat: string, y: string)
    requires HeadUnique(pat) && 0 < |x| < |pat|
    ensures !StartsWith(x + pat + y, pat)
  {
    var s := x + pat + y;
    assert s[|x|] == pat[0];
    assert |pat| <= |s| ==> s[..|pat|][|x|] == s[|x|];
    assert pat[|x|] != pat[0];
  }

  /** Step of `ReplaceSplit` when `x` starts with a match: that match is replaced in both. */
  lemma SplitStepAtMatch(x: string, pat: string, rep: string, y: string)
    requires |pat| > 0 && |x| >= |pat| && StartsWith(x, pat)
    requires Replace(x[|pat|..] + pat + y, pat, rep) == Replace(x[|pat|..], pat, rep) + rep + Replace(y, pat, rep)
    ensures Replace(x + pat + y, pat, rep) == Replace(x, pat, rep) + rep + Replace(y, pat, rep)
  {
    var s, rest := x + pat + y, x[|pat|..];
    assert s[..|pat|] == x[..|pat|];
    assert s[|pat|..] == rest + pat + y;
    var a, b := Replace(rest, pat, rep), Replace(y, pat, rep);
    assert Replace(s, pat, rep) == rep + (a + rep + b);
    assert Replace(x, pat, rep) == rep + a;
  }

  /** Step of `ReplaceSplit` when no match starts at the front: the first character is kept in both. */
  lemma SplitStepPass(x: string, pat: string, rep: string, y: string)
    requires |pat| > 0 && |x| > 0 && !StartsWith(x + pat + y, pat)
    requires Replace(x[1..] + pat + y, pat, rep) == Replace(x[1..], pat, rep) + rep + Replace(y, pat, rep)
    ensures Replace(x + pat + y, pat, rep) == Replace(x, pat, rep) + rep + Replace(y, pat, rep)
  {
    var s := x + pat + y;
    assert s[1..] == x[1..] + pat + y;
    var a, b := Replace(x[1..], pat, rep), Replace(y, pat, rep);
    assert Replace(s, pat, rep) == [x[0]] + (a + rep + b);
    if |x| >= |pat| {
      assert s[..|pat|] == x[..|pat|];
      assert Replace(x, pat, rep) == [x[0]] + a;
    } else {
      assert a == x[1..];
      assert Replace(x, pat, rep) == x == [x[0]] + a;
    }
  }

  /**
   * Python defines `replace` through `find`: everything before the first
   * match is replaced on its own, the match becomes `rep`, and the scan
   * starts again after it. For a pattern that cannot overlap itself, any
   * occurrence splits the result this way.
   */
  lemma {:induction false} ReplaceSplit(x: string, pat: string, rep: string, y: string)
    requires HeadUnique(pat)
    ensures Replace(x + pat + y, pat, rep) == Replace(x, pat, rep) + rep + Replace(y, pat, rep)
    decreases |x|
  {
    if x == [] {
      assert x + pat + y == pat + y;
      AtMatch(pat, rep, y);
    } else if |x| >= |pat| && StartsWith(x, pat) {
      ReplaceSplit(x[|pat|..], pat, rep, y);
      SplitStepAtMatch(x, pat, rep, y);
    } else {
      if |x| < |pat| {
        NoStraddle(x, pat, y);
      } else {
        assert (x + pat + y)[..|pat|] == x[..|pat|];
      }
      ReplaceSplit(x[1..], pat, rep, y);
      SplitStepPass(x, pat, rep, y);
    }
  }

  /** Replacing one character by another distributes over concatenation. */
  lemma ReplaceCharConcat(a: string, b: string, c: char, d: char)
    ensures Replace(a + b, [c], [d]) == Replace(a, [c], [d]) + Replace(b, [c], [d])
  {
    ReplaceCharPointwise(a, c, d);
    ReplaceCharPointwise(b, c, d);
    ReplaceCharPointwise(a + b, c, d);
    var l, r := Replace(a + b, [c], [d]), Replace(a, [c], [d]) + Replace(b, [c], [d]);
    forall i | 0 <= i < |l|
      ensures l[i] == r[i]
    {
      if i >= |a| {
        assert (a + b)[i] == b[i - |a|];
      }
    }
  }

  /**
   * Replacing one character by another is a position-by-position map: the
   * length is kept, every `c` becomes `d`, every other character stays.
   */
  lemma {:induction false} ReplaceCharPointwise(s: string, c: char, d: char)
    ensures |Replace(s, [c], [d])| == |s|
    ensures forall i :: 0 <= i < |s| ==> Replace(s, [c], [d])[i] == (if s[i] == c then d else s[i])
    decreases |s|
  {
    if |s| > 0 {
      ReplaceCharPointwise(s[1..], c, d);
      var r := Replace(s, [c], [d]);
      var head := if s[0] == c then d else s[0];
      assert StartsWith(s, [c]) <==> s[0] == c;
      assert r == [head] + Replace(s[1..], [c], [d]);
      forall i | 0 <= i < |s|
        ensures r[i] == (if s[i] == c then d else s[i])
      {
        if i > 0 {
          assert r[i] == Replace(s[1..], [c], [d])[i - 1];
          assert s[1..][i - 1] == s[i];
        }
      }
    }
  }
}
