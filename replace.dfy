/** JavaScript's `s.replace(/PATTERN/g, REPLACEMENT)` for a literal pattern and a
    replacement that holds no `$` substitution patterns: the string is scanned from the
    left, every match is replaced, and scanning resumes after the matched span. */
module Replace {
  import opened CaseText

  function ReplaceAll(s: string, p: string, r: string): (t: string)
    requires |p| > 0
    ensures |p| == |r| ==> |t| == |s|
    decreases |s|
  {
    if |s| < |p| then s
    else if s[..|p|] == p then r + ReplaceAll(s[|p|..], p, r)
    else [s[0]] + ReplaceAll(s[1..], p, r)
  }

  /** No non-empty proper suffix of `x` is a prefix of `y`: a copy of `x` and a copy
      of `y` cannot partly overlap with `x` on the left. */
  predicate NoBorder(x: string, y: string) {
    forall k :: 0 < k < |x| && k <= |y| ==> x[|x| - k..] != y[..k]
  }

  /** A word whose first letter does not recur after the first position of `x`
      cannot sit on a suffix of `x`. */
  lemma NoBorderByFirstLetter(x: string, y: string)
    requires |x| > 0 && |y| > 0 && y[0] !in x[1..]
    ensures NoBorder(x, y)
  {
    forall k | 0 < k < |x| && k <= |y| ensures x[|x| - k..] != y[..k] {
      assert x[|x| - k..][0] == x[1..][|x| - k - 1];
    }
  }

  /** `r` (a replacement) and `q` (a pattern) cannot overlap in either order and differ. */
  predicate Apart(q: string, r: string) {
    q != r && NoBorder(r, q) && NoBorder(q, r)
  }

  /** Character `i` of `t` lies in a span where `s` held `p` and `t` holds `r`. */
  ghost predicate InReplacedSpan(s: string, t: string, p: string, r: string, i: int) {
    exists j :: j <= i < j + |p| && OccursAt(s, p, j) && OccursAt(t, r, j)
  }

  lemma OccursShift(s: string, p: string, d: nat, i: int)
    requires d <= |s|
    ensures OccursAt(s[d..], p, i) <==> i >= 0 && OccursAt(s, p, i + d)
  {
    if 0 <= i && i + |p| <= |s| - d {
      assert s[d..][i..i + |p|] == s[i + d..i + d + |p|];
    }
  }

  lemma FreeDrop(s: string, p: string, d: nat)
    requires d <= |s| && !Contains(s, p)
    ensures !Contains(s[d..], p)
  {
    forall i | OccursAt(s[d..], p, i) ensures false {
      OccursShift(s, p, d, i);
    }
  }

  /** A string without the pattern comes back unchanged. */
  lemma {:induction false} ReplaceAllFreeIdentity(s: string, p: string, r: string)
    requires |p| > 0 && !Contains(s, p)
    ensures ReplaceAll(s, p, r) == s
    decreases |s|
  {
    if |s| >= |p| {
      assert s[..|p|] != p by { assert !OccursAt(s, p, 0); }
      FreeDrop(s, p, 1);
      ReplaceAllFreeIdentity(s[1..], p, r);
    }
  }

  /** A string holding the pattern is changed: the leftmost occurrence is replaced. */
  lemma {:induction false} ReplaceAllChanges(s: string, p: string, r: string)
    requires |p| > 0 && |p| == |r| && p != r && Contains(s, p)
    ensures ReplaceAll(s, p, r) != s
    decreases |s|
  {
    var t := ReplaceAll(s, p, r);
    var i :| OccursAt(s, p, i);
    if s[..|p|] == p {
      assert t[..|p|] == r;
    } else {
      assert i != 0;
      OccursShift(s, p, 1, i - 1);
      ReplaceAllChanges(s[1..], p, r);
      assert t[1..] == ReplaceAll(s[1..], p, r);
    }
  }

  /** The replacement is the identity exactly on strings without the pattern. */
  lemma ReplaceAllUnchangedIff(s: string, p: string, r: string)
    requires |p| > 0 && |p| == |r| && p != r
    ensures ReplaceAll(s, p, r) == s <==> !Contains(s, p)
  {
    if Contains(s, p) { ReplaceAllChanges(s, p, r); } else { ReplaceAllFreeIdentity(s, p, r); }
  }

  /** Slices of a concatenation that fall inside its left part. */
  lemma ConcatSlices(a: string, b: string)
    ensures forall k :: 0 <= k <= |a| ==> (a + b)[..k] == a[..k]
    ensures (a + b)[|a|..] == b
  {
  }

  /** The first `n` characters of `s` split into its head and the rest, and an
      occurrence at index 0 is a prefix. */
  lemma HeadAndTail(s: string, n: int)
    ensures 0 < n <= |s| ==> s[..n] == [s[0]] + s[1..][..n - 1]
    ensures 0 <= n <= |s| ==> (forall q :: |q| == n ==> (OccursAt(s, q, 0) <==> s[..n] == q))
  {
  }

  /** Two occurrences in `s`, the first at index 0 and the second starting inside it,
      make a suffix of `x` equal to a prefix of `y`. */
  lemma OverlapAtStart(s: string, x: string, y: string, j: int)
    ensures OccursAt(s, x, 0) && OccursAt(s, y, j) && 0 < j < |x| <= j + |y| ==>
      x[|x| - (|x| - j)..] == y[..|x| - j]
  {
    if OccursAt(s, x, 0) && OccursAt(s, y, j) && 0 < j < |x| <= j + |y| {
      assert s[j..|x|] == s[0..|x|][j..];
      assert s[j..|x|] == s[j..j + |y|][..|x| - j];
    }
  }

  /** If the output begins with a proper suffix of `q`, so did the input: the
      replacement `r` never starts with a suffix of `q`. */
  lemma {:induction false} ReplacedPrefix(s: string, p: string, r: string, q: string, k: nat)
    requires |p| == |r| == |q| > 0 && NoBorder(q, r)
    requires k < |q| && k <= |s|
    requires ReplaceAll(s, p, r)[..k] == q[|q| - k..]
    ensures s[..k] == q[|q| - k..]
    decreases |s|
  {
    if k == 0 || |s| < |p| {
    } else if s[..|p|] == p {
      ConcatSlices(r, ReplaceAll(s[|p|..], p, r));
    } else {
      var t := ReplaceAll(s, p, r);
      var u := ReplaceAll(s[1..], p, r);
      assert t == [s[0]] + u;
      assert u[..k - 1] == t[1..k];
      assert q[|q| - k..][1..] == q[|q| - (k - 1)..];
      ReplacedPrefix(s[1..], p, r, q, k - 1);
      assert s[..k] == [s[0]] + s[1..][..k - 1];
    }
  }

  /** After replacing `p` by `r`, the output holds no `q`, provided `q` is `p` itself or
      was absent, and `r` cannot meet `q`. With `q == p`: replacement removes its pattern. */
  lemma {:induction false} ReplaceAllFree(s: string, p: string, r: string, q: string)
    requires |p| == |r| == |q| > 0 && Apart(q, r)
    requires q == p || !Contains(s, q)
    ensures !Contains(ReplaceAll(s, p, r), q)
    decreases |s|
  {
    if |s| < |p| {
      assert forall i :: !OccursAt(ReplaceAll(s, p, r), q, i);
    } else if s[..|p|] == p {
      if q != p { FreeDrop(s, q, |p|); }
      ReplaceAllFree(s[|p|..], p, r, q);
      FreeAfterHit(s, p, r, q);
    } else {
      if q != p { FreeDrop(s, q, 1); }
      ReplaceAllFree(s[1..], p, r, q);
      FreeAfterMiss(s, p, r, q);
    }
  }

  /** The step of `ReplaceAllFree` where the input starts with the pattern. */
  lemma FreeAfterHit(s: string, p: string, r: string, q: string)
    requires |p| == |r| == |q| > 0 && Apart(q, r)
    requires |s| >= |p| && s[..|p|] == p
    requires !Contains(ReplaceAll(s[|p|..], p, r), q)
    ensures !Contains(ReplaceAll(s, p, r), q)
  {
    FreeAfter(r, ReplaceAll(s[|p|..], p, r), q);
  }

  /** A word apart from `r` and absent from `u` is absent from `r + u`. */
  lemma FreeAfter(r: string, u: string, q: string)
    requires |r| == |q| > 0 && Apart(q, r) && !Contains(u, q)
    ensures !Contains(r + u, q)
  {
    var t := r + u;
    var n := |q|;
    assert t[..n] == r && t[n..] == u;
    forall i | OccursAt(t, q, i) ensures false {
      if i == 0 {
      } else if i < n {
        assert OccursAt(t, r, 0) by { assert t[0..n] == t[..n]; }
        OverlapAtStart(t, r, q, i);
      } else {
        OccursShift(t, q, n, i - n);
      }
    }
  }

  /** The step of `ReplaceAllFree` where the input does not start with the pattern. */
  lemma FreeAfterMiss(s: string, p: string, r: string, q: string)
    requires |p| == |r| == |q| > 0 && Apart(q, r)
    requires |s| >= |p| && s[..|p|] != p
    requires q == p || !Contains(s, q)
    requires !Contains(ReplaceAll(s[1..], p, r), q)
    ensures !Contains(ReplaceAll(s, p, r), q)
  {
    var u := ReplaceAll(s[1..], p, r);
    var n := |q|;
    assert ReplaceAll(s, p, r) == [s[0]] + u;
    assert s[0] == q[0] && |u| >= n - 1 ==> u[..n - 1] != q[1..] by {
      if s[0] == q[0] && |u| >= n - 1 && u[..n - 1] == q[1..] {
        assert q[1..] == q[n - (n - 1)..];
        ReplacedPrefix(s[1..], p, r, q, n - 1);
        assert s[..n] == [s[0]] + s[1..][..n - 1];
        assert OccursAt(s, q, 0) by { assert s[0..n] == s[..n]; }
      }
    }
    FreeAfterChar(s[0], u, q);
  }

  /** A word absent from `u` is absent from `[c] + u` unless `c` followed by `u`
      starts with it. */
  lemma FreeAfterChar(c: char, u: string, q: string)
    requires |q| > 0 && !Contains(u, q)
    requires c == q[0] && |u| >= |q| - 1 ==> u[..|q| - 1] != q[1..]
    ensures !Contains([c] + u, q)
  {
    var t := [c] + u;
    var n := |q|;
    assert t[1..] == u;
    forall i | OccursAt(t, q, i) ensures false {
      if i == 0 {
      } else {
        OccursShift(t, q, 1, i - 1);
      }
    }
  }

  /** Every character the replacement changes lies in a span where the input held
      the pattern and the output holds the replacement; all other characters are kept. */
  lemma {:induction false} ReplaceAllSpans(s: string, p: string, r: string)
    requires |p| > 0 && |p| == |r|
    ensures forall i :: 0 <= i < |s| ==>
      ReplaceAll(s, p, r)[i] == s[i] || InReplacedSpan(s, ReplaceAll(s, p, r), p, r, i)
    decreases |s|
  {
    var t := ReplaceAll(s, p, r);
    var n := |p|;
    if |s| < n {
    } else if s[..n] == p {
      var u := ReplaceAll(s[n..], p, r);
      assert t == r + u;
      ReplaceAllSpans(s[n..], p, r);
      forall i | 0 <= i < |s| && t[i] != s[i] ensures InReplacedSpan(s, t, p, r, i) {
        if i < n {
          assert OccursAt(s, p, 0) && OccursAt(t, r, 0);
        } else {
          assert u[i - n] == t[i] && s[n..][i - n] == s[i];
          var j :| j <= i - n < j + n && OccursAt(s[n..], p, j) && OccursAt(u, r, j);
          OccursShift(s, p, n, j);
          assert t[n..] == u;
          OccursShift(t, r, n, j);
          assert OccursAt(s, p, j + n) && OccursAt(t, r, j + n);
        }
      }
    } else {
      var u := ReplaceAll(s[1..], p, r);
      assert t == [s[0]] + u;
      ReplaceAllSpans(s[1..], p, r);
      forall i | 0 <= i < |s| && t[i] != s[i] ensures InReplacedSpan(s, t, p, r, i) {
        assert i > 0;
        assert u[i - 1] == t[i] && s[1..][i - 1] == s[i];
        var j :| j <= i - 1 < j + n && OccursAt(s[1..], p, j) && OccursAt(u, r, j);
        OccursShift(s, p, 1, j);
        assert t[1..] == u;
        OccursShift(t, r, 1, j);
        assert OccursAt(s, p, j + 1) && OccursAt(t, r, j + 1);
      }
    }
  }

  /** Two occurrences in `s`, the second starting inside the first, make a suffix of
      the first word equal to a prefix of the second. */
  lemma OverlapAt(s: string, x: string, y: string, i: int, j: int)
    requires OccursAt(s, x, i) && OccursAt(s, y, j) && i < j < i + |x| <= j + |y|
    ensures x[|x| - (i + |x| - j)..] == y[..i + |x| - j]
  {
    OccursShift(s, x, i, 0);
    OccursShift(s, y, i, j - i);
    OverlapAtStart(s[i..], x, y, j - i);
  }

  /** Every changed character is a character of the pattern turned into the
      character of the replacement at the same offset. */
  lemma ReplaceAllChangedChar(s: string, p: string, r: string, i: int)
    requires |p| > 0 && |p| == |r| && 0 <= i < |s|
    requires ReplaceAll(s, p, r)[i] != s[i]
    ensures exists k :: 0 <= k < |p| && p[k] == s[i] && r[k] == ReplaceAll(s, p, r)[i]
  {
    var t := ReplaceAll(s, p, r);
    ReplaceAllSpans(s, p, r);
    var j :| j <= i < j + |p| && OccursAt(s, p, j) && OccursAt(t, r, j);
    assert s[j..j + |p|][i - j] == s[i];
    assert t[j..j + |r|][i - j] == t[i];
  }

  /** An occurrence of a word that cannot meet the pattern survives the replacement. */
  lemma ReplaceAllKeeps(s: string, p: string, r: string, x: string, j: int)
    requires |p| == |r| == |x| > 0 && Apart(p, x)
    requires OccursAt(s, x, j)
    ensures OccursAt(ReplaceAll(s, p, r), x, j)
  {
    var t := ReplaceAll(s, p, r);
    var n := |p|;
    ReplaceAllSpans(s, p, r);
    forall i | j <= i < j + n ensures t[i] == s[i] {
      if t[i] != s[i] {
        var j' :| j' <= i < j' + n && OccursAt(s, p, j') && OccursAt(t, r, j');
        if j' < j {
          OverlapAt(s, p, x, j', j);
        } else if j' > j {
          OverlapAt(s, x, p, j, j');
        }
      }
    }
    assert t[j..j + n] == s[j..j + n];
  }

  /** An occurrence in the output of a word that cannot overlap the replacement was
      already in the input, at the same place. */
  lemma ReplaceAllBack(s: string, p: string, r: string, x: string, j: int)
    requires |p| == |r| == |x| > 0 && Apart(x, r)
    requires OccursAt(ReplaceAll(s, p, r), x, j)
    ensures OccursAt(s, x, j)
  {
    var t := ReplaceAll(s, p, r);
    var n := |p|;
    ReplaceAllSpans(s, p, r);
    forall i | j <= i < j + n ensures t[i] == s[i] {
      if t[i] != s[i] {
        var j' :| j' <= i < j' + n && OccursAt(s, p, j') && OccursAt(t, r, j');
        if j' < j {
          OverlapAt(t, r, x, j', j);
        } else if j' > j {
          OverlapAt(t, x, r, j, j');
        }
      }
    }
    assert t[j..j + n] == s[j..j + n];
  }

  /** For a pattern that cannot overlap itself (such as `YALE`), every occurrence in the
      input is replaced in place. */
  lemma {:induction false} ReplaceAllEveryOccurrence(s: string, p: string, r: string, j: int)
    requires |p| > 0 && |p| == |r| && NoBorder(p, p)
    requires OccursAt(s, p, j)
    ensures OccursAt(ReplaceAll(s, p, r), r, j)
    decreases |s|
  {
    var t := ReplaceAll(s, p, r);
    var n := |p|;
    if s[..n] == p {
      var u := ReplaceAll(s[n..], p, r);
      assert t == r + u;
      ConcatSlices(r, u);
      OverlapAtStart(s, p, p, j);
      if j >= n {
        OccursShift(s, p, n, j - n);
        ReplaceAllEveryOccurrence(s[n..], p, r, j - n);
        OccursShift(t, r, n, j - n);
      }
    } else {
      var u := ReplaceAll(s[1..], p, r);
      assert t == [s[0]] + u;
      ConcatSlices([s[0]], u);
      assert j != 0;
      OccursShift(s, p, 1, j - 1);
      ReplaceAllEveryOccurrence(s[1..], p, r, j - 1);
      OccursShift(t, r, 1, j - 1);
    }
  }

  /** A stretch without the first letter of the pattern is copied through. */
  lemma {:induction false} ReplaceAllSkip(a: string, b: string, p: string, r: string)
    requires |p| > 0 && p[0] !in a
    ensures ReplaceAll(a + b, p, r) == a + ReplaceAll(b, p, r)
    decreases |a|
  {
    if |a| > 0 {
      var s := a + b;
      assert s[0] == a[0] && s[1..] == a[1..] + b;
      if |s| >= |p| {
        assert s[..|p|][0] == a[0];
      } else {
        ReplaceAllShort(b, p, r);
      }
      ReplaceAllSkip(a[1..], b, p, r);
    } else {
      assert a + b == b;
    }
  }

  lemma ReplaceAllShort(s: string, p: string, r: string)
    requires 0 < |p| && |s| < |p|
    ensures ReplaceAll(s, p, r) == s
  {
  }

  /** An occurrence at the front is replaced and scanning resumes after it. */
  lemma ReplaceAllHit(b: string, p: string, r: string)
    requires |p| > 0
    ensures ReplaceAll(p + b, p, r) == r + ReplaceAll(b, p, r)
  {
    assert (p + b)[..|p|] == p && (p + b)[|p|..] == b;
  }

  /** A character followed by something other than the second letter of the pattern
      starts no occurrence. */
  lemma ReplaceAllNear(c: char, b: string, p: string, r: string)
    requires |p| > 1 && |b| > 0 && b[0] != p[1]
    ensures ReplaceAll([c] + b, p, r) == [c] + ReplaceAll(b, p, r)
  {
    var s := [c] + b;
    assert s[1..] == b;
    if |s| >= |p| {
      assert s[..|p|][1] == b[0];
    } else {
      ReplaceAllShort(b, p, r);
    }
  }
}
