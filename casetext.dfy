/** ASCII case mapping and the case-insensitive containment test that guards
    every rewrite (the `/yale/i` match of app.js). */
module CaseText {

  function LowerChar(c: char): char {
    if 'A' <= c <= 'Z' then (c as int + 32) as char else c
  }

  function UpperChar(c: char): char {
    if 'a' <= c <= 'z' then (c as int - 32) as char else c
  }

  /** All-lowercase form of a word: `yale`. */
  function Lower(s: string): (r: string)
    ensures |r| == |s|
  {
    seq(|s|, i requires 0 <= i < |s| => LowerChar(s[i]))
  }

  /** All-uppercase form of a word: `YALE`. */
  function Upper(s: string): (r: string)
    ensures |r| == |s|
  {
    seq(|s|, i requires 0 <= i < |s| => UpperChar(s[i]))
  }

  /** Title-case form of a word, first letter upper and the rest lower: `Yale`. */
  function Capitalize(s: string): (r: string)
    ensures |r| == |s|
  {
    if |s| == 0 then s else [UpperChar(s[0])] + Lower(s[1..])
  }

  /** `p` occurs in `s` starting at index `i`, compared character by character. */
  predicate OccursAt(s: string, p: string, i: int) {
    0 <= i && i + |p| <= |s| && s[i..i + |p|] == p
  }

  /** `s` has a literal, case-sensitive occurrence of `p`. */
  ghost predicate Contains(s: string, p: string) {
    exists i :: OccursAt(s, p, i)
  }

  /** `w` occurs in `s` at index `i` when case is ignored. */
  predicate MatchesAt(s: string, w: string, i: int) {
    0 <= i && i + |w| <= |s| && Lower(s[i..i + |w|]) == Lower(w)
  }

  /** The guard of the rewriter: `s` contains `w` case-insensitively, scanning
      from the left as a regular expression search does. */
  predicate ContainsIgnoreCase(s: string, w: string)
    decreases |s|
  {
    |w| <= |s| && (Lower(s[..|w|]) == Lower(w) || (|w| < |s| && ContainsIgnoreCase(s[1..], w)))
  }

  /** The left-to-right scan agrees with the positional definition, in both directions. */
  lemma {:induction false} ContainsIgnoreCaseIff(s: string, w: string)
    ensures ContainsIgnoreCase(s, w) <==> exists i :: MatchesAt(s, w, i)
    decreases |s|
  {
    if ContainsIgnoreCase(s, w) {
      if Lower(s[..|w|]) == Lower(w) {
        assert MatchesAt(s, w, 0);
      } else {
        ContainsIgnoreCaseIff(s[1..], w);
        var i :| MatchesAt(s[1..], w, i);
        assert s[1..][i..i + |w|] == s[i + 1..i + 1 + |w|];
        assert MatchesAt(s, w, i + 1);
      }
    }
    if i :| MatchesAt(s, w, i) {
      if i == 0 {
        assert s[..|w|] == s[0..|w|];
      } else if Lower(s[..|w|]) != Lower(w) {
        assert s[1..][i - 1..i - 1 + |w|] == s[i..i + |w|];
        assert MatchesAt(s[1..], w, i - 1);
        ContainsIgnoreCaseIff(s[1..], w);
      }
    }
  }

  lemma LowerChars(s: string, t: string)
    requires |s| == |t|
    requires forall i :: 0 <= i < |s| ==> LowerChar(s[i]) == LowerChar(t[i])
    ensures Lower(s) == Lower(t)
  {
  }

  /** Each of the three case forms of a word is that word up to case. */
  lemma CaseFormsFold(w: string)
    ensures Lower(Upper(w)) == Lower(w)
    ensures Lower(Capitalize(w)) == Lower(w)
    ensures Lower(Lower(w)) == Lower(w)
  {
    LowerChars(Upper(w), w);
    LowerChars(Lower(w), w);
    if |w| > 0 {
      var c := Capitalize(w);
      forall i | 0 <= i < |w| ensures LowerChar(c[i]) == LowerChar(w[i]) {
        if i > 0 { assert c[i] == Lower(w[1..])[i - 1]; }
      }
      LowerChars(c, w);
    }
  }

  /** A literal occurrence of any spelling of `w` that folds to `w` fires the guard. */
  lemma {:induction false} LiteralFormFiresGuard(s: string, w: string, x: string)
    requires Lower(x) == Lower(w)
    requires Contains(s, x)
    ensures ContainsIgnoreCase(s, w)
  {
    var i :| OccursAt(s, x, i);
    assert |x| == |w| by { assert |Lower(x)| == |Lower(w)|; }
    assert MatchesAt(s, w, i);
    ContainsIgnoreCaseIff(s, w);
  }
}
