/** The case-preserving rewrite applied to every selected text node and to the page
    title: a text that contains the target word in any case goes through three
    literal, global, case-sensitive replacements in a fixed order, upper-case form,
    then title-case form, then lower-case form. */
module Rewriter {
  import opened CaseText
  import opened Replace

  /** The configured word pair, given in lower case: the proxy uses ("yale", "fale"). */
  datatype WordPair = WordPair(target: string, replacement: string)

  const YaleFale := WordPair("yale", "fale")

  /** The three stages in order, each a (pattern, replacement) pair. */
  function UpperStage(w: WordPair): (string, string) { (Upper(w.target), Upper(w.replacement)) }
  function TitleStage(w: WordPair): (string, string) { (Capitalize(w.target), Capitalize(w.replacement)) }
  function LowerStage(w: WordPair): (string, string) { (Lower(w.target), Lower(w.replacement)) }

  /** The three literal patterns the stages look for. */
  function Patterns(w: WordPair): seq<string> {
    [UpperStage(w).0, TitleStage(w).0, LowerStage(w).0]
  }

  /** The three replacements, in the same order as the patterns. */
  function Replacements(w: WordPair): seq<string> {
    [UpperStage(w).1, TitleStage(w).1, LowerStage(w).1]
  }

  /** `s` has none of the three case forms of the target word. */
  ghost predicate Clean(w: WordPair, s: string) {
    forall i :: 0 <= i < 3 ==> !Contains(s, Patterns(w)[i])
  }

  /** The three replacements run one after the other, unconditionally. */
  function Substitute(w: WordPair, s: string): (t: string)
    requires |w.target| > 0
    ensures |w.replacement| == |w.target| ==> |t| == |s|
  {
    var s1 := ReplaceAll(s, UpperStage(w).0, UpperStage(w).1);
    var s2 := ReplaceAll(s1, TitleStage(w).0, TitleStage(w).1);
    ReplaceAll(s2, LowerStage(w).0, LowerStage(w).1)
  }

  /** The rewrite of one text: only a text that contains the target word
      case-insensitively is substituted. */
  function Rewrite(w: WordPair, s: string): (t: string)
    requires |w.target| > 0
    ensures |w.replacement| == |w.target| ==> |t| == |s|
  {
    if ContainsIgnoreCase(s, w.target) then Substitute(w, s) else s
  }

  /** The word pair admits the proofs below: both words have the same non-zero length,
      and no replacement of a stage can meet its own pattern or the pattern of an
      earlier stage, neither by equality nor by a partial overlap. */
  predicate Compatible(w: WordPair) {
    && |w.target| > 0
    && |w.replacement| == |w.target|
    && var P, R := Patterns(w), Replacements(w);
    && Apart(P[0], R[0])
    && Apart(P[0], R[1]) && Apart(P[1], R[1])
    && Apart(P[0], R[2]) && Apart(P[1], R[2]) && Apart(P[2], R[2])
  }

  /** The substitution leaves none of the three case forms behind: each stage removes
      its own pattern and cannot bring back the pattern of an earlier stage. */
  lemma SubstituteClean(w: WordPair, s: string)
    requires Compatible(w)
    ensures Clean(w, Substitute(w, s))
  {
    var P, R := Patterns(w), Replacements(w);
    var s1 := ReplaceAll(s, P[0], R[0]);
    var s2 := ReplaceAll(s1, P[1], R[1]);
    var s3 := ReplaceAll(s2, P[2], R[2]);
    ReplaceAllFree(s, P[0], R[0], P[0]);
    ReplaceAllFree(s1, P[1], R[1], P[0]);
    ReplaceAllFree(s1, P[1], R[1], P[1]);
    ReplaceAllFree(s2, P[2], R[2], P[0]);
    ReplaceAllFree(s2, P[2], R[2], P[1]);
    ReplaceAllFree(s2, P[2], R[2], P[2]);
    assert s3 == Substitute(w, s);
  }

  /** On a text without any of the three case forms the substitution is the identity. */
  lemma SubstituteCleanIdentity(w: WordPair, s: string)
    requires |w.target| > 0 && Clean(w, s)
    ensures Substitute(w, s) == s
  {
    var P, R := Patterns(w), Replacements(w);
    assert !Contains(s, P[0]) && !Contains(s, P[1]) && !Contains(s, P[2]);
    ReplaceAllFreeIdentity(s, P[0], R[0]);
    ReplaceAllFreeIdentity(s, P[1], R[1]);
    ReplaceAllFreeIdentity(s, P[2], R[2]);
  }

  /** A text that fails the guard holds none of the three case forms. */
  lemma GuardMissImpliesClean(w: WordPair, s: string)
    requires !ContainsIgnoreCase(s, w.target)
    ensures Clean(w, s)
  {
    CaseFormsFold(w.target);
    forall i | 0 <= i < 3 ensures !Contains(s, Patterns(w)[i]) {
      if Contains(s, Patterns(w)[i]) {
        LiteralFormFiresGuard(s, w.target, Patterns(w)[i]);
      }
    }
  }

  /** The case-insensitive guard never changes the outcome: rewriting is the same as
      substituting unconditionally. */
  lemma RewriteIsSubstitute(w: WordPair, s: string)
    requires |w.target| > 0
    ensures Rewrite(w, s) == Substitute(w, s)
  {
    if !ContainsIgnoreCase(s, w.target) {
      GuardMissImpliesClean(w, s);
      SubstituteCleanIdentity(w, s);
    }
  }

  /** The rewrite leaves none of `YALE`, `Yale`, `yale` (for the configured word). */
  lemma RewriteClean(w: WordPair, s: string)
    requires Compatible(w)
    ensures Clean(w, Rewrite(w, s))
  {
    RewriteIsSubstitute(w, s);
    SubstituteClean(w, s);
  }

  /** A text is left unchanged exactly when it holds none of the three case forms. */
  lemma RewriteUnchangedIff(w: WordPair, s: string)
    requires Compatible(w)
    ensures Rewrite(w, s) == s <==> Clean(w, s)
  {
    RewriteClean(w, s);
    if Clean(w, s) {
      RewriteIsSubstitute(w, s);
      SubstituteCleanIdentity(w, s);
    }
  }

  /** Rewriting a rewritten text changes nothing. */
  lemma RewriteIdempotent(w: WordPair, s: string)
    requires Compatible(w)
    ensures Rewrite(w, Rewrite(w, s)) == Rewrite(w, s)
  {
    RewriteClean(w, s);
    RewriteUnchangedIff(w, Rewrite(w, s));
  }

  /** The proxy's own word pair yields the stages `YALE`→`FALE`, `Yale`→`Fale`, `yale`→`fale`. */
  lemma YaleFaleStages()
    ensures Patterns(YaleFale) == ["YALE", "Yale", "yale"]
    ensures Replacements(YaleFale) == ["FALE", "Fale", "fale"]
  {
    assert Upper("yale") == "YALE";
    assert Upper("fale") == "FALE";
    assert Lower("yale") == "yale";
    assert Lower("fale") == "fale";
    assert Lower("ale") == "ale";
    assert Capitalize("yale") == "Yale";
    assert Capitalize("fale") == "Fale";
  }

  /** Two words each of whose first letters is absent from the rest of the other are apart. */
  lemma ApartByFirstLetters(q: string, r: string)
    requires q != r && |q| > 0 && |r| > 0
    requires q[0] !in r[1..] && r[0] !in q[1..]
    ensures Apart(q, r)
  {
    NoBorderByFirstLetter(r, q);
    NoBorderByFirstLetter(q, r);
  }

  lemma YaleFaleApart()
    ensures Apart("YALE", "FALE") && Apart("YALE", "Fale") && Apart("Yale", "Fale")
    ensures Apart("YALE", "fale") && Apart("Yale", "fale") && Apart("yale", "fale")
  {
    ApartByFirstLetters("YALE", "FALE");
    ApartByFirstLetters("YALE", "Fale");
    ApartByFirstLetters("Yale", "Fale");
    ApartByFirstLetters("YALE", "fale");
    ApartByFirstLetters("Yale", "fale");
    ApartByFirstLetters("yale", "fale");
  }

  /** The proxy's own word pair satisfies the side conditions. */
  lemma YaleFaleCompatible()
    ensures Compatible(YaleFale)
  {
    YaleFaleStages();
    YaleFaleApart();
  }

  /** The three case forms cannot overlap themselves or each other, and no replacement
      can overlap the pattern of a later stage. */
  predicate Separated(w: WordPair) {
    var P, R := Patterns(w), Replacements(w);
    && NoBorder(P[0], P[0]) && NoBorder(P[1], P[1]) && NoBorder(P[2], P[2])
    && Apart(P[0], P[1]) && Apart(P[0], P[2]) && Apart(P[1], P[2])
    && Apart(P[1], R[0]) && Apart(P[2], R[0]) && Apart(P[2], R[1])
  }

  /** Every occurrence of one of the three case forms in the text becomes the
      replacement of the same case form, at the same place. */
  lemma RewriteEveryOccurrence(w: WordPair, s: string, k: int, j: int)
    requires Compatible(w) && Separated(w)
    requires 0 <= k < 3 && OccursAt(s, Patterns(w)[k], j)
    ensures OccursAt(Rewrite(w, s), Replacements(w)[k], j)
  {
    var P, R := Patterns(w), Replacements(w);
    var s1 := ReplaceAll(s, P[0], R[0]);
    var s2 := ReplaceAll(s1, P[1], R[1]);
    RewriteIsSubstitute(w, s);
    assert Rewrite(w, s) == ReplaceAll(s2, P[2], R[2]);
    if k == 0 {
      ReplaceAllEveryOccurrence(s, P[0], R[0], j);
      ReplaceAllKeeps(s1, P[1], R[1], R[0], j);
      ReplaceAllKeeps(s2, P[2], R[2], R[0], j);
    } else if k == 1 {
      ReplaceAllKeeps(s, P[0], R[0], P[1], j);
      ReplaceAllEveryOccurrence(s1, P[1], R[1], j);
      ReplaceAllKeeps(s2, P[2], R[2], R[1], j);
    } else {
      ReplaceAllKeeps(s, P[0], R[0], P[2], j);
      ReplaceAllKeeps(s1, P[1], R[1], P[2], j);
      ReplaceAllEveryOccurrence(s2, P[2], R[2], j);
    }
  }

  /** The proxy's own word pair: its case forms are separated. */
  lemma YaleFaleSeparated()
    ensures Separated(YaleFale)
  {
    YaleFaleStages();
    NoBorderByFirstLetter("YALE", "YALE");
    NoBorderByFirstLetter("Yale", "Yale");
    NoBorderByFirstLetter("yale", "yale");
    ApartByFirstLetters("YALE", "Yale");
    ApartByFirstLetters("YALE", "yale");
    ApartByFirstLetters("Yale", "yale");
    ApartByFirstLetters("Yale", "FALE");
    ApartByFirstLetters("yale", "FALE");
    ApartByFirstLetters("yale", "Fale");
  }

  /** One stage of the proxy changes only the first letter of a match. */
  lemma StageChangedChar(s: string, p: string, r: string, i: int)
    requires |p| == |r| > 0 && p[1..] == r[1..] && 0 <= i < |s|
    ensures ReplaceAll(s, p, r)[i] != s[i] ==> s[i] == p[0] && ReplaceAll(s, p, r)[i] == r[0]
  {
    if ReplaceAll(s, p, r)[i] != s[i] {
      ReplaceAllChangedChar(s, p, r, i);
      var k :| 0 <= k < |p| && p[k] == s[i] && r[k] == ReplaceAll(s, p, r)[i];
      if k > 0 {
        assert p[1..][k - 1] == r[1..][k - 1];
      }
    }
  }

  /** The proxy's rewrite changes nothing but a `Y` into an `F` and a `y` into an `f`:
      every other character, and every character outside a match, is kept. */
  lemma YaleFaleChangedChars(s: string)
    ensures |Rewrite(YaleFale, s)| == |s|
    ensures forall i :: 0 <= i < |s| && Rewrite(YaleFale, s)[i] != s[i] ==>
      (s[i] == 'Y' && Rewrite(YaleFale, s)[i] == 'F') || (s[i] == 'y' && Rewrite(YaleFale, s)[i] == 'f')
  {
    YaleFaleStages();
    var s1 := ReplaceAll(s, "YALE", "FALE");
    var s2 := ReplaceAll(s1, "Yale", "Fale");
    var s3 := ReplaceAll(s2, "yale", "fale");
    RewriteIsSubstitute(YaleFale, s);
    assert Rewrite(YaleFale, s) == s3;
    forall i | 0 <= i < |s| && s3[i] != s[i]
      ensures (s[i] == 'Y' && s3[i] == 'F') || (s[i] == 'y' && s3[i] == 'f')
    {
      StageChangedChar(s, "YALE", "FALE", i);
      StageChangedChar(s1, "Yale", "Fale", i);
      StageChangedChar(s2, "yale", "fale", i);
    }
  }

  /** Every character the rewrite changes lies inside an occurrence, in the input, of
      one of the three case forms; characters outside such spans are kept. With
      `RewriteEveryOccurrence` this determines the rewrite completely. */
  lemma RewriteSpans(w: WordPair, s: string, i: int)
    requires Compatible(w) && Separated(w) && 0 <= i < |s|
    ensures Rewrite(w, s)[i] != s[i] ==>
      exists k, j :: 0 <= k < 3 && j <= i < j + |w.target| && OccursAt(s, Patterns(w)[k], j)
  {
    var P, R := Patterns(w), Replacements(w);
    var n := |w.target|;
    var s1 := ReplaceAll(s, P[0], R[0]);
    var s2 := ReplaceAll(s1, P[1], R[1]);
    var s3 := ReplaceAll(s2, P[2], R[2]);
    RewriteIsSubstitute(w, s);
    assert Rewrite(w, s) == s3;
    ReplaceAllSpans(s, P[0], R[0]);
    ReplaceAllSpans(s1, P[1], R[1]);
    ReplaceAllSpans(s2, P[2], R[2]);
    if s3[i] != s[i] {
      if s1[i] != s[i] {
        var j :| j <= i < j + n && OccursAt(s, P[0], j) && OccursAt(s1, R[0], j);
        assert 0 <= 0 < 3 && OccursAt(s, P[0], j);
      } else if s2[i] != s1[i] {
        var j :| j <= i < j + n && OccursAt(s1, P[1], j) && OccursAt(s2, R[1], j);
        ReplaceAllBack(s, P[0], R[0], P[1], j);
        assert 0 <= 1 < 3 && OccursAt(s, P[1], j);
      } else {
        var j :| j <= i < j + n && OccursAt(s2, P[2], j) && OccursAt(s3, R[2], j);
        ReplaceAllBack(s1, P[1], R[1], P[2], j);
        ReplaceAllBack(s, P[0], R[0], P[2], j);
        assert 0 <= 2 < 3 && OccursAt(s, P[2], j);
      }
    }
  }

  /** For the proxy's pair: a changed character lies in a `YALE`, `Yale` or `yale` of
      the input. */
  lemma YaleFaleSpans(s: string, i: int)
    requires 0 <= i < |s|
    ensures Rewrite(YaleFale, s)[i] != s[i] ==>
      exists k, j :: 0 <= k < 3 && j <= i < j + 4 && OccursAt(s, ["YALE", "Yale", "yale"][k], j)
  {
    YaleFaleCompatible();
    YaleFaleSeparated();
    YaleFaleStages();
    RewriteSpans(YaleFale, s, i);
  }
}
