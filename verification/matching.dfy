/**
 * `matchKeywords` (script.js): every résumé keyword that contains, or is
 * contained in, some job-description keyword, once, in résumé order.
 */
module Matching {
  import opened Sequences
  import opened Text

  /** The test of the inner loop: containment in either direction. */
  predicate Related(resumeKeyword: string, jdKeyword: string) {
    Contains(jdKeyword, resumeKeyword) || Contains(resumeKeyword, jdKeyword)
  }

  /** Some job-description keyword is related to `r`. */
  predicate MatchesAny(r: string, jd: seq<string>) {
    exists j :: j in jd && Related(r, j)
  }

  /** What the inner loop pushes for `r`: one copy of `r` per related JD keyword. */
  function PushesFor(r: string, jd: seq<string>): (pushed: seq<string>)
    ensures forall i :: 0 <= i < |pushed| ==> pushed[i] == r
    ensures pushed != [] <==> MatchesAny(r, jd)
  {
    if jd == [] then []
    else
      var last := jd[|jd| - 1];
      assert forall j :: j in jd ==> j in jd[..|jd| - 1] || j == last;
      PushesFor(r, jd[..|jd| - 1]) + if Related(r, last) then [r] else []
  }

  /** The contents of `matched` once both loops have run over `resume`. */
  function Pushed(resume: seq<string>, jd: seq<string>): seq<string> {
    if resume == [] then []
    else Pushed(resume[..|resume| - 1], jd) + PushesFor(resume[|resume| - 1], jd)
  }

  /** `matched` holds exactly the résumé keywords related to some JD keyword. */
  lemma {:induction false} PushedHoldsMatches(resume: seq<string>, jd: seq<string>)
    ensures forall r :: r in Pushed(resume, jd) <==> r in resume && MatchesAny(r, jd)
  {
    if resume != [] {
      var init, r := resume[..|resume| - 1], resume[|resume| - 1];
      PushedHoldsMatches(init, jd);
      assert resume == init + [r];
      var p := PushesFor(r, jd);
      assert forall x :: x in p <==> x == r && MatchesAny(r, jd) by {
        assert p != [] ==> p[0] == r;
      }
    }
  }

  /** `MatchesAny` as a filter predicate. */
  function Matcher(jd: seq<string>): string -> bool {
    r => MatchesAny(r, jd)
  }

  /** The résumé keywords that match, in order, each as often as it occurs. */
  function Matches(resume: seq<string>, jd: seq<string>): (m: seq<string>)
    ensures forall r :: r in m <==> r in resume && MatchesAny(r, jd)
  {
    Filter(Matcher(jd), resume)
  }

  /** The result of `matchKeywords`: the matching résumé keywords, each once. */
  function MatchedKeywords(resume: seq<string>, jd: seq<string>): (m: seq<string>)
    ensures Distinct(m)
    ensures forall r :: r in m <==> r in resume && MatchesAny(r, jd)
  {
    Dedup(Matches(resume, jd))
  }

  /** The containment test does not depend on which side a keyword comes from. */
  lemma RelatedIsSymmetric(a: string, b: string)
    ensures Related(a, b) <==> Related(b, a)
    ensures MatchesAny(a, [b]) <==> MatchesAny(b, [a])
  {
    assert b in [b] && a in [a];
  }

  /**
   * Two keywords are related exactly when one occurs in the other at some
   * position; in particular every keyword is related to itself.
   */
  lemma RelatedIsOccurrence(a: string, b: string)
    ensures Related(a, b) <==>
      (exists i: nat :: OccursAt(b, a, i)) || (exists i: nat :: OccursAt(a, b, i))
    ensures a == b ==> Related(a, b)
  {
    ContainsAt(b, a);
    ContainsAt(a, b);
    ContainsSelf(a);
  }

  /** `[...new Set(matched)]` equals de-duplicating the matching résumé keywords. */
  lemma {:induction false} DedupPushed(resume: seq<string>, jd: seq<string>)
    ensures Dedup(Pushed(resume, jd)) == Dedup(Matches(resume, jd))
  {
    if resume != [] {
      var init, r := resume[..|resume| - 1], resume[|resume| - 1];
      DedupPushed(init, jd);
      var p := PushesFor(r, jd);
      DedupAppendCongruent(Pushed(init, jd), Matches(init, jd), p);
      if p == [] {
        assert Pushed(init, jd) + p == Pushed(init, jd);
        assert Matches(init, jd) + p == Matches(init, jd);
      } else {
        DedupAppendCopies(Matches(init, jd), p, r);
      }
    }
  }

  /** One more JD keyword adds at most one push for `r`. */
  lemma PushesForStep(r: string, jd: seq<string>, k: nat)
    requires k < |jd|
    ensures PushesFor(r, jd[..k + 1]) ==
      PushesFor(r, jd[..k]) + if Related(r, jd[k]) then [r] else []
  {
    assert jd[..k + 1][..k] == jd[..k];
  }

  /** One more résumé keyword adds its pushes. */
  lemma PushedStep(resume: seq<string>, jd: seq<string>, i: nat)
    requires i < |resume|
    ensures Pushed(resume[..i + 1], jd) == Pushed(resume[..i], jd) + PushesFor(resume[i], jd)
  {
    assert resume[..i + 1][..i] == resume[..i];
  }

  /**
   * `matchKeywords`: the nested `forEach` loops push a résumé keyword once
   * per related JD keyword, and the result is de-duplicated. It holds
   * exactly the résumé keywords related to some JD keyword, each once,
   * in the order of the résumé.
   */
  method MatchKeywords(resume: seq<string>, jd: seq<string>) returns (matched: seq<string>)
    ensures matched == MatchedKeywords(resume, jd)
    ensures Distinct(matched)
    ensures forall r :: r in matched <==> r in resume && MatchesAny(r, jd)
    ensures IsSubseq(matched, resume)
  {
    var pushed: seq<string> := [];
    var i := 0;
    while i < |resume|
      invariant 0 <= i <= |resume|
      invariant pushed == Pushed(resume[..i], jd)
    {
      var r := resume[i];
      var k := 0;
      while k < |jd|
        invariant 0 <= k <= |jd|
        invariant pushed == Pushed(resume[..i], jd) + PushesFor(r, jd[..k])
      {
        PushesForStep(r, jd, k);
        ghost var before, forR := Pushed(resume[..i], jd), PushesFor(r, jd[..k]);
        if Contains(jd[k], r) || Contains(r, jd[k]) {
          pushed := pushed + [r];
          assert pushed == before + (forR + [r]);
        } else {
          assert PushesFor(r, jd[..k + 1]) == forR + [];
        }
        k := k + 1;
      }
      assert jd[..k] == jd;
      PushedStep(resume, jd, i);
      i := i + 1;
    }
    assert resume[..i] == resume;
    matched := Dedup(pushed);
    DedupPushed(resume, jd);
    MatchingIsOrdered(resume, jd);
  }

  /**
   * The matches hold each related résumé keyword once, and nothing else,
   * as a subsequence of the résumé keywords.
   */
  lemma MatchingIsOrdered(resume: seq<string>, jd: seq<string>)
    ensures Distinct(MatchedKeywords(resume, jd))
    ensures forall r :: r in MatchedKeywords(resume, jd) <==> r in resume && MatchesAny(r, jd)
    ensures IsSubseq(MatchedKeywords(resume, jd), resume)
  {
    DedupIsSubseq(Matches(resume, jd));
    FilterIsSubseq(Matcher(jd), resume);
    SubseqTransitive(Dedup(Matches(resume, jd)), Matches(resume, jd), resume);
  }

  /** A single résumé keyword is matched exactly when some JD keyword is related to it. */
  lemma SingleKeywordMatch(r: string, jd: seq<string>)
    ensures MatchedKeywords([r], jd) == if MatchesAny(r, jd) then [r] else []
  {
    var resume := [r];
    assert resume[..0] == [];
    var m := Matches(resume, jd);
    assert m == if MatchesAny(r, jd) then [r] else [];
    assert m[..0] == [];
  }

  /** With no job-description keyword nothing matches. */
  lemma NoJDKeywordsNoMatches(resume: seq<string>)
    ensures MatchedKeywords(resume, []) == []
  {
    FilterAllOrNone(Matcher([]), resume);
  }
}
