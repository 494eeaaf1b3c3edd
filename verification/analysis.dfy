/**
 * `analyzeJD` and the match rate of `displayMatchResult` (script.js):
 * the blank-input guard, the three extraction steps, and the rounded
 * percentage of matched résumé keywords over JD keywords.
 * Rendering the result as HTML is not modelled; the summary it renders
 * (rate, matched count, total, matched labels) is the result here.
 */
module Analysis {
  import opened Sequences
  import opened Text
  import opened Tokenizer
  import opened ResumeKeywords
  import opened JdKeywords
  import opened Matching

  /**
   * The rounded percentage in exact arithmetic: the integer
   * nearest to 100 * matched / total, halves rounded up.
   */
  function MatchRate(matched: nat, total: nat): (rate: nat)
    requires total > 0
    ensures 2 * total * rate <= 200 * matched + total < 2 * total * (rate + 1)
  {
    (200 * matched + total) / (2 * total)
  }

  lemma LessByFactor(a: nat, x: nat, y: nat)
    requires a > 0 && a * x < a * y
    ensures x < y
  {
  }

  /**
   * The rate is 0 without matches, at most 100 while no more résumé
   * keywords match than there are JD keywords, and at least 100 once as
   * many or more match.
   */
  lemma MatchRateBounds(matched: nat, total: nat)
    requires total > 0
    ensures matched == 0 ==> MatchRate(matched, total) == 0
    ensures matched <= total ==> MatchRate(matched, total) <= 100
    ensures matched >= total ==> MatchRate(matched, total) >= 100
  {
    var rate := MatchRate(matched, total);
    if matched <= total {
      assert 2 * total * rate < 2 * total * 101;
      LessByFactor(2 * total, rate, 101);
    }
    if matched >= total {
      assert 2 * total * 100 < 2 * total * (rate + 1);
      LessByFactor(2 * total, 100, rate + 1);
    }
    if matched == 0 {
      assert 2 * total * rate < 2 * total * 1;
      LessByFactor(2 * total, rate, 1);
    }
  }

  /** What the division in `displayMatchResult` yields in JavaScript. */
  datatype RateValue = Percent(p: nat) | NotANumber | Infinity

  /** The rounded percentage as written, including division by zero. */
  function RateAsWritten(matched: nat, total: nat): (v: RateValue)
    ensures v.Percent? <==> total > 0
    ensures v.Percent? ==> 2 * total * v.p <= 200 * matched + total < 2 * total * (v.p + 1)
    ensures v == NotANumber <==> total == 0 && matched == 0
  {
    if total > 0 then Percent(MatchRate(matched, total))
    else if matched == 0 then NotANumber
    else Infinity
  }

  /** The rate with the empty keyword list reported as 0. */
  function SafeMatchRate(matched: nat, total: nat): (rate: nat)
    ensures total == 0 ==> rate == 0
    ensures total > 0 ==> RateAsWritten(matched, total) == Percent(rate)
  {
    if total == 0 then 0 else MatchRate(matched, total)
  }

  /** What the result panel shows. */
  datatype Display =
    | Prompt                                                  // the request to paste a job description
    | Summary(rate: nat, matched: seq<string>, total: nat)   // rate, matched keywords, JD keyword count

  /**
   * `analyzeJD`: blank input shows the prompt; otherwise the résumé and
   * JD keywords are extracted and matched and the summary is shown, its
   * rate computed by `SafeMatchRate`.
   */
  method AnalyzeJD(skills: seq<string>, title: string, jd: string) returns (d: Display)
    ensures d.Prompt? <==> IsBlank(jd)
    ensures d.Summary? ==>
      d.matched == MatchedKeywords(ExtractResumeKeywords(skills, title), JDKeywords(jd)) &&
      d.total == |JDKeywords(jd)| &&
      d.rate == SafeMatchRate(|d.matched|, d.total)
    ensures d.Summary? ==> d.total <= MaxKeywords && |d.matched| <= |skills| + 1
    ensures d.Summary? && d.total == 0 ==> d.rate == 0 && d.matched == []
  {
    TrimEmptyIffBlank(jd);
    if Trim(jd) == [] {
      return Prompt;
    }
    var resume := ExtractResumeKeywords(skills, title);
    var jdKeywords := ExtractJDKeywords(jd);
    var matched := MatchKeywords(resume, jdKeywords);
    if jdKeywords == [] {
      NoJDKeywordsNoMatches(resume);
    }
    d := Summary(SafeMatchRate(|matched|, |jdKeywords|), matched, |jdKeywords|);
  }

  /**
   * The blank-text guard does not ensure a keyword: "C++" is
   * not blank, yet "c" is too short and nothing else survives, so the
   * division as written is 0 / 0 and the page shows "NaN%".
   */
  lemma GuardAdmitsDivisionByZero(skills: seq<string>, title: string)
    ensures !IsBlank("C++")
    ensures JDKeywords("C++") == []
    ensures RateAsWritten(
      |MatchedKeywords(ExtractResumeKeywords(skills, title), JDKeywords("C++"))|,
      |JDKeywords("C++")|) == NotANumber
  {
    var jd := "C++";
    assert !IsJsSpace(jd[0]);
    var cleaned := Clean(jd);
    assert cleaned == "c  ";
    assert NextSpace(cleaned, 0) == 1;
    assert SkipSpaces(cleaned, 1) == 3;
    assert NextSpace(cleaned, 3) == 3;
    assert SplitFrom(cleaned, 3) == [""];
    assert cleaned[0..1] == "c";
    assert Split(cleaned) == ["c", ""];
    assert Tokens(jd) == [] by {
      FilterAllOrNone(KeepToken, ["c", ""]);
    }
    NoJDKeywordsNoMatches(ExtractResumeKeywords(skills, title));
  }

  /** One match out of two rates 50; two matches out of one rate 200. */
  lemma RateExamples()
    ensures MatchRate(1, 2) == 50 && MatchRate(2, 1) == 200
  {
  }

  /**
   * The count on top of the fraction is of résumé keywords, so the rate
   * can exceed 100: a JD keyword `j` and a longer résumé keyword `r`
   * containing it (such as "go" and "golang") both match the single JD
   * keyword `j`, and the rate is 200.
   */
  lemma RateCanExceedHundred(j: string, r: string)
    requires j != r && Contains(r, j)
    ensures MatchedKeywords([j, r], [j]) == [j, r]
    ensures SafeMatchRate(|MatchedKeywords([j, r], [j])|, |[j]|) == 200
  {
    var resume := [j, r];
    assert MatchesAny(j, [j]) by {
      ContainsSelf(j);
      assert j in [j] && Related(j, j);
    }
    assert MatchesAny(r, [j]) by {
      assert j in [j] && Related(r, j);
    }
    assert resume[..1] == [j] && resume[..1][..0] == [];
    assert Matches(resume, [j]) == resume by {
      assert Matches([j], [j]) == [j];
    }
    assert Dedup(resume) == resume by {
      assert Dedup([j]) == [j];
    }
    RateExamples();
  }

  /**
   * The containment test over-matches by design: a résumé keyword that
   * contains one of two JD keywords (such as "golang" against "go" and
   * "kubernetes") is matched, for a rate of 50.
   */
  lemma ContainmentExample(r: string, j: string, k: string)
    requires Contains(r, j)
    ensures MatchedKeywords([r], [j, k]) == [r]
    ensures SafeMatchRate(|MatchedKeywords([r], [j, k])|, |[j, k]|) == 50
  {
    assert MatchesAny(r, [j, k]) by {
      assert j in [j, k];
    }
    SingleKeywordMatch(r, [j, k]);
    RateExamples();
  }
}
