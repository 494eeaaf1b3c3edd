/**
 * `extractJDKeywords` (script.js): tokens of the job description,
 * counted, ranked by descending count and cut to the 50 most frequent.
 */
module JdKeywords {
  import opened Sequences
  import opened Text
  import opened Tokenizer
  import opened Ranking
  import opened Frequency

  /** The `slice(0, 50)` bound. */
  const MaxKeywords: nat := 50

  /** The ranking pipeline applied to an already filtered token list. */
  function RankedKeywords(words: seq<string>): (keywords: seq<string>)
    ensures |keywords| == if |Dedup(words)| < MaxKeywords then |Dedup(words)| else MaxKeywords
  {
    Words(Take(SortByCount(Tally(words)), MaxKeywords))
  }

  /** The keywords `extractJDKeywords(jd)` returns. */
  function JDKeywords(jd: string): (keywords: seq<string>)
    ensures |keywords| <= MaxKeywords && Distinct(keywords)
    ensures forall k :: k in keywords ==> k in Tokens(jd) && KeepToken(k)
  {
    RankedKeywordsAreDistinctTokens(Tokens(jd));
    RankedKeywords(Tokens(jd))
  }

  /**
   * `extractJDKeywords`: the string chain, then the counting loop, then
   * the sort-and-slice chain.
   */
  method ExtractJDKeywords(jd: string) returns (keywords: seq<string>)
    ensures keywords == JDKeywords(jd)
    ensures |keywords| <= MaxKeywords && Distinct(keywords)
    ensures forall k :: k in keywords ==> k in Tokens(jd)
  {
    var words := Tokens(jd);
    var freq, keys := CountFrequencies(words);
    var entries := EntriesOf(freq, keys);
    keywords := Words(Take(SortByCount(entries), MaxKeywords));
    RankedKeywordsAreDistinctTokens(words);
  }

  /** Every entry of the sorted tally names a token and carries its count. */
  lemma SortedEntry(words: seq<string>, e: Entry)
    requires e in SortByCount(Tally(words))
    ensures e.word in words && e.count == Occurrences(words, e.word)
  {
    var es := Tally(words);
    assert e in multiset(es);
    var i :| 0 <= i < |es| && es[i] == e;
    assert e.word in Dedup(words);
  }

  /** The tally lists each word once. */
  lemma TallyIsDistinct(words: seq<string>)
    ensures Distinct(Tally(words))
  {
    var es := Tally(words);
    forall i, j | 0 <= i < j < |es|
      ensures es[i] != es[j]
    {
      assert es[i].word == Dedup(words)[i] && es[j].word == Dedup(words)[j];
    }
  }

  /** The sorted tally names each word once. */
  lemma SortedWordsAreDistinct(words: seq<string>)
    ensures forall i, j :: 0 <= i < j < |SortByCount(Tally(words))| ==>
      SortByCount(Tally(words))[i].word != SortByCount(Tally(words))[j].word
  {
    var s := SortByCount(Tally(words));
    TallyIsDistinct(words);
    SortKeepsDistinct(Tally(words));
    forall i, j | 0 <= i < j < |s|
      ensures s[i].word != s[j].word
    {
      SortedEntry(words, s[i]);
      SortedEntry(words, s[j]);
    }
  }

  /**
   * At most 50 keywords, no keyword twice, and each of them one of the
   * surviving tokens.
   */
  lemma RankedKeywordsAreDistinctTokens(words: seq<string>)
    ensures |RankedKeywords(words)| <= MaxKeywords
    ensures Distinct(RankedKeywords(words))
    ensures forall k :: k in RankedKeywords(words) ==> k in words
  {
    var s := SortByCount(Tally(words));
    var r := RankedKeywords(words);
    SortedWordsAreDistinct(words);
    forall k | k in r
      ensures k in words
    {
      var i :| 0 <= i < |r| && r[i] == k;
      SortedEntry(words, s[i]);
    }
  }

  /**
   * The keywords are ranked by count: no keyword occurs more often in the
   * token list than one placed before it.
   */
  lemma RankedKeywordsByCount(words: seq<string>)
    ensures forall i, j :: 0 <= i < j < |RankedKeywords(words)| ==>
      Occurrences(words, RankedKeywords(words)[i]) >= Occurrences(words, RankedKeywords(words)[j])
  {
    var s := SortByCount(Tally(words));
    var r := RankedKeywords(words);
    forall i, j | 0 <= i < j < |r|
      ensures Occurrences(words, r[i]) >= Occurrences(words, r[j])
    {
      SortedEntry(words, s[i]);
      SortedEntry(words, s[j]);
    }
  }

  /**
   * Only the 50 most frequent survive: a token that is not returned
   * occurs no more often than the last keyword, and is only dropped when
   * all 50 places are taken.
   */
  lemma RankedKeywordsAreTop(words: seq<string>, w: string)
    requires w in words && w !in RankedKeywords(words)
    ensures |RankedKeywords(words)| == MaxKeywords < |Dedup(words)|
    ensures Occurrences(words, w) <= Occurrences(words, RankedKeywords(words)[MaxKeywords - 1])
  {
    var es := Tally(words);
    var s := SortByCount(es);
    var r := RankedKeywords(words);
    var d := Dedup(words);
    var i :| 0 <= i < |d| && d[i] == w;
    var e := es[i];
    assert e in multiset(s);
    var m :| 0 <= m < |s| && s[m] == e;
    assert forall k :: 0 <= k < |r| ==> s[k].word != w;
    SortedEntry(words, s[MaxKeywords - 1]);
  }

  /** When at most 50 distinct tokens survive, every one of them is returned. */
  lemma RankedKeywordsComplete(words: seq<string>)
    requires |Dedup(words)| <= MaxKeywords
    ensures forall w :: w in words ==> w in RankedKeywords(words)
  {
    forall w | w in words
      ensures w in RankedKeywords(words)
    {
      if w !in RankedKeywords(words) {
        RankedKeywordsAreTop(words, w);
      }
    }
  }

  /**
   * Ties keep first-occurrence order: of two keywords with the same count,
   * the earlier one first appears earlier in the token list.
   */
  lemma RankedKeywordsTieBreak(words: seq<string>, i: nat, j: nat)
    requires i < j < |RankedKeywords(words)|
    requires Occurrences(words, RankedKeywords(words)[i]) == Occurrences(words, RankedKeywords(words)[j])
    ensures RankedKeywords(words)[i] in words && RankedKeywords(words)[j] in words
    ensures FirstIndex(words, RankedKeywords(words)[i]) < FirstIndex(words, RankedKeywords(words)[j])
  {
    var es := Tally(words);
    var s := SortByCount(es);
    var r := RankedKeywords(words);
    SortedEntry(words, s[i]);
    SortedEntry(words, s[j]);
    SortIsStable(es);
    var p, q :| 0 <= p < q < |es| && es[p] == s[i] && es[q] == s[j];
    DedupFirstOccurrenceOrder(words, p, q);
  }

  /**
   * Each keyword is at least two characters long, not a stop word, made
   * of lower-case ASCII letters, ASCII digits and U+4E00..U+9FA5 only,
   * and a maximal run of such characters in the cleaned text.
   */
  lemma JDKeywordShape(jd: string, k: string)
    requires k in JDKeywords(jd)
    ensures |k| >= 2 && k !in StopWords
    ensures forall c :: 0 <= c < |k| ==> IsKeywordChar(k[c])
    ensures exists a: nat, b: nat :: IsRun(Clean(jd), a, b) && k == Clean(jd)[a..b]
  {
    RankedKeywordsAreDistinctTokens(Tokens(jd));
    TokenShape(jd, k);
  }

  /** Empty or white-space-only text yields no keyword. */
  lemma BlankJDHasNoKeywords(jd: string)
    requires IsBlank(jd)
    ensures JDKeywords(jd) == []
  {
    BlankHasNoTokens(jd);
  }

  /** A text whose every field is too short or a stop word yields no keyword. */
  lemma NoKeptFieldNoKeywords(jd: string)
    requires forall w :: w in Split(Clean(jd)) ==> !KeepToken(w)
    ensures JDKeywords(jd) == []
  {
    FilterAllOrNone(KeepToken, Split(Clean(jd)));
  }

  /** A single surviving token is the single keyword. */
  lemma SingleTokenRanked(w: string)
    ensures RankedKeywords([w]) == [w]
  {
    var tokens := [w];
    assert Dedup(tokens) == [w] by {
      assert tokens[..0] == [];
    }
    var es := Tally(tokens);
    assert es == [Entry(w, 1)];
    assert es[1..] == [];
    assert SortByCount(es) == es;
  }

  /**
   * CJK runs survive as keywords while the stop word is dropped: the text
   * "招聘简历 自己" yields the single keyword "招聘简历".
   */
  lemma CjkKeywordExample()
    ensures Tokens("招聘简历 自己") == ["招聘简历"]
    ensures JDKeywords("招聘简历 自己") == ["招聘简历"]
  {
    CjkTokens();
    SingleTokenRanked("招聘简历");
  }

  lemma CjkTokens()
    ensures Tokens("招聘简历 自己") == ["招聘简历"]
  {
    CjkFields();
    assert StopWords[26] == "自己";
    FilterPair(KeepToken, "招聘简历", "自己");
  }

  lemma CjkFields()
    ensures Split(Clean("招聘简历 自己")) == ["招聘简历", "自己"]
  {
    var cleaned := Clean("招聘简历 自己");
    assert cleaned == "招聘简历 自己";
    assert NextSpace(cleaned, 0) == 4;
    assert SkipSpaces(cleaned, 4) == 5;
    assert NextSpace(cleaned, 5) == 7;
    assert SplitFrom(cleaned, 5) == ["自己"];
    assert cleaned[0..4] == "招聘简历";
  }
}
