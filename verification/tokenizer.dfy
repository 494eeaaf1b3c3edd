/**
 * The first half of `extractJDKeywords` in script.js: lower-casing,
 * replacing everything but ASCII letters, digits and U+4E00..U+9FA5 by a
 * space, splitting at runs of white space, and the filter that drops
 * one-character tokens and stop words. All of it is a chain of pure string operations.
 */
module Tokenizer {
  import opened Sequences
  import opened Text

  /** Membership in the character class kept by the cleaning step: ASCII letters and digits and U+4E00..U+9FA5. */
  predicate IsWordChar(c: char) {
    'a' <= c <= 'z' || 'A' <= c <= 'Z' || '0' <= c <= '9' || '\U{4E00}' <= c <= '\U{9FA5}'
  }

  /** What can survive cleaning: lower-case ASCII letters, digits and the CJK range. */
  predicate IsKeywordChar(c: char) {
    'a' <= c <= 'z' || '0' <= c <= '9' || '\U{4E00}' <= c <= '\U{9FA5}'
  }

  /** Every character other than an ASCII letter or digit or U+4E00..U+9FA5 becomes a space. */
  function ReplaceNonWord(s: string): (r: string)
    ensures |r| == |s|
    ensures forall i :: 0 <= i < |s| ==> r[i] == if IsWordChar(s[i]) then s[i] else ' '
  {
    seq(|s|, i requires 0 <= i < |s| => if IsWordChar(s[i]) then s[i] else ' ')
  }

  /** The cleaned text: lower-casing, then that replacement. */
  function Clean(s: string): (r: string)
    ensures |r| == |s|
    ensures forall i :: 0 <= i < |r| ==> IsKeywordChar(r[i]) || r[i] == ' '
    ensures forall i :: 0 <= i < |r| ==> (r[i] == ' ' <==> !IsWordChar(LowerChar(s[i])))
    ensures forall i :: 0 <= i < |r| ==>
      r[i] == if IsWordChar(LowerChar(s[i])) then LowerChar(s[i]) else ' '
  {
    ReplaceNonWord(ToLower(s))
  }

  /** Index of the first white-space character at or after `i`, or `|s|`. */
  function NextSpace(s: string, i: nat): (j: nat)
    requires i <= |s|
    ensures i <= j <= |s|
    ensures j < |s| ==> IsJsSpace(s[j])
    ensures forall k :: i <= k < j ==> !IsJsSpace(s[k])
    decreases |s| - i
  {
    if i == |s| || IsJsSpace(s[i]) then i else NextSpace(s, i + 1)
  }

  /** Index just past the run of white space starting at `i`. */
  function SkipSpaces(s: string, i: nat): (j: nat)
    requires i <= |s|
    ensures i <= j <= |s|
    ensures j < |s| ==> !IsJsSpace(s[j])
    ensures forall k :: i <= k < j ==> IsJsSpace(s[k])
    decreases |s| - i
  {
    if i == |s| || !IsJsSpace(s[i]) then i else SkipSpaces(s, i + 1)
  }

  /** No character of `t` is white space. */
  predicate NoSpace(t: string) {
    forall c :: 0 <= c < |t| ==> !IsJsSpace(t[c])
  }

  /**
   * The fields of `s[i..]` when split at runs of white space: the text between maximal
   * runs of white space, including the empty field before a leading run
   * and after a trailing one, and `[""]` for the empty string.
   */
  function SplitFrom(s: string, i: nat): (r: seq<string>)
    requires i <= |s|
    ensures |r| >= 1
    ensures forall k :: 0 <= k < |r| ==> NoSpace(r[k])
    decreases |s| - i
  {
    var j := NextSpace(s, i);
    if j == |s| then [s[i..]]
    else [s[i..j]] + SplitFrom(s, SkipSpaces(s, j))
  }

  /** The fields of `s` split at every run of white space. */
  function Split(s: string): (r: seq<string>)
    ensures |r| >= 1
    ensures forall k :: 0 <= k < |r| ==> NoSpace(r[k])
  {
    SplitFrom(s, 0)
  }

  /** `s[a..b]` is a maximal run of non-white-space characters of `s` (possibly empty). */
  predicate IsRun(s: string, a: nat, b: nat) {
    a <= b <= |s| &&
    (a == 0 || IsJsSpace(s[a - 1])) &&
    (b == |s| || IsJsSpace(s[b])) &&
    NoSpace(s[a..b])
  }

  lemma {:induction false} SplitFromFieldIsRun(s: string, i: nat, w: string)
    requires i <= |s| && (i == 0 || IsJsSpace(s[i - 1]))
    requires w in SplitFrom(s, i)
    ensures exists a: nat, b: nat :: IsRun(s, a, b) && w == s[a..b]
    decreases |s| - i
  {
    var j := NextSpace(s, i);
    if w == s[i..j] {
      assert IsRun(s, i, j);
    } else {
      var i' := SkipSpaces(s, j);
      assert SplitFrom(s, i) == [s[i..j]] + SplitFrom(s, i');
      SplitFromFieldIsRun(s, i', w);
    }
  }

  /**
   * Every field of the split is a maximal run of non-white-space
   * characters of the input.
   */
  lemma SplitFieldIsRun(s: string, w: string)
    requires w in Split(s)
    ensures exists a: nat, b: nat :: IsRun(s, a, b) && w == s[a..b]
  {
    SplitFromFieldIsRun(s, 0, w);
  }

  /**
   * The converse: every non-empty maximal run of non-white-space
   * characters at or after `i` is a field of the split from `i`.
   */
  lemma {:induction false} RunIsFieldFrom(s: string, i: nat, a: nat, b: nat)
    requires i <= a < b && IsRun(s, a, b)
    ensures s[a..b] in SplitFrom(s, i)
    decreases a - i
  {
    var j := NextSpace(s, i);
    if i == a {
      assert j == b by {
        assert forall k :: a <= k < b ==> s[k] == s[a..b][k - a];
      }
      assert SplitFrom(s, i)[0] == s[a..b];
    } else {
      assert IsJsSpace(s[a - 1]);
      assert j < a;
      var k := SkipSpaces(s, j);
      assert !IsJsSpace(s[a]) by {
        assert s[a] == s[a..b][0];
      }
      assert i < k <= a;
      RunIsFieldFrom(s, k, a, b);
      assert SplitFrom(s, i) == [s[i..j]] + SplitFrom(s, k);
    }
  }

  /** Every non-empty maximal run of non-white-space characters is a field of the split. */
  lemma RunIsField(s: string, a: nat, b: nat)
    requires a < b && IsRun(s, a, b)
    ensures s[a..b] in Split(s)
  {
    RunIsFieldFrom(s, 0, a, b);
  }

  function Concat(ss: seq<string>): string {
    if ss == [] then [] else ss[0] + Concat(ss[1..])
  }

  predicate IsNotSpace(c: char) {
    !IsJsSpace(c)
  }

  /** The input with every white-space character deleted. */
  function RemoveSpaces(s: string): string {
    Filter(IsNotSpace, s)
  }

  lemma RemoveSpacesOfField(field: string)
    requires NoSpace(field)
    ensures RemoveSpaces(field) == field
  {
    assert forall m :: 0 <= m < |field| ==> IsNotSpace(field[m]);
    FilterAllOrNone(IsNotSpace, field);
  }

  lemma RemoveSpacesOfGap(gap: string, rest: string)
    requires forall m :: 0 <= m < |gap| ==> IsJsSpace(gap[m])
    ensures RemoveSpaces(gap + rest) == RemoveSpaces(rest)
  {
    assert forall m :: 0 <= m < |gap| ==> !IsNotSpace(gap[m]);
    FilterAllOrNone(IsNotSpace, gap);
    FilterAppend(IsNotSpace, gap, rest);
    assert [] + RemoveSpaces(rest) == RemoveSpaces(rest);
  }

  /** Deleting white space from a field, a run of spaces and the rest. */
  lemma RemoveSpacesAcrossSeparator(s: string, i: nat, j: nat, k: nat)
    requires i <= j <= k <= |s|
    requires NoSpace(s[i..j])
    requires forall m :: j <= m < k ==> IsJsSpace(s[m])
    ensures RemoveSpaces(s[i..]) == s[i..j] + RemoveSpaces(s[k..])
  {
    var field, gap, rest := s[i..j], s[j..k], s[k..];
    RemoveSpacesOfField(field);
    assert forall m :: 0 <= m < |gap| ==> gap[m] == s[j + m];
    RemoveSpacesOfGap(gap, rest);
    assert s[i..] == field + (gap + rest);
    FilterAppend(IsNotSpace, field, gap + rest);
  }

  lemma {:induction false} SplitFromLosesOnlySpaces(s: string, i: nat)
    requires i <= |s|
    ensures Concat(SplitFrom(s, i)) == RemoveSpaces(s[i..])
    decreases |s| - i
  {
    var j := NextSpace(s, i);
    var r := SplitFrom(s, i);
    if j == |s| {
      RemoveSpacesAcrossSeparator(s, i, j, j);
      assert r == [s[i..]];
      assert Concat(r) == s[i..] + Concat([]);
    } else {
      var k := SkipSpaces(s, j);
      var rest := SplitFrom(s, k);
      assert r == [s[i..j]] + rest;
      SplitFromLosesOnlySpaces(s, k);
      RemoveSpacesAcrossSeparator(s, i, j, k);
      assert r[0] == s[i..j] && r[1..] == rest;
      assert Concat(r) == s[i..j] + Concat(rest);
    }
  }

  /**
   * Splitting loses nothing but white space: the fields, joined back
   * together, are the input with its white space deleted.
   */
  lemma SplitLosesOnlySpaces(s: string)
    ensures Concat(Split(s)) == RemoveSpaces(s)
  {
    SplitFromLosesOnlySpaces(s, 0);
    assert s[0..] == s;
  }

  /** The stop-word list of `extractJDKeywords`. */
  const StopWords: seq<string> := [
    "的", "了", "是", "在", "我", "有", "和", "就", "不", "人", "都", "一", "一个", "上",
    "也", "很", "到", "说", "要", "去", "你", "会", "着", "没有", "看", "好", "自己", "这"
  ]

  /** No stop word is longer than two characters. */
  lemma StopWordsAreShort()
    ensures forall w :: w in StopWords ==> |w| <= 2
  {
  }

  /**
   * The predicate of the `filter` call: longer than one character and not
   * a stop word. A field of three or more characters always survives it.
   */
  predicate KeepToken(w: string)
    ensures |w| <= 1 ==> !KeepToken(w)
    ensures |w| >= 3 ==> KeepToken(w)
  {
    StopWordsAreShort();
    |w| > 1 && w !in StopWords
  }

  /** The token list `words` of `extractJDKeywords`. */
  function Tokens(jd: string): (words: seq<string>)
    ensures forall w :: w in words <==> w in Split(Clean(jd)) && KeepToken(w)
  {
    Filter(KeepToken, Split(Clean(jd)))
  }

  /**
   * Each surviving token is made of lower-case ASCII letters, ASCII
   * digits and characters of U+4E00..U+9FA5 only, is at least two
   * characters long, is not a stop word, and is a maximal run of such
   * characters in the cleaned text.
   */
  lemma TokenShape(jd: string, w: string)
    requires w in Tokens(jd)
    ensures |w| >= 2 && w !in StopWords
    ensures forall c :: 0 <= c < |w| ==> IsKeywordChar(w[c])
    ensures exists a: nat, b: nat :: IsRun(Clean(jd), a, b) && w == Clean(jd)[a..b]
  {
    var cleaned := Clean(jd);
    assert w in Split(cleaned);
    SplitFieldIsRun(cleaned, w);
    var a: nat, b: nat :| IsRun(cleaned, a, b) && w == cleaned[a..b];
    RunOfKeywordChars(cleaned, a, b);
  }

  /** A run of a text made of keyword characters and spaces holds keyword characters only. */
  lemma RunOfKeywordChars(s: string, a: nat, b: nat)
    requires forall i :: 0 <= i < |s| ==> IsKeywordChar(s[i]) || s[i] == ' '
    requires IsRun(s, a, b)
    ensures forall c :: 0 <= c < b - a ==> IsKeywordChar(s[a..b][c])
  {
    forall c | 0 <= c < b - a
      ensures IsKeywordChar(s[a..b][c])
    {
      assert s[a..b][c] == s[a + c];
      assert !IsJsSpace(s[a + c]);
    }
  }

  /** White space is never a word character, before or after lower-casing. */
  lemma SpaceIsNotWordChar(c: char)
    requires IsJsSpace(c)
    ensures LowerChar(c) == c && !IsWordChar(c)
  {
  }

  /** A run of the cleaned text that passes the filter is a token. */
  lemma KeptRunIsToken(jd: string, a: nat, b: nat)
    requires IsRun(Clean(jd), a, b) && KeepToken(Clean(jd)[a..b])
    ensures Clean(jd)[a..b] in Tokens(jd)
  {
    RunIsField(Clean(jd), a, b);
  }

  /**
   * A maximal run of word characters of the job description that, lowered,
   * passes the filter survives as a token: no token is lost.
   */
  lemma WordRunIsToken(jd: string, a: nat, b: nat)
    requires a < b <= |jd|
    requires forall i :: a <= i < b ==> IsWordChar(LowerChar(jd[i]))
    requires a == 0 || !IsWordChar(LowerChar(jd[a - 1]))
    requires b == |jd| || !IsWordChar(LowerChar(jd[b]))
    requires KeepToken(ToLower(jd)[a..b])
    ensures ToLower(jd)[a..b] in Tokens(jd)
  {
    var cleaned := Clean(jd);
    assert cleaned[a..b] == ToLower(jd)[a..b];
    forall c | 0 <= c < b - a
      ensures !IsJsSpace(cleaned[a..b][c])
    {
      assert cleaned[a..b][c] == LowerChar(jd[a + c]);
      if IsJsSpace(LowerChar(jd[a + c])) {
        SpaceIsNotWordChar(LowerChar(jd[a + c]));
      }
    }
    assert IsRun(cleaned, a, b);
    KeptRunIsToken(jd, a, b);
  }

  /** A character of the CJK range U+4E00..U+9FA5. */
  predicate IsCjk(c: char) {
    '\U{4E00}' <= c <= '\U{9FA5}'
  }

  /**
   * CJK preservation: a run of two or more CJK characters between
   * characters the cleaning step blanks out is a token unless it is a
   * stop word.
   */
  lemma CjkRunIsToken(jd: string, a: nat, b: nat)
    requires a + 2 <= b <= |jd|
    requires forall i :: a <= i < b ==> IsCjk(jd[i])
    requires a == 0 || !IsWordChar(LowerChar(jd[a - 1]))
    requires b == |jd| || !IsWordChar(LowerChar(jd[b]))
    requires jd[a..b] !in StopWords
    ensures jd[a..b] in Tokens(jd)
  {
    assert ToLower(jd)[a..b] == jd[a..b];
    WordRunIsToken(jd, a, b);
  }

  /** A string of white space only that contains no white space is empty. */
  lemma OnlySpacesMeansEmpty(t: string)
    requires forall m :: 0 <= m < |t| ==> IsJsSpace(t[m])
    ensures NoSpace(t) ==> t == []
  {
    assert |t| == 0 || IsJsSpace(t[0]);
  }

  /** Blank input (what `trim` reduces to "") leaves no token. */
  lemma BlankHasNoTokens(jd: string)
    requires IsBlank(jd)
    ensures Tokens(jd) == []
  {
    var cleaned := Clean(jd);
    forall i | 0 <= i < |cleaned|
      ensures cleaned[i] == ' '
    {
      SpaceIsNotWordChar(jd[i]);
    }
    var fields := Split(cleaned);
    forall k | 0 <= k < |fields|
      ensures |fields[k]| == 0
    {
      SplitFieldIsRun(cleaned, fields[k]);
      var a: nat, b: nat :| IsRun(cleaned, a, b) && fields[k] == cleaned[a..b];
      assert forall m :: 0 <= m < |fields[k]| ==> fields[k][m] == cleaned[a + m];
      OnlySpacesMeansEmpty(fields[k]);
    }
    FilterAllOrNone(KeepToken, fields);
  }
}
