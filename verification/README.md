# ATS keyword matcher — a Dafny model

The résumé page (`script.js`) lets a visitor paste a job description (JD)
and shows how well the résumé matches it. This project models the four
steps behind that panel, together with the properties they promise:

- **Résumé keywords.** These are the lower-cased skill-tag labels followed
  by the lower-cased job title, with repeats removed and first
  appearances kept (`ResumeKeywords`).
- **JD keywords.** The steps are:
  1. lower-case the text;
  2. blank out every character other than ASCII letters, digits and
     U+4E00..U+9FA5;
  3. split on runs of white space;
  4. drop fields shorter than two characters and the 28 Chinese stop
     words (`Tokenizer`);
  5. count the tokens (`Frequency`);
  6. stable-sort by descending count and keep the first 50 (`Ranking`,
     `JdKeywords`).
- **Matching.** A résumé keyword matches when it contains, or is contained
  in, some JD keyword. Each match is kept once, in résumé order
  (`Matching`).
- **The panel.** Blank text shows a prompt. Any other text gives a summary:
  the rounded match percentage, the matched keywords and the JD keyword
  count (`Analysis`).

The shared modules `Sequences` and `Text` hold two kinds of definition:

- de-duplication that keeps first occurrences, which is what spreading a
  JavaScript `Set` gives;
- the JavaScript string operations used here: `toLowerCase`, the
  white-space class of `trim` and `\s`, and `includes`.

The page reads its input from the DOM. Here those texts are parameters:

- the skill-tag texts;
- the title text;
- the JD text.

Where the source loops and updates variables, the model does too. The
counting loop (`Frequency.CountFrequencies`) and the nested matching loops
(`Matching.MatchKeywords`) are methods with loop invariants. Each is proved
against a specification function, and the properties of that function are
proved as lemmas.

With no JD keyword the rate should evidently be 0. The code divides by
zero instead (see Findings). The model follows the code for the
as-written rate (`Analysis.RateAsWritten`), and the panel
(`Analysis.AnalyzeJD`) uses the corrected rate.

## Model

| member | source | states |
|---|---|---|
| Sequences.Dedup | script.js:183 | De-duplication yields a list with no repeats, holding exactly the input's elements and no longer than the input |
| Sequences.DedupFirstOccurrenceOrder | script.js:183 | A spread `Set` keeps first-occurrence order: an element placed earlier first occurs earlier in the input |
| Sequences.Filter | script.js:195 | Filtering keeps exactly the elements that pass the predicate, and is no longer than its input |
| Text.LowerChar | script.js:167 | A lowered character is never upper case; an upper-case letter becomes the letter 32 code points above it, the matching lower-case letter; other characters are unchanged; the result is a lower-case letter exactly when the input is a letter |
| Text.ToLower | script.js:192 | `toLowerCase` keeps the length, lowers each character in place, and leaves no upper-case letter |
| Text.AsciiSpaces | script.js:195 | Among ASCII characters, the white space of `trim` and `\s` is exactly the space and tab through carriage return |
| Text.TrimIsInfix | script.js:145 | `trim` returns a piece of its input with only white space before and after it |
| Text.TrimEnds | script.js:145 | A non-empty trimmed text neither starts nor ends with white space |
| Text.TrimEmptyIffBlank | script.js:145 | `!s.trim()` holds exactly when every character of the text is white space (`IsBlank`) |
| Text.ContainsAt | script.js:218 | `includes` holds exactly when the second string occurs at some position of the first |
| ResumeKeywords.LowerAll | script.js:167 | Every skill label is lowered, one for one |
| ResumeKeywords.ExtractResumeKeywords | script.js:164-184 | The résumé keywords have no repeats, number at most the skills plus one, and are exactly the lowered title and the lowered skills |
| ResumeKeywords.ResumeKeywordsOrder | script.js:180-183 | The résumé keywords are a subsequence of the lowered skills followed by the title, in first-appearance order, and the first skill stays first |
| Tokenizer.ReplaceNonWord | script.js:192 | The replacement keeps the length, keeps every ASCII letter, digit and U+4E00..U+9FA5 character, and puts a space in place of every other character |
| Tokenizer.Clean | script.js:192 | The cleaned text has the same length and holds only keyword characters and spaces. Each position holds the lowered input character when that is a word character, and a space otherwise |
| Tokenizer.Split | script.js:195 | Splitting on white-space runs yields at least one field, and no field contains white space |
| Tokenizer.SplitFieldIsRun | script.js:195 | Every field of the split is a run of non-space characters bounded by white space or the ends of the text; the run may be empty (at an edge, or between two adjacent separators) |
| Tokenizer.RunIsField | script.js:195 | Conversely, every non-empty maximal run of non-space characters is a field of the split |
| Tokenizer.SplitLosesOnlySpaces | script.js:195 | Joining the fields gives back the text without its white space |
| Tokenizer.KeepToken | script.js:189-195 | The filter drops every field of at most one character and keeps every field of three or more characters |
| Tokenizer.Tokens | script.js:192-195 | A string is a token exactly when it is a field of the cleaned text that passes the filter |
| Tokenizer.KeptRunIsToken | script.js:192-195 | Every maximal run of the cleaned text that passes the filter is a token |
| Tokenizer.WordRunIsToken | script.js:192-195 | Every maximal run of word characters of the JD whose lowered form passes the filter is a token |
| Tokenizer.CjkRunIsToken | script.js:189-195 | Every maximal run of two or more U+4E00..U+9FA5 characters that is not a stop word is a token, unchanged |
| Tokenizer.TokenShape | script.js:189-195 | Every surviving token has length at least 2, is not a stop word, consists of lower-case ASCII letters, digits and U+4E00..U+9FA5, and is a run of the cleaned text |
| Tokenizer.StopWordsAreShort | script.js:189 | No stop word is longer than two characters |
| Tokenizer.BlankHasNoTokens | script.js:192-195 | Empty or white-space-only text yields no token |
| Frequency.Tally | script.js:198-204 | The table's entries list each distinct token once, in first-occurrence order, with its number of occurrences |
| Frequency.Lookup | script.js:200 | Reading a key of a `{}` object gives its own value when present; otherwise it is `undefined` for every key but "constructor" |
| Frequency.OrZero | script.js:200 | The fallback to 0 for a falsy value is never `undefined` or the empty string, and leaves every truthy value unchanged |
| Frequency.PlusOne | script.js:200 | `v + 1` adds one to a number and appends "1" to anything else |
| Frequency.EntriesOf | script.js:204 | `Object.entries` lists each key in insertion order with its stored value |
| Frequency.CountStep | script.js:199-201 | One pass of the loop body keeps the table correct for one more word: a known key's count rises by one, and a new key is appended with count 1 |
| Frequency.CountFrequencies | script.js:198-201 | After the counting loop, the table holds exactly the tokens, each with its number of occurrences; its keys are in first-occurrence order; its entries equal the tally |
| Frequency.CountAsWritten | script.js:198-201 | As the source writes it, the object gains an own property for exactly the words seen |
| Frequency.AsWrittenCountsWithoutConstructor | script.js:198-201 | Without the token "constructor", the loop as written stores exactly the numeric occurrence counts |
| Frequency.ConstructorCountIsText | script.js:198-201 | Two occurrences of "constructor" leave the string `function Object() { [native code] }11` where the count 2 belongs |
| Ranking.InsertPos | script.js:205 | The insertion point comes after every entry with a larger count and before the first entry whose count is not larger |
| Ranking.Insert | script.js:205 | Inserting into a list sorted by descending count keeps it sorted, and adds exactly the one entry |
| Ranking.SortByCount | script.js:205 | The sort yields a permutation of the entries in non-increasing count order |
| Ranking.SortIsStable | script.js:205 | Of two entries with equal count, the one placed first in the output came first in the input |
| Ranking.SortKeepsDistinct | script.js:205 | Sorting a list without repeats keeps it without repeats |
| Ranking.Take | script.js:206 | The slice is a prefix of length min(n, length) |
| Ranking.Words | script.js:207 | The words of the entries, position by position |
| JdKeywords.RankedKeywords | script.js:198-207 | The ranking returns min(number of distinct tokens, 50) keywords |
| JdKeywords.JDKeywords | script.js:187-210 | The JD keywords number at most 50, have no repeats, and each is a token that passed the filter |
| JdKeywords.ExtractJDKeywords | script.js:187-210 | Extraction runs the counting loop, then sorts and slices; it returns at most 50 distinct keywords, each a surviving token |
| JdKeywords.SortedEntry | script.js:198-205 | Every sorted entry names a token and carries its occurrence count |
| JdKeywords.TallyIsDistinct | script.js:198-204 | No entry of the table appears twice |
| JdKeywords.SortedWordsAreDistinct | script.js:198-205 | No word appears twice in the sorted entries |
| JdKeywords.RankedKeywordsAreDistinctTokens | script.js:198-207 | At most 50 keywords, no repeats, each one of the surviving tokens |
| JdKeywords.RankedKeywordsByCount | script.js:204-207 | No keyword occurs more often among the tokens than a keyword ranked before it |
| JdKeywords.RankedKeywordsAreTop | script.js:204-207 | A token is left out only when all 50 places are taken by more distinct tokens, and it occurs no more often than the 50th keyword |
| JdKeywords.RankedKeywordsComplete | script.js:206 | With at most 50 distinct tokens, every token is returned |
| JdKeywords.RankedKeywordsTieBreak | script.js:198-205 | Keywords with equal counts keep the order in which they first occur in the text |
| JdKeywords.JDKeywordShape | script.js:187-209 | Every JD keyword has length at least 2, is not a stop word, uses only keyword characters, and is a run of the cleaned text |
| JdKeywords.BlankJDHasNoKeywords | script.js:187-209 | Empty or white-space-only text yields no JD keyword |
| JdKeywords.NoKeptFieldNoKeywords | script.js:195 | Text whose every field is too short or a stop word yields no JD keyword |
| JdKeywords.SingleTokenRanked | script.js:198-207 | A single surviving token is the single keyword |
| JdKeywords.CjkKeywordExample | script.js:189-195 | "招聘简历 自己" keeps the CJK run "招聘简历" as its only keyword and drops the stop word "自己" |
| Matching.PushesFor | script.js:217-221 | The inner loop pushes only the résumé keyword, and pushes it at least once exactly when some JD keyword is related to it |
| Matching.PushedHoldsMatches | script.js:214-222 | After both loops, `matched` holds exactly the résumé keywords related to some JD keyword |
| Matching.Matches | script.js:216-222 | Filtering the résumé keywords by the containment test keeps exactly those related to some JD keyword |
| Matching.MatchedKeywords | script.js:224-225 | The result has no repeats and holds exactly the résumé keywords related to some JD keyword |
| Matching.RelatedIsOccurrence | script.js:218 | Two keywords are related exactly when one occurs in the other at some position; every keyword is related to itself |
| Matching.RelatedIsSymmetric | script.js:218 | The containment test gives the same answer whichever side a keyword comes from |
| Matching.DedupPushed | script.js:224-225 | De-duplicating the pushed list equals de-duplicating the matching résumé keywords |
| Matching.MatchKeywords | script.js:213-226 | Matching returns exactly the résumé keywords related to some JD keyword, each once, as a subsequence of the résumé keywords |
| Matching.MatchingIsOrdered | script.js:216-225 | The matches hold each related résumé keyword once and nothing else, as a subsequence of the résumé keywords |
| Matching.SingleKeywordMatch | script.js:216-225 | A single résumé keyword is matched exactly when some JD keyword is related to it |
| Matching.NoJDKeywordsNoMatches | script.js:217-222 | With no JD keyword nothing matches |
| Analysis.MatchRate | script.js:230 | The rate is the integer nearest to 100 × matched / total, halves rounded up |
| Analysis.RateAsWritten | script.js:230 | The division as written gives a percentage exactly when there is a JD keyword, the nearest integer to 100 × matched / total; NaN exactly for 0/0; Infinity otherwise |
| Analysis.MatchRateBounds | script.js:230 | The rate is 0 without matches, at most 100 when matched ≤ total, at least 100 when matched ≥ total |
| Analysis.SafeMatchRate | script.js:230 | The rate is 0 when there is no JD keyword, and otherwise equals the rate as written |
| Analysis.AnalyzeJD | script.js:144-161 | The `trim` guard shows the prompt exactly for blank text. Otherwise the summary carries the matches of the résumé against the JD keywords, their count (at most 50) and the safe rate, which is 0 with no match when there is no JD keyword |
| Analysis.GuardAdmitsDivisionByZero | script.js:145-160 | "C++" passes the blank guard yet yields no JD keyword, so the rate as written is 0/0 (NaN) |
| Analysis.RateCanExceedHundred | script.js:216-230 | A JD keyword and a different résumé keyword that contains it (such as "go" and "golang") both match that single JD keyword, so the rate is 200 |
| Analysis.ContainmentExample | script.js:218-230 | A résumé keyword containing one of two JD keywords (such as "golang" against "go" and "kubernetes") is matched, for a rate of 50 |

## Left out

- DOM access: reading the skill tags, title and section nodes; the
  `innerHTML` writes; the HTML layout of the panel; and the alert. The
  page's texts are parameters and the panel is a `Display` value.
- The concatenated section text in `extractResumeKeywords` (script.js:170-174) is built but never used, so it has no effect to model.
- The rest of the page's scripting is not matching logic and is not
  modelled:
  - the scroll animations (script.js:23-45);
  - the skill-cloud handlers (script.js:48-74);
  - PDF export (script.js:77-97);
  - the QR code (script.js:99-125);
  - the ATS input and apply handlers with their alert (script.js:127-141);
  - the modals (script.js:256-290);
  - the injected CSS (script.js:293-331);
  - smooth scrolling (script.js:334-348);
  - the fade-in on load (script.js:351-356).
- Text.LowerChar: only A-Z are lowered. The full Unicode case mapping of
  `toLowerCase` (for example on accented skill labels) is not modelled.
- Strings are sequences of Unicode scalar values, not UTF-16 code units.
  A character outside the Basic Multilingual Plane becomes one blank
  instead of two, which changes no token.
- Analysis.MatchRate: exact rational arithmetic stands in for the
  floating-point division and `Math.round`.
- Frequency.EntriesOf: keys are listed in insertion order. JavaScript's
  `Object.entries` lists integer-like keys (for example "2024") before
  all other keys, in ascending numeric order, and only then the others
  in insertion order. Among tokens with equal counts, "2024" therefore
  comes before "python" even when "python" occurs first. With more than
  50 distinct tokens, this can also change which keywords survive the
  cut at 50.
- JdKeywords.RankedKeywordsTieBreak: the first-occurrence tie order is
  proved for the insertion-ordered entries. For texts with integer-like
  tokens it is not what JavaScript gives (see Frequency.EntriesOf).
- JdKeywords.ExtractJDKeywords: its result is tied to the
  insertion-ordered entries. For texts with integer-like tokens the order
  of keywords with equal counts, and with more than 50 distinct tokens
  the set of returned keywords, can differ from JavaScript's (see
  Frequency.EntriesOf).
- Ranking.SortByCount: the sort order once a "constructor" count has
  become a string is not modelled. The comparator then returns NaN, and
  the order is left to the engine.

## Findings

| source | as written | input that shows it | evidently intended | confidence | as-written member | corrected member |
|---|---|---|---|---|---|---|
| script.js:145-160, 230 | The guard rejects only blank text, and the rate divides by the JD keyword count | JD text "C++": "c" is too short, so there is no JD keyword and the page shows "NaN%" | A rate of 0 when there is no JD keyword | high, not executed | Analysis.GuardAdmitsDivisionByZero | Analysis.SafeMatchRate |
| script.js:198-201 | The counts live in a plain `{}` object, whose inherited `constructor` is truthy | JD text "constructor constructor": in V8 the count becomes the string `function Object() { [native code] }11` | A count of 2, as for any other token | high, not executed | Frequency.ConstructorCountIsText | Frequency.CountFrequencies |
