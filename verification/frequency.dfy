/**
 * The counting loop of `extractJDKeywords`, which adds one to the entry
 * of each token in a plain object, starting from 0 when it has none.
 * The table is modelled as a map from word to count together with the
 * order in which its keys were first inserted, which is the order
 * `Object.entries` reports them in.
 */
module Frequency {
  import opened Sequences
  import opened Ranking

  /** Number of times `w` occurs in `words`. */
  function Occurrences(words: seq<string>, w: string): nat {
    multiset(words)[w]
  }

  /**
   * The entries of a frequency table for `words`, in insertion order:
   * one `Entry(w, Occurrences(words, w))` per distinct word, in order of
   * first occurrence.
   */
  function Tally(words: seq<string>): (es: seq<Entry>)
    ensures |es| == |Dedup(words)|
    ensures forall i :: 0 <= i < |es| ==>
      es[i].word == Dedup(words)[i] && es[i].count == Occurrences(words, es[i].word)
  {
    var d := Dedup(words);
    seq(|d|, i requires 0 <= i < |d| => Entry(d[i], Occurrences(words, d[i])))
  }

  /** `Object.entries(wordFreq)` for a table with key order `keys`. */
  function EntriesOf(freq: map<string, nat>, keys: seq<string>): (es: seq<Entry>)
    requires forall k :: k in keys ==> k in freq
    ensures |es| == |keys|
    ensures forall i :: 0 <= i < |keys| ==> es[i] == Entry(keys[i], freq[keys[i]])
  {
    seq(|keys|, i requires 0 <= i < |keys| => Entry(keys[i], freq[keys[i]]))
  }

  /**
   * The table after the first `n` words: its keys in order of first
   * insertion, exactly those words, each with its count so far.
   */
  ghost predicate Counted(words: seq<string>, n: nat, freq: map<string, nat>, keys: seq<string>)
    requires n <= |words|
  {
    && keys == Dedup(words[..n])
    && (forall w :: w in freq <==> w in words[..n])
    && (forall w :: w in freq ==> freq[w] == Occurrences(words[..n], w))
  }

  /** One more word: a known key has its count raised, a new key is added with count 1. */
  lemma CountStep(words: seq<string>, i: nat, freq: map<string, nat>, keys: seq<string>)
    requires i < |words| && Counted(words, i, freq, keys)
    ensures words[i] in freq ==> Counted(words, i + 1, freq[words[i] := freq[words[i]] + 1], keys)
    ensures words[i] !in freq ==> Counted(words, i + 1, freq[words[i] := 1], keys + [words[i]])
  {
    var w := words[i];
    assert words[..i + 1] == words[..i] + [w];
  }

  /** The table's entries are the tally once it agrees with it key by key. */
  lemma EntriesAreTally(words: seq<string>, freq: map<string, nat>, keys: seq<string>)
    requires keys == Dedup(words)
    requires forall w :: w in words ==> w in freq && freq[w] == Occurrences(words, w)
    ensures EntriesOf(freq, keys) == Tally(words)
  {
  }

  /**
   * The `forEach` loop that fills `wordFreq`. The resulting table holds
   * exactly the words of the input, each with its number of occurrences,
   * and its keys in order of first insertion.
   */
  method CountFrequencies(words: seq<string>) returns (freq: map<string, nat>, keys: seq<string>)
    ensures keys == Dedup(words)
    ensures forall w :: w in freq <==> w in words
    ensures forall w :: w in freq ==> freq[w] == Occurrences(words, w)
    ensures EntriesOf(freq, keys) == Tally(words)
  {
    freq, keys := map[], [];
    var i := 0;
    while i < |words|
      invariant 0 <= i <= |words|
      invariant Counted(words, i, freq, keys)
    {
      var word := words[i];
      CountStep(words, i, freq, keys);
      if word in freq {
        freq := freq[word := freq[word] + 1];
      } else {
        freq := freq[word := 1];
        keys := keys + [word];
      }
      i := i + 1;
    }
    assert words[..i] == words;
    EntriesAreTally(words, freq, keys);
  }

  // ---------------------------------------------------------------------
  // The same loop with the JavaScript semantics of a plain `{}` object.
  // ---------------------------------------------------------------------

  /** The JavaScript values the loop can store or read back. */
  datatype JsValue =
    | Undefined
    | Number(n: nat)
    | Text(s: string)
    | ObjectConstructor   // the function `Object`, inherited as `{}.constructor`

  /** What `String(Object)` yields in V8. */
  const ObjectSource := "function Object() { [native code] }"

  /**
   * `wordFreq[word]` on an object created by `{}`: an own property, else
   * the property inherited from `Object.prototype`. Of its inherited
   * names only `constructor` consists of lower-case letters, so it is
   * the only one a token can hit.
   */
  function Lookup(own: map<string, JsValue>, key: string): (v: JsValue)
    ensures key in own ==> v == own[key]
    ensures key !in own ==> (v != Undefined <==> key == "constructor")
  {
    if key in own then own[key]
    else if key == "constructor" then ObjectConstructor
    else Undefined
  }

  /** `v || 0`: falsy values (`undefined`, `0`, `""`) give `0`. */
  function OrZero(v: JsValue): (r: JsValue)
    ensures r != Undefined && r != Text("")
    ensures v != Undefined && v != Text("") ==> r == v
  {
    match v
    case Undefined => Number(0)
    case Text(s) => if s == "" then Number(0) else v
    case _ => v
  }

  /** `v + 1`: numeric addition on numbers, string concatenation otherwise. */
  function PlusOne(v: JsValue): (r: JsValue)
    ensures v.Number? ==> r == Number(v.n + 1)
    ensures !v.Number? ==> r.Text? && |r.s| > 0 && r.s[|r.s| - 1] == '1'
  {
    match v
    case Number(n) => Number(n + 1)
    case Text(s) => Text(s + "1")
    case ObjectConstructor => Text(ObjectSource + "1")
    case Undefined => Text("undefined1")   // `undefined + 1` is NaN; unreachable after OrZero
  }

  /** The own properties of `wordFreq` after the loop, as the source writes it. */
  function CountAsWritten(words: seq<string>): (own: map<string, JsValue>)
    ensures forall w :: w in own <==> w in words
  {
    if words == [] then map[]
    else
      var own := CountAsWritten(words[..|words| - 1]);
      var w := words[|words| - 1];
      own[w := PlusOne(OrZero(Lookup(own, w)))]
  }

  /**
   * As long as no token is "constructor", the loop as written stores
   * exactly the counts of `CountFrequencies`.
   */
  lemma {:induction false} AsWrittenCountsWithoutConstructor(words: seq<string>)
    requires "constructor" !in words
    ensures forall w :: w in CountAsWritten(words) ==>
      CountAsWritten(words)[w] == Number(Occurrences(words, w))
  {
    if words != [] {
      var init := words[..|words| - 1];
      assert words == init + [words[|words| - 1]];
      AsWrittenCountsWithoutConstructor(init);
    }
  }

  /**
   * The token "constructor" is counted into a string: after two
   * occurrences `wordFreq.constructor` is the source text of `Object`
   * followed by "11", where the count is 2.
   */
  lemma ConstructorCountIsText()
    ensures Occurrences(["constructor", "constructor"], "constructor") == 2
    ensures CountAsWritten(["constructor", "constructor"])["constructor"] == Text(ObjectSource + "11")
  {
    var once := CountAsWritten(["constructor"]);
    assert ["constructor", "constructor"][..1] == ["constructor"];
    assert ["constructor"][..0] == [];
    assert once["constructor"] == Text(ObjectSource + "1");
    assert ObjectSource + "1" + "1" == ObjectSource + "11";
  }
}
