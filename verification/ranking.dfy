/**
 * The ranking half of `extractJDKeywords`: the table's entries sorted by
 * descending count and cut to the first 50.
 * `Array.prototype.sort` is stable (ECMAScript 2019 onwards), so entries
 * with equal counts keep their order from `Object.entries`.
 */
module Ranking {
  import opened Sequences

  /** One `[word, count]` pair of `Object.entries(wordFreq)`. */
  datatype Entry = Entry(word: string, count: nat)

  predicate NonIncreasing(es: seq<Entry>) {
    forall i, j :: 0 <= i < j < |es| ==> es[i].count >= es[j].count
  }

  /** `x` occurs at an earlier index of `s` than `y`. */
  ghost predicate Precedes(s: seq<Entry>, x: Entry, y: Entry) {
    exists p, q :: 0 <= p < q < |s| && s[p] == x && s[q] == y
  }

  /** Number of leading entries of `t` whose count exceeds that of `x`. */
  function InsertPos(x: Entry, t: seq<Entry>): (p: nat)
    ensures p <= |t|
    ensures forall k :: 0 <= k < p ==> t[k].count > x.count
    ensures p < |t| ==> t[p].count <= x.count
  {
    if t == [] || t[0].count <= x.count then 0 else 1 + InsertPos(x, t[1..])
  }

  /**
   * Place `x` in front of every entry of `t` whose count is not larger:
   * how a stable sort by descending count places an element that came
   * earlier than all of `t`.
   */
  function Insert(x: Entry, t: seq<Entry>): (r: seq<Entry>)
    requires NonIncreasing(t)
    ensures NonIncreasing(r)
    ensures multiset(r) == multiset(t) + multiset{x}
    ensures |r| == |t| + 1
  {
    var p := InsertPos(x, t);
    assert t == t[..p] + t[p..];
    t[..p] + [x] + t[p..]
  }

  /** Stable sort by descending count. */
  function SortByCount(es: seq<Entry>): (r: seq<Entry>)
    ensures NonIncreasing(r)
    ensures multiset(r) == multiset(es)
    ensures |r| == |es|
  {
    if es == [] then []
    else
      assert es == [es[0]] + es[1..];
      Insert(es[0], SortByCount(es[1..]))
  }

  lemma {:induction false} PrecedesInTail(es: seq<Entry>, x: Entry, y: Entry)
    requires es != [] && Precedes(es[1..], x, y)
    ensures Precedes(es, x, y)
  {
    var p, q :| 0 <= p < q < |es[1..]| && es[1..][p] == x && es[1..][q] == y;
    assert es[p + 1] == x && es[q + 1] == y;
  }

  /** Where each entry of `Insert(x, t)` comes from. */
  lemma InsertAt(x: Entry, t: seq<Entry>, k: nat)
    requires NonIncreasing(t) && k <= |t|
    ensures Insert(x, t)[k] ==
      if k < InsertPos(x, t) then t[k] else if k == InsertPos(x, t) then x else t[k - 1]
  {
  }

  /** The two entries at `i < j` of the sorted tail, located through `Insert`. */
  lemma SortedFromTail(es: seq<Entry>, i: nat, j: nat)
    requires es != [] && i < j < |es|
    requires i != InsertPos(es[0], SortByCount(es[1..])) && j != InsertPos(es[0], SortByCount(es[1..]))
    ensures
      var t, p := SortByCount(es[1..]), InsertPos(es[0], SortByCount(es[1..]));
      var i', j' := if i < p then i else i - 1, if j < p then j else j - 1;
      i' < j' < |t| && SortByCount(es)[i] == t[i'] && SortByCount(es)[j] == t[j']
  {
    var t := SortByCount(es[1..]);
    InsertAt(es[0], t, i);
    InsertAt(es[0], t, j);
  }

  /** The inserted head precedes every entry of the sorted tail placed after it. */
  lemma HeadPrecedes(es: seq<Entry>, i: nat, j: nat)
    requires i < j < |es| && i == InsertPos(es[0], SortByCount(es[1..]))
    ensures Precedes(es, SortByCount(es)[i], SortByCount(es)[j])
  {
    var t := SortByCount(es[1..]);
    InsertAt(es[0], t, i);
    InsertAt(es[0], t, j);
    assert t[j - 1] in multiset(t);
    FirstPrecedesTail(es, t[j - 1]);
  }

  lemma FirstPrecedesTail(es: seq<Entry>, y: Entry)
    requires es != [] && y in multiset(es[1..])
    ensures Precedes(es, es[0], y)
  {
    var q :| 0 <= q < |es[1..]| && es[1..][q] == y;
    assert es[q + 1] == y;
  }

  lemma {:induction false} StablePair(es: seq<Entry>, i: nat, j: nat)
    requires i < j < |es|
    requires forall i, j :: 0 <= i < j < |SortByCount(es[1..])| ==>
      SortByCount(es[1..])[i].count == SortByCount(es[1..])[j].count ==>
      Precedes(es[1..], SortByCount(es[1..])[i], SortByCount(es[1..])[j])
    ensures SortByCount(es)[i].count == SortByCount(es)[j].count ==>
      Precedes(es, SortByCount(es)[i], SortByCount(es)[j])
  {
    var x, tail := es[0], es[1..];
    var t := SortByCount(tail);
    var p := InsertPos(x, t);
    var r := SortByCount(es);
    if i != p && j != p {
      SortedFromTail(es, i, j);
      if r[i].count == r[j].count {
        PrecedesInTail(es, r[i], r[j]);
      }
    } else if i == p {
      HeadPrecedes(es, i, j);
    } else {
      InsertAt(x, t, i);
      InsertAt(x, t, j);
    }
  }

  /**
   * The sort is stable: of two entries with the same count, the one that
   * comes first in the output came first in the input.
   */
  lemma {:induction false} SortIsStable(es: seq<Entry>)
    ensures forall i, j :: 0 <= i < j < |SortByCount(es)| ==>
      SortByCount(es)[i].count == SortByCount(es)[j].count ==>
      Precedes(es, SortByCount(es)[i], SortByCount(es)[j])
  {
    if es != [] {
      SortIsStable(es[1..]);
      forall i, j | 0 <= i < j < |es|
        ensures SortByCount(es)[i].count == SortByCount(es)[j].count ==>
          Precedes(es, SortByCount(es)[i], SortByCount(es)[j])
      {
        StablePair(es, i, j);
      }
    }
  }

  lemma {:induction false} DistinctPair(es: seq<Entry>, i: nat, j: nat)
    requires i < j < |es|
    requires es[0] !in es[1..]
    requires Distinct(SortByCount(es[1..]))
    ensures SortByCount(es)[i] != SortByCount(es)[j]
  {
    var x, tail := es[0], es[1..];
    var t := SortByCount(tail);
    var p := InsertPos(x, t);
    assert x !in multiset(t) by {
      assert x !in multiset(tail);
    }
    if i != p && j != p {
      SortedFromTail(es, i, j);
    } else {
      InsertAt(x, t, i);
      InsertAt(x, t, j);
      if i == p {
        assert t[j - 1] in multiset(t);
      } else {
        assert t[i] in multiset(t);
      }
    }
  }

  /** Sorting keeps a duplicate-free input duplicate-free. */
  lemma {:induction false} SortKeepsDistinct(es: seq<Entry>)
    requires Distinct(es)
    ensures Distinct(SortByCount(es))
  {
    if es != [] {
      SortKeepsDistinct(es[1..]);
      forall i, j | 0 <= i < j < |es|
        ensures SortByCount(es)[i] != SortByCount(es)[j]
      {
        DistinctPair(es, i, j);
      }
    }
  }

  /** The first `n` entries, or all of them when there are fewer. */
  function Take(es: seq<Entry>, n: nat): (r: seq<Entry>)
    ensures |r| == if |es| < n then |es| else n
    ensures r <= es
  {
    if |es| <= n then es else es[..n]
  }

  /** The word of each entry. */
  function Words(es: seq<Entry>): (r: seq<string>)
    ensures |r| == |es|
    ensures forall i :: 0 <= i < |es| ==> r[i] == es[i].word
  {
    seq(|es|, i requires 0 <= i < |es| => es[i].word)
  }
}
