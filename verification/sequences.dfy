/**
 * Generic sequence vocabulary shared by the keyword matcher:
 * de-duplication that keeps first occurrences (what `[...new Set(xs)]`
 * does), order-preserving filtering (`Array.prototype.filter`), and the
 * subsequence relation used to state "in their original order".
 */
module Sequences {

  /** No element occurs twice. */
  predicate Distinct<T(==)>(s: seq<T>) {
    forall i, j :: 0 <= i < j < |s| ==> s[i] != s[j]
  }

  /** `a` can be obtained from `b` by deleting elements (order kept). */
  predicate IsSubseq<T(==)>(a: seq<T>, b: seq<T>)
    decreases |b|
  {
    a == [] ||
    (b != [] &&
     (IsSubseq(a, b[..|b| - 1]) ||
      (a[|a| - 1] == b[|b| - 1] && IsSubseq(a[..|a| - 1], b[..|b| - 1]))))
  }

  /** Index of the first occurrence of `x` in `s`. */
  function FirstIndex<T(==)>(s: seq<T>, x: T): (k: nat)
    requires x in s
    ensures k < |s| && s[k] == x
    ensures forall i :: 0 <= i < k ==> s[i] != x
  {
    if x in s[..|s| - 1] then FirstIndex(s[..|s| - 1], x) else |s| - 1
  }

  /**
   * The elements of `s` in order of first occurrence, each once: the
   * iteration order of a JavaScript `Set` built from `s`.
   */
  function Dedup<T(==,!new)>(s: seq<T>): (r: seq<T>)
    ensures Distinct(r)
    ensures forall x :: x in r <==> x in s
    ensures |r| <= |s|
  {
    if s == [] then []
    else
      var d := Dedup(s[..|s| - 1]);
      if s[|s| - 1] in d then d else d + [s[|s| - 1]]
  }

  /** The elements of `s` satisfying `p`, in their original order. */
  function Filter<T(!new)>(p: T -> bool, s: seq<T>): (r: seq<T>)
    ensures forall x :: x in r <==> x in s && p(x)
    ensures |r| <= |s|
  {
    if s == [] then []
    else
      var f := Filter(p, s[..|s| - 1]);
      if p(s[|s| - 1]) then f + [s[|s| - 1]] else f
  }

  lemma {:induction false} SubseqTransitive<T>(a: seq<T>, b: seq<T>, c: seq<T>)
    requires IsSubseq(a, b) && IsSubseq(b, c)
    ensures IsSubseq(a, c)
    decreases |c|
  {
    if a != [] {
      var c' := c[..|c| - 1];
      if IsSubseq(b, c') {
        SubseqTransitive(a, b, c');
      } else {
        var b' := b[..|b| - 1];
        if IsSubseq(a, b') {
          SubseqTransitive(a, b', c');
        } else {
          SubseqTransitive(a[..|a| - 1], b', c');
        }
      }
    }
  }

  lemma {:induction false} DedupIsSubseq<T(!new)>(s: seq<T>)
    ensures IsSubseq(Dedup(s), s)
  {
    if s != [] {
      var s' := s[..|s| - 1];
      DedupIsSubseq(s');
      var d := Dedup(s');
      if s[|s| - 1] !in d {
        assert (d + [s[|s| - 1]])[..|d|] == d;
      }
    }
  }

  lemma {:induction false} FilterIsSubseq<T(!new)>(p: T -> bool, s: seq<T>)
    ensures IsSubseq(Filter(p, s), s)
  {
    if s != [] {
      var s' := s[..|s| - 1];
      FilterIsSubseq(p, s');
      var f := Filter(p, s');
      if p(s[|s| - 1]) {
        assert (f + [s[|s| - 1]])[..|f|] == f;
      }
    }
  }

  lemma {:induction false} FirstIndexOfPrefix<T(!new)>(s: seq<T>, n: nat, x: T)
    requires n <= |s| && x in s[..n]
    ensures FirstIndex(s, x) == FirstIndex(s[..n], x)
  {
    var k := FirstIndex(s[..n], x);
    assert s[k] == x;
  }

  /**
   * `Dedup` keeps first occurrences: an element placed earlier in the
   * result first occurs earlier in the input. With `Distinct` and the
   * membership clause this determines `Dedup(s)` completely.
   */
  lemma {:induction false} DedupFirstOccurrenceOrder<T(!new)>(s: seq<T>, p: nat, q: nat)
    requires p < q < |Dedup(s)|
    ensures FirstIndex(s, Dedup(s)[p]) < FirstIndex(s, Dedup(s)[q])
  {
    var s' := s[..|s| - 1];
    var d := Dedup(s');
    var x, y := Dedup(s)[p], Dedup(s)[q];
    assert x in d && x in s';
    FirstIndexOfPrefix(s, |s| - 1, x);
    if q < |d| {
      DedupFirstOccurrenceOrder(s', p, q);
      FirstIndexOfPrefix(s, |s| - 1, y);
    } else {
      assert y == s[|s| - 1] && y !in s';
      assert FirstIndex(s, y) == |s| - 1;
    }
  }

  /** The head of the input is the head of `Dedup`. */
  lemma {:induction false} DedupKeepsHead<T(!new)>(s: seq<T>)
    requires s != []
    ensures Dedup(s) != [] && Dedup(s)[0] == s[0]
  {
    var x := Dedup(s)[0];
    assert s[0] in Dedup(s);
    var k :| 0 <= k < |Dedup(s)| && Dedup(s)[k] == s[0];
    if k > 0 {
      DedupFirstOccurrenceOrder(s, 0, k);
    }
  }

  /** Appending an element already present leaves `Dedup` unchanged. */
  lemma DedupAppendPresent<T(!new)>(s: seq<T>, x: T)
    requires x in s
    ensures Dedup(s + [x]) == Dedup(s)
  {
    assert (s + [x])[..|s|] == s;
  }

  /** Inputs with equal `Dedup` stay so under a common suffix. */
  lemma {:induction false} DedupAppendCongruent<T(!new)>(a: seq<T>, b: seq<T>, t: seq<T>)
    requires Dedup(a) == Dedup(b)
    ensures Dedup(a + t) == Dedup(b + t)
    decreases |t|
  {
    if t != [] {
      var t' := t[..|t| - 1];
      DedupAppendCongruent(a, b, t');
      assert (a + t)[..|a + t| - 1] == a + t';
      assert (b + t)[..|b + t| - 1] == b + t';
    } else {
      assert a + t == a && b + t == b;
    }
  }

  /** Appending one or more copies of `x` acts on `Dedup` like appending one. */
  lemma {:induction false} DedupAppendCopies<T(!new)>(s: seq<T>, copies: seq<T>, x: T)
    requires copies != [] && forall i :: 0 <= i < |copies| ==> copies[i] == x
    ensures Dedup(s + copies) == Dedup(s + [x])
    decreases |copies|
  {
    if |copies| > 1 {
      var c' := copies[..|copies| - 1];
      DedupAppendCopies(s, c', x);
      assert (s + copies)[..|s + copies| - 1] == s + c';
      assert copies[0] == x;
      assert x in s + c';
      assert s + copies == (s + c') + [x];
      DedupAppendPresent(s + c', x);
    } else {
      assert copies == [x];
    }
  }

  /** Filtering distributes over concatenation. */
  lemma {:induction false} FilterAppend<T(!new)>(p: T -> bool, a: seq<T>, b: seq<T>)
    ensures Filter(p, a + b) == Filter(p, a) + Filter(p, b)
    decreases |b|
  {
    if b == [] {
      assert a + b == a;
    } else {
      var b', last := b[..|b| - 1], b[|b| - 1];
      var ab := a + b;
      var tail := if p(last) then [last] else [];
      FilterAppend(p, a, b');
      assert ab[..|ab| - 1] == a + b' && ab[|ab| - 1] == last;
      assert Filter(p, ab) == Filter(p, a + b') + tail;
      assert Filter(p, b) == Filter(p, b') + tail;
      assert Filter(p, a) + Filter(p, b') + tail == Filter(p, a) + (Filter(p, b') + tail);
    }
  }

  /** Filtering a two-element sequence. */
  lemma FilterPair<T(!new)>(p: T -> bool, a: T, b: T)
    ensures Filter(p, [a, b]) == (if p(a) then [a] else []) + (if p(b) then [b] else [])
  {
    assert [a, b][..1] == [a] && [a][..0] == [];
  }

  /** Filtering keeps a sequence whose every element passes, and empties one where none does. */
  lemma {:induction false} FilterAllOrNone<T(!new)>(p: T -> bool, s: seq<T>)
    ensures (forall i :: 0 <= i < |s| ==> p(s[i])) ==> Filter(p, s) == s
    ensures (forall i :: 0 <= i < |s| ==> !p(s[i])) ==> Filter(p, s) == []
  {
    if s != [] {
      FilterAllOrNone(p, s[..|s| - 1]);
    }
  }
}
