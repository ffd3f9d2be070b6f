/** Sequence facts shared by the keyword ranking (Counter) and the subject pool
    (dict.fromkeys): occurrence counts, first occurrences and order-preserving
    deduplication. */
module Seqs {

  /** Number of occurrences of `x` in `s`. */
  function Count<T(==)>(s: seq<T>, x: T): (n: nat)
    ensures n <= |s|
    ensures n > 0 <==> x in s
  {
    if s == [] then 0
    else
      assert s == s[..|s| - 1] + [s[|s| - 1]];
      (if s[|s| - 1] == x then 1 else 0) + Count(s[..|s| - 1], x)
  }

  /** No element occurs twice. */
  predicate NoDups<T(==)>(s: seq<T>) {
    forall i, j :: 0 <= i < j < |s| ==> s[i] != s[j]
  }

  /** Position of the first occurrence of `x` in `s`. */
  function FirstIndex<T(==)>(s: seq<T>, x: T): (i: nat)
    requires x in s
    ensures i < |s| && s[i] == x
    ensures x !in s[..i]
  {
    if s[0] == x then 0
    else
      var k := FirstIndex(s[1..], x);
      assert s[..k + 1] == [s[0]] + s[1..][..k];
      1 + k
  }

  /** The elements of `s` in order of first occurrence, each once: the keys of
      Python's `dict.fromkeys(s)` and of `Counter(s)`. Element `s[k]` is kept
      exactly when it does not occur in `s[..k]`. */
  function Dedup<T(==)>(s: seq<T>): (r: seq<T>)
    ensures NoDups(r)
    ensures forall i :: 0 <= i < |r| ==> r[i] in s
    ensures forall i :: 0 <= i < |s| ==> s[i] in r
    ensures |r| <= |s|
  {
    if s == [] then []
    else
      var p := Dedup(s[..|s| - 1]);
      var x := s[|s| - 1];
      assert s == s[..|s| - 1] + [x];
      if x in s[..|s| - 1] then p else p + [x]
  }

  /** `Dedup`'s second postcondition restated over elements rather than
      positions, the form membership arguments need. */
  lemma DedupSubset<T>(s: seq<T>)
    ensures forall x :: x in Dedup(s) ==> x in s
  {
  }

  /** The first occurrence of an element of a prefix does not move when the
      sequence is extended. */
  lemma {:induction false} FirstIndexOfPrefix<T>(s: seq<T>, t: seq<T>, x: T)
    requires x in s
    ensures x in s + t
    ensures FirstIndex(s + t, x) == FirstIndex(s, x)
  {
    if s[0] != x {
      assert (s + t)[1..] == s[1..] + t;
      FirstIndexOfPrefix(s[1..], t, x);
    }
  }

  /** `Dedup` lists the distinct elements in the order of their first occurrence. */
  lemma {:induction false} DedupKeepsFirstOccurrenceOrder<T>(s: seq<T>)
    ensures forall i, j :: 0 <= i < j < |Dedup(s)| ==>
              FirstIndex(s, Dedup(s)[i]) < FirstIndex(s, Dedup(s)[j])
  {
    if s != [] {
      var init := s[..|s| - 1];
      var x := s[|s| - 1];
      assert s == init + [x];
      DedupKeepsFirstOccurrenceOrder(init);
      var p := Dedup(init);
      forall y | y in init
        ensures FirstIndex(s, y) == FirstIndex(init, y)
      {
        FirstIndexOfPrefix(init, [x], y);
      }
      if x !in init {
        assert FirstIndex(s, x) == |s| - 1 by {
          assert x !in s[..|s| - 1];
        }
      }
    }
  }
}
