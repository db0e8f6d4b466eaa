/**
 * `Array.from(new Set(xs))`: the elements of `xs` without repetitions, each
 * at the place of its first occurrence. A JavaScript `Set` iterates in
 * insertion order, and adding an element it already holds changes nothing.
 */
module UniqueList {

  predicate NoDuplicates<T(==)>(xs: seq<T>) {
    forall i, j :: 0 <= i < j < |xs| ==> xs[i] != xs[j]
  }

  /** The index of the first occurrence of `x` in `xs`. */
  function FirstIndex<T(==)>(xs: seq<T>, x: T): (i: nat)
    requires x in xs
    ensures i < |xs| && xs[i] == x && x !in xs[..i]
  {
    if xs[0] == x then 0 else 1 + FirstIndex(xs[1..], x)
  }

  /** Extending a sequence does not move the first occurrence of an element it already holds. */
  lemma {:induction false} FirstIndexInPrefix<T>(xs: seq<T>, ys: seq<T>, x: T)
    requires x in xs
    ensures x in xs + ys && FirstIndex(xs + ys, x) == FirstIndex(xs, x)
  {
    if xs[0] != x {
      assert (xs + ys)[1..] == xs[1..] + ys;
      FirstIndexInPrefix(xs[1..], ys, x);
    }
  }

  /** The element list of a Set built from `xs`, in iteration order. */
  function Dedup<T(==)>(xs: seq<T>): seq<T>
  {
    if xs == [] then []
    else
      var d := Dedup(xs[..|xs| - 1]);
      if xs[|xs| - 1] in d then d else d + [xs[|xs| - 1]]
  }

  /**
   * The Set's element list holds every element of `xs`, nothing else, and
   * nothing twice, in the order of the elements' first occurrences in `xs`.
   */
  lemma {:induction false} DedupListsEachOnce<T>(xs: seq<T>)
    ensures NoDuplicates(Dedup(xs))
    ensures forall i :: 0 <= i < |Dedup(xs)| ==> Dedup(xs)[i] in xs
    ensures forall i :: 0 <= i < |xs| ==> xs[i] in Dedup(xs)
    ensures forall i, j :: 0 <= i < j < |Dedup(xs)| ==>
      FirstIndex(xs, Dedup(xs)[i]) < FirstIndex(xs, Dedup(xs)[j])
  {
    if xs != [] {
      var prefix, last := xs[..|xs| - 1], xs[|xs| - 1];
      var d := Dedup(prefix);
      DedupListsEachOnce(prefix);
      assert xs == prefix + [last];
      forall i | 0 <= i < |xs|
        ensures xs[i] in Dedup(xs)
      {
        if i < |prefix| {
          assert prefix[i] == xs[i];
        }
      }
      forall y | y in prefix
        ensures y in xs && FirstIndex(xs, y) == FirstIndex(prefix, y) < |prefix|
      {
        FirstIndexInPrefix(prefix, [last], y);
      }
      if last !in d {
        assert last !in prefix;
        assert FirstIndex(xs, last) == |prefix|;
      }
    }
  }

  /** The first element of `xs` comes first in the Set's element list. */
  lemma {:induction false} DedupKeepsHead<T>(xs: seq<T>)
    requires xs != []
    ensures Dedup(xs) != [] && Dedup(xs)[0] == xs[0]
  {
    if |xs| > 1 {
      DedupKeepsHead(xs[..|xs| - 1]);
      assert xs[..|xs| - 1][0] == xs[0];
    }
  }

  /** A Set built from distinct elements lists them exactly as given. */
  lemma {:induction false} DedupOfDistinct<T>(xs: seq<T>)
    requires NoDuplicates(xs)
    ensures Dedup(xs) == xs
  {
    if xs != [] {
      var prefix := xs[..|xs| - 1];
      DedupOfDistinct(prefix);
      assert xs[|xs| - 1] !in prefix;
      assert prefix + [xs[|xs| - 1]] == xs;
    }
  }
}
