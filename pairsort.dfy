/**
 * Sorting of (key, id) pairs in ascending lexicographic order, as
 * std::sort on a vector of std::pair and Python's sorted() on tuples do.
 * The result is a permutation of the input; when the input has no repeated
 * pair the result is strictly increasing, which makes it the only such
 * permutation, so any correct sort gives the same sequence.
 */
module PairSort {

  type Pair = (int, int)

  predicate Less(p: Pair, q: Pair)
  {
    p.0 < q.0 || (p.0 == q.0 && p.1 < q.1)
  }

  predicate StrictlySorted(xs: seq<Pair>)
  {
    forall i, j :: 0 <= i < j < |xs| ==> Less(xs[i], xs[j])
  }

  predicate Distinct(xs: seq<Pair>)
  {
    forall i, j :: 0 <= i < j < |xs| ==> xs[i] != xs[j]
  }

  /** Inserts x before the first element it does not exceed. */
  function Insert(x: Pair, ys: seq<Pair>): (r: seq<Pair>)
    ensures multiset(r) == multiset(ys) + multiset{x}
    ensures forall e :: e in r <==> e == x || e in ys
    ensures StrictlySorted(ys) && x !in ys ==> StrictlySorted(r)
  {
    if ys == [] then [x]
    else if Less(x, ys[0]) || x == ys[0] then [x] + ys
    else
      var rest := Insert(x, ys[1..]);
      assert ys == [ys[0]] + ys[1..];
      InsertSorted(x, ys, rest);
      [ys[0]] + rest
  }

  /** The step case of Insert: the head of ys is below everything inserted after it. */
  lemma InsertSorted(x: Pair, ys: seq<Pair>, rest: seq<Pair>)
    requires ys != [] && Less(ys[0], x)
    requires forall e :: e in rest <==> e == x || e in ys[1..]
    requires StrictlySorted(ys[1..]) && x !in ys[1..] ==> StrictlySorted(rest)
    ensures StrictlySorted(ys) && x !in ys ==> StrictlySorted([ys[0]] + rest)
  {
    if StrictlySorted(ys) && x !in ys {
      var r := [ys[0]] + rest;
      forall i, j | 0 <= i < j < |r| ensures Less(r[i], r[j]) {
        if i == 0 {
          assert r[j] in rest;
          if r[j] != x {
            var k :| 0 <= k < |ys[1..]| && ys[1..][k] == r[j];
            assert ys[k + 1] == r[j];
          }
        } else {
          assert r[i] == rest[i - 1] && r[j] == rest[j - 1];
        }
      }
    }
  }

  /** Insertion sort. */
  function Sort(xs: seq<Pair>): (r: seq<Pair>)
    ensures multiset(r) == multiset(xs)
    ensures forall e :: e in r <==> e in xs
    ensures Distinct(xs) ==> StrictlySorted(r)
  {
    if xs == [] then []
    else
      assert xs == [xs[0]] + xs[1..];
      var rest := Sort(xs[1..]);
      assert Distinct(xs) ==> xs[0] !in xs[1..] by {
        if Distinct(xs) {
          forall k | 0 <= k < |xs[1..]| ensures xs[1..][k] != xs[0] {
            assert xs[1..][k] == xs[k + 1];
          }
        }
      }
      Insert(xs[0], rest)
  }

  /** A sequence is distinct when its second components are. */
  lemma DistinctByIds(xs: seq<Pair>)
    requires forall i, j :: 0 <= i < j < |xs| ==> xs[i].1 != xs[j].1
    ensures Distinct(xs)
  {
  }
}
