/** Sequence helpers shared by the model: order-preserving filtering, with
    the facts about element counts that the row-conservation proofs need. */
module Seqs {

  /** The elements of `s` satisfying `p`, in their original order. */
  function Filter<T(==,!new)>(s: seq<T>, p: T -> bool): (t: seq<T>)
    ensures |t| <= |s|
    ensures forall x :: x in t <==> x in s && p(x)
  {
    if |s| == 0 then [] else (if p(s[0]) then [s[0]] else []) + Filter(s[1..], p)
  }

  /** Filtering keeps every copy of a selected element and no copy of the others. */
  lemma {:induction false} FilterCount<T(!new)>(s: seq<T>, p: T -> bool, x: T)
    ensures multiset(Filter(s, p))[x] == if p(x) then multiset(s)[x] else 0
  {
    if |s| > 0 {
      FilterCount(s[1..], p, x);
      assert s == [s[0]] + s[1..];
    }
  }

  /** Filtering two permutations of each other gives permutations of each other. */
  lemma FilterPermutation<T(!new)>(s: seq<T>, t: seq<T>, p: T -> bool)
    requires multiset(s) == multiset(t)
    ensures multiset(Filter(s, p)) == multiset(Filter(t, p))
  {
    forall x
      ensures multiset(Filter(s, p))[x] == multiset(Filter(t, p))[x]
    {
      FilterCount(s, p, x);
      FilterCount(t, p, x);
    }
  }

  lemma {:induction false} FilterConcat<T(!new)>(a: seq<T>, b: seq<T>, p: T -> bool)
    ensures Filter(a + b, p) == Filter(a, p) + Filter(b, p)
  {
    if |a| > 0 {
      FilterConcat(a[1..], b, p);
      var h := if p(a[0]) then [a[0]] else [];
      var ab := a + b;
      DropConcat(a, b);
      assert Filter(ab, p) == h + Filter(ab[1..], p);
      assert Filter(a, p) == h + Filter(a[1..], p);
    } else {
      assert a + b == b;
    }
  }

  lemma DropConcat<T>(a: seq<T>, b: seq<T>)
    requires |a| > 0
    ensures (a + b)[0] == a[0] && (a + b)[1..] == a[1..] + b
  {
  }

  /** Two sequences with the same count of every element are permutations. */
  lemma MultisetExt<T>(a: seq<T>, b: seq<T>)
    requires forall x :: multiset(a)[x] == multiset(b)[x]
    ensures multiset(a) == multiset(b)
  {
  }

  predicate NoDup<T(==,!new)>(s: seq<T>) {
    forall i, j :: 0 <= i < j < |s| ==> s[i] != s[j]
  }

  /** Two filters may be applied in either order. */
  lemma {:induction false} FilterCommute<T(!new)>(s: seq<T>, p: T -> bool, q: T -> bool)
    ensures Filter(Filter(s, p), q) == Filter(Filter(s, q), p)
  {
    if |s| > 0 {
      FilterCommute(s[1..], p, q);
      var hp := if p(s[0]) then [s[0]] else [];
      var hq := if q(s[0]) then [s[0]] else [];
      FilterConcat(hp, Filter(s[1..], p), q);
      FilterConcat(hq, Filter(s[1..], q), p);
    }
  }

  /** A relation that holds between every earlier and later element still
      holds after filtering. */
  lemma {:induction false} FilterPairwise<T(!new)>(s: seq<T>, p: T -> bool, R: (T, T) -> bool)
    requires forall i, j :: 0 <= i < j < |s| ==> R(s[i], s[j])
    ensures forall i, j :: 0 <= i < j < |Filter(s, p)| ==> R(Filter(s, p)[i], Filter(s, p)[j])
  {
    if |s| > 0 {
      FilterPairwise(s[1..], p, R);
      var rest := Filter(s[1..], p);
      forall j | 0 <= j < |rest|
        ensures R(s[0], rest[j])
      {
        assert rest[j] in s[1..];
      }
    }
  }

  lemma {:induction false} FilterNone<T(!new)>(s: seq<T>, p: T -> bool)
    requires forall x :: x in s ==> !p(x)
    ensures Filter(s, p) == []
  {
    if |s| > 0 {
      assert s[0] in s;
      FilterNone(s[1..], p);
    }
  }

  lemma {:induction false} FilterAll<T(!new)>(s: seq<T>, p: T -> bool)
    requires forall x :: x in s ==> p(x)
    ensures Filter(s, p) == s
  {
    if |s| > 0 {
      assert s[0] in s;
      FilterAll(s[1..], p);
      assert [s[0]] + s[1..] == s;
    }
  }

  /** Two complementary filters split a sequence: their lengths add up. */
  lemma {:induction false} FilterComplement<T(!new)>(s: seq<T>, p: T -> bool, q: T -> bool)
    requires forall x :: x in s ==> (q(x) <==> !p(x))
    ensures |Filter(s, p)| + |Filter(s, q)| == |s|
  {
    if |s| > 0 {
      assert s[0] in s;
      assert forall x :: x in s[1..] ==> x in s;
      FilterComplement(s[1..], p, q);
    }
  }

  /** The 0/1 flag of `p` at every position of `s`. */
  function Indicator<T>(s: seq<T>, p: T -> bool): (f: seq<int>)
    ensures |f| == |s|
  {
    seq(|s|, j requires 0 <= j < |s| => if p(s[j]) then 1 else 0)
  }

  function Total(xs: seq<int>): int {
    if |xs| == 0 then 0 else xs[0] + Total(xs[1..])
  }

  /** Summing the flags counts the elements that pass the filter. */
  lemma {:induction false} IndicatorTotal<T(!new)>(s: seq<T>, p: T -> bool)
    ensures Total(Indicator(s, p)) == |Filter(s, p)|
  {
    if |s| > 0 {
      IndicatorTotal(s[1..], p);
      assert Indicator(s, p)[1..] == Indicator(s[1..], p);
    }
  }
}
