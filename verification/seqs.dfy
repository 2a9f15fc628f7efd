/** Order-preserving selection over sequences: the list comprehension
    `[x for x in s if f(x)]`. */
module Seqs {

  /** Keeps the elements of `s` that satisfy `f`, in their original order. */
  function Filter<T(==,!new)>(s: seq<T>, f: T -> bool): (r: seq<T>)
    ensures |r| <= |s|
    ensures forall x :: x in r <==> x in s && f(x)
  {
    if s == [] then [] else (if f(s[0]) then [s[0]] else []) + Filter(s[1..], f)
  }

  /** Each selected element occurs as often as in the input; the others
      do not occur at all. */
  lemma {:induction false} FilterCount<T(!new)>(s: seq<T>, f: T -> bool)
    ensures forall x :: multiset(Filter(s, f))[x] == if f(x) then multiset(s)[x] else 0
  {
    if s != [] {
      assert s == [s[0]] + s[1..];
      FilterCount(s[1..], f);
    }
  }

  /** Filtering distributes over concatenation: the selected elements of an
      earlier part precede those of a later part, so catalog order is kept. */
  lemma {:induction false} FilterConcat<T(!new)>(a: seq<T>, b: seq<T>, f: T -> bool)
    ensures Filter(a + b, f) == Filter(a, f) + Filter(b, f)
  {
    if a == [] {
      assert a + b == b;
    } else {
      assert (a + b)[1..] == a[1..] + b;
      FilterConcat(a[1..], b, f);
    }
  }

  /** Replacing one element that qualifies by one that does not shortens
      the filtered sequence by exactly one. */
  lemma {:induction false} FilterUpdateDrop<T(!new)>(s: seq<T>, i: int, x: T, f: T -> bool)
    requires 0 <= i < |s| && f(s[i]) && !f(x)
    ensures |Filter(s[i := x], f)| + 1 == |Filter(s, f)|
    decreases i
  {
    var t := s[i := x];
    if i == 0 {
      assert t[1..] == s[1..];
    } else {
      assert t[1..] == s[1..][i - 1 := x];
      FilterUpdateDrop(s[1..], i - 1, x, f);
    }
  }

  /** When every element qualifies, filtering returns the sequence itself. */
  lemma {:induction false} FilterAll<T(!new)>(s: seq<T>, f: T -> bool)
    requires forall i :: 0 <= i < |s| ==> f(s[i])
    ensures Filter(s, f) == s
  {
    if s != [] {
      FilterAll(s[1..], f);
    }
  }
}
