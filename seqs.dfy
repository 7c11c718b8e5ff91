/** Order-preserving filtering of sequences, the model of a Python list
    comprehension `[x for x in s if f(x)]` and of a loop that appends the
    elements satisfying a condition. */
module Seqs {

  /** The elements of `s` satisfying `f`, in their original order. */
  function Filter<T(!new)>(f: T -> bool, s: seq<T>): (r: seq<T>)
    ensures |r| <= |s|
    ensures forall x :: x in r <==> x in s && f(x)
    decreases |s|
  {
    if s == [] then []
    else
      var init, last := s[..|s| - 1], s[|s| - 1];
      assert s == init + [last];
      Filter(f, init) + (if f(last) then [last] else [])
  }

  /** Each element satisfying `f` is kept as often as it occurs; the others
      are dropped. */
  lemma {:induction false} FilterCount<T(!new)>(f: T -> bool, s: seq<T>, x: T)
    ensures multiset(Filter(f, s))[x] == if f(x) then multiset(s)[x] else 0
    decreases |s|
  {
    if s != [] {
      var init, last := s[..|s| - 1], s[|s| - 1];
      assert s == init + [last];
      FilterCount(f, init, x);
    }
  }

  /** Filtering distributes over concatenation: the kept elements of `a`
      come first, in order, followed by those of `b`. */
  lemma {:induction false} FilterAppend<T(!new)>(f: T -> bool, a: seq<T>, b: seq<T>)
    ensures Filter(f, a + b) == Filter(f, a) + Filter(f, b)
    decreases |b|
  {
    if b == [] {
      assert a + b == a;
    } else {
      var init, last := b[..|b| - 1], b[|b| - 1];
      var keep := if f(last) then [last] else [];
      assert (a + b)[..|a + b| - 1] == a + init;
      assert (a + b)[|a + b| - 1] == last;
      calc {
        Filter(f, a + b);
        Filter(f, a + init) + keep;
        { FilterAppend(f, a, init); }
        Filter(f, a) + Filter(f, init) + keep;
        Filter(f, a) + (Filter(f, init) + keep);
        Filter(f, a) + Filter(f, b);
      }
    }
  }
}
