/** Small generic vocabulary shared by every component of the attendance
    front end: an optional value, the order-preserving `Array.prototype.filter`
    and the first-occurrence de-duplication performed by `Array.from(new Set(xs))`.
 */
module Common {

  /** A value that may be absent (JavaScript `undefined`/`null`). */
  datatype Option<+T> = None | Some(value: T) {

    /** The value, or `default` when absent (the `x ?? default` idiom). */
    function GetOr(default: T): T {
      match this
      case Some(v) => v
      case None => default
    }
  }

  /** The outcome of a step that either produces a value or stops with an
      error (the source's early `return` after an `alert`). */
  datatype Result<+T, +E> = Ok(value: T) | Err(error: E)

  /** Concatenation is associative. */
  lemma AppendAssoc<T>(a: seq<T>, b: seq<T>, c: seq<T>)
    ensures a + b + c == a + (b + c)
  {
  }

  /** A sequence of at least three elements is its first three elements and
      the rest. */
  lemma SplitThree<T>(m: seq<T>)
    requires |m| >= 3
    ensures m == [m[0]] + ([m[1]] + ([m[2]] + m[3..]))
  {
    assert m[2..] == [m[2]] + m[3..];
    assert m[1..] == [m[1]] + m[2..];
  }

  /** A non-empty sequence is its front followed by its last element. */
  lemma SplitLast<T>(xs: seq<T>)
    requires |xs| > 0
    ensures xs == xs[..|xs| - 1] + [xs[|xs| - 1]]
  {
  }

  /** A non-empty sequence is its first element followed by the rest. */
  lemma SplitFirst<T>(xs: seq<T>)
    requires |xs| > 0
    ensures xs == [xs[0]] + xs[1..]
  {
  }

  /** `xs.filter(p)`: the elements satisfying `p`, in their original order. */
  function Filter<T(!new)>(xs: seq<T>, p: T -> bool): (r: seq<T>)
    ensures |r| <= |xs|
    ensures forall x :: x in r <==> x in xs && p(x)
    ensures forall k :: 0 <= k < |r| ==> p(r[k])
  {
    if |xs| == 0 then []
    else if p(xs[0]) then [xs[0]] + Filter(xs[1..], p)
    else Filter(xs[1..], p)
  }

  /** Filtering distributes over concatenation: this is what makes the result
      keep the relative order of the input. */
  lemma {:induction false} FilterAppend<T(!new)>(a: seq<T>, b: seq<T>, p: T -> bool)
    ensures Filter(a + b, p) == Filter(a, p) + Filter(b, p)
    decreases |a|
  {
    if |a| == 0 {
      assert a + b == b;
    } else {
      assert (a + b)[1..] == a[1..] + b;
      FilterAppend(a[1..], b, p);
    }
  }

  /** A filter that rejects nothing returns its input unchanged. */
  lemma {:induction false} FilterKeepsAll<T(!new)>(xs: seq<T>, p: T -> bool)
    requires forall k :: 0 <= k < |xs| ==> p(xs[k])
    ensures Filter(xs, p) == xs
    decreases |xs|
  {
    if |xs| > 0 {
      FilterKeepsAll(xs[1..], p);
    }
  }

  /** Two filters applied one after the other commute. */
  lemma {:induction false} FilterCommute<T(!new)>(xs: seq<T>, p: T -> bool, q: T -> bool)
    ensures Filter(Filter(xs, p), q) == Filter(Filter(xs, q), p)
    decreases |xs|
  {
    if |xs| > 0 {
      FilterCommute(xs[1..], p, q);
    }
  }

  /** Number of elements of `xs` satisfying `p`. */
  function Count<T>(xs: seq<T>, p: T -> bool): nat
  {
    if |xs| == 0 then 0
    else (if p(xs[0]) then 1 else 0) + Count(xs[1..], p)
  }

  /** The filter keeps exactly as many elements as satisfy the predicate. */
  lemma {:induction false} FilterLength<T(!new)>(xs: seq<T>, p: T -> bool)
    ensures |Filter(xs, p)| == Count(xs, p)
    decreases |xs|
  {
    if |xs| > 0 {
      FilterLength(xs[1..], p);
    }
  }

  /** No element occurs twice. */
  predicate NoDups<T(==)>(xs: seq<T>) {
    forall i, j :: 0 <= i < j < |xs| ==> xs[i] != xs[j]
  }

  /** Index of the first occurrence of `x` in `xs`. */
  function FirstIndex<T(==)>(xs: seq<T>, x: T): (i: nat)
    requires x in xs
    ensures i < |xs| && xs[i] == x
    ensures forall j :: 0 <= j < i ==> xs[j] != x
  {
    if xs[0] == x then 0 else 1 + FirstIndex(xs[1..], x)
  }

  /** Appending an element does not move the first occurrence of anything
      already present. */
  lemma {:induction false} FirstIndexAppend<T>(xs: seq<T>, y: T, x: T)
    requires x in xs
    ensures FirstIndex(xs + [y], x) == FirstIndex(xs, x)
  {
    var i := FirstIndex(xs, x);
    var i' := FirstIndex(xs + [y], x);
    assert (xs + [y])[i] == x;
    assert i' <= i;
  }

  /** `Array.from(new Set(xs))`: every distinct element once, in the order of
      its first occurrence. */
  function Dedup<T(==,!new)>(xs: seq<T>): (r: seq<T>)
    ensures forall x :: x in r <==> x in xs
    ensures NoDups(r)
    ensures |r| <= |xs|
    decreases |xs|
  {
    if |xs| == 0 then []
    else
      var d := Dedup(xs[..|xs| - 1]);
      var last := xs[|xs| - 1];
      assert forall x :: x in xs <==> x in xs[..|xs| - 1] || x == last by {
        SplitLast(xs);
      }
      if last in d then d else d + [last]
  }

  /** The elements of `Dedup(xs)` appear in the order of their first
      occurrence in `xs`. */
  lemma {:induction false} DedupFirstOccurrenceOrder<T(!new)>(xs: seq<T>)
    ensures forall i, j :: 0 <= i < j < |Dedup(xs)| ==>
              FirstIndex(xs, Dedup(xs)[i]) < FirstIndex(xs, Dedup(xs)[j])
    decreases |xs|
  {
    if |xs| > 0 {
      var init := xs[..|xs| - 1];
      var last := xs[|xs| - 1];
      SplitLast(xs);
      DedupFirstOccurrenceOrder(init);
      var d := Dedup(init);
      forall x | x in init
        ensures FirstIndex(xs, x) == FirstIndex(init, x)
      {
        FirstIndexAppend(init, last, x);
      }
      if last !in d {
        assert last !in init;
        assert FirstIndex(xs, last) == |init|;
      }
    }
  }

  /** A sequence that already has no duplicates is its own de-duplication. */
  lemma {:induction false} DedupOfDistinct<T(!new)>(xs: seq<T>)
    requires NoDups(xs)
    ensures Dedup(xs) == xs
    decreases |xs|
  {
    if |xs| > 0 {
      var init := xs[..|xs| - 1];
      assert NoDups(init);
      DedupOfDistinct(init);
      assert xs[|xs| - 1] !in init;
      SplitLast(xs);
    }
  }
}
