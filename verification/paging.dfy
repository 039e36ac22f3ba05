/** Newest-first ordering and ten-per-page display shared by the attendance
    history page (`src/pages/ClassHistoryList.js`) and the student scan
    history (`src/components/FaceScanHistory.js`).

    Both pages sort with `Array.prototype.sort` and a comparator returning
    `b - a` on timestamps. That sort is stable, so it equals the insertion
    sort below, which places each record after every earlier record whose
    timestamp is not older. Timestamps are integers (milliseconds); how they
    are parsed from date strings is not modelled.
 */
module Paging {
  import opened Common

  /** `itemsPerPage`. */
  const PageSize: nat := 10

  /** Non-increasing by `key`: newest first. */
  predicate SortedDesc<T>(xs: seq<T>, key: T -> int) {
    forall i, j :: 0 <= i < j < |xs| ==> key(xs[i]) >= key(xs[j])
  }

  /** Where a record goes in a newest-first list: after every record that is
      at least as new. */
  function InsertAt<T>(s: seq<T>, x: T, key: T -> int): (i: nat)
    requires SortedDesc(s, key)
    ensures i <= |s|
    ensures forall k :: 0 <= k < i ==> key(s[k]) >= key(x)
    ensures forall k :: i <= k < |s| ==> key(s[k]) < key(x)
  {
    if |s| == 0 || key(s[0]) < key(x) then 0
    else 1 + InsertAt(s[1..], x, key)
  }

  /** Splitting a newest-first list at the insertion point and putting the
      record there keeps it newest first. */
  lemma InsertSorted<T>(s: seq<T>, x: T, key: T -> int)
    requires SortedDesc(s, key)
    ensures var i := InsertAt(s, x, key);
            SortedDesc(s[..i] + [x] + s[i..], key)
  {
    var i := InsertAt(s, x, key);
    var r := s[..i] + [x] + s[i..];
    InsertedAt(s, i, x);
    forall a, b | 0 <= a < b < |r|
      ensures key(r[a]) >= key(r[b])
    {
      if b < i {
      } else if b == i {
      } else if a < i {
        assert key(s[a]) >= key(s[b - 1]);
      } else if a == i {
      } else {
        assert key(s[a - 1]) >= key(s[b - 1]);
      }
    }
  }

  /** Where each element of `s[..i] + [x] + s[i..]` comes from. */
  lemma InsertedAt<T>(s: seq<T>, i: nat, x: T)
    requires i <= |s|
    ensures var r := s[..i] + [x] + s[i..];
            && |r| == |s| + 1
            && (forall k :: 0 <= k < i ==> r[k] == s[k])
            && r[i] == x
            && (forall k :: i < k < |r| ==> r[k] == s[k - 1])
  {
  }

  /** Inserting one record into a newest-first list. */
  function Insert<T>(s: seq<T>, x: T, key: T -> int): (r: seq<T>)
    requires SortedDesc(s, key)
    ensures SortedDesc(r, key)
    ensures multiset(r) == multiset(s) + multiset{x}
  {
    var i := InsertAt(s, x, key);
    InsertSorted(s, x, key);
    assert s == s[..i] + s[i..];
    s[..i] + [x] + s[i..]
  }

  /** `[...xs].sort((a, b) => key(b) - key(a))`: a sorted copy, newest
      first. */
  function SortDesc<T>(xs: seq<T>, key: T -> int): (r: seq<T>)
    ensures SortedDesc(r, key)
    ensures multiset(r) == multiset(xs)
    ensures |r| == |xs|
    decreases |xs|
  {
    if |xs| == 0 then []
    else
      var init, last := xs[..|xs| - 1], xs[|xs| - 1];
      SplitLast(xs);
      var r := Insert(SortDesc(init, key), last, key);
      assert |r| == |multiset(r)|;
      r
  }

  /** The records carrying timestamp `v`. */
  function KeyIs<T>(key: T -> int, v: int): T -> bool {
    (x: T) => key(x) == v
  }

  /** A filter nothing passes is empty. */
  lemma FilterNone<T(!new)>(xs: seq<T>, p: T -> bool)
    requires forall k :: 0 <= k < |xs| ==> !p(xs[k])
    ensures Filter(xs, p) == []
  {
  }

  /** Filtering a list split in three. */
  lemma FilterThree<T(!new)>(a: seq<T>, x: T, b: seq<T>, p: T -> bool)
    ensures Filter(a + [x] + b, p) == Filter(a, p) + Filter([x], p) + Filter(b, p)
  {
    FilterAppend(a + [x], b, p);
    FilterAppend(a, [x], p);
  }

  /** Past the insertion point no record has the inserted record's
      timestamp. */
  lemma NoneAfterInsertAt<T(!new)>(s: seq<T>, x: T, key: T -> int)
    requires SortedDesc(s, key)
    ensures Filter(s[InsertAt(s, x, key)..], KeyIs(key, key(x))) == []
  {
    var b := s[InsertAt(s, x, key)..];
    var p := KeyIs(key, key(x));
    forall k | 0 <= k < |b|
      ensures !p(b[k])
    {
      assert key(b[k]) < key(x);
    }
    FilterNone(b, p);
  }

  /** Inserting a record appends it to the records with its timestamp. */
  lemma InsertFilteredSame<T(!new)>(s: seq<T>, x: T, key: T -> int)
    requires SortedDesc(s, key)
    ensures Filter(Insert(s, x, key), KeyIs(key, key(x))) == Filter(s, KeyIs(key, key(x))) + [x]
  {
    var p := KeyIs(key, key(x));
    var i := InsertAt(s, x, key);
    var a, b := s[..i], s[i..];
    assert s == a + b;
    FilterThree(a, x, b, p);
    NoneAfterInsertAt(s, x, key);
    FilterAppend(a, b, p);
  }

  /** Inserting a record leaves the records with any other timestamp as they
      were. */
  lemma InsertFilteredOther<T(!new)>(s: seq<T>, x: T, key: T -> int, v: int)
    requires SortedDesc(s, key) && key(x) != v
    ensures Filter(Insert(s, x, key), KeyIs(key, v)) == Filter(s, KeyIs(key, v))
  {
    var p := KeyIs(key, v);
    var i := InsertAt(s, x, key);
    var a, b := s[..i], s[i..];
    assert s == a + b;
    FilterThree(a, x, b, p);
    FilterAppend(a, b, p);
  }

  /** Stability: records with equal timestamps keep their input order, i.e.
      for every timestamp the sorted list and the input list hold the same
      records with that timestamp in the same order. */
  lemma {:induction false} SortDescStable<T(!new)>(xs: seq<T>, key: T -> int, v: int)
    ensures Filter(SortDesc(xs, key), KeyIs(key, v)) == Filter(xs, KeyIs(key, v))
    decreases |xs|
  {
    if |xs| > 0 {
      var init, x := xs[..|xs| - 1], xs[|xs| - 1];
      SplitLast(xs);
      FilterAppend(init, [x], KeyIs(key, v));
      FilterOne(x, KeyIs(key, v));
      SortDescStable(init, key, v);
      SortDescStep(xs, key);
      if key(x) == v {
        InsertFilteredSame(SortDesc(init, key), x, key);
      } else {
        InsertFilteredOther(SortDesc(init, key), x, key, v);
      }
    }
  }

  /** Sorting a non-empty list inserts its last record into the sorted rest. */
  lemma SortDescStep<T>(xs: seq<T>, key: T -> int)
    requires |xs| > 0
    ensures SortedDesc(SortDesc(xs[..|xs| - 1], key), key)
    ensures SortDesc(xs, key) == Insert(SortDesc(xs[..|xs| - 1], key), xs[|xs| - 1], key)
  {
  }

  /** Filtering a single record. */
  lemma FilterOne<T(!new)>(x: T, p: T -> bool)
    ensures Filter([x], p) == if p(x) then [x] else []
  {
  }

  /** An already newest-first list is left as it is. */
  lemma {:induction false} SortDescOfSorted<T>(xs: seq<T>, key: T -> int)
    requires SortedDesc(xs, key)
    ensures SortDesc(xs, key) == xs
    decreases |xs|
  {
    if |xs| > 0 {
      var init, x := xs[..|xs| - 1], xs[|xs| - 1];
      assert SortedDesc(init, key);
      SortDescOfSorted(init, key);
      SortDescStep(xs, key);
      assert |init| == 0 || key(init[|init| - 1]) >= key(x);
      InsertAtEnd(init, x, key);
      SplitLast(xs);
    }
  }

  /** A record no newer than the last one of a newest-first list is
      appended. */
  lemma InsertAtEnd<T>(s: seq<T>, x: T, key: T -> int)
    requires SortedDesc(s, key)
    requires |s| == 0 || key(s[|s| - 1]) >= key(x)
    ensures Insert(s, x, key) == s + [x]
  {
    var i := InsertAt(s, x, key);
    assert i == |s|;
    assert s[..i] == s && s[i..] == [];
  }

  /** `Math.ceil(n / itemsPerPage)`. */
  function TotalPages(n: nat): (r: nat)
    ensures r * PageSize >= n
    ensures n > 0 ==> (r - 1) * PageSize < n
    ensures r == 0 <==> n == 0
  {
    (n + PageSize - 1) / PageSize
  }

  /** A `slice` bound for a list of length `n`: a bound within the list is
      kept, a negative one counts back from the end, and one beyond either end
      stops at that end. */
  function SliceBound(i: int, n: nat): (r: nat)
    ensures r <= n
    ensures 0 <= i <= n ==> r == i
    ensures i < 0 <= n + i ==> r + -i == n
    ensures i > n ==> r == n
    ensures n + i < 0 ==> r == 0
  {
    if i < 0 then (if n + i < 0 then 0 else n + i)
    else if i <= n then i
    else n
  }

  /** `r` is the run of `|r|` adjacent elements of `xs` starting at
      `from`. */
  ghost predicate WindowAt<T>(xs: seq<T>, r: seq<T>, from: int) {
    0 <= from <= |xs| - |r| && r == xs[from..from + |r|]
  }

  /** `xs.slice(start, end)`: always a run of adjacent elements of `xs`;
      with non-negative bounds, the elements from `start` to `end` clipped
      to the list; empty when the bounds cross. */
  function Slice<T>(xs: seq<T>, start: int, end: int): (r: seq<T>)
    ensures exists from :: WindowAt(xs, r, from)
    ensures 0 <= start <= end ==> r == xs[Min(start, |xs|)..Min(end, |xs|)]
    ensures SliceBound(end, |xs|) <= SliceBound(start, |xs|) ==> r == []
  {
    var from, to := SliceBound(start, |xs|), SliceBound(end, |xs|);
    if from < to then
      assert WindowAt(xs, xs[from..to], from);
      xs[from..to]
    else
      assert WindowAt(xs, [], 0);
      []
  }

  /** The smaller of two numbers. */
  function Min(a: int, b: int): int {
    if a <= b then a else b
  }

  /** Page `page` (counting from 1):
      `xs.slice((page - 1) * itemsPerPage, (page - 1) * itemsPerPage + itemsPerPage)`,
      which is the same slice as `xs.slice((page - 1) * itemsPerPage, page * itemsPerPage)`.
      It never has more than ten records, whatever the page number. */
  function Page<T>(xs: seq<T>, page: int): (r: seq<T>)
    ensures |r| <= PageSize
    ensures page >= 1 ==> r == xs[Min((page - 1) * PageSize, |xs|)..Min(page * PageSize, |xs|)]
  {
    var start := (page - 1) * PageSize;
    Slice(xs, start, start + PageSize)
  }

  /** Pages 1 through `count`, one after another. */
  function Pages<T>(xs: seq<T>, count: nat): seq<T> {
    if count == 0 then [] else Pages(xs, count - 1) + Page(xs, count)
  }

  /** The first `count` pages are the first `10 * count` records. */
  lemma {:induction false} PagesPrefix<T>(xs: seq<T>, count: nat)
    ensures Pages(xs, count) == xs[..Min(count * PageSize, |xs|)]
  {
    if count > 0 {
      PagesPrefix(xs, count - 1);
      var a, b := Min((count - 1) * PageSize, |xs|), Min(count * PageSize, |xs|);
      assert xs[..b] == xs[..a] + xs[a..b];
    }
  }

  /** Pages 1 to `TotalPages` show every record exactly once, in order. */
  lemma PagesCoverAll<T>(xs: seq<T>)
    ensures Pages(xs, TotalPages(|xs|)) == xs
  {
    PagesPrefix(xs, TotalPages(|xs|));
  }

  /** A page from 1 on has records exactly when it is at most
      `TotalPages`. */
  lemma PageNonEmpty<T>(xs: seq<T>, page: int)
    requires page >= 1
    ensures |Page(xs, page)| > 0 <==> page <= TotalPages(|xs|)
  {
  }

  /** A click on the "previous" or "next" button. */
  datatype Click = Previous | Next

  /** The page after a click, with the buttons disabled as both pages
      disable them: "previous" on page 1, "next" on the page equal to the
      page count. */
  function AfterClick(page: int, total: nat, click: Click): (r: int)
    ensures -1 <= r - page <= 1
    ensures click.Previous? ==> r <= page && (r == page <==> page == 1)
    ensures click.Next? ==> r >= page && (r == page <==> page == total)
  {
    match click
    case Previous => if page == 1 then page else page - 1
    case Next => if page == total then page else page + 1
  }

  /** With at least one page, clicking keeps the current page within
      `1..total`. The history table shows the buttons only when there are at
      least two pages. */
  lemma ClicksStayInRange(page: int, total: nat, click: Click)
    requires total >= 1 && 1 <= page <= total
    ensures 1 <= AfterClick(page, total, click) <= total
  {
  }
}
