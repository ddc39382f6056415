/** `Util.topKIndices(probabilities, k)`: the indices of the `k` largest values
    of a tensor, largest first, equal values in ascending index order. The list
    of (value, index) pairs is built in flat-index order and then sorted by
    `Collections.sort`, a stable sort, with a comparator that puts larger values
    first. Java `double` values are modelled as reals. */
module TopKSelector {
  import opened Tensors

  /** `Pair.create(v, i)`: a value of the tensor and its flat index. */
  datatype Entry = Entry(value: real, index: int)

  /** The order a stable descending sort gives a list built in ascending index
      order: larger values first, equal values by ascending index. */
  predicate Before(p: Entry, q: Entry) {
    p.value > q.value || (p.value == q.value && p.index < q.index)
  }

  /** Every entry goes strictly before every later one. */
  predicate Ranked(s: seq<Entry>) {
    forall i, j :: 0 <= i < j < |s| ==> Before(s[i], s[j])
  }

  /** Indices strictly increase along the list, as they do in the list built
      by `probabilities.forEach`. */
  predicate IndexAscending(s: seq<Entry>) {
    forall i, j :: 0 <= i < j < |s| ==> s[i].index < s[j].index
  }

  /** The list of `Util.java` lines 119-123: every value paired with its flat index, in
      flat-index order. */
  function Entries(v: seq<real>): (r: seq<Entry>)
    ensures |r| == |v|
    ensures forall i :: 0 <= i < |v| ==> r[i] == Entry(v[i], i)
    ensures IndexAscending(r)
  {
    seq(|v|, i requires 0 <= i < |v| => Entry(v[i], i))
  }

  // ---------------------------------------------------------------------------
  // The stable descending sort of `Util.java` line 124
  // ---------------------------------------------------------------------------

  /** Inserts `e` into a list sorted by descending value, behind every entry
      whose value is at least its own: where a stable sort puts an entry that
      comes after all of them in the input. */
  function Insert(s: seq<Entry>, e: Entry): (r: seq<Entry>)
    ensures |r| == |s| + 1
    ensures multiset(r) == multiset(s) + multiset{e}
  {
    if s == [] || s[0].value < e.value then
      [e] + s
    else
      assert s == [s[0]] + s[1..];
      [s[0]] + Insert(s[1..], e)
  }

  /** `Collections.sort(list, (o1, o2) -> o2.first.compareTo(o1.first))`: a
      stable sort by descending value, written as an insertion sort. The result
      is a permutation of the input. Any stable sort gives the same list
      (lemma `RankedUnique`), so the model does not depend on the library's
      merge sort. */
  function SortByValueDescending(s: seq<Entry>): (r: seq<Entry>)
    ensures |r| == |s|
    ensures multiset(r) == multiset(s)
  {
    if s == [] then
      []
    else
      assert s == s[..|s| - 1] + [s[|s| - 1]];
      Insert(SortByValueDescending(s[..|s| - 1]), s[|s| - 1])
  }

  /** Inserting an entry whose index exceeds every index in a ranked list keeps
      it ranked. */
  lemma {:induction false} InsertRanked(s: seq<Entry>, e: Entry)
    requires Ranked(s)
    requires forall x :: x in s ==> x.index < e.index
    ensures Ranked(Insert(s, e))
  {
    if s == [] || s[0].value < e.value {
      var r := Insert(s, e);
      assert r == [e] + s;
      forall i, j | 0 <= i < j < |r| ensures Before(r[i], r[j]) {
        if i == 0 {
          assert r[j] == s[j - 1];
          assert j - 1 == 0 || Before(s[0], s[j - 1]);
        } else {
          assert r[i] == s[i - 1] && r[j] == s[j - 1];
        }
      }
    } else {
      var tail := Insert(s[1..], e);
      InsertRanked(s[1..], e);
      var r := [s[0]] + tail;
      assert r == Insert(s, e);
      forall i, j | 0 <= i < j < |r| ensures Before(r[i], r[j]) {
        if i == 0 {
          var x := tail[j - 1];
          assert x in multiset(tail);
          assert x == e || x in multiset(s[1..]);
          if x != e {
            var m :| 0 <= m < |s[1..]| && s[1..][m] == x;
            assert s[m + 1] == x;
          }
        } else {
          assert r[i] == tail[i - 1] && r[j] == tail[j - 1];
        }
      }
    }
  }

  /** Sorting a list built in ascending index order yields a ranked list:
      descending values, and equal values in ascending index order. */
  lemma {:induction false} SortRanked(s: seq<Entry>)
    requires IndexAscending(s)
    ensures Ranked(SortByValueDescending(s))
  {
    if s != [] {
      var init, last := s[..|s| - 1], s[|s| - 1];
      SortRanked(init);
      var sorted := SortByValueDescending(init);
      forall x | x in sorted ensures x.index < last.index {
        assert x in multiset(sorted);
        assert x in multiset(init);
        var m :| 0 <= m < |init| && init[m] == x;
        assert s[m] == x;
      }
      InsertRanked(sorted, last);
    }
  }

  /** A ranked permutation is unique: two ranked lists with the same entries are
      equal. So every stable descending sort of the list of `Util.java` lines 119-123,
      the library's merge sort included, yields the same list. */
  lemma {:induction false} RankedUnique(a: seq<Entry>, b: seq<Entry>)
    requires Ranked(a) && Ranked(b)
    requires multiset(a) == multiset(b)
    ensures a == b
  {
    if a != [] {
      SameHead(a, b);
      SameTail(a, b);
      RankedTail(a);
      RankedTail(b);
      RankedUnique(a[1..], b[1..]);
    }
  }

  /** Two ranked lists with the same entries start with the same entry. */
  lemma SameHead(a: seq<Entry>, b: seq<Entry>)
    requires Ranked(a) && Ranked(b) && a != []
    requires multiset(a) == multiset(b)
    ensures b != [] && a[0] == b[0]
  {
    assert |multiset(b)| == |a|;
    assert a[0] in multiset(b) && b[0] in multiset(a);
    RankedHead(b, a[0]);
    RankedHead(a, b[0]);
  }

  lemma SameTail(a: seq<Entry>, b: seq<Entry>)
    requires a != [] && b != [] && a[0] == b[0]
    requires multiset(a) == multiset(b)
    ensures multiset(a[1..]) == multiset(b[1..])
  {
    var x, a', b' := a[0], a[1..], b[1..];
    assert a == [x] + a' && b == [x] + b';
    assert multiset(a) == multiset{x} + multiset(a');
    assert multiset(b) == multiset{x} + multiset(b');
    assert multiset(a') == multiset(a) - multiset{x};
    assert multiset(b') == multiset(b) - multiset{x};
  }

  lemma RankedTail(s: seq<Entry>)
    requires Ranked(s) && s != []
    ensures Ranked(s[1..])
  {
    forall i, j | 0 <= i < j < |s| - 1 ensures Before(s[1..][i], s[1..][j]) {
      assert s[1..][i] == s[i + 1] && s[1..][j] == s[j + 1];
    }
  }

  /** The head of a ranked list goes before every other entry of it. */
  lemma RankedHead(s: seq<Entry>, x: Entry)
    requires Ranked(s) && x in s
    ensures x == s[0] || Before(s[0], x)
  {
    var m :| 0 <= m < |s| && s[m] == x;
  }

  // ---------------------------------------------------------------------------
  // The selection
  // ---------------------------------------------------------------------------

  /** The sorted list of `Util.java` lines 119-124. */
  function Ranking(v: seq<real>): (r: seq<Entry>)
    ensures |r| == |v|
    ensures forall i :: 0 <= i < |r| ==> 0 <= r[i].index < |v|
  {
    SortKeepsIndexBound(Entries(v), |v|);
    SortByValueDescending(Entries(v))
  }

  /** Sorting keeps every index below a bound that held before. */
  lemma SortKeepsIndexBound(s: seq<Entry>, n: int)
    requires forall i :: 0 <= i < |s| ==> 0 <= s[i].index < n
    ensures forall i :: 0 <= i < |s| ==> 0 <= SortByValueDescending(s)[i].index < n
  {
    var r := SortByValueDescending(s);
    forall i | 0 <= i < |s| ensures 0 <= r[i].index < n {
      assert r[i] in multiset(r);
      var m :| 0 <= m < |s| && s[m] == r[i];
    }
  }

  /** The first `k` indices of the sorted list: what `topKIndices` returns.
      Each is an index into the tensor. */
  function TopK(v: seq<real>, k: int): (r: seq<int>)
    requires 0 <= k <= |v|
    ensures |r| == k
    ensures forall i :: 0 <= i < k ==> 0 <= r[i] < |v|
  {
    seq(k, i requires 0 <= i < k => Ranking(v)[i].index)
  }

  /** The sorted list is ranked and holds every (value, index) pair of the
      tensor exactly once. */
  lemma RankingFacts(v: seq<real>)
    ensures Ranked(Ranking(v))
    ensures forall e :: e in Ranking(v) ==> 0 <= e.index < |v| && e.value == v[e.index]
    ensures forall j :: 0 <= j < |v| ==> Entry(v[j], j) in Ranking(v)
  {
    var es := Entries(v);
    SortRanked(es);
    forall e | e in Ranking(v) ensures 0 <= e.index < |v| && e.value == v[e.index] {
      assert e in multiset(Ranking(v));
      assert e in multiset(es);
      var m :| 0 <= m < |es| && es[m] == e;
    }
    forall j | 0 <= j < |v| ensures Entry(v[j], j) in Ranking(v) {
      assert es[j] == Entry(v[j], j);
      assert Entry(v[j], j) in multiset(es);
      assert Entry(v[j], j) in multiset(Ranking(v));
    }
  }

  /** No index is returned twice (each lies in the tensor by the contract of
      `TopK`). */
  lemma TopKDistinct(v: seq<real>, k: int)
    requires 0 <= k <= |v|
    ensures forall i, j :: 0 <= i < j < k ==> TopK(v, k)[i] != TopK(v, k)[j]
  {
    RankingFacts(v);
    var rk := Ranking(v);
    forall i, j | 0 <= i < j < k ensures TopK(v, k)[i] != TopK(v, k)[j] {
      assert rk[i] in rk && rk[j] in rk;
      assert Before(rk[i], rk[j]);
    }
  }

  /** The returned indices have non-increasing values, and indices of equal
      values come in ascending order. */
  lemma TopKOrdered(v: seq<real>, k: int)
    requires 0 <= k <= |v|
    ensures forall i, j :: 0 <= i < j < k ==> v[TopK(v, k)[i]] >= v[TopK(v, k)[j]]
    ensures forall i, j :: 0 <= i < j < k && v[TopK(v, k)[i]] == v[TopK(v, k)[j]] ==>
      TopK(v, k)[i] < TopK(v, k)[j]
  {
    RankingFacts(v);
    var rk := Ranking(v);
    forall i, j | 0 <= i < j < k
      ensures v[TopK(v, k)[i]] >= v[TopK(v, k)[j]]
      ensures v[TopK(v, k)[i]] == v[TopK(v, k)[j]] ==> TopK(v, k)[i] < TopK(v, k)[j]
    {
      assert rk[i] in rk && rk[j] in rk;
      assert Before(rk[i], rk[j]);
    }
  }

  /** The selection is a top-K: every index left out ranks behind every index
      returned (a smaller value, or an equal value and a larger index). */
  lemma TopKDominates(v: seq<real>, k: int)
    requires 0 <= k <= |v|
    ensures forall i, j :: 0 <= i < k && 0 <= j < |v| && j !in TopK(v, k) ==>
      Before(Entry(v[TopK(v, k)[i]], TopK(v, k)[i]), Entry(v[j], j))
  {
    forall i, j | 0 <= i < k && 0 <= j < |v| && j !in TopK(v, k)
      ensures Before(Entry(v[TopK(v, k)[i]], TopK(v, k)[i]), Entry(v[j], j))
    {
      SelectedBeforeUnselected(v, k, i, j);
    }
  }

  lemma SelectedBeforeUnselected(v: seq<real>, k: int, i: int, j: int)
    requires 0 <= i < k <= |v| && 0 <= j < |v| && j !in TopK(v, k)
    ensures 0 <= TopK(v, k)[i] < |v|
    ensures Before(Entry(v[TopK(v, k)[i]], TopK(v, k)[i]), Entry(v[j], j))
  {
    RankingFacts(v);
    var rk, r := Ranking(v), TopK(v, k);
    var p :| 0 <= p < |rk| && rk[p] == Entry(v[j], j);
    assert forall q :: 0 <= q < k ==> rk[q].index == r[q] && r[q] in r;
    assert rk[p].index == j;
    assert p >= k;
    assert rk[i] in rk;
    assert rk[i] == Entry(v[r[i]], r[i]);
  }

  /** When the values already come in non-increasing order, nothing moves: the
      result is 0, 1, ..., k-1. */
  lemma TopKOfNonIncreasing(v: seq<real>, k: int)
    requires 0 <= k <= |v|
    requires forall i, j :: 0 <= i < j < |v| ==> v[i] >= v[j]
    ensures TopK(v, k) == seq(k, i => i)
  {
    var es := Entries(v);
    RankingFacts(v);
    assert Ranked(es);
    RankedUnique(Ranking(v), es);
  }

  /** If all values are equal, the tie-break alone decides: 0, 1, ..., k-1. */
  lemma TopKAllEqual(v: seq<real>, k: int)
    requires 0 <= k <= |v|
    requires forall i :: 0 <= i < |v| ==> v[i] == v[0]
    ensures TopK(v, k) == seq(k, i => i)
  {
    TopKOfNonIncreasing(v, k);
  }

  /** `Util.topKIndices(probabilities, k)`. `k` must be at least 0 (`new
      int[k]`) and at most the element count (`list.get(i)`). */
  method TopKIndices(probabilities: Tensor, k: int) returns (index: array<int>)
    requires 0 <= k <= |probabilities.data|
    ensures fresh(index)
    ensures index[..] == TopK(probabilities.data, k)
  {
    var values := probabilities.data;
    var list: seq<Entry> := [];
    var i := 0;
    while i < |values|
      invariant 0 <= i <= |values|
      invariant list == Entries(values)[..i]
    {
      list := list + [Entry(values[i], i)];
      i := i + 1;
    }
    assert list == Entries(values);
    list := SortByValueDescending(list);
    index := new int[k];
    var j := 0;
    while j < k
      invariant 0 <= j <= k
      invariant forall m :: 0 <= m < j ==> index[m] == list[m].index
    {
      index[j] := list[j].index;
      j := j + 1;
    }
  }
}
