/**
  A stable sort of keyed items, standing for Go's `sort.SliceStable` with the two
  comparators the engine passes it: (rank, key text) for mapping pairs and the
  comparison string for sequence elements. Both compare an integer first and then a
  string, so one key type serves both.
 */
module StableSorting {
  import opened Text

  /** A comparison key: the rank decides first, the text breaks ties. */
  datatype SortKey = SortKey(rank: int, text: string)

  predicate KeyLess(a: SortKey, b: SortKey) {
    a.rank < b.rank || (a.rank == b.rank && Less(a.text, b.text))
  }

  lemma KeyLessIrreflexive(a: SortKey)
    ensures !KeyLess(a, a)
  {
    LessIrreflexive(a.text);
  }

  lemma KeyLessTransitive(a: SortKey, b: SortKey, c: SortKey)
    requires KeyLess(a, b) && KeyLess(b, c)
    ensures KeyLess(a, c)
  {
    if a.rank == b.rank == c.rank {
      LessTransitive(a.text, b.text, c.text);
    }
  }

  lemma KeyLessTotal(a: SortKey, b: SortKey)
    ensures a == b || KeyLess(a, b) || KeyLess(b, a)
  {
    LessTotal(a.text, b.text);
  }

  /** An item together with the key it is sorted by. */
  datatype Keyed<T> = Keyed(key: SortKey, item: T)

  /** No item is strictly smaller than one before it. */
  predicate Sorted<T>(s: seq<Keyed<T>>) {
    forall i, j :: 0 <= i < j < |s| ==> !KeyLess(s[j].key, s[i].key)
  }

  /** The items whose key is `k`, in their order in `s`. */
  function Filter<T>(s: seq<Keyed<T>>, k: SortKey): seq<Keyed<T>> {
    if s == [] then [] else (if s[0].key == k then [s[0]] else []) + Filter(s[1..], k)
  }

  lemma {:induction false} FilterIn<T>(s: seq<Keyed<T>>, k: SortKey, x: Keyed<T>)
    requires x in Filter(s, k)
    ensures x in s && x.key == k
  {
    if s[0] != x || s[0].key != k {
      FilterIn(s[1..], k, x);
    }
  }

  lemma {:induction false} FilterConcat<T>(a: seq<Keyed<T>>, b: seq<Keyed<T>>, k: SortKey)
    ensures Filter(a + b, k) == Filter(a, k) + Filter(b, k)
  {
    if a == [] {
      assert a + b == b;
    } else {
      assert (a + b)[1..] == a[1..] + b;
      FilterConcat(a[1..], b, k);
    }
  }

  lemma {:induction false} FilterNone<T>(s: seq<Keyed<T>>, k: SortKey)
    requires forall j :: 0 <= j < |s| ==> s[j].key != k
    ensures Filter(s, k) == []
  {
    if s != [] {
      FilterNone(s[1..], k);
    }
  }

  /**
    `r` is the stable sort of `s`: sorted, a permutation of `s`, and the items of any one
    key appear in `r` in the order they have in `s`.
   */
  ghost predicate IsStableSortOf<T>(r: seq<Keyed<T>>, s: seq<Keyed<T>>) {
    && Sorted(r)
    && multiset(r) == multiset(s)
    && forall k :: Filter(r, k) == Filter(s, k)
  }

  /** Inserts `x` after every item whose key is not greater than its own. */
  function Insert<T>(x: Keyed<T>, s: seq<Keyed<T>>): seq<Keyed<T>> {
    if s == [] || KeyLess(x.key, s[0].key) then [x] + s else [s[0]] + Insert(x, s[1..])
  }

  /** Insert adds `x` and keeps every other item. */
  lemma {:induction false} InsertMultiset<T>(x: Keyed<T>, s: seq<Keyed<T>>)
    ensures multiset(Insert(x, s)) == multiset(s) + multiset{x}
  {
    if s != [] && !KeyLess(x.key, s[0].key) {
      InsertMultiset(x, s[1..]);
      assert s == [s[0]] + s[1..];
    }
  }

  lemma {:induction false} InsertSorted<T>(x: Keyed<T>, s: seq<Keyed<T>>)
    requires Sorted(s)
    ensures Sorted(Insert(x, s))
  {
    var r := Insert(x, s);
    if s == [] {
    } else if KeyLess(x.key, s[0].key) {
      forall i | 0 < i < |r| ensures !KeyLess(r[i].key, x.key) {
        if KeyLess(r[i].key, x.key) {
          KeyLessTransitive(r[i].key, x.key, s[0].key);
          if i == 1 {
            KeyLessIrreflexive(s[0].key);
          }
        }
      }
    } else {
      var rest := Insert(x, s[1..]);
      InsertSorted(x, s[1..]);
      InsertMultiset(x, s[1..]);
      forall j | 0 <= j < |rest| ensures !KeyLess(rest[j].key, s[0].key) {
        var y := rest[j];
        assert y in multiset(rest);
        if y != x {
          assert y in s[1..];
          var m :| 0 <= m < |s[1..]| && s[1..][m] == y;
          assert s[m + 1] == y;
        }
      }
    }
  }

  /** Where Insert puts `x`: after the leading items whose key is not greater than its own. */
  function InsertionPoint<T>(x: Keyed<T>, s: seq<Keyed<T>>): (i: nat)
    ensures i <= |s|
  {
    if s == [] || KeyLess(x.key, s[0].key) then 0 else 1 + InsertionPoint(x, s[1..])
  }

  lemma {:induction false} InsertAt<T>(x: Keyed<T>, s: seq<Keyed<T>>)
    ensures Insert(x, s) == s[..InsertionPoint(x, s)] + [x] + s[InsertionPoint(x, s)..]
  {
    if s == [] || KeyLess(x.key, s[0].key) {
      assert s[..0] == [] && s[0..] == s;
    } else {
      var t := s[1..];
      var i := InsertionPoint(x, t);
      InsertAt(x, t);
      assert s[..i + 1] == [s[0]] + t[..i];
      assert s[i + 1..] == t[i..];
    }
  }

  lemma {:induction false} InsertionPointLess<T>(x: Keyed<T>, s: seq<Keyed<T>>)
    requires InsertionPoint(x, s) < |s|
    ensures KeyLess(x.key, s[InsertionPoint(x, s)].key)
  {
    if s != [] && !KeyLess(x.key, s[0].key) {
      InsertionPointLess(x, s[1..]);
    }
  }

  /** In a sorted sequence no item from the insertion point on shares the key of `x`. */
  lemma AfterInsertionPoint<T>(x: Keyed<T>, s: seq<Keyed<T>>)
    requires Sorted(s)
    ensures Filter(s[InsertionPoint(x, s)..], x.key) == []
  {
    var i := InsertionPoint(x, s);
    var t := s[i..];
    forall j | 0 <= j < |t| ensures t[j].key != x.key {
      InsertionPointLess(x, s);
      KeyLessIrreflexive(x.key);
      assert t[j] == s[i + j];
      assert j > 0 ==> !KeyLess(s[i + j].key, s[i].key);
    }
    FilterNone(t, x.key);
  }

  lemma InsertFilter<T>(x: Keyed<T>, s: seq<Keyed<T>>, k: SortKey)
    requires Sorted(s)
    ensures Filter(Insert(x, s), k) == Filter(s, k) + (if x.key == k then [x] else [])
  {
    AfterInsertionPoint(x, s);
    InsertFilterCombine(x, s, k);
  }

  /** InsertFilter, given that no item after the insertion point has the key of `x`. */
  lemma InsertFilterCombine<T>(x: Keyed<T>, s: seq<Keyed<T>>, k: SortKey)
    requires Filter(s[InsertionPoint(x, s)..], x.key) == []
    ensures Filter(Insert(x, s), k) == Filter(s, k) + (if x.key == k then [x] else [])
  {
    var i := InsertionPoint(x, s);
    var a, b := s[..i], s[i..];
    var fa, fb := Filter(a, k), Filter(b, k);
    assert Filter(Insert(x, s), k) == fa + (if x.key == k then [x] else []) + fb by {
      InsertFilterSplit(x, s, k);
    }
    assert Filter(s, k) == fa + fb by {
      FilterConcat(a, b, k);
      assert a + b == s;
    }
    if x.key == k {
      assert fa + [x] + fb == (fa + fb) + [x] by {
        assert fb == [];
        assert fa + [x] + [] == (fa + []) + [x];
      }
    } else {
      assert fa + [] + fb == (fa + fb) + [];
    }
  }

  lemma InsertFilterSplit<T>(x: Keyed<T>, s: seq<Keyed<T>>, k: SortKey)
    ensures var i := InsertionPoint(x, s);
      Filter(Insert(x, s), k) == Filter(s[..i], k) + (if x.key == k then [x] else []) + Filter(s[i..], k)
  {
    var i := InsertionPoint(x, s);
    var a, b := s[..i], s[i..];
    var fx := if x.key == k then [x] else [];
    InsertAt(x, s);
    FilterConcat(a + [x], b, k);
    FilterConcat(a, [x], k);
    FilterSingle(x, k);
  }

  lemma FilterSingle<T>(x: Keyed<T>, k: SortKey)
    ensures Filter([x], k) == (if x.key == k then [x] else [])
  {
    var fx := if x.key == k then [x] else [];
    assert [x][1..] == [];
    assert Filter([x], k) == fx + Filter([], k);
    assert fx + [] == fx;
  }

  lemma StableSortStep<T>(init: seq<Keyed<T>>, last: Keyed<T>, rest: seq<Keyed<T>>)
    requires IsStableSortOf(rest, init)
    ensures IsStableSortOf(Insert(last, rest), init + [last])
  {
    InsertSorted(last, rest);
    InsertMultiset(last, rest);
    forall k ensures Filter(Insert(last, rest), k) == Filter(init + [last], k) {
      InsertFilter(last, rest, k);
      FilterConcat(init, [last], k);
    }
  }

  /** Insertion sort, taking the items in order: a stable sort. */
  function StableSort<T>(s: seq<Keyed<T>>): (r: seq<Keyed<T>>)
    ensures IsStableSortOf(r, s)
  {
    if s == [] then []
    else
      var init, last := s[..|s| - 1], s[|s| - 1];
      var rest := StableSort(init);
      StableSortStep(init, last, rest);
      assert init + [last] == s;
      Insert(last, rest)
  }

  /** In a sorted sequence no item has a key below the first one's. */
  lemma SortedHeadIsLeast<T>(s: seq<Keyed<T>>, x: Keyed<T>)
    requires Sorted(s) && x in s
    ensures !KeyLess(x.key, s[0].key)
  {
    var j :| 0 <= j < |s| && s[j] == x;
    if j == 0 {
      KeyLessIrreflexive(x.key);
    }
  }

  lemma FilterTail<T>(a: seq<Keyed<T>>, b: seq<Keyed<T>>)
    requires a != [] && b != [] && a[0] == b[0]
    requires forall k :: Filter(a, k) == Filter(b, k)
    ensures forall k :: Filter(a[1..], k) == Filter(b[1..], k)
  {
    forall k ensures Filter(a[1..], k) == Filter(b[1..], k) {
      var h := if a[0].key == k then [a[0]] else [];
      calc {
        h + Filter(a[1..], k);
        Filter(a, k);
        Filter(b, k);
        h + Filter(b[1..], k);
      }
      assert Filter(a[1..], k) == (h + Filter(a[1..], k))[|h|..];
    }
  }

  /** Two sorted sequences that agree on the items of every key are equal. */
  lemma {:induction false} SortedFilterUnique<T>(a: seq<Keyed<T>>, b: seq<Keyed<T>>)
    requires Sorted(a) && Sorted(b)
    requires forall k :: Filter(a, k) == Filter(b, k)
    ensures a == b
  {
    FilterEmpty(a, b);
    if a != [] {
      SortedHeadsEqual(a, b);
      FilterTail(a, b);
      SortedFilterUnique(a[1..], b[1..]);
      assert a == [a[0]] + a[1..] && b == [b[0]] + b[1..];
    }
  }

  lemma FilterEmpty<T>(a: seq<Keyed<T>>, b: seq<Keyed<T>>)
    requires forall k :: Filter(a, k) == Filter(b, k)
    ensures a == [] <==> b == []
  {
    if a != [] {
      assert Filter(a, a[0].key) != [];
    }
    if b != [] {
      assert Filter(b, b[0].key) != [];
    }
  }

  /** Sorted sequences that agree on the items of every key start with the same item. */
  lemma SortedHeadsEqual<T>(a: seq<Keyed<T>>, b: seq<Keyed<T>>)
    requires Sorted(a) && Sorted(b) && a != [] && b != []
    requires forall k :: Filter(a, k) == Filter(b, k)
    ensures a[0] == b[0]
  {
    var ka, kb := a[0].key, b[0].key;
    assert Filter(a, ka)[0] == a[0];
    assert Filter(b, kb)[0] == b[0];
    FilterIn(b, ka, Filter(b, ka)[0]);
    FilterIn(a, kb, Filter(a, kb)[0]);
    SortedHeadIsLeast(b, Filter(b, ka)[0]);
    SortedHeadIsLeast(a, Filter(a, kb)[0]);
    KeyLessTotal(ka, kb);
  }

  /** Every stable sort of `s` is StableSort(s): the result does not depend on the algorithm. */
  lemma StableSortUnique<T>(r: seq<Keyed<T>>, s: seq<Keyed<T>>)
    requires IsStableSortOf(r, s)
    ensures r == StableSort(s)
  {
    SortedFilterUnique(r, StableSort(s));
  }

  /** A sorted sequence is its own stable sort. */
  lemma StableSortOfSorted<T>(s: seq<Keyed<T>>)
    requires Sorted(s)
    ensures StableSort(s) == s
  {
    StableSortUnique(s, s);
  }

  /** Sorting twice is sorting once. */
  lemma StableSortIdempotent<T>(s: seq<Keyed<T>>)
    ensures StableSort(StableSort(s)) == StableSort(s)
  {
    StableSortOfSorted(StableSort(s));
  }
  /** No two items share a key. */
  predicate DistinctKeys<T>(s: seq<Keyed<T>>) {
    forall i, j :: 0 <= i < j < |s| ==> s[i].key != s[j].key
  }

  /** With distinct keys the items of one key are just the one item that has it. */
  lemma FilterDistinctAt<T>(s: seq<Keyed<T>>, i: nat)
    requires DistinctKeys(s) && i < |s|
    ensures Filter(s, s[i].key) == [s[i]]
  {
    var k, pre, post := s[i].key, s[..i], s[i + 1..];
    assert s == pre + [s[i]] + post;
    FilterConcat(pre + [s[i]], post, k);
    FilterConcat(pre, [s[i]], k);
    forall j | 0 <= j < |pre| ensures pre[j].key != k {
      assert pre[j] == s[j];
    }
    forall j | 0 <= j < |post| ensures post[j].key != k {
      assert post[j] == s[i + 1 + j];
    }
    FilterNone(pre, k);
    FilterNone(post, k);
    FilterSingle(s[i], k);
  }

  /** Filtering keeps every copy of the items with the key and drops all others. */
  lemma {:induction false} FilterMultiset<T>(s: seq<Keyed<T>>, k: SortKey, x: Keyed<T>)
    ensures multiset(Filter(s, k))[x] == if x.key == k then multiset(s)[x] else 0
  {
    if s != [] {
      FilterMultiset(s[1..], k, x);
      assert s == [s[0]] + s[1..];
    }
  }

  lemma SameCounts<T>(a: seq<T>, b: seq<T>)
    requires forall x :: multiset(a)[x] == multiset(b)[x]
    ensures multiset(a) == multiset(b)
  {
  }

  /** A sequence whose multiset has exactly one item is that one item. */
  lemma SingletonMultiset<T>(s: seq<T>, x: T)
    requires multiset(s) == multiset{x}
    ensures s == [x]
  {
    assert |s| == 1;
    assert s[0] in multiset(s);
  }

  /**
    When no two items share a key, stability says nothing more: any sorted permutation
    is the stable sort.
   */
  lemma DistinctKeysStableSort<T>(r: seq<Keyed<T>>, s: seq<Keyed<T>>)
    requires Sorted(r) && multiset(r) == multiset(s) && DistinctKeys(r)
    ensures StableSort(s) == r
  {
    forall k ensures Filter(r, k) == Filter(s, k) {
      DistinctKeysFilter(r, s, k);
    }
    StableSortUnique(r, s);
  }

  lemma DistinctKeysFilter<T>(r: seq<Keyed<T>>, s: seq<Keyed<T>>, k: SortKey)
    requires multiset(r) == multiset(s) && DistinctKeys(r)
    ensures Filter(r, k) == Filter(s, k)
  {
    var fr, fs := Filter(r, k), Filter(s, k);
    forall x ensures multiset(fr)[x] == multiset(fs)[x] {
      FilterMultiset(r, k, x);
      FilterMultiset(s, k, x);
      assert multiset(r)[x] == multiset(s)[x];
    }
    SameCounts(fr, fs);
    if j :| 0 <= j < |r| && r[j].key == k {
      FilterDistinctAt(r, j);
      SingletonMultiset(fs, r[j]);
    } else {
      FilterNone(r, k);
      assert multiset(fs) == multiset{};
    }
  }
  /** Items whose keys strictly ascend from each to the next are sorted and share no key. */
  lemma AscendingKeys<T>(r: seq<Keyed<T>>)
    requires forall i :: 0 <= i < |r| - 1 ==> KeyLess(r[i].key, r[i + 1].key)
    ensures Sorted(r) && DistinctKeys(r)
  {
    forall i, j | 0 <= i < j < |r| ensures !KeyLess(r[j].key, r[i].key) && r[i].key != r[j].key {
      AscendingChain(r, i, j);
      KeyLessIrreflexive(r[i].key);
      if KeyLess(r[j].key, r[i].key) {
        KeyLessTransitive(r[i].key, r[j].key, r[i].key);
      }
    }
  }

  lemma {:induction false} AscendingChain<T>(r: seq<Keyed<T>>, i: nat, j: nat)
    requires forall i :: 0 <= i < |r| - 1 ==> KeyLess(r[i].key, r[i + 1].key)
    requires i < j < |r|
    ensures KeyLess(r[i].key, r[j].key)
    decreases j - i
  {
    if i + 1 < j {
      AscendingChain(r, i + 1, j);
      KeyLessTransitive(r[i].key, r[i + 1].key, r[j].key);
    }
  }
}
