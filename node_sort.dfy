/**
  The key ranker and the two node sorters of main.go: `rankSortType`,
  `sortMappingNodeKeys`, `nodeComparableString`, `firstFieldComparableValue` and
  `sortSequenceByFirstField`.
 */
module NodeSort {
  import opened Text
  import opened Yaml
  import opened StableSorting

  /** The keys that the "human" sort type puts first, in this order. */
  const HumanCommonOrder: seq<string> :=
    ["apiVersion", "kind", "metadata", "name", "namespace", "labels", "annotations", "id", "version"]

  /** The rank every key gets that the sort type does not single out. */
  const UnlistedRank: int := |HumanCommonOrder| + 1

  /**
    The first index of `key` in `list` at or after `i`, or `|list| + 1` when there is
    none: the loop over the listed keys in `rankSortType`.
   */
  function ListRank(list: seq<string>, key: string, i: nat): int
    requires i <= |list|
    decreases |list| - i
  {
    if i == |list| then |list| + 1
    else if list[i] == key then i
    else ListRank(list, key, i + 1)
  }

  /** ListRank finds `key` exactly when it is in `list` at or after `i`, and then at its index. */
  lemma {:induction false} ListRankFinds(list: seq<string>, key: string, i: nat)
    requires i <= |list|
    ensures ListRank(list, key, i) == |list| + 1 <==> key !in list[i..]
    ensures ListRank(list, key, i) != |list| + 1 ==>
      i <= ListRank(list, key, i) < |list| && list[ListRank(list, key, i)] == key
    decreases |list| - i
  {
    if i < |list| && list[i] != key {
      assert list[i..] == [list[i]] + list[i + 1..];
      ListRankFinds(list, key, i + 1);
    }
  }

  /**
    The rank of `key` under `sortType`: under "human" a listed key ranks by its place
    in the list and every other key ranks after all of them; under "alphanumeric" and
    any other sort type every key has the same rank.
   */
  function KeyRank(sortType: string, key: string): (r: int)
    ensures sortType != "human" ==> r == UnlistedRank
    ensures sortType == "human" && key !in HumanCommonOrder ==> r == UnlistedRank
    ensures sortType == "human" && key in HumanCommonOrder ==>
      0 <= r < |HumanCommonOrder| && HumanCommonOrder[r] == key
  {
    if sortType == "alphanumeric" then UnlistedRank
    else if sortType == "human" then
      ListRankFinds(HumanCommonOrder, key, 0);
      ListRank(HumanCommonOrder, key, 0)
    else UnlistedRank
  }

  /** Go's `rankSortType`, with its scan over the listed keys and its early return. */
  method RankSortType(sortType: string, key: string) returns (r: int)
    ensures r == KeyRank(sortType, key)
  {
    if sortType == "alphanumeric" {
      return |HumanCommonOrder| + 1;
    } else if sortType == "human" {
      r := FirstIndex(HumanCommonOrder, key);
      return;
    }
    return |HumanCommonOrder| + 1;
  }

  /** The loop of `rankSortType` over a list of keys: the index of the first match, or `|list| + 1`. */
  method FirstIndex(list: seq<string>, key: string) returns (r: int)
    ensures r == ListRank(list, key, 0)
  {
    var i := 0;
    while i < |list|
      invariant 0 <= i <= |list|
      invariant ListRank(list, key, i) == ListRank(list, key, 0)
    {
      if list[i] == key {
        return i;
      }
      i := i + 1;
    }
    return |list| + 1;
  }

  // ---------------------------------------------------------------------------
  // Mapping sorter

  /** A key node and its value node. */
  datatype Pair = Pair(k: Node, v: Node)

  /** The comparator of the mapping sort: the key's rank, then the key's text. */
  function PairKey(sortType: string, k: Node): SortKey {
    SortKey(KeyRank(sortType, k.value), k.value)
  }

  /** The key/value pairs of a mapping's content, each with its sort key. */
  function KeyedPairs(sortType: string, c: seq<Node>): (ps: seq<Keyed<Pair>>)
    requires |c| % 2 == 0
    ensures |ps| == |c| / 2
    ensures forall i :: 0 <= i < |ps| ==>
      ps[i] == Keyed(PairKey(sortType, c[2 * i]), Pair(c[2 * i], c[2 * i + 1]))
  {
    if c == [] then []
    else [Keyed(PairKey(sortType, c[0]), Pair(c[0], c[1]))] + KeyedPairs(sortType, c[2..])
  }

  /** The pairs laid out again as key, value, key, value, ... */
  function Flatten(ps: seq<Keyed<Pair>>): (c: seq<Node>)
    ensures |c| == 2 * |ps|
    ensures forall i :: 0 <= i < |ps| ==> c[2 * i] == ps[i].item.k && c[2 * i + 1] == ps[i].item.v
  {
    if ps == [] then [] else [ps[0].item.k, ps[0].item.v] + Flatten(ps[1..])
  }

  lemma KeyedPairsFlatten(sortType: string, ps: seq<Keyed<Pair>>)
    requires forall i :: 0 <= i < |ps| ==> ps[i].key == PairKey(sortType, ps[i].item.k)
    ensures KeyedPairs(sortType, Flatten(ps)) == ps
  {
    var c := Flatten(ps);
    var qs := KeyedPairs(sortType, c);
    forall i | 0 <= i < |ps| ensures qs[i] == ps[i] {
      assert qs[i].item == Pair(c[2 * i], c[2 * i + 1]);
    }
  }

  /**
    The mapping `n` with its key/value pairs stably sorted by (rank, key text); any
    other node as it is.
   */
  function SortedMapping(sortType: string, n: Node): (r: Node)
    requires n.kind == MappingNode ==> |n.content| % 2 == 0
    ensures r.kind == n.kind && r.value == n.value && |r.content| == |n.content|
    ensures n.kind != MappingNode ==> r == n
  {
    if n.kind != MappingNode then n
    else
      var sorted := StableSort(KeyedPairs(sortType, n.content));
      SortedPairsKeyed(sortType, n.content, sorted);
      KeyedPairsFlatten(sortType, sorted);
      n.(content := Flatten(sorted))
  }

  /** The pairs of the sorted mapping are the stable sort of the old pairs by (rank, key text). */
  lemma SortedMappingIsStableSort(sortType: string, n: Node)
    requires n.kind == MappingNode && |n.content| % 2 == 0
    ensures IsStableSortOf(KeyedPairs(sortType, SortedMapping(sortType, n).content), KeyedPairs(sortType, n.content))
  {
    var sorted := StableSort(KeyedPairs(sortType, n.content));
    SortedPairsKeyed(sortType, n.content, sorted);
    KeyedPairsFlatten(sortType, sorted);
  }

  /** A pair of KeyedPairs(c) holds two nodes of `c`, keyed by its key node. */
  lemma PairOfContent(sortType: string, c: seq<Node>, p: Keyed<Pair>)
    requires |c| % 2 == 0 && p in KeyedPairs(sortType, c)
    ensures p.key == PairKey(sortType, p.item.k) && p.item.k in c && p.item.v in c
  {
    var ps := KeyedPairs(sortType, c);
    var j :| 0 <= j < |ps| && ps[j] == p;
    assert p == Keyed(PairKey(sortType, c[2 * j]), Pair(c[2 * j], c[2 * j + 1]));
  }

  /** Every pair of a permutation of KeyedPairs(c) is keyed by its key node. */
  lemma SortedPairsKeyed(sortType: string, c: seq<Node>, sorted: seq<Keyed<Pair>>)
    requires |c| % 2 == 0 && multiset(sorted) == multiset(KeyedPairs(sortType, c))
    ensures forall i :: 0 <= i < |sorted| ==> sorted[i].key == PairKey(sortType, sorted[i].item.k)
  {
    forall i | 0 <= i < |sorted| ensures sorted[i].key == PairKey(sortType, sorted[i].item.k) {
      assert sorted[i] in multiset(KeyedPairs(sortType, c));
      PairOfContent(sortType, c, sorted[i]);
    }
  }

  /**
    Go's `sortMappingNodeKeys`: collect the pairs, sort them stably by (rank, key text),
    lay them out again as the new content. Non-mapping nodes are returned as they are.
   */
  method SortMappingNodeKeys(sortType: string, n: Node) returns (r: Node)
    requires n.kind == MappingNode ==> |n.content| % 2 == 0
    ensures r == SortedMapping(sortType, n)
  {
    if n.kind != MappingNode {
      return n;
    }
    var pairs := CollectPairs(sortType, n.content);
    var sorted := StableSort(pairs);
    var newContent := LayOutPairs(sorted);
    SortedMappingContent(sortType, n);
    r := n.(content := newContent);
  }

  /** The collecting loop of `sortMappingNodeKeys`: one keyed pair per two content nodes. */
  method CollectPairs(sortType: string, c: seq<Node>) returns (pairs: seq<Keyed<Pair>>)
    requires |c| % 2 == 0
    ensures pairs == KeyedPairs(sortType, c)
  {
    pairs := [];
    var i := 0;
    while i < |c|
      invariant 0 <= i <= |c| && i == 2 * |pairs|
      invariant forall m :: 0 <= m < |pairs| ==>
        pairs[m] == Keyed(PairKey(sortType, c[2 * m]), Pair(c[2 * m], c[2 * m + 1]))
    {
      pairs := pairs + [Keyed(PairKey(sortType, c[i]), Pair(c[i], c[i + 1]))];
      i := i + 2;
    }
    CollectedPairs(sortType, c, pairs);
  }

  /** The rebuilding loop of `sortMappingNodeKeys`: key, value, key, value, ... */
  method LayOutPairs(sorted: seq<Keyed<Pair>>) returns (c: seq<Node>)
    ensures c == Flatten(sorted)
  {
    c := [];
    var j := 0;
    while j < |sorted|
      invariant 0 <= j <= |sorted|
      invariant |c| == 2 * j
      invariant forall m :: 0 <= m < j ==> c[2 * m] == sorted[m].item.k && c[2 * m + 1] == sorted[m].item.v
    {
      c := c + [sorted[j].item.k, sorted[j].item.v];
      j := j + 1;
    }
    LaidOutPairs(sorted, c);
  }

  lemma SortedMappingContent(sortType: string, n: Node)
    requires n.kind == MappingNode && |n.content| % 2 == 0
    ensures SortedMapping(sortType, n) == n.(content := Flatten(StableSort(KeyedPairs(sortType, n.content))))
  {
  }

  lemma CollectedPairs(sortType: string, c: seq<Node>, pairs: seq<Keyed<Pair>>)
    requires |c| % 2 == 0 && |c| == 2 * |pairs|
    requires forall m :: 0 <= m < |pairs| ==>
      pairs[m] == Keyed(PairKey(sortType, c[2 * m]), Pair(c[2 * m], c[2 * m + 1]))
    ensures pairs == KeyedPairs(sortType, c)
  {
  }

  lemma LaidOutPairs(ps: seq<Keyed<Pair>>, c: seq<Node>)
    requires |c| == 2 * |ps|
    requires forall m :: 0 <= m < |ps| ==> c[2 * m] == ps[m].item.k && c[2 * m + 1] == ps[m].item.v
    ensures c == Flatten(ps)
  {
    var f := Flatten(ps);
    forall k | 0 <= k < |c| ensures c[k] == f[k] {
      var m := HalfIndex(k);
      assert c[2 * m] == ps[m].item.k && c[2 * m + 1] == ps[m].item.v;
      assert f[2 * m] == ps[m].item.k && f[2 * m + 1] == ps[m].item.v;
    }
  }

  /** After the mapping sort the pairs ascend by rank and, within a rank, by key text. */
  lemma SortedMappingOrder(sortType: string, n: Node)
    requires n.kind == MappingNode && |n.content| % 2 == 0
    ensures var c := SortedMapping(sortType, n).content;
      forall i, j :: 0 <= i < j < |c| / 2 ==>
        var ri, rj := KeyRank(sortType, KeyText(c, i)), KeyRank(sortType, KeyText(c, j));
        ri < rj || (ri == rj && !Less(KeyText(c, j), KeyText(c, i)))
  {
    var c := SortedMapping(sortType, n).content;
    var ps := KeyedPairs(sortType, c);
    SortedMappingIsStableSort(sortType, n);
    forall i, j | 0 <= i < j < |c| / 2
      ensures var ri, rj := KeyRank(sortType, KeyText(c, i)), KeyRank(sortType, KeyText(c, j));
        ri < rj || (ri == rj && !Less(KeyText(c, j), KeyText(c, i)))
    {
      assert !KeyLess(ps[j].key, ps[i].key);
    }
  }

  /** With any sort type but "human" the keys end up in plain lexicographic order. */
  lemma AlphanumericOrder(sortType: string, n: Node)
    requires sortType != "human"
    requires n.kind == MappingNode && |n.content| % 2 == 0
    ensures var c := SortedMapping(sortType, n).content;
      forall i, j :: 0 <= i < j < |c| / 2 ==> !Less(KeyText(c, j), KeyText(c, i))
  {
    SortedMappingOrder(sortType, n);
  }

  /**
    With "human" every listed key comes before every unlisted key, and listed keys
    appear in the order of the list.
   */
  lemma HumanOrder(n: Node)
    requires n.kind == MappingNode && |n.content| % 2 == 0
    ensures var c := SortedMapping("human", n).content;
      forall i, j :: 0 <= i < j < |c| / 2 && KeyText(c, j) in HumanCommonOrder ==>
        && KeyText(c, i) in HumanCommonOrder
        && KeyRank("human", KeyText(c, i)) <= KeyRank("human", KeyText(c, j))
  {
    SortedMappingOrder("human", n);
  }

  /** Sorting a mapping's keys twice is sorting them once. */
  lemma SortedMappingIdempotent(sortType: string, n: Node)
    requires n.kind == MappingNode ==> |n.content| % 2 == 0
    ensures SortedMapping(sortType, SortedMapping(sortType, n)) == SortedMapping(sortType, n)
  {
    if n.kind == MappingNode {
      var r := SortedMapping(sortType, n);
      var ps := KeyedPairs(sortType, r.content);
      SortedMappingIsStableSort(sortType, n);
      SortedMappingIsStableSort(sortType, r);
      StableSortOfSorted(ps);
      var r2 := SortedMapping(sortType, r);
      SortedFilterUnique(KeyedPairs(sortType, r2.content), ps);
      KeyedPairsInjective(sortType, r2.content, r.content);
    }
  }

  lemma HalfIndex(i: nat) returns (m: nat)
    ensures i == 2 * m || i == 2 * m + 1
  {
    m := i / 2;
  }

  lemma KeyedPairsInjective(sortType: string, a: seq<Node>, b: seq<Node>)
    requires |a| % 2 == 0 && |b| % 2 == 0
    requires KeyedPairs(sortType, a) == KeyedPairs(sortType, b)
    ensures a == b
  {
    var ps := KeyedPairs(sortType, a);
    forall i | 0 <= i < |a| ensures a[i] == b[i] {
      var m := HalfIndex(i);
      assert ps[m].item == Pair(a[2 * m], a[2 * m + 1]) == Pair(b[2 * m], b[2 * m + 1]);
    }
  }

  /** The nodes of the sorted content are those of the old content. */
  lemma SortedMappingNodes(sortType: string, n: Node, x: Node)
    requires n.kind == MappingNode && |n.content| % 2 == 0
    requires x in SortedMapping(sortType, n).content
    ensures x in n.content
  {
    var c := SortedMapping(sortType, n).content;
    var ps := KeyedPairs(sortType, c);
    var i :| 0 <= i < |c| && c[i] == x;
    var m := HalfIndex(i);
    var p := ps[m];
    assert x == p.item.k || x == p.item.v;
    assert p in KeyedPairs(sortType, n.content) by {
      SortedMappingIsStableSort(sortType, n);
      assert p in multiset(ps);
    }
    PairOfContent(sortType, n.content, p);
  }

  lemma SortedMappingWellFormed(sortType: string, n: Node)
    requires WellFormed(n)
    ensures WellFormed(SortedMapping(sortType, n))
  {
    if n.kind == MappingNode {
      var r := SortedMapping(sortType, n);
      forall i | 0 <= i < |r.content| ensures WellFormed(r.content[i]) {
        SortedMappingNodes(sortType, n, r.content[i]);
      }
    }
  }

  // ---------------------------------------------------------------------------
  // Comparison strings

  /**
    Go's `nodeComparableString`: a scalar is its text, a mapping `{k:v,...}`, a
    sequence `[v,...]`, every other kind the empty string.
   */
  function Render(n: Node): string
    requires WellFormed(n)
    decreases n, 1
  {
    match n.kind
    case ScalarNode => n.value
    case MappingNode => "{" + RenderPairs(n, 0) + "}"
    case SequenceNode => "[" + RenderItems(n, 0) + "]"
    case _ => ""
  }

  /** The builder loop over a mapping's pairs from content index `i` on. */
  function RenderPairs(n: Node, i: nat): string
    requires WellFormed(n) && n.kind == MappingNode && i % 2 == 0
    decreases n, 0, |n.content| - i
  {
    if i >= |n.content| then ""
    else
      (if i > 0 then "," else "") + n.content[i].value + ":" + Render(n.content[i + 1])
      + RenderPairs(n, i + 2)
  }

  /** The builder loop over a sequence's elements from index `i` on. */
  function RenderItems(n: Node, i: nat): string
    requires WellFormed(n)
    decreases n, 0, |n.content| - i
  {
    if i >= |n.content| then ""
    else (if i > 0 then "," else "") + Render(n.content[i]) + RenderItems(n, i + 1)
  }

  /** Go's `nodeComparableString`, recursing into the children through the builder loops. */
  method NodeComparableString(n: Node) returns (s: string)
    requires WellFormed(n)
    ensures s == Render(n)
    decreases n, 1
  {
    match n.kind
    case ScalarNode =>
      s := n.value;
    case MappingNode =>
      var b := BuildPairs(n);
      s := "{" + b + "}";
    case SequenceNode =>
      var b := BuildItems(n);
      s := "[" + b + "]";
    case _ =>
      s := "";
  }

  /** The builder loop of `nodeComparableString` over a mapping's pairs. */
  method BuildPairs(n: Node) returns (b: string)
    requires WellFormed(n) && n.kind == MappingNode
    ensures b == RenderPairs(n, 0)
    decreases n, 0
  {
    b := "";
    var i := 0;
    while i < |n.content|
      invariant 0 <= i <= |n.content| && i % 2 == 0
      invariant b + RenderPairs(n, i) == RenderPairs(n, 0)
      decreases |n.content| - i
    {
      var sep := if i > 0 then "," else "";
      var v := NodeComparableString(n.content[i + 1]);
      assert RenderPairs(n, i) == sep + n.content[i].value + ":" + v + RenderPairs(n, i + 2);
      b := b + sep + n.content[i].value + ":" + v;
      i := i + 2;
    }
  }

  /** The builder loop of `nodeComparableString` over a sequence's elements. */
  method BuildItems(n: Node) returns (b: string)
    requires WellFormed(n)
    ensures b == RenderItems(n, 0)
    decreases n, 0
  {
    b := "";
    var i := 0;
    while i < |n.content|
      invariant 0 <= i <= |n.content|
      invariant b + RenderItems(n, i) == RenderItems(n, 0)
      decreases |n.content| - i
    {
      var sep := if i > 0 then "," else "";
      var v := NodeComparableString(n.content[i]);
      assert RenderItems(n, i) == sep + v + RenderItems(n, i + 1);
      b := b + sep + v;
      i := i + 1;
    }
  }

  /** The parts with a comma between each two. */
  function CommaJoin(parts: seq<string>): string {
    if parts == [] then "" else Join(parts, ',')
  }

  /** The parts, each with a comma in front. */
  function CommaEach(parts: seq<string>): string {
    if parts == [] then "" else "," + parts[0] + CommaEach(parts[1..])
  }

  lemma {:induction false} JoinIsHeadThenCommaEach(parts: seq<string>)
    requires parts != []
    ensures Join(parts, ',') == parts[0] + CommaEach(parts[1..])
  {
    if |parts| > 1 {
      JoinIsHeadThenCommaEach(parts[1..]);
      assert parts[1..][1..] == parts[2..];
    }
  }

  /** `k:v` for every pair of a mapping, the text of its rendering between the braces. */
  function PairTexts(n: Node): (ts: seq<string>)
    requires WellFormed(n) && n.kind == MappingNode
    ensures |ts| == |n.content| / 2
  {
    seq(|n.content| / 2, j requires 0 <= j < |n.content| / 2 =>
      n.content[2 * j].value + ":" + Render(n.content[2 * j + 1]))
  }

  /** The rendering of every element of a sequence. */
  function ItemTexts(n: Node): (ts: seq<string>)
    requires WellFormed(n)
    ensures |ts| == |n.content|
  {
    seq(|n.content|, j requires 0 <= j < |n.content| => Render(n.content[j]))
  }

  lemma {:induction false} RenderPairsTail(n: Node, i: nat)
    requires WellFormed(n) && n.kind == MappingNode && i % 2 == 0 && 0 < i <= |n.content|
    ensures RenderPairs(n, i) == CommaEach(PairTexts(n)[i / 2..])
    decreases |n.content| - i
  {
    var ts := PairTexts(n);
    if i < |n.content| {
      RenderPairsTail(n, i + 2);
      RenderPairsStep(n, i);
      assert ts[i / 2..][1..] == ts[(i + 2) / 2..];
    }
  }

  lemma RenderPairsStep(n: Node, i: nat)
    requires WellFormed(n) && n.kind == MappingNode && i % 2 == 0 && 0 < i < |n.content|
    ensures RenderPairs(n, i) == "," + PairTexts(n)[i / 2] + RenderPairs(n, i + 2)
  {
    var k, v := n.content[i].value, Render(n.content[i + 1]);
    assert RenderPairs(n, i) == "," + k + ":" + v + RenderPairs(n, i + 2);
    assert PairTexts(n)[i / 2] == k + ":" + v;
    assert "," + k + ":" + v + RenderPairs(n, i + 2) == "," + (k + ":" + v) + RenderPairs(n, i + 2);
  }

  lemma {:induction false} RenderItemsTail(n: Node, i: nat)
    requires WellFormed(n) && 0 < i <= |n.content|
    ensures RenderItems(n, i) == CommaEach(ItemTexts(n)[i..])
    decreases |n.content| - i
  {
    var ts := ItemTexts(n);
    if i < |n.content| {
      RenderItemsTail(n, i + 1);
      assert ts[i..][1..] == ts[i + 1..];
    }
  }

  /** A mapping renders as `{`, its `k:v` texts joined by commas, `}`. */
  lemma RenderMapping(n: Node)
    requires WellFormed(n) && n.kind == MappingNode
    ensures Render(n) == "{" + CommaJoin(PairTexts(n)) + "}"
  {
    var ts := PairTexts(n);
    if |n.content| > 0 {
      assert RenderPairs(n, 0) == Join(ts, ',') by {
        RenderPairsHead(n);
        RenderPairsTail(n, 2);
        JoinIsHeadThenCommaEach(ts);
        assert ts[1..] == ts[2 / 2..];
      }
    }
  }

  lemma RenderPairsHead(n: Node)
    requires WellFormed(n) && n.kind == MappingNode && |n.content| > 0
    ensures RenderPairs(n, 0) == PairTexts(n)[0] + RenderPairs(n, 2)
  {
    var k, v := n.content[0].value, Render(n.content[1]);
    assert RenderPairs(n, 0) == "" + k + ":" + v + RenderPairs(n, 2);
    assert PairTexts(n)[0] == k + ":" + v;
    assert "" + k + ":" + v + RenderPairs(n, 2) == (k + ":" + v) + RenderPairs(n, 2);
  }

  /** A sequence renders as `[`, its elements' renderings joined by commas, `]`. */
  lemma RenderSequence(n: Node)
    requires WellFormed(n) && n.kind == SequenceNode
    ensures Render(n) == "[" + CommaJoin(ItemTexts(n)) + "]"
  {
    var ts := ItemTexts(n);
    if |n.content| > 0 {
      RenderItemsTail(n, 1);
      JoinIsHeadThenCommaEach(ts);
    }
  }

  /**
    Go's `firstFieldComparableValue`: for a mapping with at least one pair, the
    rendering of its first value; for any other element, the rendering of the element.
   */
  function FirstFieldComparableValue(el: Node): string
    requires WellFormed(el)
  {
    if el.kind == MappingNode && |el.content| >= 2 then Render(el.content[1]) else Render(el)
  }

  /**
    Where the comparison string sits in the element's own rendering: for a mapping with
    pairs it is the text between its first key's `:` and the remaining pairs; an empty
    mapping compares as `{}`; any other element compares by its whole rendering.
   */
  lemma FirstFieldInRendering(el: Node)
    requires WellFormed(el)
    ensures el.kind == MappingNode && |el.content| >= 2 ==>
      Render(el) == "{" + el.content[0].value + ":" + FirstFieldComparableValue(el) + RenderPairs(el, 2) + "}"
    ensures el.kind == MappingNode && |el.content| < 2 ==> FirstFieldComparableValue(el) == "{}"
    ensures el.kind != MappingNode ==> FirstFieldComparableValue(el) == Render(el)
  {
    if el.kind == MappingNode && |el.content| >= 2 {
      var k, v := el.content[0].value, Render(el.content[1]);
      assert RenderPairs(el, 0) == "" + k + ":" + v + RenderPairs(el, 2);
      assert "{" + ("" + k + ":" + v + RenderPairs(el, 2)) + "}" == "{" + k + ":" + v + RenderPairs(el, 2) + "}";
    } else if el.kind == MappingNode {
      assert RenderPairs(el, 0) == "";
    }
  }

  /**
    The sequence sort compares mappings by their first value alone: two mappings with
    pairs whose first values are equal get the same sort key, whatever their keys and
    their other pairs.
   */
  lemma ItemKeyFirstValueOnly(a: Node, b: Node)
    requires WellFormed(a) && WellFormed(b) && a.kind == MappingNode && b.kind == MappingNode
    requires |a.content| >= 2 && |b.content| >= 2 && a.content[1] == b.content[1]
    ensures ItemKey(a) == ItemKey(b)
  {
  }

  // ---------------------------------------------------------------------------
  // Sequence sorter

  /** The comparator of the sequence sort: only the comparison string counts. */
  function ItemKey(el: Node): SortKey
    requires WellFormed(el)
  {
    SortKey(0, FirstFieldComparableValue(el))
  }

  function KeyedItems(c: seq<Node>): (ps: seq<Keyed<Node>>)
    requires forall i :: 0 <= i < |c| ==> WellFormed(c[i])
    ensures |ps| == |c|
    ensures forall i :: 0 <= i < |c| ==> ps[i] == Keyed(ItemKey(c[i]), c[i])
  {
    seq(|c|, i requires 0 <= i < |c| => Keyed(ItemKey(c[i]), c[i]))
  }

  function Items(ps: seq<Keyed<Node>>): (c: seq<Node>)
    ensures |c| == |ps|
    ensures forall i :: 0 <= i < |ps| ==> c[i] == ps[i].item
  {
    seq(|ps|, i requires 0 <= i < |ps| => ps[i].item)
  }

  /**
    The sequence `n` with its elements stably sorted by their comparison strings; any
    other node as it is.
   */
  function SortedSequence(n: Node): (r: Node)
    requires WellFormed(n)
    ensures r.kind == n.kind && r.value == n.value && |r.content| == |n.content|
    ensures n.kind != SequenceNode ==> r == n
    ensures WellFormed(r)
  {
    if n.kind != SequenceNode then n
    else
      var sorted := StableSort(KeyedItems(n.content));
      SortedItemsFacts(n.content, sorted);
      n.(content := Items(sorted))
  }

  /**
    The sorted sequence holds the same elements, and keyed by their comparison strings
    they are the stable sort of the old elements.
   */
  lemma SortedSequenceIsStableSort(n: Node)
    requires WellFormed(n) && n.kind == SequenceNode
    ensures multiset(SortedSequence(n).content) == multiset(n.content)
    ensures IsStableSortOf(KeyedItems(SortedSequence(n).content), KeyedItems(n.content))
  {
    SortedItemsFacts(n.content, StableSort(KeyedItems(n.content)));
  }

  lemma SortedItemsFacts(c: seq<Node>, sorted: seq<Keyed<Node>>)
    requires forall i :: 0 <= i < |c| ==> WellFormed(c[i])
    requires IsStableSortOf(sorted, KeyedItems(c))
    ensures forall i :: 0 <= i < |sorted| ==> WellFormed(Items(sorted)[i])
    ensures KeyedItems(Items(sorted)) == sorted
    ensures multiset(Items(sorted)) == multiset(c)
    ensures |sorted| == |c|
  {
    var ps := KeyedItems(c);
    forall i | 0 <= i < |sorted|
      ensures sorted[i].item in c && sorted[i].key == ItemKey(sorted[i].item)
    {
      assert sorted[i] in multiset(ps);
    }
    assert KeyedItems(Items(sorted)) == sorted;
    ItemsMultiset(sorted, ps);
    assert Items(ps) == c;
    assert |multiset(sorted)| == |multiset(ps)|;
  }

  lemma RemoveAt<T>(b: seq<T>, j: nat)
    requires j < |b|
    ensures multiset(b) == multiset(b[..j] + b[j + 1..]) + multiset{b[j]}
  {
    assert b == b[..j] + [b[j]] + b[j + 1..];
  }

  lemma ItemsRemoveAt(b: seq<Keyed<Node>>, j: nat)
    requires j < |b|
    ensures multiset(Items(b)) == multiset(Items(b[..j] + b[j + 1..])) + multiset{b[j].item}
  {
    var ib := Items(b);
    RemoveAt(ib, j);
    assert ib == ib[..j] + [ib[j]] + ib[j + 1..];
    assert Items(b[..j] + b[j + 1..]) == ib[..j] + ib[j + 1..];
  }

  lemma ItemsHead(a: seq<Keyed<Node>>)
    requires a != []
    ensures multiset(Items(a)) == multiset(Items(a[1..])) + multiset{a[0].item}
  {
    assert Items(a) == [a[0].item] + Items(a[1..]);
  }

  lemma TailPermutation(a: seq<Keyed<Node>>, b: seq<Keyed<Node>>, j: nat)
    requires a != [] && j < |b| && b[j] == a[0] && multiset(a) == multiset(b)
    ensures multiset(a[1..]) == multiset(b[..j] + b[j + 1..])
  {
    var x := a[0];
    RemoveAt(b, j);
    RemoveAt(a, 0);
    assert a[..0] + a[1..] == a[1..];
    var ma, mb := multiset(a[1..]), multiset(b[..j] + b[j + 1..]);
    assert ma + multiset{x} == mb + multiset{x};
    assert ma == (ma + multiset{x}) - multiset{x};
    assert mb == (mb + multiset{x}) - multiset{x};
  }

  lemma {:induction false} ItemsMultiset(a: seq<Keyed<Node>>, b: seq<Keyed<Node>>)
    requires multiset(a) == multiset(b)
    ensures multiset(Items(a)) == multiset(Items(b))
    decreases |a|
  {
    if a == [] {
      assert |multiset(b)| == 0;
    } else {
      assert a[0] in multiset(b);
      var j :| 0 <= j < |b| && b[j] == a[0];
      var a', b' := a[1..], b[..j] + b[j + 1..];
      TailPermutation(a, b, j);
      ItemsMultiset(a', b');
      ItemsRemoveAt(b, j);
      ItemsHead(a);
    }
  }

  /**
    Go's `sortSequenceByFirstField`: pair every element with its comparison string,
    sort stably, write the elements back in the new order. Non-sequence nodes are
    returned as they are.
   */
  method SortSequenceByFirstField(n: Node) returns (r: Node)
    requires WellFormed(n)
    ensures r == SortedSequence(n)
  {
    if n.kind != SequenceNode {
      return n;
    }
    var items := CollectItems(n.content);
    var sorted := StableSort(items);
    SortedItemsFacts(n.content, sorted);
    var content := WriteBackItems(n.content, sorted);
    r := n.(content := content);
  }

  /** The collecting loop of `sortSequenceByFirstField`: each element with its comparison string. */
  method CollectItems(c: seq<Node>) returns (items: seq<Keyed<Node>>)
    requires forall i :: 0 <= i < |c| ==> WellFormed(c[i])
    ensures items == KeyedItems(c)
  {
    items := [];
    var i := 0;
    while i < |c|
      invariant 0 <= i <= |c|
      invariant items == KeyedItems(c[..i])
    {
      items := items + [Keyed(SortKey(0, FirstFieldComparableValue(c[i])), c[i])];
      i := i + 1;
    }
    assert c[..i] == c;
  }

  /** The write-back loop of `sortSequenceByFirstField`: element `j` becomes the `j`-th sorted one. */
  method WriteBackItems(c: seq<Node>, sorted: seq<Keyed<Node>>) returns (content: seq<Node>)
    requires |c| == |sorted|
    ensures content == Items(sorted)
  {
    content := c;
    var j := 0;
    while j < |sorted|
      invariant 0 <= j <= |sorted| && |content| == |sorted|
      invariant forall m :: 0 <= m < j ==> content[m] == sorted[m].item
    {
      content := content[j := sorted[j].item];
      j := j + 1;
    }
  }

  /** After the sequence sort the comparison strings do not decrease. */
  lemma SortedSequenceOrder(n: Node)
    requires WellFormed(n) && n.kind == SequenceNode
    ensures var c := SortedSequence(n).content;
      forall i, j :: 0 <= i < j < |c| ==>
        !Less(FirstFieldComparableValue(c[j]), FirstFieldComparableValue(c[i]))
  {
    var c := SortedSequence(n).content;
    var ps := KeyedItems(c);
    SortedSequenceIsStableSort(n);
    forall i, j | 0 <= i < j < |c|
      ensures !Less(FirstFieldComparableValue(c[j]), FirstFieldComparableValue(c[i]))
    {
      assert !KeyLess(ps[j].key, ps[i].key);
    }
  }

  /** Sorting a sequence twice is sorting it once. */
  lemma SortedSequenceIdempotent(n: Node)
    requires WellFormed(n)
    ensures SortedSequence(SortedSequence(n)) == SortedSequence(n)
  {
    if n.kind == SequenceNode {
      var r := SortedSequence(n);
      var r2 := SortedSequence(r);
      var p, p2 := KeyedItems(r.content), KeyedItems(r2.content);
      assert p2 == p by {
        SortedSequenceIsStableSort(n);
        SortedSequenceIsStableSort(r);
        SortedFilterUnique(p2, p);
      }
      KeyedItemsInjective(r2.content, r.content);
      assert r2 == Node(r.kind, r.value, r.content);
    }
  }

  lemma KeyedItemsInjective(a: seq<Node>, b: seq<Node>)
    requires forall i :: 0 <= i < |a| ==> WellFormed(a[i])
    requires forall i :: 0 <= i < |b| ==> WellFormed(b[i])
    requires KeyedItems(a) == KeyedItems(b)
    ensures a == b
  {
    forall i | 0 <= i < |a| ensures a[i] == b[i] {
      assert KeyedItems(a)[i].item == a[i];
    }
  }
}
