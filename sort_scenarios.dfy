/**
  The nodes of the scenarios of main_test.go and how the mapping and sequence sorts
  order them. Values that play no part in an order are left open.
 */
module SortScenarios {
  import opened Text
  import opened Yaml
  import opened StableSorting
  import opened NodeSort

  /** A key/value pair with the given rank and a scalar key, as the mapping sort keys it. */
  function Entry(rank: int, key: string, v: Node): Keyed<Pair> {
    Keyed(SortKey(rank, key), Pair(Scalar(key), v))
  }

  // ---------------------------------------------------------------------------
  // Ranks of the scenarios' keys

  /** Under "human" `name` has rank 3. */
  lemma HumanNameRank()
    ensures KeyRank("human", "name") == 3
  {
    assert HumanCommonOrder[3] == "name";
    assert "name" !in HumanCommonOrder[..3];
  }

  /** Under "human" a key missing from HumanCommonOrder gets the unlisted rank. */
  lemma HumanUnlisted(key: string)
    requires key !in HumanCommonOrder
    ensures KeyRank("human", key) == UnlistedRank
  {
  }

  /** Under any sort type but "human" every key has the same rank. */
  lemma PlainRank(sortType: string, key: string)
    requires sortType != "human"
    ensures KeyRank(sortType, key) == UnlistedRank
  {
  }

  // ---------------------------------------------------------------------------
  // Sorting a known layout

  lemma FlattenThree(a: Keyed<Pair>, b: Keyed<Pair>, c: Keyed<Pair>)
    ensures Flatten([a, b, c]) == [a.item.k, a.item.v, b.item.k, b.item.v, c.item.k, c.item.v]
  {
    assert [a, b, c][1..] == [b, c] && [b, c][1..] == [c] && [c][1..] == [];
    assert Flatten([c]) == [c.item.k, c.item.v];
    assert Flatten([b, c]) == [b.item.k, b.item.v] + Flatten([c]);
  }

  lemma FlattenFour(a: Keyed<Pair>, b: Keyed<Pair>, c: Keyed<Pair>, d: Keyed<Pair>)
    ensures Flatten([a, b, c, d]) == [a.item.k, a.item.v, b.item.k, b.item.v, c.item.k, c.item.v, d.item.k, d.item.v]
  {
    assert [a, b, c, d][1..] == [b, c, d] && [b, c, d][1..] == [c, d];
    assert [c, d][1..] == [d] && [d][1..] == [];
    assert Flatten([d]) == [d.item.k, d.item.v];
    assert Flatten([c, d]) == [c.item.k, c.item.v] + Flatten([d]);
    assert Flatten([b, c, d]) == [b.item.k, b.item.v] + Flatten([c, d]);
  }

  /** Four items whose keys rise strictly from each to the next. */
  lemma AscendingFour<T>(w: Keyed<T>, x: Keyed<T>, y: Keyed<T>, z: Keyed<T>)
    requires KeyLess(w.key, x.key) && KeyLess(x.key, y.key) && KeyLess(y.key, z.key)
    ensures Sorted([w, x, y, z]) && DistinctKeys([w, x, y, z])
  {
    var r := [w, x, y, z];
    forall i | 0 <= i < |r| - 1
      ensures KeyLess(r[i].key, r[i + 1].key)
    {
      if i == 0 {
        assert r[0] == w && r[1] == x;
      } else if i == 1 {
        assert r[1] == x && r[2] == y;
      } else {
        assert r[2] == y && r[3] == z;
      }
    }
    AscendingKeys(r);
  }

  /** Three items whose keys rise strictly from each to the next. */
  lemma AscendingThree<T>(x: Keyed<T>, y: Keyed<T>, z: Keyed<T>)
    requires KeyLess(x.key, y.key) && KeyLess(y.key, z.key)
    ensures Sorted([x, y, z]) && DistinctKeys([x, y, z])
  {
    var r := [x, y, z];
    forall i | 0 <= i < |r| - 1
      ensures KeyLess(r[i].key, r[i + 1].key)
    {
      if i == 0 {
        assert r[0] == x && r[1] == y;
      } else {
        assert r[1] == y && r[2] == z;
      }
    }
    AscendingKeys(r);
  }

  lemma KeyedItemsFour(p: Node, q: Node, r: Node, t: Node)
    requires WellFormed(p) && WellFormed(q) && WellFormed(r) && WellFormed(t)
    ensures KeyedItems([p, q, r, t]) == [Keyed(ItemKey(p), p), Keyed(ItemKey(q), q), Keyed(ItemKey(r), r), Keyed(ItemKey(t), t)]
  {
    var c := [p, q, r, t];
    var ks := KeyedItems(c);
    assert c[0] == p && c[1] == q && c[2] == r && c[3] == t;
    assert ks[0] == Keyed(ItemKey(p), p) && ks[1] == Keyed(ItemKey(q), q);
    assert ks[2] == Keyed(ItemKey(r), r) && ks[3] == Keyed(ItemKey(t), t);
  }

  lemma ItemsFour(w: Keyed<Node>, x: Keyed<Node>, y: Keyed<Node>, z: Keyed<Node>)
    ensures Items([w, x, y, z]) == [w.item, x.item, y.item, z.item]
  {
    var items := Items([w, x, y, z]);
    assert items[0] == w.item && items[1] == x.item && items[2] == y.item && items[3] == z.item;
  }

  /**
    A mapping whose keyed pairs can be laid out as `w, x, y, z` with strictly rising keys
    sorts into that layout.
   */
  lemma MappingSortsToFour(sortType: string, c: seq<Node>, w: Keyed<Pair>, x: Keyed<Pair>, y: Keyed<Pair>, z: Keyed<Pair>)
    requires |c| % 2 == 0 && multiset([w, x, y, z]) == multiset(KeyedPairs(sortType, c))
    requires KeyLess(w.key, x.key) && KeyLess(x.key, y.key) && KeyLess(y.key, z.key)
    ensures SortedMapping(sortType, Mapping(c)) ==
      Mapping([w.item.k, w.item.v, x.item.k, x.item.v, y.item.k, y.item.v, z.item.k, z.item.v])
  {
    AscendingFour(w, x, y, z);
    DistinctKeysStableSort([w, x, y, z], KeyedPairs(sortType, c));
    FlattenFour(w, x, y, z);
  }

  /**
    A mapping whose keyed pairs can be laid out as `x, y, z` with strictly rising keys
    sorts into that layout.
   */
  lemma MappingSortsToThree(sortType: string, c: seq<Node>, x: Keyed<Pair>, y: Keyed<Pair>, z: Keyed<Pair>)
    requires |c| % 2 == 0 && multiset([x, y, z]) == multiset(KeyedPairs(sortType, c))
    requires KeyLess(x.key, y.key) && KeyLess(y.key, z.key)
    ensures SortedMapping(sortType, Mapping(c)) ==
      Mapping([x.item.k, x.item.v, y.item.k, y.item.v, z.item.k, z.item.v])
  {
    AscendingThree(x, y, z);
    DistinctKeysStableSort([x, y, z], KeyedPairs(sortType, c));
    FlattenThree(x, y, z);
  }

  /**
    A sequence whose keyed elements can be laid out as `w, x, y, z` with strictly rising
    comparison strings sorts into that layout.
   */
  lemma SequenceSortsToFour(c: seq<Node>, w: Keyed<Node>, x: Keyed<Node>, y: Keyed<Node>, z: Keyed<Node>)
    requires forall i :: 0 <= i < |c| ==> WellFormed(c[i])
    requires multiset([w, x, y, z]) == multiset(KeyedItems(c))
    requires KeyLess(w.key, x.key) && KeyLess(x.key, y.key) && KeyLess(y.key, z.key)
    ensures SortedSequence(Sequence(c)) == Sequence([w.item, x.item, y.item, z.item])
  {
    AscendingFour(w, x, y, z);
    DistinctKeysStableSort([w, x, y, z], KeyedItems(c));
    ItemsFour(w, x, y, z);
  }

  // ---------------------------------------------------------------------------
  // The student mapping of DefaultMapping and HumanMapping

  function Student(name: Node, age: Node, isStudent: Node, gpa: Node): Node {
    Mapping([Scalar("name"), name, Scalar("age"), age, Scalar("is_student"), isStudent, Scalar("gpa"), gpa])
  }

  /** The keyed pairs of a student mapping, given the rank of each key. */
  lemma StudentPairs(sortType: string, rn: int, ra: int, ri: int, rg: int, name: Node, age: Node, isStudent: Node, gpa: Node)
    requires KeyRank(sortType, "name") == rn && KeyRank(sortType, "age") == ra
    requires KeyRank(sortType, "is_student") == ri && KeyRank(sortType, "gpa") == rg
    ensures KeyedPairs(sortType, Student(name, age, isStudent, gpa).content) ==
      [Entry(rn, "name", name), Entry(ra, "age", age), Entry(ri, "is_student", isStudent), Entry(rg, "gpa", gpa)]
  {
    var c := Student(name, age, isStudent, gpa).content;
    assert c[0] == Scalar("name") && c[2] == Scalar("age") && c[4] == Scalar("is_student") && c[6] == Scalar("gpa");
  }

  /** The two orders of the student's pairs in the scenarios hold the same pairs. */
  lemma StudentReorderings(rn: int, ra: int, ri: int, rg: int, name: Node, age: Node, isStudent: Node, gpa: Node)
    ensures var n, a, i, g := Entry(rn, "name", name), Entry(ra, "age", age), Entry(ri, "is_student", isStudent), Entry(rg, "gpa", gpa);
      && multiset([a, g, i, n]) == multiset([n, a, i, g])
      && multiset([n, a, g, i]) == multiset([n, a, i, g])
  {
  }

  /** The student's key texts in alphanumeric order. */
  lemma StudentKeyOrder()
    ensures Less("age", "gpa") && Less("gpa", "is_student") && Less("is_student", "name")
  {
  }

  /** Under "alphanumeric" the student's keys come out as age, gpa, is_student, name. */
  lemma AlphanumericStudent(name: Node, age: Node, isStudent: Node, gpa: Node)
    ensures SortedMapping("alphanumeric", Student(name, age, isStudent, gpa)) ==
      Mapping([Scalar("age"), age, Scalar("gpa"), gpa, Scalar("is_student"), isStudent, Scalar("name"), name])
  {
    var u := UnlistedRank;
    PlainRank("alphanumeric", "name");
    PlainRank("alphanumeric", "age");
    PlainRank("alphanumeric", "is_student");
    PlainRank("alphanumeric", "gpa");
    StudentPairs("alphanumeric", u, u, u, u, name, age, isStudent, gpa);
    StudentReorderings(u, u, u, u, name, age, isStudent, gpa);
    StudentKeyOrder();
    MappingSortsToFour("alphanumeric", Student(name, age, isStudent, gpa).content,
      Entry(u, "age", age), Entry(u, "gpa", gpa), Entry(u, "is_student", isStudent), Entry(u, "name", name));
  }

  /**
    Under a sort type that ranks `name` 3 and leaves the student's other keys unlisted,
    `name` comes first, then age, gpa, is_student.
   */
  lemma NameFirstStudent(sortType: string, name: Node, age: Node, isStudent: Node, gpa: Node)
    requires KeyRank(sortType, "name") == 3
    requires KeyRank(sortType, "age") == KeyRank(sortType, "is_student") == KeyRank(sortType, "gpa") == UnlistedRank
    ensures SortedMapping(sortType, Student(name, age, isStudent, gpa)) ==
      Mapping([Scalar("name"), name, Scalar("age"), age, Scalar("gpa"), gpa, Scalar("is_student"), isStudent])
  {
    var u := UnlistedRank;
    StudentPairs(sortType, 3, u, u, u, name, age, isStudent, gpa);
    StudentReorderings(3, u, u, u, name, age, isStudent, gpa);
    StudentKeyOrder();
    MappingSortsToFour(sortType, Student(name, age, isStudent, gpa).content,
      Entry(3, "name", name), Entry(u, "age", age), Entry(u, "gpa", gpa), Entry(u, "is_student", isStudent));
  }

  /** Under "human" `name` comes first, then the unlisted keys age, gpa, is_student. */
  lemma HumanStudent(name: Node, age: Node, isStudent: Node, gpa: Node)
    ensures SortedMapping("human", Student(name, age, isStudent, gpa)) ==
      Mapping([Scalar("name"), name, Scalar("age"), age, Scalar("gpa"), gpa, Scalar("is_student"), isStudent])
  {
    HumanNameRank();
    HumanUnlisted("age");
    HumanUnlisted("is_student");
    HumanUnlisted("gpa");
    NameFirstStudent("human", name, age, isStudent, gpa);
  }

  // ---------------------------------------------------------------------------
  // The fruit mappings of the sequence scenarios

  function Fruit(name: string, price: string, colour: string): Node {
    Mapping([Scalar("name"), Scalar(name), Scalar("price"), Scalar(price), Scalar("colour"), Scalar(colour)])
  }

  /** A fruit laid out colour, name, price: the alphanumeric order of its keys. */
  function ColourFirst(name: string, price: string, colour: string): Node {
    Mapping([Scalar("colour"), Scalar(colour), Scalar("name"), Scalar(name), Scalar("price"), Scalar(price)])
  }

  /** A fruit laid out name, colour, price: the "human" order of its keys. */
  function NameFirst(name: string, price: string, colour: string): Node {
    Mapping([Scalar("name"), Scalar(name), Scalar("colour"), Scalar(colour), Scalar("price"), Scalar(price)])
  }

  lemma FruitWellFormed(name: string, price: string, colour: string)
    ensures WellFormed(Fruit(name, price, colour))
  {
    var c := Fruit(name, price, colour).content;
    assert forall i :: 0 <= i < |c| ==> c[i].content == [];
  }

  /** The keyed pairs of a fruit mapping, given the rank of each key. */
  lemma FruitPairs(sortType: string, rn: int, rp: int, rc: int, name: string, price: string, colour: string)
    requires KeyRank(sortType, "name") == rn && KeyRank(sortType, "price") == rp
    requires KeyRank(sortType, "colour") == rc
    ensures KeyedPairs(sortType, Fruit(name, price, colour).content) ==
      [Entry(rn, "name", Scalar(name)), Entry(rp, "price", Scalar(price)), Entry(rc, "colour", Scalar(colour))]
  {
    var c := Fruit(name, price, colour).content;
    assert c[0] == Scalar("name") && c[2] == Scalar("price") && c[4] == Scalar("colour");
  }

  /** The two orders of a fruit's pairs in the scenarios hold the same pairs. */
  lemma FruitReorderings(rn: int, rp: int, rc: int, name: string, price: string, colour: string)
    ensures var n, p, c := Entry(rn, "name", Scalar(name)), Entry(rp, "price", Scalar(price)), Entry(rc, "colour", Scalar(colour));
      && multiset([c, n, p]) == multiset([n, p, c])
      && multiset([n, c, p]) == multiset([n, p, c])
  {
  }

  /** The fruit's key texts in alphanumeric order. */
  lemma FruitKeyOrder()
    ensures Less("colour", "name") && Less("name", "price")
  {
  }

  /** Under "alphanumeric" a fruit's keys come out as colour, name, price. */
  lemma AlphanumericFruit(name: string, price: string, colour: string)
    ensures SortedMapping("alphanumeric", Fruit(name, price, colour)) == ColourFirst(name, price, colour)
  {
    var u := UnlistedRank;
    PlainRank("alphanumeric", "name");
    PlainRank("alphanumeric", "price");
    PlainRank("alphanumeric", "colour");
    FruitPairs("alphanumeric", u, u, u, name, price, colour);
    FruitReorderings(u, u, u, name, price, colour);
    FruitKeyOrder();
    MappingSortsToThree("alphanumeric", Fruit(name, price, colour).content,
      Entry(u, "colour", Scalar(colour)), Entry(u, "name", Scalar(name)), Entry(u, "price", Scalar(price)));
  }

  /**
    Under a sort type that ranks `name` 3 and leaves a fruit's other keys unlisted,
    `name` comes first, then colour, price.
   */
  lemma NameFirstFruit(sortType: string, name: string, price: string, colour: string)
    requires KeyRank(sortType, "name") == 3
    requires KeyRank(sortType, "price") == KeyRank(sortType, "colour") == UnlistedRank
    ensures SortedMapping(sortType, Fruit(name, price, colour)) == NameFirst(name, price, colour)
  {
    var u := UnlistedRank;
    FruitPairs(sortType, 3, u, u, name, price, colour);
    FruitReorderings(3, u, u, name, price, colour);
    assert Less("colour", "price");
    MappingSortsToThree(sortType, Fruit(name, price, colour).content,
      Entry(3, "name", Scalar(name)), Entry(u, "colour", Scalar(colour)), Entry(u, "price", Scalar(price)));
  }

  /** Under "human" a fruit's keys come out as name, colour, price. */
  lemma HumanFruit(name: string, price: string, colour: string)
    ensures SortedMapping("human", Fruit(name, price, colour)) == NameFirst(name, price, colour)
  {
    HumanNameRank();
    HumanUnlisted("price");
    HumanUnlisted("colour");
    NameFirstFruit("human", name, price, colour);
  }

  // ---------------------------------------------------------------------------
  // The sequences of DefaultSequence and DefaultSequenceObjects

  /** The fruit names of the scenarios in alphanumeric order. */
  lemma FruitNameOrder()
    ensures Less("Apple", "Banana") && Less("Banana", "Orange") && Less("Orange", "Strawberry")
  {
  }

  /** Four items reordered third, first, fourth, second hold the same items. */
  lemma NameReordering(b: Keyed<Node>, s: Keyed<Node>, a: Keyed<Node>, o: Keyed<Node>)
    requires b.key.text == "Banana" && s.key.text == "Strawberry" && a.key.text == "Apple" && o.key.text == "Orange"
    ensures multiset([a, b, o, s]) == multiset([b, s, a, o])
  {
  }

  /** A scalar element compares by its own text. */
  lemma ScalarItemKey(s: string)
    ensures ItemKey(Scalar(s)) == SortKey(0, s)
  {
  }

  /** The scalar sequence of DefaultSequence: Banana, Strawberry, Apple, Orange. */
  function FruitNames(): seq<Node> {
    [Scalar("Banana"), Scalar("Strawberry"), Scalar("Apple"), Scalar("Orange")]
  }

  /** The same names in alphanumeric order. */
  function FruitNamesInOrder(): seq<Node> {
    [Scalar("Apple"), Scalar("Banana"), Scalar("Orange"), Scalar("Strawberry")]
  }

  lemma FruitNamesWellFormed()
    ensures forall i :: 0 <= i < |FruitNames()| ==> WellFormed(FruitNames()[i])
    ensures WellFormed(Sequence(FruitNames())) && WellFormed(Document([Sequence(FruitNames())]))
  {
    var c := FruitNames();
    assert forall i :: 0 <= i < |c| ==> c[i].content == [];
  }

  /** DefaultSequence: the names sort into Apple, Banana, Orange, Strawberry. */
  lemma FruitNamesSorted()
    ensures WellFormed(Sequence(FruitNames()))
    ensures SortedSequence(Sequence(FruitNames())) == Sequence(FruitNamesInOrder())
  {
    var c := FruitNames();
    FruitNamesWellFormed();
    var b, s, a, o := Keyed(SortKey(0, "Banana"), c[0]), Keyed(SortKey(0, "Strawberry"), c[1]),
      Keyed(SortKey(0, "Apple"), c[2]), Keyed(SortKey(0, "Orange"), c[3]);
    ScalarItemKey("Banana");
    ScalarItemKey("Strawberry");
    ScalarItemKey("Apple");
    ScalarItemKey("Orange");
    KeyedItemsFour(c[0], c[1], c[2], c[3]);
    NameReordering(b, s, a, o);
    FruitNameOrder();
    SequenceSortsToFour(c, a, b, o, s);
  }

  /** A fruit element compares by its name. */
  lemma FruitItemKey(name: string, price: string, colour: string)
    ensures WellFormed(Fruit(name, price, colour))
    ensures ItemKey(Fruit(name, price, colour)) == SortKey(0, name)
  {
    FruitWellFormed(name, price, colour);
  }

  /** The four fruits of the sequence scenarios, in the order the documents list them. */
  function Basket(): seq<Node> {
    [Fruit("Banana", "30", "Yellow"), Fruit("Strawberry", "10", "Red"), Fruit("Apple", "20", "Red"), Fruit("Orange", "30", "Orange")]
  }

  /** The fruits sorted by name. */
  function BasketByName(): seq<Node> {
    [Fruit("Apple", "20", "Red"), Fruit("Banana", "30", "Yellow"), Fruit("Orange", "30", "Orange"), Fruit("Strawberry", "10", "Red")]
  }

  /** The fruits in their own order, each with its keys in alphanumeric order. */
  function BasketColourFirst(): seq<Node> {
    [ColourFirst("Banana", "30", "Yellow"), ColourFirst("Strawberry", "10", "Red"), ColourFirst("Apple", "20", "Red"), ColourFirst("Orange", "30", "Orange")]
  }

  /** The fruits in their own order, each with its keys in "human" order. */
  function BasketNameFirst(): seq<Node> {
    [NameFirst("Banana", "30", "Yellow"), NameFirst("Strawberry", "10", "Red"), NameFirst("Apple", "20", "Red"), NameFirst("Orange", "30", "Orange")]
  }

  /** The fruits in their own order with only the third, Apple, in alphanumeric key order. */
  function BasketAppleSorted(): seq<Node> {
    [Fruit("Banana", "30", "Yellow"), Fruit("Strawberry", "10", "Red"), ColourFirst("Apple", "20", "Red"), Fruit("Orange", "30", "Orange")]
  }

  lemma BasketWellFormed()
    ensures forall i :: 0 <= i < |Basket()| ==>
      WellFormed(Basket()[i]) && Basket()[i].kind == MappingNode && |Basket()[i].content| % 2 == 0
    ensures WellFormed(Document([Sequence(Basket())]))
  {
    FruitWellFormed("Banana", "30", "Yellow");
    FruitWellFormed("Strawberry", "10", "Red");
    FruitWellFormed("Apple", "20", "Red");
    FruitWellFormed("Orange", "30", "Orange");
  }

  /** DefaultSequenceObjects: the fruits sort by their first field, the name. */
  lemma BasketSorted()
    ensures WellFormed(Sequence(Basket()))
    ensures SortedSequence(Sequence(Basket())) == Sequence(BasketByName())
  {
    var c := Basket();
    BasketWellFormed();
    var b, s, a, o := Keyed(SortKey(0, "Banana"), c[0]), Keyed(SortKey(0, "Strawberry"), c[1]),
      Keyed(SortKey(0, "Apple"), c[2]), Keyed(SortKey(0, "Orange"), c[3]);
    FruitItemKey("Banana", "30", "Yellow");
    FruitItemKey("Strawberry", "10", "Red");
    FruitItemKey("Apple", "20", "Red");
    FruitItemKey("Orange", "30", "Orange");
    KeyedItemsFour(c[0], c[1], c[2], c[3]);
    NameReordering(b, s, a, o);
    FruitNameOrder();
    SequenceSortsToFour(c, a, b, o, s);
  }

  /** DefaultSequenceObjectAtIndex: sorting the third fruit alone. */
  lemma AppleSorted()
    ensures SortedMapping("alphanumeric", Basket()[2]) == ColourFirst("Apple", "20", "Red")
    ensures Basket()[2 := ColourFirst("Apple", "20", "Red")] == BasketAppleSorted()
  {
    AlphanumericFruit("Apple", "20", "Red");
  }

  /** DefaultSequenceAllObjects: each fruit sorted alphanumerically. */
  lemma BasketEachAlphanumeric()
    ensures |BasketColourFirst()| == |Basket()|
    ensures forall k :: 0 <= k < |Basket()| ==> SortedMapping("alphanumeric", Basket()[k]) == BasketColourFirst()[k]
  {
    var els, ys := Basket(), BasketColourFirst();
    forall k | 0 <= k < |els|
      ensures SortedMapping("alphanumeric", els[k]) == ys[k]
    {
      if k == 0 {
        AlphanumericFruit("Banana", "30", "Yellow");
      } else if k == 1 {
        AlphanumericFruit("Strawberry", "10", "Red");
      } else if k == 2 {
        AlphanumericFruit("Apple", "20", "Red");
      } else {
        AlphanumericFruit("Orange", "30", "Orange");
      }
    }
  }

  /** HumanSequenceAllObjects: each fruit sorted the "human" way. */
  lemma BasketEachHuman()
    ensures |BasketNameFirst()| == |Basket()|
    ensures forall k :: 0 <= k < |Basket()| ==> SortedMapping("human", Basket()[k]) == BasketNameFirst()[k]
  {
    var els, ys := Basket(), BasketNameFirst();
    forall k | 0 <= k < |els|
      ensures SortedMapping("human", els[k]) == ys[k]
    {
      if k == 0 {
        HumanFruit("Banana", "30", "Yellow");
      } else if k == 1 {
        HumanFruit("Strawberry", "10", "Red");
      } else if k == 2 {
        HumanFruit("Apple", "20", "Red");
      } else {
        HumanFruit("Orange", "30", "Orange");
      }
    }
  }

  /** The student mapping is well formed when its values are. */
  lemma StudentWellFormed(name: Node, age: Node, isStudent: Node, gpa: Node)
    requires WellFormed(name) && WellFormed(age) && WellFormed(isStudent) && WellFormed(gpa)
    ensures WellFormed(Student(name, age, isStudent, gpa)) && WellFormed(Document([Student(name, age, isStudent, gpa)]))
  {
    var c := Student(name, age, isStudent, gpa).content;
    assert c[1] == name && c[3] == age && c[5] == isStudent && c[7] == gpa;
    assert forall i :: 0 <= i < |c| && i % 2 == 0 ==> c[i].content == [];
  }
}
