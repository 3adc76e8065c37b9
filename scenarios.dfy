/**
  The scenarios of main_test.go, stated on the model: a document, a path and a sort type
  go in, the sorted document comes out.
 */
module Scenarios {
  import opened Wrappers
  import opened Text
  import opened Yaml
  import opened NodeSort
  import opened PathSteps
  import opened SortEngine
  import opened SortScenarios

  // ---------------------------------------------------------------------------
  // The three shapes of the scenarios

  /** A path without steps on a document holding one sortable node sorts that node. */
  lemma TopSorted(sortType: string, path: string, x: Node, expected: Node)
    requires ParsePath(path) == Ok([]) && WellFormed(x) && Sortable(x)
    requires SortedTarget(sortType, x) == expected
    ensures ApplyPaths(sortType, [path], Document([x])) == Ok(Document([expected]))
  {
    SortDocumentTop(sortType, path, x);
    ApplyOnePath(sortType, path, Document([x]));
  }

  /** A path `.[i]` on a document holding a sequence sorts mapping `i` only. */
  lemma ElementSortedAlone(sortType: string, path: string, els: seq<Node>, i: nat, y: Node)
    requires ParsePath(path) == Ok([Index(i)]) && i < |els|
    requires forall k :: 0 <= k < |els| ==> WellFormed(els[k])
    requires els[i].kind == MappingNode && |els[i].content| % 2 == 0 && SortedMapping(sortType, els[i]) == y
    ensures WellFormed(Document([Sequence(els)]))
    ensures ApplyPaths(sortType, [path], Document([Sequence(els)])) == Ok(Document([Sequence(els[i := y])]))
  {
    SortSequenceElement(sortType, path, els, i);
    ApplyOnePath(sortType, path, Document([Sequence(els)]));
  }

  /** A path `.[*]` on a document holding a sequence of mappings sorts each of them. */
  lemma EveryMappingSorted(sortType: string, path: string, els: seq<Node>, ys: seq<Node>)
    requires ParsePath(path) == Ok([All])
    requires forall k :: 0 <= k < |els| ==> WellFormed(els[k]) && els[k].kind == MappingNode && |els[k].content| % 2 == 0
    requires |ys| == |els| && forall k :: 0 <= k < |els| ==> SortedMapping(sortType, els[k]) == ys[k]
    ensures WellFormed(Document([Sequence(els)]))
    ensures ApplyPaths(sortType, [path], Document([Sequence(els)])) == Ok(Document([Sequence(ys)]))
  {
    SortEverySequenceElement(sortType, path, els);
    ApplyOnePath(sortType, path, Document([Sequence(els)]));
    var r := SortedElements(sortType, els);
    forall k | 0 <= k < |els| ensures r[k] == ys[k] {
      assert r[k] == TargetResult(sortType, els[k]);
    }
    assert r == ys;
  }

  // ---------------------------------------------------------------------------
  // The scenarios

  /** DefaultMapping_SortsKeysAlphanumerically: path `.` sorts the top mapping's keys. */
  lemma DefaultMappingScenario(name: Node, age: Node, isStudent: Node, gpa: Node)
    requires WellFormed(name) && WellFormed(age) && WellFormed(isStudent) && WellFormed(gpa)
    ensures WellFormed(Document([Student(name, age, isStudent, gpa)]))
    ensures ApplyPaths("alphanumeric", ["."], Document([Student(name, age, isStudent, gpa)])) ==
      Ok(Document([Mapping([Scalar("age"), age, Scalar("gpa"), gpa, Scalar("is_student"), isStudent, Scalar("name"), name])]))
  {
    BlankPathHasNoSteps(".");
    StudentWellFormed(name, age, isStudent, gpa);
    AlphanumericStudent(name, age, isStudent, gpa);
    TopSorted("alphanumeric", ".", Student(name, age, isStudent, gpa),
      Mapping([Scalar("age"), age, Scalar("gpa"), gpa, Scalar("is_student"), isStudent, Scalar("name"), name]));
  }

  /** HumanMapping_SortsKeysNicely: path `.` with "human" puts `name` first. */
  lemma HumanMappingScenario(name: Node, age: Node, isStudent: Node, gpa: Node)
    requires WellFormed(name) && WellFormed(age) && WellFormed(isStudent) && WellFormed(gpa)
    ensures WellFormed(Document([Student(name, age, isStudent, gpa)]))
    ensures ApplyPaths("human", ["."], Document([Student(name, age, isStudent, gpa)])) ==
      Ok(Document([Mapping([Scalar("name"), name, Scalar("age"), age, Scalar("gpa"), gpa, Scalar("is_student"), isStudent])]))
  {
    BlankPathHasNoSteps(".");
    StudentWellFormed(name, age, isStudent, gpa);
    HumanStudent(name, age, isStudent, gpa);
    TopSorted("human", ".", Student(name, age, isStudent, gpa),
      Mapping([Scalar("name"), name, Scalar("age"), age, Scalar("gpa"), gpa, Scalar("is_student"), isStudent]));
  }

  /** DefaultSequence_SortsElementsAlphanumerically: path `.` sorts a sequence of scalars. */
  lemma DefaultSequenceScenario()
    ensures WellFormed(Document([Sequence(FruitNames())]))
    ensures ApplyPaths("alphanumeric", ["."], Document([Sequence(FruitNames())])) ==
      Ok(Document([Sequence(FruitNamesInOrder())]))
  {
    BlankPathHasNoSteps(".");
    FruitNamesWellFormed();
    FruitNamesSorted();
    TopSorted("alphanumeric", ".", Sequence(FruitNames()), Sequence(FruitNamesInOrder()));
  }

  /** DefaultSequenceObjects_SortsElementsByFirstFieldAlphanumerically: the fruits sort by name. */
  lemma DefaultSequenceObjectsScenario()
    ensures WellFormed(Document([Sequence(Basket())]))
    ensures ApplyPaths("alphanumeric", ["."], Document([Sequence(Basket())])) ==
      Ok(Document([Sequence(BasketByName())]))
  {
    BlankPathHasNoSteps(".");
    BasketSorted();
    TopSorted("alphanumeric", ".", Sequence(Basket()), Sequence(BasketByName()));
  }

  /** `.[2]` parses to the single step Index(2). */
  lemma IndexTwoPath(path: string)
    requires path == ".[2]"
    ensures ParsePath(path) == Ok([Index(2)])
  {
    assert Itoa(2) == "2";
    assert path == ".[" + Itoa(2) + "]";
    ParseRootIndex(2);
  }

  /** `.[*]` parses to the single step All. */
  lemma StarPath(path: string)
    requires path == ".[*]"
    ensures ParsePath(path) == Ok([All])
  {
    assert path == ".[" + "*" + "]";
    assert PlainName("*") && BracketStep("*") == Ok(All);
    ParseRootSelection("*");
    assert [] + [All] == [All];
  }

  /** DefaultSequenceObjectAtIndex_SortsObjectAtIndexAlphanumerically: only the third fruit is sorted. */
  lemma DefaultSequenceObjectAtIndexScenario()
    ensures WellFormed(Document([Sequence(Basket())]))
    ensures ApplyPaths("alphanumeric", [".[2]"], Document([Sequence(Basket())])) ==
      Ok(Document([Sequence(BasketAppleSorted())]))
  {
    BasketWellFormed();
    IndexTwoPath(".[2]");
    AppleSorted();
    ElementSortedAlone("alphanumeric", ".[2]", Basket(), 2, ColourFirst("Apple", "20", "Red"));
  }

  /** DefaultSequenceAllObjects_SortsAllObjectsInSequenceAlphanumerically: `.[*]` sorts every fruit. */
  lemma DefaultSequenceAllObjectsScenario()
    ensures WellFormed(Document([Sequence(Basket())]))
    ensures ApplyPaths("alphanumeric", [".[*]"], Document([Sequence(Basket())])) ==
      Ok(Document([Sequence(BasketColourFirst())]))
  {
    BasketWellFormed();
    StarPath(".[*]");
    BasketEachAlphanumeric();
    EveryMappingSorted("alphanumeric", ".[*]", Basket(), BasketColourFirst());
  }

  /** HumanSequenceAllObjects_SortsAllObjectsInSequenceNicely: `.[*]` with "human" puts `name` first in every fruit. */
  lemma HumanSequenceAllObjectsScenario()
    ensures WellFormed(Document([Sequence(Basket())]))
    ensures ApplyPaths("human", [".[*]"], Document([Sequence(Basket())])) ==
      Ok(Document([Sequence(BasketNameFirst())]))
  {
    BasketWellFormed();
    StarPath(".[*]");
    BasketEachHuman();
    EveryMappingSorted("human", ".[*]", Basket(), BasketNameFirst());
  }
}
