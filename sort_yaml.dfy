/**
  Go's `SortYaml`: for every path in order, parse it, resolve its targets and sort each
  target in place, a mapping by its keys and a sequence by its elements' first fields.
  The tree is a value here; sorting a target replaces the node at its position.
 */
module SortEngine {
  import opened Wrappers
  import opened Yaml
  import opened NodeSort
  import opened PathSteps
  import opened Resolver

  /** Why `SortYaml` stops, with the path it was working on. */
  datatype SortError =
    | InvalidPath(path: string, parse: ParseError)
    | NavigateFailed(path: string, resolve: ResolveError)
    | NotSortable(path: string, kind: Kind)

  predicate Sortable(n: Node) {
    n.kind == MappingNode || n.kind == SequenceNode
  }

  /** The `switch` of `SortYaml` on a sortable target's kind. */
  function SortedTarget(sortType: string, n: Node): (r: Node)
    requires WellFormed(n) && Sortable(n)
    ensures WellFormed(r) && r.kind == n.kind && r.value == n.value && |r.content| == |n.content|
  {
    if n.kind == MappingNode then
      SortedMappingWellFormed(sortType, n);
      SortedMapping(sortType, n)
    else SortedSequence(n)
  }

  /** Sorting a target twice is sorting it once. */
  lemma SortedTargetIdempotent(sortType: string, n: Node)
    requires WellFormed(n) && Sortable(n)
    ensures SortedTarget(sortType, SortedTarget(sortType, n)) == SortedTarget(sortType, n)
  {
    if n.kind == MappingNode {
      SortedMappingIdempotent(sortType, n);
    } else {
      SortedSequenceIdempotent(n);
    }
  }

  lemma FrontierTail(t: Node, ps: seq<Pos>, d: nat)
    requires Frontier(t, ps, d) && ps != []
    ensures Frontier(t, ps[1..], d)
  {
    forall i, j | 0 <= i < j < |ps[1..]| ensures ps[1..][i] != ps[1..][j] {
      assert ps[1..][i] == ps[i + 1] && ps[1..][j] == ps[j + 1];
    }
  }

  /** Replacing the node at the first position keeps the other positions a frontier. */
  lemma UpdateFrontier(t: Node, ps: seq<Pos>, d: nat, x: Node)
    requires Frontier(t, ps, d) && ps != []
    ensures Frontier(Update(t, ps[0], x), ps[1..], d)
  {
    FrontierTail(t, ps, d);
    var u := Update(t, ps[0], x);
    forall k | 0 <= k < |ps[1..]| ensures ValidPos(u, ps[1..][k]) {
      assert ps[1..][k] == ps[k + 1];
      UpdateElsewhere(t, ps[0], ps[k + 1], x);
    }
  }

  /**
    The loop of `SortYaml` over one path's targets, in order: a sortable target is
    replaced by its sorted form; any other target is skipped when the path loops and is
    an error when it does not.
   */
  function SortTargets(sortType: string, t: Node, ps: seq<Pos>, d: nat, looping: bool, path: string)
    : (r: Result<Node, SortError>)
    requires WellFormed(t) && Frontier(t, ps, d)
    ensures r.Ok? ==> WellFormed(r.value)
    decreases |ps|
  {
    if ps == [] then Ok(t)
    else
      var n := At(t, ps[0]);
      if Sortable(n) then
        AtWellFormed(t, ps[0]);
        var x := SortedTarget(sortType, n);
        UpdateWellFormed(t, ps[0], x);
        UpdateFrontier(t, ps, d, x);
        SortTargets(sortType, Update(t, ps[0], x), ps[1..], d, looping, path)
      else if looping then
        FrontierTail(t, ps, d);
        SortTargets(sortType, t, ps[1..], d, looping, path)
      else Err(NotSortable(path, n.kind))
  }

  /** How deep the targets of `steps` lie: one level per step below the start node. */
  function TargetDepth(t: Node, steps: seq<Step>): nat {
    |Start(t)| + |steps|
  }

  /** One path: parse it, resolve it, sort its targets. */
  function ApplyPath(sortType: string, path: string, t: Node): (r: Result<Node, SortError>)
    requires WellFormed(t)
    ensures r.Ok? ==> WellFormed(r.value)
  {
    var parsed := ParsePath(path);
    if parsed.Err? then Err(InvalidPath(path, parsed.error))
    else
      var steps := parsed.value;
      var resolved := Resolve(t, steps);
      if resolved.Err? then Err(NavigateFailed(path, resolved.error))
      else
        ResolveFrontier(t, steps);
        SortTargets(sortType, t, resolved.value, TargetDepth(t, steps), StepsContainLoop(steps), path)
  }

  /** What `SortYaml` computes: the paths applied in order; the first error ends it. */
  function ApplyPaths(sortType: string, paths: seq<string>, t: Node): (r: Result<Node, SortError>)
    requires WellFormed(t)
    ensures r.Ok? ==> WellFormed(r.value)
    decreases |paths|
  {
    if paths == [] then Ok(t)
    else
      match ApplyPath(sortType, paths[0], t)
      case Err(e) => Err(e)
      case Ok(u) => ApplyPaths(sortType, paths[1..], u)
  }

  // ---------------------------------------------------------------------------
  // The imperative engine

  /** Go's `SortYaml`, with the tree passed in and the sorted tree or the error returned. */
  method SortYaml(sortType: string, paths: seq<string>, doc: Node) returns (r: Result<Node, SortError>)
    requires WellFormed(doc)
    ensures r == ApplyPaths(sortType, paths, doc)
  {
    var t := doc;
    var i := 0;
    while i < |paths|
      invariant 0 <= i <= |paths| && WellFormed(t)
      invariant ApplyPaths(sortType, paths, doc) == ApplyPaths(sortType, paths[i..], t)
    {
      ApplyPathsStep(sortType, paths, i, t);
      var res := SortPath(sortType, paths[i], t);
      if res.Err? {
        return Err(res.error);
      }
      t := res.value;
      i := i + 1;
    }
    assert paths[i..] == [];
    return Ok(t);
  }

  lemma ApplyPathsStep(sortType: string, paths: seq<string>, i: nat, t: Node)
    requires i < |paths| && WellFormed(t)
    ensures ApplyPaths(sortType, paths[i..], t) ==
      match ApplyPath(sortType, paths[i], t)
      case Err(e) => Err(e)
      case Ok(u) => ApplyPaths(sortType, paths[i + 1..], u)
  {
    assert paths[i..][0] == paths[i] && paths[i..][1..] == paths[i + 1..];
  }

  /** The body of the loop of `SortYaml` over paths: one path parsed, resolved and sorted. */
  method SortPath(sortType: string, path: string, t: Node) returns (r: Result<Node, SortError>)
    requires WellFormed(t)
    ensures r == ApplyPath(sortType, path, t)
  {
    var steps := ParsePathSteps(path);
    if steps.Err? {
      assert ApplyPath(sortType, path, t) == Err(InvalidPath(path, steps.error));
      return Err(InvalidPath(path, steps.error));
    }
    var targets := ResolveTargets(t, steps.value);
    if targets.Err? {
      assert ApplyPath(sortType, path, t) == Err(NavigateFailed(path, targets.error));
      return Err(NavigateFailed(path, targets.error));
    }
    var looping := StepsContainLoop(steps.value);
    var d := TargetDepth(t, steps.value);
    ApplyPathTargets(sortType, path, t, steps.value, targets.value);
    r := SortEachTarget(sortType, t, targets.value, d, looping, path);
  }

  /** When the path parses and resolves, ApplyPath is the sort of its targets. */
  lemma ApplyPathTargets(sortType: string, path: string, t: Node, steps: seq<Step>, ps: seq<Pos>)
    requires WellFormed(t) && ParsePath(path) == Ok(steps) && Resolve(t, steps) == Ok(ps)
    ensures Frontier(t, ps, TargetDepth(t, steps))
    ensures ApplyPath(sortType, path, t) ==
      SortTargets(sortType, t, ps, TargetDepth(t, steps), StepsContainLoop(steps), path)
  {
    ResolveFrontier(t, steps);
  }

  /** The loop of `SortYaml` over the targets of one path. */
  method SortEachTarget(sortType: string, t: Node, ps: seq<Pos>, d: nat, looping: bool, path: string)
    returns (r: Result<Node, SortError>)
    requires WellFormed(t) && Frontier(t, ps, d)
    ensures r == SortTargets(sortType, t, ps, d, looping, path)
  {
    var u := t;
    var k := 0;
    while k < |ps|
      invariant 0 <= k <= |ps| && WellFormed(u) && Frontier(u, ps[k..], d)
      invariant SortTargets(sortType, t, ps, d, looping, path) == SortTargets(sortType, u, ps[k..], d, looping, path)
    {
      var rest := ps[k..];
      assert rest[0] == ps[k] && rest[1..] == ps[k + 1..];
      var target := At(u, ps[k]);
      AtWellFormed(u, ps[k]);
      if target.kind == MappingNode || target.kind == SequenceNode {
        var s;
        if target.kind == MappingNode {
          s := SortMappingNodeKeys(sortType, target);
        } else {
          s := SortSequenceByFirstField(target);
        }
        SortTargetsSorted(sortType, u, rest, d, looping, path);
        u := Update(u, ps[k], s);
      } else if !looping {
        SortTargetsFails(sortType, u, rest, d, path);
        return Err(NotSortable(path, target.kind));
      } else {
        SortTargetsSkipped(sortType, u, rest, d, path);
      }
      k := k + 1;
    }
    assert ps[k..] == [];
    return Ok(u);
  }

  /** Sorting the first target: the rest is sorted in the updated tree, where the other targets are unchanged. */
  lemma SortTargetsSorted(sortType: string, t: Node, ps: seq<Pos>, d: nat, looping: bool, path: string)
    requires ps != [] && WellFormed(t) && Frontier(t, ps, d)
    requires WellFormed(At(t, ps[0])) && Sortable(At(t, ps[0]))
    ensures var u := Update(t, ps[0], SortedTarget(sortType, At(t, ps[0])));
      && WellFormed(u) && Frontier(u, ps[1..], d)
      && SortTargets(sortType, t, ps, d, looping, path) == SortTargets(sortType, u, ps[1..], d, looping, path)
      && forall k :: 1 <= k < |ps| ==> At(u, ps[k]) == At(t, ps[k])
  {
    var x := SortedTarget(sortType, At(t, ps[0]));
    UpdateFrontier(t, ps, d, x);
    UpdateWellFormed(t, ps[0], x);
    SortFirstKeepsRest(t, ps, d, x);
  }

  /** Skipping the first target when the path loops. */
  lemma SortTargetsSkipped(sortType: string, t: Node, ps: seq<Pos>, d: nat, path: string)
    requires ps != [] && WellFormed(t) && Frontier(t, ps, d) && !Sortable(At(t, ps[0]))
    ensures Frontier(t, ps[1..], d)
    ensures SortTargets(sortType, t, ps, d, true, path) == SortTargets(sortType, t, ps[1..], d, true, path)
  {
    FrontierTail(t, ps, d);
  }

  /** Failing at the first target when the path does not loop. */
  lemma SortTargetsFails(sortType: string, t: Node, ps: seq<Pos>, d: nat, path: string)
    requires ps != [] && WellFormed(t) && Frontier(t, ps, d) && !Sortable(At(t, ps[0]))
    ensures SortTargets(sortType, t, ps, d, false, path) == Err(NotSortable(path, At(t, ps[0]).kind))
  {
  }

  // ---------------------------------------------------------------------------
  // Properties of the engine

  /** Sorting the first target leaves the nodes at the remaining targets as they were. */
  lemma SortFirstKeepsRest(t: Node, ps: seq<Pos>, d: nat, x: Node)
    requires Frontier(t, ps, d) && ps != []
    ensures forall k :: 1 <= k < |ps| ==> ValidPos(Update(t, ps[0], x), ps[k]) && At(Update(t, ps[0], x), ps[k]) == At(t, ps[k])
  {
    forall k | 1 <= k < |ps|
      ensures ValidPos(Update(t, ps[0], x), ps[k]) && At(Update(t, ps[0], x), ps[k]) == At(t, ps[k])
    {
      UpdateElsewhere(t, ps[0], ps[k], x);
    }
  }

  /**
    The targets of one path sort without error exactly when the path loops or every
    target is a mapping or a sequence.
   */
  lemma {:induction false} SortTargetsOk(sortType: string, t: Node, ps: seq<Pos>, d: nat, looping: bool, path: string)
    requires WellFormed(t) && Frontier(t, ps, d)
    ensures SortTargets(sortType, t, ps, d, looping, path).Ok? <==>
      looping || forall k :: 0 <= k < |ps| ==> Sortable(At(t, ps[k]))
    decreases |ps|
  {
    if ps != [] {
      var n := At(t, ps[0]);
      AtWellFormed(t, ps[0]);
      if Sortable(n) {
        SortTargetsSorted(sortType, t, ps, d, looping, path);
        var u := Update(t, ps[0], SortedTarget(sortType, n));
        SortTargetsOk(sortType, u, ps[1..], d, looping, path);
        assert forall k :: 1 <= k < |ps| ==> ps[1..][k - 1] == ps[k];
      } else if looping {
        SortTargetsSkipped(sortType, t, ps, d, path);
        SortTargetsOk(sortType, t, ps[1..], d, looping, path);
      } else {
        SortTargetsFails(sortType, t, ps, d, path);
      }
    }
  }

  /** When the targets of a path fail to sort, the first target that is neither a mapping nor a sequence names the error. */
  lemma {:induction false} SortTargetsError(sortType: string, t: Node, ps: seq<Pos>, d: nat, looping: bool, path: string)
    returns (k: nat)
    requires WellFormed(t) && Frontier(t, ps, d) && SortTargets(sortType, t, ps, d, looping, path).Err?
    ensures !looping && k < |ps| && !Sortable(At(t, ps[k]))
    ensures forall l :: 0 <= l < k ==> Sortable(At(t, ps[l]))
    ensures SortTargets(sortType, t, ps, d, looping, path) == Err(NotSortable(path, At(t, ps[k]).kind))
    decreases |ps|
  {
    assert !looping && ps != [] by {
      SortTargetsOk(sortType, t, ps, d, looping, path);
    }
    var n := At(t, ps[0]);
    AtWellFormed(t, ps[0]);
    if Sortable(n) {
      SortTargetsSorted(sortType, t, ps, d, looping, path);
      var u := Update(t, ps[0], SortedTarget(sortType, n));
      var j := SortTargetsError(sortType, u, ps[1..], d, looping, path);
      k := j + 1;
      assert At(u, ps[1..][j]) == At(t, ps[k]);
      forall l | 0 <= l < k ensures Sortable(At(t, ps[l])) {
        if l > 0 {
          assert At(u, ps[1..][l - 1]) == At(t, ps[l]);
        }
      }
    } else {
      SortTargetsFails(sortType, t, ps, d, path);
      k := 0;
    }
  }

  /** What a target becomes: its sorted form if it is a mapping or a sequence, itself otherwise. */
  function TargetResult(sortType: string, n: Node): Node
    requires WellFormed(n)
  {
    if Sortable(n) then SortedTarget(sortType, n) else n
  }

  /**
    At the depth of the targets, a successful sort replaces each target by its result and
    leaves every other node where it was.
   */
  lemma {:induction false} SortTargetsLayer(sortType: string, t: Node, ps: seq<Pos>, d: nat, looping: bool, path: string, q: Pos)
    requires WellFormed(t) && Frontier(t, ps, d) && SortTargets(sortType, t, ps, d, looping, path).Ok?
    requires |q| == d && ValidPos(t, q) && WellFormed(At(t, q))
    ensures var r := SortTargets(sortType, t, ps, d, looping, path).value;
      ValidPos(r, q) && At(r, q) == if q in ps then TargetResult(sortType, At(t, q)) else At(t, q)
    decreases |ps|
  {
    if ps != [] {
      var n := At(t, ps[0]);
      var u := t;
      if Sortable(n) {
        AtWellFormed(t, ps[0]);
        var x := SortedTarget(sortType, n);
        UpdateWellFormed(t, ps[0], x);
        UpdateFrontier(t, ps, d, x);
        u := Update(t, ps[0], x);
        if q == ps[0] {
          SortedTargetIdempotent(sortType, n);
        } else {
          UpdateElsewhere(t, ps[0], q, x);
        }
      } else {
        FrontierTail(t, ps, d);
      }
      assert WellFormed(At(u, q));
      SortTargetsLayer(sortType, u, ps[1..], d, looping, path, q);
      assert q in ps <==> q == ps[0] || q in ps[1..];
      assert q == ps[0] ==> q !in ps[1..];
    }
  }

  /** Above the depth of the targets every node keeps its kind, its text and its number of children. */
  lemma {:induction false} SortTargetsAbove(sortType: string, t: Node, ps: seq<Pos>, d: nat, looping: bool, path: string, q: Pos)
    requires WellFormed(t) && Frontier(t, ps, d) && SortTargets(sortType, t, ps, d, looping, path).Ok?
    requires |q| < d && ValidPos(t, q)
    ensures var r := SortTargets(sortType, t, ps, d, looping, path).value;
      && ValidPos(r, q) && At(r, q).kind == At(t, q).kind && At(r, q).value == At(t, q).value
      && |At(r, q).content| == |At(t, q).content|
    decreases |ps|
  {
    if ps != [] {
      var n := At(t, ps[0]);
      var u := t;
      if Sortable(n) {
        AtWellFormed(t, ps[0]);
        var x := SortedTarget(sortType, n);
        UpdateWellFormed(t, ps[0], x);
        UpdateFrontier(t, ps, d, x);
        UpdateAbove(t, ps[0], q, x);
        u := Update(t, ps[0], x);
      } else {
        FrontierTail(t, ps, d);
      }
      SortTargetsAbove(sortType, u, ps[1..], d, looping, path, q);
    }
  }

  /**
    The outcome of one path that parses and resolves: with a `[*]` step it always succeeds;
    without one it selects a single node, which is sorted in place when it is a mapping or a
    sequence and is an error otherwise.
   */
  lemma ApplyPathOutcome(sortType: string, path: string, t: Node, steps: seq<Step>)
    requires WellFormed(t) && ParsePath(path) == Ok(steps) && Resolve(t, steps).Ok?
    ensures All in steps ==> ApplyPath(sortType, path, t).Ok?
    ensures All !in steps ==>
      var ps := Resolve(t, steps).value;
      && |ps| == 1 && ValidPos(t, ps[0]) && WellFormed(At(t, ps[0]))
      && ApplyPath(sortType, path, t) ==
        if Sortable(At(t, ps[0])) then Ok(Update(t, ps[0], SortedTarget(sortType, At(t, ps[0]))))
        else Err(NotSortable(path, At(t, ps[0]).kind))
  {
    var ps := Resolve(t, steps).value;
    var d := TargetDepth(t, steps);
    ApplyPathTargets(sortType, path, t, steps, ps);
    if All in steps {
      SortTargetsOk(sortType, t, ps, d, true, path);
    } else {
      ResolveWithoutLoop(t, steps);
      AtWellFormed(t, ps[0]);
      if Sortable(At(t, ps[0])) {
        SortTargetsSorted(sortType, t, ps, d, false, path);
        assert ps[1..] == [];
      } else {
        SortTargetsFails(sortType, t, ps, d, path);
      }
    }
  }

  /** A single path is applied as `ApplyPath` applies it. */
  lemma ApplyOnePath(sortType: string, path: string, t: Node)
    requires WellFormed(t)
    ensures ApplyPaths(sortType, [path], t) == ApplyPath(sortType, path, t)
  {
    assert [path][1..] == [];
  }

  /** Position `[0]` of a document holding one node is that node. */
  lemma TopPosition(x: Node, y: Node)
    ensures var t := Document([x]);
      && Start(t) == [0] && ValidPos(t, [0]) && At(t, [0]) == x
      && Update(t, [0], y) == Document([y])
  {
    assert [0][1..] == [];
  }

  /** `.` on a document: its top node is sorted in place when it is a mapping or a sequence. */
  lemma SortDocumentTop(sortType: string, path: string, x: Node)
    requires ParsePath(path) == Ok([]) && WellFormed(x) && Sortable(x)
    ensures WellFormed(Document([x]))
    ensures ApplyPath(sortType, path, Document([x])) == Ok(Document([SortedTarget(sortType, x)]))
  {
    var t := Document([x]);
    TopPosition(x, SortedTarget(sortType, x));
    assert Resolve(t, []) == Ok([[0]]);
    ApplyPathOutcome(sortType, path, t, []);
  }

  /** The targets of `.[i]` and `.[*]` on a document holding a sequence. */
  lemma ResolveElements(els: seq<Node>, st: Step)
    requires st.Index? || st.All?
    ensures var t := Document([Sequence(els)]);
      st.Index? && 0 <= st.index < |els| ==> Resolve(t, [st]) == Ok([[0, st.index]])
    ensures var t := Document([Sequence(els)]);
      st.All? ==> Resolve(t, [st]) == Ok(Extend([0], seq(|els|, i => i)))
  {
    var t := Document([Sequence(els)]);
    assert [0][1..] == [];
    assert At(t, [0]) == Sequence(els);
    assert [st][..0] == [] && [[0]][..0] == [];
    assert Resolve(t, [st]) == StepAll(t, [[0]], st);
    var idx := Select(Sequence(els), st);
    if idx.Ok? {
      assert StepAll(t, [[0]], st) == Ok([] + Extend([0], idx.value));
      assert [] + Extend([0], idx.value) == Extend([0], idx.value);
      if st.Index? {
        assert idx.value == [st.index];
        var ext := Extend([0], [st.index]);
        assert |ext| == 1 && ext[0] == [0] + [st.index] == [0, st.index];
        assert ext == [[0, st.index]];
      }
    }
  }

  /** The node two levels down. */
  lemma AtTwo(t: Node, a: nat, b: nat)
    requires ValidPos(t, [a, b])
    ensures a < |t.content| && b < |t.content[a].content| && At(t, [a, b]) == t.content[a].content[b]
  {
    assert [a, b][1..] == [b] && [b][1..] == [];
    assert At(t, [a, b]) == At(t.content[a], [b]);
    assert At(t.content[a], [b]) == At(t.content[a].content[b], []);
  }

  /** Position `[0, i]` of a document holding a sequence is the sequence's element `i`. */
  lemma ElementPosition(els: seq<Node>, i: nat, y: Node)
    requires i < |els|
    ensures var t := Document([Sequence(els)]);
      && ValidPos(t, [0, i]) && At(t, [0, i]) == els[i]
      && Update(t, [0, i], y) == Document([Sequence(els[i := y])])
  {
    assert [0, i][1..] == [i] && [i][1..] == [];
    AtTwo(Document([Sequence(els)]), 0, i);
  }

  /** `.[i]` on a document holding a sequence: element `i` is sorted in place. */
  lemma SortSequenceElement(sortType: string, path: string, els: seq<Node>, i: nat)
    requires ParsePath(path) == Ok([Index(i)]) && i < |els|
    requires forall k :: 0 <= k < |els| ==> WellFormed(els[k])
    requires Sortable(els[i])
    ensures WellFormed(Document([Sequence(els)]))
    ensures ApplyPath(sortType, path, Document([Sequence(els)])) ==
      Ok(Document([Sequence(els[i := SortedTarget(sortType, els[i])])]))
  {
    var t := Document([Sequence(els)]);
    assert WellFormed(Sequence(els));
    ElementPosition(els, i, SortedTarget(sortType, els[i]));
    ResolveElements(els, Index(i));
    ApplyPathOutcome(sortType, path, t, [Index(i)]);
  }

  /** The elements after `.[*]`: each mapping or sequence sorted, every other element as it was. */
  function SortedElements(sortType: string, els: seq<Node>): (r: seq<Node>)
    requires forall k :: 0 <= k < |els| ==> WellFormed(els[k])
    ensures |r| == |els| && forall k :: 0 <= k < |els| ==> r[k] == TargetResult(sortType, els[k])
  {
    seq(|els|, k requires 0 <= k < |els| => TargetResult(sortType, els[k]))
  }

  /** `.[*]` on a document holding a sequence: every element is replaced by its result. */
  lemma SortEverySequenceElement(sortType: string, path: string, els: seq<Node>)
    requires ParsePath(path) == Ok([All])
    requires forall k :: 0 <= k < |els| ==> WellFormed(els[k])
    ensures WellFormed(Document([Sequence(els)]))
    ensures ApplyPath(sortType, path, Document([Sequence(els)])) ==
      Ok(Document([Sequence(SortedElements(sortType, els))]))
  {
    var t := Document([Sequence(els)]);
    assert WellFormed(Sequence(els));
    ResolveElements(els, All);
    var ps := Resolve(t, [All]).value;
    var d := TargetDepth(t, [All]);
    TopPosition(Sequence(els), Sequence(els));
    ApplyPathTargets(sortType, path, t, [All], ps);
    SortTargetsOk(sortType, t, ps, d, true, path);
    EveryElementSorted(sortType, els, ps, d, path);
  }

  /** The sort of the targets `[0, 0]`, `[0, 1]`, ... of a document holding a sequence. */
  lemma EveryElementSorted(sortType: string, els: seq<Node>, ps: seq<Pos>, d: nat, path: string)
    requires forall k :: 0 <= k < |els| ==> WellFormed(els[k])
    requires WellFormed(Document([Sequence(els)])) && Frontier(Document([Sequence(els)]), ps, d)
    requires ps == Extend([0], seq(|els|, i => i)) && d == 2
    requires SortTargets(sortType, Document([Sequence(els)]), ps, d, true, path).Ok?
    ensures SortTargets(sortType, Document([Sequence(els)]), ps, d, true, path).value ==
      Document([Sequence(SortedElements(sortType, els))])
  {
    var t := Document([Sequence(els)]);
    var r := SortTargets(sortType, t, ps, d, true, path).value;
    TopPosition(Sequence(els), Sequence(els));
    SortTargetsAbove(sortType, t, ps, d, true, path, []);
    SortTargetsAbove(sortType, t, ps, d, true, path, [0]);
    var top := r.content[0];
    assert top == At(r, [0]) by {
      assert [0][1..] == [];
    }
    forall k | 0 <= k < |els| ensures top.content[k] == TargetResult(sortType, els[k]) {
      ElementSorted(sortType, els, ps, d, path, k);
    }
    assert top == Sequence(SortedElements(sortType, els));
    assert r == Document([top]);
  }

  lemma ElementSorted(sortType: string, els: seq<Node>, ps: seq<Pos>, d: nat, path: string, k: nat)
    requires forall k :: 0 <= k < |els| ==> WellFormed(els[k])
    requires WellFormed(Document([Sequence(els)])) && Frontier(Document([Sequence(els)]), ps, d)
    requires ps == Extend([0], seq(|els|, i => i)) && k < |els| && d == 2
    requires SortTargets(sortType, Document([Sequence(els)]), ps, d, true, path).Ok?
    ensures var r := SortTargets(sortType, Document([Sequence(els)]), ps, d, true, path).value;
      0 < |r.content| && k < |r.content[0].content| && r.content[0].content[k] == TargetResult(sortType, els[k])
  {
    var t := Document([Sequence(els)]);
    var r := SortTargets(sortType, t, ps, d, true, path).value;
    var q := [0, k];
    assert q == ps[k];
    ElementPosition(els, k, els[k]);
    SortTargetsLayer(sortType, t, ps, d, true, path, q);
    AtTwo(r, 0, k);
  }

  /** Sorting the targets keeps the kind, text and number of children of the root. */
  lemma SortTargetsRoot(sortType: string, t: Node, ps: seq<Pos>, d: nat, looping: bool, path: string)
    requires WellFormed(t) && Frontier(t, ps, d) && SortTargets(sortType, t, ps, d, looping, path).Ok?
    ensures var r := SortTargets(sortType, t, ps, d, looping, path).value;
      r.kind == t.kind && r.value == t.value && |r.content| == |t.content|
  {
    if d == 0 {
      SortTargetsLayer(sortType, t, ps, d, looping, path, []);
    } else {
      SortTargetsAbove(sortType, t, ps, d, looping, path, []);
    }
  }

  /** The text of child `j` of a node above the targets survives the sort. */
  lemma ChildTextKept(sortType: string, t: Node, ps: seq<Pos>, d: nat, looping: bool, path: string, q: Pos, j: nat)
    requires WellFormed(t) && Frontier(t, ps, d) && SortTargets(sortType, t, ps, d, looping, path).Ok?
    requires |q| < d && ValidPos(t, q) && j < |At(t, q).content|
    ensures var r := SortTargets(sortType, t, ps, d, looping, path).value;
      ValidPos(r, q) && j < |At(r, q).content| && At(r, q).content[j].value == At(t, q).content[j].value
  {
    var r := SortTargets(sortType, t, ps, d, looping, path).value;
    SortTargetsAbove(sortType, t, ps, d, looping, path, q);
    AtAppend(t, q, j);
    AtAppend(r, q, j);
    var c := q + [j];
    if |c| < d {
      SortTargetsAbove(sortType, t, ps, d, looping, path, c);
    } else {
      AtWellFormed(t, c);
      SortTargetsLayer(sortType, t, ps, d, looping, path, c);
    }
  }

  /** Above the targets, the sorted tree has the shape the tree had. */
  lemma SortTargetsShapedAlike(sortType: string, t: Node, ps: seq<Pos>, d: nat, looping: bool, path: string)
    requires WellFormed(t) && Frontier(t, ps, d) && SortTargets(sortType, t, ps, d, looping, path).Ok?
    ensures ShapedAlike(t, SortTargets(sortType, t, ps, d, looping, path).value, d)
  {
    var r := SortTargets(sortType, t, ps, d, looping, path).value;
    forall q | |q| < d && ValidPos(t, q) ensures ValidPos(r, q) && SameShape(At(t, q), At(r, q)) {
      SortTargetsAbove(sortType, t, ps, d, looping, path, q);
      forall j | 0 <= j < |At(t, q).content| ensures At(t, q).content[j].value == At(r, q).content[j].value {
        ChildTextKept(sortType, t, ps, d, looping, path, q, j);
      }
    }
  }

  /** A target that sorting leaves as it is: already sorted, or skipped by a looping path. */
  predicate Settled(sortType: string, n: Node, looping: bool) {
    if Sortable(n) then WellFormed(n) && SortedTarget(sortType, n) == n else looping
  }

  /** When every target is settled, sorting the targets changes nothing. */
  lemma {:induction false} SortTargetsSettled(sortType: string, t: Node, ps: seq<Pos>, d: nat, looping: bool, path: string)
    requires WellFormed(t) && Frontier(t, ps, d)
    requires forall k :: 0 <= k < |ps| ==> Settled(sortType, At(t, ps[k]), looping)
    ensures SortTargets(sortType, t, ps, d, looping, path) == Ok(t)
    decreases |ps|
  {
    if ps != [] {
      FrontierTail(t, ps, d);
      assert forall k :: 0 <= k < |ps[1..]| ==> ps[1..][k] == ps[k + 1];
      var n := At(t, ps[0]);
      assert Settled(sortType, n, looping);
      if Sortable(n) {
        UpdateSame(t, ps[0]);
      }
      SortTargetsSettled(sortType, t, ps[1..], d, looping, path);
    }
  }

  /** After a successful sort of its targets, every target is settled. */
  lemma SortedTargetsSettled(sortType: string, t: Node, ps: seq<Pos>, d: nat, looping: bool, path: string)
    requires WellFormed(t) && Frontier(t, ps, d) && SortTargets(sortType, t, ps, d, looping, path).Ok?
    ensures var r := SortTargets(sortType, t, ps, d, looping, path).value;
      Frontier(r, ps, d) && forall k :: 0 <= k < |ps| ==> Settled(sortType, At(r, ps[k]), looping)
  {
    var r := SortTargets(sortType, t, ps, d, looping, path).value;
    SortTargetsOk(sortType, t, ps, d, looping, path);
    forall k | 0 <= k < |ps| ensures ValidPos(r, ps[k]) && Settled(sortType, At(r, ps[k]), looping) {
      AtWellFormed(t, ps[k]);
      SortTargetsLayer(sortType, t, ps, d, looping, path, ps[k]);
      var n := At(t, ps[k]);
      if Sortable(n) {
        SortedTargetIdempotent(sortType, n);
      }
    }
  }

  /**
    Applying a path a second time changes nothing: the sorted tree resolves the path to
    the same targets, and each of them is already sorted or is skipped again.
   */
  lemma ApplyPathIdempotent(sortType: string, path: string, t: Node)
    requires WellFormed(t) && ApplyPath(sortType, path, t).Ok?
    ensures ApplyPath(sortType, path, ApplyPath(sortType, path, t).value) == ApplyPath(sortType, path, t)
  {
    var steps := ParsePath(path).value;
    var ps := Resolve(t, steps).value;
    var d := TargetDepth(t, steps);
    var looping := StepsContainLoop(steps);
    ApplyPathTargets(sortType, path, t, steps, ps);
    var r := SortTargets(sortType, t, ps, d, looping, path).value;
    SortTargetsRoot(sortType, t, ps, d, looping, path);
    assert Start(r) == Start(t);
    SortTargetsShapedAlike(sortType, t, ps, d, looping, path);
    ResolveShapedAlike(t, r, steps);
    SortedTargetsSettled(sortType, t, ps, d, looping, path);
    ApplyPathTargets(sortType, path, r, steps, ps);
    SortTargetsSettled(sortType, r, ps, d, looping, path);
  }

  /** `SortYaml` with the same path given twice gives what it gives with the path once. */
  lemma ApplyPathTwice(sortType: string, path: string, t: Node)
    requires WellFormed(t)
    ensures ApplyPaths(sortType, [path, path], t) == ApplyPaths(sortType, [path], t)
  {
    ApplyOnePath(sortType, path, t);
    assert [path, path][0] == path && [path, path][1..] == [path];
    var once := ApplyPath(sortType, path, t);
    if once.Ok? {
      ApplyOnePath(sortType, path, once.value);
      ApplyPathIdempotent(sortType, path, t);
    }
  }

  /** Applying `a + b` is applying `a`, then `b` to its result; an error in `a` ends it. */
  lemma {:induction false} ApplyPathsConcat(sortType: string, a: seq<string>, b: seq<string>, t: Node)
    requires WellFormed(t)
    ensures ApplyPaths(sortType, a + b, t) ==
      match ApplyPaths(sortType, a, t)
      case Err(e) => Err(e)
      case Ok(u) => ApplyPaths(sortType, b, u)
    decreases |a|
  {
    if a == [] {
      assert a + b == b;
    } else {
      assert (a + b)[0] == a[0] && (a + b)[1..] == a[1..] + b;
      match ApplyPath(sortType, a[0], t)
      case Err(e) =>
      case Ok(u) => ApplyPathsConcat(sortType, a[1..], b, u);
    }
  }
}
