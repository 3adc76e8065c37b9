/**
  Go's `resolveTargets`: following the steps of a path from the document's root node to
  the nodes it selects. A selected node is named by its position in the tree, which is
  what the sorting stage needs to replace it.
 */
module Resolver {
  import opened Wrappers
  import opened Yaml
  import opened PathSteps

  /** The reasons resolution stops, each with the values its message reports. */
  datatype ResolveError =
    | CannotDescend(kind: Kind, key: string)
    | KeyNotFound(key: string)
    | NotASequence(index: int, kind: Kind)
    | IndexOutOfRange(index: int, length: int)
    | NotIterable(kind: Kind)

  /** Where resolution starts: the document's first child, or the root itself. */
  function Start(root: Node): (p: Pos)
    ensures ValidPos(root, p)
    ensures root.kind == DocumentNode && |root.content| > 0 ==> At(root, p) == root.content[0]
    ensures !(root.kind == DocumentNode && |root.content| > 0) ==> At(root, p) == root
  {
    if root.kind == DocumentNode && |root.content| > 0 then [0] else []
  }

  /** The first pair, counting from pair `j`, whose key text is `key`. */
  function FindKey(c: seq<Node>, key: string, j: nat): (r: Option<nat>)
    ensures r.Some? ==> j <= r.value && 2 * r.value + 1 < |c| && KeyText(c, r.value) == key
    ensures r.Some? ==> forall m :: j <= m < r.value ==> KeyText(c, m) != key
    ensures r.None? ==> forall m :: j <= m && 2 * m + 1 < |c| ==> KeyText(c, m) != key
    decreases |c| - 2 * j
  {
    if 2 * j + 1 >= |c| then None
    else if KeyText(c, j) == key then Some(j)
    else FindKey(c, key, j + 1)
  }

  predicate Increasing(s: seq<nat>) {
    forall k, l :: 0 <= k < l < |s| ==> s[k] < s[l]
  }

  /** The indices of the children of `n` that one step selects, in the order they are visited. */
  function Select(n: Node, st: Step): (r: Result<seq<nat>, ResolveError>)
    ensures r.Ok? ==> Increasing(r.value) && forall k :: 0 <= k < |r.value| ==> r.value[k] < |n.content|
  {
    match st
    case Key(key) =>
      if n.kind != MappingNode then Err(CannotDescend(n.kind, key))
      else
        (match FindKey(n.content, key, 0)
         case None => Err(KeyNotFound(key))
         case Some(j) => Ok([2 * j + 1]))
    case Index(i) =>
      if n.kind != SequenceNode then Err(NotASequence(i, n.kind))
      else if i < 0 || i >= |n.content| then Err(IndexOutOfRange(i, |n.content|))
      else Ok([i])
    case All =>
      if n.kind == SequenceNode then Ok(seq(|n.content|, i => i))
      else if n.kind == MappingNode then Ok(seq(|n.content| / 2, j => 2 * j + 1))
      else Err(NotIterable(n.kind))
  }

  /** The positions of the children of `p` with the given indices. */
  function Extend(p: Pos, idx: seq<nat>): (qs: seq<Pos>)
    ensures |qs| == |idx| && forall k :: 0 <= k < |idx| ==> qs[k] == p + [idx[k]]
  {
    seq(|idx|, k requires 0 <= k < |idx| => p + [idx[k]])
  }

  predicate AllValid(t: Node, ps: seq<Pos>) {
    forall k :: 0 <= k < |ps| ==> ValidPos(t, ps[k])
  }

  lemma ExtendValid(t: Node, p: Pos, idx: seq<nat>)
    requires ValidPos(t, p) && forall k :: 0 <= k < |idx| ==> idx[k] < |At(t, p).content|
    ensures AllValid(t, Extend(p, idx))
  {
    forall k | 0 <= k < |idx| ensures ValidPos(t, Extend(p, idx)[k]) {
      AtAppend(t, p, idx[k]);
    }
  }

  /**
    One step applied to every current node, in order: the selected children of the first
    node, then those of the second, and so on; the first node that cannot take the step
    decides the error.
   */
  function StepAll(t: Node, cur: seq<Pos>, st: Step): (r: Result<seq<Pos>, ResolveError>)
    requires AllValid(t, cur)
    ensures r.Ok? ==> AllValid(t, r.value)
  {
    if cur == [] then Ok([])
    else
      match StepAll(t, cur[..|cur| - 1], st)
      case Err(e) => Err(e)
      case Ok(qs) =>
        var p := cur[|cur| - 1];
        match Select(At(t, p), st)
        case Err(e) => Err(e)
        case Ok(idx) =>
          ExtendValid(t, p, idx);
          Ok(qs + Extend(p, idx))
  }

  /** What `resolveTargets` computes: the positions of the selected nodes, or the first error. */
  function Resolve(root: Node, steps: seq<Step>): (r: Result<seq<Pos>, ResolveError>)
    ensures r.Ok? ==> AllValid(root, r.value)
  {
    if steps == [] then Ok([Start(root)])
    else
      match Resolve(root, steps[..|steps| - 1])
      case Err(e) => Err(e)
      case Ok(cur) => StepAll(root, cur, steps[|steps| - 1])
  }

  /** The nodes at the given positions. */
  function Targets(root: Node, ps: seq<Pos>): (ns: seq<Node>)
    requires AllValid(root, ps)
    ensures |ns| == |ps| && forall k :: 0 <= k < |ps| ==> ns[k] == At(root, ps[k])
  {
    seq(|ps|, k requires 0 <= k < |ps| => At(root, ps[k]))
  }

  // ---------------------------------------------------------------------------
  // The imperative resolver

  /**
    The `switch` of `resolveTargets` for one current node: the indices of the children a
    step selects, found with the loops of the source.
   */
  method SelectChildren(n: Node, st: Step) returns (r: Result<seq<nat>, ResolveError>)
    requires n.kind == MappingNode ==> |n.content| % 2 == 0
    ensures r == Select(n, st)
  {
    match st {
      case Key(key) =>
        if n.kind != MappingNode {
          return Err(CannotDescend(n.kind, key));
        }
        var i := 0;
        while i < |n.content|
          invariant 0 <= i <= |n.content| && i % 2 == 0
          invariant FindKey(n.content, key, 0) == FindKey(n.content, key, i / 2)
          decreases |n.content| - i
        {
          assert 2 * (i / 2) == i;
          if n.content[i].value == key {
            return Ok([i + 1]);
          }
          i := i + 2;
        }
        return Err(KeyNotFound(key));
      case Index(idx) =>
        if n.kind != SequenceNode {
          return Err(NotASequence(idx, n.kind));
        }
        if idx < 0 || idx >= |n.content| {
          return Err(IndexOutOfRange(idx, |n.content|));
        }
        return Ok([idx]);
      case All =>
        if n.kind == SequenceNode {
          return Ok(seq(|n.content|, i => i));
        } else if n.kind == MappingNode {
          var next: seq<nat> := [];
          var i := 0;
          while i < |n.content|
            invariant 0 <= i <= |n.content| && i % 2 == 0
            invariant next == seq(i / 2, j => 2 * j + 1)
            decreases |n.content| - i
          {
            next := next + [i + 1];
            i := i + 2;
          }
          return Ok(next);
        } else {
          return Err(NotIterable(n.kind));
        }
    }
  }

  /** Go's `resolveTargets`, with positions standing for node pointers. */
  method ResolveTargets(root: Node, steps: seq<Step>) returns (r: Result<seq<Pos>, ResolveError>)
    requires WellFormed(root)
    ensures r == Resolve(root, steps)
  {
    var cur := [Start(root)];
    assert steps[..0] == [];
    var k := 0;
    while k < |steps|
      invariant 0 <= k <= |steps|
      invariant Resolve(root, steps[..k]) == Ok(cur)
    {
      var st := steps[k];
      var next: seq<Pos> := [];
      var m := 0;
      while m < |cur|
        invariant 0 <= m <= |cur| && AllValid(root, cur)
        invariant StepAll(root, cur[..m], st) == Ok(next)
      {
        var p := cur[m];
        assert ValidPos(root, p);
        AtWellFormed(root, p);
        var idx := SelectChildren(At(root, p), st);
        if idx.Err? {
          StepFails(root, steps, k, cur, m, idx.error);
          return Err(idx.error);
        }
        StepAllSnoc(root, cur, m, st, next, idx.value);
        next := next + Extend(p, idx.value);
        m := m + 1;
      }
      ResolveSnoc(root, steps, k, cur, next);
      cur := next;
      k := k + 1;
    }
    assert steps[..k] == steps;
    return Ok(cur);
  }

  lemma StepAllSnoc(t: Node, cur: seq<Pos>, m: nat, st: Step, next: seq<Pos>, idx: seq<nat>)
    requires AllValid(t, cur) && m < |cur|
    requires StepAll(t, cur[..m], st) == Ok(next) && Select(At(t, cur[m]), st) == Ok(idx)
    ensures StepAll(t, cur[..m + 1], st) == Ok(next + Extend(cur[m], idx))
  {
    assert cur[..m + 1][..m] == cur[..m];
  }

  lemma ResolveSnoc(root: Node, steps: seq<Step>, k: nat, cur: seq<Pos>, next: seq<Pos>)
    requires k < |steps| && Resolve(root, steps[..k]) == Ok(cur)
    requires StepAll(root, cur[..|cur|], steps[k]) == Ok(next)
    ensures Resolve(root, steps[..k + 1]) == Ok(next)
  {
    assert steps[..k + 1][..k] == steps[..k];
    assert cur[..|cur|] == cur;
  }

  /** A node that cannot take step `k` makes the whole resolution fail with its error. */
  lemma StepFails(root: Node, steps: seq<Step>, k: nat, cur: seq<Pos>, m: nat, e: ResolveError)
    requires k < |steps| && Resolve(root, steps[..k]) == Ok(cur) && m < |cur|
    requires StepAll(root, cur[..m], steps[k]).Ok? && Select(At(root, cur[m]), steps[k]) == Err(e)
    ensures Resolve(root, steps) == Err(e)
  {
    StepAllSnocError(root, cur, m, steps[k], e);
    StepAllErrorStays(root, cur, m + 1, steps[k], e);
    assert steps[..k + 1][..k] == steps[..k];
    ResolveErrorStays(root, steps, k + 1, e);
  }

  lemma {:induction false} StepAllErrorStays(t: Node, cur: seq<Pos>, n: nat, st: Step, e: ResolveError)
    requires AllValid(t, cur) && n <= |cur| && StepAll(t, cur[..n], st) == Err(e)
    ensures StepAll(t, cur, st) == Err(e)
    decreases |cur|
  {
    if n < |cur| {
      var init := cur[..|cur| - 1];
      assert init[..n] == cur[..n];
      StepAllErrorStays(t, init, n, st, e);
    } else {
      assert cur[..n] == cur;
    }
  }

  lemma {:induction false} ResolveErrorStays(root: Node, steps: seq<Step>, n: nat, e: ResolveError)
    requires n <= |steps| && Resolve(root, steps[..n]) == Err(e)
    ensures Resolve(root, steps) == Err(e)
    decreases |steps|
  {
    if n < |steps| {
      var init := steps[..|steps| - 1];
      assert init[..n] == steps[..n];
      ResolveErrorStays(root, init, n, e);
    } else {
      assert steps[..n] == steps;
    }
  }

  // ---------------------------------------------------------------------------
  // Properties of resolution

  predicate Distinct<T(==)>(s: seq<T>) {
    forall i, j :: 0 <= i < j < |s| ==> s[i] != s[j]
  }

  /**
    A frontier: positions of nodes of `t`, all at depth `d` and pairwise different, so that
    none lies inside another.
   */
  predicate Frontier(t: Node, ps: seq<Pos>, d: nat) {
    && AllValid(t, ps)
    && (forall k :: 0 <= k < |ps| ==> |ps[k]| == d)
    && Distinct(ps)
  }

  /** Every position StepAll produces is a child of one of the current positions. */
  lemma {:induction false} StepAllChildren(t: Node, cur: seq<Pos>, st: Step, d: nat)
    requires Frontier(t, cur, d) && StepAll(t, cur, st).Ok?
    ensures Frontier(t, StepAll(t, cur, st).value, d + 1)
    ensures forall q :: q in StepAll(t, cur, st).value ==> q[..d] in cur
  {
    if cur != [] {
      var init := cur[..|cur| - 1];
      var p := cur[|cur| - 1];
      assert Frontier(t, init, d);
      StepAllChildren(t, init, st, d);
      var qs := StepAll(t, init, st).value;
      var idx := Select(At(t, p), st).value;
      var ext := Extend(p, idx);
      assert StepAll(t, cur, st).value == qs + ext;
      forall q | q in ext ensures q[..d] == p {
        var k :| 0 <= k < |ext| && ext[k] == q;
        assert q == p + [idx[k]];
      }
      assert p !in init;
      var all: seq<Pos> := qs + ext;
      forall i, j | 0 <= i < j < |all| ensures all[i] != all[j] {
        if j < |qs| {
        } else if i >= |qs| {
          assert ext[i - |qs|] == p + [idx[i - |qs|]];
          assert ext[j - |qs|] == p + [idx[j - |qs|]];
          assert idx[i - |qs|] < idx[j - |qs|];
          assert ext[i - |qs|][d] != ext[j - |qs|][d];
        } else {
          assert qs[i] in qs && ext[j - |qs|] in ext;
          assert qs[i][..d] in init;
        }
      }
    }
  }

  /**
    The targets of a path form a frontier: valid positions, all as deep as the start
    position plus one level per step, and pairwise different.
   */
  lemma {:induction false} ResolveFrontier(root: Node, steps: seq<Step>)
    requires Resolve(root, steps).Ok?
    ensures Frontier(root, Resolve(root, steps).value, |Start(root)| + |steps|)
  {
    if steps != [] {
      var init := steps[..|steps| - 1];
      ResolveFrontier(root, init);
      StepAllChildren(root, Resolve(root, init).value, steps[|steps| - 1], |Start(root)| + |init|);
    }
  }

  /** What a step reads of a node: its kind, its number of children and its children's texts. */
  predicate SameShape(n: Node, m: Node) {
    && n.kind == m.kind && |n.content| == |m.content|
    && forall j :: 0 <= j < |n.content| ==> n.content[j].value == m.content[j].value
  }

  lemma {:induction false} FindKeySameShape(c: seq<Node>, e: seq<Node>, key: string, j: nat)
    requires |c| == |e| && forall i :: 0 <= i < |c| ==> c[i].value == e[i].value
    ensures FindKey(c, key, j) == FindKey(e, key, j)
    decreases |c| - 2 * j
  {
    if 2 * j + 1 < |c| {
      FindKeySameShape(c, e, key, j + 1);
    }
  }

  /** A step selects the same children of two nodes of the same shape. */
  lemma SelectSameShape(n: Node, m: Node, st: Step)
    requires SameShape(n, m)
    ensures Select(n, st) == Select(m, st)
  {
    if st.Key? {
      FindKeySameShape(n.content, m.content, st.key, 0);
    }
  }

  lemma {:induction false} StepAllSameShape(t: Node, u: Node, cur: seq<Pos>, st: Step)
    requires AllValid(t, cur) && AllValid(u, cur)
    requires forall k :: 0 <= k < |cur| ==> SameShape(At(t, cur[k]), At(u, cur[k]))
    ensures StepAll(t, cur, st) == StepAll(u, cur, st)
  {
    if cur != [] {
      var init := cur[..|cur| - 1];
      assert forall k :: 0 <= k < |init| ==> init[k] == cur[k];
      StepAllSameShape(t, u, init, st);
      SelectSameShape(At(t, cur[|cur| - 1]), At(u, cur[|cur| - 1]), st);
    }
  }

  /** Two trees whose nodes above depth `d` are at the same positions and have the same shapes. */
  ghost predicate ShapedAlike(t: Node, u: Node, d: nat) {
    forall q :: |q| < d && ValidPos(t, q) ==> ValidPos(u, q) && SameShape(At(t, q), At(u, q))
  }

  /**
    Resolution reads only the nodes above its targets, and of those only their shapes:
    two trees that agree there resolve a path alike, to the same positions or the same
    error.
   */
  lemma {:induction false} ResolveShapedAlike(t: Node, u: Node, steps: seq<Step>)
    requires Start(t) == Start(u) && ShapedAlike(t, u, |Start(t)| + |steps|)
    ensures Resolve(t, steps) == Resolve(u, steps)
    decreases |steps|
  {
    if steps != [] {
      var init := steps[..|steps| - 1];
      ResolveShapedAlike(t, u, init);
      if Resolve(t, init).Ok? {
        var cur := Resolve(t, init).value;
        ResolveFrontier(t, init);
        forall k | 0 <= k < |cur| ensures ValidPos(u, cur[k]) && SameShape(At(t, cur[k]), At(u, cur[k])) {
          assert |cur[k]| < |Start(t)| + |steps|;
        }
        StepAllSameShape(t, u, cur, steps[|steps| - 1]);
      }
    }
  }

  /**
    A step fails exactly when some current node cannot take it, and then with the error
    of the first such node.
   */
  lemma StepAllError(t: Node, cur: seq<Pos>, st: Step, e: ResolveError)
    requires AllValid(t, cur)
    ensures StepAll(t, cur, st) == Err(e) <==>
      exists k :: 0 <= k < |cur| && Select(At(t, cur[k]), st) == Err(e) &&
        forall l :: 0 <= l < k ==> Select(At(t, cur[l]), st).Ok?
  {
    if StepAll(t, cur, st) == Err(e) {
      StepAllOk(t, cur, st);
      var j :| 0 <= j < |cur| && Select(At(t, cur[j]), st).Err?;
      var k := LeastFailing(t, cur, st, j);
      StepAllErrorAt(t, cur, st, k);
    }
    if exists k :: 0 <= k < |cur| && Select(At(t, cur[k]), st) == Err(e) &&
        forall l :: 0 <= l < k ==> Select(At(t, cur[l]), st).Ok? {
      var k :| 0 <= k < |cur| && Select(At(t, cur[k]), st) == Err(e) &&
        forall l :: 0 <= l < k ==> Select(At(t, cur[l]), st).Ok?;
      StepAllErrorAt(t, cur, st, k);
    }
  }

  /** The first node that cannot take the step decides the error of the step. */
  lemma StepAllErrorAt(t: Node, cur: seq<Pos>, st: Step, k: nat)
    requires AllValid(t, cur) && k < |cur| && Select(At(t, cur[k]), st).Err?
    requires forall l :: 0 <= l < k ==> Select(At(t, cur[l]), st).Ok?
    ensures StepAll(t, cur, st) == Err(Select(At(t, cur[k]), st).error)
  {
    var pre := cur[..k];
    assert AllValid(t, pre) && forall l :: 0 <= l < k ==> Select(At(t, pre[l]), st).Ok? by {
      assert forall l :: 0 <= l < k ==> pre[l] == cur[l];
    }
    StepAllOk(t, pre, st);
    var e := Select(At(t, cur[k]), st).error;
    StepAllSnocError(t, cur, k, st, e);
    StepAllErrorStays(t, cur, k + 1, st, e);
  }

  lemma StepAllSnocError(t: Node, cur: seq<Pos>, m: nat, st: Step, e: ResolveError)
    requires AllValid(t, cur) && m < |cur|
    requires StepAll(t, cur[..m], st).Ok? && Select(At(t, cur[m]), st) == Err(e)
    ensures StepAll(t, cur[..m + 1], st) == Err(e)
  {
    assert cur[..m + 1][..m] == cur[..m];
  }

  lemma {:induction false} LeastFailing(t: Node, cur: seq<Pos>, st: Step, j: nat) returns (k: nat)
    requires AllValid(t, cur) && j < |cur| && Select(At(t, cur[j]), st).Err?
    ensures k <= j && Select(At(t, cur[k]), st).Err?
    ensures forall l :: 0 <= l < k ==> Select(At(t, cur[l]), st).Ok?
    decreases j
  {
    if l :| 0 <= l < j && Select(At(t, cur[l]), st).Err? {
      k := LeastFailing(t, cur, st, l);
    } else {
      k := j;
    }
  }

  /** A step succeeds exactly when every current node can take it. */
  lemma {:induction false} StepAllOk(t: Node, cur: seq<Pos>, st: Step)
    requires AllValid(t, cur)
    ensures StepAll(t, cur, st).Ok? <==> forall k :: 0 <= k < |cur| ==> Select(At(t, cur[k]), st).Ok?
  {
    if cur != [] {
      var init := cur[..|cur| - 1];
      StepAllOk(t, init, st);
      assert forall l :: 0 <= l < |init| ==> cur[l] == init[l];
    }
  }

  /**
    A key step selects the value of the first pair whose key text is the key, and fails
    when the node is not a mapping or no key matches.
   */
  lemma SelectKey(n: Node, key: string)
    ensures n.kind != MappingNode ==> Select(n, Key(key)) == Err(CannotDescend(n.kind, key))
    ensures n.kind == MappingNode ==>
      (Select(n, Key(key)).Ok? <==> exists m: nat :: 2 * m + 1 < |n.content| && KeyText(n.content, m) == key)
    ensures Select(n, Key(key)).Ok? ==>
      exists m: nat :: Select(n, Key(key)).value == [2 * m + 1] && 2 * m + 1 < |n.content| &&
        KeyText(n.content, m) == key && forall l :: 0 <= l < m ==> KeyText(n.content, l) != key
  {
    if n.kind == MappingNode {
      var r := FindKey(n.content, key, 0);
      if r.Some? {
        assert Select(n, Key(key)).value == [2 * r.value + 1];
      }
    }
  }

  /** An index step selects that element of a sequence, and nothing else. */
  lemma SelectIndex(n: Node, i: int)
    ensures Select(n, Index(i)).Ok? <==> n.kind == SequenceNode && 0 <= i < |n.content|
    ensures Select(n, Index(i)).Ok? ==> Select(n, Index(i)).value == [i]
  {
  }

  /**
    The fan-out step selects every element of a sequence and every value of a mapping, in
    their order, and fails on any other kind of node.
   */
  lemma SelectAll(n: Node)
    requires n.kind == MappingNode ==> |n.content| % 2 == 0
    ensures n.kind == SequenceNode ==>
      && Select(n, All).Ok?
      && |Select(n, All).value| == |n.content|
      && forall k :: 0 <= k < |n.content| ==> Select(n, All).value[k] == k
    ensures n.kind == MappingNode ==>
      && Select(n, All).Ok?
      && 2 * |Select(n, All).value| == |n.content|
      && forall k :: 0 <= k < |n.content| / 2 ==> Select(n, All).value[k] == 2 * k + 1
    ensures n.kind != SequenceNode && n.kind != MappingNode ==> Select(n, All) == Err(NotIterable(n.kind))
  {
  }
  /** A key or index step that succeeds selects exactly one child. */
  lemma SelectSingle(n: Node, st: Step)
    requires st != All && Select(n, st).Ok?
    ensures |Select(n, st).value| == 1
  {
  }

  /** Without fan-out a step keeps the number of current nodes. */
  lemma {:induction false} StepAllSingle(t: Node, cur: seq<Pos>, st: Step)
    requires st != All && AllValid(t, cur) && StepAll(t, cur, st).Ok?
    ensures |StepAll(t, cur, st).value| == |cur|
  {
    if cur != [] {
      var init := cur[..|cur| - 1];
      StepAllSingle(t, init, st);
      SelectSingle(At(t, cur[|cur| - 1]), st);
    }
  }

  /** A path without a `[*]` step that resolves selects exactly one node. */
  lemma {:induction false} ResolveWithoutLoop(root: Node, steps: seq<Step>)
    requires All !in steps && Resolve(root, steps).Ok?
    ensures |Resolve(root, steps).value| == 1
  {
    if steps != [] {
      var init := steps[..|steps| - 1];
      assert All !in init;
      ResolveWithoutLoop(root, init);
      StepAllSingle(root, Resolve(root, init).value, steps[|steps| - 1]);
    }
  }
}
