/**
  The document tree the sorting engine works on: the part of the YAML library's node
  type that the engine reads (kind, scalar text, ordered children), positions of nodes
  inside a tree, and replacing the node at a position.
 */
module Yaml {

  /** The node kinds of the YAML library. */
  datatype Kind = DocumentNode | SequenceNode | MappingNode | ScalarNode | AliasNode

  /**
    One node. A mapping's `content` holds key, value, key, value, ...; a sequence's its
    elements; a document's its single root node; a scalar's `value` is its text.
   */
  datatype Node = Node(kind: Kind, value: string, content: seq<Node>)

  function Scalar(v: string): Node { Node(ScalarNode, v, []) }
  function Mapping(c: seq<Node>): Node { Node(MappingNode, "", c) }
  function Sequence(c: seq<Node>): Node { Node(SequenceNode, "", c) }
  function Document(c: seq<Node>): Node { Node(DocumentNode, "", c) }

  /** Every mapping in the tree has an even number of children, i.e. whole key/value pairs. */
  predicate WellFormed(n: Node) {
    && (n.kind == MappingNode ==> |n.content| % 2 == 0)
    && forall i :: 0 <= i < |n.content| ==> WellFormed(n.content[i])
  }

  /** The text of the key of pair `i` of a mapping's content. */
  function KeyText(c: seq<Node>, i: nat): string
    requires 2 * i < |c|
  {
    c[2 * i].value
  }

  /** A position is the list of child indices leading from the root to a node. */
  type Pos = seq<nat>

  predicate ValidPos(t: Node, p: Pos) {
    p == [] || (p[0] < |t.content| && ValidPos(t.content[p[0]], p[1..]))
  }

  /** The node at position `p`. */
  function At(t: Node, p: Pos): Node
    requires ValidPos(t, p)
  {
    if p == [] then t else At(t.content[p[0]], p[1..])
  }

  /** The tree with the node at position `p` replaced by `x`, every other node left as it was. */
  function Update(t: Node, p: Pos, x: Node): (r: Node)
    requires ValidPos(t, p)
    ensures ValidPos(r, p) && At(r, p) == x
    ensures p != [] ==> r.kind == t.kind && r.value == t.value && |r.content| == |t.content|
  {
    if p == [] then x
    else
      var c := Update(t.content[p[0]], p[1..], x);
      assert (p[0] as nat) < |t.content|;
      t.(content := t.content[p[0] := c])
  }

  /** Descending one more child level extends the position by that child's index. */
  lemma {:induction false} AtAppend(t: Node, p: Pos, i: nat)
    requires ValidPos(t, p) && i < |At(t, p).content|
    ensures ValidPos(t, p + [i]) && At(t, p + [i]) == At(t, p).content[i]
  {
    if p != [] {
      assert (p + [i])[1..] == p[1..] + [i];
      AtAppend(t.content[p[0]], p[1..], i);
    }
  }

  /**
    Replacing the node at `p` leaves the node at every other position of the same depth
    where it was: neither position lies inside the other.
   */
  lemma {:induction false} UpdateElsewhere(t: Node, p: Pos, q: Pos, x: Node)
    requires ValidPos(t, p) && ValidPos(t, q) && |p| == |q| && p != q
    ensures ValidPos(Update(t, p, x), q) && At(Update(t, p, x), q) == At(t, q)
  {
    if p[0] != q[0] {
    } else {
      UpdateElsewhere(t.content[p[0]], p[1..], q[1..], x);
    }
  }

  /** Writing back the node that is already at a position changes nothing. */
  lemma {:induction false} UpdateSame(t: Node, p: Pos)
    requires ValidPos(t, p)
    ensures Update(t, p, At(t, p)) == t
  {
    if p != [] {
      UpdateSame(t.content[p[0]], p[1..]);
      assert t.content[p[0] := t.content[p[0]]] == t.content;
    }
  }

  /** Replacing a node of a well-formed tree by a well-formed node keeps the tree well formed. */
  lemma {:induction false} UpdateWellFormed(t: Node, p: Pos, x: Node)
    requires ValidPos(t, p) && WellFormed(t) && WellFormed(x)
    ensures WellFormed(Update(t, p, x))
  {
    if p != [] {
      UpdateWellFormed(t.content[p[0]], p[1..], x);
    }
  }

  /** Every node of a well-formed tree is well formed. */
  lemma {:induction false} AtWellFormed(t: Node, p: Pos)
    requires ValidPos(t, p) && WellFormed(t)
    ensures WellFormed(At(t, p))
  {
    if p != [] {
      AtWellFormed(t.content[p[0]], p[1..]);
    }
  }

  /**
    Replacing the node at `p` keeps the kind, text and number of children of every node
    above that depth, on the way to `p` or elsewhere.
   */
  lemma {:induction false} UpdateAbove(t: Node, p: Pos, q: Pos, x: Node)
    requires ValidPos(t, p) && ValidPos(t, q) && |q| < |p|
    ensures var u := Update(t, p, x);
      && ValidPos(u, q) && At(u, q).kind == At(t, q).kind && At(u, q).value == At(t, q).value
      && |At(u, q).content| == |At(t, q).content|
  {
    if q != [] {
      if p[0] == q[0] {
        UpdateAbove(t.content[p[0]], p[1..], q[1..], x);
      } else {
        assert Update(t, p, x).content[q[0]] == t.content[q[0]];
      }
    }
  }
}
