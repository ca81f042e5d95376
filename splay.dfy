/** The splay tree of the crate's example program. Its nodes live in an arena and link to
    each other by index, with `NIL` (`!0`) for a missing link. Every insert splays the new
    node up to the root. The shape the links describe is the ghost `Tree`. */
module SplayTree {
  import opened Bits
  import Blocks

  /** `Node<T>`: the links to the parent and to the two children, and the value. */
  datatype Node = Node(parent: nat, left: nat, right: nat, value: int)
  {
    /** `children[dir]`. */
    function Child(dir: nat): nat
    {
      if dir == 0 then left else right
    }

    /** The node with `children[dir]` set to `c`. */
    function WithChild(dir: nat, c: nat): Node
    {
      if dir == 0 then this.(left := c) else this.(right := c)
    }
  }

  /** `Node::new`: a node without links. */
  function NewNode(value: int): Node
  {
    Node(NIL, NIL, NIL, value)
  }

  /** `dir ^ 1` for a direction 0 or 1. */
  function Other(dir: nat): nat
  {
    if dir == 0 then 1 else 0
  }

  /** The side of `n` that `rotate` finds `b` on: 0 when `children[0] == b`, else 1. */
  function Side(n: Node, b: nat): nat
  {
    if n.left == b then 0 else 1
  }

  /** The parent `n` with its child link to `a` redirected to `y`, as the end of `rotate`
      does it. */
  function Relinked(n: Node, a: nat, y: nat): Node
  {
    n.WithChild(Side(n, a), y)
  }

  /** The tree the links describe, with arena indices as keys. */
  datatype Tree = Leaf | Branch(left: Tree, key: nat, right: Tree)

  /** The index a link to `t` holds. */
  ghost function Root(t: Tree): nat
  {
    if t.Leaf? then NIL else t.key
  }

  /** The subtree on side `dir`. */
  ghost function Kid(t: Tree, dir: nat): Tree
    requires t.Branch?
  {
    if dir == 0 then t.left else t.right
  }

  /** `t` with the subtree on side `dir` replaced by `s`. */
  ghost function WithKid(t: Tree, dir: nat, s: Tree): Tree
    requires t.Branch?
  {
    if dir == 0 then t.(left := s) else t.(right := s)
  }

  ghost function Keys(t: Tree): set<nat>
  {
    match t
    case Leaf => {}
    case Branch(l, k, r) => Keys(l) + {k} + Keys(r)
  }

  /** No index occurs twice. */
  ghost predicate Distinct(t: Tree)
  {
    match t
    case Leaf => true
    case Branch(l, k, r) =>
      Distinct(l) && Distinct(r) && k !in Keys(l) && k !in Keys(r) && Keys(l) !! Keys(r)
  }

  /** The indices in the order the in-order walk of `print` visits them. */
  ghost function InOrder(t: Tree): seq<nat>
  {
    match t
    case Leaf => []
    case Branch(l, k, r) => InOrder(l) + [k] + InOrder(r)
  }

  /** The links of `nodes` from `x` down describe `t`, and the parent link of `x` is
      `parent`: each child's parent link points back to the node that holds it. */
  ghost predicate Links(nodes: seq<Node>, t: Tree, x: nat, parent: nat)
  {
    match t
    case Leaf => x == NIL
    case Branch(l, k, r) =>
      x == k && k != NIL && k < |nodes| && nodes[k].parent == parent &&
      Links(nodes, l, nodes[k].left, k) && Links(nodes, r, nodes[k].right, k)
  }

  /** Binary search tree order on the values: no value on the left is above the node's,
      and none on the right is below it. */
  ghost predicate Ordered(nodes: seq<Node>, t: Tree)
  {
    match t
    case Leaf => true
    case Branch(l, k, r) =>
      k < |nodes| && Ordered(nodes, l) && Ordered(nodes, r) &&
      (forall j :: j in Keys(l) ==> j < |nodes| && nodes[j].value <= nodes[k].value) &&
      (forall j :: j in Keys(r) ==> j < |nodes| && nodes[k].value <= nodes[j].value)
  }

  /** The values of the nodes at `ks`, in turn, never decrease. */
  ghost predicate Nondecreasing(nodes: seq<Node>, ks: seq<nat>)
  {
    (forall i :: 0 <= i < |ks| ==> ks[i] < |nodes|) &&
    forall i, j :: 0 <= i < j < |ks| ==> nodes[ks[i]].value <= nodes[ks[j]].value
  }

  /** `n1` keeps every node of `n0` with its value; only links may differ. */
  ghost predicate SameValues(n0: seq<Node>, n1: seq<Node>)
  {
    |n0| <= |n1| && forall k :: 0 <= k < |n0| ==> n1[k].value == n0[k].value
  }

  /** The subtree whose root is `a`. */
  ghost function Sub(t: Tree, a: nat): Tree
    requires a in Keys(t)
  {
    match t
    case Branch(l, k, r) =>
      if a == k then t else if a in Keys(l) then Sub(l, a) else Sub(r, a)
  }

  /** `t` with the subtree whose root is `a` replaced by `s`. */
  ghost function Replace(t: Tree, a: nat, s: Tree): Tree
    requires a in Keys(t)
  {
    match t
    case Branch(l, k, r) =>
      if a == k then s
      else if a in Keys(l) then Branch(Replace(l, a, s), k, r)
      else Branch(l, k, Replace(r, a, s))
  }

  /** The number of links from the root down to `a`. */
  ghost function Depth(t: Tree, a: nat): nat
    requires a in Keys(t)
  {
    match t
    case Branch(l, k, r) =>
      if a == k then 0 else if a in Keys(l) then 1 + Depth(l, a) else 1 + Depth(r, a)
  }

  /** The subtree `s`, rooted at `a` with child `b` on side `dir`, after `rotate(a, b)`:
      `b`'s inner subtree moves to `a`'s side `dir` and `a` becomes `b`'s child on the
      other side. */
  ghost function Rotated(s: Tree, dir: nat): Tree
    requires s.Branch? && Kid(s, dir).Branch?
  {
    var c := Kid(s, dir);
    WithKid(c, Other(dir), WithKid(s, dir, Kid(c, Other(dir))))
  }

  /** The tree after a search-tree insert of node `n`: it goes left of a node whose value
      is above its own and right otherwise, down to a missing link. */
  ghost function Attach(nodes: seq<Node>, t: Tree, n: nat): Tree
    requires n < |nodes|
  {
    match t
    case Leaf => Branch(Leaf, n, Leaf)
    case Branch(l, k, r) =>
      if k < |nodes| && nodes[n].value < nodes[k].value then Branch(Attach(nodes, l, n), k, r)
      else Branch(l, k, Attach(nodes, r, n))
  }

  // ---------------------------------------------------------------------------------------
  // Facts about the tree and its links

  /** Every index the links reach is a node of the arena, and `x` is the tree's root. */
  lemma {:induction false} LinksKeys(nodes: seq<Node>, t: Tree, x: nat, parent: nat)
    requires Links(nodes, t, x, parent)
    ensures Root(t) == x && (t.Leaf? <==> x == NIL)
    ensures forall k :: k in Keys(t) ==> k != NIL && k < |nodes|
  {
    match t
    case Leaf =>
    case Branch(l, k, r) =>
      LinksKeys(nodes, l, nodes[k].left, k);
      LinksKeys(nodes, r, nodes[k].right, k);
  }

  lemma {:induction false} InOrderKeys(t: Tree)
    ensures forall k :: k in InOrder(t) <==> k in Keys(t)
  {
    match t
    case Leaf =>
    case Branch(l, k, r) =>
      InOrderKeys(l);
      InOrderKeys(r);
  }

  /** The subtree at `a` is rooted at `a`, lies within `t` and inherits its properties. */
  lemma {:induction false} SubFacts(nodes: seq<Node>, t: Tree, a: nat)
    requires a in Keys(t)
    ensures Sub(t, a).Branch? && Sub(t, a).key == a && Keys(Sub(t, a)) <= Keys(t)
    ensures Distinct(t) ==> Distinct(Sub(t, a))
    ensures Ordered(nodes, t) ==> Ordered(nodes, Sub(t, a))
  {
    match t
    case Branch(l, k, r) =>
      if a == k {
      } else if a in Keys(l) {
        SubFacts(nodes, l, a);
      } else {
        SubFacts(nodes, r, a);
      }
  }

  /** The links from `a` down describe the subtree at `a`. */
  lemma {:induction false} SubLinks(nodes: seq<Node>, t: Tree, x: nat, parent: nat, a: nat)
    requires Links(nodes, t, x, parent) && a in Keys(t)
    ensures a < |nodes| && Links(nodes, Sub(t, a), a, nodes[a].parent)
  {
    match t
    case Branch(l, k, r) =>
      if a == k {
      } else if a in Keys(l) {
        SubLinks(nodes, l, nodes[k].left, k, a);
      } else {
        SubLinks(nodes, r, nodes[k].right, k, a);
      }
  }

  /** Below the root, the parent link of `c` points at a node of the tree outside `c`'s
      subtree that holds `c` as a child, one level up. */
  lemma {:induction false} ParentLink(nodes: seq<Node>, t: Tree, x: nat, parent: nat, c: nat)
    requires Links(nodes, t, x, parent) && Distinct(t) && c in Keys(t) && c != x
    ensures c < |nodes|
    ensures var p := nodes[c].parent;
      p in Keys(t) && p !in Keys(Sub(t, c)) && p < |nodes| &&
      (nodes[p].left == c || nodes[p].right == c) && Depth(t, c) == Depth(t, p) + 1
  {
    LinksKeys(nodes, t, x, parent);
    match t
    case Branch(l, k, r) =>
      if c in Keys(l) {
        LinksKeys(nodes, l, nodes[k].left, k);
        if c != nodes[k].left {
          ParentLink(nodes, l, nodes[k].left, k, c);
        }
      } else {
        LinksKeys(nodes, r, nodes[k].right, k);
        if c != nodes[k].right {
          ParentLink(nodes, r, nodes[k].right, k, c);
        }
      }
  }

  /** A child link of a node of the tree leads to a node one level down whose parent link
      points back, and the two child links of a node differ unless both are `NIL`. */
  lemma {:induction false} ChildLink(nodes: seq<Node>, t: Tree, x: nat, parent: nat, k: nat, dir: nat)
    requires Links(nodes, t, x, parent) && Distinct(t) && k in Keys(t) && dir <= 1
    ensures k < |nodes|
    ensures var c := nodes[k].Child(dir);
      c != NIL ==>
        c in Keys(t) && c < |nodes| && nodes[c].parent == k && Depth(t, c) == Depth(t, k) + 1 &&
        c != nodes[k].Child(Other(dir))
  {
    LinksKeys(nodes, t, x, parent);
    match t
    case Branch(l, j, r) =>
      if k == j {
        LinksKeys(nodes, l, nodes[k].left, k);
        LinksKeys(nodes, r, nodes[k].right, k);
      } else if k in Keys(l) {
        ChildLink(nodes, l, nodes[j].left, j, k, dir);
      } else {
        ChildLink(nodes, r, nodes[j].right, j, k, dir);
      }
  }

  /** The root is the only node whose parent link is `NIL`. */
  lemma RootParent(nodes: seq<Node>, t: Tree, x: nat, c: nat)
    requires Links(nodes, t, x, NIL) && Distinct(t) && c in Keys(t)
    ensures c < |nodes| && (nodes[c].parent == NIL <==> c == x)
  {
    LinksKeys(nodes, t, x, NIL);
    if c != x {
      ParentLink(nodes, t, x, NIL, c);
    }
  }

  /** Links only depend on the nodes of the tree. */
  lemma {:induction false} LinksFrame(n0: seq<Node>, n1: seq<Node>, t: Tree, x: nat, parent: nat)
    requires Links(n0, t, x, parent)
    requires forall k :: k in Keys(t) ==> k < |n0| && k < |n1| && n1[k] == n0[k]
    ensures Links(n1, t, x, parent)
  {
    match t
    case Leaf =>
    case Branch(l, k, r) =>
      LinksFrame(n0, n1, l, n0[k].left, k);
      LinksFrame(n0, n1, r, n0[k].right, k);
  }

  /** Changing only the parent link of the root of `t` moves `t` under a new parent. */
  lemma Reparent(n0: seq<Node>, n1: seq<Node>, t: Tree, parent: nat, parent': nat)
    requires t.Branch? && Links(n0, t, t.key, parent) && Distinct(t)
    requires t.key < |n1| && n1[t.key] == n0[t.key].(parent := parent')
    requires forall k :: k in Keys(t) && k != t.key ==> k < |n0| && k < |n1| && n1[k] == n0[k]
    ensures Links(n1, t, t.key, parent')
  {
    LinksKeys(n0, t, t.key, parent);
    LinksFrame(n0, n1, t.left, n0[t.key].left, t.key);
    LinksFrame(n0, n1, t.right, n0[t.key].right, t.key);
  }

  lemma {:induction false} ReplaceKeys(t: Tree, a: nat, s: Tree)
    requires a in Keys(t) && Keys(s) == Keys(Sub(t, a))
    ensures Keys(Replace(t, a, s)) == Keys(t)
  {
    match t
    case Branch(l, k, r) =>
      if a == k {
      } else if a in Keys(l) {
        ReplaceKeys(l, a, s);
      } else {
        ReplaceKeys(r, a, s);
      }
  }

  lemma {:induction false} ReplaceDistinct(t: Tree, a: nat, s: Tree)
    requires a in Keys(t) && Distinct(t) && Distinct(s) && Keys(s) == Keys(Sub(t, a))
    ensures Distinct(Replace(t, a, s))
  {
    match t
    case Branch(l, k, r) =>
      if a == k {
      } else if a in Keys(l) {
        ReplaceDistinct(l, a, s);
        ReplaceKeys(l, a, s);
      } else {
        ReplaceDistinct(r, a, s);
        ReplaceKeys(r, a, s);
      }
  }

  /** Replacing a subtree by one with the same in-order walk keeps the walk of the whole. */
  lemma {:induction false} ReplaceInOrder(t: Tree, a: nat, s: Tree)
    requires a in Keys(t) && InOrder(s) == InOrder(Sub(t, a))
    ensures InOrder(Replace(t, a, s)) == InOrder(t)
  {
    match t
    case Branch(l, k, r) =>
      if a == k {
      } else if a in Keys(l) {
        ReplaceInOrder(l, a, s);
      } else {
        ReplaceInOrder(r, a, s);
      }
  }

  /** Replacing a subtree by an ordered one over the same nodes keeps the order. */
  lemma {:induction false} ReplaceOrdered(nodes: seq<Node>, t: Tree, a: nat, s: Tree)
    requires a in Keys(t) && Ordered(nodes, t) && Ordered(nodes, s) && Keys(s) == Keys(Sub(t, a))
    ensures Ordered(nodes, Replace(t, a, s))
  {
    match t
    case Branch(l, k, r) =>
      if a == k {
      } else if a in Keys(l) {
        ReplaceOrdered(nodes, l, a, s);
        ReplaceKeys(l, a, s);
      } else {
        ReplaceOrdered(nodes, r, a, s);
        ReplaceKeys(r, a, s);
      }
  }

  /** The root of the new subtree takes over the depth of the subtree it replaces. */
  lemma {:induction false} ReplaceDepth(t: Tree, a: nat, s: Tree)
    requires a in Keys(t) && Distinct(t) && s.Branch? && Keys(s) == Keys(Sub(t, a))
    ensures s.key in Keys(Replace(t, a, s)) && Depth(Replace(t, a, s), s.key) == Depth(t, a)
  {
    SubFacts([], t, a);
    ReplaceKeys(t, a, s);
    match t
    case Branch(l, k, r) =>
      if a == k {
      } else if a in Keys(l) {
        SubFacts([], l, a);
        ReplaceDepth(l, a, s);
        ReplaceKeys(l, a, s);
      } else {
        SubFacts([], r, a);
        ReplaceDepth(r, a, s);
        ReplaceKeys(r, a, s);
      }
  }

  /** Order depends on the values only. */
  lemma {:induction false} OrderedFrame(n0: seq<Node>, n1: seq<Node>, t: Tree)
    requires Ordered(n0, t) && SameValues(n0, n1)
    ensures Ordered(n1, t)
  {
    match t
    case Leaf =>
    case Branch(l, k, r) =>
      OrderedFrame(n0, n1, l);
      OrderedFrame(n0, n1, r);
  }

  /** A rotation keeps the nodes, their in-order walk and the search-tree order. */
  lemma RotatedFacts(nodes: seq<Node>, s: Tree, dir: nat)
    requires s.Branch? && Kid(s, dir).Branch? && dir <= 1
    ensures Rotated(s, dir).key == Kid(s, dir).key
    ensures Keys(Rotated(s, dir)) == Keys(s)
    ensures Distinct(s) ==> Distinct(Rotated(s, dir))
    ensures InOrder(Rotated(s, dir)) == InOrder(s)
    ensures Ordered(nodes, s) ==> Ordered(nodes, Rotated(s, dir))
  {
    var c := Kid(s, dir);
    if dir == 0 {
      assert InOrder(s) == InOrder(c.left) + [c.key] + InOrder(c.right) + [s.key] + InOrder(s.right);
    } else {
      assert InOrder(s) == InOrder(s.left) + [s.key] + InOrder(c.left) + [c.key] + InOrder(c.right);
    }
    if Ordered(nodes, s) {
      RotatedOrdered(nodes, s, dir);
    }
    if Distinct(s) {
      RotatedDistinct(s, dir);
    }
  }

  lemma RotatedDistinct(s: Tree, dir: nat)
    requires s.Branch? && Kid(s, dir).Branch? && dir <= 1 && Distinct(s)
    ensures Distinct(Rotated(s, dir))
  {
    var c := Kid(s, dir);
    var inner := WithKid(s, dir, Kid(c, Other(dir)));
    if dir == 0 {
      assert Keys(s.left) == Keys(c.left) + {c.key} + Keys(c.right);
      assert Keys(inner) == Keys(c.right) + {s.key} + Keys(s.right);
      assert Distinct(inner);
    } else {
      assert Keys(s.right) == Keys(c.left) + {c.key} + Keys(c.right);
      assert Keys(inner) == Keys(s.left) + {s.key} + Keys(c.left);
      assert Distinct(inner);
    }
  }

  lemma RotatedOrdered(nodes: seq<Node>, s: Tree, dir: nat)
    requires s.Branch? && Kid(s, dir).Branch? && dir <= 1 && Ordered(nodes, s)
    ensures Ordered(nodes, Rotated(s, dir))
  {
    var c := Kid(s, dir);
    var inner := WithKid(s, dir, Kid(c, Other(dir)));
    assert Keys(c) <= Keys(s);
    if dir == 0 {
      assert Ordered(nodes, inner);
      assert forall j :: j in Keys(inner) ==> j < |nodes| && nodes[c.key].value <= nodes[j].value;
    } else {
      assert Ordered(nodes, inner);
      assert forall j :: j in Keys(inner) ==> j < |nodes| && nodes[j].value <= nodes[c.key].value;
    }
  }

  /** An ordered tree's in-order walk visits nondecreasing values: what `print` shows. */
  lemma {:induction false} OrderedSorted(nodes: seq<Node>, t: Tree)
    requires Ordered(nodes, t)
    ensures Nondecreasing(nodes, InOrder(t))
  {
    match t
    case Leaf =>
    case Branch(l, k, r) =>
      OrderedSorted(nodes, l);
      OrderedSorted(nodes, r);
      InOrderKeys(l);
      InOrderKeys(r);
      SortedJoin(nodes, InOrder(l), k, InOrder(r));
  }

  /** Two nondecreasing runs joined by a value between them. */
  lemma SortedJoin(nodes: seq<Node>, L: seq<nat>, k: nat, R: seq<nat>)
    requires Nondecreasing(nodes, L) && Nondecreasing(nodes, R) && k < |nodes|
    requires forall i :: 0 <= i < |L| ==> nodes[L[i]].value <= nodes[k].value
    requires forall i :: 0 <= i < |R| ==> nodes[k].value <= nodes[R[i]].value
    ensures Nondecreasing(nodes, L + [k] + R)
  {
    var ks := L + [k] + R;
    forall i, j | 0 <= i < j < |ks|
      ensures nodes[ks[i]].value <= nodes[ks[j]].value
    {
      if j < |L| {
        assert ks[i] == L[i] && ks[j] == L[j];
      } else if i < |L| {
        assert ks[i] == L[i];
        if j > |L| {
          assert ks[j] == R[j - |L| - 1];
        }
      } else if i == |L| {
        assert ks[j] == R[j - |L| - 1];
      } else {
        assert ks[i] == R[i - |L| - 1] && ks[j] == R[j - |L| - 1];
      }
    }
  }

  /** Inserting adds `n` to the nodes and keeps them apart. */
  lemma {:induction false} AttachKeys(nodes: seq<Node>, t: Tree, n: nat)
    requires n < |nodes| && n !in Keys(t)
    ensures Keys(Attach(nodes, t, n)) == Keys(t) + {n}
    ensures Distinct(t) ==> Distinct(Attach(nodes, t, n))
  {
    match t
    case Leaf =>
    case Branch(l, k, r) =>
      AttachKeys(nodes, l, n);
      AttachKeys(nodes, r, n);
  }

  /** Inserting keeps the search-tree order. */
  lemma {:induction false} AttachOrdered(nodes: seq<Node>, t: Tree, n: nat)
    requires n < |nodes| && n !in Keys(t) && Ordered(nodes, t)
    ensures Ordered(nodes, Attach(nodes, t, n))
  {
    match t
    case Leaf =>
    case Branch(l, k, r) =>
      if nodes[n].value < nodes[k].value {
        var l' := Attach(nodes, l, n);
        AttachKeys(nodes, l, n);
        AttachOrdered(nodes, l, n);
        assert forall j :: j in Keys(l') ==> j < |nodes| && nodes[j].value <= nodes[k].value;
        assert Attach(nodes, t, n) == Branch(l', k, r);
      } else {
        var r' := Attach(nodes, r, n);
        AttachKeys(nodes, r, n);
        AttachOrdered(nodes, r, n);
        assert forall j :: j in Keys(r') ==> j < |nodes| && nodes[k].value <= nodes[j].value;
        assert Attach(nodes, t, n) == Branch(l, k, r');
      }
  }

  /** Inserting adds `n` once to the in-order walk. */
  lemma {:induction false} AttachInOrder(nodes: seq<Node>, t: Tree, n: nat)
    requires n < |nodes|
    ensures multiset(InOrder(Attach(nodes, t, n))) == multiset(InOrder(t)) + multiset{n}
  {
    if t.Branch? {
      var l, k, r := t.left, t.key, t.right;
      if k < |nodes| && nodes[n].value < nodes[k].value {
        var a := Attach(nodes, l, n);
        AttachInOrder(nodes, l, n);
        assert Attach(nodes, t, n) == Branch(a, k, r);
        assert InOrder(Branch(a, k, r)) == InOrder(a) + [k] + InOrder(r);
      } else {
        var a := Attach(nodes, r, n);
        AttachInOrder(nodes, r, n);
        assert Attach(nodes, t, n) == Branch(l, k, a);
        assert InOrder(Branch(l, k, a)) == InOrder(l) + [k] + InOrder(a);
      }
    }
  }

  /** The insert path depends on the values only. */
  lemma {:induction false} AttachValues(n0: seq<Node>, n1: seq<Node>, t: Tree, n: nat)
    requires n < |n0| && |n0| == |n1| && SameValues(n0, n1)
    ensures Attach(n0, t, n) == Attach(n1, t, n)
  {
    match t
    case Leaf =>
    case Branch(l, k, r) =>
      AttachValues(n0, n1, l, n);
      AttachValues(n0, n1, r, n);
  }

  /** Going down from `c` to its child on side `dir`: that child's subtree is the subtree
      at its root, and replacing it inside `c`'s subtree is replacing it in the tree. */
  lemma {:induction false} Descend(t: Tree, c: nat, dir: nat, s: Tree)
    requires Distinct(t) && c in Keys(t) && Sub(t, c).Branch? && Kid(Sub(t, c), dir).Branch?
    ensures var k := Kid(Sub(t, c), dir).key;
      k in Keys(t) && Sub(t, k) == Kid(Sub(t, c), dir) &&
      Replace(t, c, WithKid(Sub(t, c), dir, s)) == Replace(t, k, s)
  {
    match t
    case Branch(l, j, r) =>
      if c == j {
      } else if c in Keys(l) {
        SubFacts([], l, c);
        Descend(l, c, dir, s);
      } else {
        SubFacts([], r, c);
        Descend(r, c, dir, s);
      }
  }

  /** The links after `rotate(a, b)`, node by node, with `b` on side `dir` of `a`, `t`
      the child of `b` on the other side and `p` the parent of `a`: `a` takes `t` on side
      `dir` and hangs below `b`; `b` takes `a` on the other side and hangs below `p`; `t`
      hangs below `a`; `p` points to `b` where it pointed to `a`. No other node changes. */
  ghost predicate Rewired(n0: seq<Node>, n1: seq<Node>, a: nat, b: nat)
  {
    a < |n0| && b < |n0| && |n1| == |n0| &&
    var dir := Side(n0[a], b);
    var t := n0[b].Child(Other(dir));
    var p := n0[a].parent;
    n1[a] == n0[a].WithChild(dir, t).(parent := b) &&
    n1[b] == n0[b].WithChild(Other(dir), a).(parent := p) &&
    (t != NIL ==> t < |n0| && n1[t] == n0[t].(parent := a)) &&
    (p != NIL ==> p < |n0| && n1[p] == Relinked(n0[p], a, b)) &&
    forall k :: 0 <= k < |n0| && k != a && k != b && (t == NIL || k != t) && (p == NIL || k != p) ==>
      n1[k] == n0[k]
  }

  /** Rewiring changes links only. */
  lemma RewiredValues(n0: seq<Node>, n1: seq<Node>, a: nat, b: nat)
    requires Rewired(n0, n1, a, b)
    ensures SameValues(n0, n1)
  {
    var dir := Side(n0[a], b);
    var t := n0[b].Child(Other(dir));
    var p := n0[a].parent;
    forall k | 0 <= k < |n0|
      ensures n1[k].value == n0[k].value
    {
      if k == a {
        assert n0[a].WithChild(dir, t).value == n0[a].value;
      } else if k == b {
        assert n0[b].WithChild(Other(dir), a).value == n0[b].value;
      } else if k == p {
        assert Relinked(n0[p], a, b).value == n0[p].value;
      } else if k == t {
      }
    }
  }

  /** The rewired links of a subtree rooted at `a` describe the rotated subtree. */
  lemma RotateLinks(n0: seq<Node>, n1: seq<Node>, s: Tree, dir: nat, p: nat)
    requires s.Branch? && Kid(s, dir).Branch? && dir <= 1
    requires Links(n0, s, s.key, p) && Distinct(s) && p !in Keys(s)
    requires n0[s.key].Child(dir) == Kid(s, dir).key
    requires Rewired(n0, n1, s.key, Kid(s, dir).key)
    ensures Links(n1, Rotated(s, dir), Kid(s, dir).key, p)
  {
    var a, c := s.key, Kid(s, dir);
    var b := c.key;
    LinksKeys(n0, s, a, p);
    LinksKeys(n0, s.left, n0[a].left, a);
    LinksKeys(n0, s.right, n0[a].right, a);
    LinksKeys(n0, c.left, n0[b].left, b);
    LinksKeys(n0, c.right, n0[b].right, b);
    var y := Kid(c, Other(dir));
    var t := n0[b].Child(Other(dir));
    assert Side(n0[a], b) == dir;
    assert Root(y) == t;
    if dir == 0 {
      LinksFrame(n0, n1, c.left, n0[b].left, b);
      LinksFrame(n0, n1, s.right, n0[a].right, a);
    } else {
      LinksFrame(n0, n1, c.right, n0[b].right, b);
      LinksFrame(n0, n1, s.left, n0[a].left, a);
    }
    if y.Branch? {
      Reparent(n0, n1, y, b, a);
    }
  }

  /** Putting a subtree `s`, linked below the parent of `a`, in the place of `a`'s
      subtree: when only that subtree and the parent's link to it changed, the links
      describe the tree with the subtree replaced. */
  lemma {:induction false} Graft(n0: seq<Node>, n1: seq<Node>, t: Tree, x: nat, parent: nat, a: nat, s: Tree, y: nat)
    requires Links(n0, t, x, parent) && Distinct(t) && a in Keys(t) && a < |n0|
    requires Links(n1, s, y, n0[a].parent)
    requires forall k :: k in Keys(t) && k !in Keys(Sub(t, a)) && k != n0[a].parent ==>
      k < |n0| && k < |n1| && n1[k] == n0[k]
    requires a != x ==>
      n0[a].parent < |n0| && n0[a].parent < |n1| && n1[n0[a].parent] == Relinked(n0[n0[a].parent], a, y)
    ensures Links(n1, Replace(t, a, s), if a == x then y else x, parent)
  {
    LinksKeys(n0, t, x, parent);
    match t
    case Branch(l, k, r) =>
      var p := n0[a].parent;
      if a == k {
      } else if a in Keys(l) {
        LinksKeys(n0, l, n0[k].left, k);
        SubFacts([], l, a);
        if a == n0[k].left {
          LinksFrame(n0, n1, r, n0[k].right, k);
        } else {
          ParentLink(n0, l, n0[k].left, k, a);
          Graft(n0, n1, l, n0[k].left, k, a, s, y);
          LinksFrame(n0, n1, r, n0[k].right, k);
        }
      } else {
        LinksKeys(n0, l, n0[k].left, k);
        LinksKeys(n0, r, n0[k].right, k);
        SubFacts([], r, a);
        if a == n0[k].right {
          LinksFrame(n0, n1, l, n0[k].left, k);
        } else {
          ParentLink(n0, r, n0[k].right, k, a);
          Graft(n0, n1, r, n0[k].right, k, a, s, y);
          LinksFrame(n0, n1, l, n0[k].left, k);
        }
      }
  }

  /** The splay tree's invariant on values: the links from `x` describe `t`, which holds
      every node of the arena once, in search-tree order. */
  ghost predicate Shaped(nodes: seq<Node>, t: Tree, x: nat)
  {
    Links(nodes, t, x, NIL) && Distinct(t) && Keys(t) == Blocks.RangeSet(|nodes|) &&
    Ordered(nodes, t)
  }

  /** `Shaped`, reached through `depth` unfoldings and sealed the way `Blocks.Sealed` is:
      it equals `Shaped` at every depth (`SealedShapeAny`), and the methods of `Splay`
      see it as one fact that only `Unseal` opens. */
  ghost predicate SealedShape(depth: nat, nodes: seq<Node>, t: Tree, x: nat)
    decreases depth
  {
    if depth == 0 then Shaped(nodes, t, x) else SealedShape(depth - 1, nodes, t, x)
  }

  lemma SealedShapeAny(depth: nat, nodes: seq<Node>, t: Tree, x: nat)
    ensures SealedShape(depth, nodes, t, x) == Shaped(nodes, t, x)
    decreases depth
  {
    if depth > 0 {
      SealedShapeAny(depth - 1, nodes, t, x);
    }
  }

  /** The invariant as the class states it: which nodes the tree holds in the open, and
      `Shaped` sealed at depth `|nodes| + 1`. */
  ghost predicate Tidy(nodes: seq<Node>, t: Tree, x: nat)
  {
    Keys(t) == Blocks.RangeSet(|nodes|) && SealedShape(|nodes| + 1, nodes, t, x)
  }

  lemma Unseal(nodes: seq<Node>, t: Tree, x: nat)
    requires Tidy(nodes, t, x)
    ensures Shaped(nodes, t, x)
  {
    SealedShapeAny(|nodes| + 1, nodes, t, x);
  }

  lemma Seal(nodes: seq<Node>, t: Tree, x: nat)
    requires Shaped(nodes, t, x)
    ensures Tidy(nodes, t, x)
  {
    SealedShapeAny(|nodes| + 1, nodes, t, x);
  }

  /** The empty arena without a root is a splay tree. */
  lemma EmptyTidy()
    ensures Tidy([], Leaf, NIL)
  {
    Seal([], Leaf, NIL);
  }

  /** What the splay loop reads of a node's parent link: `NIL` exactly at the root, and
      otherwise a node one level up that holds `a` as a child. */
  lemma ParentFacts(nodes: seq<Node>, t: Tree, x: nat, a: nat)
    requires Tidy(nodes, t, x) && a < |nodes|
    ensures a in Keys(t) && a != NIL && (nodes[a].parent == NIL <==> a == x)
    ensures var p := nodes[a].parent;
      p != NIL ==>
        p < |nodes| && (nodes[p].left == a || nodes[p].right == a) && Depth(t, a) == Depth(t, p) + 1
  {
    Unseal(nodes, t, x);
    LinksKeys(nodes, t, x, NIL);
    RootParent(nodes, t, x, a);
    if a != x {
      ParentLink(nodes, t, x, NIL, a);
    }
  }

  /** What the splay loop reads of a node's child link: a node one level down, different
      from the other child. */
  lemma ChildFacts(nodes: seq<Node>, t: Tree, x: nat, k: nat, dir: nat)
    requires Tidy(nodes, t, x) && k < |nodes| && dir <= 1
    ensures var c := nodes[k].Child(dir);
      c != NIL ==>
        c in Keys(t) && c < |nodes| && Depth(t, c) == Depth(t, k) + 1 && c != nodes[k].Child(Other(dir))
  {
    Unseal(nodes, t, x);
    ChildLink(nodes, t, x, NIL, k, dir);
  }

  /** An ordered tree's in-order walk, as `print` does it, shows nondecreasing values. */
  lemma TidySorted(nodes: seq<Node>, t: Tree, x: nat)
    requires Tidy(nodes, t, x)
    ensures Nondecreasing(nodes, InOrder(t))
  {
    Unseal(nodes, t, x);
    OrderedSorted(nodes, t);
  }

  /** The nodes `rotate(a, b)` writes are distinct: `b` is below `a`, the inner child `t`
      is below `b`, and the parent `p` is above `a`. */
  lemma RotateSetup(nodes: seq<Node>, t0: Tree, r0: nat, a: nat, b: nat)
    requires Tidy(nodes, t0, r0) && a < |nodes|
    requires b != NIL && (nodes[a].left == b || nodes[a].right == b)
    ensures b < |nodes| && b != a && nodes[a].Child(Side(nodes[a], b)) == b
    ensures var dir := Side(nodes[a], b);
      var t := nodes[b].Child(Other(dir));
      var p := nodes[a].parent;
      (t != NIL ==> t < |nodes| && t != a && t != b) &&
      (p != NIL ==> p < |nodes| && p != a && p != b && p != t) &&
      (p == NIL <==> a == r0)
  {
    Unseal(nodes, t0, r0);
    var dir := Side(nodes[a], b);
    ChildLink(nodes, t0, r0, NIL, a, dir);
    ChildLink(nodes, t0, r0, NIL, b, Other(dir));
    RootParent(nodes, t0, r0, a);
    if a != r0 {
      ParentLink(nodes, t0, r0, NIL, a);
    }
  }

  /** After the writes of `rotate(a, b)` the links describe the tree with the subtree at
      `a` rotated, which is returned: its nodes, order and in-order walk are those of the
      old tree, and `b` sits at the depth `a` had. */
  lemma RotateStep(n0: seq<Node>, n1: seq<Node>, t0: Tree, r0: nat, a: nat, b: nat) returns (t1: Tree)
    requires Tidy(n0, t0, r0) && a < |n0|
    requires b != NIL && (n0[a].left == b || n0[a].right == b)
    requires Rewired(n0, n1, a, b)
    ensures Tidy(n1, t1, if n0[a].parent == NIL then b else r0) && InOrder(t1) == InOrder(t0)
    ensures b in Keys(t1) && Depth(t1, b) == Depth(t0, a)
  {
    Unseal(n0, t0, r0);
    RotateSetup(n0, t0, r0, a, b);
    t1 := RotateShaped(n0, n1, t0, r0, a, b);
    Seal(n1, t1, if n0[a].parent == NIL then b else r0);
  }

  /** `RotateStep` on the unsealed invariant. */
  lemma RotateShaped(n0: seq<Node>, n1: seq<Node>, t0: Tree, r0: nat, a: nat, b: nat) returns (t1: Tree)
    requires Shaped(n0, t0, r0) && a < |n0|
    requires b != NIL && (n0[a].left == b || n0[a].right == b)
    requires b < |n0| && b != a && n0[a].Child(Side(n0[a], b)) == b
    requires var dir := Side(n0[a], b);
      var t := n0[b].Child(Other(dir));
      var p := n0[a].parent;
      (t != NIL ==> t < |n0| && t != a && t != b) &&
      (p != NIL ==> p < |n0| && p != a && p != b && p != t) &&
      (p == NIL <==> a == r0)
    requires Rewired(n0, n1, a, b)
    ensures Shaped(n1, t1, if n0[a].parent == NIL then b else r0) && InOrder(t1) == InOrder(t0)
    ensures b in Keys(t1) && Depth(t1, b) == Depth(t0, a)
  {
    var dir := Side(n0[a], b);
    assert a in Keys(t0);
    RotateLinked(n0, n1, t0, r0, a, b);
    RewiredValues(n0, n1, a, b);
    RotateKept(n0, n1, t0, a, dir);
    t1 := Replace(t0, a, Rotated(Sub(t0, a), dir));
  }

  /** The links after `rotate(a, b)` describe the tree with the subtree at `a` rotated. */
  lemma RotateLinked(n0: seq<Node>, n1: seq<Node>, t0: Tree, r0: nat, a: nat, b: nat)
    requires Links(n0, t0, r0, NIL) && Distinct(t0) && a in Keys(t0) && a < |n0|
    requires b != NIL && (n0[a].left == b || n0[a].right == b)
    requires b < |n0| && b != a && n0[a].Child(Side(n0[a], b)) == b
    requires var dir := Side(n0[a], b);
      var t := n0[b].Child(Other(dir));
      var p := n0[a].parent;
      (t != NIL ==> t < |n0| && t != a && t != b) &&
      (p != NIL ==> p < |n0| && p != a && p != b && p != t) &&
      (p == NIL <==> a == r0)
    requires Rewired(n0, n1, a, b)
    ensures var dir := Side(n0[a], b);
      Sub(t0, a).Branch? && Kid(Sub(t0, a), dir).Branch? && Kid(Sub(t0, a), dir).key == b &&
      Links(n1, Replace(t0, a, Rotated(Sub(t0, a), dir)), if n0[a].parent == NIL then b else r0, NIL)
  {
    var p := n0[a].parent;
    var dir := Side(n0[a], b);
    LinksKeys(n0, t0, r0, NIL);
    SubFacts(n0, t0, a);
    SubLinks(n0, t0, r0, NIL, a);
    var s := Sub(t0, a);
    LinksKeys(n0, s, a, p);
    assert Links(n0, Kid(s, dir), b, a);
    LinksKeys(n0, Kid(s, dir), b, a);
    var c := Kid(s, dir);
    LinksKeys(n0, Kid(c, Other(dir)), n0[b].Child(Other(dir)), b);
    if a != r0 {
      ParentLink(n0, t0, r0, NIL, a);
    }
    RotateLinks(n0, n1, s, dir, p);
    RotatedFacts(n1, s, dir);
    Graft(n0, n1, t0, r0, NIL, a, Rotated(s, dir), b);
  }

  /** Rotating the subtree at `a` keeps the tree's nodes, their in-order walk and their
      order, whatever links change, and the child it lifts takes the depth of `a`. */
  lemma RotateKept(n0: seq<Node>, n1: seq<Node>, t0: Tree, a: nat, dir: nat)
    requires Distinct(t0) && Ordered(n0, t0) && SameValues(n0, n1) && dir <= 1
    requires a in Keys(t0) && Sub(t0, a).Branch? && Kid(Sub(t0, a), dir).Branch?
    ensures var t1 := Replace(t0, a, Rotated(Sub(t0, a), dir));
      var b := Kid(Sub(t0, a), dir).key;
      Keys(t1) == Keys(t0) && Distinct(t1) && InOrder(t1) == InOrder(t0) && Ordered(n1, t1) &&
      b in Keys(t1) && Depth(t1, b) == Depth(t0, a)
  {
    var s := Sub(t0, a);
    var s1 := Rotated(s, dir);
    SubFacts(n1, t0, a);
    OrderedFrame(n0, n1, t0);
    SubFacts(n1, t0, a);
    RotatedFacts(n1, s, dir);
    ReplaceKeys(t0, a, s1);
    ReplaceDistinct(t0, a, s1);
    ReplaceInOrder(t0, a, s1);
    ReplaceOrdered(n1, t0, a, s1);
    ReplaceDepth(t0, a, s1);
  }

  /** Hanging the new node `node` on the empty side `dir` of `curr`, and `curr` above it:
      the links describe the tree with that leaf added. */
  lemma AttachStep(n0: seq<Node>, n1: seq<Node>, t: Tree, x: nat, curr: nat, node: nat, dir: nat)
    requires Links(n0, t, x, NIL) && Distinct(t) && curr in Keys(t) && curr < |n0|
    requires node < |n0| && node != NIL && node !in Keys(t) && n0[node].left == NIL && n0[node].right == NIL
    requires dir <= 1 && n0[curr].Child(dir) == NIL
    requires n1 == n0[curr := n0[curr].WithChild(dir, node)][node := n0[node].(parent := curr)]
    ensures Sub(t, curr).Branch? && Kid(Sub(t, curr), dir) == Leaf
    ensures Links(n1, Replace(t, curr, WithKid(Sub(t, curr), dir, Branch(Leaf, node, Leaf))), x, NIL)
  {
    SubFacts(n0, t, curr);
    SubLinks(n0, t, x, NIL, curr);
    var sub := Sub(t, curr);
    var p := n0[curr].parent;
    LinksKeys(n0, sub, curr, p);
    LinksKeys(n0, Kid(sub, dir), n0[curr].Child(dir), curr);
    LinksKeys(n0, Kid(sub, Other(dir)), n0[curr].Child(Other(dir)), curr);
    LinksFrame(n0, n1, Kid(sub, Other(dir)), n0[curr].Child(Other(dir)), curr);
    var s := WithKid(sub, dir, Branch(Leaf, node, Leaf));
    assert Links(n1, Branch(Leaf, node, Leaf), node, curr);
    assert Links(n1, s, curr, p);
    LinksKeys(n0, t, x, NIL);
    if curr != x {
      ParentLink(n0, t, x, NIL, curr);
      assert Relinked(n0[p], curr, curr) == n0[p];
    }
    Graft(n0, n1, t, x, NIL, curr, s, curr);
  }

  /** A node appended to the arena is not yet in the tree, and the tree's links and order
      are unaffected by it. */
  lemma AppendNode(n0: seq<Node>, nd: Node, t: Tree, x: nat)
    requires Links(n0, t, x, NIL) && Ordered(n0, t) && Keys(t) == Blocks.RangeSet(|n0|)
    ensures Links(n0 + [nd], t, x, NIL) && Ordered(n0 + [nd], t) && |n0| !in Keys(t)
    ensures Keys(t) + {|n0|} == Blocks.RangeSet(|n0| + 1)
  {
    AppendFrame(n0, nd, t);
    LinksFrame(n0, n0 + [nd], t, x, NIL);
    OrderedFrame(n0, n0 + [nd], t);
    AppendKeys(Keys(t), |n0|);
  }

  /** Appending leaves the nodes of the tree and their values as they were. */
  lemma AppendFrame(n0: seq<Node>, nd: Node, t: Tree)
    requires Keys(t) == Blocks.RangeSet(|n0|)
    ensures forall k :: k in Keys(t) ==> k < |n0| && k < |n0 + [nd]| && (n0 + [nd])[k] == n0[k]
    ensures SameValues(n0, n0 + [nd])
  {
    forall k | k in Keys(t)
      ensures k < |n0| && (n0 + [nd])[k] == n0[k]
    {
      assert k in Blocks.RangeSet(|n0|);
    }
  }

  /** The indices below `n`, and then `n`. */
  lemma AppendKeys(ks: set<nat>, n: nat)
    requires ks == Blocks.RangeSet(n)
    ensures n !in ks && ks + {n} == Blocks.RangeSet(n + 1)
  {
    var r := Blocks.RangeSet(n + 1);
    forall k: nat
      ensures k in ks + {n} <==> k in r
    {
      assert k in ks <==> k < n;
    }
  }

  /** The root link is `NIL` exactly when the tree, and so the arena, is empty. */
  lemma TidyRoot(nodes: seq<Node>, t: Tree, x: nat)
    requires Tidy(nodes, t, x)
    ensures x == NIL <==> t == Leaf
    ensures x == NIL ==> nodes == []
    ensures x != NIL ==> t.Branch? && t.key == x && x in Keys(t)
  {
    Unseal(nodes, t, x);
    assert |nodes| > 0 ==> 0 in Keys(t);
  }

  /** The first node inserted becomes the root of a one-node tree. */
  lemma FirstNode(value: int)
    ensures Tidy([NewNode(value)], Branch(Leaf, 0, Leaf), 0)
  {
    assert Keys(Branch(Leaf, 0, Leaf)) == Blocks.RangeSet(1);
    Seal([NewNode(value)], Branch(Leaf, 0, Leaf), 0);
  }

  /** One step of the insert descent, with the node for `value` appended to `n0`: from
      `curr` it goes to the child `next` on side `dir`, one level down, and the tree the
      descent builds is the same seen from `next`. */
  lemma DescendStep(n0: seq<Node>, value: int, t: Tree, x: nat, curr: nat, dir: nat)
    requires Tidy(n0, t, x) && curr in Keys(t) && curr < |n0|
    requires dir == (if value < n0[curr].value then 0 else 1)
    requires n0[curr].Child(dir) != NIL
    ensures var n1 := n0 + [NewNode(value)];
      var next := n0[curr].Child(dir);
      next in Keys(t) && Sub(t, curr).Branch? && Sub(t, next).Branch? &&
      (Sub(t, next) == Sub(t, curr).left || Sub(t, next) == Sub(t, curr).right) &&
      Replace(t, curr, Attach(n1, Sub(t, curr), |n0|)) == Replace(t, next, Attach(n1, Sub(t, next), |n0|))
  {
    Unseal(n0, t, x);
    var n1 := n0 + [NewNode(value)];
    var node := |n0|;
    AppendNode(n0, NewNode(value), t, x);
    SubFacts(n1, t, curr);
    SubLinks(n1, t, x, NIL, curr);
    var sub := Sub(t, curr);
    LinksKeys(n1, sub, curr, n1[curr].parent);
    assert Links(n1, Kid(sub, dir), n1[curr].Child(dir), curr);
    LinksKeys(n1, Kid(sub, dir), n1[curr].Child(dir), curr);
    assert Attach(n1, sub, node) == WithKid(sub, dir, Attach(n1, Kid(sub, dir), node));
    Descend(t, curr, dir, Attach(n1, Kid(sub, dir), node));
    SubFacts(n1, t, n1[curr].Child(dir));
  }

  /** The end of the insert descent, with the node for `value` appended to `n0`: `curr`
      has no child on side `dir`, and after the node hangs there the arena is a splay tree
      of the tree with the node inserted. Values do not change. */
  lemma AttachLeaf(n0: seq<Node>, value: int, t: Tree, x: nat, curr: nat, dir: nat)
    requires Tidy(n0, t, x) && curr in Keys(t) && curr < |n0| < NIL
    requires dir == (if value < n0[curr].value then 0 else 1)
    requires n0[curr].Child(dir) == NIL
    requires var n1 := n0 + [NewNode(value)];
      Replace(t, curr, Attach(n1, Sub(t, curr), |n0|)) == Attach(n1, t, |n0|)
    ensures var n1 := n0 + [NewNode(value)];
      var n2 := n1[curr := n1[curr].WithChild(dir, |n0|)][|n0| := n1[|n0|].(parent := curr)];
      Tidy(n2, Attach(n1, t, |n0|), x) && SameValues(n1, n2)
  {
    Unseal(n0, t, x);
    AttachShaped(n0, value, t, x, curr, dir);
    var n1 := n0 + [NewNode(value)];
    var n2 := n1[curr := n1[curr].WithChild(dir, |n0|)][|n0| := n1[|n0|].(parent := curr)];
    Seal(n2, Attach(n1, t, |n0|), x);
  }

  /** `AttachLeaf` on the unsealed invariant. */
  lemma AttachShaped(n0: seq<Node>, value: int, t: Tree, x: nat, curr: nat, dir: nat)
    requires Shaped(n0, t, x) && curr in Keys(t) && curr < |n0| < NIL
    requires dir == (if value < n0[curr].value then 0 else 1)
    requires n0[curr].Child(dir) == NIL
    requires var n1 := n0 + [NewNode(value)];
      Replace(t, curr, Attach(n1, Sub(t, curr), |n0|)) == Attach(n1, t, |n0|)
    ensures var n1 := n0 + [NewNode(value)];
      var n2 := n1[curr := n1[curr].WithChild(dir, |n0|)][|n0| := n1[|n0|].(parent := curr)];
      Shaped(n2, Attach(n1, t, |n0|), x) && SameValues(n1, n2)
  {
    var n1 := n0 + [NewNode(value)];
    var node := |n0|;
    var n2 := n1[curr := n1[curr].WithChild(dir, node)][node := n1[node].(parent := curr)];
    AppendNode(n0, NewNode(value), t, x);
    AttachLinks(n1, n2, t, x, curr, node, dir);
    assert SameValues(n1, n2);
    AttachKept(n1, n2, t, node);
  }

  /** The links after hanging `node` at the end of the descent describe the tree with
      `node` inserted. */
  lemma AttachLinks(n1: seq<Node>, n2: seq<Node>, t: Tree, x: nat, curr: nat, node: nat, dir: nat)
    requires Links(n1, t, x, NIL) && Distinct(t) && curr in Keys(t) && curr < |n1|
    requires node < |n1| && node != NIL && node !in Keys(t) && n1[node].left == NIL && n1[node].right == NIL
    requires dir == (if n1[node].value < n1[curr].value then 0 else 1) && n1[curr].Child(dir) == NIL
    requires n2 == n1[curr := n1[curr].WithChild(dir, node)][node := n1[node].(parent := curr)]
    requires Replace(t, curr, Attach(n1, Sub(t, curr), node)) == Attach(n1, t, node)
    ensures Links(n2, Attach(n1, t, node), x, NIL)
  {
    AttachStep(n1, n2, t, x, curr, node, dir);
    SubFacts(n1, t, curr);
    var sub := Sub(t, curr);
    assert Attach(n1, sub, node) == WithKid(sub, dir, Branch(Leaf, node, Leaf));
  }

  /** Inserting `node` keeps the nodes apart and in search-tree order, whatever links
      change. */
  lemma AttachKept(n1: seq<Node>, n2: seq<Node>, t: Tree, node: nat)
    requires node < |n1| && node !in Keys(t) && Distinct(t) && Ordered(n1, t) && SameValues(n1, n2)
    ensures Keys(Attach(n1, t, node)) == Keys(t) + {node}
    ensures Distinct(Attach(n1, t, node)) && Ordered(n2, Attach(n1, t, node))
  {
    AttachKeys(n1, t, node);
    AttachOrdered(n1, t, node);
    OrderedFrame(n1, n2, Attach(n1, t, node));
  }

  /** After `insert(value)` has appended its node to `n0` and linked it in, giving `n2`
      and `t2`: the node holds `value`, the in-order walk is the old tree's with the node
      inserted, and its values never decrease. */
  lemma Inserted(n0: seq<Node>, value: int, t0: Tree, n2: seq<Node>, t2: Tree)
    requires var n1 := n0 + [NewNode(value)];
      |n2| == |n1| && SameValues(n1, n2) && Tidy(n2, t2, |n0|) &&
      InOrder(t2) == InOrder(Attach(n1, t0, |n0|))
    ensures n2[|n0|].value == value && SameValues(n0, n2)
    ensures InOrder(t2) == InOrder(Attach(n2, t0, |n0|))
    ensures multiset(InOrder(t2)) == multiset(InOrder(t0)) + multiset{|n0| as nat}
    ensures Nondecreasing(n2, InOrder(t2))
  {
    var n1 := n0 + [NewNode(value)];
    assert n1[|n0|].value == value;
    AttachValues(n1, n2, t0, |n0|);
    AttachInOrder(n1, t0, |n0|);
    TidySorted(n2, t2, |n0|);
  }

  /** `Splay<T>`: a splay tree whose nodes live in an arena. The arena is the sequence
      `nodes`; the tree never removes a node, so the arena's indices are
      `0 .. |nodes| - 1`, in the order of insertion. */
  class Splay {
    var nodes: seq<Node>
    var root: nat
    /** The tree the links describe. */
    ghost var tree: Tree

    /** The links from `root` describe `tree`, which holds every node of the arena once,
        in search-tree order (`Shaped`, sealed in `Tidy`). */
    ghost predicate Valid()
      reads this
    {
      Tidy(nodes, tree, root)
    }

    /** `new`: an empty arena and no root. */
    constructor ()
      ensures Valid() && nodes == [] && root == NIL && tree == Leaf
    {
      nodes := [];
      root := NIL;
      tree := Leaf;
      EmptyTidy();
    }

    /** `rotate(a, b)`: `b`, a child of `a`, takes the place of `a`, and `a` becomes the
        child of `b` on the other side. The in-order walk is unchanged, and `b` rises to
        the depth `a` had. */
    method Rotate(a: nat, b: nat)
      requires Valid() && a < |nodes| && b != NIL && (nodes[a].left == b || nodes[a].right == b)
      modifies this
      ensures Valid() && Rewired(old(nodes), nodes, a, b) && SameValues(old(nodes), nodes)
      ensures root == if old(nodes[a].parent) == NIL then b else old(root)
      ensures InOrder(tree) == InOrder(old(tree))
      ensures b in Keys(tree) && Depth(tree, b) == old(Depth(tree, a))
    {
      ghost var n0, t0, r0 := nodes, tree, root;
      RotateSetup(nodes, tree, root, a, b);
      Rewire(a, b);
      RewiredValues(n0, nodes, a, b);
      tree := RotateStep(n0, nodes, t0, r0, a, b);
    }

    /** The link writes of `rotate(a, b)`, in the source's order. They need only that
        `a`, `b`, the inner child `t` and the parent `p` are different nodes. */
    method Rewire(a: nat, b: nat)
      requires a < |nodes| && b < |nodes| && b != a
      requires var t := nodes[b].Child(Other(Side(nodes[a], b)));
        t != NIL ==> t < |nodes| && t != a && t != b
      requires var t := nodes[b].Child(Other(Side(nodes[a], b)));
        var p := nodes[a].parent;
        p != NIL ==> p < |nodes| && p != a && p != b && p != t
      modifies this
      ensures Rewired(old(nodes), nodes, a, b) && tree == old(tree)
      ensures root == if old(nodes[a].parent) == NIL then b else old(root)
    {
      var p := nodes[a].parent;
      var dir := Side(nodes[a], b);
      var t := nodes[b].Child(Other(dir));
      nodes := nodes[a := nodes[a].WithChild(dir, t)];
      if t != NIL {
        nodes := nodes[t := nodes[t].(parent := a)];
      }
      nodes := nodes[b := nodes[b].WithChild(Other(dir), a)];
      nodes := nodes[a := nodes[a].(parent := b)];
      if p == NIL {
        root := b;
        nodes := nodes[b := nodes[b].(parent := NIL)];
      } else {
        var d := Side(nodes[p], a);
        nodes := nodes[p := nodes[p].WithChild(d, b)];
        nodes := nodes[b := nodes[b].(parent := p)];
      }
    }

    /** `splay(a)`: rotates `a` up, a zig-zig or zig-zag step at a time and a single
        rotation below the root, until it is the root. The in-order walk is unchanged. */
    method Splay(a: nat)
      requires Valid() && a < |nodes|
      modifies this
      ensures Valid() && root == a && a < |nodes| && nodes[a].parent == NIL
      ensures |nodes| == old(|nodes|) && SameValues(old(nodes), nodes)
      ensures InOrder(tree) == InOrder(old(tree))
    {
      while true
        invariant Valid() && a < |nodes| && a in Keys(tree)
        invariant |nodes| == old(|nodes|) && SameValues(old(nodes), nodes)
        invariant InOrder(tree) == InOrder(old(tree))
        decreases Depth(tree, a)
      {
        ParentFacts(nodes, tree, root, a);
        var b := nodes[a].parent;
        if b == NIL {
          break;
        }
        var c := nodes[b].parent;
        if c == NIL {
          ParentFacts(nodes, tree, root, b);
          Rotate(b, a);
          ParentFacts(nodes, tree, root, a);
          break;
        }
        SplayStep(a, b, c);
      }
    }

    /** One zig-zig or zig-zag step of `splay(a)`, with `b` the parent of `a` and `c` the
        parent of `b`: `a` rises two levels. */
    method SplayStep(a: nat, b: nat, c: nat)
      requires Valid() && a < |nodes| && b < |nodes| && a in Keys(tree)
      requires nodes[a].parent == b && b != NIL && nodes[b].parent == c && c != NIL
      modifies this
      ensures Valid() && a < |nodes| && a in Keys(tree) && Depth(tree, a) == old(Depth(tree, a)) - 2
      ensures |nodes| == old(|nodes|) && SameValues(old(nodes), nodes)
      ensures InOrder(tree) == InOrder(old(tree))
    {
      ParentFacts(nodes, tree, root, a);
      ParentFacts(nodes, tree, root, b);
      var isL := nodes[c].left == b && nodes[b].left == a;
      var isR := nodes[c].right == b && nodes[b].right == a;
      if isL || isR {
        ZigZig(a, b, c);
      } else {
        ZigZag(a, b, c);
      }
    }

    /** Zig-zig: `a` and `b` are children on the same side, so `b` rotates over `c`
        first, then `a` over `b`. */
    method ZigZig(a: nat, b: nat, c: nat)
      requires Valid() && a < |nodes| && b < |nodes| && c < |nodes| && a != NIL && b != NIL && c != NIL
      requires nodes[a].parent == b && nodes[b].parent == c
      requires (nodes[c].left == b && nodes[b].left == a) || (nodes[c].right == b && nodes[b].right == a)
      requires a in Keys(tree) && b in Keys(tree) && c in Keys(tree)
      requires Depth(tree, a) == Depth(tree, b) + 1 && Depth(tree, b) == Depth(tree, c) + 1
      modifies this
      ensures Valid() && a < |nodes| && a in Keys(tree) && Depth(tree, a) == old(Depth(tree, a)) - 2
      ensures |nodes| == old(|nodes|) && SameValues(old(nodes), nodes)
      ensures InOrder(tree) == InOrder(old(tree))
    {
      ghost var dir := Side(nodes[c], b);
      ChildFacts(nodes, tree, root, c, 0);
      assert nodes[b].Child(dir) == a;
      Rotate(c, b);
      assert nodes[b].Child(dir) == a;
      Rotate(b, a);
    }

    /** Zig-zag: `a` and `b` are children on different sides, so `a` rotates over `b`,
        which puts it below `c`, then over `c`. */
    method ZigZag(a: nat, b: nat, c: nat)
      requires Valid() && a < |nodes| && b < |nodes| && c < |nodes| && a != NIL && b != NIL && c != NIL
      requires nodes[a].parent == b && nodes[b].parent == c
      requires nodes[b].left == a || nodes[b].right == a
      requires a in Keys(tree) && b in Keys(tree) && c in Keys(tree)
      requires Depth(tree, a) == Depth(tree, b) + 1 && Depth(tree, b) == Depth(tree, c) + 1
      modifies this
      ensures Valid() && a < |nodes| && a in Keys(tree) && Depth(tree, a) == old(Depth(tree, a)) - 2
      ensures |nodes| == old(|nodes|) && SameValues(old(nodes), nodes)
      ensures InOrder(tree) == InOrder(old(tree))
    {
      Rotate(b, a);
      assert nodes[a].parent == c;
      ParentFacts(nodes, tree, root, a);
      Rotate(c, a);
    }

    /** `insert(value)`: the new node goes into the arena, hangs below the node where a
        search-tree descent from the root ends (left when `value` is below the node's,
        right otherwise), and is splayed to the root. The in-order walk gains the new node
        where that descent puts it, and its values still never decrease. */
    method Insert(value: int)
      requires Valid() && |nodes| < NIL
      modifies this
      ensures Valid() && |nodes| == old(|nodes|) + 1 && root == old(|nodes|)
      ensures nodes[root].value == value && SameValues(old(nodes), nodes)
      ensures InOrder(tree) == InOrder(Attach(nodes, old(tree), root))
      ensures multiset(InOrder(tree)) == multiset(InOrder(old(tree))) + multiset{root}
      ensures Nondecreasing(nodes, InOrder(tree))
    {
      ghost var n0, t0, r0 := nodes, tree, root;
      var node := |nodes|;
      nodes := nodes + [NewNode(value)];
      ghost var n1 := nodes;
      ghost var goal := Attach(n1, t0, node);
      TidyRoot(n0, t0, r0);
      if root == NIL {
        FirstNode(value);
        assert nodes == [NewNode(value)] && node == 0;
        root := node;
        tree := Branch(Leaf, node, Leaf);
      } else {
        var curr := root;
        while true
          invariant nodes == n1 && tree == t0 && root == r0
          invariant curr in Keys(t0) && curr < |n0|
          invariant Replace(t0, curr, Attach(n1, Sub(t0, curr), node)) == goal
          decreases Sub(t0, curr)
        {
          var dir := if nodes[node].value < nodes[curr].value then 0 else 1;
          var next := nodes[curr].Child(dir);
          if next == NIL {
            Hang(curr, dir, node, n0, t0, value);
            break;
          }
          DescendStep(n0, value, t0, r0, curr, dir);
          curr := next;
        }
      }
      Inserted(n0, value, t0, nodes, tree);
    }

    /** The end of `insert`: `node`, the last node of the arena, hangs on the empty side
        `dir` of `curr`, where the descent ended, and is splayed to the root. */
    method Hang(curr: nat, dir: nat, node: nat, ghost n0: seq<Node>, ghost t0: Tree, ghost value: int)
      requires Tidy(n0, t0, root) && nodes == n0 + [NewNode(value)] && tree == t0 && node == |n0|
      requires curr in Keys(t0) && curr < |n0| < NIL && nodes[curr].Child(dir) == NIL
      requires dir == (if value < n0[curr].value then 0 else 1)
      requires Replace(t0, curr, Attach(nodes, Sub(t0, curr), node)) == Attach(nodes, t0, node)
      modifies this
      ensures Valid() && root == node && |nodes| == |n0| + 1
      ensures SameValues(old(nodes), nodes) && InOrder(tree) == InOrder(Attach(old(nodes), t0, node))
    {
      AttachLeaf(n0, value, t0, root, curr, dir);
      ghost var goal := Attach(nodes, t0, node);
      nodes := nodes[curr := nodes[curr].WithChild(dir, node)];
      nodes := nodes[node := nodes[node].(parent := curr)];
      tree := goal;
      Splay(node);
    }
  }
}
