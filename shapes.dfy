/**
 * The abstract view of the ordered tree of package `base`.
 *
 * A `Shape` records which node sits where in the tree and which key it
 * holds; `Wired` says that the heap (the nodes' `left`, `right` and `value`
 * fields) matches a shape. A `Ctx` is a zipper: the path from a subtree back
 * up to the root, with the sibling subtrees met on the way. Whole-tree facts
 * split into a fact about the context and a fact about the subtree in the
 * hole (the `Plug...` lemmas), so an update of one node's field can be
 * reasoned about locally.
 */
module Shapes {
  import opened Nodes

  datatype Shape = Nil | Cell(node: Node, key: int, left: Shape, right: Shape)

  /** The way from a subtree up to the root: `InLeft` when the subtree is the left child of `node`. */
  datatype Ctx =
    | Top
    | InLeft(node: Node, key: int, up: Ctx, right: Shape)
    | InRight(node: Node, key: int, left: Shape, up: Ctx)

  // ---------------------------------------------------------------------
  // Shapes as values

  /** The pointer that refers to a subtree: its root node, or null for the empty tree. */
  ghost function Ptr(s: Shape): (p: Node?)
  {
    if s.Nil? then null else s.node
  }

  /** The multiset of keys held by a subtree. */
  ghost function Elements(s: Shape): (keys: multiset<int>)
  {
    match s
    case Nil => multiset{}
    case Cell(_, k, l, r) => Elements(l) + multiset{k} + Elements(r)
  }

  /** The nodes of a subtree. */
  ghost function NodeSet(s: Shape): (nodes: set<Node>)
  {
    match s
    case Nil => {}
    case Cell(n, _, l, r) => {n} + NodeSet(l) + NodeSet(r)
  }

  /** Every node occurs once: the links form a tree, with no sharing and no cycle. */
  ghost predicate Unique(s: Shape)
  {
    match s
    case Nil => true
    case Cell(n, _, l, r) =>
      Unique(l) && Unique(r) && n !in NodeSet(l) && n !in NodeSet(r) && NodeSet(l) !! NodeSet(r)
  }

  /**
   * The ordering invariant: every key in a left subtree is at most the
   * node's key, and every key in a right subtree is at least the node's key.
   * Insertion sends equal keys left; copying a successor during removal can
   * leave an equal key on the right, hence "at least" on both sides.
   */
  ghost predicate Ordered(s: Shape)
  {
    match s
    case Nil => true
    case Cell(_, k, l, r) =>
      Ordered(l) && Ordered(r) &&
      (forall x :: x in Elements(l) ==> x <= k) &&
      (forall x :: x in Elements(r) ==> k <= x)
  }

  /** The keys in the order an in-order walk visits them. */
  ghost function InOrder(s: Shape): (walk: seq<int>)
  {
    match s
    case Nil => []
    case Cell(_, k, l, r) => InOrder(l) + [k] + InOrder(r)
  }

  ghost predicate NonDecreasing(q: seq<int>)
  {
    forall i, j :: 0 <= i < j < |q| ==> q[i] <= q[j]
  }

  /** The key of the leftmost node. */
  ghost function MinKey(s: Shape): (least: int)
    requires s.Cell?
  {
    if s.left.Nil? then s.key else MinKey(s.left)
  }

  /** The key of the rightmost node. */
  ghost function MaxKey(s: Shape): (greatest: int)
    requires s.Cell?
  {
    if s.right.Nil? then s.key else MaxKey(s.right)
  }

  /** The leftmost node: the one reached by following left links from the root. */
  ghost function Leftmost(s: Shape): (n: Node)
    requires s.Cell?
    ensures n in NodeSet(s)
  {
    if s.left.Nil? then s.node else Leftmost(s.left)
  }

  /** The rightmost node: the one reached by following right links from the root. */
  ghost function Rightmost(s: Shape): (n: Node)
    requires s.Cell?
    ensures n in NodeSet(s)
  {
    if s.right.Nil? then s.node else Rightmost(s.right)
  }

  /** The subtree with its leftmost node spliced out (replaced by that node's right child). */
  ghost function RemoveMin(s: Shape): (t: Shape)
    requires s.Cell?
  {
    if s.left.Nil? then s.right else Cell(s.node, s.key, RemoveMin(s.left), s.right)
  }

  /**
   * What removing the root node of a subtree leaves in its place: with two
   * children, the root node takes the key of the leftmost node of the right
   * subtree, which is spliced out; otherwise the only child (the left one if
   * there is one) takes the root's place.
   */
  ghost function DeleteRoot(s: Shape): (t: Shape)
    requires s.Cell?
  {
    if s.left.Cell? && s.right.Cell? then Cell(s.node, MinKey(s.right), s.left, RemoveMin(s.right))
    else if s.left.Cell? then s.left
    else s.right
  }

  // ---------------------------------------------------------------------
  // Contexts

  /** The whole tree obtained by putting `s` into the hole of `c`. */
  ghost function Plug(c: Ctx, s: Shape): (whole: Shape)
  {
    match c
    case Top => s
    case InLeft(n, k, up, r) => Plug(up, Cell(n, k, s, r))
    case InRight(n, k, l, up) => Plug(up, Cell(n, k, l, s))
  }

  /** The node whose child link points at the hole, or null at the root. */
  ghost function Parent(c: Ctx): (p: Node?)
  {
    if c.Top? then null else c.node
  }

  ghost function CtxElements(c: Ctx): (keys: multiset<int>)
  {
    match c
    case Top => multiset{}
    case InLeft(_, k, up, r) => multiset{k} + Elements(r) + CtxElements(up)
    case InRight(_, k, l, up) => Elements(l) + multiset{k} + CtxElements(up)
  }

  ghost function CtxNodes(c: Ctx): (nodes: set<Node>)
  {
    match c
    case Top => {}
    case InLeft(n, _, up, r) => {n} + NodeSet(r) + CtxNodes(up)
    case InRight(n, _, l, up) => {n} + NodeSet(l) + CtxNodes(up)
  }

  ghost predicate CtxUnique(c: Ctx)
  {
    match c
    case Top => true
    case InLeft(n, _, up, r) =>
      Unique(r) && n !in NodeSet(r) && n !in CtxNodes(up) && NodeSet(r) !! CtxNodes(up) && CtxUnique(up)
    case InRight(n, _, l, up) =>
      Unique(l) && n !in NodeSet(l) && n !in CtxNodes(up) && NodeSet(l) !! CtxNodes(up) && CtxUnique(up)
  }

  /** Key `x` may sit in the hole of `c`: at most every key it is left of, at least every key it is right of. */
  ghost predicate AllWithin(c: Ctx, x: int)
  {
    match c
    case Top => true
    case InLeft(_, k, up, _) => x <= k && AllWithin(up, x)
    case InRight(_, k, _, up) => k <= x && AllWithin(up, x)
  }

  /**
   * The path from the root to the hole of `c` is the walk of `insert` for
   * key `x`: it went left at every key `x` is at most, and right at every key
   * `x` exceeds, so an equal key goes left.
   */
  ghost predicate InsertPath(c: Ctx, x: int)
  {
    match c
    case Top => true
    case InLeft(_, k, up, _) => x <= k && InsertPath(up, x)
    case InRight(_, k, _, up) => k < x && InsertPath(up, x)
  }

  /**
   * The path from the root to the hole of `c` is the search of `remove` for
   * key `x`: it went left at every key greater than `x` and right at every
   * key less than `x`, so no node on the way holds `x`.
   */
  ghost predicate SearchPath(c: Ctx, x: int)
  {
    match c
    case Top => true
    case InLeft(_, k, up, _) => x < k && SearchPath(up, x)
    case InRight(_, k, _, up) => k < x && SearchPath(up, x)
  }

  /**
   * The shape `insert` leaves, read from the root down: the new leaf `n`
   * holding `x` replaces the first empty link on the way that goes left
   * where `x` is at most the key and right where it is greater.
   */
  ghost function InsertLeaf(s: Shape, n: Node, x: int): (t: Shape)
    ensures t.Cell?
  {
    match s
    case Nil => Cell(n, x, Nil, Nil)
    case Cell(m, k, l, r) =>
      if x <= k then Cell(m, k, InsertLeaf(l, n, x), r) else Cell(m, k, l, InsertLeaf(r, n, x))
  }

  /** `InsertLeaf` adds exactly the new key. */
  lemma {:induction false} InsertLeafElements(s: Shape, n: Node, x: int)
    ensures Elements(InsertLeaf(s, n, x)) == Elements(s) + multiset{x}
  {
    match s
    case Nil =>
    case Cell(m, k, l, r) =>
      if x <= k {
        InsertLeafElements(l, n, x);
        InsertLeafLeft(m, k, l, InsertLeaf(l, n, x), r, x);
      } else {
        InsertLeafElements(r, n, x);
        InsertLeafRight(m, k, l, r, InsertLeaf(r, n, x), x);
      }
  }

  /** `InsertLeaf` adds exactly the new node, and a key equal to the root's goes into the left subtree. */
  lemma {:induction false} InsertLeafNodes(s: Shape, n: Node, x: int)
    ensures NodeSet(InsertLeaf(s, n, x)) == NodeSet(s) + {n}
    ensures s.Cell? && x == s.key ==> InsertLeaf(s, n, x).right == s.right
  {
    match s
    case Nil =>
    case Cell(m, k, l, r) =>
      if x <= k {
        InsertLeafNodes(l, n, x);
      } else {
        InsertLeafNodes(r, n, x);
      }
  }

  /** `InsertLeaf` keeps the ordering invariant. */
  lemma {:induction false} InsertLeafOrdered(s: Shape, n: Node, x: int)
    requires Ordered(s)
    ensures Ordered(InsertLeaf(s, n, x))
  {
    match s
    case Nil =>
    case Cell(m, k, l, r) =>
      if x <= k {
        InsertLeafOrdered(l, n, x);
        InsertLeafElements(l, n, x);
        InsertLeafLeft(m, k, l, InsertLeaf(l, n, x), r, x);
      } else {
        InsertLeafOrdered(r, n, x);
        InsertLeafElements(r, n, x);
        InsertLeafRight(m, k, l, r, InsertLeaf(r, n, x), x);
      }
  }

  /** One step of InsertLeafElements and InsertLeafOrdered: the left subtree `l` becomes `l'`, which holds one more key `x <= k`. */
  lemma {:induction false} InsertLeafLeft(m: Node, k: int, l: Shape, l': Shape, r: Shape, x: int)
    requires x <= k && Elements(l') == Elements(l) + multiset{x}
    ensures Elements(Cell(m, k, l', r)) == Elements(Cell(m, k, l, r)) + multiset{x}
    ensures Ordered(Cell(m, k, l, r)) && Ordered(l') ==> Ordered(Cell(m, k, l', r))
  {
    if Ordered(Cell(m, k, l, r)) && Ordered(l') {
      forall y | y in Elements(l') ensures y <= k {
        assert y in Elements(l) || y == x;
      }
    }
  }

  /** One step of InsertLeafElements and InsertLeafOrdered: the right subtree `r` becomes `r'`, which holds one more key `x > k`. */
  lemma {:induction false} InsertLeafRight(m: Node, k: int, l: Shape, r: Shape, r': Shape, x: int)
    requires k < x && Elements(r') == Elements(r) + multiset{x}
    ensures Elements(Cell(m, k, l, r')) == Elements(Cell(m, k, l, r)) + multiset{x}
    ensures Ordered(Cell(m, k, l, r)) && Ordered(r') ==> Ordered(Cell(m, k, l, r'))
  {
    if Ordered(Cell(m, k, l, r)) && Ordered(r') {
      forall y | y in Elements(r') ensures k <= y {
        assert y in Elements(r) || y == x;
      }
    }
  }

  /** Hanging the leaf in a hole reached by the walk of `insert` is `InsertLeaf` on the whole tree. */
  lemma {:induction false} InsertLeafPlug(c: Ctx, s: Shape, n: Node, x: int)
    requires InsertPath(c, x)
    ensures Plug(c, InsertLeaf(s, n, x)) == InsertLeaf(Plug(c, s), n, x)
    decreases c
  {
    match c
    case Top =>
    case InLeft(m, k, up, r) =>
      InsertLeafPlug(up, Cell(m, k, s, r), n, x);
    case InRight(m, k, l, up) =>
      InsertLeafPlug(up, Cell(m, k, l, s), n, x);
  }

  // ---------------------------------------------------------------------
  // The heap

  /** The nodes' fields match the shape. */
  ghost predicate Wired(s: Shape)
    reads NodeSet(s)
  {
    match s
    case Nil => true
    case Cell(n, k, l, r) => n.value == k && n.left == Ptr(l) && n.right == Ptr(r) && Wired(l) && Wired(r)
  }

  /** The nodes of the context match it, and the link into the hole is `hole`. */
  ghost predicate CtxWired(c: Ctx, hole: Node?)
    reads CtxNodes(c)
  {
    match c
    case Top => true
    case InLeft(n, k, up, r) =>
      n.value == k && n.left == hole && n.right == Ptr(r) && Wired(r) && CtxWired(up, n)
    case InRight(n, k, l, up) =>
      n.value == k && n.left == Ptr(l) && n.right == hole && Wired(l) && CtxWired(up, n)
  }

  // ---------------------------------------------------------------------
  // Splitting whole-tree facts at a context

  lemma {:induction false} PlugElements(c: Ctx, s: Shape)
    ensures Elements(Plug(c, s)) == CtxElements(c) + Elements(s)
    decreases c
  {
    match c
    case Top =>
    case InLeft(n, k, up, r) =>
      PlugElements(up, Cell(n, k, s, r));
      RegroupElements(CtxElements(up), Elements(s), k, Elements(r));
    case InRight(n, k, l, up) =>
      PlugElements(up, Cell(n, k, l, s));
      RegroupElements(CtxElements(up), Elements(l), k, Elements(s));
  }

  /** Multiset union regrouped the way `PlugElements` needs it. */
  lemma RegroupElements(u: multiset<int>, a: multiset<int>, k: int, b: multiset<int>)
    ensures u + (a + multiset{k} + b) == (multiset{k} + b + u) + a
    ensures u + (a + multiset{k} + b) == (a + multiset{k} + u) + b
  {
  }

  lemma {:induction false} PlugNodes(c: Ctx, s: Shape)
    ensures NodeSet(Plug(c, s)) == CtxNodes(c) + NodeSet(s)
    decreases c
  {
    match c
    case Top =>
    case InLeft(n, k, up, r) => PlugNodes(up, Cell(n, k, s, r));
    case InRight(n, k, l, up) => PlugNodes(up, Cell(n, k, l, s));
  }

  lemma {:induction false} PlugUnique(c: Ctx, s: Shape)
    ensures Unique(Plug(c, s)) <==> CtxUnique(c) && Unique(s) && CtxNodes(c) !! NodeSet(s)
    decreases c
  {
    match c
    case Top =>
    case InLeft(n, k, up, r) => PlugUnique(up, Cell(n, k, s, r));
    case InRight(n, k, l, up) => PlugUnique(up, Cell(n, k, l, s));
  }

  lemma {:induction false} PlugWired(c: Ctx, s: Shape)
    ensures Wired(Plug(c, s)) <==> CtxWired(c, Ptr(s)) && Wired(s)
    decreases c
  {
    match c
    case Top =>
    case InLeft(n, k, up, r) => PlugWired(up, Cell(n, k, s, r));
    case InRight(n, k, l, up) => PlugWired(up, Cell(n, k, l, s));
  }

  lemma {:induction false} PlugWiredInner(c: Ctx, s: Shape)
    requires Wired(Plug(c, s))
    ensures Wired(s) && CtxWired(c, Ptr(s))
  {
    PlugWired(c, s);
  }

  /** The root pointer of a whole tree depends on the plugged subtree only through its own root pointer. */
  lemma {:induction false} PlugPtr(c: Ctx, a: Shape, b: Shape)
    requires Ptr(a) == Ptr(b)
    ensures Ptr(Plug(c, a)) == Ptr(Plug(c, b))
    decreases c
  {
    match c
    case Top =>
    case InLeft(n, k, up, r) => PlugPtr(up, Cell(n, k, a, r), Cell(n, k, b, r));
    case InRight(n, k, l, up) => PlugPtr(up, Cell(n, k, l, a), Cell(n, k, l, b));
  }

  /** Below the root, the root node of the whole tree is the outermost node of the context, whatever sits in the hole. */
  lemma {:induction false} PlugTopNode(c: Ctx, a: Shape, b: Shape)
    requires !c.Top?
    ensures Ptr(Plug(c, a)) == Ptr(Plug(c, b))
    decreases c
  {
    match c
    case InLeft(n, k, up, r) =>
      if !up.Top? {
        PlugTopNode(up, Cell(n, k, a, r), Cell(n, k, b, r));
      }
    case InRight(n, k, l, up) =>
      if !up.Top? {
        PlugTopNode(up, Cell(n, k, l, a), Cell(n, k, l, b));
      }
  }

  /** Below the root, the root node of the whole tree is a node of the context. */
  lemma {:induction false} PlugPtrInCtx(c: Ctx, s: Shape)
    requires !c.Top?
    ensures Ptr(Plug(c, s)) in CtxNodes(c)
    decreases c
  {
    match c
    case InLeft(n, k, up, r) =>
      if !up.Top? {
        PlugPtrInCtx(up, Cell(n, k, s, r));
      }
    case InRight(n, k, l, up) =>
      if !up.Top? {
        PlugPtrInCtx(up, Cell(n, k, l, s));
      }
  }

  lemma {:induction false} PlugOrderedInner(c: Ctx, s: Shape)
    requires Ordered(Plug(c, s))
    ensures Ordered(s)
    decreases c
  {
    match c
    case Top =>
    case InLeft(n, k, up, r) => PlugOrderedInner(up, Cell(n, k, s, r));
    case InRight(n, k, l, up) => PlugOrderedInner(up, Cell(n, k, l, s));
  }

  /**
   * Replacing an ordered subtree by another ordered subtree keeps the whole
   * tree ordered, as long as each key of the replacement was already there
   * or fits the bounds the context puts on the hole.
   */
  lemma {:induction false} PlugReplace(c: Ctx, s: Shape, s': Shape)
    requires Ordered(Plug(c, s)) && Ordered(s')
    requires forall x :: x in Elements(s') ==> x in Elements(s) || AllWithin(c, x)
    ensures Ordered(Plug(c, s'))
    decreases c
  {
    match c
    case Top =>
    case InLeft(n, k, up, r) =>
      PlugOrderedInner(up, Cell(n, k, s, r));
      ReplaceLeft(n, k, s, s', r, up);
      PlugReplace(up, Cell(n, k, s, r), Cell(n, k, s', r));
    case InRight(n, k, l, up) =>
      PlugOrderedInner(up, Cell(n, k, l, s));
      ReplaceRight(n, k, l, s, s', up);
      PlugReplace(up, Cell(n, k, l, s), Cell(n, k, l, s'));
  }

  /** One step of PlugReplace: the replacement as a left child. */
  lemma {:induction false} ReplaceLeft(n: Node, k: int, s: Shape, s': Shape, r: Shape, up: Ctx)
    requires Ordered(Cell(n, k, s, r)) && Ordered(s')
    requires forall x :: x in Elements(s') ==> x in Elements(s) || (x <= k && AllWithin(up, x))
    ensures Ordered(Cell(n, k, s', r))
    ensures forall x :: x in Elements(Cell(n, k, s', r)) ==> x in Elements(Cell(n, k, s, r)) || AllWithin(up, x)
  {
    var before, after := Elements(Cell(n, k, s, r)), Elements(Cell(n, k, s', r));
    forall x | x in Elements(s') ensures x <= k && (x in before || AllWithin(up, x)) {
      if x in Elements(s) {
        assert x in before;
      }
    }
    forall x | x in after ensures x in before || AllWithin(up, x) {
      if x !in Elements(s') {
        assert x == k || x in Elements(r);
      }
    }
  }

  /** One step of PlugReplace: the replacement as a right child. */
  lemma {:induction false} ReplaceRight(n: Node, k: int, l: Shape, s: Shape, s': Shape, up: Ctx)
    requires Ordered(Cell(n, k, l, s)) && Ordered(s')
    requires forall x :: x in Elements(s') ==> x in Elements(s) || (k <= x && AllWithin(up, x))
    ensures Ordered(Cell(n, k, l, s'))
    ensures forall x :: x in Elements(Cell(n, k, l, s')) ==> x in Elements(Cell(n, k, l, s)) || AllWithin(up, x)
  {
    var before, after := Elements(Cell(n, k, l, s)), Elements(Cell(n, k, l, s'));
    forall x | x in Elements(s') ensures k <= x && (x in before || AllWithin(up, x)) {
      if x in Elements(s) {
        assert x in before;
      }
    }
    forall x | x in after ensures x in before || AllWithin(up, x) {
      if x !in Elements(s') {
        assert x == k || x in Elements(l);
      }
    }
  }

  /** Everything hanging a new leaf into an empty link does to the whole tree. */
  lemma PlugLeaf(hole: Ctx, n: Node, v: int)
    requires !hole.Top? && Unique(Plug(hole, Nil)) && Ordered(Plug(hole, Nil)) && AllWithin(hole, v)
    requires CtxWired(hole, n) && CtxUnique(hole) && n !in CtxNodes(hole)
    requires n.value == v && n.left == null && n.right == null
    ensures var grown := Plug(hole, Cell(n, v, Nil, Nil));
      Unique(grown) && Wired(grown) && Ordered(grown) && Ptr(grown) == Ptr(Plug(hole, Nil)) &&
      NodeSet(grown) == NodeSet(Plug(hole, Nil)) + {n} &&
      Elements(grown) == Elements(Plug(hole, Nil)) + multiset{v}
  {
    PlugLeafWired(hole, n, v);
    PlugLeafUnique(hole, n, v);
    PlugLeafOrdered(hole, n, v);
    PlugLeafElements(hole, n, v);
    PlugTopNode(hole, Cell(n, v, Nil, Nil), Nil);
  }

  /**
   * Hanging a new leaf `n` with key `v` on the empty link `hole` (the next
   * four lemmas): the tree is wired, unique and ordered again, with one more
   * node and one more occurrence of `v`.
   */
  lemma {:induction false} PlugLeafWired(hole: Ctx, n: Node, v: int)
    requires CtxWired(hole, n) && n.value == v && n.left == null && n.right == null
    ensures Wired(Plug(hole, Cell(n, v, Nil, Nil)))
  {
    PlugWired(hole, Cell(n, v, Nil, Nil));
  }

  lemma {:induction false} PlugLeafUnique(hole: Ctx, n: Node, v: int)
    requires CtxUnique(hole) && n !in CtxNodes(hole)
    ensures Unique(Plug(hole, Cell(n, v, Nil, Nil)))
    ensures NodeSet(Plug(hole, Cell(n, v, Nil, Nil))) == NodeSet(Plug(hole, Nil)) + {n}
  {
    PlugUnique(hole, Cell(n, v, Nil, Nil));
    PlugNodes(hole, Cell(n, v, Nil, Nil));
    PlugNodes(hole, Nil);
  }

  lemma {:induction false} PlugLeafOrdered(hole: Ctx, n: Node, v: int)
    requires Ordered(Plug(hole, Nil)) && AllWithin(hole, v)
    ensures Ordered(Plug(hole, Cell(n, v, Nil, Nil)))
  {
    PlugReplace(hole, Nil, Cell(n, v, Nil, Nil));
  }

  lemma {:induction false} PlugLeafElements(hole: Ctx, n: Node, v: int)
    ensures Elements(Plug(hole, Cell(n, v, Nil, Nil))) == Elements(Plug(hole, Nil)) + multiset{v}
  {
    PlugElements(hole, Cell(n, v, Nil, Nil));
    PlugElements(hole, Nil);
  }

  /**
   * The facts about the parent of the hole that relinking it needs: the
   * parent's link into the hole tells on which side the hole is, and the
   * parent is neither in the plugged subtree nor in the rest of the context.
   */
  lemma {:induction false} Unplug(c: Ctx, s: Shape)
    requires !c.Top? && s.Cell? && Wired(Plug(c, s)) && Unique(Plug(c, s))
    ensures c.node in NodeSet(Plug(c, s)) && c.node !in NodeSet(s) && c.node.value == c.key
    ensures CtxWired(c.up, c.node) && c.node !in CtxNodes(c.up)
    ensures c.InLeft? <==> c.node.left == s.node
    ensures c.InLeft? ==> c.node.right == Ptr(c.right) && Wired(c.right) && c.node !in NodeSet(c.right)
    ensures c.InRight? ==> c.node.left == Ptr(c.left) && Wired(c.left) && c.node !in NodeSet(c.left)
  {
    PlugWired(c, s);
    PlugUnique(c, s);
    PlugNodes(c, s);
    if c.InRight? && c.left.Cell? {
      assert c.left.node in CtxNodes(c);
    }
  }

  /** A subtree whose root node is the root of the whole tree fills the whole tree. */
  lemma {:induction false} RootHasNoContext(c: Ctx, s: Shape)
    requires s.Cell? && Unique(Plug(c, s)) && Ptr(Plug(c, s)) == s.node
    ensures c.Top?
  {
    if !c.Top? {
      PlugPtrInCtx(c, s);
      PlugUnique(c, s);
    }
  }

  /** Going left below a node with a key greater than `v` extends the search path of `v`. */
  lemma {:induction false} SearchLeft(c: Ctx, s: Shape, v: int)
    requires s.Cell? && Ordered(s) && v < s.key && SearchPath(c, v)
    ensures Ordered(s.left)
    ensures SearchPath(InLeft(s.node, s.key, c, s.right), v)
    ensures Plug(InLeft(s.node, s.key, c, s.right), s.left) == Plug(c, s)
  {
  }

  /** Going right below a node with a key less than `v` extends the search path of `v`. */
  lemma {:induction false} SearchRight(c: Ctx, s: Shape, v: int)
    requires s.Cell? && Ordered(s) && s.key < v && SearchPath(c, v)
    ensures Ordered(s.right)
    ensures SearchPath(InRight(s.node, s.key, s.left, c), v)
    ensures Plug(InRight(s.node, s.key, s.left, c), s.right) == Plug(c, s)
  {
  }

  /**
   * Off the search path of `x` nothing holds `x`: in an ordered tree, `x` is
   * a key of the whole tree exactly when it is a key of the subtree the
   * search has reached.
   */
  lemma {:induction false} SearchPathElements(c: Ctx, s: Shape, x: int)
    requires SearchPath(c, x) && Ordered(Plug(c, s))
    ensures x in Elements(Plug(c, s)) <==> x in Elements(s)
    decreases c
  {
    match c
    case Top =>
    case InLeft(n, k, up, r) =>
      SearchPathElements(up, Cell(n, k, s, r), x);
      PlugOrderedInner(up, Cell(n, k, s, r));
      assert x !in Elements(r);
    case InRight(n, k, l, up) =>
      SearchPathElements(up, Cell(n, k, l, s), x);
      PlugOrderedInner(up, Cell(n, k, l, s));
      assert x !in Elements(l);
  }

  /**
   * Removing the root node of the subtree in the hole of `c` (the next three
   * lemmas): the whole tree keeps its links a tree and stays ordered, loses
   * nodes only, and loses exactly one occurrence of the removed key.
   */
  lemma {:induction false} PlugDeleteRootUnique(c: Ctx, s: Shape)
    requires s.Cell? && Unique(Plug(c, s))
    ensures Unique(Plug(c, DeleteRoot(s)))
    ensures NodeSet(Plug(c, DeleteRoot(s))) <= NodeSet(Plug(c, s))
  {
    PlugUnique(c, s);
    DeleteRootShape(s);
    PlugUnique(c, DeleteRoot(s));
    PlugNodes(c, s);
    PlugNodes(c, DeleteRoot(s));
  }

  lemma {:induction false} PlugDeleteRootOrdered(c: Ctx, s: Shape)
    requires s.Cell? && Ordered(Plug(c, s))
    ensures Ordered(Plug(c, DeleteRoot(s)))
  {
    PlugOrderedInner(c, s);
    DeleteRootShape(s);
    DeleteRootElements(s);
    forall x | x in Elements(DeleteRoot(s)) ensures x in Elements(s) {
    }
    PlugReplace(c, s, DeleteRoot(s));
  }

  lemma {:induction false} PlugDeleteRootElements(c: Ctx, s: Shape)
    requires s.Cell?
    ensures Elements(Plug(c, DeleteRoot(s))) == Elements(Plug(c, s)) - multiset{s.key}
  {
    DeleteRootElements(s);
    PlugElements(c, s);
    PlugElements(c, DeleteRoot(s));
  }

  // ---------------------------------------------------------------------
  // Single link updates

  /** Points the left link of `p`, the parent of the hole of `InLeft(p, k, up, r)`, at `child`, the root of `s`. */
  method LinkLeft(p: Node, child: Node?, ghost k: int, ghost up: Ctx, ghost r: Shape, ghost s: Shape)
    requires CtxWired(up, p) && p !in CtxNodes(up)
    requires p.value == k && p.right == Ptr(r) && Wired(r) && p !in NodeSet(r)
    requires Wired(s) && p !in NodeSet(s) && child == Ptr(s)
    modifies p`left
    ensures CtxWired(InLeft(p, k, up, r), child) && Wired(s) && p.value == old(p.value)
  {
    p.left := child;
  }

  /** Points the right link of `p`, the parent of the hole of `InRight(p, k, l, up)`, at `child`, the root of `s`. */
  method LinkRight(p: Node, child: Node?, ghost k: int, ghost l: Shape, ghost up: Ctx, ghost s: Shape)
    requires CtxWired(up, p) && p !in CtxNodes(up)
    requires p.value == k && p.left == Ptr(l) && Wired(l) && p !in NodeSet(l)
    requires Wired(s) && p !in NodeSet(s) && child == Ptr(s)
    modifies p`right
    ensures CtxWired(InRight(p, k, l, up), child) && Wired(s) && p.value == old(p.value)
  {
    p.right := child;
  }

  // ---------------------------------------------------------------------
  // Leftmost and rightmost keys

  /** The leftmost key of an ordered tree is one of its keys and is at most every key. */
  lemma {:induction false} MinKeyIsLeast(s: Shape)
    requires s.Cell? && Ordered(s)
    ensures MinKey(s) in Elements(s)
    ensures forall x :: x in Elements(s) ==> MinKey(s) <= x
  {
    if s.left.Cell? {
      MinKeyIsLeast(s.left);
    }
  }

  /** The rightmost key of an ordered tree is one of its keys and is at least every key. */
  lemma {:induction false} MaxKeyIsGreatest(s: Shape)
    requires s.Cell? && Ordered(s)
    ensures MaxKey(s) in Elements(s)
    ensures forall x :: x in Elements(s) ==> x <= MaxKey(s)
  {
    if s.right.Cell? {
      MaxKeyIsGreatest(s.right);
    }
  }

  /** Splicing out the leftmost node removes exactly one occurrence of the leftmost key. */
  lemma {:induction false} RemoveMinElements(s: Shape)
    requires s.Cell?
    ensures Elements(RemoveMin(s)) + multiset{MinKey(s)} == Elements(s)
  {
    if s.left.Cell? {
      RemoveMinElements(s.left);
      calc {
        Elements(RemoveMin(s)) + multiset{MinKey(s)};
        Elements(RemoveMin(s.left)) + multiset{s.key} + Elements(s.right) + multiset{MinKey(s.left)};
        (Elements(RemoveMin(s.left)) + multiset{MinKey(s.left)}) + multiset{s.key} + Elements(s.right);
      }
    }
  }

  /** Splicing out the leftmost node keeps the links a tree. */
  lemma {:induction false} RemoveMinUnique(s: Shape)
    requires s.Cell?
    ensures NodeSet(RemoveMin(s)) <= NodeSet(s)
    ensures Unique(s) ==> Unique(RemoveMin(s))
  {
    if s.left.Cell? {
      RemoveMinUnique(s.left);
    }
  }

  /** Splicing out the leftmost node keeps the tree ordered. */
  lemma {:induction false} RemoveMinOrdered(s: Shape)
    requires s.Cell? && Ordered(s)
    ensures Ordered(RemoveMin(s))
  {
    if s.left.Cell? {
      RemoveMinOrdered(s.left);
      RemoveMinElements(s.left);
      forall x | x in Elements(RemoveMin(s.left)) ensures x <= s.key {
        assert x in Elements(s.left);
      }
    }
  }

  /** Removing the root node of a subtree removes exactly one occurrence of its key. */
  lemma {:induction false} DeleteRootElements(s: Shape)
    requires s.Cell?
    ensures Elements(DeleteRoot(s)) == Elements(s) - multiset{s.key}
  {
    if s.left.Cell? && s.right.Cell? {
      RemoveMinElements(s.right);
      assert Elements(s.right) == Elements(RemoveMin(s.right)) + multiset{MinKey(s.right)};
    }
  }

  /** Removing the root node of a subtree keeps the links a tree, and the tree ordered. */
  lemma {:induction false} DeleteRootShape(s: Shape)
    requires s.Cell?
    ensures NodeSet(DeleteRoot(s)) <= NodeSet(s)
    ensures Unique(s) ==> Unique(DeleteRoot(s))
    ensures Ordered(s) ==> Ordered(DeleteRoot(s))
  {
    if s.left.Cell? && s.right.Cell? {
      RemoveMinUnique(s.right);
      if Ordered(s) {
        SuccessorOrdered(s);
      }
    }
  }

  /** With two children, the successor's key is at least every key on the left and at most every key left on the right. */
  lemma {:induction false} SuccessorOrdered(s: Shape)
    requires s.Cell? && s.left.Cell? && s.right.Cell? && Ordered(s)
    ensures Ordered(Cell(s.node, MinKey(s.right), s.left, RemoveMin(s.right)))
  {
    var m := MinKey(s.right);
    MinKeyIsLeast(s.right);
    RemoveMinElements(s.right);
    RemoveMinOrdered(s.right);
    forall x | x in Elements(s.left) ensures x <= m {
    }
    forall x | x in Elements(RemoveMin(s.right)) ensures m <= x {
      assert x in Elements(s.right);
    }
  }

  // ---------------------------------------------------------------------
  // The in-order walk

  /** An in-order walk visits exactly the keys of the tree, and visits them in non-decreasing order when the tree is ordered. */
  lemma {:induction false} InOrderFacts(s: Shape)
    ensures multiset(InOrder(s)) == Elements(s)
    ensures Ordered(s) ==> NonDecreasing(InOrder(s))
  {
    match s
    case Nil =>
    case Cell(_, k, l, r) =>
      InOrderFacts(l);
      InOrderFacts(r);
      if Ordered(s) {
        ConcatNonDecreasing(InOrder(l), k, InOrder(r));
      }
  }

  lemma {:induction false} ConcatNonDecreasing(a: seq<int>, k: int, b: seq<int>)
    requires NonDecreasing(a) && NonDecreasing(b)
    requires forall x :: x in multiset(a) ==> x <= k
    requires forall x :: x in multiset(b) ==> k <= x
    ensures NonDecreasing(a + [k] + b)
  {
    var q := a + [k] + b;
    forall i, j | 0 <= i < j < |q| ensures q[i] <= q[j] {
      if i < |a| {
        assert q[i] == a[i] && a[i] in multiset(a);
      } else if |a| < i {
        assert q[i] == b[i - |a| - 1];
      }
      if j < |a| {
        assert q[j] == a[j];
      } else if |a| < j {
        assert q[j] == b[j - |a| - 1] && b[j - |a| - 1] in multiset(b);
      }
    }
  }
}
