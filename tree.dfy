/**
 * The unbalanced ordered tree of package `base` (class `Tree`): insert,
 * remove by value, and the minimum and maximum queries that the moving
 * maximum and minimum indicators are built on.
 */
module Trees {
  import opened Wrappers
  import opened Nodes
  import opened Shapes

  /**
   * `Tree.compare`: the sign of `v1 - v2`. Keys are already the numbers
   * rounded half-up to six decimal places (and scaled to integers), so the
   * comparison of the rounded values is exact.
   */
  function Compare(v1: int, v2: int): (c: int)
    ensures c == -1 || c == 0 || c == 1
    ensures c < 0 <==> v1 < v2
    ensures c == 0 <==> v1 == v2
  {
    if v1 < v2 then -1 else if v1 == v2 then 0 else 1
  }

  class Tree {
    var root: Node?

    /** Where every node sits and which key it holds. */
    ghost var shape: Shape
    /** The tree object and all of its nodes. */
    ghost var Repr: set<object>

    ghost predicate Valid()
      reads this, Repr
    {
      this in Repr &&
      Repr == {this} + NodeSet(shape) &&
      root == Ptr(shape) &&
      Unique(shape) && Wired(shape) && Ordered(shape)
    }

    /** The multiset of keys in the tree. */
    ghost function Keys(): (keys: multiset<int>)
      reads this
    {
      Elements(shape)
    }

    /** `Tree.New()`: an empty tree. */
    constructor New()
      ensures Valid() && fresh(Repr)
      ensures root == null && Keys() == multiset{}
    {
      root := null;
      shape := Nil;
      Repr := {this};
    }

    /**
     * `insert`: walks down from the root, going left when the new key is at
     * most the current node's key and right otherwise, and hangs a new leaf
     * on the first empty link. Exactly one occurrence of `v` is added.
     *
     * `hole` is the empty link the new leaf `leaf` hangs on: the tree before
     * is the tree after with that leaf cut off again, so every existing node
     * keeps its key and its links, and the path to the hole is the walk that
     * sends a key left at every node it is at most.
     */
    method Insert(v: int) returns (ghost hole: Ctx, ghost leaf: Node)
      requires Valid()
      modifies Repr
      ensures Valid() && fresh(Repr - old(Repr)) && old(Repr) <= Repr
      ensures Keys() == old(Keys()) + multiset{v}
      ensures fresh(leaf) && InsertPath(hole, v)
      ensures old(shape) == Plug(hole, Nil) && shape == Plug(hole, Cell(leaf, v, Nil, Nil))
      ensures shape == InsertLeaf(old(shape), leaf, v)
    {
      var newNode := new Node.New(v);
      leaf := newNode;

      if root == null {
        root := newNode;
        shape := Cell(newNode, v, Nil, Nil);
        Repr := Repr + {newNode};
        return Top, newNode;
      }

      var curNode := root;
      ghost var ctx := Top;
      ghost var sub := shape;
      while true
        invariant Valid() && shape == old(shape) && Repr == old(Repr) && root == old(root)
        invariant fresh(newNode) && newNode.value == v && newNode.left == null && newNode.right == null
        invariant sub.Cell? && curNode == sub.node && Plug(ctx, sub) == shape && Wired(sub)
        invariant NodeSet(sub) <= NodeSet(shape)
        invariant AllWithin(ctx, v) && InsertPath(ctx, v) && leaf == newNode
        decreases sub
      {
        if Compare(newNode.value, curNode.value) <= 0 {
          if curNode.left == null {
            hole := InLeft(curNode, sub.key, ctx, sub.right);
            Graft(curNode, true, newNode, v, hole);
            return;
          } else {
            ctx, sub := InLeft(curNode, sub.key, ctx, sub.right), sub.left;
            curNode := curNode.left;
          }
        } else {
          if curNode.right == null {
            hole := InRight(curNode, sub.key, sub.left, ctx);
            Graft(curNode, false, newNode, v, hole);
            return;
          } else {
            ctx, sub := InRight(curNode, sub.key, sub.left, ctx), sub.right;
            curNode := curNode.right;
          }
        }
      }
    }

    /**
     * The last step of `insert`: links the new leaf into the empty child
     * link of `parent` that the walk stopped at.
     */
    method Graft(parent: Node, toLeft: bool, newNode: Node, v: int, ghost hole: Ctx)
      requires Valid() && !hole.Top? && parent == hole.node && toLeft == hole.InLeft? && shape == Plug(hole, Nil)
      requires AllWithin(hole, v) && InsertPath(hole, v) && parent.value == hole.key
      requires hole.InLeft? ==> parent.right == Ptr(hole.right)
      requires hole.InRight? ==> parent.left == Ptr(hole.left)
      requires newNode !in Repr && newNode.value == v && newNode.left == null && newNode.right == null
      modifies parent, this`shape, this`Repr
      ensures Valid() && Repr == old(Repr) + {newNode} && root == old(root)
      ensures Keys() == old(Keys()) + multiset{v}
      ensures shape == Plug(hole, Cell(newNode, v, Nil, Nil)) && shape == InsertLeaf(old(shape), newNode, v)
    {
      Attach(hole, newNode, v);
      if toLeft {
        parent.left := newNode;
        Hang(hole, newNode, v);
      } else {
        parent.right := newNode;
        Hang(hole, newNode, v);
      }
      InsertLeafPlug(hole, Nil, newNode, v);
    }

    /**
     * A tree holding exactly one key is a single leaf at the root; so an
     * insert into the empty tree makes the new node the root.
     */
    lemma SingleKeyTree(v: int)
      requires Valid() && Keys() == multiset{v}
      ensures root != null && root.value == v && root.left == null && root.right == null
    {
      assert |Elements(shape.left)| + |Elements(shape.right)| == 0;
    }

    /** Records in the ghost state that the empty link `hole` now points at the new leaf `newNode`. */
    ghost method Hang(hole: Ctx, newNode: Node, v: int)
      requires this in Repr && Repr == {this} + NodeSet(shape) && root == Ptr(shape)
      requires !hole.Top? && shape == Plug(hole, Nil) && Unique(shape) && Ordered(shape) && AllWithin(hole, v)
      requires CtxWired(hole, newNode) && CtxUnique(hole) && newNode !in CtxNodes(hole)
      requires newNode.value == v && newNode.left == null && newNode.right == null
      modifies this`shape, this`Repr
      ensures Valid()
      ensures shape == Plug(hole, Cell(newNode, v, Nil, Nil)) && Repr == old(Repr) + {newNode}
      ensures Keys() == old(Keys()) + multiset{v}
    {
      PlugLeaf(hole, newNode, v);
      Grow(Plug(hole, Cell(newNode, v, Nil, Nil)), newNode, v);
    }

    /** Records in the ghost state that the tree has grown into `grown`, with one new node `newNode` holding `v`. */
    ghost method Grow(grown: Shape, newNode: Node, v: int)
      requires this in Repr && Repr == {this} + NodeSet(shape) && root == Ptr(shape)
      requires Unique(grown) && Wired(grown) && Ordered(grown) && Ptr(grown) == Ptr(shape)
      requires NodeSet(grown) == NodeSet(shape) + {newNode} && Elements(grown) == Elements(shape) + multiset{v}
      modifies this`shape, this`Repr
      ensures Valid() && shape == grown && Repr == old(Repr) + {newNode}
      ensures Keys() == old(Keys()) + multiset{v}
    {
      shape, Repr := grown, Repr + {newNode};
    }

    /** Facts about the tree before a new leaf is hung into the empty link `hole`. */
    lemma {:induction false} Attach(hole: Ctx, newNode: Node, v: int)
      requires Valid() && !hole.Top? && shape == Plug(hole, Nil)
      requires newNode !in Repr
      ensures CtxWired(hole.up, hole.node) && Parent(hole) !in CtxNodes(hole.up)
      ensures hole.InLeft? ==> Wired(hole.right) && Parent(hole) !in NodeSet(hole.right)
      ensures hole.InRight? ==> Wired(hole.left) && Parent(hole) !in NodeSet(hole.left)
      ensures CtxUnique(hole) && newNode !in CtxNodes(hole)
    {
      PlugWired(hole, Nil);
      PlugUnique(hole, Nil);
      PlugNodes(hole, Nil);
    }

    /**
     * `remove`: walks down from the root as `insert` does, but stops at the
     * first node whose key equals `v` and removes that node. Reports whether
     * `v` was present; exactly one occurrence is removed.
     */
    method Remove(v: int) returns (found: bool, ghost ctx: Ctx, ghost sub: Shape)
      requires Valid()
      modifies Repr
      ensures Valid() && Repr <= old(Repr)
      ensures found <==> v in old(Keys())
      ensures Keys() == old(Keys()) - multiset{v}
      ensures !found ==> shape == old(shape) && root == old(root) && Repr == old(Repr)
      ensures found ==> sub.Cell? && sub.key == v && SearchPath(ctx, v)
      ensures found ==> old(shape) == Plug(ctx, sub) && shape == Plug(ctx, DeleteRoot(sub))
    {
      var parent, node;
      parent, node, ctx, sub := Find(v);
      if node == null {
        return false, ctx, sub;
      }
      RemoveNode(parent, node, ctx, sub);
      PlugDeleteRootElements(ctx, sub);
      return true, ctx, sub;
    }

    /**
     * The search loop of `remove`: walks down from the root, left below a
     * greater key and right below a lesser one, and stops at the first node
     * whose key equals `v` (the `case 0` exit). Returns that node and its
     * parent; null when the walk falls off the tree.
     */
    method Find(v: int) returns (parent: Node?, node: Node?, ghost ctx: Ctx, ghost sub: Shape)
      requires Valid()
      ensures node == null <==> v !in Keys()
      ensures node != null ==> sub.Cell? && sub.node == node && sub.key == v && Plug(ctx, sub) == shape && parent == Parent(ctx)
      ensures node != null ==> SearchPath(ctx, v)
    {
      parent, node, ctx, sub := null, root, Top, shape;
      while node != null && Compare(v, node.value) != 0
        invariant node == Ptr(sub) && Plug(ctx, sub) == shape && parent == Parent(ctx) && SearchPath(ctx, v)
        invariant Wired(sub) && Ordered(sub)
        decreases sub
      {
        if Compare(v, node.value) == -1 {
          SearchLeft(ctx, sub, v);
          parent := node;
          node := node.left;
          ctx, sub := InLeft(sub.node, sub.key, ctx, sub.right), sub.left;
        } else {
          SearchRight(ctx, sub, v);
          parent := node;
          node := node.right;
          ctx, sub := InRight(sub.node, sub.key, sub.left, ctx), sub.right;
        }
      }
      SearchPathElements(ctx, sub, v);
    }

    /**
     * `removeNode`: removes `node`, whose parent is `parent` (null at the
     * root). A node with two children takes the key of the leftmost node of
     * its right subtree, and that node is spliced out instead; otherwise the
     * only child (the left one if there is one) takes the node's place.
     */
    method RemoveNode(parent: Node?, node: Node, ghost ctx: Ctx, ghost sub: Shape)
      requires Valid() && sub.Cell? && sub.node == node && Plug(ctx, sub) == shape && parent == Parent(ctx)
      modifies Repr
      ensures Valid() && Repr <= old(Repr)
      ensures shape == Plug(ctx, DeleteRoot(sub))
      ensures !(sub.left.Cell? && sub.right.Cell?) ==> node.value == old(node.value)
      decreases if sub.left.Cell? && sub.right.Cell? then 1 else 0
    {
      PlugWired(ctx, sub);
      if node.left != null && node.right != null {
        ghost var above := InRight(node, sub.key, sub.left, ctx);
        var min, minParent, mctx, msub := MinNode(node.right, sub.right, above);
        if minParent == null {
          minParent := node;
        }
        RemoveNode(minParent, min, mctx, msub);
        ghost var mid := Cell(node, sub.key, sub.left, RemoveMin(sub.right));
        PlugNodes(ctx, mid);
        CopyKey(node, min.value, ctx, sub);
      } else {
        PlugNodes(ctx, sub);
        Splice(parent, node, ctx, sub);
      }
    }

    /**
     * The last step of `removeNode` for a node with two children: once the
     * leftmost node of the right subtree (with key `k`) has been spliced out,
     * `node` takes its key.
     */
    method CopyKey(node: Node, k: int, ghost ctx: Ctx, ghost sub: Shape)
      requires sub.Cell? && sub.left.Cell? && sub.right.Cell? && sub.node == node && k == MinKey(sub.right)
      requires Unique(Plug(ctx, sub)) && Ordered(Plug(ctx, sub))
      requires Valid() && shape == Plug(ctx, Cell(node, sub.key, sub.left, RemoveMin(sub.right)))
      modifies node`value, this`shape, this`Repr
      ensures Valid() && shape == Plug(ctx, DeleteRoot(sub))
      ensures Repr <= {this} + NodeSet(Plug(ctx, sub))
    {
      ghost var mid := Cell(node, sub.key, sub.left, RemoveMin(sub.right));
      PlugWired(ctx, mid);
      PlugUnique(ctx, mid);
      node.value := k;
      PlugPtr(ctx, mid, DeleteRoot(sub));
      Settle(ctx, sub);
    }

    /**
     * `removeNode` for a node with at most one child: the child (the left
     * one if there is one) takes the node's place, as the root or as the
     * child of `parent` on the side where `node` was.
     */
    method Splice(parent: Node?, node: Node, ghost ctx: Ctx, ghost sub: Shape)
      requires Valid() && sub.Cell? && sub.node == node && Plug(ctx, sub) == shape && parent == Parent(ctx)
      requires node.left == null || node.right == null
      modifies this`root, this`shape, this`Repr, parent
      ensures Valid() && Repr <= old(Repr)
      ensures shape == Plug(ctx, DeleteRoot(sub)) && node.value == old(node.value)
    {
      PlugWiredInner(ctx, sub);
      var child;
      if node.left != null {
        child := node.left;
      } else {
        child := node.right;
      }
      DeleteRootShape(sub);
      assert child == Ptr(DeleteRoot(sub)) && Wired(DeleteRoot(sub));
      if node == root {
        RootHasNoContext(ctx, sub);
        root := child;
      } else {
        Relink(parent, node, child, ctx, sub);
      }
      Settle(ctx, sub);
    }

    /**
     * The non-root case of `Splice`: `child` takes the place of `node` as the
     * child of `parent` on the side where `node` was.
     */
    method Relink(parent: Node?, node: Node, child: Node?, ghost ctx: Ctx, ghost sub: Shape)
      requires Valid() && sub.Cell? && sub.node == node && Plug(ctx, sub) == shape && parent == Parent(ctx)
      requires node != root && child == Ptr(DeleteRoot(sub)) && Wired(DeleteRoot(sub))
      modifies parent
      ensures CtxWired(ctx, child) && Wired(DeleteRoot(sub)) && node.value == old(node.value)
      ensures root == Ptr(Plug(ctx, DeleteRoot(sub)))
    {
      DeleteRootShape(sub);
      Unplug(ctx, sub);
      PlugTopNode(ctx, sub, DeleteRoot(sub));
      if parent.left == node {
        LinkLeft(parent, child, ctx.key, ctx.up, ctx.right, DeleteRoot(sub));
      } else {
        LinkRight(parent, child, ctx.key, ctx.left, ctx.up, DeleteRoot(sub));
      }
    }

    /**
     * Records in the ghost state that the root node of `sub`, in the hole of
     * `ctx`, has been removed: the links already match the new shape.
     */
    ghost method Settle(ctx: Ctx, sub: Shape)
      requires sub.Cell? && Unique(Plug(ctx, sub)) && Ordered(Plug(ctx, sub))
      requires CtxWired(ctx, Ptr(DeleteRoot(sub))) && Wired(DeleteRoot(sub))
      requires root == Ptr(Plug(ctx, DeleteRoot(sub)))
      modifies this`shape, this`Repr
      ensures Valid() && shape == Plug(ctx, DeleteRoot(sub))
      ensures Repr <= {this} + NodeSet(Plug(ctx, sub))
    {
      PlugWired(ctx, DeleteRoot(sub));
      PlugDeleteRootUnique(ctx, sub);
      PlugDeleteRootOrdered(ctx, sub);
      shape := Plug(ctx, DeleteRoot(sub));
      Repr := {this} + NodeSet(shape);
    }

    /**
     * `minNode`: the leftmost node below `r` and its parent (null when `r`
     * itself is leftmost); both null when `r` is null. The ghost results
     * place the leftmost node in the whole tree `Plug(above, s)`.
     */
    method MinNode(r: Node?, ghost s: Shape, ghost above: Ctx) returns (node: Node?, parent: Node?, ghost ctx: Ctx, ghost sub: Shape)
      requires Wired(s) && r == Ptr(s)
      ensures node == null <==> s.Nil?
      ensures node != null ==> sub.Cell? && sub.node == node && sub.left.Nil? && node.left == null && node.value == MinKey(s)
      ensures node != null ==> node == Leftmost(s) && (parent == null <==> s.left.Nil?)
      ensures node != null ==> Plug(ctx, sub) == Plug(above, s) && Plug(ctx, sub.right) == Plug(above, RemoveMin(s))
      ensures parent == null ==> ctx == above && node == r
      ensures parent != null ==> ctx.InLeft? && ctx.node == parent && parent.left == node
    {
      if r == null {
        return null, null, above, s;
      }
      parent, node, ctx, sub := null, r, above, s;
      while node.left != null
        invariant sub.Cell? && node == sub.node && Wired(sub)
        invariant Plug(ctx, sub) == Plug(above, s) && Plug(ctx, RemoveMin(sub)) == Plug(above, RemoveMin(s))
        invariant MinKey(sub) == MinKey(s) && Leftmost(sub) == Leftmost(s)
        invariant parent == null ==> sub == s
        invariant parent != null ==> s.left.Cell?
        invariant parent == null ==> ctx == above && node == r
        invariant parent != null ==> ctx.InLeft? && ctx.node == parent && parent.left == node
        decreases sub
      {
        parent := node;
        ctx, sub := InLeft(node, sub.key, ctx, sub.right), sub.left;
        node := node.left;
      }
    }

    /**
     * `maxNode`: the rightmost node below `r` and its parent (null when `r`
     * itself is rightmost); both null when `r` is null.
     */
    method MaxNode(r: Node?, ghost s: Shape) returns (node: Node?, parent: Node?)
      requires Wired(s) && r == Ptr(s)
      ensures node == null <==> s.Nil?
      ensures node != null ==> node == Rightmost(s) && node.right == null && node.value == MaxKey(s)
      ensures node != null ==> (parent == null <==> s.right.Nil?)
      ensures parent == null ==> node == r
      ensures parent != null ==> parent in NodeSet(s) && parent.right == node
    {
      if r == null {
        return null, null;
      }
      ghost var sub := s;
      parent, node := null, r;
      while node.right != null
        invariant sub.Cell? && node == sub.node && Wired(sub) && NodeSet(sub) <= NodeSet(s)
        invariant MaxKey(sub) == MaxKey(s) && Rightmost(sub) == Rightmost(s)
        invariant parent == null ==> sub == s
        invariant parent != null ==> s.right.Cell?
        invariant parent == null ==> node == r
        invariant parent != null ==> parent in NodeSet(s) && parent.right == node
        decreases sub
      {
        parent := node;
        sub := sub.right;
        node := node.right;
      }
    }

    /** `min`: the least key, or nothing when the tree is empty. */
    method Min() returns (r: Option<int>)
      requires Valid()
      ensures r.None? <==> Keys() == multiset{}
      ensures r.Some? ==> r.value in Keys() && forall x :: x in Keys() ==> r.value <= x
    {
      var node, _, _, _ := MinNode(root, shape, Top);
      if node == null {
        return None;
      }
      MinKeyIsLeast(shape);
      return Some(node.value);
    }

    /** `max`: the greatest key, or nothing when the tree is empty. */
    method Max() returns (r: Option<int>)
      requires Valid()
      ensures r.None? <==> Keys() == multiset{}
      ensures r.Some? ==> r.value in Keys() && forall x :: x in Keys() ==> x <= r.value
    {
      var node, _ := MaxNode(root, shape);
      if node == null {
        return None;
      }
      MaxKeyIsGreatest(shape);
      return Some(node.value);
    }
  }
}
