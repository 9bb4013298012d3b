/** The intrusive red-black tree (src/std/rb_tree.hpp).

    Nodes carry their own parent, child and thread pointers and the tree rewrites them in place.
    The invariants are local: each is about one node and its direct neighbours. The ghost sequence
    `order` lists the members in search order; a node knows its own index in it (`pos`), the range of
    indices its subtree covers (`lo` up to, not including, `hi`) and its black height (`bh`). */
module RbTree {
  import opened Arith

  class Node {
    const key: int
    var parent: Node?
    var left: Node?
    var right: Node?
    var predecessor: Node?
    var successor: Node?
    var red: bool
    ghost var pos: int
    ghost var lo: int
    ghost var hi: int
    ghost var bh: int

    constructor (key: int)
      ensures this.key == key
      ensures parent == null && left == null && right == null && predecessor == null && successor == null && !red
    {
      this.key := key;
      parent, left, right, predecessor, successor, red := null, null, null, null, null, false;
    }

    /** The source's `child[isRight]`. */
    function Child(isRight: bool): Node?
      reads this`left, this`right
    {
      if isRight then right else left
    }
  }

  predicate IsRed(n: Node?)
    reads n
  {
    n != null && n.red
  }

  /** A colour and a black height that a node is about to get. */
  datatype Coat = Coat(red: bool, bh: int)

  // The arguments of the lemmas about two states, each of which takes one.

  /** `node` is rotated above `p`; the lemma is about `at`. */
  datatype Turn = Turn(node: Node, p: Node, isRight: bool, at: Node)

  datatype Outer = Outer(node: Node, parent: Node, grandparent: Node, isRight: bool)

  datatype Far = Far(node: Node, x: Node, p: Node, s: Node, far: Node, isLeft: bool)

  /** `x` leaves the tree; the lemma is about `n`. */
  datatype Detachment = Detachment(x: Node, n: Node)

  datatype Replacement = Replacement(node: Node, replacement: Node, n: Node)

  class Tree {
    var root: Node?
    ghost var order: seq<Node>
    ghost var nodes: set<Node>

    constructor ()
      ensures Valid() && nodes == {} && order == []
    {
      root, order, nodes := null, [], {};
    }

    // ---------------------------------------------------------------- invariants

    /** The pointers and the range of `n` agree with those of its parent and its children. */
    ghost predicate Linked(n: Node)
      reads this, nodes`parent, nodes`left, nodes`right, nodes`pos, nodes`lo, nodes`hi
    {
      && n in nodes
      && 0 <= n.lo <= n.pos < n.hi <= |order|
      && order[n.pos] == n
      && (n.left == null <==> n.lo == n.pos)
      && (n.left != null ==>
            n.left in nodes && n.left.parent == n && n.left.lo == n.lo && n.left.hi == n.pos)
      && (n.right == null <==> n.hi == n.pos + 1)
      && (n.right != null ==>
            n.right in nodes && n.right.parent == n && n.right.lo == n.pos + 1 && n.right.hi == n.hi)
      && (n.parent == null <==> n == root)
      && (n.parent != null ==>
            n.parent in nodes && (n.parent.left == n || n.parent.right == n))
    }

    ghost predicate Shape()
      reads this, nodes`parent, nodes`left, nodes`right, nodes`pos, nodes`lo, nodes`hi
    {
      && (root == null <==> order == [])
      && (root != null ==> root in nodes && root.lo == 0 && root.hi == |order|)
      && (forall i :: 0 <= i < |order| ==> order[i] in nodes && order[i].pos == i)
      && (forall n {:trigger Linked(n)} :: n in nodes ==> Linked(n))
    }

    /** No red node has a red parent, the root is black, and black heights add up along every edge.
        Two exceptions can be named: `x` is a leaf that already counts for nothing, and the
        subtree of `short` is one black node short. */
    ghost predicate Coloured(x: Node?, short: Node?)
      reads this, nodes`parent, nodes`left, nodes`right, nodes`pos, nodes`lo, nodes`hi, nodes`red, nodes`bh
    {
      && Shape()
      && (x != null ==> x in nodes && x.left == null && x.right == null && !x.red && x.bh == 0)
      && (root != null ==> !root.red)
      && (forall n {:trigger n.parent} :: n in nodes && n.parent != null && n.parent in nodes ==>
            n.parent.bh == n.bh + (if n.parent.red then 0 else 1) + (if n == short then 1 else 0))
      && (forall n {:trigger n.parent} :: n in nodes && n.parent != null && n.parent in nodes ==>
            (n.red ==> !n.parent.red))
      && (forall n {:trigger n.bh} :: n in nodes ==> n.bh >= 0)
      && (forall n {:trigger n.left} {:trigger n.right} ::
            n in nodes && n != x && (n.left == null || n.right == null) ==>
            n.bh == (if n.red then 0 else 1))
    }

    /** What `Coloured` will say once `a`, `b` and `c` wear the coats `ca`, `cb` and `cc`. */
    ghost predicate Pending(x: Node?, short: Node?, a: Node, ca: Coat, b: Node, cb: Coat, c: Node?, cc: Coat)
      reads this, nodes`parent, nodes`left, nodes`right, nodes`pos, nodes`lo, nodes`hi, nodes`red, nodes`bh
    {
      && a in nodes && b in nodes && (c != null ==> c in nodes)
      && a != b && a != c && b != c && x != a && x != b
      && (x != null ==> x in nodes && x != c && x.left == null && x.right == null && !x.red && x.bh == 0)
      && ca.bh >= 0 && cb.bh >= 0 && cc.bh >= 0
      && (root != null ==> root in nodes)
      && (root != null ==>
            !(if root == a then ca.red else if root == b then cb.red else if root == c then cc.red else root.red))
      && (forall n {:trigger n.bh} :: n in nodes ==> n.bh >= 0)
      && PendingHeights(short, a, ca, b, cb, c, cc)
      && PendingReds(a, ca, b, cb, c, cc)
      && PendingLeaves(x, a, ca, b, cb, c, cc)
      && Shape()
    }

    ghost predicate PendingHeights(short: Node?, a: Node, ca: Coat, b: Node, cb: Coat, c: Node?, cc: Coat)
      reads this, nodes`parent, nodes`red, nodes`bh
    {
      forall n {:trigger n.parent} :: n in nodes && n.parent != null && n.parent in nodes ==>
        var h := (if n == a then ca.bh else if n == b then cb.bh else if n == c then cc.bh else n.bh)
                 + (if n == short then 1 else 0);
        var p := n.parent;
        if p == a then ca.bh == h + (if ca.red then 0 else 1)
        else if p == b then cb.bh == h + (if cb.red then 0 else 1)
        else if p == c then cc.bh == h + (if cc.red then 0 else 1)
        else p.bh == h + (if p.red then 0 else 1)
    }

    ghost predicate PendingReds(a: Node, ca: Coat, b: Node, cb: Coat, c: Node?, cc: Coat)
      reads this, nodes`parent, nodes`red
    {
      forall n {:trigger n.parent} :: n in nodes && n.parent != null && n.parent in nodes ==>
        (if n == a then ca.red else if n == b then cb.red else if n == c then cc.red else n.red) ==>
        !(if n.parent == a then ca.red else if n.parent == b then cb.red
          else if n.parent == c then cc.red else n.parent.red)
    }

    ghost predicate PendingLeaves(x: Node?, a: Node, ca: Coat, b: Node, cb: Coat, c: Node?, cc: Coat)
      reads this, nodes`left, nodes`right, nodes`red, nodes`bh
    {
      forall n {:trigger n.left} {:trigger n.right} :: n in nodes && n != x && (n.left == null || n.right == null) ==>
        (if n == a then ca.bh else if n == b then cb.bh else if n == c then cc.bh else n.bh) ==
        (if (if n == a then ca.red else if n == b then cb.red else if n == c then cc.red else n.red) then 0 else 1)
    }

    /** The predecessor and successor pointers of the members in `s` thread it from end to end. */
    static ghost predicate Threaded(s: seq<Node>, members: set<Node>)
      reads members`predecessor, members`successor
    {
      && (forall i {:trigger s[i].predecessor} :: 0 <= i < |s| ==>
            s[i] in members && s[i].predecessor == if i == 0 then null else s[i - 1])
      && (forall i {:trigger s[i].successor} :: 0 <= i < |s| ==>
            s[i] in members && s[i].successor == if i + 1 == |s| then null else s[i + 1])
    }

    ghost predicate Valid()
      reads this, nodes
    {
      Coloured(null, null) && Threaded(order, nodes)
    }

    lemma OrderDistinct()
      requires Shape()
      ensures forall i, j :: 0 <= i < j < |order| ==> order[i] != order[j]
      ensures forall n :: n in order <==> n in nodes
    {
      forall n | n in nodes
        ensures n in order
      {
        assert Linked(n);
      }
    }

    lemma ChildrenOf(p: Node)
      requires Shape()
      ensures forall n {:trigger n.parent} :: n in nodes && n.parent == p ==> n == p.left || n == p.right
    {
      forall n | n in nodes && n.parent == p
        ensures n == p.left || n == p.right
      {
        assert Linked(n);
      }
    }

    // ---------------------------------------------------------------- rotation

    /** `p` is the parent of `node`, `g` the parent of `p` and `c` the child of `node` on side `isRight`. */
    ghost predicate RotationSite(node: Node, p: Node, c: Node?, g: Node?, isRight: bool)
      reads this, nodes, p
    {
      && node in nodes && p in nodes && p != node
      && node.parent == p && p.Child(!isRight) == node && p.Child(isRight) != node
      && node.Child(isRight) == c && p.parent == g
      && (c != null ==> c in nodes && c != node && c != p)
      && (g != null ==> g in nodes && g != node && g != p && g != c
                        && (g.left == p || g.right == p) && g.left != g.right)
      && (forall n :: n in nodes && n != g ==> n.left != p && n.right != p)
    }

    lemma SiteOf(node: Node, p: Node, isRight: bool)
      requires Shape() && node in nodes
      requires node.parent == p && p.Child(!isRight) == node
      ensures RotationSite(node, p, node.Child(isRight), p.parent, isRight)
    {
      var c, g := node.Child(isRight), p.parent;
      assert Linked(node) && Linked(p);
      assert g != null ==> Linked(g);
      assert c != null ==> Linked(c);
      forall n | n in nodes && n != g
        ensures n.left != p && n.right != p
      {
        assert Linked(n);
      }
    }

    /** What rotating `node` above `p` writes, and that it writes nothing else. */
    twostate predicate Rotated(node: Node, p: Node, isRight: bool)
      reads this, nodes, node, p, p.left, p.right
    {
      var c := old(node.Child(isRight));
      && nodes == old(nodes)
      && node.Child(isRight) == p && p.Child(!isRight) == c && p.parent == node && node.parent == old(p.parent)
      && node.Child(!isRight) == old(node.Child(!isRight)) && p.Child(isRight) == old(p.Child(isRight))
      && node.lo == old(p.lo) && node.hi == old(p.hi)
      && p.lo == (if isRight then node.pos + 1 else old(p.lo))
      && p.hi == (if isRight then old(p.hi) else node.pos)
      && (c != null ==> c.parent == p)
      && (forall n :: n in nodes && n != node && n != p ==>
            n.lo == old(n.lo) && n.hi == old(n.hi)
            && n.left == (if old(n.left) == p then node else old(n.left))
            && n.right == (if old(n.right) == p then node else old(n.right)))
      && (forall n :: n in nodes && n != node && n != p && n != c ==> n.parent == old(n.parent))
      && root == (if old(p.parent) == null then node else old(root))
    }

    /** Makes `node` take the place of `child` below `parent`, or at the root. */
    method ReplaceChild(parent: Node?, child: Node, node: Node?)
      requires parent != null ==> (parent.left == child || parent.right == child) && parent.left != parent.right
      modifies this`root
      modifies (if parent == null then {} else {parent})`left, (if parent == null then {} else {parent})`right
      ensures root == if parent == null then node else old(root)
      ensures parent != null ==> parent.left == if old(parent.left) == child then node else old(parent.left)
      ensures parent != null ==> parent.right == if old(parent.right) == child then node else old(parent.right)
    {
      if parent == null {
        root := node;
      } else if parent.left == child {
        parent.left := node;
      } else {
        assert parent.right == child;
        parent.right := node;
      }
    }

    method RotateLinks(node: Node, parent: Node, child: Node?, grandparent: Node?, isRight: bool)
      requires RotationSite(node, parent, child, grandparent, isRight)
      modifies this`root, nodes`parent, nodes`left, nodes`right, nodes`lo, nodes`hi
      ensures Rotated(node, parent, isRight)
    {
      if child != null {
        child.parent := parent;
      }
      if isRight {
        parent.left, node.right := child, parent;
        parent.lo, node.lo, node.hi := node.pos + 1, parent.lo, parent.hi;
      } else {
        parent.right, node.left := child, parent;
        parent.hi, node.lo, node.hi := node.pos, parent.lo, parent.hi;
      }
      parent.parent := node;
      node.parent := grandparent;
      ReplaceChild(grandparent, parent, node);
    }

    // After a rotation every node agrees with its neighbours: first the node, then the others.

    twostate lemma RotatedNode(a: Turn)
      requires old(Shape() && a.node in nodes && a.node.parent == a.p && a.p.Child(!a.isRight) == a.node)
      requires Rotated(a.node, a.p, a.isRight)
      requires order == old(order) && forall n {:trigger n.pos} :: n in nodes ==> n.pos == old(n.pos)
      ensures Linked(a.node)
    {
      assert old(Linked(a.node) && Linked(a.p));
      assert old(a.p.parent != null ==> Linked(a.p.parent));
      assert old(a.node.Child(!a.isRight) != null ==> Linked(a.node.Child(!a.isRight)));
    }

    twostate lemma RotatedParent(a: Turn)
      requires old(Shape() && a.node in nodes && a.node.parent == a.p && a.p.Child(!a.isRight) == a.node)
      requires Rotated(a.node, a.p, a.isRight)
      requires order == old(order) && forall n {:trigger n.pos} :: n in nodes ==> n.pos == old(n.pos)
      ensures Linked(a.p)
    {
      assert old(Linked(a.node) && Linked(a.p));
      assert old(a.p.Child(a.isRight) != null ==> Linked(a.p.Child(a.isRight)));
      assert old(a.node.Child(a.isRight) != null ==> Linked(a.node.Child(a.isRight)));
    }

    twostate lemma RotatedChild(a: Turn)
      requires old(Shape() && a.node in nodes && a.node.parent == a.p && a.p.Child(!a.isRight) == a.node)
      requires Rotated(a.node, a.p, a.isRight)
      requires order == old(order) && forall n {:trigger n.pos} :: n in nodes ==> n.pos == old(n.pos)
      requires a.at == old(a.node.Child(a.isRight))
      ensures Linked(a.at)
    {
      assert old(Linked(a.node) && Linked(a.p) && Linked(a.at));
    }

    twostate lemma RotatedGrandparent(a: Turn)
      requires old(Shape() && a.node in nodes && a.node.parent == a.p && a.p.Child(!a.isRight) == a.node)
      requires Rotated(a.node, a.p, a.isRight)
      requires order == old(order) && forall n {:trigger n.pos} :: n in nodes ==> n.pos == old(n.pos)
      requires a.at == old(a.p.parent)
      ensures Linked(a.at)
    {
      assert old(Linked(a.node) && Linked(a.p) && Linked(a.at));
    }

    twostate lemma RotatedFar(a: Turn)
      requires old(Shape() && a.node in nodes && a.node.parent == a.p && a.p.Child(!a.isRight) == a.node)
      requires Rotated(a.node, a.p, a.isRight)
      requires order == old(order) && forall n {:trigger n.pos} :: n in nodes ==> n.pos == old(n.pos)
      requires a.at in nodes && a.at != a.node && a.at != a.p && a.at != old(a.node.Child(a.isRight))
      requires a.at != old(a.p.parent)
      ensures Linked(a.at)
    {
      assert old(Linked(a.node) && Linked(a.p) && Linked(a.at));
    }

    method Rotate(node: Node, isRight: bool)
      requires Shape() && node in nodes
      requires node.parent != null && node.parent.Child(!isRight) == node
      modifies this`root, nodes`parent, nodes`left, nodes`right, nodes`lo, nodes`hi
      ensures Shape()
      ensures old(node.parent) in nodes
      ensures var p: Node := old(node.parent); Rotated(node, p, isRight)
    {
      var parent: Node := node.parent;
      var child := node.Child(isRight);
      var grandparent := parent.parent;
      SiteOf(node, parent, isRight);
      RotateLinks(node, parent, child, grandparent, isRight);
      forall n | n in nodes
        ensures Linked(n)
      {
        if n == node {
          RotatedNode(Turn(node, parent, isRight, n));
        } else if n == parent {
          RotatedParent(Turn(node, parent, isRight, n));
        } else if n == child {
          RotatedChild(Turn(node, parent, isRight, n));
        } else if n == grandparent {
          RotatedGrandparent(Turn(node, parent, isRight, n));
        } else {
          RotatedFar(Turn(node, parent, isRight, n));
        }
      }
      assert old(Linked(parent)) && Linked(node);
    }

    // ---------------------------------------------------------------- painting

    method Paint(a: Node, ra: bool, ghost ha: int, b: Node, rb: bool, ghost hb: int, c: Node?, ghost hc: int)
      requires a != b && a != c && b != c
      modifies a`red, a`bh, b`red, b`bh, (if c == null then {} else {c})`red, (if c == null then {} else {c})`bh
      ensures a.red == ra && a.bh == ha && b.red == rb && b.bh == hb
      ensures c != null ==> !c.red && c.bh == hc
    {
      a.red := ra;
      b.red := rb;
      a.bh, b.bh := ha, hb;
      if c != null {
        c.red, c.bh := false, hc;
      }
    }

    /** Colours `a` with `ra`, `b` with `rb` and `c`, if there is one, black. */
    method Repaint(ghost x: Node?, ghost short: Node?, a: Node, ra: bool, ghost ha: int,
                   b: Node, rb: bool, ghost hb: int, c: Node?, ghost hc: int)
      requires Pending(x, short, a, Coat(ra, ha), b, Coat(rb, hb), c, Coat(false, hc))
      modifies nodes`red, nodes`bh
      ensures forall n :: n in nodes && n != a && n != b && n != c ==> n.red == old(n.red) && n.bh == old(n.bh)
      ensures a.red == ra && b.red == rb && (c != null ==> !c.red)
      ensures Coloured(x, short)
    {
      Paint(a, ra, ha, b, rb, hb, c, hc);
    }

    // ---------------------------------------------------------------- insertion

    /** Everything is coloured well, except that `node` has yet to become red and its parent may be
        red too. */
    ghost predicate InsertFix(node: Node)
      reads this, nodes`parent, nodes`left, nodes`right, nodes`pos, nodes`lo, nodes`hi, nodes`red, nodes`bh
    {
      && Shape() && node in nodes && Linked(node)
      && (root != node && root != null ==> !root.red)
      && (forall n {:trigger n.parent} :: n in nodes && n.parent != null && n.parent in nodes ==>
            n.parent.bh == n.bh + (if n.parent.red || n.parent == node then 0 else 1))
      && (forall n {:trigger n.parent} :: n in nodes && n.parent != null && n.parent in nodes && n != node ==>
            (n.red ==> !n.parent.red && n.parent != node))
      && (forall n {:trigger n.left} {:trigger n.right} ::
            n in nodes && n != node && (n.left == null || n.right == null) ==>
            n.bh == (if n.red then 0 else 1))
      && (node.left == null || node.right == null ==> node.bh == 0)
      && (forall n {:trigger n.bh} :: n in nodes ==> n.bh >= 0)
    }

    method MakeRed(node: Node)
      requires InsertFix(node)
      modifies node`red
      ensures InsertFix(node) && node.red
    {
      assert Linked(node);
      node.red := true;
    }

    method MakeRootBlack(node: Node)
      requires InsertFix(node) && node.parent == null
      modifies node`red, node`bh
      ensures Coloured(null, null)
    {
      assert Linked(node);
      node.red, node.bh := false, node.bh + 1;
    }

    lemma InsertDone(node: Node)
      requires InsertFix(node) && node.red && node.parent != null && !node.parent.red
      ensures Coloured(null, null)
    {
      assert Linked(node);
    }

    /** The grandparent the source asserts: a red parent is not the root and its parent is black. */
    lemma RedParentHasBlackParent(node: Node, parent: Node)
      requires InsertFix(node) && node.parent == parent && parent.red
      ensures parent in nodes && parent.parent != null && parent.parent in nodes && !parent.parent.red
      ensures parent.parent.left == parent || parent.parent.right == parent
      ensures parent.parent.left != parent.parent.right
    {
      assert Linked(node) && Linked(parent);
      assert parent != node && parent != root;
      var grandparent: Node := parent.parent;
      assert Linked(grandparent);
    }

    method PaintUp(grandparent: Node, parent: Node, uncle: Node)
      requires grandparent != parent && grandparent != uncle && parent != uncle
      modifies {grandparent, parent, uncle}`red, {parent, uncle}`bh
      ensures grandparent.red && !parent.red && !uncle.red
      ensures parent.bh == old(parent.bh) + 1 && uncle.bh == old(uncle.bh) + 1
    {
      grandparent.red := true;
      parent.red := false;
      uncle.red := false;
      parent.bh, uncle.bh := parent.bh + 1, uncle.bh + 1;
    }

    /** A red uncle: the two reds move up to the grandparent. */
    method Recolour(node: Node, parent: Node, grandparent: Node, uncle: Node)
      requires InsertFix(node) && node.red && node.parent == parent && parent.red && parent.parent == grandparent
      requires uncle == grandparent.Child(grandparent.left == parent) && uncle.red
      modifies nodes`red, nodes`bh
      ensures InsertFix(grandparent)
      ensures grandparent in nodes && grandparent.hi - grandparent.lo > node.hi - node.lo
    {
      assert Linked(node) && Linked(parent) && Linked(grandparent) && Linked(uncle);
      ChildrenOf(grandparent);
      PaintUp(grandparent, parent, uncle);
    }

    /** An inner grandchild is first rotated to the outside; the red pair changes roles. */
    method RotateInner(node: Node, parent: Node, grandparent: Node, isRight: bool)
      requires InsertFix(node) && node.red && node.parent == parent && parent.red && parent.parent == grandparent
      requires parent.Child(!isRight) == node && grandparent.Child(isRight) == parent
      modifies this`root, nodes`parent, nodes`left, nodes`right, nodes`lo, nodes`hi
      ensures InsertFix(parent) && parent.parent == node && node.parent == grandparent
      ensures node.Child(isRight) == parent && grandparent.Child(isRight) == node
      ensures grandparent.Child(!isRight) == old(grandparent.Child(!isRight))
    {
      assert Linked(node) && Linked(parent) && Linked(grandparent);
      Rotate(node, isRight);
    }

    /** Where `parent` is rotated above `grandparent`: `node` and `parent` are both red and on the same side. */
    ghost predicate OuterSite(node: Node, parent: Node, grandparent: Node, isRight: bool)
      reads this, nodes, node, parent, grandparent, grandparent.left, grandparent.right
    {
      && InsertFix(node) && node.red && node.parent == parent && parent.red && parent.parent == grandparent
      && grandparent in nodes && parent.Child(!isRight) == node && grandparent.Child(!isRight) == parent
      && !IsRed(grandparent.Child(isRight))
    }

    twostate lemma OuterHeights(a: Outer)
      requires old(OuterSite(a.node, a.parent, a.grandparent, a.isRight))
      requires Shape() && Rotated(a.parent, a.grandparent, a.isRight)
      requires forall n {:trigger n.bh} {:trigger n.red} :: n in nodes ==> n.red == old(n.red) && n.bh == old(n.bh)
      ensures PendingHeights(null, a.parent, Coat(false, a.parent.bh + 1), a.grandparent,
                             Coat(true, a.grandparent.bh - 1), null, Coat(false, 0))
    {
      assert old(Linked(a.node) && Linked(a.parent) && Linked(a.grandparent));
      ChildrenOf(a.grandparent);
    }

    twostate lemma OuterReds(a: Outer)
      requires old(OuterSite(a.node, a.parent, a.grandparent, a.isRight))
      requires Shape() && Rotated(a.parent, a.grandparent, a.isRight)
      requires forall n {:trigger n.bh} {:trigger n.red} :: n in nodes ==> n.red == old(n.red) && n.bh == old(n.bh)
      ensures PendingReds(a.parent, Coat(false, a.parent.bh + 1), a.grandparent,
                          Coat(true, a.grandparent.bh - 1), null, Coat(false, 0))
    {
      assert old(Linked(a.node) && Linked(a.parent) && Linked(a.grandparent));
      ChildrenOf(a.grandparent);
    }

    twostate lemma OuterLeaves(a: Outer)
      requires old(OuterSite(a.node, a.parent, a.grandparent, a.isRight))
      requires Shape() && Rotated(a.parent, a.grandparent, a.isRight)
      requires forall n {:trigger n.bh} {:trigger n.red} :: n in nodes ==> n.red == old(n.red) && n.bh == old(n.bh)
      ensures PendingLeaves(null, a.parent, Coat(false, a.parent.bh + 1), a.grandparent,
                            Coat(true, a.grandparent.bh - 1), null, Coat(false, 0))
    {
      assert old(Linked(a.node) && Linked(a.parent) && Linked(a.grandparent));
    }

    method RotateOuter(node: Node, parent: Node, grandparent: Node, isRight: bool)
      requires InsertFix(node) && node.red && node.parent == parent && parent.red && parent.parent == grandparent
      requires parent.Child(!isRight) == node && grandparent.Child(!isRight) == parent
      requires !IsRed(grandparent.Child(isRight))
      modifies this`root, nodes`parent, nodes`left, nodes`right, nodes`lo, nodes`hi
      ensures grandparent in nodes
      ensures Pending(null, null, parent, Coat(false, parent.bh + 1), grandparent, Coat(true, grandparent.bh - 1),
                      null, Coat(false, 0))
    {
      assert Linked(node) && Linked(parent) && Linked(grandparent);
      Rotate(parent, isRight);
      ghost var a := Outer(node, parent, grandparent, isRight);
      OuterHeights(a);
      OuterReds(a);
      OuterLeaves(a);
      assert Linked(parent);
    }

    /** A black uncle: one or two rotations end the repair. `isRight` is the direction of the last one. */
    method InsertRotate(node: Node, parent: Node, grandparent: Node, isRight: bool)
      requires InsertFix(node) && node.red && node.parent == parent && parent.red && parent.parent == grandparent
      requires grandparent.Child(!isRight) == parent && !IsRed(grandparent.Child(isRight))
      modifies this`root, nodes`parent, nodes`left, nodes`right, nodes`lo, nodes`hi, nodes`red, nodes`bh
      ensures Coloured(null, null)
    {
      assert Linked(node) && Linked(parent);
      if parent.Child(isRight) == node {
        RotateInner(node, parent, grandparent, !isRight);
        RotateOuter(parent, node, grandparent, isRight);
        Repaint(null, null, node, false, node.bh + 1, grandparent, true, grandparent.bh - 1, null, 0);
      } else {
        RotateOuter(node, parent, grandparent, isRight);
        Repaint(null, null, parent, false, parent.bh + 1, grandparent, true, grandparent.bh - 1, null, 0);
      }
    }

    method FixInsert(first: Node)
      requires InsertFix(first)
      modifies this`root, nodes`parent, nodes`left, nodes`right, nodes`lo, nodes`hi, nodes`red, nodes`bh
      ensures Coloured(null, null)
    {
      var node: Node := first;
      while true
        invariant InsertFix(node)
        decreases |order| - (node.hi - node.lo)
      {
        assert Linked(node);
        var parent := node.parent;
        if parent == null {
          MakeRootBlack(node);
          return;
        }

        MakeRed(node);
        if !parent.red {
          InsertDone(node);
          return;
        }

        RedParentHasBlackParent(node, parent);
        var grandparent := parent.parent;
        if grandparent.left == parent && IsRed(grandparent.right) {
          Recolour(node, parent, grandparent, grandparent.right);
          node := grandparent;
          continue;
        } else if grandparent.right == parent && IsRed(grandparent.left) {
          Recolour(node, parent, grandparent, grandparent.left);
          node := grandparent;
          continue;
        }

        InsertRotate(node, parent, grandparent, grandparent.left == parent);
        return;
      }
    }

    /** Renumbers the members around the new index `k` of `node`; `p` is the index of its parent. */
    ghost method OpenGap(node: Node, p: int, k: int)
      requires p <= k <= p + 1 && 0 <= p < |order|
      requires node !in nodes
      requires forall i :: 0 <= i < |order| ==> order[i] in nodes && order[i].pos == i
      modifies this`order, this`nodes, nodes`pos, nodes`lo, nodes`hi, node`pos, node`lo, node`hi, node`bh
      ensures order == old(order)[..k] + [node] + old(order)[k..]
      ensures nodes == old(nodes) + {node}
      ensures forall i :: 0 <= i < |order| ==> order[i] in nodes && order[i].pos == i
      ensures node.pos == k && node.lo == k && node.hi == k + 1 && node.bh == 0
      ensures forall n :: n in old(nodes) ==>
        && n.pos == old(n.pos) + (if old(n.pos) >= k then 1 else 0)
        && n.lo == old(n.lo) + (if old(n.lo) > p then 1 else 0)
        && n.hi == old(n.hi) + (if old(n.hi) > p then 1 else 0)
    {
      forall n | n in nodes { n.pos := n.pos + (if n.pos >= k then 1 else 0); }
      forall n | n in nodes { n.lo := n.lo + (if n.lo > p then 1 else 0); }
      forall n | n in nodes { n.hi := n.hi + (if n.hi > p then 1 else 0); }
      node.pos, node.lo, node.hi, node.bh := k, k, k + 1, 0;
      order := order[..k] + [node] + order[k..];
      nodes := nodes + {node};
    }

    method AttachLeaf(parent: Node, node: Node, isRight: bool)
      requires 0 <= parent.pos < |order| && parent in nodes && node !in nodes && parent.Child(isRight) == null
      requires forall i :: 0 <= i < |order| ==> order[i] in nodes && order[i].pos == i
      modifies this`order, this`nodes, nodes`pos, nodes`lo, nodes`hi, parent`left, parent`right
      modifies node`parent, node`pos, node`lo, node`hi, node`bh
      ensures var k := old(parent.pos) + (if isRight then 1 else 0);
        && order == old(order)[..k] + [node] + old(order)[k..]
        && node.pos == k && node.lo == k && node.hi == k + 1
        && (forall n :: n in old(nodes) ==> n.pos == old(n.pos) + (if old(n.pos) >= k then 1 else 0))
      ensures nodes == old(nodes) + {node}
      ensures forall i :: 0 <= i < |order| ==> order[i] in nodes && order[i].pos == i
      ensures node.parent == parent && node.bh == 0
      ensures parent.Child(isRight) == node && parent.Child(!isRight) == old(parent.Child(!isRight))
      ensures forall n :: n in old(nodes) ==>
        && n.lo == old(n.lo) + (if old(n.lo) > old(parent.pos) then 1 else 0)
        && n.hi == old(n.hi) + (if old(n.hi) > old(parent.pos) then 1 else 0)
    {
      if isRight {
        parent.right := node;
      } else {
        parent.left := node;
      }
      node.parent := parent;
      OpenGap(node, parent.pos, parent.pos + (if isRight then 1 else 0));
    }

    method InsertLeaf(parent: Node, node: Node, isRight: bool)
      requires Shape() && parent in nodes && node !in nodes && parent.Child(isRight) == null
      requires node.left == null && node.right == null
      modifies this`order, this`nodes, nodes`pos, nodes`lo, nodes`hi, parent`left, parent`right
      modifies node`parent, node`pos, node`lo, node`hi, node`bh
      ensures Shape()
      ensures nodes == old(nodes) + {node}
      ensures var k := old(parent.pos) + (if isRight then 1 else 0);
        0 <= k <= |old(order)| && order == old(order)[..k] + [node] + old(order)[k..]
      ensures parent.Child(isRight) == node && parent.Child(!isRight) == old(parent.Child(!isRight))
      ensures node.parent == parent && node.bh == 0
    {
      assert Linked(parent);
      assert root in nodes && Linked(root);
      AttachLeaf(parent, node, isRight);
      forall n | n in nodes
        ensures Linked(n)
      {
        if n != node {
          assert old(Linked(n));
        }
      }
    }

    method InsertRedLeaf(parent: Node, node: Node, isRight: bool)
      requires Coloured(null, null) && parent in nodes && node !in nodes && parent.Child(isRight) == null
      requires node.left == null && node.right == null && !node.red
      modifies this`order, this`nodes, nodes`pos, nodes`lo, nodes`hi, parent`left, parent`right
      modifies node`parent, node`pos, node`lo, node`hi, node`bh
      ensures InsertFix(node)
      ensures nodes == old(nodes) + {node}
      ensures var k := old(parent.pos) + (if isRight then 1 else 0);
        0 <= k <= |old(order)| && order == old(order)[..k] + [node] + old(order)[k..]
    {
      assert Linked(parent);
      InsertLeaf(parent, node, isRight);
      forall n | n in nodes
        ensures n.parent != node
      {
        assert Linked(n);
      }
    }

    method ThreadBeforeLinks(parent: Node, node: Node)
      requires node != parent && parent.predecessor !in {parent, node}
      modifies node`predecessor, node`successor, parent`predecessor
      modifies (if parent.predecessor == null then {} else {parent.predecessor})`successor
      ensures node.successor == parent && node.predecessor == old(parent.predecessor) && parent.predecessor == node
      ensures node.predecessor != null ==> node.predecessor.successor == node
    {
      var predecessor := parent.predecessor;
      if predecessor != null {
        predecessor.successor := node;
      }
      node.predecessor := predecessor;
      node.successor := parent;
      parent.predecessor := node;
    }

    /** Threads `node` into the list `s` right before `parent`, which stands at index `p`. */
    method ThreadBefore(parent: Node, node: Node, ghost s: seq<Node>, ghost p: nat, ghost members: set<Node>)
      returns (ghost t: seq<Node>)
      requires Threaded(s, members) && p < |s| && s[p] == parent && node !in members
      requires forall i :: 0 <= i < |s| ==> s[i] in members && s[i].pos == i
      modifies members`predecessor, members`successor, node`predecessor, node`successor
      ensures t == s[..p] + [node] + s[p..] && Threaded(t, members + {node})
    {
      t := s[..p] + [node] + s[p..];
      assert s[p].predecessor == if p == 0 then null else s[p - 1];
      ThreadBeforeLinks(parent, node);
      forall i | 0 <= i < |t|
        ensures t[i].predecessor == if i == 0 then null else t[i - 1]
        ensures t[i].successor == if i + 1 == |t| then null else t[i + 1]
      {
        if i != p {
          var j := if i < p then i else i - 1;
          assert t[i] == s[j] && s[j].pos == j;
          assert old(s[j].predecessor == if j == 0 then null else s[j - 1]);
          assert old(s[j].successor == if j + 1 == |s| then null else s[j + 1]);
        }
      }
    }

    method ThreadAfterLinks(parent: Node, node: Node)
      requires node != parent && parent.successor !in {parent, node}
      modifies node`predecessor, node`successor, parent`successor
      modifies (if parent.successor == null then {} else {parent.successor})`predecessor
      ensures node.predecessor == parent && node.successor == old(parent.successor) && parent.successor == node
      ensures node.successor != null ==> node.successor.predecessor == node
    {
      var successor := parent.successor;
      if successor != null {
        successor.predecessor := node;
      }
      node.successor := successor;
      node.predecessor := parent;
      parent.successor := node;
    }

    /** Threads `node` into the list `s` right after `parent`, which stands at index `p`. */
    method ThreadAfter(parent: Node, node: Node, ghost s: seq<Node>, ghost p: nat, ghost members: set<Node>)
      returns (ghost t: seq<Node>)
      requires Threaded(s, members) && p < |s| && s[p] == parent && node !in members
      requires forall i :: 0 <= i < |s| ==> s[i] in members && s[i].pos == i
      modifies members`predecessor, members`successor, node`predecessor, node`successor
      ensures t == s[..p + 1] + [node] + s[p + 1..] && Threaded(t, members + {node})
    {
      t := s[..p + 1] + [node] + s[p + 1..];
      assert s[p].successor == if p + 1 == |s| then null else s[p + 1];
      ThreadAfterLinks(parent, node);
      forall i | 0 <= i < |t|
        ensures t[i].predecessor == if i == 0 then null else t[i - 1]
        ensures t[i].successor == if i + 1 == |t| then null else t[i + 1]
      {
        if i != p + 1 {
          var j := if i < p + 1 then i else i - 1;
          assert t[i] == s[j] && s[j].pos == j;
          assert old(s[j].predecessor == if j == 0 then null else s[j - 1]);
          assert old(s[j].successor == if j + 1 == |s| then null else s[j + 1]);
        }
      }
    }

    method ThreadLeaf(parent: Node, node: Node, isRight: bool) returns (ghost t: seq<Node>)
      requires Valid() && parent in nodes && node !in nodes
      modifies nodes`predecessor, nodes`successor, node`predecessor, node`successor
      ensures 0 <= parent.pos < |order|
      ensures var k := parent.pos + (if isRight then 1 else 0); t == order[..k] + [node] + order[k..]
      ensures Threaded(t, nodes + {node})
    {
      assert Linked(parent);
      if isRight {
        t := ThreadAfter(parent, node, order, parent.pos, nodes);
      } else {
        t := ThreadBefore(parent, node, order, parent.pos, nodes);
      }
    }

    method PlaceLeaf(parent: Node, node: Node, isRight: bool)
      requires Valid() && parent in nodes && node !in nodes && parent.Child(isRight) == null
      requires node.left == null && node.right == null && !node.red
      modifies this`order, this`nodes, nodes, node
      ensures InsertFix(node) && Threaded(order, nodes) && nodes == old(nodes) + {node}
      ensures var k := old(parent.pos) + (if isRight then 1 else 0);
        0 <= k <= |old(order)| && order == old(order)[..k] + [node] + old(order)[k..]
    {
      assert Linked(parent);
      ghost var t := ThreadLeaf(parent, node, isRight);
      InsertRedLeaf(parent, node, isRight);
    }

    method ResetHook(node: Node)
      modifies node`parent, node`left, node`right, node`predecessor, node`successor, node`red
      ensures node.parent == null && node.left == null && node.right == null
      ensures node.predecessor == null && node.successor == null && !node.red
    {
      node.parent, node.left, node.right := null, null, null;
      node.predecessor, node.successor, node.red := null, null, false;
    }

    method PlaceFresh(parent: Node, node: Node, isRight: bool)
      requires Valid() && parent in nodes && node !in nodes && parent.Child(isRight) == null
      modifies this`order, this`nodes, nodes, node
      ensures InsertFix(node) && Threaded(order, nodes) && nodes == old(nodes) + {node}
      ensures var k := old(parent.pos) + (if isRight then 1 else 0);
        0 <= k <= |old(order)| && order == old(order)[..k] + [node] + old(order)[k..]
    {
      ResetHook(node);
      PlaceLeaf(parent, node, isRight);
    }

    /** `insert_left` and `insert_right`: `node` becomes the neighbour of `parent` in the order. */
    method InsertChild(parent: Node, node: Node, isRight: bool)
      requires Valid() && parent in nodes && node !in nodes && parent.Child(isRight) == null
      modifies this, nodes, node
      ensures Valid() && nodes == old(nodes) + {node}
      ensures var k := old(parent.pos) + (if isRight then 1 else 0);
        0 <= k <= |old(order)| && order == old(order)[..k] + [node] + old(order)[k..]
    {
      PlaceFresh(parent, node, isRight);
      FixInsert(node);
    }

    method InsertRoot(node: Node)
      requires Valid() && root == null
      modifies this, node
      ensures Valid() && nodes == {node} && order == [node]
    {
      OrderDistinct();
      ResetHook(node);
      root := node;
      order, nodes := [node], {node};
      node.pos, node.lo, node.hi, node.bh := 0, 0, 1, 0;
      assert Linked(node);
      FixInsert(node);
    }

    // ---------------------------------------------------------------- removal

    /** The subtree of `node` is one black node short; `x`, the leaf about to go, lies in it. */
    ghost predicate RemoveFix(node: Node, x: Node)
      reads this, nodes`parent, nodes`left, nodes`right, nodes`pos, nodes`lo, nodes`hi, nodes`red, nodes`bh
    {
      && Coloured(x, node) && node in nodes && !node.red
      && node.lo <= x.pos < node.hi
    }

    lemma SiblingOf(node: Node, x: Node, p: Node, isLeft: bool)
      requires RemoveFix(node, x) && node.parent == p && isLeft == (p.left == node)
      ensures p in nodes && p != x && Linked(p) && p.Child(!isLeft) == node
      ensures var s := p.Child(isLeft);
        && s != null && s in nodes && Linked(s) && s != x && s != node && s.parent == p && !(s.lo <= x.pos < s.hi)
        && s.bh == node.bh + 1 && p.bh == s.bh + (if p.red then 0 else 1)
    {
      assert Linked(node) && Linked(p) && Linked(x);
      var s := p.Child(isLeft);
      assert p != x;
      assert s != null;
      assert Linked(s);
    }

    method RotateRedSibling(node: Node, ghost x: Node, p: Node, s: Node, isLeft: bool)
      requires RemoveFix(node, x) && node.parent == p && isLeft == (p.left == node) && s == p.Child(isLeft) && s.red
      modifies this`root, nodes`parent, nodes`left, nodes`right, nodes`lo, nodes`hi
      ensures p in nodes && s in nodes
      ensures Pending(x, node, p, Coat(true, p.bh - 1), s, Coat(false, s.bh + 1), null, Coat(false, 0))
      ensures node.parent == p && isLeft == (p.left == node)
      ensures node.lo == old(node.lo) && node.hi == old(node.hi)
    {
      SiblingOf(node, x, p, isLeft);
      Rotate(s, !isLeft);
      ChildrenOf(p);
    }

    method RedSibling(node: Node, ghost x: Node, p: Node, s: Node, isLeft: bool)
      requires RemoveFix(node, x) && node.parent == p && isLeft == (p.left == node) && s == p.Child(isLeft) && s.red
      modifies this`root, nodes`parent, nodes`left, nodes`right, nodes`lo, nodes`hi, nodes`red, nodes`bh
      ensures RemoveFix(node, x)
      ensures node.parent == p && isLeft == (p.left == node) && p.red
      ensures node.lo == old(node.lo) && node.hi == old(node.hi)
    {
      SiblingOf(node, x, p, isLeft);
      RotateRedSibling(node, x, p, s, isLeft);
      Repaint(x, node, p, true, p.bh - 1, s, false, s.bh + 1, null, 0);
    }

    /** Both nephews are black: the sibling turns red, and either the parent absorbs the shortage or
        it moves up to the parent. */
    method BlackNephews(node: Node, ghost x: Node, p: Node, s: Node, isLeft: bool) returns (up: bool)
      requires RemoveFix(node, x) && node.parent == p && isLeft == (p.left == node) && s == p.Child(isLeft) && !s.red
      requires !IsRed(s.left) && !IsRed(s.right)
      modifies nodes`red, nodes`bh
      ensures up ==> RemoveFix(p, x) && p.hi - p.lo > node.hi - node.lo
      ensures !up ==> Coloured(x, null)
    {
      SiblingOf(node, x, p, isLeft);
      assert Linked(node);
      ChildrenOf(s);
      ChildrenOf(p);
      up := PaintNephews(p, s);
    }

    method PaintNephews(p: Node, s: Node) returns (up: bool)
      requires p != s
      modifies p`red, p`bh, s`red, s`bh
      ensures up == !old(p.red)
      ensures s.red && s.bh == old(s.bh) - 1
      ensures !p.red && p.bh == old(p.bh) - (if old(p.red) then 0 else 1)
    {
      s.red := true;
      s.bh := s.bh - 1;
      up := !p.red;
      if up {
        p.bh := p.bh - 1;
      } else {
        p.red := false;
      }
    }

    method RotateNear(node: Node, ghost x: Node, p: Node, s: Node, child: Node, isLeft: bool)
      requires RemoveFix(node, x) && node.parent == p && isLeft == (p.left == node) && s == p.Child(isLeft) && !s.red
      requires child == s.Child(!isLeft) && child.red && !IsRed(s.Child(isLeft))
      modifies this`root, nodes`parent, nodes`left, nodes`right, nodes`lo, nodes`hi
      ensures child in nodes && s in nodes
      ensures Pending(x, node, s, Coat(true, s.bh - 1), child, Coat(false, child.bh + 1), null, Coat(false, 0))
      ensures node.parent == p && isLeft == (p.left == node) && p.Child(isLeft) == child && child.Child(isLeft) == s
      ensures node.lo == old(node.lo) && node.hi == old(node.hi)
    {
      SiblingOf(node, x, p, isLeft);
      assert Linked(child);
      Rotate(child, isLeft);
      ChildrenOf(s);
    }

    /** Only the near nephew is red: it is rotated above the sibling and becomes the sibling. */
    method NearNephew(node: Node, ghost x: Node, p: Node, s: Node, child: Node, isLeft: bool)
      requires RemoveFix(node, x) && node.parent == p && isLeft == (p.left == node) && s == p.Child(isLeft) && !s.red
      requires child == s.Child(!isLeft) && child.red && !IsRed(s.Child(isLeft))
      modifies this`root, nodes`parent, nodes`left, nodes`right, nodes`lo, nodes`hi, nodes`red, nodes`bh
      ensures RemoveFix(node, x)
      ensures node.parent == p && isLeft == (p.left == node) && p.Child(isLeft) == child && !child.red
      ensures child.Child(isLeft) == s && s.red && p.red == old(p.red)
    {
      SiblingOf(node, x, p, isLeft);
      assert Linked(child);
      RotateNear(node, x, p, s, child, isLeft);
      Repaint(x, node, s, true, s.bh - 1, child, false, child.bh + 1, null, 0);
    }

    /** Where the black sibling `s` with the red child `far` is rotated above `p`. */
    ghost predicate FarSite(node: Node, x: Node, p: Node, s: Node, far: Node, isLeft: bool)
      reads this, nodes, node, p, s, far
    {
      && RemoveFix(node, x) && node.parent == p && p in nodes && isLeft == (p.left == node)
      && s == p.Child(isLeft) && !s.red && s in nodes && far == s.Child(isLeft) && far.red
    }

    twostate lemma FarHeights(a: Far)
      requires old(FarSite(a.node, a.x, a.p, a.s, a.far, a.isLeft))
      requires Shape() && Rotated(a.s, a.p, !a.isLeft)
      requires forall n {:trigger n.bh} {:trigger n.red} :: n in nodes ==> n.red == old(n.red) && n.bh == old(n.bh)
      ensures PendingHeights(null, a.p, Coat(false, a.s.bh), a.s, Coat(a.p.red, a.p.bh),
                             a.far, Coat(false, a.far.bh + 1))
    {
      assert old(Linked(a.node) && Linked(a.p) && Linked(a.s) && Linked(a.far));
      ChildrenOf(a.p);
      ChildrenOf(a.s);
    }

    twostate lemma FarReds(a: Far)
      requires old(FarSite(a.node, a.x, a.p, a.s, a.far, a.isLeft))
      requires Shape() && Rotated(a.s, a.p, !a.isLeft)
      requires forall n {:trigger n.bh} {:trigger n.red} :: n in nodes ==> n.red == old(n.red) && n.bh == old(n.bh)
      ensures PendingReds(a.p, Coat(false, a.s.bh), a.s, Coat(a.p.red, a.p.bh), a.far, Coat(false, a.far.bh + 1))
    {
      assert old(Linked(a.node) && Linked(a.p) && Linked(a.s) && Linked(a.far));
      ChildrenOf(a.p);
      ChildrenOf(a.s);
    }

    twostate lemma FarLeaves(a: Far)
      requires old(FarSite(a.node, a.x, a.p, a.s, a.far, a.isLeft))
      requires Shape() && Rotated(a.s, a.p, !a.isLeft)
      requires forall n {:trigger n.bh} {:trigger n.red} :: n in nodes ==> n.red == old(n.red) && n.bh == old(n.bh)
      ensures PendingLeaves(a.x, a.p, Coat(false, a.s.bh), a.s, Coat(a.p.red, a.p.bh), a.far, Coat(false, a.far.bh + 1))
    {
      assert old(Linked(a.node) && Linked(a.p) && Linked(a.s) && Linked(a.far));
    }

    method RotateFar(node: Node, ghost x: Node, p: Node, s: Node, far: Node, isLeft: bool)
      requires RemoveFix(node, x) && node.parent == p && isLeft == (p.left == node) && s == p.Child(isLeft) && !s.red
      requires far == s.Child(isLeft) && far.red
      modifies this`root, nodes`parent, nodes`left, nodes`right, nodes`lo, nodes`hi
      ensures p in nodes && s in nodes && far in nodes && s.Child(isLeft) == far
      ensures Pending(x, null, p, Coat(false, s.bh), s, Coat(p.red, p.bh), far, Coat(false, far.bh + 1))
    {
      SiblingOf(node, x, p, isLeft);
      assert Linked(far);
      Rotate(s, !isLeft);
      ghost var a := Far(node, x, p, s, far, isLeft);
      FarHeights(a);
      FarReds(a);
      FarLeaves(a);
      assert Linked(s);
    }

    /** The far nephew is red: rotating the sibling above the parent ends the repair. */
    method FarNephew(node: Node, ghost x: Node, p: Node, s: Node, isLeft: bool)
      requires RemoveFix(node, x) && node.parent == p && isLeft == (p.left == node) && s == p.Child(isLeft) && !s.red
      requires IsRed(s.Child(isLeft))
      modifies this`root, nodes`parent, nodes`left, nodes`right, nodes`lo, nodes`hi, nodes`red, nodes`bh
      ensures Coloured(x, null)
    {
      var parentColour := p.red;
      RotateFar(node, x, p, s, s.Child(isLeft), isLeft);
      Repaint(x, null, p, false, s.bh, s, parentColour, p.bh, s.Child(isLeft), s.Child(isLeft).bh + 1);
    }

    /** One round of the loop of `fix_remove` with a black sibling. */
    method BlackSibling(node: Node, ghost x: Node, parent: Node, isLeft: bool) returns (up: bool)
      requires RemoveFix(node, x) && node.parent == parent && isLeft == (parent.left == node)
      requires !IsRed(parent.Child(isLeft))
      modifies this`root, nodes`parent, nodes`left, nodes`right, nodes`lo, nodes`hi, nodes`red, nodes`bh
      ensures up ==> RemoveFix(parent, x) && parent.hi - parent.lo > old(node.hi - node.lo)
      ensures !up ==> Coloured(x, null)
    {
      SiblingOf(node, x, parent, isLeft);
      var sibling := parent.Child(isLeft);
      if !IsRed(sibling.left) && !IsRed(sibling.right) {
        up := BlackNephews(node, x, parent, sibling, isLeft);
        return;
      }
      var child := sibling.Child(!isLeft);
      if IsRed(child) && !IsRed(sibling.Child(isLeft)) {
        NearNephew(node, x, parent, sibling, child, isLeft);
        sibling := child;
      }
      FarNephew(node, x, parent, sibling, isLeft);
      up := false;
    }

    method FixRemove(first: Node)
      requires RemoveFix(first, first)
      modifies this`root, nodes`parent, nodes`left, nodes`right, nodes`lo, nodes`hi, nodes`red, nodes`bh
      ensures Coloured(first, null)
    {
      var node: Node := first;
      while true
        invariant RemoveFix(node, first)
        decreases |order| - (node.hi - node.lo)
      {
        assert Linked(node);
        var parent := node.parent;
        if parent == null {
          return;
        }
        var nodeIsLeft := parent.left == node;
        SiblingOf(node, first, parent, nodeIsLeft);
        if parent.Child(nodeIsLeft).red {
          RedSibling(node, first, parent, parent.Child(nodeIsLeft), nodeIsLeft);
          SiblingOf(node, first, parent, nodeIsLeft);
        }
        var up := BlackSibling(node, first, parent, nodeIsLeft);
        if !up {
          return;
        }
        node := parent;
      }
    }

    method UnthreadLinks(node: Node)
      requires node.predecessor != node && node.successor != node
      modifies (if node.predecessor == null then {} else {node.predecessor})`successor
      modifies (if node.successor == null then {} else {node.successor})`predecessor
      ensures node.predecessor != null ==> node.predecessor.successor == node.successor
      ensures node.successor != null ==> node.successor.predecessor == node.predecessor
    {
      var predecessor := node.predecessor;
      var successor := node.successor;
      if predecessor != null {
        predecessor.successor := successor;
      }
      if successor != null {
        successor.predecessor := predecessor;
      }
    }

    /** Takes `node`, which stands at index `k` of `s`, out of the thread. */
    method Unthread(node: Node, ghost s: seq<Node>, ghost k: nat, ghost members: set<Node>)
      requires Threaded(s, members) && k < |s| && s[k] == node
      requires forall i :: 0 <= i < |s| ==> s[i] in members && s[i].pos == i
      modifies members`predecessor, members`successor
      ensures Threaded(s[..k] + s[k + 1..], members - {node})
      ensures node.predecessor == old(node.predecessor) && node.successor == old(node.successor)
    {
      ghost var t := s[..k] + s[k + 1..];
      assert s[k].predecessor == if k == 0 then null else s[k - 1];
      assert s[k].successor == if k + 1 == |s| then null else s[k + 1];
      UnthreadLinks(node);
      forall i | 0 <= i < |t|
        ensures t[i].predecessor == if i == 0 then null else t[i - 1]
        ensures t[i].successor == if i + 1 == |t| then null else t[i + 1]
      {
        var j := if i < k then i else i + 1;
        assert t[i] == s[j] && s[j].pos == j;
        assert old(s[j].predecessor == if j == 0 then null else s[j - 1]);
        assert old(s[j].successor == if j + 1 == |s| then null else s[j + 1]);
      }
    }

    /** Everything will be coloured well once `x`, which has no child but `child`, gives `child` its place. */
    ghost predicate Unlinkable(x: Node, child: Node?)
      reads this, nodes`parent, nodes`left, nodes`right, nodes`pos, nodes`lo, nodes`hi, nodes`red, nodes`bh
    {
      && x in nodes
      && ((x.left == null && x.right == child) || (x.right == null && x.left == child))
      && (child == null ==> x.bh == 0)
      && (child != null ==> child in nodes && !child.red && child.bh == x.bh)
      && (root != null && root != x ==> root in nodes && !root.red)
      && (forall n {:trigger n.parent} :: n in nodes && n.parent != null && n.parent in nodes && n.parent != x ==>
            n.parent.bh == n.bh + (if n.parent.red then 0 else 1))
      && (forall n {:trigger n.parent} ::
            n in nodes && n.parent != null && n.parent in nodes && n.parent != x && n != x ==>
            (n.red ==> !n.parent.red))
      && (forall n {:trigger n.bh} :: n in nodes ==> n.bh >= 0)
      && (forall n {:trigger n.left} {:trigger n.right} ::
            n in nodes && n != x && (n.left == null || n.right == null) ==>
            n.bh == (if n.red then 0 else 1))
      && Shape()
    }

    /** Renumbers the members after `x`, at index `k`, is gone. */
    ghost method CloseGap(x: Node, k: int)
      requires 0 <= k < |order| && x in nodes && order[k] == x
      requires forall i :: 0 <= i < |order| ==> order[i] in nodes && order[i].pos == i
      modifies this`order, this`nodes, nodes`pos, nodes`lo, nodes`hi
      ensures order == old(order)[..k] + old(order)[k + 1..]
      ensures nodes == old(nodes) - {x}
      ensures forall i :: 0 <= i < |order| ==> order[i] in nodes && order[i].pos == i
      ensures forall n :: n in old(nodes) ==>
        && n.pos == old(n.pos) - (if old(n.pos) > k then 1 else 0)
        && n.lo == old(n.lo) - (if old(n.lo) > k then 1 else 0)
        && n.hi == old(n.hi) - (if old(n.hi) > k then 1 else 0)
    {
      forall n | n in nodes { n.pos := n.pos - (if n.pos > k then 1 else 0); }
      forall n | n in nodes { n.lo := n.lo - (if n.lo > k then 1 else 0); }
      forall n | n in nodes { n.hi := n.hi - (if n.hi > k then 1 else 0); }
      order := order[..k] + order[k + 1..];
      nodes := nodes - {x};
    }

    method ClearLinks(node: Node)
      modifies node`parent, node`left, node`right, node`predecessor, node`successor
      ensures node.parent == null && node.left == null && node.right == null
      ensures node.predecessor == null && node.successor == null
    {
      node.left := null;
      node.right := null;
      node.parent := null;
      node.predecessor := null;
      node.successor := null;
    }

    /** What putting the only child of `x` in its place writes, and that it writes nothing else. */
    twostate predicate Detached(x: Node)
      reads this, nodes, x
    {
      var k := old(x.pos);
      var parent := old(x.parent);
      var child := old(if x.left == null then x.right else x.left);
      && nodes == old(nodes) - {x}
      && 0 <= k < |old(order)| && order == old(order)[..k] + old(order)[k + 1..]
      && (forall i :: 0 <= i < |order| ==> order[i] in nodes && order[i].pos == i)
      && root == (if parent == null then child else old(root))
      && (child != null ==> child in nodes && child.parent == parent)
      && (parent != null ==>
            && parent in nodes
            && parent.left == (if old(parent.left) == x then child else old(parent.left))
            && parent.right == (if old(parent.right) == x then child else old(parent.right)))
      && (forall n :: n in nodes && n != child ==> n.parent == old(n.parent))
      && (forall n :: n in nodes && n != parent ==> n.left == old(n.left) && n.right == old(n.right))
      && (forall n :: n in nodes ==>
            && n.pos == old(n.pos) - (if old(n.pos) > k then 1 else 0)
            && n.lo == old(n.lo) - (if old(n.lo) > k then 1 else 0)
            && n.hi == old(n.hi) - (if old(n.hi) > k then 1 else 0))
    }

    /** `x` has no child but `child`, and `parent` is its parent. */
    ghost predicate DetachSite(x: Node, child: Node?, parent: Node?)
      reads this, nodes`parent, nodes`left, nodes`right, nodes`pos, nodes`lo, nodes`hi
    {
      && x in nodes && 0 <= x.pos < |order| && order[x.pos] == x && x.parent == parent && parent != x && child != x
      && ((x.left == null && x.right == child) || (x.right == null && x.left == child))
      && (child != null ==> child in nodes && child != parent)
      && (parent != null ==>
            parent in nodes && (parent.left == x || parent.right == x) && parent.left != parent.right)
      && (parent == null ==> root == x && x.lo == 0 && x.hi == |order|)
    }

    lemma DetachSiteOf(x: Node, child: Node?)
      requires Shape() && x in nodes
      requires (x.left == null && x.right == child) || (x.right == null && x.left == child)
      ensures DetachSite(x, child, x.parent) && OnlyRange(x)
    {
      assert Linked(x);
      assert child != null ==> Linked(child);
      assert x.parent != null ==> Linked(x.parent);
      forall m | m in nodes && m.lo == x.pos && m.hi == x.pos + 1
        ensures m == x
      {
        assert Linked(m);
      }
    }

    method Detach(x: Node, child: Node?, parent: Node?)
      requires DetachSite(x, child, parent)
      requires forall i :: 0 <= i < |order| ==> order[i] in nodes && order[i].pos == i
      modifies this, nodes`parent, nodes`left, nodes`right, nodes`pos, nodes`lo, nodes`hi, x`predecessor, x`successor
      ensures Detached(x)
      ensures x.parent == null && x.left == null && x.right == null && x.predecessor == null && x.successor == null
    {
      ReplaceChild(parent, x, child);
      if child != null {
        child.parent := parent;
      }
      ClearLinks(x);
      CloseGap(x, x.pos);
    }

    /** `x` is the only node whose range can be the single index of `x`. */
    ghost predicate OnlyRange(x: Node)
      reads this, nodes`lo, nodes`hi, x`pos
    {
      forall m :: m in nodes && m.lo == x.pos && m.hi == x.pos + 1 ==> m == x
    }

    /** Nodes that are neither the parent nor the child of `x` keep their neighbours. */
    twostate lemma DetachFar(a: Detachment)
      requires old(Shape()) && a.x in old(nodes) && Detached(a.x)
      requires old(a.x.left == null || a.x.right == null) && old(OnlyRange(a.x))
      requires a.n in nodes && a.n != old(a.x.parent)
      requires a.n != old(if a.x.left == null then a.x.right else a.x.left)
      ensures Linked(a.n)
    {
      var x, n := a.x, a.n;
      assert old(Linked(x)) && old(Linked(n));
    }

    twostate lemma DetachChild(a: Detachment)
      requires old(Shape()) && a.x in old(nodes) && Detached(a.x)
      requires old(a.x.left == null || a.x.right == null) && old(OnlyRange(a.x))
      requires a.n in nodes && a.n == old(if a.x.left == null then a.x.right else a.x.left)
      ensures Linked(a.n)
    {
      var x, n := a.x, a.n;
      assert old(Linked(x)) && old(Linked(n));
      assert old(x.parent != null ==> Linked(x.parent));
    }

    twostate lemma DetachParent(a: Detachment)
      requires old(Shape()) && a.x in old(nodes) && Detached(a.x)
      requires old(a.x.left == null || a.x.right == null) && old(OnlyRange(a.x))
      requires a.n in nodes && a.n == old(a.x.parent)
      ensures Linked(a.n)
    {
      var x, n := a.x, a.n;
      assert old(Linked(x)) && old(Linked(n));
    }

    twostate lemma DetachRoot(x: Node)
      requires old(Shape()) && x in old(nodes) && Detached(x) && old(x.left == null || x.right == null)
      ensures root == null <==> order == []
      ensures root != null ==> root in nodes && root.lo == 0 && root.hi == |order|
    {
      assert old(Linked(x));
      assert old(x.parent != null ==> Linked(x.parent));
      assert old(root != null && Linked(root));
    }

    method Splice(x: Node, child: Node?)
      requires Shape() && x in nodes
      requires (x.left == null && x.right == child) || (x.right == null && x.left == child)
      modifies this, nodes`parent, nodes`left, nodes`right, nodes`pos, nodes`lo, nodes`hi, x`predecessor, x`successor
      ensures Shape() && Detached(x)
      ensures x.parent == null && x.left == null && x.right == null && x.predecessor == null && x.successor == null
    {
      var parent := x.parent;
      DetachSiteOf(x, child);
      Detach(x, child, parent);
      DetachRoot(x);
      forall n | n in nodes
        ensures Linked(n)
      {
        if n == parent {
          DetachParent(Detachment(x, n));
        } else if n == child {
          DetachChild(Detachment(x, n));
        } else {
          DetachFar(Detachment(x, n));
        }
      }
    }

    method Unlink(x: Node, child: Node?)
      requires Unlinkable(x, child)
      modifies this, nodes`parent, nodes`left, nodes`right, nodes`pos, nodes`lo, nodes`hi, x`predecessor, x`successor
      ensures Coloured(null, null)
      ensures nodes == old(nodes) - {x}
      ensures var k := old(x.pos);
        0 <= k < |old(order)| && old(order)[k] == x && order == old(order)[..k] + old(order)[k + 1..]
      ensures x.parent == null && x.left == null && x.right == null && x.predecessor == null && x.successor == null
    {
      assert Linked(x);
      assert x.parent != null ==> x.parent.bh == x.bh + (if x.parent.red then 0 else 1);
      Splice(x, child);
    }

    /** A node with at most one child has either none or a red one, and then it is black itself. */
    lemma HalfLeaf(x: Node, child: Node?)
      requires Coloured(null, null) && x in nodes
      requires (x.left == null && x.right == child) || (x.right == null && x.left == child)
      ensures x.bh == if x.red then 0 else 1
      ensures child != null ==> child in nodes && child.parent == x && child.red && child.bh == 0 && !x.red
    {
      assert Linked(x);
      if child != null {
        assert Linked(child);
        assert child.left != null ==> child.left.parent == child && child.left in nodes;
      }
    }

    method BlackenChild(x: Node, child: Node)
      requires Coloured(null, null) && x in nodes && !x.red
      requires (x.left == null && x.right == child) || (x.right == null && x.left == child)
      modifies nodes`red, nodes`bh
      ensures Unlinkable(x, child)
    {
      HalfLeaf(x, child);
      ChildrenOf(x);
      assert Linked(x) && Linked(child);
      child.red, child.bh := false, child.bh + 1;
    }

    ghost method Lighten(x: Node)
      requires Coloured(null, null) && x in nodes && !x.red && x.left == null && x.right == null
      modifies x`bh
      ensures RemoveFix(x, x)
    {
      assert Linked(x);
      ChildrenOf(x);
      x.bh := 0;
    }

    lemma LeafUnlinkable(x: Node)
      requires Coloured(x, null) || (Coloured(null, null) && x in nodes && x.red && x.left == null && x.right == null)
      ensures Unlinkable(x, null)
    {
      assert Linked(x);
    }

    /** The colour repairs of `remove_half_leaf`, made while `node` is still in the tree. */
    method PrepareUnlink(node: Node, child: Node?)
      requires Coloured(null, null) && node in nodes
      requires (node.left == null && node.right == child) || (node.right == null && node.left == child)
      modifies this`root, nodes`parent, nodes`left, nodes`right, nodes`lo, nodes`hi, nodes`red, nodes`bh
      ensures Unlinkable(node, child)
    {
      HalfLeaf(node, child);
      if !node.red {
        if IsRed(child) {
          BlackenChild(node, child);
        } else {
          Lighten(node);
          FixRemove(node);
          LeafUnlinkable(node);
        }
      } else {
        LeafUnlinkable(node);
      }
    }

    method PrepareRemove(node: Node, child: Node?) returns (ghost rest: seq<Node>)
      requires Valid() && node in nodes
      requires (node.left == null && node.right == child) || (node.right == null && node.left == child)
      modifies this`root, nodes
      ensures Unlinkable(node, child) && node.pos == old(node.pos) && 0 <= node.pos < |order|
      ensures Threaded(rest, nodes - {node}) && rest == order[..node.pos] + order[node.pos + 1..]
    {
      assert Linked(node);
      rest := order[..node.pos] + order[node.pos + 1..];
      Unthread(node, order, node.pos, nodes);
      PrepareUnlink(node, child);
    }

    method RemoveHalfLeaf(node: Node, child: Node?)
      requires Valid() && node in nodes
      requires (node.left == null && node.right == child) || (node.right == null && node.left == child)
      modifies this, nodes
      ensures Valid() && nodes == old(nodes) - {node}
      ensures var k := old(node.pos);
        0 <= k < |old(order)| && old(order)[k] == node && order == old(order)[..k] + old(order)[k + 1..]
      ensures node.parent == null && node.left == null && node.right == null
      ensures node.predecessor == null && node.successor == null
    {
      ghost var rest := PrepareRemove(node, child);
      Unlink(node, child);
    }

    /** What giving `replacement` the place of `node` writes, and that it writes nothing else. */
    twostate predicate Replaced(node: Node, replacement: Node)
      reads this, nodes, node, replacement
    {
      var parent, left, right := old(node.parent), old(node.left), old(node.right);
      && nodes == old(nodes) - {node} + {replacement}
      && 0 <= old(node.pos) < |old(order)| && order == old(order)[old(node.pos) := replacement]
      && replacement.parent == parent && replacement.left == left && replacement.right == right
      && replacement.red == old(node.red) && replacement.pos == old(node.pos)
      && replacement.lo == old(node.lo) && replacement.hi == old(node.hi) && replacement.bh == old(node.bh)
      && root == (if parent == null then replacement else old(root))
      && (forall n :: n in nodes && n != replacement ==>
            && n.parent == (if old(n.parent) == node then replacement else old(n.parent))
            && n.left == (if old(n.left) == node then replacement else old(n.left))
            && n.right == (if old(n.right) == node then replacement else old(n.right))
            && n.pos == old(n.pos) && n.lo == old(n.lo) && n.hi == old(n.hi)
            && n.red == old(n.red) && n.bh == old(n.bh))
    }

    /** The parent and children of `node` in a well-linked tree. */
    ghost predicate ReplaceSite(node: Node, parent: Node?, left: Node?, right: Node?)
      reads this, nodes
    {
      && node in nodes && node.parent == parent && node.left == left && node.right == right
      && parent != node && left != node && right != node
      && (parent != null ==> parent in nodes && parent != left && parent != right
                             && (parent.left == node || parent.right == node) && parent.left != parent.right)
      && (left != null ==> left in nodes && left != right)
      && (right != null ==> right in nodes)
      && (forall n :: n in nodes ==> (n.parent == node ==> n == left || n == right))
      && (forall n :: n in nodes && n != parent ==> n.left != node && n.right != node)
      && (left != null ==> left.parent == node) && (right != null ==> right.parent == node)
      && 0 <= node.pos < |order|
    }

    lemma ReplaceSiteOf(node: Node)
      requires Shape() && node in nodes
      ensures ReplaceSite(node, node.parent, node.left, node.right)
    {
      assert Linked(node);
      assert node.parent != null ==> Linked(node.parent);
      assert node.left != null ==> Linked(node.left);
      assert node.right != null ==> Linked(node.right);
      forall n | n in nodes
        ensures n.parent == node ==> n == node.left || n == node.right
        ensures n != node.parent ==> n.left != node && n.right != node
      {
        assert Linked(n);
      }
    }

    method CopyPlace(node: Node, replacement: Node)
      requires node != replacement
      modifies replacement`parent, replacement`left, replacement`right, replacement`red
      modifies replacement`pos, replacement`lo, replacement`hi, replacement`bh
      ensures replacement.parent == node.parent && replacement.left == node.left && replacement.right == node.right
      ensures replacement.red == node.red && replacement.bh == node.bh
      ensures replacement.pos == node.pos && replacement.lo == node.lo && replacement.hi == node.hi
    {
      replacement.parent := node.parent;
      replacement.red := node.red;
      replacement.left := node.left;
      replacement.right := node.right;
      replacement.pos, replacement.lo, replacement.hi, replacement.bh := node.pos, node.lo, node.hi, node.bh;
    }

    method Adopt(left: Node?, right: Node?, parent: Node)
      modifies (if left == null then {} else {left})`parent, (if right == null then {} else {right})`parent
      ensures (left != null ==> left.parent == parent) && (right != null ==> right.parent == parent)
    {
      if left != null {
        left.parent := parent;
      }
      if right != null {
        right.parent := parent;
      }
    }

    method ReplaceLinks(node: Node, replacement: Node, parent: Node?, left: Node?, right: Node?)
      requires ReplaceSite(node, parent, left, right) && replacement !in nodes
      modifies this, nodes`parent, nodes`left, nodes`right, replacement`parent, replacement`left, replacement`right
      modifies replacement`red, replacement`pos, replacement`lo, replacement`hi, replacement`bh
      ensures Replaced(node, replacement)
    {
      CopyPlace(node, replacement);
      ReplaceChild(parent, node, replacement);
      Adopt(left, right, replacement);
      order := order[node.pos := replacement];
      nodes := nodes - {node} + {replacement};
    }

    twostate lemma ReplaceKeepsLinks(a: Replacement)
      requires old(Shape()) && a.node in old(nodes) && a.replacement !in old(nodes) && Replaced(a.node, a.replacement)
      requires a.n in nodes
      ensures Linked(a.n)
    {
      var node, replacement, n := a.node, a.replacement, a.n;
      assert old(Linked(node));
      if n != replacement {
        assert old(Linked(n));
      }
    }

    method ReplaceShape(node: Node, replacement: Node)
      requires Shape() && node in nodes && replacement !in nodes
      modifies this, nodes`parent, nodes`left, nodes`right, replacement`parent, replacement`left, replacement`right
      modifies replacement`red, replacement`pos, replacement`lo, replacement`hi, replacement`bh
      ensures Shape() && Replaced(node, replacement)
    {
      ReplaceSiteOf(node);
      assert Linked(node);
      ReplaceLinks(node, replacement, node.parent, node.left, node.right);
      forall n | n in nodes
        ensures Linked(n)
      {
        ReplaceKeepsLinks(Replacement(node, replacement, n));
      }
    }

    method ReplaceColoured(node: Node, replacement: Node)
      requires Coloured(null, null) && node in nodes && replacement !in nodes
      modifies this, nodes`parent, nodes`left, nodes`right, replacement`parent, replacement`left, replacement`right
      modifies replacement`red, replacement`pos, replacement`lo, replacement`hi, replacement`bh
      ensures Coloured(null, null)
      ensures nodes == old(nodes) - {node} + {replacement}
      ensures 0 <= old(node.pos) < |old(order)| && order == old(order)[old(node.pos) := replacement]
    {
      forall n | n in nodes
        ensures n.parent != replacement
      {
        assert Linked(n);
      }
      assert Linked(node);
      ReplaceShape(node, replacement);
    }

    method RethreadLinks(node: Node, replacement: Node)
      requires node != replacement
      requires node.predecessor !in {node, replacement} && node.successor !in {node, replacement}
      modifies replacement`predecessor, replacement`successor
      modifies (if node.predecessor == null then {} else {node.predecessor})`successor
      modifies (if node.successor == null then {} else {node.successor})`predecessor
      ensures replacement.predecessor == node.predecessor && replacement.successor == node.successor
      ensures node.predecessor != null ==> node.predecessor.successor == replacement
      ensures node.successor != null ==> node.successor.predecessor == replacement
    {
      if node.predecessor != null {
        node.predecessor.successor := replacement;
      }
      replacement.predecessor := node.predecessor;
      replacement.successor := node.successor;
      if node.successor != null {
        node.successor.predecessor := replacement;
      }
    }

    /** Gives `replacement` the place of `node` in the thread `s`. */
    method Rethread(node: Node, replacement: Node, ghost s: seq<Node>, ghost k: nat, ghost members: set<Node>)
      requires Threaded(s, members) && k < |s| && s[k] == node && replacement !in members
      requires forall i :: 0 <= i < |s| ==> s[i] in members && s[i].pos == i
      modifies members`predecessor, members`successor, replacement`predecessor, replacement`successor
      ensures Threaded(s[k := replacement], members - {node} + {replacement})
    {
      ghost var t := s[k := replacement];
      assert s[k].predecessor == if k == 0 then null else s[k - 1];
      assert s[k].successor == if k + 1 == |s| then null else s[k + 1];
      RethreadLinks(node, replacement);
      forall i | 0 <= i < |t|
        ensures t[i].predecessor == if i == 0 then null else t[i - 1]
        ensures t[i].successor == if i + 1 == |t| then null else t[i + 1]
      {
        if i != k {
          assert t[i] == s[i] && s[i].pos == i;
          assert old(s[i].predecessor == if i == 0 then null else s[i - 1]);
          assert old(s[i].successor == if i + 1 == |s| then null else s[i + 1]);
        }
      }
    }

    method ReplaceNode(node: Node, replacement: Node)
      requires Valid() && node in nodes && replacement !in nodes
      modifies this, nodes, replacement
      ensures Valid() && nodes == old(nodes) - {node} + {replacement}
      ensures 0 <= old(node.pos) < |old(order)| && order == old(order)[old(node.pos) := replacement]
      ensures node.parent == null && node.left == null && node.right == null
      ensures node.predecessor == null && node.successor == null
    {
      assert Linked(node);
      Rethread(node, replacement, order, node.pos, nodes);
      ReplaceColoured(node, replacement);
      ClearLinks(node);
    }

    /** A subtree range holds the whole range of every node inside it. */
    lemma {:induction false} RangesNest(outer: Node, n: Node)
      requires Shape() && outer in nodes && n in nodes && outer.lo <= n.pos < outer.hi
      ensures outer.lo <= n.lo && n.hi <= outer.hi
      decreases outer.hi - outer.lo
    {
      assert Linked(outer) && Linked(n);
      if n.pos < outer.pos {
        assert Linked(outer.left);
        RangesNest(outer.left, n);
      } else if n.pos > outer.pos {
        assert Linked(outer.right);
        RangesNest(outer.right, n);
      }
    }

    /** The threaded predecessor of a node with a left child is the last node of its left subtree,
        so it has no right child. */
    lemma PredecessorOf(node: Node)
      requires Valid() && node in nodes && node.left != null
      ensures var p := node.predecessor;
        p != null && p in nodes && p != node && p.right == null && p.pos == node.pos - 1
    {
      assert Linked(node) && Linked(node.left);
      assert order[node.pos].predecessor == order[node.pos - 1];
      var p := order[node.pos - 1];
      assert Linked(p);
      RangesNest(node.left, p);
    }

    /** Taking out the element before `k` and putting it into the place of the next one takes out element `k`. */
    static lemma WithoutBoth(s: seq<Node>, k: int)
      requires 1 <= k < |s|
      ensures (s[..k - 1] + s[k..])[k - 1 := s[k - 1]] == s[..k] + s[k + 1..]
    {
    }

    method Remove(node: Node)
      requires Valid() && node in nodes
      modifies this, nodes
      ensures Valid() && nodes == old(nodes) - {node}
      ensures var k := old(node.pos);
        0 <= k < |old(order)| && old(order)[k] == node && order == old(order)[..k] + old(order)[k + 1..]
      ensures node.parent == null && node.left == null && node.right == null
      ensures node.predecessor == null && node.successor == null
    {
      var left := node.left;
      var right := node.right;
      assert Linked(node);
      if left == null {
        RemoveHalfLeaf(node, right);
      } else if right == null {
        RemoveHalfLeaf(node, left);
      } else {
        PredecessorOf(node);
        var predecessor := node.predecessor;
        assert order[node.pos - 1] == predecessor by {
          assert Linked(predecessor);
        }
        WithoutBoth(order, node.pos);
        RemoveHalfLeaf(predecessor, predecessor.left);
        assert Linked(node);
        ReplaceNode(node, predecessor);
      }
    }

    // ---------------------------------------------------------------- search

    /** The tree is valid and its members stand in increasing order of their keys. */
    ghost predicate Search()
      reads this, nodes
    {
      Valid() && Increasing(order)
    }

    static ghost predicate Increasing(s: seq<Node>)
    {
      forall i, j :: 0 <= i < j < |s| ==> s[i].key < s[j].key
    }

    /** No member before index `l` has a key as large as `key`, and none from index `h` on has one as small. */
    ghost predicate Around(key: int, l: int, h: int)
      reads this
    {
      && 0 <= l <= h <= |order|
      && (forall i :: 0 <= i < l ==> order[i].key < key)
      && (forall i :: h <= i < |order| ==> order[i].key > key)
    }

    method GetFirst() returns (r: Node?)
      requires Valid()
      ensures r == if order == [] then null else order[0]
    {
      var node := root;
      if node == null {
        return null;
      }
      assert Linked(node);
      while node.left != null
        invariant node != null && node in nodes && Linked(node) && node.lo == 0
        decreases node.hi
      {
        assert Linked(node.left);
        node := node.left;
      }
      return node;
    }

    method GetLast() returns (r: Node?)
      requires Valid()
      ensures r == if order == [] then null else order[|order| - 1]
    {
      var node := root;
      if node == null {
        return null;
      }
      assert Linked(node);
      while node.right != null
        invariant node != null && node in nodes && Linked(node) && node.hi == |order|
        decreases node.hi - node.lo
      {
        assert Linked(node.right);
        node := node.right;
      }
      return node;
    }

    method Find(key: int) returns (r: Node?)
      requires Search()
      ensures r != null ==> r in nodes && r.key == key
      ensures r == null ==> forall n :: n in nodes ==> n.key != key
    {
      OrderDistinct();
      var n := root;
      ghost var l := 0;
      ghost var h := |order|;
      while n != null
        invariant n != null ==> n in nodes && n.lo == l && n.hi == h
        invariant n == null ==> l == h
        invariant Around(key, l, h)
        decreases h - l
      {
        assert Linked(n);
        if key < n.key {
          h := n.pos;
          n := n.left;
        } else if key > n.key {
          l := n.pos + 1;
          n := n.right;
        } else {
          return n;
        }
        if n != null {
          assert Linked(n);
        }
      }
      return null;
    }

    /** Walks down to the empty place where `key` belongs. */
    method FindPlace(key: int) returns (place: Node, isRight: bool)
      requires Search() && root != null && forall n :: n in nodes ==> n.key != key
      ensures place in nodes && place.Child(isRight) == null && isRight == (key > place.key)
      ensures var k := place.pos + (if isRight then 1 else 0); Around(key, k, k)
    {
      var n := root;
      place := root;
      ghost var l := 0;
      ghost var h := |order|;
      while n != null
        invariant n != null ==> n in nodes && n.lo == l && n.hi == h
        invariant Around(key, l, h)
        invariant place in nodes && place.key != key
        invariant n == null ==>
          place.Child(key > place.key) == null && l == h == place.pos + (if key > place.key then 1 else 0)
        decreases h - l
      {
        place := n;
        assert Linked(n);
        if key < n.key {
          h := n.pos;
          n := n.left;
        } else {
          l := n.pos + 1;
          n := n.right;
        }
        if n != null {
          assert Linked(n);
        }
      }
      isRight := key > place.key;
    }

    static lemma IncreasingAfterInsert(s: seq<Node>, k: nat, node: Node)
      requires Increasing(s) && k <= |s|
      requires (forall i :: 0 <= i < k ==> s[i].key < node.key) && (forall i :: k <= i < |s| ==> s[i].key > node.key)
      ensures Increasing(s[..k] + [node] + s[k..])
    {
      var t := s[..k] + [node] + s[k..];
      forall i, j | 0 <= i < j < |t|
        ensures t[i].key < t[j].key
      {
        assert t[i] == if i < k then s[i] else if i == k then node else s[i - 1];
        assert t[j] == if j < k then s[j] else if j == k then node else s[j - 1];
      }
    }

    method Insert(node: Node)
      requires Search() && node !in nodes && forall n :: n in nodes ==> n.key != node.key
      modifies this, nodes, node
      ensures Search() && nodes == old(nodes) + {node}
    {
      if root == null {
        OrderDistinct();
        InsertRoot(node);
        return;
      }
      var place, isRight := FindPlace(node.key);
      assert Linked(place);
      IncreasingAfterInsert(order, place.pos + (if isRight then 1 else 0), node);
      InsertChild(place, node, isRight);
    }

    method Delete(node: Node)
      requires Search() && node in nodes
      modifies this, nodes
      ensures Search() && nodes == old(nodes) - {node}
    {
      Remove(node);
    }

    // ---------------------------------------------------------------- the tree as a value

    /** The subtree below `n`, read off the child pointers and the colours. */
    ghost function View(n: Node?): (t: Colored)
      requires Shape() && (n != null ==> n in nodes)
      reads this, nodes
      decreases if n == null then 0 else n.hi - n.lo
    {
      if n == null then Leaf
      else
        assert Linked(n);
        assert n.left != null ==> Linked(n.left);
        assert n.right != null ==> Linked(n.right);
        Branch(View(n.left), n, n.red, View(n.right))
    }

    static lemma SplitSlice(s: seq<Node>, lo: int, pos: int, hi: int)
      requires 0 <= lo <= pos < hi <= |s|
      ensures s[lo..hi] == s[lo..pos] + [s[pos]] + s[pos + 1..hi]
    {
    }

    /** The in-order sequence of a subtree is its range of `order`. */
    lemma {:induction false} ViewInOrder(n: Node)
      requires Shape() && n in nodes
      ensures 0 <= n.lo < n.hi <= |order| && InOrder(View(n)) == order[n.lo..n.hi]
      decreases n.hi - n.lo
    {
      assert Linked(n);
      if n.left != null {
        assert Linked(n.left);
        ViewInOrder(n.left);
      }
      if n.right != null {
        assert Linked(n.right);
        ViewInOrder(n.right);
      }
      SplitSlice(order, n.lo, n.pos, n.hi);
    }

    /** The local colour invariants make every subtree a red-black tree. */
    lemma {:induction false} ViewIsRedBlack(n: Node)
      requires Coloured(null, null) && n in nodes
      ensures n.bh >= 0 && BlackDepth(View(n), n.bh) && NoRedRed(View(n))
      decreases n.hi - n.lo
    {
      assert Linked(n);
      if n.left != null {
        assert Linked(n.left);
        ViewIsRedBlack(n.left);
      }
      if n.right != null {
        assert Linked(n.right);
        ViewIsRedBlack(n.right);
      }
    }

    /** The tree read off the pointers is a red-black tree, its in-order sequence is the threaded
        list of the members, and its height is at most twice the logarithm of their number plus one. */
    lemma ValidTheorem()
      requires Valid()
      ensures var t := View(root);
        && InOrder(t) == order && Threaded(InOrder(t), nodes)
        && NoRedRed(t) && !IsRed(root) && (exists h: nat :: BlackDepth(t, h))
        && Pow2(Height(t)) <= (|order| + 1) * (|order| + 1)
    {
      var t := View(root);
      if root == null {
        assert BlackDepth(t, 0);
      } else {
        assert Linked(root);
        ViewInOrder(root);
        ViewIsRedBlack(root);
        assert BlackDepth(t, root.bh);
        HeightBound(t, root.bh);
        InOrderSize(t);
      }
    }

    /** Runs any sequence of insertions of fresh keys and removals of members. */
    method Replay(ops: seq<Op>)
      requires Search() && Legal(ops, nodes)
      modifies this, nodes, set i | 0 <= i < |ops| :: ops[i].node
      ensures Search() && nodes == Outcome(ops, old(nodes))
    {
      ghost var all := nodes + set i | 0 <= i < |ops| :: ops[i].node;
      for i := 0 to |ops|
        invariant Search() && nodes <= all
        invariant Legal(ops[i..], nodes) && Outcome(ops[i..], nodes) == Outcome(ops, old(nodes))
      {
        assert ops[i..][0] == ops[i] && ops[i..][1..] == ops[i + 1..];
        assert ops[i].node in all;
        match ops[i]
        case Insert(node) => Insert(node);
        case Remove(node) => Delete(node);
      }
    }
  }

  datatype Op = Insert(node: Node) | Remove(node: Node)

  /** Every insertion brings a new node with a new key and every removal names a member. */
  ghost predicate Legal(ops: seq<Op>, members: set<Node>)
  {
    ops == [] ||
    match ops[0]
    case Insert(node) =>
      node !in members && (forall n :: n in members ==> n.key != node.key) && Legal(ops[1..], members + {node})
    case Remove(node) =>
      node in members && Legal(ops[1..], members - {node})
  }

  ghost function Outcome(ops: seq<Op>, members: set<Node>): set<Node>
  {
    if ops == [] then members
    else
      match ops[0]
      case Insert(node) => Outcome(ops[1..], members + {node})
      case Remove(node) => Outcome(ops[1..], members - {node})
  }

  // ------------------------------------------------------------------ red-black trees as values

  datatype Colored = Leaf | Branch(left: Colored, node: Node, red: bool, right: Colored)

  function InOrder(t: Colored): seq<Node>
  {
    match t
    case Leaf => []
    case Branch(l, n, _, r) => InOrder(l) + [n] + InOrder(r)
  }

  function Size(t: Colored): nat
  {
    match t
    case Leaf => 0
    case Branch(l, _, _, r) => Size(l) + 1 + Size(r)
  }

  function Height(t: Colored): nat
  {
    match t
    case Leaf => 0
    case Branch(l, _, _, r) => 1 + if Height(l) > Height(r) then Height(l) else Height(r)
  }

  /** Every path from the root to a leaf passes exactly `h` black nodes. */
  predicate BlackDepth(t: Colored, h: nat)
  {
    match t
    case Leaf => h == 0
    case Branch(l, _, red, r) =>
      if red then BlackDepth(l, h) && BlackDepth(r, h)
      else h > 0 && BlackDepth(l, h - 1) && BlackDepth(r, h - 1)
  }

  predicate NoRedRed(t: Colored)
  {
    match t
    case Leaf => true
    case Branch(l, _, red, r) =>
      && (red ==> !(l.Branch? && l.red) && !(r.Branch? && r.red))
      && NoRedRed(l) && NoRedRed(r)
  }

  lemma {:induction false} InOrderSize(t: Colored)
    ensures |InOrder(t)| == Size(t)
  {
    if t.Branch? {
      InOrderSize(t.left);
      InOrderSize(t.right);
    }
  }

  lemma {:induction false} BlackDepthBounds(t: Colored, h: nat)
    requires BlackDepth(t, h) && NoRedRed(t)
    ensures Height(t) <= 2 * h + (if t.Branch? && t.red then 1 else 0)
    ensures Pow2(h) <= Size(t) + 1
  {
    if t.Branch? {
      var k := if t.red then h else h - 1;
      BlackDepthBounds(t.left, k);
      BlackDepthBounds(t.right, k);
    }
  }

  /** The height of a red-black tree is at most 2 log2(size + 1). */
  lemma HeightBound(t: Colored, h: nat)
    requires BlackDepth(t, h) && NoRedRed(t) && !(t.Branch? && t.red)
    ensures Pow2(Height(t)) <= (Size(t) + 1) * (Size(t) + 1)
  {
    BlackDepthBounds(t, h);
    Pow2Monotone(Height(t), 2 * h);
    Pow2Add(h, h);
    SquareMonotone(Pow2(h), Size(t) + 1);
  }
}
