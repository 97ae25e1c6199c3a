/** The splay tree: top-down splaying on a head that points into nodes without parent links. */
module Splay {
  import opened Order
  import opened SplayShape
  import SplayDepth

  function Keys(s: seq<Node>): (ks: seq<Key>)
    ensures |ks| == |s|
  {
    seq(|s|, i requires 0 <= i < |s| => s[i].key)
  }

  lemma KeysConcat(a: seq<Node>, b: seq<Node>)
    ensures Keys(a + b) == Keys(a) + Keys(b)
  {
  }

  lemma KeysAround(a: seq<Node>, n: Node, b: seq<Node>)
    ensures Keys(a + [n] + b) == Keys(a) + [n.key] + Keys(b)
  {
  }

  // k falls on the root of t or right beside it: everything left of the root is below k, everything right of it above.
  ghost predicate Divides(cmp: Comparator, k: Key, t: Tree) {
    t.Br? && AllBelow(cmp, Keys(Inorder(t.l)), k) && AllAbove(cmp, Keys(Inorder(t.r)), k)
  }

  // Nothing is left between k and the root of the middle tree t.
  ghost predicate Closest(cmp: Comparator, k: Key, t: Tree) {
    t.Br? && (cmp(k, t.n.key) < 0 ==> t.l.Leaf?) && (cmp(k, t.n.key) > 0 ==> t.r.Leaf?)
  }

  // The passed nodes lie on the sides of k where the spines are.
  ghost predicate Passed(cmp: Comparator, k: Key, ls: Spine, rs: Spine) {
    AllBelow(cmp, Keys(LeftOrder(ls)), k) && AllAbove(cmp, Keys(RightOrder(rs)), k)
  }

  lemma PassedRoot(cmp: Comparator, k: Key, ls: Spine, a: Tree, r: Node, c: Tree, rs: Spine)
    requires TotalPreorder(cmp) && Passed(cmp, k, ls, rs)
    requires Ascending(cmp, Keys(LeftOrder(ls) + Inorder(Br(a, r, c)) + RightOrder(rs)))
    ensures cmp(k, r.key) < 0 ==> Passed(cmp, k, ls, More(rs, r, c))
    ensures cmp(k, r.key) > 0 ==> Passed(cmp, k, More(ls, r, a), rs)
  {
    hide Ascending, TotalPreorder, AllBelow, AllAbove, Keys, Inorder;
    var x, y := LeftOrder(ls) + Inorder(a), Inorder(c) + RightOrder(rs);
    OrderAround(ls, a, r, c, rs);
    KeysAround(x, r, y);
    SplitBy(cmp, k, Keys(x), r.key, Keys(y));
    KeysConcat([r], y);
    KeysConcat(x, [r]);
    SingleKey(r);
  }

  // The state in the middle of a splay: order is the order of all nodes but the dummy d.
  ghost predicate Splaying(all: set<Node>, root: Node?, d: Node, left: Node, right: Node, ls: Spine, t: Tree,
        rs: Spine, order: seq<Node>)
    reads all
  {
    && t.Br? && root == t.n && Parted(Snap(all), d, ls, t, rs) && left == Last(ls, d) && right == Last(rs, d)
    && LeftOrder(ls) + Inorder(t) + RightOrder(rs) == order
  }

  // The comparator of a search that always goes one way.
  function Towards(comp: int): Comparator {
    (a, b) => comp
  }

  class Head {
    const cmp: Comparator
    var root: Node?
    ghost var shape: Tree

    ghost predicate Lies(t: Tree)
      reads `root, Nodes(t)
    {
      Distinct(t) && Laid(Snap(Nodes(t)), t) && root == RootOf(t)
    }

    // A search tree.
    ghost predicate Valid()
      reads this, Nodes(shape)
    {
      TotalPreorder(cmp) && Lies(shape) && Ascending(cmp, Keys(Inorder(shape)))
    }

    constructor (cmp: Comparator)
      requires TotalPreorder(cmp)
      ensures this.cmp == cmp && Valid() && shape == Leaf
    {
      this.cmp := cmp;
      root := null;
      shape := Leaf;
    }

    // ---------- the macros, link by link ----------

    method RotateRight(tmp: Node, ghost all: set<Node>)
      requires root != null && root in all && tmp in all
      modifies `root, all
      ensures root == tmp
      ensures var m, r := old(Snap(all)), old(root);
              Snap(all) == m[r := m[r].(left := m[tmp].right)][tmp := m[tmp].(right := r)] || r == tmp
    {
      root.left := tmp.right;
      tmp.right := root;
      root := tmp;
    }

    method RotateLeft(tmp: Node, ghost all: set<Node>)
      requires root != null && root in all && tmp in all
      modifies `root, all
      ensures root == tmp
      ensures var m, r := old(Snap(all)), old(root);
              Snap(all) == m[r := m[r].(right := m[tmp].left)][tmp := m[tmp].(left := r)] || r == tmp
    {
      root.right := tmp.left;
      tmp.left := root;
      root := tmp;
    }

    method LinkLeft(right: Node, ghost all: set<Node>) returns (right': Node)
      requires root != null && root in all && right in all && right != root
      modifies `root, all
      ensures right' == old(root) && root == old(root.left)
      ensures var m := old(Snap(all)); Snap(all) == m[right := m[right].(left := old(root))]
    {
      right.left := root;
      right' := root;
      root := root.left;
    }

    method LinkRight(left: Node, ghost all: set<Node>) returns (left': Node)
      requires root != null && root in all && left in all && left != root
      modifies `root, all
      ensures left' == old(root) && root == old(root.right)
      ensures var m := old(Snap(all)); Snap(all) == m[left := m[left].(right := old(root))]
    {
      left.right := root;
      left' := root;
      root := root.right;
    }

    method Assemble(node: Node, left: Node, right: Node, ghost all: set<Node>)
      requires root != null && {root, node, left, right} <= all && root != left && root != right && root != node
      modifies all
      ensures Assembled(old(Snap(all)), Snap(all), node, left, right, root)
    {
      left.right := root.left;
      right.left := root.right;
      root.left := node.right;
      root.right := node.left;
    }

    // ---------- the macros as steps of a splay ----------

    method TurnRight(tmp: Node, ghost all: set<Node>, ghost d: Node, ghost left: Node, ghost right: Node,
          ghost ls: Spine, ghost a: Tree, ghost b: Tree, ghost r: Node, ghost c: Tree, ghost rs: Spine,
          ghost order: seq<Node>)
      requires Splaying(all, root, d, left, right, ls, Br(Br(a, tmp, b), r, c), rs, order)
      modifies `root, all
      ensures Splaying(all, root, d, left, right, ls, Br(a, tmp, Br(b, r, c)), rs, order)
    {
      assert r != tmp && tmp in all && r in all by {
        assert tmp in Nodes(Br(a, tmp, b));
      }
      RotateRight(tmp, all);
      RotatedRight(old(Snap(all)), Snap(all), d, ls, a, tmp, b, r, c, rs);
      InorderRotated(a, tmp, b, r, c);
    }

    method TurnLeft(tmp: Node, ghost all: set<Node>, ghost d: Node, ghost left: Node, ghost right: Node,
          ghost ls: Spine, ghost a: Tree, ghost r: Node, ghost b: Tree, ghost c: Tree, ghost rs: Spine,
          ghost order: seq<Node>)
      requires Splaying(all, root, d, left, right, ls, Br(a, r, Br(b, tmp, c)), rs, order)
      modifies `root, all
      ensures Splaying(all, root, d, left, right, ls, Br(Br(a, r, b), tmp, c), rs, order)
    {
      assert r != tmp && tmp in all && r in all by {
        assert tmp in Nodes(Br(b, tmp, c));
      }
      RotateLeft(tmp, all);
      RotatedLeft(old(Snap(all)), Snap(all), d, ls, a, r, b, tmp, c, rs);
      InorderRotated(a, r, b, tmp, c);
    }

    method PassRight(right: Node, ghost all: set<Node>, ghost d: Node, ghost left: Node, ghost ls: Spine,
          ghost a: Tree, ghost r: Node, ghost c: Tree, ghost rs: Spine, ghost order: seq<Node>)
          returns (right': Node)
      requires Splaying(all, root, d, left, right, ls, Br(a, r, c), rs, order) && a.Br?
      modifies `root, all
      ensures Splaying(all, root, d, left, right', ls, a, More(rs, r, c), order)
    {
      PassedOn(d, ls, a, r, c, rs);
      right' := LinkLeft(right, all);
      LinkedLeft(old(Snap(all)), Snap(all), d, ls, a, r, c, rs);
      LinkedOrder(ls, a, r, c, rs);
    }

    method PassLeft(left: Node, ghost all: set<Node>, ghost d: Node, ghost right: Node, ghost ls: Spine,
          ghost a: Tree, ghost r: Node, ghost c: Tree, ghost rs: Spine, ghost order: seq<Node>)
          returns (left': Node)
      requires Splaying(all, root, d, left, right, ls, Br(a, r, c), rs, order) && c.Br?
      modifies `root, all
      ensures Splaying(all, root, d, left', right, More(ls, r, a), c, rs, order)
    {
      PassedOn(d, ls, a, r, c, rs);
      left' := LinkRight(left, all);
      LinkedRight(old(Snap(all)), Snap(all), d, ls, a, r, c, rs);
      LinkedOrder(ls, a, r, c, rs);
    }

    method Finish(node: Node, left: Node, right: Node, ghost all: set<Node>, ghost ls: Spine, ghost a: Tree,
          ghost r: Node, ghost c: Tree, ghost rs: Spine, ghost order: seq<Node>)
      requires Splaying(all, root, node, left, right, ls, Br(a, r, c), rs, order)
      modifies `shape, all
      ensures shape == Br(CloseLeft(ls, a), r, CloseRight(rs, c))
      ensures Nodes(shape) == all - {node} && Lies(shape) && Inorder(shape) == order
    {
      hide Parted, Laid, Distinct, Nodes, SpineNodes, Inorder, LeftOrder, RightOrder, CloseLeft, CloseRight, Assembled;
      Ready(all, root, node, left, right, ls, a, r, c, rs, order);
      Assemble(node, left, right, all);
      AssembledTree(old(Snap(all)), Snap(all), node, ls, a, r, c, rs);
      AssembledOrder(ls, a, r, c, rs);
      shape := Br(CloseLeft(ls, a), r, CloseRight(rs, c));
      Restrict(all, shape);
    }

    // ---------- splaying ----------

    // One round for a key below the root.
    method RoundLeft(k: Key, right: Node, ghost all: set<Node>, ghost d: Node, ghost left: Node, ghost ls: Spine,
          ghost t0: Tree, ghost rs0: Spine, ghost order: seq<Node>)
          returns (stop: bool, right': Node, ghost t: Tree, ghost rs: Spine)
      requires Splaying(all, root, d, left, right, ls, t0, rs0, order) && Passed(cmp, k, ls, rs0)
      requires TotalPreorder(cmp) && Ascending(cmp, Keys(order)) && cmp(k, root.key) < 0
      modifies `root, all
      ensures Splaying(all, root, d, left, right', ls, t, rs, order) && Passed(cmp, k, ls, rs)
      ensures SplayDepth.RoundLeft(cmp, k, t0, rs0) == SplayDepth.Round(t, rs, stop)
      ensures if stop then Closest(cmp, k, t) else Size(t) < Size(t0)
    {
      t, rs, right', stop := t0, rs0, right, true;
      var tmp := root.left;
      if tmp == null {
        return;
      }
      PassedRoot(cmp, k, ls, t.l, t.n, t.r, rs);
      if cmp(k, tmp.key) < 0 {
        TurnRight(tmp, all, d, left, right', ls, t.l.l, t.l.r, t.n, t.r, rs, order);
        InorderRotated(t.l.l, tmp, t.l.r, t.n, t.r);
        t := Br(t.l.l, tmp, Br(t.l.r, t.n, t.r));
        if root.left == null {
          return;
        }
        PassedRoot(cmp, k, ls, t.l, t.n, t.r, rs);
      }
      right' := PassRight(right', all, d, left, ls, t.l, t.n, t.r, rs, order);
      t, rs, stop := t.l, More(rs, t.n, t.r), false;
    }

    // One round for a key above the root.
    method RoundRight(k: Key, left: Node, ghost all: set<Node>, ghost d: Node, ghost right: Node, ghost ls0: Spine,
          ghost t0: Tree, ghost rs: Spine, ghost order: seq<Node>)
          returns (stop: bool, left': Node, ghost t: Tree, ghost ls: Spine)
      requires Splaying(all, root, d, left, right, ls0, t0, rs, order) && Passed(cmp, k, ls0, rs)
      requires TotalPreorder(cmp) && Ascending(cmp, Keys(order)) && cmp(k, root.key) > 0
      modifies `root, all
      ensures Splaying(all, root, d, left', right, ls, t, rs, order) && Passed(cmp, k, ls, rs)
      ensures SplayDepth.RoundRight(cmp, k, t0, ls0) == SplayDepth.Round(t, ls, stop)
      ensures if stop then Closest(cmp, k, t) else Size(t) < Size(t0)
    {
      t, ls, left', stop := t0, ls0, left, true;
      var tmp := root.right;
      if tmp == null {
        return;
      }
      PassedRoot(cmp, k, ls, t.l, t.n, t.r, rs);
      if cmp(k, tmp.key) > 0 {
        TurnLeft(tmp, all, d, left', right, ls, t.l, t.n, t.r.l, t.r.r, rs, order);
        InorderRotated(t.l, t.n, t.r.l, tmp, t.r.r);
        t := Br(Br(t.l, t.n, t.r.l), tmp, t.r.r);
        if root.right == null {
          return;
        }
        PassedRoot(cmp, k, ls, t.l, t.n, t.r, rs);
      }
      left' := PassLeft(left', all, d, right, ls, t.l, t.n, t.r, rs, order);
      t, ls, stop := t.r, More(ls, t.n, t.l), false;
    }

    // Brings the node equal to k to the root, or a nearest neighbour of k if there is none.
    method Splay(k: Key)
      requires Valid() && root != null
      modifies this, Nodes(shape)
      ensures Valid() && Nodes(shape) == old(Nodes(shape)) && Inorder(shape) == old(Inorder(shape))
      ensures root != null && Divides(cmp, k, shape)
      ensures shape == SplayDepth.Splayed(cmp, k, Empty, old(shape), Empty)
    {
      ghost var m, order := Snap(Nodes(shape)), Inorder(shape);
      var node := new Node(k);
      var left, right := node, node;
      ghost var all := Nodes(shape) + {node};
      ghost var ls, t, rs := Empty, shape, Empty;
      Begun(m, all, root, node, t);
      var comp := cmp(k, root.key);
      ghost var goal := SplayDepth.Splayed(cmp, k, ls, t, rs);
      while comp != 0
        invariant Splaying(all, root, node, left, right, ls, t, rs, order) && Passed(cmp, k, ls, rs)
        invariant comp == cmp(k, root.key) && goal == SplayDepth.Splayed(cmp, k, ls, t, rs)
        decreases Size(t)
      {
        var stop;
        if comp < 0 {
          stop, right, t, rs := RoundLeft(k, right, all, node, left, ls, t, rs, order);
        } else {
          stop, left, t, ls := RoundRight(k, left, all, node, right, ls, t, rs, order);
        }
        if stop {
          break;
        }
        comp := cmp(k, root.key);
      }
      DividedBy(cmp, k, ls, t, rs);
      Finish(node, left, right, all, ls, t.l, t.n, t.r, rs, order);
    }

    // Brings the first (comp < 0) or the last (comp > 0) node to the root.
    method MinMax(comp: int)
      requires Valid() && root != null && comp != 0
      modifies this, Nodes(shape)
      ensures Valid() && Nodes(shape) == old(Nodes(shape)) && Inorder(shape) == old(Inorder(shape))
      ensures shape.Br? && if comp < 0 then shape.l.Leaf? else shape.r.Leaf?
      ensures shape == SplayDepth.Splayed(Towards(comp), old(root.key), Empty, old(shape), Empty)
    {
      ghost var m, order := Snap(Nodes(shape)), Inorder(shape);
      var node := new Node(root.key);
      var left, right := node, node;
      ghost var all := Nodes(shape) + {node};
      ghost var ls, t, rs := Empty, shape, Empty;
      Begun(m, all, root, node, t);
      ghost var c, k := Towards(comp), root.key;
      ghost var goal := SplayDepth.Splayed(c, k, ls, t, rs);
      while true
        invariant Splaying(all, root, node, left, right, ls, t, rs, order)
        invariant goal == SplayDepth.Splayed(c, k, ls, t, rs)
        invariant if comp < 0 then ls.Empty? else rs.Empty?
        decreases Size(t)
      {
        if comp < 0 {
          var tmp := root.left;
          if tmp == null {
            break;
          }
          TurnRight(tmp, all, node, left, right, ls, t.l.l, t.l.r, t.n, t.r, rs, order);
          InorderRotated(t.l.l, tmp, t.l.r, t.n, t.r);
          t := Br(t.l.l, tmp, Br(t.l.r, t.n, t.r));
          if root.left == null {
            break;
          }
          right := PassRight(right, all, node, left, ls, t.l, t.n, t.r, rs, order);
          t, rs := t.l, More(rs, t.n, t.r);
        } else {
          var tmp := root.right;
          if tmp == null {
            break;
          }
          TurnLeft(tmp, all, node, left, right, ls, t.l, t.n, t.r.l, t.r.r, rs, order);
          InorderRotated(t.l, t.n, t.r.l, tmp, t.r.r);
          t := Br(Br(t.l, t.n, t.r.l), tmp, t.r.r);
          if root.right == null {
            break;
          }
          left := PassLeft(left, all, node, right, ls, t.l, t.n, t.r, rs, order);
          t, ls := t.r, More(ls, t.n, t.l);
        }
      }
      Finish(node, left, right, all, ls, t.l, t.n, t.r, rs, order);
    }

    // ---------- the operations ----------

    method Find(k: Key) returns (res: Node?)
      requires Valid()
      modifies this, Nodes(shape)
      ensures Valid() && Nodes(shape) == old(Nodes(shape)) && Inorder(shape) == old(Inorder(shape))
      ensures res != null ==> res in Nodes(shape) && cmp(k, res.key) == 0
      ensures res == null ==> forall x | x in Inorder(shape) :: cmp(k, x.key) != 0
    {
      if root == null {
        return null;
      }
      Splay(k);
      DividedEqual(cmp, k, shape);
      return if cmp(k, root.key) == 0 then root else null;
    }

    // Adds elm unless a node with an equal key is there, which is then returned; that may be elm itself.
    method Insert(elm: Node) returns (res: Node?)
      requires Valid()
      modifies this, Nodes(shape), elm
      ensures Valid()
      ensures res != null ==> res in Nodes(shape) && cmp(elm.key, res.key) == 0
      ensures res != null ==> Nodes(shape) == old(Nodes(shape)) && Inorder(shape) == old(Inorder(shape))
      ensures elm in old(Nodes(shape)) ==> res == elm
      ensures res != null && res != elm ==> unchanged(elm)
      ensures res == null ==> elm !in old(Nodes(shape)) && Nodes(shape) == old(Nodes(shape)) + {elm}
      ensures res == null ==> PutIn(old(Inorder(shape)), elm, Inorder(shape))
      ensures res == null ==> forall x | x in old(Inorder(shape)) :: cmp(elm.key, x.key) != 0
    {
      if root == null {
        elm.left, elm.right := null, null;
        root := elm;
        assert Inorder(shape) == [];
        shape := Br(Leaf, elm, Leaf);
        assert Inorder(shape) == [][..0] + [elm] + [][0..];
        return null;
      }
      Splay(elm.key);
      DividedEqual(cmp, elm.key, shape);
      RootIsSelf(cmp, elm, shape);
      var comp := cmp(elm.key, root.key);
      if comp == 0 {
        return root;
      }
      InsertedOrder(cmp, elm, shape);
      InsertAtRoot(elm, comp);
      return null;
    }

    // Links elm above the root, on the side comp tells.
    method LinkAbove(elm: Node, comp: int, ghost all: set<Node>)
      requires root != null && root in all && elm in all && root != elm
      modifies `root, root, elm
      ensures root == elm
      ensures var m, r := old(Snap(all)), old(root);
              Snap(all) == if comp < 0 then m[elm := Cell(m[r].left, r)][r := m[r].(left := null)]
                           else m[elm := Cell(r, m[r].right)][r := m[r].(right := null)]
    {
      if comp < 0 {
        elm.left := root.left;
        elm.right := root;
        root.left := null;
      } else {
        elm.right := root.right;
        elm.left := root;
        root.right := null;
      }
      root := elm;
    }

    method InsertAtRoot(elm: Node, comp: int)
      requires shape.Br? && Lies(shape) && elm !in Nodes(shape) && comp != 0
      modifies this, Nodes(shape), elm
      ensures Lies(shape) && shape == Inserted(old(shape), elm, comp) && Nodes(shape) == old(Nodes(shape)) + {elm}
    {
      hide Laid, Distinct, Inorder;
      ghost var all := Nodes(shape) + {elm};
      ghost var m := Snap(all);
      FrameTree(Snap(Nodes(shape)), m, shape);
      LinkAbove(elm, comp, all);
      InsertedTree(m, Snap(all), shape, elm, comp);
      shape := Inserted(shape, elm, comp);
      Restrict(all, shape);
    }

    // Takes out the node with elm's key, which need not be elm itself; elm is the answer in either case.
    method Remove(elm: Node) returns (res: Node?)
      requires Valid()
      modifies this, Nodes(shape)
      ensures Valid()
      ensures res != null ==> res == elm && exists i | 0 <= i < |old(Inorder(shape))| ::
        cmp(elm.key, old(Inorder(shape))[i].key) == 0 && TakenOut(old(Inorder(shape)), i, Inorder(shape)) &&
        Nodes(shape) == old(Nodes(shape)) - {old(Inorder(shape))[i]}
      ensures res == null ==> Nodes(shape) == old(Nodes(shape)) && Inorder(shape) == old(Inorder(shape))
      ensures res == null ==> forall x | x in Inorder(shape) :: cmp(elm.key, x.key) != 0
    {
      if root == null {
        return null;
      }
      Splay(elm.key);
      DividedEqual(cmp, elm.key, shape);
      if cmp(elm.key, root.key) == 0 {
        ghost var i := |Inorder(shape.l)|;
        assert Inorder(shape)[i] == shape.n;
        RemoveRoot(elm.key);
        return elm;
      }
      return null;
    }

    // Takes out the root, which k divides the others by.
    method RemoveRoot(k: Key)
      requires Valid() && Divides(cmp, k, shape)
      modifies this, Nodes(shape)
      ensures Valid() && Nodes(shape) == old(Nodes(shape)) - {old(shape.n)}
      ensures TakenOut(old(Inorder(shape)), |old(Inorder(shape.l))|, Inorder(shape))
    {
      ghost var l, n, r := shape.l, shape.n, shape.r;
      RootOut(cmp, l, n, r);
      Restrict(Nodes(shape), l);
      Restrict(Nodes(shape), r);
      if root.left == null {
        root := root.right;
        shape := r;
        assert Inorder(l) == [];
      } else {
        Join(root.right, k, l, r);
      }
    }

    // The left child and its tree l take the place of the root, and r goes below.
    method Join(tmp: Node?, k: Key, ghost l: Tree, ghost r: Tree)
      requires TotalPreorder(cmp) && root != null && l.Br? && root.left == RootOf(l) && tmp == RootOf(r)
      requires Distinct(l) && Laid(Snap(Nodes(l)), l) && Distinct(r) && Laid(Snap(Nodes(r)), r) && Nodes(r) !! Nodes(l)
      requires Ascending(cmp, Keys(Inorder(l))) && AllBelow(cmp, Keys(Inorder(l)), k)
      modifies this, Nodes(l)
      ensures Lies(shape) && Nodes(shape) == Nodes(l) + Nodes(r) && Inorder(shape) == Inorder(l) + Inorder(r)
    {
      SplayLeft(k, l, r);
      HangRight(tmp, r);
    }

    method SplayLeft(k: Key, ghost l: Tree, ghost r: Tree)
      requires TotalPreorder(cmp) && root != null && l.Br? && root.left == RootOf(l)
      requires Distinct(l) && Laid(Snap(Nodes(l)), l) && Laid(Snap(Nodes(r)), r) && Nodes(r) !! Nodes(l)
      requires Ascending(cmp, Keys(Inorder(l))) && AllBelow(cmp, Keys(Inorder(l)), k)
      modifies this, Nodes(l)
      ensures Lies(shape) && Nodes(shape) == Nodes(l) && Inorder(shape) == Inorder(l)
      ensures shape.Br? && shape.r.Leaf? && Laid(Snap(Nodes(r)), r)
    {
      hide Laid, Distinct, Keys, Ascending, TotalPreorder, AllBelow;
      root := root.left;
      shape := l;
      ghost var m := Snap(Nodes(r));
      Splay(k);
      assert Snap(Nodes(r)) == m;
      SplayedToEnd(cmp, k, Inorder(l), shape);
    }

    // Hangs the tree r, which has the root tmp, below a root that has nothing on its right.
    method HangRight(tmp: Node?, ghost r: Tree)
      requires Lies(shape) && shape.Br? && shape.r.Leaf? && Distinct(r) && Laid(Snap(Nodes(r)), r) && tmp == RootOf(r)
      requires Nodes(r) !! Nodes(shape)
      modifies `shape, shape.n
      ensures shape == old(shape).(r := r) && Lies(shape) && Nodes(shape) == old(Nodes(shape)) + Nodes(r)
      ensures Inorder(shape) == old(Inorder(shape)) + Inorder(r)
    {
      hide Laid, Distinct, Inorder, Nodes;
      ghost var l, n := shape.l, shape.n;
      ghost var all := Nodes(shape) + Nodes(r);
      ghost var m := Snap(all);
      TreeParts(Snap(Nodes(shape)), l, n, Leaf);
      FrameTree(Snap(Nodes(shape)), m, l);
      FrameTree(Snap(Nodes(r)), m, r);
      root.right := tmp;
      FrameTree(m, Snap(all), l);
      FrameTree(m, Snap(all), r);
      shape := Br(l, n, r);
      WholeTree(Snap(all), l, n, r);
      assert all == Nodes(shape);
      HungOrder(l, n, r);
    }

    method LeftmostBelow(elm: Node, ghost t0: Tree) returns (res: Node)
      requires t0.Br? && elm == t0.n && Laid(Snap(Nodes(t0)), t0)
      ensures Inorder(t0) != [] && res == Inorder(t0)[0]
    {
      res := elm;
      ghost var t, rest := t0, [];
      while res.left != null
        invariant t.Br? && res == t.n && Laid(Snap(Nodes(t)), t) && Inorder(t) + rest == Inorder(t0)
        decreases t
      {
        res := res.left;
        assert Inorder(t.l) + ([t.n] + Inorder(t.r) + rest) == Inorder(t) + rest;
        rest := [t.n] + Inorder(t.r) + rest;
        Restrict(Nodes(t), t.l);
        t := t.l;
      }
      assert t.l.Leaf? && Inorder(t.l) == [];
    }

    // The node after elm.
    method Next(elm: Node) returns (res: Node?, ghost i: nat)
      requires Valid() && elm in Nodes(shape)
      modifies this, Nodes(shape)
      ensures Valid() && Nodes(shape) == old(Nodes(shape)) && Inorder(shape) == old(Inorder(shape))
      ensures i < |Inorder(shape)| && Inorder(shape)[i] == elm
      ensures res == if i + 1 < |Inorder(shape)| then Inorder(shape)[i + 1] else null
    {
      InOrder(shape, elm);
      EqualSelf(cmp, elm.key);
      Splay(elm.key);
      DividedEqual(cmp, elm.key, shape);
      i := |Inorder(shape.l)|;
      assert Inorder(shape) == Inorder(shape.l) + [elm] + Inorder(shape.r);
      if elm.right != null {
        Restrict(Nodes(shape), shape.r);
        ghost var m := Snap(Nodes(shape));
        res := LeftmostBelow(elm.right, shape.r);
        assert Snap(Nodes(shape)) == m;
      } else {
        assert Inorder(shape.r) == [];
        res := null;
      }
    }

    // SPLAY_MIN and SPLAY_MAX.
    method Extreme(comp: int) returns (res: Node?)
      requires Valid() && comp != 0
      modifies this, Nodes(shape)
      ensures Valid() && Nodes(shape) == old(Nodes(shape)) && Inorder(shape) == old(Inorder(shape))
      ensures var s := Inorder(shape); res == if s == [] then null else if comp < 0 then s[0] else s[|s| - 1]
    {
      if root == null {
        return null;
      }
      MinMax(comp);
      assert Inorder(Leaf) == [];
      return root;
    }

    // The loop of the FOREACH macro; it splays the tree at every step.
    method Foreach() returns (visited: seq<Node>)
      requires Valid()
      modifies this, Nodes(shape)
      ensures Valid() && visited == old(Inorder(shape)) && Inorder(shape) == old(Inorder(shape))
    {
      hide TotalPreorder, Ascending, Distinct, Laid, Inorder;
      visited := [];
      var x := Extreme(-1);
      while x != null
        invariant Valid() && Nodes(shape) == old(Nodes(shape)) && Inorder(shape) == old(Inorder(shape))
        invariant |visited| <= |Inorder(shape)| && visited == Inorder(shape)[..|visited|]
        invariant x == if |visited| < |Inorder(shape)| then Inorder(shape)[|visited|] else null
        decreases |Inorder(shape)| - |visited|
      {
        ghost var k := |visited|;
        visited := visited + [x];
        OrderInNodes(shape, k);
        ghost var i;
        x, i := Next(x);
        EqualSelf(cmp, Inorder(shape)[i].key);
        SamePlace(cmp, Keys(Inorder(shape)), i, k);
      }
    }
  }

  // s' is s without the node at place i.
  ghost predicate TakenOut(s: seq<Node>, i: nat, s': seq<Node>) {
    i < |s| && s' == s[..i] + s[i + 1..]
  }

  lemma RootOut(cmp: Comparator, l: Tree, n: Node, r: Tree)
    requires Ascending(cmp, Keys(Inorder(Br(l, n, r))))
    ensures Ascending(cmp, Keys(Inorder(l))) && Ascending(cmp, Keys(Inorder(r))) &&
      Ascending(cmp, Keys(Inorder(l) + Inorder(r)))
    ensures TakenOut(Inorder(Br(l, n, r)), |Inorder(l)|, Inorder(l) + Inorder(r))
  {
    assert Inorder(Br(l, n, r)) == Inorder(l) + [n] + Inorder(r);
    hide Inorder, Ascending, Keys;
    var a, b := Inorder(l), Inorder(r);
    KeysAround(a, n, b);
    RemovedAscending(cmp, Keys(a), n.key, Keys(b));
    KeysConcat(a, b);
    assert (a + [n] + b)[..|a|] == a && (a + [n] + b)[|a| + 1..] == b;
    SubAscending(cmp, Keys(a), Keys(b));
  }

  lemma SubAscending(cmp: Comparator, a: seq<Key>, b: seq<Key>)
    requires Ascending(cmp, a + b)
    ensures Ascending(cmp, a) && Ascending(cmp, b)
  {
    assert forall i | 0 <= i < |a| :: a[i] == (a + b)[i];
    assert forall i | 0 <= i < |b| :: b[i] == (a + b)[|a| + i];
  }

  // Splaying for a key above all nodes leaves nothing on the right.
  lemma SplayedToEnd(cmp: Comparator, k: Key, s: seq<Node>, t: Tree)
    requires Divides(cmp, k, t) && Inorder(t) == s && AllBelow(cmp, Keys(s), k)
    ensures t.r.Leaf?
  {
    var b := Inorder(t.r);
    KeysAround(Inorder(t.l), t.n, b);
    assert Keys(b) == Keys(s)[|s| - |b|..];
    NotBoth(cmp, k, Keys(b));
  }

  lemma NotBoth(cmp: Comparator, k: Key, s: seq<Key>)
    ensures AllBelow(cmp, s, k) && AllAbove(cmp, s, k) ==> s == []
  {
    assert s != [] && AllBelow(cmp, s, k) ==> cmp(k, s[0]) > 0;
  }

  lemma TreeParts(m: Mem, l: Tree, n: Node, r: Tree)
    requires Distinct(Br(l, n, r)) && Laid(m, Br(l, n, r))
    ensures Laid(m, l) && Laid(m, r) && n in m && m[n] == Cell(RootOf(l), RootOf(r))
    ensures Distinct(l) && Distinct(r) && n !in Nodes(l) && n !in Nodes(r) && Nodes(l) !! Nodes(r)
    ensures Nodes(Br(l, n, r)) == Nodes(l) + {n} + Nodes(r) && Nodes(Leaf) == {}
  {
  }

  lemma HungOrder(l: Tree, n: Node, r: Tree)
    ensures Inorder(Br(l, n, r)) == Inorder(Br(l, n, Leaf)) + Inorder(r)
  {
    assert Inorder(Leaf) == [];
    assert Inorder(Br(l, n, Leaf)) == Inorder(l) + [n];
  }

  lemma {:induction false} InOrder(t: Tree, n: Node)
    requires n in Nodes(t)
    ensures n in Inorder(t)
  {
    if n in Nodes(t.l) {
      InOrder(t.l, n);
    } else if n in Nodes(t.r) {
      InOrder(t.r, n);
    }
  }

  lemma {:induction false} OrderInNodes(t: Tree, i: nat)
    requires i < |Inorder(t)|
    ensures Inorder(t)[i] in Nodes(t)
  {
    if i < |Inorder(t.l)| {
      OrderInNodes(t.l, i);
    } else if i > |Inorder(t.l)| {
      OrderInNodes(t.r, i - |Inorder(t.l)| - 1);
    }
  }

  // The tree with elm above its old root.
  function Inserted(t: Tree, elm: Node, comp: int): Tree
    requires t.Br?
  {
    if comp < 0 then Br(t.l, elm, Br(Leaf, t.n, t.r)) else Br(Br(t.l, t.n, Leaf), elm, t.r)
  }

  lemma InsertedTree(m: Mem, m': Mem, t: Tree, elm: Node, comp: int)
    requires t.Br? && Distinct(t) && Laid(m, t) && t.n in m && elm in m && elm !in Nodes(t)
    requires m' == if comp < 0 then m[elm := Cell(m[t.n].left, t.n)][t.n := m[t.n].(left := null)]
                   else m[elm := Cell(t.n, m[t.n].right)][t.n := m[t.n].(right := null)]
    ensures Laid(m', Inserted(t, elm, comp)) && Distinct(Inserted(t, elm, comp))
    ensures Nodes(Inserted(t, elm, comp)) == Nodes(t) + {elm}
  {
    FrameTree(m, m', t.l);
    FrameTree(m, m', t.r);
    assert Nodes(Leaf) == {} && Distinct(Leaf);
    assert Nodes(t) == Nodes(t.l) + {t.n} + Nodes(t.r);
    if comp < 0 {
      var u := Br(Leaf, t.n, t.r);
      assert Nodes(u) == {t.n} + Nodes(t.r);
      assert Laid(m', u) && Distinct(u);
    } else {
      var u := Br(t.l, t.n, Leaf);
      assert Nodes(u) == Nodes(t.l) + {t.n};
      assert Laid(m', u) && Distinct(u);
    }
  }

  // s' is s with n put in somewhere.
  ghost predicate PutIn(s: seq<Node>, n: Node, s': seq<Node>) {
    exists i | 0 <= i <= |s| :: s' == s[..i] + [n] + s[i..]
  }

  lemma InsertedOrder(cmp: Comparator, elm: Node, t: Tree)
    requires TotalPreorder(cmp) && Ascending(cmp, Keys(Inorder(t))) && Divides(cmp, elm.key, t) &&
      cmp(elm.key, t.n.key) != 0
    ensures var s' := Inorder(Inserted(t, elm, cmp(elm.key, t.n.key)));
            Ascending(cmp, Keys(s')) && PutIn(Inorder(t), elm, s')
  {
    hide TotalPreorder, Ascending, AllBelow, AllAbove, PutIn, Keys;
    var a, b, n := Inorder(t.l), Inorder(t.r), t.n;
    InsertedOrders(t.l, n, t.r, elm);
    KeysAround(a, n, b);
    SplitBy(cmp, elm.key, Keys(a), n.key, Keys(b));
    if cmp(elm.key, n.key) < 0 {
      KeysConcat([n], b);
      SingleKey(n);
      InsertedBetween(cmp, a, elm, [n] + b);
    } else {
      KeysConcat(a, [n]);
      SingleKey(n);
      InsertedBetween(cmp, a + [n], elm, b);
    }
  }

  lemma SingleKey(n: Node)
    ensures Keys([n]) == [n.key]
  {
  }

  lemma InsertedOrders(l: Tree, n: Node, r: Tree, elm: Node)
    ensures Inorder(Br(l, n, r)) == Inorder(l) + ([n] + Inorder(r)) == (Inorder(l) + [n]) + Inorder(r)
    ensures Inorder(Br(l, elm, Br(Leaf, n, r))) == Inorder(l) + [elm] + ([n] + Inorder(r))
    ensures Inorder(Br(Br(l, n, Leaf), elm, r)) == (Inorder(l) + [n]) + [elm] + Inorder(r)
  {
    var u, v := Br(Leaf, n, r), Br(l, n, Leaf);
    assert Inorder(Leaf) == [];
    assert Inorder(u) == [n] + Inorder(r);
    assert Inorder(v) == Inorder(l) + [n];
    assert Inorder(Br(l, elm, u)) == Inorder(l) + [elm] + Inorder(u);
    assert Inorder(Br(v, elm, r)) == Inorder(v) + [elm] + Inorder(r);
  }

  lemma InsertedBetween(cmp: Comparator, a: seq<Node>, n: Node, b: seq<Node>)
    requires TotalPreorder(cmp) && Ascending(cmp, Keys(a + b)) && AllBelow(cmp, Keys(a), n.key) &&
      AllAbove(cmp, Keys(b), n.key)
    ensures Ascending(cmp, Keys(a + [n] + b)) && PutIn(a + b, n, a + [n] + b)
  {
    KeysConcat(a, b);
    KeysAround(a, n, b);
    InsertedAscending(cmp, Keys(a), n.key, Keys(b));
    assert (a + b)[..|a|] == a && (a + b)[|a|..] == b;
  }

  // Only the root can be equal to a key that the root divides.
  lemma DividedEqual(cmp: Comparator, k: Key, t: Tree)
    requires Divides(cmp, k, t)
    ensures t.n in Nodes(t)
    ensures forall x: Node | x in Inorder(t) && cmp(k, x.key) == 0 :: x == t.n
  {
    NoneEqual(cmp, k, Inorder(t.l));
    NoneEqual(cmp, k, Inorder(t.r));
  }

  // A node of the tree whose key the root divides the others by is the root.
  lemma RootIsSelf(cmp: Comparator, n: Node, t: Tree)
    requires TotalPreorder(cmp) && Divides(cmp, n.key, t)
    ensures n in Nodes(t) ==> n == t.n && cmp(n.key, t.n.key) == 0
  {
    if n in Nodes(t) {
      InOrder(t, n);
      EqualSelf(cmp, n.key);
      DividedEqual(cmp, n.key, t);
    }
  }

  lemma NoneEqual(cmp: Comparator, k: Key, s: seq<Node>)
    requires AllBelow(cmp, Keys(s), k) || AllAbove(cmp, Keys(s), k)
    ensures forall x: Node | x in s :: cmp(k, x.key) != 0
  {
    forall x: Node | x in s
      ensures cmp(k, x.key) != 0
    {
      var i :| 0 <= i < |s| && s[i] == x;
      assert Keys(s)[i] == x.key;
    }
  }

  lemma DividedBy(cmp: Comparator, k: Key, ls: Spine, t: Tree, rs: Spine)
    requires TotalPreorder(cmp) && Closest(cmp, k, t) && Passed(cmp, k, ls, rs)
    requires Ascending(cmp, Keys(LeftOrder(ls) + Inorder(t) + RightOrder(rs)))
    ensures Divides(cmp, k, Br(CloseLeft(ls, t.l), t.n, CloseRight(rs, t.r)))
  {
    ClosedLeftOrder(ls, t.l);
    ClosedRightOrder(rs, t.r);
    var x, y := LeftOrder(ls) + Inorder(t.l), Inorder(t.r) + RightOrder(rs);
    OrderAround(ls, t.l, t.n, t.r, rs);
    KeysAround(x, t.n, y);
    SplitBy(cmp, k, Keys(x), t.n.key, Keys(y));
    if cmp(k, t.n.key) < 0 {
      assert x == LeftOrder(ls);
    } else if cmp(k, t.n.key) > 0 {
      assert y == RightOrder(rs);
    }
  }

  // With a fresh dummy and empty spines, a splay can begin.
  lemma Begun(m: Mem, all: set<Node>, root: Node?, d: Node, t: Tree)
    requires t.Br? && root == t.n && Distinct(t) && Laid(m, t) && d !in Nodes(t) && all == Nodes(t) + {d}
    requires Agree(m, Snap(all), Nodes(t))
    ensures Splaying(all, root, d, d, d, Empty, t, Empty, Inorder(t))
  {
    FrameTree(m, Snap(all), t);
  }

  lemma Ready(all: set<Node>, root: Node?, d: Node, left: Node, right: Node, ls: Spine, a: Tree, r: Node, c: Tree,
        rs: Spine, order: seq<Node>)
    requires Splaying(all, root, d, left, right, ls, Br(a, r, c), rs, order)
    ensures {r, d, left, right} <= all && r != left && r != right && r != d && left == Last(ls, d) &&
      right == Last(rs, d)
    ensures Nodes(Br(a, r, c)) + SpineNodes(ls) + SpineNodes(rs) == all - {d}
  {
    PassedOn(d, ls, a, r, c, rs);
  }

  lemma Restrict(all: set<Node>, t: Tree)
    requires Nodes(t) <= all && Laid(Snap(all), t)
    ensures Laid(Snap(Nodes(t)), t)
  {
    FrameTree(Snap(all), Snap(Nodes(t)), t);
  }
}