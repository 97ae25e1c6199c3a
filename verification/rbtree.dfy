/** The red-black tree: a head pointing into nodes whose links are rewritten in place. */
module RbTree {
  import opened Order
  import opened RbShape
  import opened RbBalance
  import opened Seqs

  function Keys(s: seq<Node>): (ks: seq<Key>)
    ensures |ks| == |s|
  {
    seq(|s|, i requires 0 <= i < |s| => s[i].key)
  }

  class Head {
    const cmp: Comparator
    var root: Node?
    ghost var nodes: set<Node>
    ghost var order: seq<Node>  // the nodes of the tree from left to right
    ghost var shape: Tree

    ghost function Snap(): Mem
      reads `nodes, nodes
    {
      map n | n in nodes :: Cell(n.left, n.right, n.parent, n.color)
    }

    // The nodes of the tree are laid out as t.
    ghost predicate Lies(t: Tree)
      reads `root, `nodes, nodes
    {
      Stored(Snap(), root, t)
    }

    // The same, and they are in the known order.
    ghost predicate Is(t: Tree)
      reads `root, `nodes, `order, nodes
    {
      Lies(t) && Inorder(t) == order
    }

    // A red-black search tree.
    ghost predicate Valid()
      reads this, nodes
    {
      TotalPreorder(cmp) && Is(shape) && RedBlack(shape) && Ascending(cmp, Keys(order))
    }

    lemma NodesAre(t: Tree)
      requires Lies(t)
      ensures nodes == Nodes(t) && root == RootOf(t)
    {
    }

    // What one sees standing on the node n.
    lemma See(ctx: Ctx, l: Tree, n: Node, c: Color, r: Tree)
      requires Lies(Plug(ctx, Br(l, n, c, r)))
      ensures n in nodes && n.left == RootOf(l) && n.right == RootOf(r) && n.parent == Up(ctx) && n.color == c
      ensures n !in Nodes(l) && n !in Nodes(r) && n !in CtxNodes(ctx)
      ensures Nodes(l) !! Nodes(r) && Nodes(l) !! CtxNodes(ctx) && Nodes(r) !! CtxNodes(ctx)
      ensures ctx.Top? <==> root == n
    {
      Look(Snap(), root, ctx, l, n, c, r);
      assert Snap()[n] == Cell(n.left, n.right, n.parent, n.color);
    }

    // What one sees looking up from a subtree.
    lemma SeeUp(ctx: Ctx, t: Tree)
      requires Is(Plug(ctx, t))
      ensures t.Br? ==> t.n in nodes && t.n.parent == Up(ctx)
      ensures match ctx
              case Top => root == RootOf(t)
              case InLeft(up, p, c, r) =>
                && p in nodes && p.left == RootOf(t) && p.right == RootOf(r) && p.parent == Up(up) && p.color == c
                && RootOf(t) != root && (RootOf(t) != null ==> p.right != RootOf(t))
              case InRight(up, l, p, c) =>
                && p in nodes && p.left == RootOf(l) && p.right == RootOf(t) && p.parent == Up(up) && p.color == c
                && RootOf(t) != root && (RootOf(t) != null ==> p.left != RootOf(t))
    {
      if t.Br? {
        See(ctx, t.l, t.n, t.c, t.r);
      }
      match ctx
      case Top =>
      case InLeft(up, p, c, r) => See(up, t, p, c, r);
      case InRight(up, l, p, c) => See(up, l, p, c, t);
    }

    // The colours of the children; nil counts as black.
    lemma SeeColors(ctx: Ctx, l: Tree, n: Node, c: Color, r: Tree)
      requires Is(Plug(ctx, Br(l, n, c, r)))
      ensures n.left == null || n.left.color == Black <==> ColorOf(l) == Black
      ensures n.right == null || n.right.color == Black <==> ColorOf(r) == Black
    {
      See(ctx, l, n, c, r);
      if l.Br? {
        See(InLeft(ctx, n, c, r), l.l, l.n, l.c, l.r);
      }
      if r.Br? {
        See(InRight(ctx, l, n, c), r.l, r.n, r.c, r.r);
      }
    }

    constructor (cmp: Comparator)
      requires TotalPreorder(cmp)
      ensures this.cmp == cmp && Valid() && order == []
    {
      this.cmp := cmp;
      root := null;
      nodes := {};
      order := [];
      shape := Leaf;
    }

    // ---------- rotations ----------

    method RotateLeft(elm: Node)
      requires RotatableLeft(Snap(), elm)
      modifies `root, nodes
      ensures RotatedLeft(old(Snap()), Snap(), elm)
      ensures root == if old(elm.parent) == null then old(elm.right) else old(root)
    {
      var tmp := elm.right;
      elm.right := tmp.left;
      if elm.right != null {
        tmp.left.parent := elm;
      }
      tmp.parent := elm.parent;
      if tmp.parent != null {
        if elm == elm.parent.left {
          elm.parent.left := tmp;
        } else {
          elm.parent.right := tmp;
        }
      } else {
        root := tmp;
      }
      tmp.left := elm;
      elm.parent := tmp;
    }

    method RotateRight(elm: Node)
      requires RotatableRight(Snap(), elm)
      modifies `root, nodes
      ensures RotatedRight(old(Snap()), Snap(), elm)
      ensures root == if old(elm.parent) == null then old(elm.left) else old(root)
    {
      var tmp := elm.left;
      elm.left := tmp.right;
      if elm.left != null {
        tmp.right.parent := elm;
      }
      tmp.parent := elm.parent;
      if tmp.parent != null {
        if elm == elm.parent.left {
          elm.parent.left := tmp;
        } else {
          elm.parent.right := tmp;
        }
      } else {
        root := tmp;
      }
      tmp.right := elm;
      elm.parent := tmp;
    }

    // The same, seen as steps on the shape of the tree.

    method TurnLeft(elm: Node, ghost ctx: Ctx, ghost a: Tree, ghost c: Color, ghost b: Tree, ghost f: Node,
          ghost c2: Color, ghost d: Tree)
      requires Is(Plug(ctx, Br(a, elm, c, Br(b, f, c2, d))))
      modifies `root, nodes
      ensures Is(Plug(ctx, Br(Br(a, elm, c, b), f, c2, d)))
    {
      RotatableLeftAt(Snap(), root, ctx, a, elm, c, b, f, c2, d);
      RotateLeft(elm);
      RotatedLeftStored(old(Snap()), Snap(), old(root), root, ctx, a, elm, c, b, f, c2, d);
      InorderRotated(a, elm, c, b, f, c2, d);
      SameOrder(ctx, Br(a, elm, c, Br(b, f, c2, d)), Br(Br(a, elm, c, b), f, c2, d));
    }

    method TurnRight(elm: Node, ghost ctx: Ctx, ghost a: Tree, ghost e: Node, ghost c: Color, ghost b: Tree,
          ghost c2: Color, ghost d: Tree)
      requires Is(Plug(ctx, Br(Br(a, e, c, b), elm, c2, d)))
      modifies `root, nodes
      ensures Is(Plug(ctx, Br(a, e, c, Br(b, elm, c2, d))))
    {
      RotatableRightAt(Snap(), root, ctx, a, e, c, b, elm, c2, d);
      RotateRight(elm);
      RotatedRightStored(old(Snap()), Snap(), old(root), root, ctx, a, e, c, b, elm, c2, d);
      InorderRotated(a, e, c, b, elm, c2, d);
      SameOrder(ctx, Br(a, e, c, Br(b, elm, c2, d)), Br(Br(a, e, c, b), elm, c2, d));
    }

    method Paint(x: Node, col: Color, ghost ctx: Ctx, ghost l: Tree, ghost c: Color, ghost r: Tree)
      requires Is(Plug(ctx, Br(l, x, c, r)))
      modifies nodes
      ensures Is(Plug(ctx, Br(l, x, col, r)))
    {
      Look(Snap(), root, ctx, l, x, c, r);
      x.color := col;
      PaintStored(old(Snap()), Snap(), root, ctx, l, x, c, r, col);
      SameOrder(ctx, Br(l, x, c, r), Br(l, x, col, r));
    }

    // ---------- insertion ----------

    // Red uncle: the two generations exchange their colours.

    method RecolorRightUncle(parent: Node, gparent: Node, tmp: Node, ghost up: Ctx, ghost p: Tree, ghost u: Tree)
      requires p.Br? && u.Br? && p.n == parent && u.n == tmp && p.c == Red && u.c == Red
      requires Is(Plug(up, Br(p, gparent, Black, u)))
      modifies `root, nodes
      ensures Is(Plug(up, Br(p.(c := Black), gparent, Red, u.(c := Black))))
    {
      ghost var u', p' := u.(c := Black), p.(c := Black);
      Paint(tmp, Black, InRight(up, p, gparent, Black), u.l, Red, u.r);
      Paint(parent, Black, InLeft(up, gparent, Black, u'), p.l, Red, p.r);
      Paint(gparent, Red, up, p', Black, u');
    }

    method RecolorLeftUncle(parent: Node, gparent: Node, tmp: Node, ghost up: Ctx, ghost p: Tree, ghost u: Tree)
      requires p.Br? && u.Br? && p.n == parent && u.n == tmp && p.c == Red && u.c == Red
      requires Is(Plug(up, Br(u, gparent, Black, p)))
      modifies `root, nodes
      ensures Is(Plug(up, Br(u.(c := Black), gparent, Red, p.(c := Black))))
    {
      ghost var u', p' := u.(c := Black), p.(c := Black);
      Paint(tmp, Black, InLeft(up, gparent, Black, p), u.l, Red, u.r);
      Paint(parent, Black, InRight(up, u', gparent, Black), p.l, Red, p.r);
      Paint(gparent, Red, up, u', Black, p');
    }

    // Black uncle, elm on the outer side: parent takes the place of gparent.

    method LiftLeft(parent: Node, gparent: Node, ghost up: Ctx, ghost t: Tree, ghost s: Tree, ghost u: Tree)
      requires Is(Plug(up, Br(Br(t, parent, Red, s), gparent, Black, u)))
      modifies `root, nodes
      ensures Is(Plug(up, Br(t, parent, Black, Br(s, gparent, Red, u))))
    {
      Paint(parent, Black, InLeft(up, gparent, Black, u), t, Red, s);
      Paint(gparent, Red, up, Br(t, parent, Black, s), Black, u);
      TurnRight(gparent, up, t, parent, Black, s, Red, u);
    }

    method LiftRight(parent: Node, gparent: Node, ghost up: Ctx, ghost t: Tree, ghost s: Tree, ghost u: Tree)
      requires Is(Plug(up, Br(u, gparent, Black, Br(s, parent, Red, t))))
      modifies `root, nodes
      ensures Is(Plug(up, Br(Br(u, gparent, Red, s), parent, Black, t)))
    {
      Paint(parent, Black, InRight(up, u, gparent, Black), s, Red, t);
      Paint(gparent, Red, up, u, Black, Br(s, parent, Black, t));
      TurnLeft(gparent, up, u, Red, s, parent, Black, t);
    }

    // One round of the fix-up for a red elm whose red parent is the left child of gparent.
    method LeftRound(elm0: Node, parent0: Node, gparent: Node, ghost ctx0: Ctx, ghost l0: Tree, ghost r0: Tree)
          returns (elm: Node, ghost ctx: Ctx, ghost l: Tree, ghost r: Tree)
      requires Is(Plug(ctx0, Br(l0, elm0, Red, r0))) && RedInside(ctx0, Br(l0, elm0, Red, r0))
      requires UpColor(ctx0) == Red && ctx0.up.InLeft? && parent0 == ctx0.n && gparent == ctx0.up.n
      modifies `root, nodes
      ensures Is(Plug(ctx, Br(l, elm, Red, r))) && RedInside(ctx, Br(l, elm, Red, r))
      ensures Depth(ctx) < Depth(ctx0)
    {
      elm, ctx, l, r := elm0, ctx0, l0, r0;
      var parent := parent0;
      ghost var t, up, u := Br(l, elm, Red, r), ctx.up.up, ctx.up.r;
      ghost var p := if ctx.InLeft? then Br(t, parent, Red, ctx.r) else Br(ctx.l, parent, Red, t);
      BlackAbove(ctx, t);
      hide RedInside, Stored, Inorder, Pre, Post;
      assert Plug(ctx, t) == Plug(ctx.up, p) == Plug(up, Br(p, gparent, Black, u));
      See(up, p, gparent, Black, u);
      See(ctx.up, p.l, parent, Red, p.r);
      var tmp := gparent.right;
      if tmp != null {
        See(InRight(up, p, gparent, Black), u.l, tmp, u.c, u.r);
      }
      if tmp != null && tmp.color == Red {
        RecolorRightUncle(parent, gparent, tmp, up, p, u);
        Recolored(ctx, t, p, u);
        elm, ctx, l, r := gparent, up, p.(c := Black), u.(c := Black);
        return;
      }
      if parent.right == elm {
        TurnLeft(parent, ctx.up, ctx.l, Red, l, elm, Red, r);
        Straightened(ctx, t);
        elm, parent, ctx, l, r := parent, elm, InLeft(ctx.up, elm, Red, r), ctx.l, l;
        t := Br(l, elm, Red, r);
      }
      LiftLeft(parent, gparent, up, t, ctx.r, u);
      LiftedOuter(ctx, t);
      ctx := InLeft(up, parent, Black, Br(ctx.r, gparent, Red, u));
    }

    // The mirror image.
    method RightRound(elm0: Node, parent0: Node, gparent: Node, ghost ctx0: Ctx, ghost l0: Tree, ghost r0: Tree)
          returns (elm: Node, ghost ctx: Ctx, ghost l: Tree, ghost r: Tree)
      requires Is(Plug(ctx0, Br(l0, elm0, Red, r0))) && RedInside(ctx0, Br(l0, elm0, Red, r0))
      requires UpColor(ctx0) == Red && ctx0.up.InRight? && parent0 == ctx0.n && gparent == ctx0.up.n
      modifies `root, nodes
      ensures Is(Plug(ctx, Br(l, elm, Red, r))) && RedInside(ctx, Br(l, elm, Red, r))
      ensures Depth(ctx) < Depth(ctx0)
    {
      elm, ctx, l, r := elm0, ctx0, l0, r0;
      var parent := parent0;
      ghost var t, up, u := Br(l, elm, Red, r), ctx.up.up, ctx.up.l;
      ghost var p := if ctx.InLeft? then Br(t, parent, Red, ctx.r) else Br(ctx.l, parent, Red, t);
      BlackAbove(ctx, t);
      hide RedInside, Stored, Inorder, Pre, Post;
      assert Plug(ctx, t) == Plug(ctx.up, p) == Plug(up, Br(u, gparent, Black, p));
      See(up, u, gparent, Black, p);
      See(ctx.up, p.l, parent, Red, p.r);
      var tmp := gparent.left;
      if tmp != null {
        See(InLeft(up, gparent, Black, p), u.l, tmp, u.c, u.r);
      }
      if tmp != null && tmp.color == Red {
        RecolorLeftUncle(parent, gparent, tmp, up, p, u);
        Recolored(ctx, t, p, u);
        elm, ctx, l, r := gparent, up, u.(c := Black), p.(c := Black);
        return;
      }
      if parent.left == elm {
        TurnRight(parent, ctx.up, l, elm, Red, r, Red, ctx.r);
        Straightened(ctx, t);
        elm, parent, ctx, l, r := parent, elm, InRight(ctx.up, l, elm, Red), r, ctx.r;
        t := Br(l, elm, Red, r);
      }
      LiftRight(parent, gparent, up, t, ctx.l, u);
      LiftedOuter(ctx, t);
      ctx := InRight(up, Br(u, gparent, Red, ctx.l), parent, Black);
    }

    // Moves the red node elm up until its parent is not red.
    method InsertColor(elm0: Node, ghost ctx0: Ctx, ghost l0: Tree, ghost r0: Tree) returns (ghost t: Tree)
      requires Is(Plug(ctx0, Br(l0, elm0, Red, r0))) && RedInside(ctx0, Br(l0, elm0, Red, r0))
      modifies `root, nodes
      ensures Is(t) && RedBlack(t)
    {
      var elm := elm0;
      ghost var ctx, l, r := ctx0, l0, r0;
      SeeUp(ctx, Br(l, elm, Red, r));
      var parent := elm.parent;
      while parent != null && parent.color == Red
        invariant Is(Plug(ctx, Br(l, elm, Red, r))) && RedInside(ctx, Br(l, elm, Red, r))
        invariant parent == Up(ctx) && (parent != null ==> parent.color == UpColor(ctx))
        decreases Depth(ctx)
      {
        ghost var p := if ctx.InLeft? then Br(Br(l, elm, Red, r), parent, Red, ctx.r)
          else Br(ctx.l, parent, Red, Br(l, elm, Red, r));
        assert Is(Plug(ctx.up, p));
        SeeUp(ctx.up, p);
        var gparent := parent.parent;
        if parent == gparent.left {
          elm, ctx, l, r := LeftRound(elm, parent, gparent, ctx, l, r);
        } else {
          elm, ctx, l, r := RightRound(elm, parent, gparent, ctx, l, r);
        }
        SeeUp(ctx, Br(l, elm, Red, r));
        parent := elm.parent;
      }
      t := PaintRoot(ctx, l, elm, r);
    }

    // The last step: the root becomes black.
    method PaintRoot(ghost ctx: Ctx, ghost l: Tree, ghost elm: Node, ghost r: Tree) returns (ghost t: Tree)
      requires Is(Plug(ctx, Br(l, elm, Red, r))) && RedInside(ctx, Br(l, elm, Red, r)) && UpColor(ctx) == Black
      modifies nodes
      ensures Is(t) && RedBlack(t)
    {
      t := Plug(ctx, Br(l, elm, Red, r));
      PlugBr(ctx, Br(l, elm, Red, r));
      RootFits(ctx, Br(l, elm, Red, r));
      Paint(root, Black, Top, t.l, t.c, t.r);
      t := t.(c := Black);
    }

    // Hangs elm below parent, on the side comp tells.
    method HangLeaf(elm: Node, parent: Node?, comp: int)
      requires elm !in nodes && (parent != null ==> parent in nodes)
      modifies `root, `nodes, nodes, elm
      ensures nodes == old(nodes) + {elm} && root == if parent == null then elm else old(root)
      ensures Agree(old(Snap()), Snap(), old(nodes) - Opt(parent)) && Snap()[elm] == Cell(null, null, parent, Red)
      ensures parent != null ==>
        Snap()[parent] == if comp < 0 then old(Snap())[parent].(left := elm) else old(Snap())[parent].(right := elm)
    {
      elm.parent := parent;
      elm.left, elm.right := null, null;
      elm.color := Red;
      if parent != null {
        if comp < 0 {
          parent.left := elm;
        } else {
          parent.right := elm;
        }
      } else {
        root := elm;
      }
      nodes := nodes + {elm};
    }

    method HangLeafAt(elm: Node, parent: Node?, comp: int, ghost ctx: Ctx)
      requires Is(Plug(ctx, Leaf)) && elm !in nodes && parent == Up(ctx)
      requires (ctx.InLeft? ==> comp < 0) && (ctx.InRight? ==> comp > 0)
      modifies `root, `nodes, `order, nodes, elm
      ensures nodes == old(nodes) + {elm} && order == Pre(ctx) + [elm] + Post(ctx)
      ensures Is(Plug(ctx, Br(Leaf, elm, Red, Leaf)))
    {
      SeeUp(ctx, Leaf);
      HangLeaf(elm, parent, comp);
      order := Pre(ctx) + [elm] + Post(ctx);
      LeafStored(old(Snap()), Snap(), old(root), root, ctx, elm, Red);
      LeafOrder(ctx, elm, Red);
    }

    // Adds elm unless a node with an equal key is there, which is then returned; that may be elm itself.
    method Insert(elm: Node) returns (res: Node?)
      requires Valid()
      modifies this, nodes, elm
      ensures Valid()
      ensures res != null ==> res in nodes && cmp(elm.key, res.key) == 0
      ensures res != null ==> unchanged(this) && unchanged(nodes) && unchanged(elm)
      ensures elm in old(nodes) ==> res == elm
      ensures res == null ==> elm !in old(nodes) && nodes == old(nodes) + {elm}
      ensures res == null ==> exists i | 0 <= i <= |old(order)| :: order == old(order)[..i] + [elm] + old(order)[i..]
      ensures res == null ==> forall x | x in old(order) :: cmp(elm.key, x.key) != 0
    {
      hide Stored, RedBlack, Keys, Ascending, AllBelow, AllAbove, TotalPreorder;
      var tmp, parent, comp := root, null, 0;
      ghost var ctx, t := Top, shape;
      NodesAre(shape);
      SearchStart(cmp, elm.key);
      while tmp != null
        invariant Plug(ctx, t) == shape && tmp == RootOf(t) && parent == Up(ctx)
        invariant (ctx.InLeft? ==> comp < 0) && (ctx.InRight? ==> comp > 0)
        invariant AllBelow(cmp, Keys(Pre(ctx)), elm.key) && AllAbove(cmp, Keys(Post(ctx)), elm.key)
        modifies {}
        decreases t
      {
        See(ctx, t.l, tmp, t.c, t.r);
        SearchStep(cmp, elm.key, ctx, t);
        parent := tmp;
        comp := cmp(elm.key, parent.key);
        if comp < 0 {
          tmp := tmp.left;
          ctx, t := InLeft(ctx, t.n, t.c, t.r), t.l;
        } else if comp > 0 {
          tmp := tmp.right;
          ctx, t := InRight(ctx, t.l, t.n, t.c), t.r;
        } else {
          if elm in nodes {
            SameNode(cmp, shape, elm, tmp);
          }
          return tmp;
        }
      }
      Absent(cmp, elm, ctx);
      NotInTree(cmp, shape, elm);
      FreshRedLeaf(shape, ctx, elm);
      HangLeafAt(elm, parent, comp, ctx);
      shape := InsertColor(elm, ctx, Leaf, Leaf);
      res := null;
    }

    // ---------- removal ----------

    // Takes elm, which has no child but child, out of the links around it.
    method Splice(elm: Node, child: Node?, parent: Node?)
      requires Spliceable(Snap(), elm, child, parent)
      modifies `root, `nodes, nodes
      ensures nodes == old(nodes) - {elm} && Spliced(old(Snap()), Snap(), elm, child, parent)
      ensures root == if parent == null then child else old(root)
      ensures elm.parent == old(elm.parent)
    {
      if child != null {
        child.parent := parent;
      }
      if parent != null {
        if parent.left == elm {
          parent.left := child;
        } else {
          parent.right := child;
        }
      } else {
        root := child;
      }
      nodes := nodes - {elm};
    }

    method SpliceAt(elm: Node, child: Node?, parent: Node?, ghost ctx: Ctx, ghost l: Tree, ghost c: Color,
          ghost r: Tree, ghost x: Tree)
      requires Lies(Plug(ctx, Br(l, elm, c, r))) && (l.Leaf? || r.Leaf?) && x == (if l.Leaf? then r else l)
      requires child == RootOf(x) && parent == Up(ctx)
      modifies `root, `nodes, nodes
      ensures nodes == old(nodes) - {elm} && elm.parent == old(elm.parent)
      ensures Lies(Plug(ctx, x))
    {
      SpliceableAt(Snap(), root, ctx, l, elm, c, r);
      Splice(elm, child, parent);
      SplicedStored(old(Snap()), Snap(), old(root), root, ctx, l, elm, c, r);
    }

    // Puts elm, which is not in the tree, into the place of was.
    method Replace(was: Node, elm: Node)
      requires Replaceable(Snap(), was) && elm !in nodes
      modifies `root, `nodes, nodes, elm
      ensures nodes == old(nodes) - {was} + {elm} && Replaced(old(Snap()), Snap(), was, elm)
      ensures root == if old(was.parent) == null then elm else old(root)
    {
      elm.left, elm.right, elm.parent, elm.color := was.left, was.right, was.parent, was.color;
      if was.parent != null {
        if was.parent.left == was {
          was.parent.left := elm;
        } else {
          was.parent.right := elm;
        }
      } else {
        root := elm;
      }
      was.left.parent := elm;
      if was.right != null {
        was.right.parent := elm;
      }
      nodes := nodes - {was} + {elm};
    }

    method ReplaceAt(was: Node, elm: Node, ghost ctx: Ctx, ghost l: Tree, ghost c: Color, ghost r: Tree)
      requires Lies(Plug(ctx, Br(l, was, c, r))) && elm !in nodes && l.Br?
      modifies `root, `nodes, nodes, elm
      ensures nodes == old(nodes) - {was} + {elm}
      ensures Lies(Plug(ctx, Br(l, elm, c, r)))
    {
      ReplaceableAt(Snap(), root, ctx, l, was, c, r);
      Replace(was, elm);
      ReplacedStored(old(Snap()), Snap(), old(root), root, ctx, l, was, c, r, elm);
    }

    // Red sibling: it changes places with the parent, which becomes red.

    method RedSiblingRight(parent: Node, tmp: Node, ghost up: Ctx, ghost t: Tree, ghost wl: Tree, ghost wr: Tree)
      requires Is(Plug(up, Br(t, parent, Black, Br(wl, tmp, Red, wr))))
      modifies `root, nodes
      ensures Is(Plug(up, Br(Br(t, parent, Red, wl), tmp, Black, wr)))
    {
      Paint(tmp, Black, InRight(up, t, parent, Black), wl, Red, wr);
      Paint(parent, Red, up, t, Black, Br(wl, tmp, Black, wr));
      TurnLeft(parent, up, t, Red, wl, tmp, Black, wr);
    }

    method RedSiblingLeft(parent: Node, tmp: Node, ghost up: Ctx, ghost t: Tree, ghost wl: Tree, ghost wr: Tree)
      requires Is(Plug(up, Br(Br(wl, tmp, Red, wr), parent, Black, t)))
      modifies `root, nodes
      ensures Is(Plug(up, Br(wl, tmp, Black, Br(wr, parent, Red, t))))
    {
      Paint(tmp, Black, InLeft(up, parent, Black, t), wl, Red, wr);
      Paint(parent, Red, up, Br(wl, tmp, Black, wr), Black, t);
      TurnRight(parent, up, wl, tmp, Black, wr, Red, t);
    }

    // The inner child of the sibling tmp is red and the outer one black: the inner one becomes the sibling.

    method TurnRightSibling(tmp: Node, ghost up: Ctx, ghost t: Tree, ghost parent: Node, ghost pc: Color,
          ghost wl: Tree, ghost wr: Tree)
      requires Is(Plug(up, Br(t, parent, pc, Br(wl, tmp, Black, wr)))) && ColorOf(wl) == Red
      modifies `root, nodes
      ensures Is(Plug(up, Br(t, parent, pc, Br(wl.l, wl.n, Black, Br(wl.r, tmp, Red, wr)))))
    {
      ghost var at := InRight(up, t, parent, pc);
      See(at, wl, tmp, Black, wr);
      var oleft := tmp.left;
      if oleft != null {
        Paint(oleft, Black, InLeft(at, tmp, Black, wr), wl.l, Red, wl.r);
      }
      Paint(tmp, Red, at, wl.(c := Black), Black, wr);
      TurnRight(tmp, at, wl.l, oleft, Black, wl.r, Red, wr);
    }

    method TurnLeftSibling(tmp: Node, ghost up: Ctx, ghost t: Tree, ghost parent: Node, ghost pc: Color,
          ghost wl: Tree, ghost wr: Tree)
      requires Is(Plug(up, Br(Br(wl, tmp, Black, wr), parent, pc, t))) && ColorOf(wr) == Red
      modifies `root, nodes
      ensures Is(Plug(up, Br(Br(Br(wl, tmp, Red, wr.l), wr.n, Black, wr.r), parent, pc, t)))
    {
      ghost var at := InLeft(up, parent, pc, t);
      See(at, wl, tmp, Black, wr);
      var oright := tmp.right;
      if oright != null {
        Paint(oright, Black, InRight(at, wl, tmp, Black), wr.l, Red, wr.r);
      }
      Paint(tmp, Red, at, wl, Black, wr.(c := Black));
      TurnLeft(tmp, at, wl, Red, wr.l, oright, Black, wr.r);
    }

    // The outer child of the sibling tmp is red: the last rotation.

    method LastTurnLeft(parent: Node, tmp: Node, ghost up: Ctx, ghost t: Tree, ghost pc: Color, ghost wl: Tree,
          ghost wr: Tree)
      requires Is(Plug(up, Br(t, parent, pc, Br(wl, tmp, Black, wr)))) && ColorOf(wr) == Red
      modifies `root, nodes
      ensures Is(Plug(up, Br(Br(t, parent, Black, wl), tmp, pc, wr.(c := Black))))
    {
      See(up, t, parent, pc, Br(wl, tmp, Black, wr));
      Paint(tmp, parent.color, InRight(up, t, parent, pc), wl, Black, wr);
      Paint(parent, Black, up, t, pc, Br(wl, tmp, pc, wr));
      ghost var at := InRight(up, t, parent, Black);
      See(at, wl, tmp, pc, wr);
      if tmp.right != null {
        Paint(tmp.right, Black, InRight(at, wl, tmp, pc), wr.l, Red, wr.r);
      }
      assert Is(Plug(at, Br(wl, tmp, pc, wr.(c := Black))));
      TurnLeft(parent, up, t, Black, wl, tmp, pc, wr.(c := Black));
    }

    method LastTurnRight(parent: Node, tmp: Node, ghost up: Ctx, ghost t: Tree, ghost pc: Color, ghost wl: Tree,
          ghost wr: Tree)
      requires Is(Plug(up, Br(Br(wl, tmp, Black, wr), parent, pc, t))) && ColorOf(wl) == Red
      modifies `root, nodes
      ensures Is(Plug(up, Br(wl.(c := Black), tmp, pc, Br(wr, parent, Black, t))))
    {
      See(up, Br(wl, tmp, Black, wr), parent, pc, t);
      Paint(tmp, parent.color, InLeft(up, parent, pc, t), wl, Black, wr);
      Paint(parent, Black, up, Br(wl, tmp, pc, wr), pc, t);
      ghost var at := InLeft(up, parent, Black, t);
      See(at, wl, tmp, pc, wr);
      if tmp.left != null {
        Paint(tmp.left, Black, InLeft(at, tmp, pc, wr), wl.l, Red, wl.r);
      }
      assert Is(Plug(at, Br(wl.(c := Black), tmp, pc, wr)));
      TurnRight(parent, up, wl.(c := Black), tmp, pc, wr, Black, t);
    }

    // The first part of a round for a place that is one black node short: after it the sibling tmp is black.

    method BlackenRightSibling(parent: Node, ghost ctx0: Ctx, ghost t: Tree) returns (tmp: Node, ghost ctx: Ctx)
      requires Is(Plug(ctx0, t)) && OneShort(ctx0, t) && ColorOf(t) == Black && ctx0.InLeft? && parent == ctx0.n
      modifies `root, nodes
      ensures Is(Plug(ctx, t)) && OneShort(ctx, t) && ctx.InLeft? && parent == ctx.n
      ensures ctx.r.Br? && tmp == ctx.r.n && ctx.r.c == Black
      ensures ctx == ctx0 || ctx.c == Red
    {
      ctx := ctx0;
      SiblingOf(ctx, t);
      SeeUp(ctx, t);
      tmp := parent.right;
      See(InRight(ctx.up, t, parent, ctx.c), ctx.r.l, tmp, ctx.r.c, ctx.r.r);
      if tmp.color == Red {
        RedSiblingRight(parent, tmp, ctx.up, t, ctx.r.l, ctx.r.r);
        RedSibling(ctx, t);
        ctx := InLeft(InLeft(ctx.up, tmp, Black, ctx.r.r), parent, Red, ctx.r.l);
        SeeUp(ctx, t);
        tmp := parent.right;
        SiblingOf(ctx, t);
      }
    }

    method BlackenLeftSibling(parent: Node, ghost ctx0: Ctx, ghost t: Tree) returns (tmp: Node, ghost ctx: Ctx)
      requires Is(Plug(ctx0, t)) && OneShort(ctx0, t) && ColorOf(t) == Black && ctx0.InRight? && parent == ctx0.n
      modifies `root, nodes
      ensures Is(Plug(ctx, t)) && OneShort(ctx, t) && ctx.InRight? && parent == ctx.n
      ensures ctx.l.Br? && tmp == ctx.l.n && ctx.l.c == Black
      ensures ctx == ctx0 || ctx.c == Red
    {
      ctx := ctx0;
      SiblingOf(ctx, t);
      SeeUp(ctx, t);
      tmp := parent.left;
      See(InLeft(ctx.up, parent, ctx.c, t), ctx.l.l, tmp, ctx.l.c, ctx.l.r);
      if tmp.color == Red {
        RedSiblingLeft(parent, tmp, ctx.up, t, ctx.l.l, ctx.l.r);
        RedSibling(ctx, t);
        ctx := InRight(InRight(ctx.up, ctx.l.l, tmp, Black), ctx.l.r, parent, Red);
        SeeUp(ctx, t);
        tmp := parent.left;
        SiblingOf(ctx, t);
      }
    }

    // The last part of the last round: the shape is a red-black tree again.

    method FinishLeft(parent: Node, tmp0: Node, ghost ctx0: Ctx, ghost t: Tree) returns (ghost t': Tree)
      requires Is(Plug(ctx0, t)) && OneShort(ctx0, t) && ColorOf(t) == Black && ctx0.InLeft? && parent == ctx0.n
      requires ctx0.r.Br? && tmp0 == ctx0.r.n && ctx0.r.c == Black &&
        (ColorOf(ctx0.r.l) == Red || ColorOf(ctx0.r.r) == Red)
      modifies `root, nodes
      ensures Is(t') && RedBlack(t')
    {
      var tmp := tmp0;
      ghost var ctx, w := ctx0, ctx0.r;
      SeeColors(InRight(ctx.up, t, parent, ctx.c), w.l, tmp, Black, w.r);
      if tmp.right == null || tmp.right.color == Black {
        TurnRightSibling(tmp, ctx.up, t, parent, ctx.c, w.l, w.r);
        NearRed(ctx, t);
        w := Br(w.l.l, w.l.n, Black, Br(w.l.r, tmp, Red, w.r));
        ctx := InLeft(ctx.up, parent, ctx.c, w);
        SeeUp(ctx, t);
        tmp := parent.right;
      }
      LastTurnLeft(parent, tmp, ctx.up, t, ctx.c, w.l, w.r);
      FarRedLeft(ctx, t);
      t' := Plug(ctx.up, Br(Br(t, parent, Black, w.l), tmp, ctx.c, w.r.(c := Black)));
    }

    method FinishRight(parent: Node, tmp0: Node, ghost ctx0: Ctx, ghost t: Tree) returns (ghost t': Tree)
      requires Is(Plug(ctx0, t)) && OneShort(ctx0, t) && ColorOf(t) == Black && ctx0.InRight? && parent == ctx0.n
      requires ctx0.l.Br? && tmp0 == ctx0.l.n && ctx0.l.c == Black &&
        (ColorOf(ctx0.l.l) == Red || ColorOf(ctx0.l.r) == Red)
      modifies `root, nodes
      ensures Is(t') && RedBlack(t')
    {
      var tmp := tmp0;
      ghost var ctx, w := ctx0, ctx0.l;
      SeeColors(InLeft(ctx.up, parent, ctx.c, t), w.l, tmp, Black, w.r);
      if tmp.left == null || tmp.left.color == Black {
        TurnLeftSibling(tmp, ctx.up, t, parent, ctx.c, w.l, w.r);
        NearRed(ctx, t);
        w := Br(Br(w.l, tmp, Red, w.r.l), w.r.n, Black, w.r.r);
        ctx := InRight(ctx.up, w, parent, ctx.c);
        SeeUp(ctx, t);
        tmp := parent.left;
      }
      LastTurnRight(parent, tmp, ctx.up, t, ctx.c, w.l, w.r);
      FarRedRight(ctx, t);
      t' := Plug(ctx.up, Br(w.l.(c := Black), tmp, ctx.c, Br(w.r, parent, Black, t)));
    }

    // One round.  When done, t is the whole tree; otherwise the parent is the place that is one black node short.

    method ShortLeftRound(parent: Node, ghost ctx0: Ctx, ghost t0: Tree)
          returns (done: bool, ghost ctx: Ctx, ghost t: Tree)
      requires Is(Plug(ctx0, t0)) && OneShort(ctx0, t0) && ColorOf(t0) == Black && ctx0.InLeft? && parent == ctx0.n
      modifies `root, nodes
      ensures Is(Plug(ctx, t))
      ensures done ==> ctx.Top? && RedBlack(t)
      ensures !done ==> OneShort(ctx, t) && RootOf(t) == parent && (ColorOf(t) == Red || Depth(ctx) < Depth(ctx0))
    {
      var tmp;
      tmp, ctx := BlackenRightSibling(parent, ctx0, t0);
      t := t0;
      ghost var w := ctx.r;
      SeeColors(InRight(ctx.up, t, parent, ctx.c), w.l, tmp, Black, w.r);
      if (tmp.left == null || tmp.left.color == Black) && (tmp.right == null || tmp.right.color == Black) {
        Paint(tmp, Red, InRight(ctx.up, t, parent, ctx.c), w.l, Black, w.r);
        PassUp(ctx, t);
        t, ctx, done := Br(t, parent, ctx.c, w.(c := Red)), ctx.up, false;
      } else {
        t := FinishLeft(parent, tmp, ctx, t);
        ctx, done := Top, true;
      }
    }

    method ShortRightRound(parent: Node, ghost ctx0: Ctx, ghost t0: Tree)
          returns (done: bool, ghost ctx: Ctx, ghost t: Tree)
      requires Is(Plug(ctx0, t0)) && OneShort(ctx0, t0) && ColorOf(t0) == Black && ctx0.InRight? && parent == ctx0.n
      modifies `root, nodes
      ensures Is(Plug(ctx, t))
      ensures done ==> ctx.Top? && RedBlack(t)
      ensures !done ==> OneShort(ctx, t) && RootOf(t) == parent && (ColorOf(t) == Red || Depth(ctx) < Depth(ctx0))
    {
      var tmp;
      tmp, ctx := BlackenLeftSibling(parent, ctx0, t0);
      t := t0;
      ghost var w := ctx.l;
      SeeColors(InLeft(ctx.up, parent, ctx.c, t), w.l, tmp, Black, w.r);
      if (tmp.left == null || tmp.left.color == Black) && (tmp.right == null || tmp.right.color == Black) {
        Paint(tmp, Red, InLeft(ctx.up, parent, ctx.c, t), w.l, Black, w.r);
        PassUp(ctx, t);
        t, ctx, done := Br(w.(c := Red), parent, ctx.c, t), ctx.up, false;
      } else {
        t := FinishRight(parent, tmp, ctx, t);
        ctx, done := Top, true;
      }
    }

    // Makes up for a black node missing on the way to elm, which may be nil and then is the child parent lacks.
    method RemoveColor(parent0: Node?, elm0: Node?, ghost ctx0: Ctx, ghost t0: Tree) returns (ghost t': Tree)
      requires Is(Plug(ctx0, t0)) && OneShort(ctx0, t0) && elm0 == RootOf(t0) && parent0 == Up(ctx0)
      modifies `root, nodes
      ensures Is(t') && RedBlack(t')
    {
      hide Stored, RedBlack, OneShort, Inorder, Balanced;
      var elm, parent := elm0, parent0;
      ghost var ctx, t := ctx0, t0;
      SeeRoot(ctx, t);
      while (elm == null || elm.color == Black) && elm != root
        invariant Is(Plug(ctx, t)) && OneShort(ctx, t) && elm == RootOf(t) && parent == Up(ctx)
        invariant (elm == root <==> ctx.Top?) && (elm == null || elm.color == Black <==> ColorOf(t) == Black)
        decreases if ColorOf(t) == Red then 0 else 1 + Depth(ctx)
      {
        SeeUp(ctx, t);
        SiblingOf(ctx, t);
        var done;
        if parent.left == elm {
          done, ctx, t := ShortLeftRound(parent, ctx, t);
        } else {
          done, ctx, t := ShortRightRound(parent, ctx, t);
        }
        if done {
          SeeRoot(ctx, t);
          elm := root;
          assert RedBlack(Plug(ctx, Blacken(t)));
          break;
        }
        elm := parent;
        SeeRoot(ctx, t);
        parent := elm.parent;
      }
      if OneShort(ctx, t) && (ctx.Top? || ColorOf(t) == Red) {
        BlackenRepairs(ctx, t);
      }
      t' := Plug(ctx, Blacken(t));
      if elm != null {
        Paint(elm, Black, ctx, t.l, t.c, t.r);
      }
    }

    lemma SeeRoot(ctx: Ctx, t: Tree)
      requires Is(Plug(ctx, t))
      ensures RootOf(t) == root <==> ctx.Top?
      ensures RootOf(t) == null || RootOf(t).color == Black <==> ColorOf(t) == Black
      ensures RootOf(t) != null ==> RootOf(t).parent == Up(ctx)
    {
      SeeUp(ctx, t);
      if t.Br? {
        See(ctx, t.l, t.n, t.c, t.r);
      }
    }

    // The leftmost node below the right child of was: its follower in the order.
    method Follower(was: Node, ghost ctx: Ctx, ghost l: Tree, ghost c: Color, ghost r: Tree)
          returns (elm: Node, ghost inner: Ctx, ghost s: Tree)
      requires Is(Plug(ctx, Br(l, was, c, r))) && r.Br?
      ensures LeftSpine(inner) && r == Plug(inner, s) && s.Br? && s.l.Leaf? && elm == s.n
      ensures elm in nodes && was in nodes && elm != was && Up(inner) != was
    {
      See(ctx, l, was, c, r);
      ghost var outer := InRight(ctx, l, was, c);
      ghost var at := outer;
      inner, s := Top, r;
      elm := was.right;
      See(at, s.l, elm, s.c, s.r);
      var left := elm.left;
      while left != null
        invariant LeftSpine(inner) && r == Plug(inner, s) && Plug(at, s) == Plug(outer, r)
        invariant s.Br? && elm == s.n && left == RootOf(s.l) && elm in nodes
        decreases s
      {
        elm := left;
        inner, at, s := InLeft(inner, s.n, s.c, s.r), InLeft(at, s.n, s.c, s.r), s.l;
        See(at, s.l, elm, s.c, s.r);
        left := elm.left;
      }
      Focus(Snap(), root, inner, s);
    }

    // Moves elm, the follower of was, from the place at to the place of was; hole is what the place at has become.
    method MoveUp(was: Node, elm: Node, ghost ctx: Ctx, ghost l: Tree, ghost c: Color, ghost at: Ctx,
          ghost hole: Ctx, ghost ec: Color, ghost x: Tree, ghost below: Tree)
          returns (child: Node?, parent: Node?, color: Color)
      requires Lies(Plug(at, Br(Leaf, elm, ec, x))) && l.Br? && elm in nodes && was in nodes && elm != was
      requires Plug(at, x) == Plug(ctx, Br(l, was, c, below)) && Plug(hole, x) == Plug(ctx, Br(l, elm, c, below))
      requires Up(hole) == if Up(at) == was then elm else Up(at)
      modifies `root, `nodes, nodes
      ensures nodes == old(nodes) - {was}
      ensures Lies(Plug(hole, x)) && parent == Up(hole) && child == RootOf(x) && color == ec
    {
      hide Stored;
      See(at, Leaf, elm, ec, x);
      child, parent, color := elm.right, elm.parent, elm.color;
      SpliceAt(elm, child, parent, at, Leaf, ec, x, x);
      if elm.parent == was {
        parent := elm;
      }
      ReplaceAt(was, elm, ctx, l, c, below);
    }

    // Takes was, which has two children, out of the tree; its follower takes its place and leaves x in the hole.
    method TakeDouble(was: Node, ghost ctx: Ctx, ghost l: Tree, ghost c: Color, ghost r: Tree)
          returns (child: Node?, parent: Node?, color: Color, ghost hole: Ctx, ghost x: Tree)
      requires Is(Plug(ctx, Br(l, was, c, r))) && RedBlack(Plug(ctx, Br(l, was, c, r))) && l.Br? && r.Br?
      modifies `root, `nodes, nodes
      ensures nodes == old(nodes) - {was}
      ensures Lies(Plug(hole, x)) && child == RootOf(x) && parent == Up(hole)
      ensures var o, i := Inorder(Plug(ctx, Br(l, was, c, r))), |Pre(ctx)| + |Inorder(l)|;
              i < |o| && o[i] == was && Inorder(Plug(hole, x)) == Without(o, i)
      ensures if color == Red then RedBlack(Plug(hole, x)) else OneShort(hole, x)
    {
      ghost var inner, s;
      var elm;
      elm, inner, s := Follower(was, ctx, l, c, r);
      ghost var at := Within(inner, InRight(ctx, l, was, c));
      hole, x := Within(inner, InRight(ctx, l, elm, c)), s.r;
      PlugWithin(inner, InRight(ctx, l, was, c), s);
      FollowerOut(ctx, l, was, c, inner, elm, s.c, x);
      FollowerPlaces(ctx, l, was, c, inner, elm, x);
      FollowerOrder(ctx, l, was, c, inner, elm, s.c, x);
      child, parent, color := MoveUp(was, elm, ctx, l, c, at, hole, s.c, x, Plug(inner, x));
    }

    // Takes elm, which lacks a child, out of its place, where the other child x hangs afterwards.
    method TakeSingle(elm: Node, ghost ctx: Ctx, ghost l: Tree, ghost c: Color, ghost r: Tree)
          returns (child: Node?, parent: Node?, color: Color, ghost x: Tree)
      requires Is(Plug(ctx, Br(l, elm, c, r))) && RedBlack(Plug(ctx, Br(l, elm, c, r))) && (l.Leaf? || r.Leaf?)
      modifies `root, `nodes, nodes
      ensures nodes == old(nodes) - {elm}
      ensures Lies(Plug(ctx, x)) && child == RootOf(x) && parent == Up(ctx)
      ensures var o, i := Inorder(Plug(ctx, Br(l, elm, c, r))), |Pre(ctx)| + |Inorder(l)|;
              i < |o| && o[i] == elm && Inorder(Plug(ctx, x)) == Without(o, i)
      ensures if color == Red then RedBlack(Plug(ctx, x)) else OneShort(ctx, x)
    {
      See(ctx, l, elm, c, r);
      child := if elm.left == null then elm.right else elm.left;
      parent, color := elm.parent, elm.color;
      x := if l.Leaf? then r else l;
      SplicedOut(ctx, l, elm, c, r);
      SplicedOrder(ctx, l, elm, c, r);
      SpliceAt(elm, child, parent, ctx, l, c, r, x);
    }

    method RemoveAt(elm: Node, ghost ctx: Ctx, ghost l: Tree, ghost c: Color, ghost r: Tree) returns (ghost t: Tree)
      requires Is(Plug(ctx, Br(l, elm, c, r))) && RedBlack(Plug(ctx, Br(l, elm, c, r)))
      modifies `root, `nodes, `order, nodes
      ensures nodes == old(nodes) - {elm}
      ensures var i := |Pre(ctx)| + |Inorder(l)|;
              i < |old(order)| && old(order)[i] == elm && order == Without(old(order), i)
      ensures Is(t) && RedBlack(t)
    {
      hide Stored, RedBlack, OneShort, Inorder, Without;
      See(ctx, l, elm, c, r);
      var child, parent, color;
      ghost var hole, x := ctx, Leaf;
      if elm.left == null || elm.right == null {
        child, parent, color, x := TakeSingle(elm, ctx, l, c, r);
      } else {
        child, parent, color, hole, x := TakeDouble(elm, ctx, l, c, r);
      }
      t := Plug(hole, x);
      order := Inorder(t);
      if color == Black {
        t := RemoveColor(parent, child, hole, x);
      }
    }

    // Takes elm out of the tree.
    method Remove(elm: Node) returns (res: Node)
      requires Valid() && elm in nodes
      modifies this, nodes
      ensures Valid() && res == elm && nodes == old(nodes) - {elm}
      ensures exists i | 0 <= i < |old(order)| :: old(order)[i] == elm && order == Without(old(order), i)
    {
      hide Stored, RedBlack, Inorder, Ascending, Keys, TotalPreorder;
      NodesAre(shape);
      ghost var ctx, l, c, r := Locate(Top, shape, elm);
      shape := RemoveAt(elm, ctx, l, c, r);
      WithoutAscending(cmp, old(order), |Pre(ctx)| + |Inorder(l)|);
      res := elm;
    }

    // ---------- searching and walking ----------

    // The node with the given key.
    method Find(k: Key) returns (res: Node?)
      requires Valid()
      ensures res != null ==> res in nodes && cmp(k, res.key) == 0
      ensures res == null ==> forall x | x in order :: cmp(k, x.key) != 0
    {
      var tmp := root;
      ghost var ctx, t := Top, shape;
      while tmp != null
        invariant Plug(ctx, t) == shape && tmp == RootOf(t)
        invariant AllBelow(cmp, Keys(Pre(ctx)), k) && AllAbove(cmp, Keys(Post(ctx)), k)
        decreases t
      {
        See(ctx, t.l, tmp, t.c, t.r);
        SearchStep(cmp, k, ctx, t);
        var comp := cmp(k, tmp.key);
        if comp < 0 {
          tmp := tmp.left;
          ctx, t := InLeft(ctx, t.n, t.c, t.r), t.l;
        } else if comp > 0 {
          tmp := tmp.right;
          ctx, t := InRight(ctx, t.l, t.n, t.c), t.r;
        } else {
          return tmp;
        }
      }
      AbsentKey(cmp, k, ctx);
      return null;
    }

    // The first node that is not below the key: everything before place i is below it.
    method NFind(k: Key) returns (res: Node?, ghost i: nat)
      requires Valid()
      ensures i <= |order| && res == (if i < |order| then order[i] else null)
      ensures forall j | 0 <= j < i :: cmp(k, order[j].key) > 0
      ensures forall j | i <= j < |order| :: cmp(k, order[j].key) <= 0
      ensures res == null ==> forall x | x in order :: cmp(k, x.key) > 0
      ensures res != null ==> exists j | 0 <= j < |order| ::
                order[j] == res && cmp(k, res.key) <= 0 && forall q | 0 <= q < j :: cmp(k, order[q].key) > 0
    {
      var tmp := root;
      res := null;
      ghost var ctx, t := Top, shape;
      while tmp != null
        invariant Plug(ctx, t) == shape && tmp == RootOf(t)
        invariant res == if Post(ctx) == [] then null else Post(ctx)[0]
        invariant AllBelow(cmp, Keys(Pre(ctx)), k) && AllAbove(cmp, Keys(Post(ctx)), k)
        decreases t
      {
        See(ctx, t.l, tmp, t.c, t.r);
        SearchStep(cmp, k, ctx, t);
        var comp := cmp(k, tmp.key);
        if comp < 0 {
          res := tmp;
          tmp := tmp.left;
          ctx, t := InLeft(ctx, t.n, t.c, t.r), t.l;
        } else if comp > 0 {
          tmp := tmp.right;
          ctx, t := InRight(ctx, t.l, t.n, t.c), t.r;
        } else {
          res := tmp;
          i := EqualAt(cmp, k, ctx, t);
          return;
        }
      }
      i := HoleAt(cmp, k, ctx);
    }

    // The first or the last node.
    method MinMax(val: int) returns (res: Node?)
      requires Valid()
      ensures res == if order == [] then null else if val < 0 then order[0] else order[|order| - 1]
    {
      var tmp := root;
      res := null;
      ghost var ctx, t := Top, shape;
      while tmp != null
        invariant Plug(ctx, t) == shape && tmp == RootOf(t) && res == Up(ctx)
        invariant if val < 0 then Pre(ctx) == [] && (!ctx.Top? ==> Post(ctx) != [] && Post(ctx)[0] == res)
                  else Post(ctx) == [] && (!ctx.Top? ==> Pre(ctx) != [] && Pre(ctx)[|Pre(ctx)| - 1] == res)
        decreases t
      {
        See(ctx, t.l, tmp, t.c, t.r);
        res := tmp;
        if val < 0 {
          tmp := tmp.left;
          ctx, t := InLeft(ctx, t.n, t.c, t.r), t.l;
        } else {
          tmp := tmp.right;
          ctx, t := InRight(ctx, t.l, t.n, t.c), t.r;
        }
      }
      InorderPlug(ctx, Leaf);
    }

    // The leftmost and the rightmost node of the subtree below elm.

    method LeftmostBelow(elm: Node, ghost ctx: Ctx, ghost t: Tree) returns (res: Node)
      requires Is(Plug(ctx, t)) && t.Br? && elm == t.n
      ensures |Pre(ctx)| < |order| && res == order[|Pre(ctx)|]
    {
      ghost var at, s := ctx, t;
      res := elm;
      See(at, s.l, res, s.c, s.r);
      while res.left != null
        invariant Plug(at, s) == Plug(ctx, t) && s.Br? && res == s.n && res.left == RootOf(s.l) &&
          |Pre(at)| == |Pre(ctx)|
        decreases s
      {
        res := res.left;
        at, s := InLeft(at, s.n, s.c, s.r), s.l;
        See(at, s.l, res, s.c, s.r);
      }
      InorderAround(at, s);
    }

    method RightmostBelow(elm: Node, ghost ctx: Ctx, ghost t: Tree) returns (res: Node)
      requires Is(Plug(ctx, t)) && t.Br? && elm == t.n
      ensures |Post(ctx)| < |order| && res == order[|order| - |Post(ctx)| - 1]
    {
      ghost var at, s := ctx, t;
      res := elm;
      See(at, s.l, res, s.c, s.r);
      while res.right != null
        invariant Plug(at, s) == Plug(ctx, t) && s.Br? && res == s.n && res.right == RootOf(s.r) &&
          |Post(at)| == |Post(ctx)|
        decreases s
      {
        res := res.right;
        at, s := InRight(at, s.l, s.n, s.c), s.r;
        See(at, s.l, res, s.c, s.r);
      }
      InorderAround(at, s);
    }

    // The nearest ancestor that has elm on its left, respectively on its right.

    method FirstAbove(elm: Node, ghost ctx0: Ctx, ghost t0: Tree) returns (res: Node?)
      requires Is(Plug(ctx0, t0)) && t0.Br? && elm == t0.n
      ensures var i := |Pre(ctx0) + Inorder(t0)|; i <= |order| && res == if i < |order| then order[i] else null
    {
      ghost var ctx, t, before := ctx0, t0, Pre(ctx0) + Inorder(t0);
      SeeUp(ctx, t);
      res := elm;
      if res.parent != null && res == res.parent.left {
        res := res.parent;
      } else {
        while res.parent != null && res == res.parent.right
          invariant Plug(ctx, t) == Plug(ctx0, t0) && t.Br? && res == t.n && Pre(ctx) + Inorder(t) == before
          invariant res.parent == Up(ctx) && (ctx.InLeft? ==> Up(ctx).right != res) &&
            (ctx.InRight? ==> Up(ctx).right == res)
          decreases ctx
        {
          res := res.parent;
          UpRight(ctx, t);
          ctx, t := ctx.up, Br(ctx.l, ctx.n, ctx.c, t);
          SeeUp(ctx, t);
        }
        res := res.parent;
      }
      InorderPlug(ctx, t);
      assert order == before + Post(ctx);
    }

    method LastAbove(elm: Node, ghost ctx0: Ctx, ghost t0: Tree) returns (res: Node?)
      requires Is(Plug(ctx0, t0)) && t0.Br? && elm == t0.n
      ensures var i := |order| - |Inorder(t0) + Post(ctx0)|; 0 <= i && res == if i > 0 then order[i - 1] else null
    {
      ghost var ctx, t, after := ctx0, t0, Inorder(t0) + Post(ctx0);
      SeeUp(ctx, t);
      res := elm;
      if res.parent != null && res == res.parent.right {
        res := res.parent;
      } else {
        while res.parent != null && res == res.parent.left
          invariant Plug(ctx, t) == Plug(ctx0, t0) && t.Br? && res == t.n && Inorder(t) + Post(ctx) == after
          invariant res.parent == Up(ctx) && (ctx.InRight? ==> Up(ctx).left != res) &&
            (ctx.InLeft? ==> Up(ctx).left == res)
          decreases ctx
        {
          res := res.parent;
          UpLeft(ctx, t);
          ctx, t := ctx.up, Br(t, ctx.n, ctx.c, ctx.r);
          SeeUp(ctx, t);
        }
        res := res.parent;
      }
      InorderPlug(ctx, t);
      assert order == Pre(ctx) + after;
    }

    // The node after elm, which is at place i.
    method Next(elm: Node) returns (res: Node?, ghost i: nat)
      requires Valid() && elm in nodes
      ensures i < |order| && order[i] == elm && res == if i + 1 < |order| then order[i + 1] else null
      ensures exists j :: After(order, j, elm, res)
    {
      ghost var ctx, l, c, r := Locate(Top, shape, elm);
      See(ctx, l, elm, c, r);
      InorderAround(ctx, Br(l, elm, c, r));
      i := |Pre(ctx)| + |Inorder(l)|;
      if elm.right != null {
        res := LeftmostBelow(elm.right, InRight(ctx, l, elm, c), r);
      } else {
        res := FirstAbove(elm, ctx, Br(l, elm, c, r));
      }
      assert After(order, i, elm, res);
    }

    // The node before elm, which is at place i.
    method Prev(elm: Node) returns (res: Node?, ghost i: nat)
      requires Valid() && elm in nodes
      ensures i < |order| && order[i] == elm && res == if i > 0 then order[i - 1] else null
      ensures exists j :: Before(order, j, elm, res)
    {
      ghost var ctx, l, c, r := Locate(Top, shape, elm);
      See(ctx, l, elm, c, r);
      InorderAround(ctx, Br(l, elm, c, r));
      i := |Pre(ctx)| + |Inorder(l)|;
      if elm.left != null {
        res := RightmostBelow(elm.left, InLeft(ctx, elm, c, r), l);
      } else {
        res := LastAbove(elm, ctx, Br(l, elm, c, r));
      }
      assert Before(order, i, elm, res);
    }

    // Prev is the inverse of Next, wherever there is a next node.
    method NextAndBack(elm: Node) returns (next: Node?, back: Node?)
      requires Valid() && elm in nodes
      ensures next != null ==> next in nodes && back == elm
      ensures next == null ==> back == null && order != [] && order[|order| - 1] == elm
    {
      ghost var i, j;
      next, i := Next(elm);
      back := null;
      if next != null {
        OrderInNodes(shape, i + 1);
        back, j := Prev(next);
        EqualSelf(cmp, order[i + 1].key);
        SamePlace(cmp, Keys(order), i + 1, j);
      }
    }

    // The loop of the FOREACH macro.
    method Foreach() returns (visited: seq<Node>)
      requires Valid()
      ensures visited == order
    {
      visited := [];
      var x := MinMax(-1);
      while x != null
        invariant |visited| <= |order| && visited == order[..|visited|]
        invariant x == if |visited| < |order| then order[|visited|] else null
        decreases |order| - |visited|
      {
        ghost var k := |visited|;
        visited := visited + [x];
        OrderInNodes(shape, k);
        ghost var i;
        x, i := Next(x);
        EqualSelf(cmp, order[i].key);
        SamePlace(cmp, Keys(order), i, k);
      }
    }

    // The loop of the FOREACH_REVERSE macro.
    method ForeachReverse() returns (visited: seq<Node>)
      requires Valid()
      ensures |visited| == |order| && forall i | 0 <= i < |order| :: visited[i] == order[|order| - 1 - i]
    {
      visited := [];
      var x := MinMax(1);
      while x != null
        invariant |visited| <= |order|
        invariant forall i | 0 <= i < |visited| :: visited[i] == order[|order| - 1 - i]
        invariant x == if |visited| < |order| then order[|order| - 1 - |visited|] else null
        decreases |order| - |visited|
      {
        ghost var k := |order| - 1 - |visited|;
        visited := visited + [x];
        OrderInNodes(shape, k);
        ghost var i;
        x, i := Prev(x);
        EqualSelf(cmp, order[i].key);
        SamePlace(cmp, Keys(order), i, k);
      }
    }
  }

  // x is at place i, and y is what comes behind or before it, if anything.
  ghost predicate After(s: seq<Node>, i: nat, x: Node, y: Node?) {
    i < |s| && s[i] == x && y == if i + 1 < |s| then s[i + 1] else null
  }

  ghost predicate Before(s: seq<Node>, i: nat, x: Node, y: Node?) {
    i < |s| && s[i] == x && y == if i > 0 then s[i - 1] else null
  }

  function Depth(ctx: Ctx): nat {
    if ctx.Top? then 0 else 1 + Depth(ctx.up)
  }

  lemma SearchStart(cmp: Comparator, k: Key)
    ensures AllBelow(cmp, Keys(Pre(Top)), k) && AllAbove(cmp, Keys(Post(Top)), k)
  {
  }

  lemma KeysConcat(a: seq<Node>, b: seq<Node>)
    ensures Keys(a + b) == Keys(a) + Keys(b)
  {
  }

  lemma KeysAround(a: seq<Node>, n: Node, b: seq<Node>)
    ensures Keys(a + [n] + b) == Keys(a) + [n.key] + Keys(b)
  {
  }

  // What comparing k with n tells about the nodes before and after n.
  lemma SplitAt(cmp: Comparator, k: Key, a: seq<Node>, n: Node, b: seq<Node>)
    requires TotalPreorder(cmp) && Ascending(cmp, Keys(a + [n] + b))
    ensures cmp(k, n.key) <= 0 ==> AllAbove(cmp, Keys(b), k)
    ensures cmp(k, n.key) >= 0 ==> AllBelow(cmp, Keys(a), k)
    ensures cmp(k, n.key) < 0 ==> AllAbove(cmp, Keys([n] + b), k)
    ensures cmp(k, n.key) > 0 ==> AllBelow(cmp, Keys(a + [n]), k)
  {
    KeysAround(a, n, b);
    SplitBy(cmp, k, Keys(a), n.key, Keys(b));
    KeysConcat([n], b);
    KeysConcat(a, [n]);
  }

  // One step down a search tree towards k.
  lemma SearchStep(cmp: Comparator, k: Key, ctx: Ctx, t: Tree)
    requires t.Br? && TotalPreorder(cmp) && Ascending(cmp, Keys(Inorder(Plug(ctx, t))))
    ensures cmp(k, t.n.key) == 0 ==> AllBelow(cmp, Keys(Pre(ctx) + Inorder(t.l)), k)
    ensures cmp(k, t.n.key) < 0 ==> AllAbove(cmp, Keys(Post(InLeft(ctx, t.n, t.c, t.r))), k)
    ensures cmp(k, t.n.key) > 0 ==> AllBelow(cmp, Keys(Pre(InRight(ctx, t.l, t.n, t.c))), k)
  {
    InorderAround(ctx, t);
    SplitAt(cmp, k, Pre(ctx) + Inorder(t.l), t.n, Inorder(t.r) + Post(ctx));
  }

  // A search for n's key that ends in the hole of ctx: the key occurs nowhere, and belongs there.
  lemma Absent(cmp: Comparator, n: Node, ctx: Ctx)
    requires TotalPreorder(cmp) && Ascending(cmp, Keys(Inorder(Plug(ctx, Leaf))))
    requires AllBelow(cmp, Keys(Pre(ctx)), n.key) && AllAbove(cmp, Keys(Post(ctx)), n.key)
    ensures var order, i := Inorder(Plug(ctx, Leaf)), |Pre(ctx)|;
      && i <= |order| && Pre(ctx) == order[..i] && Post(ctx) == order[i..]
      && forall x: Node | x in order :: cmp(n.key, x.key) != 0
    ensures Ascending(cmp, Keys(Pre(ctx) + [n] + Post(ctx)))
  {
    var a, b := Pre(ctx), Post(ctx);
    InorderPlug(ctx, Leaf);
    assert Inorder(Plug(ctx, Leaf)) == a + b;
    AbsentKey(cmp, n.key, ctx);
    KeysConcat(a, b);
    InsertedAscending(cmp, Keys(a), n.key, Keys(b));
    KeysAround(a, n, b);
  }

  lemma FreshRedLeaf(shape: Tree, ctx: Ctx, n: Node)
    requires RedBlack(shape) && shape == Plug(ctx, Leaf)
    ensures RedInside(ctx, Br(Leaf, n, Red, Leaf))
  {
    PlugBalanced(ctx, Leaf);
  }

  // What taking out the follower n of o does: n's child x hangs in the hole left, where n's colour is missing.
  lemma FollowerOut(ctx: Ctx, l: Tree, o: Node, c: Color, inner: Ctx, n: Node, nc: Color, x: Tree)
    requires RedBlack(Plug(Within(inner, InRight(ctx, l, o, c)), Br(Leaf, n, nc, x)))
    ensures var hole := Within(inner, InRight(ctx, l, n, c));
            if nc == Red then RedBlack(Plug(hole, x)) else OneShort(hole, x)
  {
    var at, hole := Within(inner, InRight(ctx, l, o, c)), Within(inner, InRight(ctx, l, n, c));
    SplicedOut(at, Leaf, n, nc, x);
    PlugBalanced(at, x);
    PlugBalanced(hole, x);
    RenamedBalanced(inner, ctx, l, c, o, n, BlackHeight(x));
    RenamedBalanced(inner, ctx, l, c, o, n, BlackHeight(x) + 1);
  }

  // The places n leaves and takes, for n in the place inner below the right child of o.
  lemma FollowerPlaces(ctx: Ctx, l: Tree, o: Node, c: Color, inner: Ctx, n: Node, x: Tree)
    requires Up(inner) != o
    ensures var at, hole := Within(inner, InRight(ctx, l, o, c)), Within(inner, InRight(ctx, l, n, c));
      && Plug(at, x) == Plug(ctx, Br(l, o, c, Plug(inner, x)))
      && Plug(hole, x) == Plug(ctx, Br(l, n, c, Plug(inner, x)))
      && Up(hole) == if Up(at) == o then n else Up(at)
  {
    PlugWithin(inner, InRight(ctx, l, o, c), x);
    PlugWithin(inner, InRight(ctx, l, n, c), x);
  }

  lemma FollowerOrder(ctx: Ctx, l: Tree, o: Node, c: Color, inner: Ctx, n: Node, nc: Color, x: Tree)
    requires LeftSpine(inner)
    ensures var s, i := Inorder(Plug(Within(inner, InRight(ctx, l, o, c)), Br(Leaf, n, nc, x))), |Pre(ctx)| +
      |Inorder(l)|;
      && i < |s| && s[i] == o
      && Inorder(Plug(Within(inner, InRight(ctx, l, n, c)), x)) == Without(s, i)
  {
    assert Inorder(Leaf) == [];
    hide Inorder, Plug, Within, Pre;
    var a, i := InRight(ctx, l, o, c), |Pre(ctx)| + |Inorder(l)|;
    SplicedOrder(Within(inner, a), Leaf, n, nc, x);
    PreWithin(inner, a);
    PreRight(ctx, l, o, c);
    PlugBelow(ctx, l, o, c, inner, x);
    PlugBelow(ctx, l, n, c, inner, x);
    ReplacedOrder(ctx, l, o, c, Plug(inner, x), n);
    WithoutFollower(Inorder(Plug(Within(inner, a), Br(Leaf, n, nc, x))), i, o, n);
  }

  lemma PlugBelow(ctx: Ctx, l: Tree, n: Node, c: Color, inner: Ctx, x: Tree)
    ensures Plug(Within(inner, InRight(ctx, l, n, c)), x) == Plug(ctx, Br(l, n, c, Plug(inner, x)))
  {
    PlugWithin(inner, InRight(ctx, l, n, c), x);
  }

  lemma PreRight(ctx: Ctx, l: Tree, n: Node, c: Color)
    ensures |Pre(InRight(ctx, l, n, c))| == |Pre(ctx)| + |Inorder(l)| + 1
  {
  }

  lemma WithoutAscending(cmp: Comparator, s: seq<Node>, i: nat)
    requires i < |s| && Ascending(cmp, Keys(s))
    ensures Ascending(cmp, Keys(Without(s, i)))
  {
    var a, b := s[..i], s[i + 1..];
    assert s == a + [s[i]] + b;
    KeysAround(a, s[i], b);
    KeysConcat(a, b);
    RemovedAscending(cmp, Keys(a), s[i].key, Keys(b));
  }

  lemma AbsentKey(cmp: Comparator, k: Key, ctx: Ctx)
    requires AllBelow(cmp, Keys(Pre(ctx)), k) && AllAbove(cmp, Keys(Post(ctx)), k)
    ensures forall x: Node | x in Inorder(Plug(ctx, Leaf)) :: cmp(k, x.key) != 0
  {
    var a, b := Pre(ctx), Post(ctx);
    InorderPlug(ctx, Leaf);
    assert Inorder(Plug(ctx, Leaf)) == a + b;
    forall x: Node | x in a + b
      ensures cmp(k, x.key) != 0
    {
      if x in a {
        var i :| 0 <= i < |a| && a[i] == x;
        assert cmp(k, Keys(a)[i]) > 0;
      } else {
        var i :| 0 <= i < |b| && b[i] == x;
        assert cmp(k, Keys(b)[i]) < 0;
      }
    }
  }

  // The place of a node with an equal key, seen from k.
  lemma EqualAt(cmp: Comparator, k: Key, ctx: Ctx, t: Tree) returns (i: nat)
    requires t.Br? && TotalPreorder(cmp) && Ascending(cmp, Keys(Inorder(Plug(ctx, t)))) && cmp(k, t.n.key) == 0
    ensures var s := Inorder(Plug(ctx, t));
      && i < |s| && s[i] == t.n
      && (forall j | 0 <= j < i :: cmp(k, s[j].key) > 0)
      && (forall j | i <= j < |s| :: cmp(k, s[j].key) <= 0)
  {
    InorderAround(ctx, t);
    hide Inorder, Plug, Ascending, TotalPreorder, Keys, AllBelow, AllAbove, Pre, Post;
    var a, b := Pre(ctx) + Inorder(t.l), Inorder(t.r) + Post(ctx);
    SplitAt(cmp, k, a, t.n, b);
    i := |a|;
    AroundEqual(cmp, k, a, t.n, b, Inorder(Plug(ctx, t)));
  }

  lemma AroundEqual(cmp: Comparator, k: Key, a: seq<Node>, n: Node, b: seq<Node>, s: seq<Node>)
    requires s == a + [n] + b && AllBelow(cmp, Keys(a), k) && AllAbove(cmp, Keys(b), k) && cmp(k, n.key) == 0
    ensures |a| < |s| && s[|a|] == n
    ensures forall j | 0 <= j < |a| :: cmp(k, s[j].key) > 0
    ensures forall j | |a| <= j < |s| :: cmp(k, s[j].key) <= 0
  {
    forall j | 0 <= j < |a|
      ensures cmp(k, s[j].key) > 0
    {
      assert Keys(a)[j] == s[j].key;
    }
    forall j | |a| < j < |s|
      ensures cmp(k, s[j].key) < 0
    {
      assert Keys(b)[j - |a| - 1] == s[j].key;
    }
  }

  lemma HoleAt(cmp: Comparator, k: Key, ctx: Ctx) returns (i: nat)
    requires AllBelow(cmp, Keys(Pre(ctx)), k) && AllAbove(cmp, Keys(Post(ctx)), k)
    ensures var s := Inorder(Plug(ctx, Leaf));
      && i <= |s| && s[i..] == Post(ctx)
      && (forall j | 0 <= j < i :: cmp(k, s[j].key) > 0)
      && (forall j | i <= j < |s| :: cmp(k, s[j].key) <= 0)
  {
    i := |Pre(ctx)|;
    InorderPlug(ctx, Leaf);
    assert Inorder(Plug(ctx, Leaf)) == Pre(ctx) + Post(ctx);
    BySplit(cmp, k, Pre(ctx), Post(ctx), 0);
  }

  lemma BySplit(cmp: Comparator, k: Key, a: seq<Node>, b: seq<Node>, from: nat)
    requires AllBelow(cmp, Keys(a), k) && from <= |b| && AllAbove(cmp, Keys(b[from..]), k)
    ensures forall j | 0 <= j < |a| :: cmp(k, (a + b)[j].key) > 0
    ensures forall j | |a| + from <= j < |a + b| :: cmp(k, (a + b)[j].key) < 0
  {
    forall j | 0 <= j < |a|
      ensures cmp(k, (a + b)[j].key) > 0
    {
      assert Keys(a)[j] == (a + b)[j].key;
    }
    forall j | |a| + from <= j < |a + b|
      ensures cmp(k, (a + b)[j].key) < 0
    {
      assert Keys(b[from..])[j - |a| - from] == (a + b)[j].key;
    }
  }

  // Climbing from a right child: the nodes up to the end of the subtree stay the same.
  lemma UpRight(ctx: Ctx, t: Tree)
    requires ctx.InRight?
    ensures Pre(ctx.up) + Inorder(Br(ctx.l, ctx.n, ctx.c, t)) == Pre(ctx) + Inorder(t)
  {
    Regroup(Pre(ctx.up), Inorder(ctx.l) + [ctx.n], Inorder(t), [], []);
  }

  lemma UpLeft(ctx: Ctx, t: Tree)
    requires ctx.InLeft?
    ensures Inorder(Br(t, ctx.n, ctx.c, ctx.r)) + Post(ctx.up) == Inorder(t) + Post(ctx)
  {
    Regroup([], [], Inorder(t), [ctx.n] + Inorder(ctx.r), Post(ctx.up));
  }

  lemma {:induction false} OrderInNodes(t: Tree, i: nat)
    requires i < |Inorder(t)|
    ensures Inorder(t)[i] in Nodes(t)
  {
    if i < |Inorder(t.l)| {
      OrderInNodes(t.l, i);
    } else if i > |Inorder(t.l)| {
      OrderInNodes(t.r, i - |Inorder(t.l)| - 1);
    }
  }

  lemma {:induction false} InOrder(t: Tree, n: Node)
    requires n in Nodes(t)
    ensures n in Inorder(t)
  {
    if n in Nodes(t.l) {
      InOrder(t.l, n);
    } else if n in Nodes(t.r) {
      InOrder(t.r, n);
    }
  }

  // Nodes of the tree with equal keys are the same node.
  lemma SameNode(cmp: Comparator, t: Tree, x: Node, y: Node)
    requires TotalPreorder(cmp) && Ascending(cmp, Keys(Inorder(t)))
    requires x in Nodes(t) && y in Nodes(t) && cmp(x.key, y.key) == 0
    ensures x == y
  {
    InOrder(t, x);
    InOrder(t, y);
    var s := Inorder(t);
    var i :| 0 <= i < |s| && s[i] == x;
    var j :| 0 <= j < |s| && s[j] == y;
    SamePlace(cmp, Keys(s), i, j);
  }

  // A node whose key occurs nowhere in the tree is not in it.
  lemma NotInTree(cmp: Comparator, t: Tree, n: Node)
    requires TotalPreorder(cmp) && forall x: Node | x in Inorder(t) :: cmp(n.key, x.key) != 0
    ensures n !in Nodes(t)
  {
    if n in Nodes(t) {
      InOrder(t, n);
      EqualSelf(cmp, n.key);
    }
  }
}
