/** What a valid red-black tree means for the bare fields and for paths,
  without the shape that the proofs carry along. */
module RbLinks {
  import opened Arith
  import opened RbShape
  import opened RbBalance
  import opened RbTree

  // ---------- colours on paths ----------

  // Whether the steps (true for left) lead from the root of t exactly to a missing child.
  predicate ToLeaf(t: Tree, path: seq<bool>) {
    if t.Leaf? then path == [] else path != [] && ToLeaf(if path[0] then t.l else t.r, path[1..])
  }

  // The black nodes on a path.
  function Blacks(t: Tree, path: seq<bool>): nat
    requires ToLeaf(t, path)
  {
    if t.Leaf? then 0 else Weight(t.c) + Blacks(if path[0] then t.l else t.r, path[1..])
  }

  predicate NoRedRed(t: Tree) {
    t.Br? ==> NoRedRed(t.l) && NoRedRed(t.r) && (t.c == Red ==> ColorOf(t.l) == Black && ColorOf(t.r) == Black)
  }

  ghost predicate EqualPaths(t: Tree) {
    forall p, q :: ToLeaf(t, p) && ToLeaf(t, q) ==> Blacks(t, p) == Blacks(t, q)
  }

  // The recursive condition is the one on paths: no red node has a red child,
  // and all paths meet equally many black nodes.
  lemma BalancedByPaths(t: Tree)
    ensures Balanced(t) <==> NoRedRed(t) && EqualPaths(t)
  {
    if Balanced(t) {
      forall p, q | ToLeaf(t, p) && ToLeaf(t, q)
        ensures Blacks(t, p) == Blacks(t, q)
      {
        PathsEqual(t, p);
        PathsEqual(t, q);
      }
      BalancedColors(t);
    }
    if NoRedRed(t) && EqualPaths(t) {
      PathsBalance(t);
    }
  }

  lemma {:induction false} PathsEqual(t: Tree, path: seq<bool>)
    requires Balanced(t) && ToLeaf(t, path)
    ensures Blacks(t, path) == BlackHeight(t)
  {
    if t.Leaf? {
    } else {
      PathsEqual(if path[0] then t.l else t.r, path[1..]);
    }
  }

  lemma {:induction false} BalancedColors(t: Tree)
    requires Balanced(t)
    ensures NoRedRed(t)
  {
    if t.Leaf? {
    } else {
      BalancedColors(t.l);
      BalancedColors(t.r);
    }
  }

  function Leftmost(t: Tree): (path: seq<bool>)
    ensures ToLeaf(t, path) && Blacks(t, path) == BlackHeight(t)
  {
    if t.Leaf? then [] else
      var p := [true] + Leftmost(t.l);
      assert p[1..] == Leftmost(t.l);
      p
  }

  lemma {:induction false} PathsBalance(t: Tree)
    requires NoRedRed(t) && EqualPaths(t)
    ensures Balanced(t)
  {
    hide EqualPaths;
    if t.Leaf? {
    } else {
      EqualBelow(t, true);
      EqualBelow(t, false);
      PathsBalance(t.l);
      PathsBalance(t.r);
      SameHeights(t);
    }
  }

  lemma EqualBelow(t: Tree, left: bool)
    requires t.Br? && EqualPaths(t)
    ensures EqualPaths(if left then t.l else t.r)
  {
    var u := if left then t.l else t.r;
    forall p, q | ToLeaf(u, p) && ToLeaf(u, q)
      ensures Blacks(u, p) == Blacks(u, q)
    {
      Below(t, left, p);
      Below(t, left, q);
    }
  }

  lemma SameHeights(t: Tree)
    requires t.Br? && EqualPaths(t)
    ensures BlackHeight(t.l) == BlackHeight(t.r)
  {
    Below(t, true, Leftmost(t.l));
    Below(t, false, Leftmost(t.r));
  }

  lemma Below(t: Tree, left: bool, path: seq<bool>)
    requires t.Br? && ToLeaf(if left then t.l else t.r, path)
    ensures ToLeaf(t, [left] + path)
    ensures Blacks(t, [left] + path) == Weight(t.c) + Blacks(if left then t.l else t.r, path)
  {
    assert ([left] + path)[1..] == path;
  }

  // ---------- links ----------

  // Going down a link and up again comes back; going up a link, the node is a child of its parent.
  ghost predicate LinksAgree(m: Mem, n: Node, top: Node?)
    requires n in m
  {
    && (m[n].left != null ==> m[n].left in m && m[m[n].left].parent == n)
    && (m[n].right != null ==> m[n].right in m && m[m[n].right].parent == n)
    && (m[n].left != null ==> m[n].left != m[n].right)
    && (if m[n].parent == null then n == top
        else m[n].parent in m && (m[m[n].parent].left == n || m[m[n].parent].right == n))
  }

  lemma {:induction false} StoredAgrees(m: Mem, root: Node?, ctx: Ctx, t: Tree, n: Node)
    requires Stored(m, root, Plug(ctx, t)) && n in Nodes(t)
    ensures n in m && LinksAgree(m, n, root)
    decreases t
  {
    var Br(l, x, c, r) := t;
    if n in Nodes(l) {
      StoredAgrees(m, root, InLeft(ctx, x, c, r), l, n);
    } else if n in Nodes(r) {
      StoredAgrees(m, root, InRight(ctx, l, x, c), r, n);
    } else {
      HereAgrees(m, root, ctx, l, x, c, r);
    }
  }

  lemma HereAgrees(m: Mem, root: Node?, ctx: Ctx, l: Tree, n: Node, c: Color, r: Tree)
    requires Stored(m, root, Plug(ctx, Br(l, n, c, r)))
    ensures n in m && LinksAgree(m, n, root)
  {
    Focus(m, root, ctx, Br(l, n, c, r));
    assert Laid(m, Br(l, n, c, r), Up(ctx));
    assert Laid(m, l, n) && Laid(m, r, n);
    assert l.Br? ==> m[l.n].parent == n;
    assert r.Br? ==> m[r.n].parent == n;
  }

  // In a valid tree the fields of every node agree with those of its neighbours, the root has no parent and is black,
  // and no red node has a red child.
  lemma FieldsAgree(h: Head, n: Node)
    requires h.Valid() && n in h.nodes
    ensures n.left != null ==> n.left in h.nodes && n.left.parent == n && n.left != n.right
    ensures n.right != null ==> n.right in h.nodes && n.right.parent == n
    ensures n.parent != null ==> n.parent in h.nodes && (n.parent.left == n || n.parent.right == n)
    ensures n.parent == null <==> n == h.root
    ensures n == h.root ==> n.color == Black
    ensures n.color == Red ==> (n.left == null || n.left.color == Black) && (n.right == null || n.right.color == Black)
  {
    var m := h.Snap();
    h.NodesAre(h.shape);
    StoredAgrees(m, h.root, Top, h.shape, n);
    assert forall x | x in m :: m[x] == Cell(x.left, x.right, x.parent, x.color);
    var ctx, l, c, r := Locate(Top, h.shape, n);
    h.See(ctx, l, n, c, r);
    h.SeeColors(ctx, l, n, c, r);
    PlugBalanced(ctx, Br(l, n, c, r));
  }

  // Whatever inserts and removes led to it, a valid tree of n nodes is at most 2*lg(n+1) high.
  lemma Shallow(h: Head)
    requires h.Valid()
    ensures Pow2(Height(h.shape)) <= (|h.order| + 1) * (|h.order| + 1)
  {
    HeightBound(h.shape);
  }
}
