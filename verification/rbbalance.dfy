/** The colour conditions of a red-black tree, what they give, and how the fix-up steps move through them. */
module RbBalance {
  import opened Arith
  import opened RbShape

  function ColorOf(t: Tree): Color {
    if t.Leaf? then Black else t.c
  }

  // Black nodes on the leftmost path.
  function BlackHeight(t: Tree): nat {
    if t.Leaf? then 0 else BlackHeight(t.l) + Weight(t.c)
  }

  function Weight(c: Color): nat {
    if c == Black then 1 else 0
  }

  // No red node has a red child, and all paths down from any node meet equally many black nodes.
  predicate Balanced(t: Tree) {
    match t
    case Leaf => true
    case Br(l, _, c, r) =>
      && Balanced(l) && Balanced(r) && BlackHeight(l) == BlackHeight(r)
      && (c == Red ==> ColorOf(l) == Black && ColorOf(r) == Black)
  }

  predicate RedBlack(t: Tree) {
    Balanced(t) && ColorOf(t) == Black
  }

  function UpColor(ctx: Ctx): Color {
    if ctx.Top? then Black else ctx.c
  }

  // ctx lacks only a balanced tree of black height k in the hole, one with a black root where UpColor is red.
  predicate BalancedCtx(ctx: Ctx, k: nat) {
    match ctx
    case Top => true
    case InLeft(up, _, c, r) =>
      && Balanced(r) && BlackHeight(r) == k && BalancedCtx(up, k + Weight(c))
      && (c == Red ==> ColorOf(r) == Black && !up.Top? && UpColor(up) == Black)
    case InRight(up, l, _, c) =>
      && Balanced(l) && BlackHeight(l) == k && BalancedCtx(up, k + Weight(c))
      && (c == Red ==> ColorOf(l) == Black && !up.Top? && UpColor(up) == Black)
  }

  predicate Fits(ctx: Ctx, t: Tree) {
    ctx.Top? || UpColor(ctx) == Red ==> ColorOf(t) == Black
  }

  lemma {:induction false} PlugBalanced(ctx: Ctx, t: Tree)
    ensures RedBlack(Plug(ctx, t)) <==> Balanced(t) && BalancedCtx(ctx, BlackHeight(t)) && Fits(ctx, t)
  {
    match ctx
    case Top =>
    case InLeft(up, n, c, r) => PlugBalanced(up, Br(t, n, c, r));
    case InRight(up, l, n, c) => PlugBalanced(up, Br(l, n, c, t));
  }

  // ---------- height ----------

  function Max(a: nat, b: nat): nat {
    if a < b then b else a
  }

  function Height(t: Tree): nat {
    if t.Leaf? then 0 else 1 + Max(Height(t.l), Height(t.r))
  }

  lemma {:induction false} HeightByBlack(t: Tree)
    requires Balanced(t)
    ensures Height(t) <= 2 * BlackHeight(t) + (if ColorOf(t) == Red then 1 else 0)
    ensures Pow2(BlackHeight(t)) <= |Inorder(t)| + 1
  {
    match t
    case Leaf =>
    case Br(l, _, _, r) =>
      HeightByBlack(l);
      HeightByBlack(r);
  }

  lemma {:induction false} Pow2Monotone(a: nat, b: nat)
    requires a <= b
    ensures Pow2(a) <= Pow2(b)
    decreases b
  {
    if a >= b {
    } else {
      Pow2Monotone(a, b - 1);
    }
  }

  lemma SquareMonotone(a: nat, b: nat)
    requires a <= b
    ensures a * a <= b * b
  {
    assert a * a <= a * b <= b * b;
  }

  // 2^height is at most (n+1)^2: the height is at most 2*lg(n+1).
  lemma HeightBound(t: Tree)
    requires RedBlack(t)
    ensures Pow2(Height(t)) <= (|Inorder(t)| + 1) * (|Inorder(t)| + 1)
  {
    HeightByBlack(t);
    var h, n := BlackHeight(t), |Inorder(t)| + 1;
    Pow2Monotone(Height(t), 2 * h);
    Pow2Add(h, h);
    SquareMonotone(Pow2(h), n);
  }

  // ---------- insertion ----------

  // During insertion: a balanced red tree whose parent may be red too, in an otherwise balanced tree.
  predicate RedInside(ctx: Ctx, t: Tree) {
    t.Br? && t.c == Red && Balanced(t) && BalancedCtx(ctx, BlackHeight(t))
  }

  // A red parent is not the root, and the node above it is black.
  lemma BlackAbove(ctx: Ctx, t: Tree)
    requires RedInside(ctx, t) && UpColor(ctx) == Red
    ensures !ctx.Top? && ctx.c == Red && !ctx.up.Top? && ctx.up.c == Black
  {
  }

  // Once the parent is not red, a black root is all that may be missing.
  lemma RootFits(ctx: Ctx, t: Tree)
    requires RedInside(ctx, t) && UpColor(ctx) == Black
    ensures Plug(ctx, t).Br? && RedBlack(Plug(ctx, t).(c := Black))
  {
    PlugBalanced(ctx, t);
    PlugBr(ctx, t);
  }

  // Red uncle u: two generations exchange their colours, and the grandparent g is the red node now.
  lemma Recolored(ctx: Ctx, t: Tree, p: Tree, u: Tree)
    requires RedInside(ctx, t) && UpColor(ctx) == Red && u.Br? && u.c == Red
    requires p == if ctx.InLeft? then Br(t, ctx.n, Red, ctx.r) else Br(ctx.l, ctx.n, Red, t)
    requires u == if ctx.up.InLeft? then ctx.up.r else ctx.up.l
    ensures ctx.up.InLeft? ==> RedInside(ctx.up.up, Br(p.(c := Black), ctx.up.n, Red, u.(c := Black)))
    ensures ctx.up.InRight? ==> RedInside(ctx.up.up, Br(u.(c := Black), ctx.up.n, Red, p.(c := Black)))
  {
    assert BalancedCtx(ctx.up, BlackHeight(t));
    assert Balanced(p.(c := Black)) && Balanced(u.(c := Black));
  }

  // Black uncle, t on the outer side: the parent p is lifted over the grandparent g.
  lemma LiftedOuter(ctx: Ctx, t: Tree)
    requires RedInside(ctx, t) && UpColor(ctx) == Red
    ensures ctx.InLeft? && ctx.up.InLeft? && ColorOf(ctx.up.r) == Black ==>
      RedInside(InLeft(ctx.up.up, ctx.n, Black, Br(ctx.r, ctx.up.n, Red, ctx.up.r)), t)
    ensures ctx.InRight? && ctx.up.InRight? && ColorOf(ctx.up.l) == Black ==>
      RedInside(InRight(ctx.up.up, Br(ctx.up.l, ctx.up.n, Red, ctx.l), ctx.n, Black), t)
  {
    assert BalancedCtx(ctx.up, BlackHeight(t));
  }

  // Black uncle, t on the inner side: t first changes places with its parent.
  lemma Straightened(ctx: Ctx, t: Tree)
    requires RedInside(ctx, t) && UpColor(ctx) == Red
    ensures ctx.InRight? && ctx.up.InLeft? ==>
      RedInside(InLeft(ctx.up, t.n, Red, t.r), Br(ctx.l, ctx.n, Red, t.l))
    ensures ctx.InLeft? && ctx.up.InRight? ==>
      RedInside(InRight(ctx.up, t.l, t.n, Red), Br(t.r, ctx.n, Red, ctx.r))
  {
    assert BalancedCtx(ctx.up, BlackHeight(t));
  }

  // ---------- removal ----------

  // During removal: every path through the hole is one black node short.
  predicate OneShort(ctx: Ctx, t: Tree) {
    match t
    case Leaf => BalancedCtx(ctx, 1)
    case Br(l, _, _, r) =>
      Balanced(l) && Balanced(r) && BlackHeight(l) == BlackHeight(r) && BalancedCtx(ctx, BlackHeight(t) + 1)
  }

  function Blacken(t: Tree): Tree {
    if t.Leaf? then t else t.(c := Black)
  }

  lemma BlackenRepairs(ctx: Ctx, t: Tree)
    requires OneShort(ctx, t) && (ctx.Top? || ColorOf(t) == Red)
    ensures RedBlack(Plug(ctx, Blacken(t)))
  {
    PlugBalanced(ctx, Blacken(t));
  }

  // Taking a node with at most one child out of a red-black tree.
  lemma SplicedOut(ctx: Ctx, l: Tree, n: Node, c: Color, r: Tree)
    requires RedBlack(Plug(ctx, Br(l, n, c, r))) && (l.Leaf? || r.Leaf?)
    ensures var x := if l.Leaf? then r else l;
            if c == Red then RedBlack(Plug(ctx, x)) else OneShort(ctx, x)
  {
    PlugBalanced(ctx, Br(l, n, c, r));
    PlugBalanced(ctx, if l.Leaf? then r else l);
  }

  // Which nodes hang in a context is no matter of balance.
  lemma {:induction false} RenamedBalanced(inner: Ctx, up: Ctx, l: Tree, c: Color, n: Node, n': Node, k: nat)
    ensures var a, b := Within(inner, InRight(up, l, n, c)), Within(inner, InRight(up, l, n', c));
            (BalancedCtx(a, k) <==> BalancedCtx(b, k)) && !a.Top? && !b.Top? && UpColor(a) == UpColor(b)
  {
    hide Balanced, BlackHeight, Weight;
    var x, y := InRight(up, l, n, c), InRight(up, l, n', c);
    match inner
    case Top =>
      assert Within(inner, x) == x && Within(inner, y) == y;
    case InLeft(u, m, c', r) =>
      RenamedBalanced(u, up, l, c, n, n', k + Weight(c'));
      assert Within(inner, x) == InLeft(Within(u, x), m, c', r) && Within(inner, y) == InLeft(Within(u, y), m, c', r);
    case InRight(u, l', m, c') =>
      RenamedBalanced(u, up, l, c, n, n', k + Weight(c'));
      assert Within(inner, x) == InRight(Within(u, x), l', m, c') &&
        Within(inner, y) == InRight(Within(u, y), l', m, c');
  }

  // The sibling w of a hole that is one short is there, and what it is like.
  lemma SiblingOf(ctx: Ctx, t: Tree)
    requires OneShort(ctx, t) && ColorOf(t) == Black && !ctx.Top?
    ensures var w := if ctx.InLeft? then ctx.r else ctx.l;
      && w.Br? && Balanced(t) && Balanced(w) && BlackHeight(w) == BlackHeight(t) + 1
      && (w.c == Red ==> w.l.Br? && w.r.Br? && w.l.c == Black && w.r.c == Black && ctx.c == Black)
  {
  }

  // A red sibling w makes room for its black inner child: the hole's parent is red now.
  lemma RedSibling(ctx: Ctx, t: Tree)
    requires OneShort(ctx, t) && ColorOf(t) == Black && !ctx.Top?
    ensures ctx.InLeft? && ColorOf(ctx.r) == Red ==>
      OneShort(InLeft(InLeft(ctx.up, ctx.r.n, Black, ctx.r.r), ctx.n, Red, ctx.r.l), t)
    ensures ctx.InRight? && ColorOf(ctx.l) == Red ==>
      OneShort(InRight(InRight(ctx.up, ctx.l.l, ctx.l.n, Black), ctx.l.r, ctx.n, Red), t)
  {
    SiblingOf(ctx, t);
  }

  // A black sibling with black children turns red: the parent is one short instead.
  lemma PassUp(ctx: Ctx, t: Tree)
    requires OneShort(ctx, t) && ColorOf(t) == Black && !ctx.Top?
    ensures ctx.InLeft? && ColorOf(ctx.r) == Black && ColorOf(ctx.r.l) == Black && ColorOf(ctx.r.r) == Black ==>
      OneShort(ctx.up, Br(t, ctx.n, ctx.c, ctx.r.(c := Red)))
    ensures ctx.InRight? && ColorOf(ctx.l) == Black && ColorOf(ctx.l.l) == Black && ColorOf(ctx.l.r) == Black ==>
      OneShort(ctx.up, Br(ctx.l.(c := Red), ctx.n, ctx.c, t))
  {
    SiblingOf(ctx, t);
  }

  // Only the inner child of the sibling is red: it is turned to the outer side.
  lemma NearRed(ctx: Ctx, t: Tree)
    requires OneShort(ctx, t) && ColorOf(t) == Black && !ctx.Top?
    ensures ctx.InLeft? && ColorOf(ctx.r) == Black && ColorOf(ctx.r.l) == Red && ColorOf(ctx.r.r) == Black ==>
      var w := ctx.r;
      OneShort(InLeft(ctx.up, ctx.n, ctx.c, Br(w.l.l, w.l.n, Black, Br(w.l.r, w.n, Red, w.r))), t)
    ensures ctx.InRight? && ColorOf(ctx.l) == Black && ColorOf(ctx.l.r) == Red && ColorOf(ctx.l.l) == Black ==>
      var w := ctx.l;
      OneShort(InRight(ctx.up, Br(Br(w.l, w.n, Red, w.r.l), w.r.n, Black, w.r.r), ctx.n, ctx.c), t)
  {
    SiblingOf(ctx, t);
  }

  // The outer child of the sibling is red: one rotation makes up for the missing node.

  lemma FarRedLeft(ctx: Ctx, t: Tree)
    requires OneShort(ctx, t) && ColorOf(t) == Black && ctx.InLeft? && ColorOf(ctx.r) == Black
    requires ctx.r.Br? && ColorOf(ctx.r.r) == Red
    ensures RedBlack(Plug(ctx.up, Br(Br(t, ctx.n, Black, ctx.r.l), ctx.r.n, ctx.c, ctx.r.r.(c := Black))))
  {
    SiblingOf(ctx, t);
    var w := ctx.r;
    var a, b := Br(t, ctx.n, Black, w.l), w.r.(c := Black);
    assert Balanced(a) && Balanced(b) && BlackHeight(a) == BlackHeight(b);
    PlugBalanced(ctx.up, Br(a, w.n, ctx.c, b));
  }

  lemma FarRedRight(ctx: Ctx, t: Tree)
    requires OneShort(ctx, t) && ColorOf(t) == Black && ctx.InRight? && ColorOf(ctx.l) == Black
    requires ctx.l.Br? && ColorOf(ctx.l.l) == Red
    ensures RedBlack(Plug(ctx.up, Br(ctx.l.l.(c := Black), ctx.l.n, ctx.c, Br(ctx.l.r, ctx.n, Black, t))))
  {
    SiblingOf(ctx, t);
    var w := ctx.l;
    var a, b := w.l.(c := Black), Br(w.r, ctx.n, Black, t);
    assert Balanced(a) && Balanced(b) && BlackHeight(a) == BlackHeight(b);
    PlugBalanced(ctx.up, Br(a, w.n, ctx.c, b));
  }
}
