/** Binary trees with parent links as they lie in memory, independent of any algorithm.

    A Tree is the shape of a tree; a Ctx is the shape of everything around one subtree (a hole),
    innermost frame first.  Laid says that a memory holds a shape, link by link.
 */
module RbShape {
  import opened Order
  import opened Seqs

  datatype Color = Black | Red

  // struct type with its RB_ENTRY
  class Node {
    const key: Key
    var left: Node?
    var right: Node?
    var parent: Node?
    var color: Color

    constructor (k: Key)
      ensures key == k
    {
      key := k;
      left, right, parent, color := null, null, null, Black;
    }
  }

  // One node's entry, and a snapshot of the entries of a set of nodes.
  datatype Cell = Cell(left: Node?, right: Node?, parent: Node?, color: Color)
  type Mem = map<Node, Cell>

  datatype Tree = Leaf | Br(l: Tree, n: Node, c: Color, r: Tree)
  datatype Ctx =
    | Top
    | InLeft(up: Ctx, n: Node, c: Color, r: Tree)
    | InRight(up: Ctx, l: Tree, n: Node, c: Color)

  // The tree obtained by putting t into the hole.
  function Plug(ctx: Ctx, t: Tree): Tree {
    match ctx
    case Top => t
    case InLeft(up, n, c, r) => Plug(up, Br(t, n, c, r))
    case InRight(up, l, n, c) => Plug(up, Br(l, n, c, t))
  }

  lemma {:induction false} PlugBr(ctx: Ctx, t: Tree)
    requires t.Br?
    ensures Plug(ctx, t).Br?
  {
    match ctx
    case Top =>
    case InLeft(up, n, c, r) => PlugBr(up, Br(t, n, c, r));
    case InRight(up, l, n, c) => PlugBr(up, Br(l, n, c, t));
  }

  // A context inside another one.
  function Within(inner: Ctx, outer: Ctx): Ctx {
    match inner
    case Top => outer
    case InLeft(up, n, c, r) => InLeft(Within(up, outer), n, c, r)
    case InRight(up, l, n, c) => InRight(Within(up, outer), l, n, c)
  }

  lemma {:induction false} PlugWithin(inner: Ctx, outer: Ctx, t: Tree)
    ensures Plug(Within(inner, outer), t) == Plug(outer, Plug(inner, t))
  {
    match inner
    case Top =>
    case InLeft(up, n, c, r) => PlugWithin(up, outer, Br(t, n, c, r));
    case InRight(up, l, n, c) => PlugWithin(up, outer, Br(l, n, c, t));
  }

  function RootOf(t: Tree): (x: Node?)
    ensures x != null ==> x in Nodes(t)
  {
    if t.Leaf? then null else t.n
  }

  function Up(ctx: Ctx): (x: Node?)
    ensures x != null ==> x in CtxNodes(ctx)
  {
    if ctx.Top? then null else ctx.n
  }

  function Nodes(t: Tree): set<Node> {
    match t
    case Leaf => {}
    case Br(l, n, _, r) => Nodes(l) + {n} + Nodes(r)
  }

  function CtxNodes(ctx: Ctx): set<Node> {
    match ctx
    case Top => {}
    case InLeft(up, n, _, r) => CtxNodes(up) + {n} + Nodes(r)
    case InRight(up, l, n, _) => CtxNodes(up) + {n} + Nodes(l)
  }

  function Inorder(t: Tree): seq<Node> {
    match t
    case Leaf => []
    case Br(l, n, _, r) => Inorder(l) + [n] + Inorder(r)
  }

  // What precedes and what follows the hole in order.
  function Pre(ctx: Ctx): seq<Node> {
    match ctx
    case Top => []
    case InLeft(up, _, _, _) => Pre(up)
    case InRight(up, l, n, _) => Pre(up) + Inorder(l) + [n]
  }

  function Post(ctx: Ctx): seq<Node> {
    match ctx
    case Top => []
    case InLeft(up, n, _, r) => [n] + Inorder(r) + Post(up)
    case InRight(up, _, _, _) => Post(up)
  }

  // No node occurs twice.
  predicate Distinct(t: Tree) {
    match t
    case Leaf => true
    case Br(l, n, _, r) =>
      Distinct(l) && Distinct(r) && n !in Nodes(l) && n !in Nodes(r) && Nodes(l) !! Nodes(r)
  }

  predicate DistinctCtx(ctx: Ctx) {
    match ctx
    case Top => true
    case InLeft(up, n, _, r) =>
      DistinctCtx(up) && Distinct(r) && n !in Nodes(r) && n !in CtxNodes(up) && Nodes(r) !! CtxNodes(up)
    case InRight(up, l, n, _) =>
      DistinctCtx(up) && Distinct(l) && n !in Nodes(l) && n !in CtxNodes(up) && Nodes(l) !! CtxNodes(up)
  }

  predicate Apart(ctx: Ctx, t: Tree) {
    DistinctCtx(ctx) && Distinct(t) && CtxNodes(ctx) !! Nodes(t)
  }

  // The memory holds t below the parent p.
  predicate Laid(m: Mem, t: Tree, p: Node?) {
    match t
    case Leaf => true
    case Br(l, n, c, r) =>
      n in m && m[n] == Cell(RootOf(l), RootOf(r), p, c) && Laid(m, l, n) && Laid(m, r, n)
  }

  // The memory holds ctx around the node hole.
  predicate LaidCtx(m: Mem, ctx: Ctx, hole: Node?) {
    match ctx
    case Top => true
    case InLeft(up, n, c, r) =>
      n in m && m[n] == Cell(hole, RootOf(r), Up(up), c) && Laid(m, r, n) && LaidCtx(m, up, n)
    case InRight(up, l, n, c) =>
      n in m && m[n] == Cell(RootOf(l), hole, Up(up), c) && Laid(m, l, n) && LaidCtx(m, up, n)
  }

  // The memory holds exactly the tree t, and root points at it.
  predicate Stored(m: Mem, root: Node?, t: Tree) {
    m.Keys == Nodes(t) && Distinct(t) && Laid(m, t, null) && root == RootOf(t)
  }

  function RootAt(ctx: Ctx, hole: Node?): Node? {
    if ctx.Top? then hole else RootAt(ctx.up, ctx.n)
  }

  // The same said around a hole.
  predicate StoredAt(m: Mem, root: Node?, ctx: Ctx, t: Tree) {
    && m.Keys == CtxNodes(ctx) + Nodes(t) && Apart(ctx, t)
    && Laid(m, t, Up(ctx)) && LaidCtx(m, ctx, RootOf(t)) && root == RootAt(ctx, RootOf(t))
  }

  lemma {:induction false} Focus(m: Mem, root: Node?, ctx: Ctx, t: Tree)
    ensures Stored(m, root, Plug(ctx, t)) <==> StoredAt(m, root, ctx, t)
    ensures Nodes(Plug(ctx, t)) == CtxNodes(ctx) + Nodes(t)
  {
    match ctx
    case Top =>
    case InLeft(up, n, c, r) =>
      hide Stored, StoredAt;
      Focus(m, root, up, Br(t, n, c, r));
      StepLeft(m, root, up, n, c, r, t);
    case InRight(up, l, n, c) =>
      hide Stored, StoredAt;
      Focus(m, root, up, Br(l, n, c, t));
      StepRight(m, root, up, l, n, c, t);
  }

  lemma StepLeft(m: Mem, root: Node?, up: Ctx, n: Node, c: Color, r: Tree, t: Tree)
    ensures StoredAt(m, root, up, Br(t, n, c, r)) <==> StoredAt(m, root, InLeft(up, n, c, r), t)
  {
  }

  lemma StepRight(m: Mem, root: Node?, up: Ctx, l: Tree, n: Node, c: Color, t: Tree)
    ensures StoredAt(m, root, up, Br(l, n, c, t)) <==> StoredAt(m, root, InRight(up, l, n, c), t)
  {
  }

  lemma {:induction false} InorderPlug(ctx: Ctx, t: Tree)
    ensures Inorder(Plug(ctx, t)) == Pre(ctx) + Inorder(t) + Post(ctx)
  {
    hide Inorder;
    match ctx
    case Top =>
    case InLeft(up, n, c, r) =>
      InorderPlug(up, Br(t, n, c, r));
      FromLeft(up, n, c, r, t);
    case InRight(up, l, n, c) =>
      InorderPlug(up, Br(l, n, c, t));
      FromRight(up, l, n, c, t);
  }

  lemma AroundRight(a: seq<Node>, b: seq<Node>, c: seq<Node>, d: seq<Node>, e: seq<Node>)
    ensures a + (b + c + d) + e == a + b + (c + d + e)
  {
  }

  lemma AroundLeft(a: seq<Node>, b: seq<Node>, c: seq<Node>, d: seq<Node>, e: seq<Node>)
    ensures a + (b + c + d) + e == (a + b + c) + d + e
  {
  }

  lemma FromLeft(up: Ctx, n: Node, c: Color, r: Tree, t: Tree)
    ensures var ctx := InLeft(up, n, c, r);
            Pre(up) + Inorder(Br(t, n, c, r)) + Post(up) == Pre(ctx) + Inorder(t) + Post(ctx)
  {
    AroundRight(Pre(up), Inorder(t), [n], Inorder(r), Post(up));
  }

  lemma FromRight(up: Ctx, l: Tree, n: Node, c: Color, t: Tree)
    ensures var ctx := InRight(up, l, n, c);
            Pre(up) + Inorder(Br(l, n, c, t)) + Post(up) == Pre(ctx) + Inorder(t) + Post(ctx)
  {
    AroundLeft(Pre(up), Inorder(l), [n], Inorder(t), Post(up));
  }

  lemma InorderBr(t: Tree)
    requires t.Br?
    ensures Inorder(t) == Inorder(t.l) + [t.n] + Inorder(t.r)
  {
  }

  // The order seen from a node: what is before it, the node, what is after it.
  lemma InorderAround(ctx: Ctx, t: Tree)
    requires t.Br?
    ensures Inorder(Plug(ctx, t)) == (Pre(ctx) + Inorder(t.l)) + [t.n] + (Inorder(t.r) + Post(ctx))
    ensures Post(InLeft(ctx, t.n, t.c, t.r)) == [t.n] + (Inorder(t.r) + Post(ctx))
    ensures Pre(InRight(ctx, t.l, t.n, t.c)) == (Pre(ctx) + Inorder(t.l)) + [t.n]
  {
    InorderBr(t);
    InorderPlug(ctx, t);
    Around(Pre(ctx), Inorder(t.l), [t.n], Inorder(t.r), Post(ctx), Inorder(t));
    Sides(ctx, t);
  }

  lemma Around(a: seq<Node>, b: seq<Node>, c: seq<Node>, d: seq<Node>, e: seq<Node>, t: seq<Node>)
    requires t == b + c + d
    ensures a + t + e == (a + b) + c + (d + e)
  {
    Regroup(a, b, c, d, e);
  }

  lemma Sides(ctx: Ctx, t: Tree)
    requires t.Br?
    ensures Post(InLeft(ctx, t.n, t.c, t.r)) == [t.n] + (Inorder(t.r) + Post(ctx))
    ensures Pre(InRight(ctx, t.l, t.n, t.c)) == (Pre(ctx) + Inorder(t.l)) + [t.n]
  {
    hide Inorder;
    var c, d := Inorder(t.r), Post(ctx);
    assert [t.n] + c + d == [t.n] + (c + d);
  }

  // A context that only ever goes left hides nothing before the hole.
  predicate LeftSpine(ctx: Ctx) {
    match ctx
    case Top => true
    case InLeft(up, _, _, _) => LeftSpine(up)
    case InRight(_, _, _, _) => false
  }

  lemma {:induction false} PreWithin(inner: Ctx, outer: Ctx)
    requires LeftSpine(inner)
    ensures Pre(Within(inner, outer)) == Pre(outer)
  {
    if inner.InLeft? {
      PreWithin(inner.up, outer);
    }
  }

  // The order without the node at the given place.
  function Without<T>(s: seq<T>, i: nat): seq<T>
    requires i < |s|
  {
    s[..i] + s[i + 1..]
  }

  lemma SplicedOrder(ctx: Ctx, l: Tree, n: Node, c: Color, r: Tree)
    requires l.Leaf? || r.Leaf?
    ensures var o, i := Inorder(Plug(ctx, Br(l, n, c, r))), |Pre(ctx)| + |Inorder(l)|;
            i < |o| && o[i] == n && Inorder(Plug(ctx, if l.Leaf? then r else l)) == Without(o, i)
  {
    InorderAround(ctx, Br(l, n, c, r));
    InorderPlug(ctx, if l.Leaf? then r else l);
    assert Inorder(Leaf) == [];
    hide Inorder, Plug, Pre, Post;
    if l.Leaf? {
      Joined(Pre(ctx), [], n, Inorder(r), Post(ctx));
    } else {
      Joined(Pre(ctx), Inorder(l), n, [], Post(ctx));
    }
  }

  lemma Joined(a: seq<Node>, b: seq<Node>, n: Node, c: seq<Node>, d: seq<Node>)
    requires b == [] || c == []
    ensures Without((a + b) + [n] + (c + d), |a| + |b|) == a + (if b == [] then c else b) + d
    ensures ((a + b) + [n] + (c + d))[|a| + |b|] == n
  {
  }

  lemma ReplacedOrder(ctx: Ctx, l: Tree, o: Node, c: Color, r: Tree, n: Node)
    ensures var s, i := Inorder(Plug(ctx, Br(l, o, c, r))), |Pre(ctx)| + |Inorder(l)|;
            i < |s| && s[i] == o && Inorder(Plug(ctx, Br(l, n, c, r))) == s[i := n]
  {
    InorderAround(ctx, Br(l, o, c, r));
    InorderAround(ctx, Br(l, n, c, r));
  }

  // Taking out the follower of place i and putting it into place i takes out what was at place i.
  lemma WithoutFollower(s: seq<Node>, i: nat, n: Node, next: Node)
    requires i + 1 < |s| && s[i + 1] == next && Without(s, i + 1)[i] == n
    ensures s[i] == n && Without(s, i + 1)[i := next] == Without(s, i)
  {
  }

  // Standing on a node of a tree.
  lemma {:induction false} Locate(up: Ctx, t: Tree, n: Node) returns (ctx: Ctx, l: Tree, c: Color, r: Tree)
    requires n in Nodes(t)
    ensures Plug(ctx, Br(l, n, c, r)) == Plug(up, t)
    decreases t
  {
    if t.n == n {
      ctx, l, c, r := up, t.l, t.c, t.r;
    } else if n in Nodes(t.l) {
      ctx, l, c, r := Locate(InLeft(up, t.n, t.c, t.r), t.l, n);
    } else {
      ctx, l, c, r := Locate(InRight(up, t.l, t.n, t.c), t.r, n);
    }
  }

  lemma LeafOrder(ctx: Ctx, n: Node, c: Color)
    ensures Inorder(Plug(ctx, Br(Leaf, n, c, Leaf))) == Pre(ctx) + [n] + Post(ctx)
  {
    InorderPlug(ctx, Br(Leaf, n, c, Leaf));
  }

  lemma SameOrder(ctx: Ctx, t: Tree, t': Tree)
    requires Inorder(t) == Inorder(t')
    ensures Inorder(Plug(ctx, t)) == Inorder(Plug(ctx, t'))
  {
    InorderPlug(ctx, t);
    InorderPlug(ctx, t');
  }

  // ---------- memories that agree ----------

  predicate Agree(m: Mem, m': Mem, s: set<Node>) {
    forall n | n in s && n in m :: n in m' && m'[n] == m[n]
  }

  lemma {:induction false} FrameTree(m: Mem, m': Mem, t: Tree, p: Node?)
    requires Laid(m, t, p) && Agree(m, m', Nodes(t))
    ensures Laid(m', t, p)
  {
    match t
    case Leaf =>
    case Br(l, n, _, r) =>
      FrameTree(m, m', l, n);
      FrameTree(m, m', r, n);
  }

  lemma {:induction false} FrameCtx(m: Mem, m': Mem, ctx: Ctx, hole: Node?)
    requires LaidCtx(m, ctx, hole) && Agree(m, m', CtxNodes(ctx))
    ensures LaidCtx(m', ctx, hole)
  {
    match ctx
    case Top =>
    case InLeft(up, n, _, r) =>
      FrameTree(m, m', r, n);
      FrameCtx(m, m', up, n);
    case InRight(up, l, n, _) =>
      FrameTree(m, m', l, n);
      FrameCtx(m, m', up, n);
  }

  function Opt(x: Node?): set<Node> {
    if x == null then {} else {x}
  }

  // x, if there is one, has got the parent p and is otherwise as before.
  predicate Moved(m: Mem, m': Mem, x: Node?, p: Node?) {
    x == null || (x in m && x in m' && m'[x] == m[x].(parent := p))
  }

  // p's link to was, if there is a p, now leads to nw.
  predicate Linked(m: Mem, m': Mem, p: Node?, was: Node?, nw: Node?) {
    p == null || (p in m && p in m' &&
                  m'[p] == if m[p].left == was then m[p].(left := nw) else m[p].(right := nw))
  }

  lemma MovedTree(m: Mem, m': Mem, t: Tree, was: Node?, p: Node?)
    requires Distinct(t) && Laid(m, t, was)
    requires Agree(m, m', Nodes(t) - Opt(RootOf(t))) && Moved(m, m', RootOf(t), p)
    ensures Laid(m', t, p)
  {
    match t
    case Leaf =>
    case Br(l, n, _, r) =>
      FrameTree(m, m', l, n);
      FrameTree(m, m', r, n);
  }

  lemma LinkedCtx(m: Mem, m': Mem, ctx: Ctx, was: Node, nw: Node?)
    requires DistinctCtx(ctx) && LaidCtx(m, ctx, was) && was !in CtxNodes(ctx)
    requires Agree(m, m', CtxNodes(ctx) - Opt(Up(ctx))) && Linked(m, m', Up(ctx), was, nw)
    ensures LaidCtx(m', ctx, nw)
  {
    match ctx
    case Top =>
    case InLeft(up, n, _, r) =>
      FrameTree(m, m', r, n);
      FrameCtx(m, m', up, n);
    case InRight(up, l, n, _) =>
      assert RootOf(l) != was;
      FrameTree(m, m', l, n);
      FrameCtx(m, m', up, n);
  }

  lemma RootAtTop(ctx: Ctx, x: Node?, y: Node?)
    ensures !ctx.Top? ==> RootAt(ctx, x) == RootAt(ctx, y)
  {
  }

  // ---------- what a step of an algorithm reads and changes ----------

  predicate Known(m: Mem, x: Node?) {
    x == null || x in m
  }

  predicate SameBut(m: Mem, m': Mem, s: set<Node>) {
    m'.Keys == m.Keys && forall n | n in m && n !in s :: m'[n] == m[n]
  }

  // What one sees standing on a node of a stored tree.
  lemma Look(m: Mem, root: Node?, ctx: Ctx, l: Tree, n: Node, c: Color, r: Tree)
    requires Stored(m, root, Plug(ctx, Br(l, n, c, r)))
    ensures n in m && m[n] == Cell(RootOf(l), RootOf(r), Up(ctx), c)
    ensures Known(m, RootOf(l)) && Known(m, RootOf(r)) && Known(m, Up(ctx))
    ensures n !in Nodes(l) && n !in Nodes(r) && n !in CtxNodes(ctx)
    ensures Nodes(l) !! Nodes(r) && Nodes(l) !! CtxNodes(ctx) && Nodes(r) !! CtxNodes(ctx)
    ensures Distinct(l) && Distinct(r) && DistinctCtx(ctx)
    ensures ctx.Top? <==> root == n
    ensures Nodes(Plug(ctx, Br(l, n, c, r))) == CtxNodes(ctx) + Nodes(l) + {n} + Nodes(r)
  {
    Focus(m, root, ctx, Br(l, n, c, r));
    RootAtIn(ctx, n);
  }

  lemma {:induction false} RootAtIn(ctx: Ctx, hole: Node)
    ensures !ctx.Top? ==> RootAt(ctx, hole) != null && RootAt(ctx, hole) in CtxNodes(ctx)
  {
    if ctx.Top? {
    } else {
      RootAtIn(ctx.up, ctx.n);
    }
  }

  // The link around the hole leads to n.
  predicate Hung(m: Mem, m': Mem, ctx: Ctx, n: Node) {
    match ctx
    case Top => true
    case InLeft(_, p, _, _) => p in m && p in m' && m'[p] == m[p].(left := n)
    case InRight(_, _, p, _) => p in m && p in m' && m'[p] == m[p].(right := n)
  }

  lemma HungCtx(m: Mem, m': Mem, ctx: Ctx, n: Node)
    requires DistinctCtx(ctx) && LaidCtx(m, ctx, null)
    requires Agree(m, m', CtxNodes(ctx) - Opt(Up(ctx)))
    requires Hung(m, m', ctx, n)
    ensures LaidCtx(m', ctx, n)
  {
    match ctx
    case Top =>
    case InLeft(up, p, _, r) =>
      FrameTree(m, m', r, p);
      FrameCtx(m, m', up, p);
    case InRight(up, l, p, _) =>
      FrameTree(m, m', l, p);
      FrameCtx(m, m', up, p);
  }

  // Hanging the new node n into an empty place.
  lemma LeafStored(m: Mem, m': Mem, root: Node?, root': Node?, ctx: Ctx, n: Node, c: Color)
    requires Stored(m, root, Plug(ctx, Leaf)) && n !in m
    requires m'.Keys == m.Keys + {n} && m'[n] == Cell(null, null, Up(ctx), c)
    requires Agree(m, m', m.Keys - Opt(Up(ctx)))
    requires Hung(m, m', ctx, n) && root' == if ctx.Top? then n else root
    ensures Stored(m', root', Plug(ctx, Br(Leaf, n, c, Leaf)))
  {
    var t := Br(Leaf, n, c, Leaf);
    Focus(m, root, ctx, Leaf);
    HungCtx(m, m', ctx, n);
    RootAtTop(ctx, null, n);
    assert Nodes(t) == {n} && Distinct(t) && Laid(m', t, Up(ctx));
    Focus(m', root', ctx, t);
  }

  // Painting a node.
  lemma PaintStored(m: Mem, m': Mem, root: Node?, ctx: Ctx, l: Tree, n: Node, c: Color, r: Tree, c': Color)
    requires Stored(m, root, Plug(ctx, Br(l, n, c, r)))
    requires n in m && m' == m[n := m[n].(color := c')]
    ensures Stored(m', root, Plug(ctx, Br(l, n, c', r)))
  {
    hide Stored, Plug, LaidCtx, Distinct, Nodes;
    var t, t' := Br(l, n, c, r), Br(l, n, c', r);
    DistinctBr(l, n, c, r);
    DistinctBr(l, n, c', r);
    Focus(m, root, ctx, t);
    Look(m, root, ctx, l, n, c, r);
    FrameTree(m, m', l, n);
    FrameTree(m, m', r, n);
    FrameCtx(m, m', ctx, n);
    Focus(m', root, ctx, t');
  }

  // ---------- taking nodes out ----------

  // n is gone: the link that led to n leads to x, and x, if there is an x, points back up.
  predicate Spliced(m: Mem, m': Mem, n: Node, x: Node?, p: Node?) {
    && m'.Keys == m.Keys - {n}
    && (forall k | k in m' && k !in Opt(x) + Opt(p) :: m'[k] == m[k])
    && Moved(m, m', x, p) && Linked(m, m', p, n, x)
  }

  predicate Spliceable(m: Mem, n: Node, x: Node?, p: Node?) {
    n in m && Known(m, x) && Known(m, p) && n != x && n != p && (x != null ==> x != p)
  }

  lemma SpliceableAt(m: Mem, root: Node?, ctx: Ctx, l: Tree, n: Node, c: Color, r: Tree)
    requires Stored(m, root, Plug(ctx, Br(l, n, c, r)))
    ensures Spliceable(m, n, RootOf(l), Up(ctx)) && Spliceable(m, n, RootOf(r), Up(ctx))
  {
    Look(m, root, ctx, l, n, c, r);
  }

  lemma SplicedStored(m: Mem, m': Mem, root: Node?, root': Node?, ctx: Ctx, l: Tree, n: Node, c: Color, r: Tree)
    requires Stored(m, root, Plug(ctx, Br(l, n, c, r))) && (l.Leaf? || r.Leaf?)
    requires var x := if l.Leaf? then r else l;
             Spliced(m, m', n, RootOf(x), Up(ctx)) && root' == if ctx.Top? then RootOf(x) else root
    ensures Stored(m', root', Plug(ctx, if l.Leaf? then r else l))
  {
    hide Stored, Plug, LaidCtx;
    var x := if l.Leaf? then r else l;
    Focus(m, root, ctx, Br(l, n, c, r));
    Look(m, root, ctx, l, n, c, r);
    assert Laid(m, x, n);
    MovedTree(m, m', x, n, Up(ctx));
    LinkedCtx(m, m', ctx, n, RootOf(x));
    RootAtTop(ctx, n, RootOf(x));
    Focus(m', root', ctx, x);
  }

  // n, a new node, has taken over the entry of o and the place of o among its neighbours.
  predicate Replaced(m: Mem, m': Mem, o: Node, n: Node)
    requires o in m
  {
    && m'.Keys == m.Keys - {o} + {n} && m'[n] == m[o]
    && (forall k | k in m' && k != n && k !in Opt(m[o].left) + Opt(m[o].right) + Opt(m[o].parent) :: m'[k] == m[k])
    && Moved(m, m', m[o].left, n) && Moved(m, m', m[o].right, n) && Linked(m, m', m[o].parent, o, n)
  }

  predicate Replaceable(m: Mem, o: Node) {
    && o in m && m[o].left != null && m[o].left in m && Known(m, m[o].right) && Known(m, m[o].parent)
    && o != m[o].left && o != m[o].right && o != m[o].parent
    && m[o].left != m[o].right && m[o].left != m[o].parent && (m[o].right != null ==> m[o].right != m[o].parent)
  }

  lemma ReplaceableAt(m: Mem, root: Node?, ctx: Ctx, l: Tree, o: Node, c: Color, r: Tree)
    requires Stored(m, root, Plug(ctx, Br(l, o, c, r))) && l.Br?
    ensures Replaceable(m, o) && m[o].parent == Up(ctx)
  {
    Look(m, root, ctx, l, o, c, r);
  }

  lemma ReplacedTree(m: Mem, m': Mem, p: Node?, l: Tree, o: Node, c: Color, r: Tree, n: Node)
    requires var t := Br(l, o, c, r); Distinct(t) && Laid(m, t, p) && p !in Nodes(t)
    requires n !in m && o in m && Replaced(m, m', o, n)
    ensures Laid(m', Br(l, n, c, r), p)
  {
    MovedTree(m, m', l, o, n);
    MovedTree(m, m', r, o, n);
  }

  lemma ReplacedOutside(m: Mem, m': Mem, ctx: Ctx, l: Tree, o: Node, c: Color, r: Tree, n: Node)
    requires n !in m && o in m && m[o] == Cell(RootOf(l), RootOf(r), Up(ctx), c) && Replaced(m, m', o, n)
    requires CtxNodes(ctx) <= m.Keys && o !in CtxNodes(ctx) && Nodes(l) !! CtxNodes(ctx) && Nodes(r) !! CtxNodes(ctx)
    ensures m'.Keys == m.Keys - {o} + {n}
    ensures Agree(m, m', CtxNodes(ctx) - Opt(Up(ctx))) && Linked(m, m', Up(ctx), o, n)
  {
  }

  lemma ReplacedStored(m: Mem, m': Mem, root: Node?, root': Node?, ctx: Ctx, l: Tree, o: Node, c: Color, r: Tree,
        n: Node)
    requires Stored(m, root, Plug(ctx, Br(l, o, c, r))) && n !in m && o in m
    requires Replaced(m, m', o, n) && root' == if ctx.Top? then n else root
    ensures Stored(m', root', Plug(ctx, Br(l, n, c, r)))
  {
    hide Laid, LaidCtx, Distinct, Replaced, Agree, Linked;
    Focus(m, root, ctx, Br(l, o, c, r));
    Look(m, root, ctx, l, o, c, r);
    ReplacedTree(m, m', Up(ctx), l, o, c, r, n);
    ReplacedOutside(m, m', ctx, l, o, c, r, n);
    LinkedCtx(m, m', ctx, o, n);
    RootAtTop(ctx, o, n);
    DistinctBr(l, n, c, r);
    Focus(m', root', ctx, Br(l, n, c, r));
  }

  lemma DistinctBr(l: Tree, n: Node, c: Color, r: Tree)
    ensures Nodes(Br(l, n, c, r)) == Nodes(l) + {n} + Nodes(r)
    ensures Distinct(Br(l, n, c, r)) <==>
            Distinct(l) && Distinct(r) && n !in Nodes(l) && n !in Nodes(r) && Nodes(l) !! Nodes(r)
  {
  }

  // ---------- rotations ----------

  // The links a left rotation at e follows lead somewhere, and to different nodes.
  predicate RotatableLeft(m: Mem, e: Node) {
    && e in m && m[e].right != null && m[e].right in m
    && (var f, p := m[e].right, m[e].parent;
        var b := m[f].left;
        Known(m, b) && Known(m, p) && e != f && p != e && p != f && (b != null ==> b != e && b != f && b != p))
  }

  predicate RotatedLeft(m: Mem, m': Mem, e: Node)
    requires RotatableLeft(m, e)
  {
    var f, p := m[e].right, m[e].parent;
    var b := m[f].left;
    && SameBut(m, m', {e, f} + Opt(b) + Opt(p))
    && m'[e] == m[e].(right := b, parent := f) && m'[f] == m[f].(left := e, parent := p)
    && Moved(m, m', b, e) && Linked(m, m', p, e, f)
  }

  predicate RotatableRight(m: Mem, e: Node) {
    && e in m && m[e].left != null && m[e].left in m
    && (var f, p := m[e].left, m[e].parent;
        var b := m[f].right;
        Known(m, b) && Known(m, p) && e != f && p != e && p != f && (b != null ==> b != e && b != f && b != p))
  }

  predicate RotatedRight(m: Mem, m': Mem, e: Node)
    requires RotatableRight(m, e)
  {
    var f, p := m[e].left, m[e].parent;
    var b := m[f].right;
    && SameBut(m, m', {e, f} + Opt(b) + Opt(p))
    && m'[e] == m[e].(left := b, parent := f) && m'[f] == m[f].(right := e, parent := p)
    && Moved(m, m', b, e) && Linked(m, m', p, e, f)
  }

  lemma DistinctRotated(a: Tree, e: Node, c: Color, b: Tree, f: Node, c2: Color, d: Tree)
    ensures Distinct(Br(a, e, c, Br(b, f, c2, d))) <==> Distinct(Br(Br(a, e, c, b), f, c2, d))
    ensures Nodes(Br(a, e, c, Br(b, f, c2, d))) == Nodes(Br(Br(a, e, c, b), f, c2, d))
  {
    var u, v := Br(b, f, c2, d), Br(a, e, c, b);
    assert Nodes(u) == Nodes(b) + {f} + Nodes(d) && Nodes(v) == Nodes(a) + {e} + Nodes(b);
    assert Distinct(u) <==> Distinct(b) && Distinct(d) && f !in Nodes(b) && f !in Nodes(d) && Nodes(b) !! Nodes(d);
    assert Distinct(v) <==> Distinct(a) && Distinct(b) && e !in Nodes(a) && e !in Nodes(b) && Nodes(a) !! Nodes(b);
  }

  // A rotation does not change the order of the nodes.
  lemma InorderRotated(a: Tree, e: Node, c: Color, b: Tree, f: Node, c2: Color, d: Tree)
    ensures Inorder(Br(a, e, c, Br(b, f, c2, d))) == Inorder(Br(Br(a, e, c, b), f, c2, d))
  {
    var x, y, z := Inorder(a), Inorder(b), Inorder(d);
    calc {
      Inorder(Br(a, e, c, Br(b, f, c2, d)));
      x + [e] + (y + [f] + z);
      x + [e] + y + [f] + z;
      Inorder(Br(Br(a, e, c, b), f, c2, d));
    }
  }

  lemma RotatableLeftAt(m: Mem, root: Node?, ctx: Ctx, a: Tree, e: Node, c: Color, b: Tree, f: Node, c2: Color, d: Tree)
    requires Stored(m, root, Plug(ctx, Br(a, e, c, Br(b, f, c2, d))))
    ensures RotatableLeft(m, e)
  {
    Look(m, root, ctx, a, e, c, Br(b, f, c2, d));
    Look(m, root, InRight(ctx, a, e, c), b, f, c2, d);
  }

  lemma RotatableRightAt(m: Mem, root: Node?, ctx: Ctx, a: Tree, e: Node, c: Color, b: Tree, f: Node, c2: Color,
        d: Tree)
    requires Stored(m, root, Plug(ctx, Br(Br(a, e, c, b), f, c2, d)))
    ensures RotatableRight(m, f)
  {
    Look(m, root, ctx, Br(a, e, c, b), f, c2, d);
    Look(m, root, InLeft(ctx, f, c2, d), a, e, c, b);
  }

  lemma RotatedLeftTree(m: Mem, m': Mem, p: Node?, a: Tree, e: Node, c: Color, b: Tree, f: Node, c2: Color, d: Tree)
    requires var t := Br(a, e, c, Br(b, f, c2, d)); Distinct(t) && Laid(m, t, p) && p !in Nodes(t)
    requires RotatableLeft(m, e) && RotatedLeft(m, m', e)
    ensures Laid(m', Br(Br(a, e, c, b), f, c2, d), p)
  {
    var u, v := Br(b, f, c2, d), Br(a, e, c, b);
    assert Distinct(u) && Laid(m, u, e);
    MovedTree(m, m', b, f, e);
    FrameTree(m, m', a, e);
    FrameTree(m, m', d, f);
    assert Laid(m', v, f);
  }

  lemma RotatedRightTree(m: Mem, m': Mem, p: Node?, a: Tree, e: Node, c: Color, b: Tree, f: Node, c2: Color, d: Tree)
    requires var t := Br(Br(a, e, c, b), f, c2, d); Distinct(t) && Laid(m, t, p) && p !in Nodes(t)
    requires RotatableRight(m, f) && RotatedRight(m, m', f)
    ensures Laid(m', Br(a, e, c, Br(b, f, c2, d)), p)
  {
    var u, v := Br(a, e, c, b), Br(b, f, c2, d);
    assert Distinct(u) && Laid(m, u, f);
    MovedTree(m, m', b, e, f);
    FrameTree(m, m', a, e);
    FrameTree(m, m', d, f);
    assert Laid(m', v, e);
  }

  // A left rotation, link by link, is the rotation of the stored tree.
  lemma RotatedLeftStored(m: Mem, m': Mem, root: Node?, root': Node?, ctx: Ctx, a: Tree, e: Node, c: Color,
        b: Tree, f: Node, c2: Color, d: Tree)
    requires Stored(m, root, Plug(ctx, Br(a, e, c, Br(b, f, c2, d))))
    requires RotatableLeft(m, e) && RotatedLeft(m, m', e)
    requires root' == if m[e].parent == null then m[e].right else root
    ensures Stored(m', root', Plug(ctx, Br(Br(a, e, c, b), f, c2, d)))
  {
    hide Stored, Plug, LaidCtx;
    var t, t' := Br(a, e, c, Br(b, f, c2, d)), Br(Br(a, e, c, b), f, c2, d);
    Focus(m, root, ctx, t);
    RotatedLeftTree(m, m', Up(ctx), a, e, c, b, f, c2, d);
    DistinctRotated(a, e, c, b, f, c2, d);
    assert m[e].right == f && m[f].left == RootOf(b) by { assert Laid(m, t.r, e); }
    assert Nodes(t.r) <= Nodes(t) && Nodes(b) <= Nodes(t.r);
    LinkedCtx(m, m', ctx, e, f);
    RootAtTop(ctx, e, f);
    Focus(m', root', ctx, t');
  }

  lemma RotatedRightStored(m: Mem, m': Mem, root: Node?, root': Node?, ctx: Ctx, a: Tree, e: Node, c: Color,
        b: Tree, f: Node, c2: Color, d: Tree)
    requires Stored(m, root, Plug(ctx, Br(Br(a, e, c, b), f, c2, d)))
    requires RotatableRight(m, f) && RotatedRight(m, m', f)
    requires root' == if m[f].parent == null then m[f].left else root
    ensures Stored(m', root', Plug(ctx, Br(a, e, c, Br(b, f, c2, d))))
  {
    hide Stored, Plug, LaidCtx;
    var t, t' := Br(Br(a, e, c, b), f, c2, d), Br(a, e, c, Br(b, f, c2, d));
    Focus(m, root, ctx, t);
    RotatedRightTree(m, m', Up(ctx), a, e, c, b, f, c2, d);
    DistinctRotated(a, e, c, b, f, c2, d);
    assert m[f].left == e && m[e].right == RootOf(b) by { assert Laid(m, t.l, f); }
    assert Nodes(t.l) <= Nodes(t) && Nodes(b) <= Nodes(t.l);
    LinkedCtx(m, m', ctx, f, e);
    RootAtTop(ctx, f, e);
    Focus(m', root', ctx, t');
  }
}
