/** Shapes for top-down splaying: a middle tree between two spines that collect what has been passed. */
module SplayShape {
  import opened Order
  import opened Seqs

  // struct type with its SPLAY_ENTRY
  class Node {
    const key: Key
    var left: Node?
    var right: Node?

    constructor (k: Key)
      ensures key == k && left == null && right == null
    {
      key := k;
      left, right := null, null;
    }
  }

  datatype Cell = Cell(left: Node?, right: Node?)
  type Mem = map<Node, Cell>

  ghost function Snap(s: set<Node>): Mem
    reads s
  {
    map n | n in s :: Cell(n.left, n.right)
  }

  datatype Tree = Leaf | Br(l: Tree, n: Node, r: Tree)

  // Nodes linked downwards, each with the subtree on its outer side.  The last node's inner link is open.
  datatype Spine = Empty | More(up: Spine, n: Node, side: Tree)

  function RootOf(t: Tree): (x: Node?)
    ensures x != null ==> x in Nodes(t)
  {
    if t.Leaf? then null else t.n
  }

  function Last(s: Spine, d: Node): (x: Node)
    ensures x == d || x in SpineNodes(s)
  {
    if s.Empty? then d else s.n
  }

  function Nodes(t: Tree): set<Node> {
    match t
    case Leaf => {}
    case Br(l, n, r) => Nodes(l) + {n} + Nodes(r)
  }

  function SpineNodes(s: Spine): set<Node> {
    match s
    case Empty => {}
    case More(up, n, side) => SpineNodes(up) + {n} + Nodes(side)
  }

  function Size(t: Tree): nat {
    if t.Leaf? then 0 else Size(t.l) + 1 + Size(t.r)
  }

  function Inorder(t: Tree): seq<Node> {
    match t
    case Leaf => []
    case Br(l, n, r) => Inorder(l) + [n] + Inorder(r)
  }

  // The spine on the left goes down to the right, the one on the right goes down to the left.

  function LeftOrder(s: Spine): seq<Node> {
    match s
    case Empty => []
    case More(up, n, side) => LeftOrder(up) + Inorder(side) + [n]
  }

  function RightOrder(s: Spine): seq<Node> {
    match s
    case Empty => []
    case More(up, n, side) => [n] + Inorder(side) + RightOrder(up)
  }

  // Closing a spine with a tree in its open link.

  function CloseLeft(s: Spine, t: Tree): Tree {
    match s
    case Empty => t
    case More(up, n, side) => CloseLeft(up, Br(side, n, t))
  }

  function CloseRight(s: Spine, t: Tree): Tree {
    match s
    case Empty => t
    case More(up, n, side) => CloseRight(up, Br(t, n, side))
  }

  predicate Distinct(t: Tree) {
    match t
    case Leaf => true
    case Br(l, n, r) => Distinct(l) && Distinct(r) && n !in Nodes(l) && n !in Nodes(r) && Nodes(l) !! Nodes(r)
  }

  predicate DistinctSpine(s: Spine) {
    match s
    case Empty => true
    case More(up, n, side) =>
      && DistinctSpine(up) && Distinct(side) && n !in Nodes(side)
      && n !in SpineNodes(up) && Nodes(side) !! SpineNodes(up)
  }

  predicate Laid(m: Mem, t: Tree) {
    match t
    case Leaf => true
    case Br(l, n, r) => n in m && m[n] == Cell(RootOf(l), RootOf(r)) && Laid(m, l) && Laid(m, r)
  }

  predicate LaidLeft(m: Mem, d: Node, s: Spine) {
    match s
    case Empty => true
    case More(up, n, side) =>
      && n in m && m[n].left == RootOf(side) && Laid(m, side)
      && Last(up, d) in m && m[Last(up, d)].right == n && LaidLeft(m, d, up)
  }

  predicate LaidRight(m: Mem, d: Node, s: Spine) {
    match s
    case Empty => true
    case More(up, n, side) =>
      && n in m && m[n].right == RootOf(side) && Laid(m, side)
      && Last(up, d) in m && m[Last(up, d)].left == n && LaidRight(m, d, up)
  }

  predicate Agree(m: Mem, m': Mem, s: set<Node>) {
    forall n | n in s && n in m :: n in m' && m'[n] == m[n]
  }

  lemma {:induction false} FrameTree(m: Mem, m': Mem, t: Tree)
    requires Laid(m, t) && Agree(m, m', Nodes(t))
    ensures Laid(m', t)
  {
    if t.Leaf? {
    } else {
      FrameTree(m, m', t.l);
      FrameTree(m, m', t.r);
    }
  }

  // The links that make up a spine are the same; only its open link may have changed.

  predicate KeepsLeft(m: Mem, m': Mem, d: Node, s: Spine) {
    s.More? ==>
      && Agree(m, m', SpineNodes(s.up) + Nodes(s.side))
      && (s.n in m ==> s.n in m' && m'[s.n].left == m[s.n].left)
      && (d in m ==> d in m' && m'[d].right == m[d].right)
  }

  predicate KeepsRight(m: Mem, m': Mem, d: Node, s: Spine) {
    s.More? ==>
      && Agree(m, m', SpineNodes(s.up) + Nodes(s.side))
      && (s.n in m ==> s.n in m' && m'[s.n].right == m[s.n].right)
      && (d in m ==> d in m' && m'[d].left == m[d].left)
  }

  lemma {:induction false} FrameLeft(m: Mem, m': Mem, d: Node, s: Spine)
    requires LaidLeft(m, d, s) && KeepsLeft(m, m', d, s)
    ensures LaidLeft(m', d, s)
  {
    match s
    case Empty =>
    case More(up, n, side) =>
      FrameTree(m, m', side);
      FrameLeft(m, m', d, up);
  }

  lemma {:induction false} FrameRight(m: Mem, m': Mem, d: Node, s: Spine)
    requires LaidRight(m, d, s) && KeepsRight(m, m', d, s)
    ensures LaidRight(m', d, s)
  {
    match s
    case Empty =>
    case More(up, n, side) =>
      FrameTree(m, m', side);
      FrameRight(m, m', d, up);
  }

  // ---------- the state of a splay ----------

  predicate Apart(d: Node, ls: Spine, t: Tree, rs: Spine) {
    && Distinct(t) && DistinctSpine(ls) && DistinctSpine(rs)
    && d !in Nodes(t) && d !in SpineNodes(ls) && d !in SpineNodes(rs)
    && Nodes(t) !! SpineNodes(ls) && Nodes(t) !! SpineNodes(rs) && SpineNodes(ls) !! SpineNodes(rs)
  }

  predicate Parted(m: Mem, d: Node, ls: Spine, t: Tree, rs: Spine) {
    && m.Keys == {d} + Nodes(t) + SpineNodes(ls) + SpineNodes(rs) && Apart(d, ls, t, rs)
    && Laid(m, t) && LaidLeft(m, d, ls) && LaidRight(m, d, rs)
  }

  // ---------- rotations of the middle tree ----------

  lemma DistinctRotated(a: Tree, x: Node, b: Tree, y: Node, c: Tree)
    ensures Distinct(Br(Br(a, x, b), y, c)) <==> Distinct(Br(a, x, Br(b, y, c)))
    ensures Nodes(Br(Br(a, x, b), y, c)) == Nodes(Br(a, x, Br(b, y, c)))
  {
    var u, v := Br(a, x, b), Br(b, y, c);
    assert Nodes(u) == Nodes(a) + {x} + Nodes(b) && Nodes(v) == Nodes(b) + {y} + Nodes(c);
    assert Distinct(u) <==> Distinct(a) && Distinct(b) && x !in Nodes(a) && x !in Nodes(b) && Nodes(a) !! Nodes(b);
    assert Distinct(v) <==> Distinct(b) && Distinct(c) && y !in Nodes(b) && y !in Nodes(c) && Nodes(b) !! Nodes(c);
  }

  lemma InorderRotated(a: Tree, x: Node, b: Tree, y: Node, c: Tree)
    ensures Inorder(Br(Br(a, x, b), y, c)) == Inorder(Br(a, x, Br(b, y, c)))
    ensures Size(Br(Br(a, x, b), y, c)) == Size(Br(a, x, Br(b, y, c)))
  {
    var p, q, s := Inorder(a), Inorder(b), Inorder(c);
    calc {
      Inorder(Br(Br(a, x, b), y, c));
      p + [x] + q + [y] + s;
      p + [x] + (q + [y] + s);
      Inorder(Br(a, x, Br(b, y, c)));
    }
  }

  // Writing inside the middle tree leaves both spines alone.
  lemma MiddleChanged(m: Mem, m': Mem, d: Node, ls: Spine, t: Tree, t': Tree, rs: Spine)
    requires Parted(m, d, ls, t, rs) && m'.Keys == m.Keys && Agree(m, m', m.Keys - Nodes(t))
    requires Nodes(t') == Nodes(t) && Distinct(t') && Laid(m', t')
    ensures Parted(m', d, ls, t', rs)
  {
    FrameLeft(m, m', d, ls);
    FrameRight(m, m', d, rs);
  }

  lemma RotatedRightTree(m: Mem, m': Mem, a: Tree, x: Node, b: Tree, r: Node, c: Tree)
    requires Distinct(Br(Br(a, x, b), r, c)) && Laid(m, Br(Br(a, x, b), r, c)) && x in m && r in m
    requires m' == m[r := m[r].(left := m[x].right)][x := m[x].(right := r)]
    ensures Laid(m', Br(a, x, Br(b, r, c)))
  {
    var u := Br(a, x, b);
    assert Laid(m, u) && Distinct(u) && r !in Nodes(u);
    FrameTree(m, m', a);
    FrameTree(m, m', b);
    FrameTree(m, m', c);
    assert Laid(m', Br(b, r, c));
  }

  lemma RotatedLeftTree(m: Mem, m': Mem, a: Tree, r: Node, b: Tree, x: Node, c: Tree)
    requires Distinct(Br(a, r, Br(b, x, c))) && Laid(m, Br(a, r, Br(b, x, c))) && x in m && r in m
    requires m' == m[r := m[r].(right := m[x].left)][x := m[x].(left := r)]
    ensures Laid(m', Br(Br(a, r, b), x, c))
  {
    var u := Br(b, x, c);
    assert Laid(m, u) && Distinct(u) && r !in Nodes(u);
    FrameTree(m, m', a);
    FrameTree(m, m', b);
    FrameTree(m, m', c);
    assert Laid(m', Br(a, r, b));
  }

  lemma RotatedRight(m: Mem, m': Mem, d: Node, ls: Spine, a: Tree, x: Node, b: Tree, r: Node, c: Tree, rs: Spine)
    requires Parted(m, d, ls, Br(Br(a, x, b), r, c), rs) && x in m && r in m
    requires m' == m[r := m[r].(left := m[x].right)][x := m[x].(right := r)]
    ensures Parted(m', d, ls, Br(a, x, Br(b, r, c)), rs)
  {
    DistinctRotated(a, x, b, r, c);
    RotatedRightTree(m, m', a, x, b, r, c);
    assert x in Nodes(Br(a, x, b)) && r in Nodes(Br(Br(a, x, b), r, c));
    MiddleChanged(m, m', d, ls, Br(Br(a, x, b), r, c), Br(a, x, Br(b, r, c)), rs);
  }

  lemma RotatedLeft(m: Mem, m': Mem, d: Node, ls: Spine, a: Tree, r: Node, b: Tree, x: Node, c: Tree, rs: Spine)
    requires Parted(m, d, ls, Br(a, r, Br(b, x, c)), rs) && x in m && r in m
    requires m' == m[r := m[r].(right := m[x].left)][x := m[x].(left := r)]
    ensures Parted(m', d, ls, Br(Br(a, r, b), x, c), rs)
  {
    DistinctRotated(a, r, b, x, c);
    RotatedLeftTree(m, m', a, r, b, x, c);
    assert x in Nodes(Br(b, x, c)) && r in Nodes(Br(a, r, Br(b, x, c)));
    MiddleChanged(m, m', d, ls, Br(a, r, Br(b, x, c)), Br(Br(a, r, b), x, c), rs);
  }

  // ---------- passing the root on to a spine ----------

  lemma PassedOn(d: Node, ls: Spine, a: Tree, r: Node, c: Tree, rs: Spine)
    requires Apart(d, ls, Br(a, r, c), rs)
    ensures d !in Nodes(a) && d !in Nodes(c) && r != d && r !in SpineNodes(ls) && r !in SpineNodes(rs)
    ensures r !in Nodes(a) && r !in Nodes(c) && Nodes(a) !! Nodes(c) && Distinct(a) && Distinct(c)
    ensures Nodes(a) !! SpineNodes(ls) && Nodes(a) !! SpineNodes(rs) && Nodes(c) !! SpineNodes(ls) &&
      Nodes(c) !! SpineNodes(rs)
    ensures Nodes(Br(a, r, c)) == Nodes(a) + {r} + Nodes(c)
  {
    assert Nodes(Br(a, r, c)) == Nodes(a) + {r} + Nodes(c);
  }

  // The root and the nodes with the open links are nowhere else.
  predicate Ends(d: Node, ls: Spine, a: Tree, r: Node, c: Tree, rs: Spine) {
    var x, y := Last(ls, d), Last(rs, d);
    && r !in Nodes(a) && r !in Nodes(c) && r !in SpineNodes(ls) && r !in SpineNodes(rs) && r != d
    && x !in Nodes(a) && x !in Nodes(c) && x !in SpineNodes(rs)
    && y !in Nodes(a) && y !in Nodes(c) && y !in SpineNodes(ls)
    && (ls.More? ==>
          d != x && x !in SpineNodes(ls.up) && x !in Nodes(ls.side) && d !in SpineNodes(ls.up) && d !in Nodes(ls.side))
    && (rs.More? ==>
          d != y && y !in SpineNodes(rs.up) && y !in Nodes(rs.side) && d !in SpineNodes(rs.up) && d !in Nodes(rs.side))
  }

  lemma OpenEnds(d: Node, ls: Spine, a: Tree, r: Node, c: Tree, rs: Spine)
    requires Apart(d, ls, Br(a, r, c), rs)
    ensures Ends(d, ls, a, r, c, rs)
  {
    PassedOn(d, ls, a, r, c, rs);
  }

  // The root goes to the end of the right spine: the open link there leads to it.
  lemma LinkedLeft(m: Mem, m': Mem, d: Node, ls: Spine, a: Tree, r: Node, c: Tree, rs: Spine)
    requires Parted(m, d, ls, Br(a, r, c), rs) && Last(rs, d) in m
    requires m' == m[Last(rs, d) := m[Last(rs, d)].(left := r)]
    ensures Parted(m', d, ls, a, More(rs, r, c))
  {
    PassedOn(d, ls, a, r, c, rs);
    OpenEnds(d, ls, a, r, c, rs);
    LinkedLeftParts(m, m', d, ls, a, r, c, rs);
  }

  lemma LinkedLeftParts(m: Mem, m': Mem, d: Node, ls: Spine, a: Tree, r: Node, c: Tree, rs: Spine)
    requires Laid(m, Br(a, r, c)) && LaidLeft(m, d, ls) && LaidRight(m, d, rs) && Ends(d, ls, a, r, c, rs)
    requires Last(rs, d) in m && m' == m[Last(rs, d) := m[Last(rs, d)].(left := r)]
    ensures Laid(m', a) && LaidLeft(m', d, ls) && LaidRight(m', d, More(rs, r, c))
  {
    FrameTree(m, m', a);
    FrameTree(m, m', c);
    FrameLeft(m, m', d, ls);
    FrameRight(m, m', d, rs);
  }

  lemma LinkedRight(m: Mem, m': Mem, d: Node, ls: Spine, a: Tree, r: Node, c: Tree, rs: Spine)
    requires Parted(m, d, ls, Br(a, r, c), rs) && Last(ls, d) in m
    requires m' == m[Last(ls, d) := m[Last(ls, d)].(right := r)]
    ensures Parted(m', d, More(ls, r, a), c, rs)
  {
    PassedOn(d, ls, a, r, c, rs);
    OpenEnds(d, ls, a, r, c, rs);
    LinkedRightParts(m, m', d, ls, a, r, c, rs);
  }

  lemma LinkedRightParts(m: Mem, m': Mem, d: Node, ls: Spine, a: Tree, r: Node, c: Tree, rs: Spine)
    requires Laid(m, Br(a, r, c)) && LaidLeft(m, d, ls) && LaidRight(m, d, rs) && Ends(d, ls, a, r, c, rs)
    requires Last(ls, d) in m && m' == m[Last(ls, d) := m[Last(ls, d)].(right := r)]
    ensures Laid(m', c) && LaidLeft(m', d, More(ls, r, a)) && LaidRight(m', d, rs)
  {
    FrameTree(m, m', a);
    FrameTree(m, m', c);
    FrameLeft(m, m', d, ls);
    FrameRight(m, m', d, rs);
  }

  lemma LinkedOrder(ls: Spine, a: Tree, r: Node, c: Tree, rs: Spine)
    ensures var s := LeftOrder(ls) + Inorder(Br(a, r, c)) + RightOrder(rs);
      && LeftOrder(ls) + Inorder(a) + RightOrder(More(rs, r, c)) == s
      && LeftOrder(More(ls, r, a)) + Inorder(c) + RightOrder(rs) == s
  {
    var u, x, y, z, v := LeftOrder(ls), Inorder(a), [r], Inorder(c), RightOrder(rs);
    assert u + (x + y + z) + v == u + x + (y + z + v);
    assert u + (x + y + z) + v == (u + x + y) + z + v;
  }

  // The order seen from the root of the middle tree.
  lemma OrderAround(ls: Spine, a: Tree, r: Node, c: Tree, rs: Spine)
    ensures LeftOrder(ls) + Inorder(Br(a, r, c)) + RightOrder(rs) == (LeftOrder(ls) + Inorder(a)) + [r] +
      (Inorder(c) + RightOrder(rs))
    ensures RightOrder(More(rs, r, c)) == [r] + (Inorder(c) + RightOrder(rs))
    ensures LeftOrder(More(ls, r, a)) == (LeftOrder(ls) + Inorder(a)) + [r]
  {
    Regroup(LeftOrder(ls), Inorder(a), [r], Inorder(c), RightOrder(rs));
    assert [r] + Inorder(c) + RightOrder(rs) == [r] + (Inorder(c) + RightOrder(rs));
  }

  // ---------- putting the parts together ----------

  // The node a closed spine begins with, seen from the dummy.
  function First(s: Spine, x: Node?): Node? {
    match s
    case Empty => x
    case More(up, n, _) => First(up, n)
  }

  lemma {:induction false} ClosedLeft(m: Mem, d: Node, s: Spine, t: Tree)
    requires DistinctSpine(s) && Distinct(t) && SpineNodes(s) !! Nodes(t)
    requires LaidLeft(m, d, s) && Laid(m, t) && Last(s, d) in m && m[Last(s, d)].right == RootOf(t)
    ensures Laid(m, CloseLeft(s, t)) && Distinct(CloseLeft(s, t)) && Nodes(CloseLeft(s, t)) == SpineNodes(s) + Nodes(t)
    ensures d in m && m[d].right == RootOf(CloseLeft(s, t))
  {
    match s
    case Empty =>
    case More(up, n, side) =>
      var u := Br(side, n, t);
      assert m[n] == Cell(m[n].left, m[n].right);
      assert Nodes(u) == Nodes(side) + {n} + Nodes(t) && Distinct(u) && Laid(m, u);
      ClosedLeft(m, d, up, u);
  }

  lemma {:induction false} ClosedRight(m: Mem, d: Node, s: Spine, t: Tree)
    requires DistinctSpine(s) && Distinct(t) && SpineNodes(s) !! Nodes(t)
    requires LaidRight(m, d, s) && Laid(m, t) && Last(s, d) in m && m[Last(s, d)].left == RootOf(t)
    ensures Laid(m, CloseRight(s, t)) && Distinct(CloseRight(s, t)) &&
      Nodes(CloseRight(s, t)) == SpineNodes(s) + Nodes(t)
    ensures d in m && m[d].left == RootOf(CloseRight(s, t))
  {
    match s
    case Empty =>
    case More(up, n, side) =>
      var u := Br(t, n, side);
      assert m[n] == Cell(m[n].left, m[n].right);
      assert Nodes(u) == Nodes(t) + {n} + Nodes(side) && Distinct(u) && Laid(m, u);
      ClosedRight(m, d, up, u);
  }

  lemma {:induction false} ClosedLeftOrder(s: Spine, t: Tree)
    ensures Inorder(CloseLeft(s, t)) == LeftOrder(s) + Inorder(t)
  {
    match s
    case Empty =>
    case More(up, n, side) =>
      ClosedLeftOrder(up, Br(side, n, t));
      assert LeftOrder(up) + (Inorder(side) + [n] + Inorder(t)) == LeftOrder(up) + Inorder(side) + [n] + Inorder(t);
  }

  lemma {:induction false} ClosedRightOrder(s: Spine, t: Tree)
    ensures Inorder(CloseRight(s, t)) == Inorder(t) + RightOrder(s)
  {
    match s
    case Empty =>
    case More(up, n, side) =>
      ClosedRightOrder(up, Br(t, n, side));
      assert Inorder(t) + [n] + Inorder(side) + RightOrder(up) == Inorder(t) + ([n] + Inorder(side) + RightOrder(up));
  }

  // The four writes that assemble the parts, r being the root of the middle tree.
  predicate Assembled(m: Mem, m': Mem, d: Node, left: Node, right: Node, r: Node)
    requires d in m && left in m && right in m && r in m
  {
    && m'.Keys == m.Keys && (forall n | n in m && n !in {left, right, r} :: m'[n] == m[n])
    && m'[left].right == m[r].left && (left != right ==> m'[left].left == m[left].left)
    && m'[right].left == m[r].right && (left != right ==> m'[right].right == m[right].right)
    && m'[r] == Cell(m'[d].right, m'[d].left)
  }

  lemma AssembledTree(m: Mem, m': Mem, d: Node, ls: Spine, a: Tree, r: Node, c: Tree, rs: Spine)
    requires Parted(m, d, ls, Br(a, r, c), rs) && d in m && Last(ls, d) in m && Last(rs, d) in m && r in m
    requires Assembled(m, m', d, Last(ls, d), Last(rs, d), r)
    ensures var t := Br(CloseLeft(ls, a), r, CloseRight(rs, c));
            Laid(m', t) && Distinct(t) && Nodes(t) == Nodes(Br(a, r, c)) + SpineNodes(ls) + SpineNodes(rs)
  {
    hide Laid, LaidLeft, LaidRight, Distinct, DistinctSpine, CloseLeft, CloseRight, Last, Assembled, Apart, Ends;
    hide Nodes, SpineNodes, Inorder;
    PassedOn(d, ls, a, r, c, rs);
    SpinesApart(d, ls, a, r, c, rs);
    OpenEnds(d, ls, a, r, c, rs);
    AssembledParts(m, m', d, ls, a, r, c, rs);
    AssembledEnds(m, m', d, Last(ls, d), Last(rs, d), a, r, c);
    ClosedLeft(m', d, ls, a);
    ClosedRight(m', d, rs, c);
    WholeNodes(Nodes(a), r, Nodes(c), SpineNodes(ls), SpineNodes(rs));
    WholeTree(m', CloseLeft(ls, a), r, CloseRight(rs, c));
  }

  lemma WholeNodes(a: set<Node>, r: Node, c: set<Node>, x: set<Node>, y: set<Node>)
    requires a !! c && a !! x && a !! y && c !! x && c !! y && x !! y && r !in a + c + x + y
    ensures x + a !! y + c && r !in x + a && r !in y + c && (x + a) + {r} + (y + c) == (a + {r} + c) + x + y
  {
  }

  lemma SpinesApart(d: Node, ls: Spine, a: Tree, r: Node, c: Tree, rs: Spine)
    requires Apart(d, ls, Br(a, r, c), rs)
    ensures DistinctSpine(ls) && DistinctSpine(rs) && SpineNodes(ls) !! SpineNodes(rs)
  {
  }

  lemma AssembledEnds(m: Mem, m': Mem, d: Node, left: Node, right: Node, a: Tree, r: Node, c: Tree)
    requires d in m && left in m && right in m && r in m && Laid(m, Br(a, r, c)) && Assembled(m, m', d, left, right, r)
    ensures m'.Keys == m.Keys && m'[left].right == RootOf(a) && m'[right].left == RootOf(c)
    ensures m'[r] == Cell(m'[d].right, m'[d].left)
  {
  }

  lemma WholeTree(m: Mem, l: Tree, n: Node, r: Tree)
    requires Laid(m, l) && Laid(m, r) && n in m && m[n] == Cell(RootOf(l), RootOf(r))
    requires Distinct(l) && Distinct(r) && n !in Nodes(l) && n !in Nodes(r) && Nodes(l) !! Nodes(r)
    ensures Laid(m, Br(l, n, r)) && Distinct(Br(l, n, r)) && Nodes(Br(l, n, r)) == Nodes(l) + {n} + Nodes(r)
  {
  }

  lemma AssembledParts(m: Mem, m': Mem, d: Node, ls: Spine, a: Tree, r: Node, c: Tree, rs: Spine)
    requires Laid(m, Br(a, r, c)) && LaidLeft(m, d, ls) && LaidRight(m, d, rs) && Ends(d, ls, a, r, c, rs)
    requires d in m && Last(ls, d) in m && Last(rs, d) in m && Assembled(m, m', d, Last(ls, d), Last(rs, d), r)
    ensures Laid(m', a) && Laid(m', c) && LaidLeft(m', d, ls) && LaidRight(m', d, rs)
  {
    assert r in m && Laid(m, a) && Laid(m, c);
    FrameTree(m, m', a);
    FrameTree(m, m', c);
    AssembledSpines(m, m', d, ls, r, rs);
  }

  lemma AssembledSpines(m: Mem, m': Mem, d: Node, ls: Spine, r: Node, rs: Spine)
    requires LaidLeft(m, d, ls) && LaidRight(m, d, rs) && Ends(d, ls, Leaf, r, Leaf, rs) && r in m
    requires d in m && Last(ls, d) in m && Last(rs, d) in m && Assembled(m, m', d, Last(ls, d), Last(rs, d), r)
    ensures LaidLeft(m', d, ls) && LaidRight(m', d, rs)
  {
    FrameLeft(m, m', d, ls);
    FrameRight(m, m', d, rs);
  }

  lemma AssembledOrder(ls: Spine, a: Tree, r: Node, c: Tree, rs: Spine)
    ensures Inorder(Br(CloseLeft(ls, a), r, CloseRight(rs, c))) == LeftOrder(ls) + Inorder(Br(a, r, c)) + RightOrder(rs)
  {
    ClosedLeftOrder(ls, a);
    ClosedRightOrder(rs, c);
    Regroup(LeftOrder(ls), Inorder(a), [r], Inorder(c), RightOrder(rs));
  }
}
