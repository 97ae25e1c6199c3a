/** The top-down splay on shapes, and how it shortens the search path. */
module SplayDepth {
  import opened Order
  import opened SplayShape

  // A round of the loop: the new middle tree, the spine on the passed side, and whether the loop stops.
  datatype Round = Round(t: Tree, spine: Spine, stop: bool)

  function RoundLeft(cmp: Comparator, k: Key, t: Tree, rs: Spine): (r: Round)
    requires t.Br?
    ensures r.t.Br? && (r.stop || Size(r.t) < Size(t))
  {
    if t.l.Leaf? then Round(t, rs, true)
    else if cmp(k, t.l.n.key) < 0 then
      var turned := Br(t.l.r, t.n, t.r);
      if t.l.l.Leaf? then Round(Br(t.l.l, t.l.n, turned), rs, true) else Round(t.l.l, More(rs, t.l.n, turned), false)
    else Round(t.l, More(rs, t.n, t.r), false)
  }

  function RoundRight(cmp: Comparator, k: Key, t: Tree, ls: Spine): (r: Round)
    requires t.Br?
    ensures r.t.Br? && (r.stop || Size(r.t) < Size(t))
  {
    if t.r.Leaf? then Round(t, ls, true)
    else if cmp(k, t.r.n.key) > 0 then
      var turned := Br(t.l, t.n, t.r.l);
      if t.r.r.Leaf? then Round(Br(turned, t.r.n, t.r.r), ls, true) else Round(t.r.r, More(ls, t.r.n, turned), false)
    else Round(t.r, More(ls, t.n, t.l), false)
  }

  function Assembled(ls: Spine, t: Tree, rs: Spine): (r: Tree)
    requires t.Br?
    ensures r.Br?
  {
    Br(CloseLeft(ls, t.l), t.n, CloseRight(rs, t.r))
  }

  // The tree that the loop leads to.
  function Splayed(cmp: Comparator, k: Key, ls: Spine, t: Tree, rs: Spine): (r: Tree)
    requires t.Br?
    ensures r.Br?
    decreases Size(t)
  {
    if cmp(k, t.n.key) < 0 then
      var r := RoundLeft(cmp, k, t, rs);
      if r.stop then Assembled(ls, r.t, r.spine) else Splayed(cmp, k, ls, r.t, r.spine)
    else if cmp(k, t.n.key) > 0 then
      var r := RoundRight(cmp, k, t, ls);
      if r.stop then Assembled(r.spine, r.t, rs) else Splayed(cmp, k, r.spine, r.t, rs)
    else Assembled(ls, t, rs)
  }

  // ---------- depths ----------

  function Length(s: Spine): nat {
    if s.Empty? then 0 else 1 + Length(s.up)
  }

  // The nodes that a search for k meets.
  function Path(cmp: Comparator, k: Key, t: Tree): seq<Node> {
    if t.Leaf? then []
    else if cmp(k, t.n.key) < 0 then [t.n] + Path(cmp, k, t.l)
    else if cmp(k, t.n.key) > 0 then [t.n] + Path(cmp, k, t.r)
    else [t.n]
  }

  // n lies d links below the root.
  predicate AtDepth(t: Tree, n: Node, d: nat) {
    t.Br? && if d == 0 then t.n == n else AtDepth(t.l, n, d - 1) || AtDepth(t.r, n, d - 1)
  }

  lemma {:induction false} LeftEnd(s: Spine, t: Tree, n: Node, d: nat)
    requires AtDepth(t, n, d)
    ensures AtDepth(CloseLeft(s, t), n, Length(s) + d)
  {
    if s.Empty? {
    } else {
      LeftEnd(s.up, Br(s.side, s.n, t), n, d + 1);
    }
  }

  lemma {:induction false} RightEnd(s: Spine, t: Tree, n: Node, d: nat)
    requires AtDepth(t, n, d)
    ensures AtDepth(CloseRight(s, t), n, Length(s) + d)
  {
    if s.Empty? {
    } else {
      RightEnd(s.up, Br(t, s.n, s.side), n, d + 1);
    }
  }

  // The spines stay on the sides of the result.
  lemma {:induction false} SplayedForm(cmp: Comparator, k: Key, ls: Spine, t: Tree, rs: Spine)
        returns (a: Tree, n: Node, c: Tree)
    requires t.Br?
    ensures Splayed(cmp, k, ls, t, rs) == Br(CloseLeft(ls, a), n, CloseRight(rs, c))
    decreases Size(t)
  {
    if cmp(k, t.n.key) < 0 {
      var r := RoundLeft(cmp, k, t, rs);
      if r.stop {
        a, n, c := r.t.l, r.t.n, r.t.r;
      } else {
        a, n, c := SplayedForm(cmp, k, ls, r.t, r.spine);
        c := Br(c, r.spine.n, r.spine.side);
      }
    } else if cmp(k, t.n.key) > 0 {
      var r := RoundRight(cmp, k, t, ls);
      if r.stop {
        a, n, c := r.t.l, r.t.n, r.t.r;
      } else {
        a, n, c := SplayedForm(cmp, k, r.spine, r.t, rs);
        a := Br(r.spine.side, r.spine.n, a);
      }
    } else {
      a, n, c := t.l, t.n, t.r;
    }
  }

  // The last node of a closed spine, and the root of what hangs on its side.
  lemma SpineEnd(s: Spine, t: Tree)
    requires s.More?
    ensures AtDepth(CloseLeft(s, t), s.n, Length(s) - 1) && AtDepth(CloseRight(s, t), s.n, Length(s) - 1)
    ensures s.side.Br? ==>
      AtDepth(CloseLeft(s, t), s.side.n, Length(s)) && AtDepth(CloseRight(s, t), s.side.n, Length(s))
  {
    var x, y := Br(s.side, s.n, t), Br(t, s.n, s.side);
    LeftEnd(s.up, x, s.n, 0);
    RightEnd(s.up, y, s.n, 0);
    if s.side.Br? {
      assert AtDepth(s.side, s.side.n, 0);
      LeftEnd(s.up, x, s.side.n, 1);
      RightEnd(s.up, y, s.side.n, 1);
    }
  }

  // A node passed onto a spine, or turned below it, ends one link deeper than the spine was long, or two.
  lemma PassedRight(cmp: Comparator, k: Key, ls: Spine, t: Tree, rs: Spine)
    requires t.Br? && rs.More?
    ensures AtDepth(Splayed(cmp, k, ls, t, rs), rs.n, Length(rs))
    ensures rs.side.Br? ==> AtDepth(Splayed(cmp, k, ls, t, rs), rs.side.n, Length(rs) + 1)
  {
    hide Splayed, CloseLeft, CloseRight;
    var a, n, c := SplayedForm(cmp, k, ls, t, rs);
    SpineEnd(rs, c);
  }

  lemma PassedLeft(cmp: Comparator, k: Key, ls: Spine, t: Tree, rs: Spine)
    requires t.Br? && ls.More?
    ensures AtDepth(Splayed(cmp, k, ls, t, rs), ls.n, Length(ls))
    ensures ls.side.Br? ==> AtDepth(Splayed(cmp, k, ls, t, rs), ls.side.n, Length(ls) + 1)
  {
    hide Splayed, CloseLeft, CloseRight;
    var a, n, c := SplayedForm(cmp, k, ls, t, rs);
    SpineEnd(ls, a);
  }

  // After g nodes of the path, the spines hold half as many, and one more only on the side that the search turns from.
  predicate HalfPassed(cmp: Comparator, k: Key, ls: Spine, t: Tree, rs: Spine, g: nat)
    requires t.Br?
  {
    && 2 * Length(ls) <= g + (if cmp(k, t.n.key) > 0 then 0 else 1)
    && 2 * Length(rs) <= g + (if cmp(k, t.n.key) < 0 then 0 else 1)
  }

  // The depth at which the node e places further down the path ends.
  lemma {:induction false} PathHalved(cmp: Comparator, k: Key, ls: Spine, t: Tree, rs: Spine, g: nat, e: nat)
        returns (d: nat)
    requires t.Br? && HalfPassed(cmp, k, ls, t, rs, g) && e < |Path(cmp, k, t)|
    ensures 2 * d <= g + e + 4 && AtDepth(Splayed(cmp, k, ls, t, rs), Path(cmp, k, t)[e], d)
    decreases Size(t), 1
  {
    if cmp(k, t.n.key) < 0 && t.l.Br? {
      d := LeftHalved(cmp, k, ls, t, rs, g, e);
    } else if cmp(k, t.n.key) > 0 && t.r.Br? {
      d := RightHalved(cmp, k, ls, t, rs, g, e);
    } else {
      RootDepth(Splayed(cmp, k, ls, t, rs));
      d := 0;
    }
  }

  lemma UnfoldLeft(cmp: Comparator, k: Key, ls: Spine, t: Tree, rs: Spine)
    requires t.Br? && t.l.Br? && cmp(k, t.n.key) < 0
    ensures var r := RoundLeft(cmp, k, t, rs);
            Splayed(cmp, k, ls, t, rs) ==
            if r.stop then Assembled(ls, r.t, r.spine) else Splayed(cmp, k, ls, r.t, r.spine)
    ensures Path(cmp, k, t) == [t.n] + Path(cmp, k, t.l)
    ensures cmp(k, t.l.n.key) < 0 ==> Path(cmp, k, t.l) == [t.l.n] + Path(cmp, k, t.l.l)
    ensures t.l.l.Leaf? ==> Path(cmp, k, t.l.l) == []
  {
  }

  lemma {:induction false} LeftHalved(cmp: Comparator, k: Key, ls: Spine, t: Tree, rs: Spine, g: nat, e: nat)
        returns (d: nat)
    requires t.Br? && HalfPassed(cmp, k, ls, t, rs, g) && e < |Path(cmp, k, t)| && cmp(k, t.n.key) < 0 && t.l.Br?
    ensures 2 * d <= g + e + 4 && AtDepth(Splayed(cmp, k, ls, t, rs), Path(cmp, k, t)[e], d)
    decreases Size(t), 0
  {
    hide AtDepth, Splayed, Path;
    RootDepth(Splayed(cmp, k, ls, t, rs));
    var r := RoundLeft(cmp, k, t, rs);
    var two := cmp(k, t.l.n.key) < 0;
    UnfoldLeft(cmp, k, ls, t, rs);
    if r.stop {
      TurnedDepth(ls, r.t, rs);
      d := if e == 0 then 1 + Length(rs) else 0;
    } else if e >= if two then 2 else 1 {
      d := PathHalved(cmp, k, ls, r.t, r.spine, g + if two then 2 else 1, e - if two then 2 else 1);
    } else {
      PassedRight(cmp, k, ls, r.t, r.spine);
      d := if two && e == 0 then Length(rs) + 2 else Length(rs) + 1;
    }
  }

  lemma UnfoldRight(cmp: Comparator, k: Key, ls: Spine, t: Tree, rs: Spine)
    requires t.Br? && t.r.Br? && cmp(k, t.n.key) > 0
    ensures var r := RoundRight(cmp, k, t, ls);
            Splayed(cmp, k, ls, t, rs) ==
            if r.stop then Assembled(r.spine, r.t, rs) else Splayed(cmp, k, r.spine, r.t, rs)
    ensures Path(cmp, k, t) == [t.n] + Path(cmp, k, t.r)
    ensures cmp(k, t.r.n.key) > 0 ==> Path(cmp, k, t.r) == [t.r.n] + Path(cmp, k, t.r.r)
    ensures t.r.r.Leaf? ==> Path(cmp, k, t.r.r) == []
  {
  }

  lemma {:induction false} RightHalved(cmp: Comparator, k: Key, ls: Spine, t: Tree, rs: Spine, g: nat, e: nat)
        returns (d: nat)
    requires t.Br? && HalfPassed(cmp, k, ls, t, rs, g) && e < |Path(cmp, k, t)| && cmp(k, t.n.key) > 0 && t.r.Br?
    ensures 2 * d <= g + e + 4 && AtDepth(Splayed(cmp, k, ls, t, rs), Path(cmp, k, t)[e], d)
    decreases Size(t), 0
  {
    hide AtDepth, Splayed, Path;
    RootDepth(Splayed(cmp, k, ls, t, rs));
    var r := RoundRight(cmp, k, t, ls);
    var two := cmp(k, t.r.n.key) > 0;
    UnfoldRight(cmp, k, ls, t, rs);
    if r.stop {
      TurnedDepth(ls, r.t, rs);
      d := if e == 0 then 1 + Length(ls) else 0;
    } else if e >= if two then 2 else 1 {
      d := PathHalved(cmp, k, r.spine, r.t, rs, g + if two then 2 else 1, e - if two then 2 else 1);
    } else {
      PassedLeft(cmp, k, r.spine, r.t, rs);
      d := if two && e == 0 then Length(ls) + 2 else Length(ls) + 1;
    }
  }

  lemma RootDepth(t: Tree)
    requires t.Br?
    ensures AtDepth(t, t.n, 0)
  {
  }

  // What hangs beside the root goes to the ends of the spines.
  lemma TurnedDepth(ls: Spine, t: Tree, rs: Spine)
    requires t.Br?
    ensures t.l.Br? ==> AtDepth(Assembled(ls, t, rs), t.l.n, 1 + Length(ls))
    ensures t.r.Br? ==> AtDepth(Assembled(ls, t, rs), t.r.n, 1 + Length(rs))
  {
    if t.l.Br? {
      LeftEnd(ls, t.l, t.l.n, 0);
    }
    if t.r.Br? {
      RightEnd(rs, t.r, t.r.n, 0);
    }
  }

  // Splaying halves the search path: its node at depth e ends at depth e/2 + 2 or above.
  lemma SplayHalves(cmp: Comparator, k: Key, t: Tree, e: nat)
    requires t.Br? && e < |Path(cmp, k, t)|
    ensures AtDepth(t, Path(cmp, k, t)[e], e)
    ensures exists d: nat :: 2 * d <= e + 4 && AtDepth(Splayed(cmp, k, Empty, t, Empty), Path(cmp, k, t)[e], d)
  {
    PathDepth(cmp, k, t, e);
    var d := PathHalved(cmp, k, Empty, t, Empty, 0, e);
  }

  lemma {:induction false} PathDepth(cmp: Comparator, k: Key, t: Tree, e: nat)
    requires e < |Path(cmp, k, t)|
    ensures AtDepth(t, Path(cmp, k, t)[e], e)
  {
    if e == 0 {
    } else {
      PathDepth(cmp, k, if cmp(k, t.n.key) < 0 then t.l else t.r, e - 1);
    }
  }
}
