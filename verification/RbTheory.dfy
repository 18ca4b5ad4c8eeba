/** The mathematics behind rbtree.c: trees whose elements are node objects, one-hole contexts, and the
    rebalancing of insertion and removal as functions on them.  Nothing here reads the heap. */
module RbTheory {
  import opened Sequences

  datatype Color = Red | Black | RootMark

  /** `struct rb_node`, at address `addr`. */
  class RbNode {
    var left: RbNode?
    var right: RbNode?
    var parent: RbNode?
    var color: Color
    const addr: nat

    constructor (addr: nat)
      ensures this.addr == addr
    {
      this.addr := addr;
      left, right, parent, color := null, null, null, Red;
    }

    /** The dummy root of an empty tree: RB_ROOT_INIT. */
    constructor Dummy()
      ensures color == RootMark && left == null && right == null && parent == null
    {
      addr := 0;
      left, right, parent, color := null, null, null, RootMark;
    }
  }

  datatype Tree = Leaf | Node(red: bool, left: Tree, elem: RbNode, right: Tree)

  datatype Side = L | R

  /** One step of the path from a hole to the root: the hole is the `side` child of `elem`. */
  datatype Frame = Frame(side: Side, red: bool, elem: RbNode, sib: Tree)

  /** A tree with a hole, read from the hole outwards. */
  datatype Ctx = Top | Under(f: Frame, up: Ctx)

  function Fill(f: Frame, t: Tree): Tree {
    if f.side.L? then Node(f.red, t, f.elem, f.sib) else Node(f.red, f.sib, f.elem, t)
  }

  function Plug(ctx: Ctx, t: Tree): Tree {
    match ctx
    case Top => t
    case Under(f, up) => Plug(up, Fill(f, t))
  }

  function Append(inner: Ctx, outer: Ctx): Ctx {
    match inner
    case Top => outer
    case Under(f, up) => Under(f, Append(up, outer))
  }

  function Root(t: Tree): RbNode? {
    if t.Leaf? then null else t.elem
  }

  function Nodes(t: Tree): set<RbNode> {
    match t
    case Leaf => {}
    case Node(_, l, e, r) => Nodes(l) + {e} + Nodes(r)
  }

  function CtxNodes(ctx: Ctx): set<RbNode> {
    match ctx
    case Top => {}
    case Under(f, up) => {f.elem} + Nodes(f.sib) + CtxNodes(up)
  }

  function InOrder(t: Tree): seq<RbNode> {
    match t
    case Leaf => []
    case Node(_, l, e, r) => InOrder(l) + [e] + InOrder(r)
  }

  /** What comes before the hole in order ... */
  function Before(ctx: Ctx): seq<RbNode> {
    match ctx
    case Top => []
    case Under(f, up) => if f.side.L? then Before(up) else Before(up) + InOrder(f.sib) + [f.elem]
  }

  /** ... and what comes after it. */
  function After(ctx: Ctx): seq<RbNode> {
    match ctx
    case Top => []
    case Under(f, up) => if f.side.L? then [f.elem] + InOrder(f.sib) + After(up) else After(up)
  }

  // ----- the red-black conditions -----

  predicate IsRed(t: Tree) { t.Node? && t.red }

  /** The number of black nodes on the leftmost path; on all paths when the tree is balanced. */
  function BlackHeight(t: Tree): nat {
    match t
    case Leaf => 0
    case Node(red, l, _, _) => BlackHeight(l) + if red then 0 else 1
  }

  predicate NoRedRed(t: Tree) {
    t.Node? ==> (t.red ==> !IsRed(t.left) && !IsRed(t.right)) && NoRedRed(t.left) && NoRedRed(t.right)
  }

  predicate Balanced(t: Tree) {
    t.Node? ==> BlackHeight(t.left) == BlackHeight(t.right) && Balanced(t.left) && Balanced(t.right)
  }

  predicate RedBlack(t: Tree) { !IsRed(t) && NoRedRed(t) && Balanced(t) }

  /** The surroundings of the hole have a black root and no red node with a red child. */
  predicate CtxNoRedRed(ctx: Ctx) {
    match ctx
    case Top => true
    case Under(f, up) =>
      NoRedRed(f.sib) && (f.red ==> !IsRed(f.sib) && MayBeRed(up)) && CtxNoRedRed(up)
  }

  /** A red tree may fill the hole. */
  predicate MayBeRed(ctx: Ctx) { ctx.Under? && !ctx.f.red }

  /** A balanced tree of black height `h` in the hole makes the whole balanced. */
  predicate CtxBalanced(ctx: Ctx, h: nat) {
    match ctx
    case Top => true
    case Under(f, up) =>
      Balanced(f.sib) && BlackHeight(f.sib) == h && CtxBalanced(up, h + if f.red then 0 else 1)
  }

  lemma {:induction false} PlugNoRedRed(ctx: Ctx, t: Tree)
    ensures !IsRed(Plug(ctx, t)) && NoRedRed(Plug(ctx, t))
       <==> CtxNoRedRed(ctx) && NoRedRed(t) && (IsRed(t) ==> MayBeRed(ctx))
  {
    if ctx.Under? { PlugNoRedRed(ctx.up, Fill(ctx.f, t)); }
  }

  lemma {:induction false} PlugBalanced(ctx: Ctx, t: Tree)
    ensures Balanced(Plug(ctx, t)) <==> Balanced(t) && CtxBalanced(ctx, BlackHeight(t))
  {
    if ctx.Under? { PlugBalanced(ctx.up, Fill(ctx.f, t)); }
  }

  lemma {:induction false} PlugInOrder(ctx: Ctx, t: Tree)
    ensures InOrder(Plug(ctx, t)) == Before(ctx) + InOrder(t) + After(ctx)
  {
    if ctx.Under? { PlugInOrder(ctx.up, Fill(ctx.f, t)); }
  }

  lemma PlugSameOrder(ctx: Ctx, t: Tree, u: Tree)
    requires InOrder(t) == InOrder(u)
    ensures InOrder(Plug(ctx, t)) == InOrder(Plug(ctx, u))
  {
    PlugInOrder(ctx, t);
    PlugInOrder(ctx, u);
  }

  lemma {:induction false} PlugNodes(ctx: Ctx, t: Tree)
    ensures Nodes(Plug(ctx, t)) == Nodes(t) + CtxNodes(ctx)
  {
    if ctx.Under? { PlugNodes(ctx.up, Fill(ctx.f, t)); }
  }

  lemma {:induction false} PlugAppend(inner: Ctx, outer: Ctx, t: Tree)
    ensures Plug(Append(inner, outer), t) == Plug(outer, Plug(inner, t))
  {
    if inner.Under? { PlugAppend(inner.up, outer, Fill(inner.f, t)); }
  }

  lemma {:induction false} AppendAssoc(a: Ctx, b: Ctx, c: Ctx)
    ensures Append(Append(a, b), c) == Append(a, Append(b, c))
  {
    if a.Under? { AppendAssoc(a.up, b, c); }
  }

  lemma {:induction false} AppendTop(a: Ctx)
    ensures Append(a, Top) == a
  {
    if a.Under? { AppendTop(a.up); }
  }

  lemma {:induction false} InOrderNodes(t: Tree)
    ensures Nodes(t) == (set n | n in InOrder(t))
  {
    if t.Node? { InOrderNodes(t.left); InOrderNodes(t.right); }
  }

  function Paint(t: Tree, red: bool): Tree
    requires t.Node?
  {
    t.(red := red)
  }

  // ----- insertion -----

  /** Cases 4 and 5: `t` is the tree at the new node, `p` its parent's frame, `g` its grandparent's. */
  function InsertRotate(p: Frame, g: Frame, t: Tree): Tree
    requires t.Node?
  {
    if p.side == g.side then
      if g.side.L? then Node(false, t, p.elem, Node(true, p.sib, g.elem, g.sib))
      else Node(false, Node(true, g.sib, g.elem, p.sib), p.elem, t)
    else
      if g.side.L? then
        Node(false, Node(p.red, p.sib, p.elem, t.left), t.elem, Node(true, t.right, g.elem, g.sib))
      else
        Node(false, Node(true, g.sib, g.elem, t.left), t.elem, Node(p.red, t.right, p.elem, p.sib))
  }

  /** Case 3: parent and uncle black, grandparent red. */
  function InsertRecolor(p: Frame, g: Frame, t: Tree): Tree
    requires g.sib.Node?
  {
    Fill(g.(red := true, sib := Paint(g.sib, false)), Fill(p.(red := false), t))
  }

  /** The rebalancing of navi_rb_insert: `t` is the tree at the node the loop looks at. */
  function InsertFix(ctx: Ctx, t: Tree): Tree
    requires t.Node?
    decreases ctx
  {
    match ctx
    case Top => Paint(t, false)                                              // case 1
    case Under(p, pp) =>
      if !p.red || pp.Top? then Plug(ctx, t)                                 // case 2; a root is black
      else if IsRed(pp.f.sib) then InsertFix(pp.up, InsertRecolor(p, pp.f, t))    // case 3
      else Plug(pp.up, InsertRotate(p, pp.f, t))                             // cases 4 and 5
  }

  lemma RotateInOrder(a: Tree, x: RbNode, b: Tree, y: RbNode, c: Tree, r0: bool, r1: bool, r2: bool, r3: bool)
    ensures InOrder(Node(r0, Node(r1, a, x, b), y, c)) == InOrder(Node(r2, a, x, Node(r3, b, y, c)))
  {
    var u, v, w := InOrder(a), InOrder(b), InOrder(c);
    assert (u + [x] + v) + [y] + w == u + [x] + (v + [y] + w);
  }

  lemma InsertRotateInOrder(p: Frame, g: Frame, t: Tree)
    requires t.Node?
    ensures InOrder(InsertRotate(p, g, t)) == InOrder(Fill(g, Fill(p, t)))
  {
    if p.side == g.side {
      if g.side.L? {
        RotateInOrder(t, p.elem, p.sib, g.elem, g.sib, g.red, p.red, false, true);
      } else {
        RotateInOrder(g.sib, g.elem, p.sib, p.elem, t, false, true, g.red, p.red);
      }
    } else if g.side.L? {
      var raised := Node(false, Node(p.red, p.sib, p.elem, t.left), t.elem, t.right);
      RotateInOrder(p.sib, p.elem, t.left, t.elem, t.right, false, p.red, p.red, t.red);
      assert InOrder(Fill(g, Fill(p, t))) == InOrder(Fill(g, raised));
      RotateInOrder(raised.left, t.elem, t.right, g.elem, g.sib, g.red, false, false, true);
    } else {
      var raised := Node(false, t.left, t.elem, Node(p.red, t.right, p.elem, p.sib));
      RotateInOrder(t.left, t.elem, t.right, p.elem, p.sib, p.red, t.red, false, p.red);
      assert InOrder(Fill(g, Fill(p, t))) == InOrder(Fill(g, raised));
      RotateInOrder(g.sib, g.elem, t.left, t.elem, raised.right, false, true, g.red, false);
    }
  }

  lemma {:induction false} InsertFixInOrder(ctx: Ctx, t: Tree)
    requires t.Node?
    ensures InOrder(InsertFix(ctx, t)) == InOrder(Plug(ctx, t))
    decreases ctx
  {
    if ctx.Under? && ctx.f.red && ctx.up.Under? {
      var p, g, up := ctx.f, ctx.up.f, ctx.up.up;
      var whole := Fill(g, Fill(p, t));
      assert Plug(ctx, t) == Plug(ctx.up, Fill(p, t)) == Plug(up, whole);
      if IsRed(g.sib) {
        var s := InsertRecolor(p, g, t);
        InsertFixInOrder(up, s);
        PlugSameOrder(up, s, whole);
      } else {
        InsertRotateInOrder(p, g, t);
        PlugSameOrder(up, InsertRotate(p, g, t), whole);
      }
    }
  }

  /** What cases 3 to 5 do below a context that wants a tree of black height `h + 1`. */
  lemma InsertStep(p: Frame, g: Frame, up: Ctx, t: Tree)
    requires IsRed(t) && NoRedRed(t) && Balanced(t) && p.red
    requires CtxNoRedRed(Under(p, Under(g, up))) && CtxBalanced(Under(p, Under(g, up)), BlackHeight(t))
    ensures !g.red && CtxNoRedRed(up) && CtxBalanced(up, BlackHeight(t) + 1)
    ensures IsRed(g.sib) ==> var s := InsertRecolor(p, g, t);
      IsRed(s) && NoRedRed(s) && Balanced(s) && BlackHeight(s) == BlackHeight(t) + 1
    ensures !IsRed(g.sib) ==> var s := InsertRotate(p, g, t);
      !IsRed(s) && NoRedRed(s) && Balanced(s) && BlackHeight(s) == BlackHeight(t) + 1
  {
    var upper := Under(g, up);
    assert CtxNoRedRed(upper) && CtxBalanced(upper, BlackHeight(t));
    assert NoRedRed(t.left) && NoRedRed(t.right) && Balanced(t.left) && Balanced(t.right);
  }

  /** The loop repairs a red node under a possibly red parent. */
  lemma {:induction false} InsertFixRedBlack(ctx: Ctx, t: Tree)
    requires IsRed(t) && NoRedRed(t) && Balanced(t)
    requires CtxNoRedRed(ctx) && CtxBalanced(ctx, BlackHeight(t))
    ensures RedBlack(InsertFix(ctx, t))
    decreases ctx
  {
    if ctx.Under? {
      var p, pp := ctx.f, ctx.up;
      if !p.red || pp.Top? {
        PlugNoRedRed(ctx, t);
        PlugBalanced(ctx, t);
      } else {
        InsertStep(p, pp.f, pp.up, t);
        if IsRed(pp.f.sib) {
          InsertFixRedBlack(pp.up, InsertRecolor(p, pp.f, t));
        } else {
          PlugNoRedRed(pp.up, InsertRotate(p, pp.f, t));
          PlugBalanced(pp.up, InsertRotate(p, pp.f, t));
        }
      }
    }
  }

  lemma InsertNodes(ctx: Ctx, node: RbNode)
    ensures var w := InsertFix(ctx, Node(true, Leaf, node, Leaf)); Nodes(w) == CtxNodes(ctx) + {node}
  {
    var t := Node(true, Leaf, node, Leaf);
    InsertFixInOrder(ctx, t);
    PlugNodes(ctx, t);
    InOrderNodes(InsertFix(ctx, t));
    InOrderNodes(Plug(ctx, t));
  }

  /** navi_rb_insert at an empty link: the new node appears there and every condition holds again. */
  lemma InsertOk(ctx: Ctx, node: RbNode)
    ensures var w := InsertFix(ctx, Node(true, Leaf, node, Leaf));
      && InOrder(w) == Before(ctx) + [node] + After(ctx)
      && (RedBlack(Plug(ctx, Leaf)) ==> RedBlack(w))
  {
    var t := Node(true, Leaf, node, Leaf);
    InsertFixInOrder(ctx, t);
    PlugInOrder(ctx, t);
    assert InOrder(t) == [node];
    if RedBlack(Plug(ctx, Leaf)) {
      PlugNoRedRed(ctx, Leaf);
      PlugBalanced(ctx, Leaf);
      InsertFixRedBlack(ctx, t);
    }
  }

  // ----- removal -----

  function Near(side: Side, sib: Tree): Tree
    requires sib.Node?
  { if side.L? then sib.left else sib.right }

  function Far(side: Side, sib: Tree): Tree
    requires sib.Node?
  { if side.L? then sib.right else sib.left }

  /** A sibling of a `side` hole, given its child next to the hole and its child away from it. */
  function Sibling(side: Side, red: bool, near: Tree, elem: RbNode, far: Tree): Tree {
    if side.L? then Node(red, near, elem, far) else Node(red, far, elem, near)
  }

  /** Case 2, a red sibling: rotate it above the parent; the hole is now two frames down. */
  function RedSibling(p: Frame, up: Ctx): Ctx
    requires p.sib.Node?
  {
    Under(p.(red := true, sib := Near(p.side, p.sib)),
          Under(Frame(p.side, false, p.sib.elem, Far(p.side, p.sib)), up))
  }

  predicate BlackNephews(p: Frame) {
    p.sib.Node? && !IsRed(p.sib.left) && !IsRed(p.sib.right)
  }

  /** Parent, sibling and nephews are black: the condition of case 3. */
  predicate AllBlackFrame(p: Frame) {
    !p.red && !IsRed(p.sib) && BlackNephews(p)
  }

  /** Case 5: turn a red near nephew into a red far one. */
  function FarNephew(side: Side, sib: Tree): Tree
    requires sib.Node?
  {
    var near, far := Near(side, sib), Far(side, sib);
    if !sib.red && IsRed(near) && !IsRed(far)
    then Sibling(side, false, Near(side, near), near.elem, Sibling(side, true, Far(side, near), sib.elem, far))
    else sib
  }

  /** Case 6: the sibling takes the parent's place and colour. */
  function RaiseSibling(p: Frame, up: Ctx): Ctx
    requires p.sib.Node? && Far(p.side, p.sib).Node?
  {
    Under(p.(red := false, sib := Near(p.side, p.sib)),
          Under(Frame(p.side, p.red, p.sib.elem, Paint(Far(p.side, p.sib), false)), up))
  }

  /** Cases 4 to 6, and the exit when there is no sibling. */
  function RemoveTail(p: Frame, up: Ctx): Ctx {
    if p.sib.Leaf? then Under(p, up)
    else if p.red && !p.sib.red && BlackNephews(p) then
      Under(p.(red := false, sib := Paint(p.sib, true)), up)
    else
      var q := p.(sib := FarNephew(p.side, p.sib));
      if Far(q.side, q.sib).Node? then RaiseSibling(q, up) else Under(q, up)
  }

  /** The rebalancing of navi_rb_remove above a hole whose tree is to lose one black level. */
  function RemoveFix(ctx: Ctx): Ctx {
    match ctx
    case Top => Top                                                          // case 1
    case Under(p, up) =>
      if IsRed(p.sib) then                                                   // case 2
        var c := RedSibling(p, up); RemoveTail(c.f, c.up)
      else if AllBlackFrame(p) then                                          // case 3
        Under(p.(sib := Paint(p.sib, true)), RemoveFix(up))
      else RemoveTail(p, up)
  }

  /** Case 6, if the code comes to it, finds a far nephew. */
  predicate TailSafe(p: Frame) {
    p.sib.Leaf? || (p.red && !p.sib.red && BlackNephews(p)) || Far(p.side, FarNephew(p.side, p.sib)).Node?
  }

  /** The loop follows no null pointer. */
  predicate FixSafe(ctx: Ctx) {
    ctx.Under? ==>
      if IsRed(ctx.f.sib) then TailSafe(RedSibling(ctx.f, ctx.up).f)
      else if AllBlackFrame(ctx.f) then FixSafe(ctx.up)
      else TailSafe(ctx.f)
  }

  /** Without a red-red edge it does not. */
  lemma {:induction false} NoRedRedIsSafe(ctx: Ctx)
    requires CtxNoRedRed(ctx)
    ensures FixSafe(ctx)
  {
    if ctx.Under? && !IsRed(ctx.f.sib) && AllBlackFrame(ctx.f) { NoRedRedIsSafe(ctx.up); }
  }

  /** Every step up from the hole is case 3, so the loop climbs to the root. */
  predicate Climbs(ctx: Ctx) {
    ctx.Under? ==> AllBlackFrame(ctx.f) && Climbs(ctx.up)
  }

  /** After case 5 the far nephew is red, and the sibling is as balanced as before. */
  lemma FarNephewOk(side: Side, sib: Tree)
    requires sib.Node? && !sib.red && NoRedRed(sib) && Balanced(sib) && (IsRed(sib.left) || IsRed(sib.right))
    ensures var q := FarNephew(side, sib);
      && q.Node? && !q.red && IsRed(Far(side, q)) && BlackHeight(q) == BlackHeight(sib) && Balanced(q)
      && NoRedRed(Near(side, q)) && NoRedRed(Paint(Far(side, q), false))
  {
    assert NoRedRed(sib.left) && NoRedRed(sib.right) && Balanced(sib.left) && Balanced(sib.right);
  }

  lemma RaiseSiblingOk(p: Frame, up: Ctx, h: nat)
    requires CtxNoRedRed(up) && CtxBalanced(up, h + 1 + if p.red then 0 else 1) && (p.red ==> MayBeRed(up))
    requires p.sib.Node? && !p.sib.red && IsRed(Far(p.side, p.sib)) && BlackHeight(p.sib) == h + 1 && Balanced(p.sib)
    requires NoRedRed(Near(p.side, p.sib)) && NoRedRed(Paint(Far(p.side, p.sib), false))
    ensures var c := RaiseSibling(p, up);
      CtxNoRedRed(c) && CtxBalanced(c, h) && MayBeRed(c)
  {
    assert Balanced(p.sib.left) && Balanced(p.sib.right);
    assert BlackHeight(Paint(Far(p.side, p.sib), false)) == h + 1;
  }

  lemma RemoveTailOk(p: Frame, up: Ctx, h: nat)
    requires CtxNoRedRed(Under(p, up)) && CtxBalanced(Under(p, up), h + 1)
    requires !IsRed(p.sib) && !AllBlackFrame(p)
    ensures var c := RemoveTail(p, up);
      CtxNoRedRed(c) && CtxBalanced(c, h) && MayBeRed(c)
  {
    assert p.sib.Node?;
    if p.red && BlackNephews(p) {
      assert NoRedRed(Paint(p.sib, true)) && BlackHeight(Paint(p.sib, true)) == h;
    } else {
      hide RaiseSibling;
      hide FarNephew;
      FarNephewOk(p.side, p.sib);
      RaiseSiblingOk(p.(sib := FarNephew(p.side, p.sib)), up, h);
    }
  }

  lemma RedSiblingOk(p: Frame, up: Ctx, h: nat)
    requires CtxNoRedRed(Under(p, up)) && CtxBalanced(Under(p, up), h + 1) && IsRed(p.sib)
    ensures var c := RedSibling(p, up);
      CtxNoRedRed(c) && CtxBalanced(c, h + 1) && c.f.red && !IsRed(c.f.sib)
  {
  }

  /** The loop takes one black level from the hole and keeps the rest in order. */
  lemma {:induction false} RemoveFixOk(ctx: Ctx, h: nat)
    requires CtxNoRedRed(ctx) && CtxBalanced(ctx, h + 1)
    ensures var c := RemoveFix(ctx);
      && CtxNoRedRed(c) && CtxBalanced(c, h)
      && (c.Top? <==> ctx.Top?) && (c.Under? ==> MayBeRed(c))
  {
    if ctx.Under? {
      var p, up := ctx.f, ctx.up;
      if IsRed(p.sib) {
        RedSiblingOk(p, up, h);
        var c := RedSibling(p, up);
        RemoveTailOk(c.f, c.up, h);
      } else if AllBlackFrame(p) {
        RemoveFixOk(up, h + 1);
      } else {
        RemoveTailOk(p, up, h);
      }
    }
  }

  /** A left or right rotation around the edge between a frame's element and its sibling tree. */
  lemma RaiseInOrder(side: Side, t: Tree, p: RbNode, near: Tree, s: RbNode, far: Tree,
                     r0: bool, r1: bool, r2: bool, r3: bool)
    ensures InOrder(Fill(Frame(side, r0, s, far), Fill(Frame(side, r1, p, near), t)))
         == InOrder(Fill(Frame(side, r2, p, Sibling(side, r3, near, s, far)), t))
  {
    if side.L? {
      RotateInOrder(t, p, near, s, far, r0, r1, r2, r3);
    } else {
      RotateInOrder(far, s, near, p, t, r2, r3, r0, r1);
    }
  }

  lemma FarNephewInOrder(side: Side, sib: Tree)
    requires sib.Node?
    ensures InOrder(FarNephew(side, sib)) == InOrder(sib)
  {
    var near, far := Near(side, sib), Far(side, sib);
    if !sib.red && IsRed(near) && !IsRed(far) {
      if side.L? {
        RotateInOrder(near.left, near.elem, near.right, sib.elem, far, sib.red, near.red, false, true);
      } else {
        RotateInOrder(far, sib.elem, near.left, near.elem, near.right, false, true, sib.red, near.red);
      }
    }
  }

  lemma FillSameOrder(f: Frame, g: Frame, t: Tree)
    requires f.side == g.side && f.elem == g.elem && InOrder(f.sib) == InOrder(g.sib)
    ensures InOrder(Fill(f, t)) == InOrder(Fill(g, t))
  {
  }

  lemma RemoveTailInOrder(p: Frame, up: Ctx, t: Tree)
    ensures InOrder(Plug(RemoveTail(p, up), t)) == InOrder(Plug(up, Fill(p, t)))
  {
    if p.sib.Node? {
      if p.red && !p.sib.red && BlackNephews(p) {
        var q := p.(red := false, sib := Paint(p.sib, true));
        FillSameOrder(q, p, t);
        PlugSameOrder(up, Fill(q, t), Fill(p, t));
      } else {
        var q := p.(sib := FarNephew(p.side, p.sib));
        FarNephewInOrder(p.side, p.sib);
        FillSameOrder(q, p, t);
        PlugSameOrder(up, Fill(q, t), Fill(p, t));
        if Far(q.side, q.sib).Node? {
          var c := RaiseSibling(q, up);
          var near, far := Near(q.side, q.sib), Far(q.side, q.sib);
          RaiseInOrder(q.side, t, q.elem, near, q.sib.elem, Paint(far, false), q.red, false, q.red, q.sib.red);
          var q' := q.(sib := Sibling(q.side, q.sib.red, near, q.sib.elem, Paint(far, false)));
          FillSameOrder(q', q, t);
          PlugSameOrder(up, Fill(c.up.f, Fill(c.f, t)), Fill(q, t));
        }
      }
    }
  }

  lemma {:induction false} RemoveFixInOrder(ctx: Ctx, t: Tree)
    ensures InOrder(Plug(RemoveFix(ctx), t)) == InOrder(Plug(ctx, t))
  {
    if ctx.Under? {
      var p, up := ctx.f, ctx.up;
      if IsRed(p.sib) {
        var c := RedSibling(p, up);
        var near, far := Near(p.side, p.sib), Far(p.side, p.sib);
        RaiseInOrder(p.side, t, p.elem, near, p.sib.elem, far, false, true, p.red, p.sib.red);
        PlugSameOrder(up, Fill(c.up.f, Fill(c.f, t)), Fill(p, t));
        RemoveTailInOrder(c.f, c.up, t);
      } else if AllBlackFrame(p) {
        var q := p.(sib := Paint(p.sib, true));
        FillSameOrder(q, p, t);
        RemoveFixInOrder(up, Fill(q, t));
        PlugSameOrder(up, Fill(q, t), Fill(p, t));
      } else {
        RemoveTailInOrder(p, up, t);
      }
    }
  }

  // ----- the node that is unlinked -----

  /** The path navi_rb_last takes: down the right spine of `t`. */
  function Last(ctx: Ctx, t: Tree): (r: (Ctx, Tree))
    requires t.Node?
    ensures r.1.Node? && r.1.right.Leaf?
    decreases t
  {
    if t.right.Leaf? then (ctx, t) else Last(Under(Frame(R, t.red, t.elem, t.left), ctx), t.right)
  }

  lemma {:induction false} LastAppend(ctx: Ctx, outer: Ctx, t: Tree)
    requires t.Node?
    ensures Last(Append(ctx, outer), t) == (Append(Last(ctx, t).0, outer), Last(ctx, t).1)
    decreases t
  {
    if t.right.Node? { LastAppend(Under(Frame(R, t.red, t.elem, t.left), ctx), outer, t.right); }
  }

  lemma {:induction false} LastPlug(ctx: Ctx, t: Tree)
    requires t.Node?
    ensures Plug(Last(ctx, t).0, Last(ctx, t).1) == Plug(ctx, t)
    ensures After(ctx) == [] ==> After(Last(ctx, t).0) == []
    decreases t
  {
    if t.right.Node? { LastPlug(Under(Frame(R, t.red, t.elem, t.left), ctx), t.right); }
  }

  /** Where the node of `t` stands once navi_rb_remove has traded it for its predecessor, if it has to. */
  function Victim(ctx: Ctx, t: Tree): (r: (Ctx, Tree))
    requires t.Node?
    ensures r.1.Node? && r.1.elem == t.elem && (r.1.left.Leaf? || r.1.right.Leaf?)
  {
    if t.left.Node? && t.right.Node? then
      var (inner, v) := Last(Top, t.left);
      (Append(inner, Under(Frame(L, t.red, v.elem, t.right), ctx)), Node(v.red, v.left, t.elem, Leaf))
    else (ctx, t)
  }

  function OnlyChild(v: Tree): Tree
    requires v.Node?
  {
    if v.right.Node? then v.right else v.left
  }

  /** Removal of a node with at most one child; `asWritten` selects the test of rbtree.c:284. */
  function Unlink(ctx: Ctx, v: Tree, asWritten: bool): Tree
    requires v.Node?
  {
    var child := OnlyChild(v);
    var c := if v.red then ctx else RemoveFix(ctx);
    var atRoot := ctx.Top? || (asWritten && !v.red && Climbs(ctx));
    Plug(c, if atRoot && child.Node? then Paint(child, false) else child)
  }

  /** When the test of rbtree.c:284 looks at the wrong node: the victim has a child, is not the root, and
      every node on its way up, with its sibling and nephews, is black. */
  predicate Defect(ctx: Ctx, v: Tree)
    requires v.Node?
  {
    OnlyChild(v).Node? && ctx.Under? && Climbs(ctx)
  }

  lemma {:induction false} AppendOrder(inner: Ctx, outer: Ctx)
    ensures Before(Append(inner, outer)) == Before(outer) + Before(inner)
    ensures After(Append(inner, outer)) == After(inner) + After(outer)
  {
    if inner.Under? { AppendOrder(inner.up, outer); }
  }

  /** Which element sits in a frame matters to no red-black condition. */
  lemma {:induction false} ElementsDoNotMatter(inner: Ctx, f: Frame, g: Frame, up: Ctx, h: nat)
    requires f == g.(elem := f.elem)
    ensures var a, b := Append(inner, Under(f, up)), Append(inner, Under(g, up));
      && (CtxNoRedRed(a) <==> CtxNoRedRed(b)) && (CtxBalanced(a, h) <==> CtxBalanced(b, h))
      && (MayBeRed(a) <==> MayBeRed(b))
  {
    if inner.Under? { ElementsDoNotMatter(inner.up, f, g, up, h + if inner.f.red then 0 else 1); }
  }

  lemma VictimRedBlack(ctx: Ctx, t: Tree)
    requires t.Node? && RedBlack(Plug(ctx, t))
    ensures var (c, v) := Victim(ctx, t); RedBlack(Plug(c, v))
  {
    if t.left.Node? && t.right.Node? {
      var (inner, v) := Last(Top, t.left);
      var here, there := Frame(L, t.red, t.elem, t.right), Frame(L, t.red, v.elem, t.right);
      var w := Node(v.red, v.left, t.elem, Leaf);
      var a, b := Append(inner, Under(here, ctx)), Append(inner, Under(there, ctx));
      LastPlug(Top, t.left);
      PlugAppend(inner, Under(here, ctx), v);
      assert Plug(a, v) == Plug(ctx, t);
      PlugNoRedRed(a, v);
      PlugBalanced(a, v);
      ElementsDoNotMatter(inner, there, here, ctx, BlackHeight(v));
      PlugNoRedRed(b, w);
      PlugBalanced(b, w);
    }
  }

  lemma Reassociate<T>(o: seq<T>, i: seq<T>, l: seq<T>, e: seq<T>, r: seq<T>, u: seq<T>)
    ensures (o + i) + l + ([] + (e + r + u)) == (o + (i + (l + e) + [])) + (r + u)
    ensures i == e == [] ==> o + (l + r) + u == (o + l) + (r + u)
  {
  }

  lemma VictimOrder(ctx: Ctx, t: Tree)
    requires t.Node?
    ensures var (c, v) := Victim(ctx, t);
      Before(c) + InOrder(OnlyChild(v)) + After(c) == (Before(ctx) + InOrder(t.left)) + (InOrder(t.right) + After(ctx))
  {
    if t.left.Node? && t.right.Node? {
      var (inner, v) := Last(Top, t.left);
      var there := Under(Frame(L, t.red, v.elem, t.right), ctx);
      LastPlug(Top, t.left);
      PlugInOrder(inner, v);
      var o, i, l, r, u := Before(ctx), Before(inner), InOrder(v.left), InOrder(t.right), After(ctx);
      assert InOrder(v) == l + [v.elem];
      assert InOrder(t.left) == i + (l + [v.elem]) + [];
      AppendOrder(inner, there);
      Reassociate(o, i, l, [v.elem], r, u);
    } else {
      assert InOrder(t.left) + InOrder(t.right) == InOrder(OnlyChild(t));
      Reassociate(Before(ctx), [], InOrder(t.left), [], InOrder(t.right), After(ctx));
    }
  }

  lemma UnlinkInOrder(ctx: Ctx, v: Tree, asWritten: bool)
    requires v.Node?
    ensures InOrder(Unlink(ctx, v, asWritten)) == Before(ctx) + InOrder(OnlyChild(v)) + After(ctx)
  {
    var child := OnlyChild(v);
    var painted := if child.Node? then Paint(child, false) else child;
    forall t | t == child || t == painted
      ensures InOrder(Plug(ctx, t)) == Before(ctx) + InOrder(child) + After(ctx)
      ensures InOrder(Plug(RemoveFix(ctx), t)) == InOrder(Plug(ctx, t))
    {
      PlugInOrder(ctx, t);
      RemoveFixInOrder(ctx, t);
    }
  }

  /** Removal keeps a black root and no red-red edge, and the balance exactly outside the defect. */
  lemma UnlinkOk(ctx: Ctx, v: Tree, asWritten: bool)
    requires v.Node? && (v.left.Leaf? || v.right.Leaf?) && RedBlack(Plug(ctx, v))
    ensures var r := Unlink(ctx, v, asWritten);
      !IsRed(r) && NoRedRed(r) && (Balanced(r) <==> !(asWritten && Defect(ctx, v)))
  {
    PlugNoRedRed(ctx, v);
    PlugBalanced(ctx, v);
    var child, h := OnlyChild(v), BlackHeight(v);
    assert Balanced(child) && NoRedRed(child) && BlackHeight(child) == 0;
    var c := if v.red then ctx else RemoveFix(ctx);
    if !v.red { RemoveFixOk(ctx, 0); }
    PlugNoRedRed(c, child);
    PlugBalanced(c, child);
    if child.Node? {
      PlugNoRedRed(c, Paint(child, false));
      PlugBalanced(c, Paint(child, false));
    }
  }

  // ----- removal from a whole tree -----

  /** The zipper at node `n`. */
  function Path(ctx: Ctx, t: Tree, n: RbNode): (r: (Ctx, Tree))
    requires n in Nodes(t)
    ensures r.1.Node? && r.1.elem == n
    decreases t
  {
    if n in Nodes(t.left) then Path(Under(Frame(L, t.red, t.elem, t.right), ctx), t.left, n)
    else if t.elem == n then (ctx, t)
    else Path(Under(Frame(R, t.red, t.elem, t.left), ctx), t.right, n)
  }

  lemma {:induction false} PathPlug(ctx: Ctx, t: Tree, n: RbNode)
    requires n in Nodes(t)
    ensures var (c, s) := Path(ctx, t, n); Plug(c, s) == Plug(ctx, t)
    decreases t
  {
    if n in Nodes(t.left) {
      PathPlug(Under(Frame(L, t.red, t.elem, t.right), ctx), t.left, n);
    } else if t.elem != n {
      PathPlug(Under(Frame(R, t.red, t.elem, t.left), ctx), t.right, n);
    }
  }

  function RemoveTree(t: Tree, n: RbNode, asWritten: bool): Tree
    requires n in Nodes(t)
  {
    var (ctx, s) := Path(Top, t, n);
    var (c, v) := Victim(ctx, s);
    Unlink(c, v, asWritten)
  }

  /** Removing `n` follows no null pointer. */
  predicate RemoveSafe(t: Tree, n: RbNode)
    requires n in Nodes(t)
  {
    var (ctx, s) := Path(Top, t, n);
    var (c, v) := Victim(ctx, s);
    v.red || FixSafe(c)
  }

  predicate DefectAt(t: Tree, n: RbNode)
    requires n in Nodes(t)
  {
    var (ctx, s) := Path(Top, t, n);
    var (c, v) := Victim(ctx, s);
    Defect(c, v)
  }

  lemma SplitAt(t: Tree, ctx: Ctx, s: Tree)
    requires s.Node? && Plug(ctx, s) == t
    ensures InOrder(t) == (Before(ctx) + InOrder(s.left)) + [s.elem] + (InOrder(s.right) + After(ctx))
  {
    PlugInOrder(ctx, s);
    Reassociate(Before(ctx), [], InOrder(s.left) + [s.elem], [], InOrder(s.right), After(ctx));
    assert Before(ctx) + (InOrder(s.left) + [s.elem]) == (Before(ctx) + InOrder(s.left)) + [s.elem];
  }

  /** navi_rb_remove: exact effect on the red-black conditions. */
  lemma RemoveTreeOk(t: Tree, n: RbNode, asWritten: bool)
    requires n in Nodes(t) && RedBlack(t)
    ensures var r := RemoveTree(t, n, asWritten);
      !IsRed(r) && NoRedRed(r) && (Balanced(r) <==> !(asWritten && DefectAt(t, n)))
  {
    PathPlug(Top, t, n);
    var (ctx, s) := Path(Top, t, n);
    var (c, v) := Victim(ctx, s);
    VictimRedBlack(ctx, s);
    UnlinkOk(c, v, asWritten);
  }

  /** The colours of the tree around the victim are those of the tree around the node. */
  lemma VictimNoRedRed(ctx: Ctx, t: Tree)
    requires t.Node? && !IsRed(Plug(ctx, t)) && NoRedRed(Plug(ctx, t))
    ensures CtxNoRedRed(Victim(ctx, t).0)
  {
    PlugNoRedRed(ctx, t);
    if t.left.Node? && t.right.Node? {
      var (inner, v) := Last(Top, t.left);
      var here, there := Frame(L, t.red, t.elem, t.right), Frame(L, t.red, v.elem, t.right);
      var a := Append(inner, Under(here, ctx));
      LastPlug(Top, t.left);
      PlugAppend(inner, Under(here, ctx), v);
      assert Plug(a, v) == Plug(ctx, t);
      PlugNoRedRed(a, v);
      ElementsDoNotMatter(inner, there, here, ctx, 0);
    }
  }

  /** A tree with a black root and no red-red edge, whatever its heights, lets any node be removed. */
  lemma NoRedRedRemoves(t: Tree, n: RbNode)
    requires n in Nodes(t) && !IsRed(t) && NoRedRed(t)
    ensures RemoveSafe(t, n)
  {
    PathPlug(Top, t, n);
    var (ctx, s) := Path(Top, t, n);
    VictimNoRedRed(ctx, s);
    NoRedRedIsSafe(Victim(ctx, s).0);
  }

  /** On any tree, the sequence loses the node and nothing else. */
  lemma RemoveInOrder(t: Tree, n: RbNode, asWritten: bool)
    requires n in Nodes(t) && NoDuplicates(InOrder(t))
    ensures InOrder(RemoveTree(t, n, asWritten)) == Without(InOrder(t), n)
  {
    PathPlug(Top, t, n);
    var (ctx, s) := Path(Top, t, n);
    var (c, v) := Victim(ctx, s);
    SplitAt(t, ctx, s);
    Distinguished(Before(ctx) + InOrder(s.left), n, InOrder(s.right) + After(ctx));
    WithoutMiddle(Before(ctx) + InOrder(s.left), n, InOrder(s.right) + After(ctx));
    VictimOrder(ctx, s);
    UnlinkInOrder(c, v, asWritten);
  }

  // ----- rbtree.c:284 -----

  function RedLeaf(n: RbNode): Tree { Node(true, Leaf, n, Leaf) }

  /** Inserting keys 2, 1, 3 and 0, in this order, into an empty tree. */
  lemma InsertFour(n0: RbNode, n1: RbNode, n2: RbNode, n3: RbNode)
    ensures var c0, c1 := Top, Under(Frame(L, false, n2, Leaf), Top);
      var c2 := Under(Frame(R, false, n2, RedLeaf(n1)), Top);
      var c3 := Under(Frame(L, true, n1, Leaf), Under(Frame(L, false, n2, RedLeaf(n3)), Top));
      && InsertFix(c0, RedLeaf(n2)) == Plug(c1, Leaf) && InsertFix(c1, RedLeaf(n1)) == Plug(c2, Leaf)
      && InsertFix(c2, RedLeaf(n3)) == Plug(c3, Leaf) && InsertFix(c3, RedLeaf(n0)) == FourNodes(n0, n1, n2, n3)
  {
  }

  function FourNodes(n0: RbNode, n1: RbNode, n2: RbNode, n3: RbNode): Tree {
    Node(false, Node(false, RedLeaf(n0), n1, Leaf), n2, Node(false, Leaf, n3, Leaf))
  }

  /** Removing key 1 then leaves a black node 0 beside a red node 3; the corrected test keeps the balance. */
  lemma TestOfTheWrongNode(n0: RbNode, n1: RbNode, n2: RbNode, n3: RbNode)
    requires n1 != n0 && n1 != n2 && n1 != n3
    ensures var w := FourNodes(n0, n1, n2, n3);
      && RedBlack(w) && n1 in Nodes(w) && DefectAt(w, n1)
      && RemoveTree(w, n1, true) == Node(false, Node(false, Leaf, n0, Leaf), n2, RedLeaf(n3))
      && !Balanced(RemoveTree(w, n1, true)) && RedBlack(RemoveTree(w, n1, false))
  {
    var w := FourNodes(n0, n1, n2, n3);
    var up := Under(Frame(L, false, n2, Node(false, Leaf, n3, Leaf)), Top);
    var up' := Under(Frame(L, false, n2, RedLeaf(n3)), Top);
    assert Path(Top, w, n1) == (up, w.left) by {
      assert n1 in Nodes(w.left) && n1 !in Nodes(RedLeaf(n0));
      assert Path(up, w.left, n1) == (up, w.left);
    }
    assert Victim(up, w.left) == (up, w.left);
    assert Climbs(up) && RemoveFix(up) == up';
    var bad := Node(false, Node(false, Leaf, n0, Leaf), n2, RedLeaf(n3));
    var good := Node(false, RedLeaf(n0), n2, RedLeaf(n3));
    assert Unlink(up, w.left, true) == Plug(up', Node(false, Leaf, n0, Leaf)) == Plug(Top, bad);
    assert Unlink(up, w.left, false) == Plug(up', RedLeaf(n0)) == Plug(Top, good);
    assert BlackHeight(bad.left) == 1 && BlackHeight(RedLeaf(n3)) == 0 && BlackHeight(RedLeaf(n0)) == 0;
    assert RedBlack(good) by { assert Balanced(good.left) && Balanced(good.right); }
    assert RedBlack(w) by {
      assert BlackHeight(w.left) == BlackHeight(w.right) == 1;
      assert Balanced(w.left) && Balanced(w.right) && NoRedRed(w.left) && NoRedRed(w.right);
    }
  }

  // ----- height -----

  function Height(t: Tree): nat {
    if t.Leaf? then 0 else 1 + if Height(t.left) > Height(t.right) then Height(t.left) else Height(t.right)
  }

  function Pow2(k: nat): nat {
    if k == 0 then 1 else 2 * Pow2(k - 1)
  }

  lemma {:induction false} HeightAtMost(t: Tree)
    requires NoRedRed(t) && Balanced(t)
    ensures Height(t) <= 2 * BlackHeight(t) + if IsRed(t) then 1 else 0
    ensures Pow2(BlackHeight(t)) <= |InOrder(t)| + 1
  {
    if t.Node? {
      HeightAtMost(t.left);
      HeightAtMost(t.right);
    }
  }

  lemma {:induction false} Pow2Monotone(a: nat, b: nat)
    requires a <= b
    ensures Pow2(a) <= Pow2(b)
  {
    if a < b { Pow2Monotone(a, b - 1); }
  }

  /** A red-black tree of N nodes is at most 2 log2(N + 1) high. */
  lemma HeightBound(t: Tree)
    requires RedBlack(t)
    ensures Pow2((Height(t) + 1) / 2) <= |InOrder(t)| + 1
  {
    HeightAtMost(t);
    Pow2Monotone((Height(t) + 1) / 2, BlackHeight(t));
  }
}
