/** rbtree.c on the heap: every procedure is proved against the functions of RbTheory. */
module RbTree {
  import opened RbTheory

  // ----- what it means for nodes in memory to form a tree -----

  datatype Rec = Rec(left: RbNode?, right: RbNode?, parent: RbNode?, color: Color)

  type Mem = map<RbNode, Rec>

  /** The contents of the nodes in `S`. */
  ghost function Snap(S: set<RbNode>): Mem
    reads S
  {
    map n | n in S :: Rec(n.left, n.right, n.parent, n.color)
  }

  function ColorOf(red: bool): Color { if red then Red else Black }

  /** The nodes of `t` are linked as `t` says, and its root points up to `par`. */
  predicate Shape(t: Tree, par: RbNode, m: Mem) {
    t.Node? ==>
      && t.elem in m && m[t.elem] == Rec(Root(t.left), Root(t.right), par, ColorOf(t.red))
      && Shape(t.left, t.elem, m) && Shape(t.right, t.elem, m)
  }

  function Parent(ctx: Ctx, top: RbNode): RbNode {
    if ctx.Top? then top else ctx.f.elem
  }

  /** The nodes around the hole, up to the dummy root `top`; `hole` is the pointer stored in the hole. */
  predicate CtxShape(ctx: Ctx, top: RbNode, hole: RbNode?, m: Mem) {
    match ctx
    case Top => top in m && m[top] == Rec(hole, null, null, RootMark)
    case Under(f, up) =>
      && f.elem in m
      && m[f.elem] == (if f.side.L? then Rec(hole, Root(f.sib), Parent(up, top), ColorOf(f.red))
                       else Rec(Root(f.sib), hole, Parent(up, top), ColorOf(f.red)))
      && Shape(f.sib, f.elem, m) && CtxShape(up, top, f.elem, m)
  }

  /** No node occurs twice. */
  predicate Apart(t: Tree) {
    t.Node? ==>
      && t.elem !in Nodes(t.left) && t.elem !in Nodes(t.right) && Nodes(t.left) !! Nodes(t.right)
      && Apart(t.left) && Apart(t.right)
  }

  predicate CtxApart(ctx: Ctx) {
    ctx.Under? ==>
      && ctx.f.elem !in Nodes(ctx.f.sib) && ctx.f.elem !in CtxNodes(ctx.up)
      && Nodes(ctx.f.sib) !! CtxNodes(ctx.up) && Apart(ctx.f.sib) && CtxApart(ctx.up)
  }

  predicate Distinct(ctx: Ctx, t: Tree, top: RbNode) {
    Apart(t) && CtxApart(ctx) && Nodes(t) !! CtxNodes(ctx) && top !in Nodes(t) && top !in CtxNodes(ctx)
  }

  /** The memory holds `Plug(ctx, t)` under the dummy root `top`. */
  predicate Zip(ctx: Ctx, t: Tree, top: RbNode, m: Mem) {
    Distinct(ctx, t, top) && Shape(t, Parent(ctx, top), m) && CtxShape(ctx, top, Root(t), m)
  }

  predicate Agree(N: set<RbNode>, m: Mem, m': Mem) {
    forall n :: n in N && n in m ==> n in m' && m'[n] == m[n]
  }

  lemma {:induction false} SameShape(t: Tree, par: RbNode, m: Mem, m': Mem)
    requires Shape(t, par, m) && Agree(Nodes(t), m, m')
    ensures Shape(t, par, m')
  {
    if t.Node? {
      SameShape(t.left, t.elem, m, m');
      SameShape(t.right, t.elem, m, m');
    }
  }

  /** A tree whose root alone was given a new parent. */
  lemma Reparent(t: Tree, par: RbNode, par': RbNode, m: Mem, m': Mem)
    requires Shape(t, par, m) && Apart(t) && Agree(Nodes(t) - {Root(t)}, m, m')
    requires t.Node? ==> t.elem in m' && m'[t.elem] == m[t.elem].(parent := par')
    ensures Shape(t, par', m')
  {
    if t.Node? {
      SameShape(t.left, t.elem, m, m');
      SameShape(t.right, t.elem, m, m');
    }
  }

  lemma {:induction false} SameCtxShape(ctx: Ctx, top: RbNode, hole: RbNode?, m: Mem, m': Mem)
    requires CtxShape(ctx, top, hole, m) && Agree(CtxNodes(ctx) + {top}, m, m')
    ensures CtxShape(ctx, top, hole, m')
  {
    if ctx.Under? {
      SameShape(ctx.f.sib, ctx.f.elem, m, m');
      SameCtxShape(ctx.up, top, ctx.f.elem, m, m');
    }
  }

  /** The record of the node above the hole once the hole points to `hole'`. */
  function Refilled(ctx: Ctx, r: Rec, hole': RbNode?): Rec {
    if ctx.Top? || ctx.f.side.L? then r.(left := hole') else r.(right := hole')
  }

  /** Only the pointer in the hole was written. */
  lemma RefillShape(ctx: Ctx, top: RbNode, hole: RbNode?, hole': RbNode?, m: Mem, m': Mem)
    requires CtxShape(ctx, top, hole, m) && CtxApart(ctx) && top !in CtxNodes(ctx)
    requires var p := Parent(ctx, top);
      Agree(CtxNodes(ctx) + {top} - {p}, m, m') && p in m' && p in m && m'[p] == Refilled(ctx, m[p], hole')
    ensures CtxShape(ctx, top, hole', m')
  {
    if ctx.Under? {
      SameShape(ctx.f.sib, ctx.f.elem, m, m');
      SameCtxShape(ctx.up, top, ctx.f.elem, m, m');
    }
  }

  predicate OnLeft(ctx: Ctx) { ctx.Top? || ctx.f.side.L? }

  /** What the node at the hole and the node above it say of each other. */
  lemma AtHole(ctx: Ctx, t: Tree, top: RbNode, m: Mem)
    requires Zip(ctx, t, top, m) && t.Node?
    ensures var n, p := t.elem, Parent(ctx, top);
      && n in m && p in m && n != p && p !in Nodes(t) && m[n].parent == p && m[n].color == ColorOf(t.red)
      && (m[p].left == n <==> OnLeft(ctx)) && (m[p].right == n <==> !OnLeft(ctx))
      && (m[p].color == RootMark <==> ctx.Top?)
    ensures ctx.Under? ==> m[ctx.f.elem].color == ColorOf(ctx.f.red)
  {
    assert Root(t) in Nodes(t);
    if ctx.Under? { assert ctx.f.sib.Node? ==> Root(ctx.f.sib) in Nodes(ctx.f.sib); }
  }

  // ----- stores, and the small procedures -----

  method SetLeft(n: RbNode, v: RbNode?, ghost S: set<RbNode>)
    requires n in S
    modifies n`left
    ensures Snap(S) == old(Snap(S))[n := old(Snap(S))[n].(left := v)]
  {
    n.left := v;
  }

  method SetRight(n: RbNode, v: RbNode?, ghost S: set<RbNode>)
    requires n in S
    modifies n`right
    ensures Snap(S) == old(Snap(S))[n := old(Snap(S))[n].(right := v)]
  {
    n.right := v;
  }

  method SetParent(n: RbNode, v: RbNode?, ghost S: set<RbNode>)
    requires n in S
    modifies n`parent
    ensures Snap(S) == old(Snap(S))[n := old(Snap(S))[n].(parent := v)]
  {
    n.parent := v;
  }

  method SetColor(n: RbNode, c: Color, ghost S: set<RbNode>)
    requires n in S
    modifies n`color
    ensures Snap(S) == old(Snap(S))[n := old(Snap(S))[n].(color := c)]
  {
    n.color := c;
  }

  /** `replace` as a function on memories. */
  function Replaced(m: Mem, gone: RbNode, young: RbNode?): (m': Mem)
    requires gone in m && m[gone].parent != null && m[gone].parent in m && (young != null ==> young in m)
    ensures m'.Keys == m.Keys
  {
    var p := m[gone].parent;
    var m1 := m[p := if m[p].left == gone then m[p].(left := young) else m[p].(right := young)];
    if young == null then m1 else m1[young := m1[young].(parent := m1[gone].parent)]
  }

  method Replace(gone: RbNode, young: RbNode?, ghost S: set<RbNode>)
    requires gone in S && gone.parent != null && gone.parent in S && (young != null ==> young in S)
    modifies S
    ensures Snap(S) == Replaced(old(Snap(S)), gone, young)
  {
    if gone == gone.parent.left {
      SetLeft(gone.parent, young, S);
    } else {
      SetRight(gone.parent, young, S);
    }
    if young != null {
      SetParent(young, gone.parent, S);
    }
  }

  // ----- rotations: `side` is the direction in which the upper node moves -----

  function Other(side: Side): Side { if side.L? then R else L }

  function Kid(side: Side, t: Tree): Tree
    requires t.Node?
  { if side.L? then t.left else t.right }

  function KidOf(side: Side, r: Rec): RbNode? { if side.L? then r.left else r.right }

  function WithKid(side: Side, r: Rec, v: RbNode?): Rec {
    if side.L? then r.(left := v) else r.(right := v)
  }

  predicate CanRotate(t: Tree, side: Side) {
    t.Node? && Kid(Other(side), t).Node?
  }

  function Rotated(t: Tree, side: Side): Tree
    requires CanRotate(t, side)
  {
    var u := Kid(Other(side), t);
    Sibling(side, u.red, Sibling(side, t.red, Kid(side, t), t.elem, Kid(side, u)), u.elem, Kid(Other(side), u))
  }

  predicate Rotatable(m: Mem, parent: RbNode, side: Side) {
    && parent in m && m[parent].parent != null && m[parent].parent in m
    && KidOf(Other(side), m[parent]) != null && KidOf(Other(side), m[parent]) in m
    && var child := KidOf(Other(side), m[parent]);
       && child != parent && m[parent].parent != child
       && (KidOf(side, m[child]) != null ==> KidOf(side, m[child]) in m)
  }

  function Rotation(m: Mem, parent: RbNode, side: Side): (m': Mem)
    requires Rotatable(m, parent, side)
  {
    var child := KidOf(Other(side), m[parent]);
    var m1 := Replaced(m, parent, child);
    var m2 := m1[parent := WithKid(Other(side), m1[parent], KidOf(side, m1[child]))];
    var inner := KidOf(side, m2[child]);
    var m3 := if inner == null || inner !in m2 then m2 else m2[inner := m2[inner].(parent := parent)];
    var m4 := m3[child := WithKid(side, m3[child], parent)];
    m4[parent := m4[parent].(parent := child)]
  }

  method RotateLeft(parent: RbNode, ghost S: set<RbNode>)
    requires Rotatable(Snap(S), parent, L)
    modifies S
    ensures Snap(S) == Rotation(old(Snap(S)), parent, L)
  {
    var right := parent.right;
    Replace(parent, right, S);
    SetRight(parent, right.left, S);
    if right.left != null {
      SetParent(right.left, parent, S);
    }
    SetLeft(right, parent, S);
    SetParent(parent, right, S);
  }

  method RotateRight(parent: RbNode, ghost S: set<RbNode>)
    requires Rotatable(Snap(S), parent, R)
    modifies S
    ensures Snap(S) == Rotation(old(Snap(S)), parent, R)
  {
    var left := parent.left;
    Replace(parent, left, S);
    SetLeft(parent, left.right, S);
    if left.right != null {
      SetParent(left.right, parent, S);
    }
    SetRight(left, parent, S);
    SetParent(parent, left, S);
  }

  /** What a rotation stores, for four different nodes. */
  predicate RotationStores(m: Mem, m': Mem, side: Side, up: RbNode, parent: RbNode, child: RbNode, inner: RbNode?) {
    && m'.Keys == m.Keys && {up, parent, child} <= m.Keys && (inner != null ==> inner in m)
    && m'[up] == (if m[up].left == parent then m[up].(left := child) else m[up].(right := child))
    && m'[parent] == WithKid(Other(side), m[parent], inner).(parent := child)
    && m'[child] == WithKid(side, m[child], parent).(parent := up)
    && (inner != null ==> m'[inner] == m[inner].(parent := parent))
    && Agree(m.Keys - {up, parent, child, inner}, m, m')
  }

  lemma RotationDoes(m: Mem, side: Side, up: RbNode, parent: RbNode, child: RbNode, inner: RbNode?)
    requires {up, parent, child} <= m.Keys && up != parent && up != child && parent != child
    requires inner != null ==> inner in m && inner != up && inner != parent && inner != child
    requires m[parent].parent == up && KidOf(Other(side), m[parent]) == child && KidOf(side, m[child]) == inner
    ensures Rotatable(m, parent, side) && RotationStores(m, Rotation(m, parent, side), side, up, parent, child, inner)
  {
  }

  lemma RotatedApart(t: Tree, side: Side)
    requires CanRotate(t, side) && Apart(t)
    ensures Apart(Rotated(t, side)) && Nodes(Rotated(t, side)) == Nodes(t)
    ensures Nodes(Kid(Other(side), t)) <= Nodes(t)
  {
    assert Apart(Kid(Other(side), t));
  }

  lemma RotationBelow(t: Tree, side: Side, up: RbNode, m: Mem, m': Mem)
    requires CanRotate(t, side) && Apart(t) && Shape(t, up, m) && up !in Nodes(t)
    requires var u := Kid(Other(side), t); RotationStores(m, m', side, up, t.elem, u.elem, Root(Kid(side, u)))
    ensures Shape(Rotated(t, side), up, m')
  {
    var u := Kid(Other(side), t);
    var a, b, c := Kid(side, t), Kid(side, u), Kid(Other(side), u);
    assert Shape(u, t.elem, m) && Apart(u);
    SameShape(a, t.elem, m, m');
    SameShape(c, u.elem, m, m');
    Reparent(b, u.elem, t.elem, m, m');
  }

  lemma RotationAbove(ctx: Ctx, t: Tree, side: Side, top: RbNode, m: Mem, m': Mem)
    requires Zip(ctx, t, top, m) && CanRotate(t, side)
    requires var u := Kid(Other(side), t);
      RotationStores(m, m', side, Parent(ctx, top), t.elem, u.elem, Root(Kid(side, u)))
    ensures CtxShape(ctx, top, Kid(Other(side), t).elem, m')
  {
    var u := Kid(Other(side), t);
    AtHole(ctx, t, top, m);
    assert {t.elem, u.elem} <= Nodes(t) && (Kid(side, u).Node? ==> Kid(side, u).elem in Nodes(u));
    RefillShape(ctx, top, t.elem, u.elem, m, m');
  }

  lemma RotationZip(ctx: Ctx, t: Tree, side: Side, top: RbNode, m: Mem, m': Mem)
    requires Zip(ctx, t, top, m) && CanRotate(t, side)
    requires var u := Kid(Other(side), t);
      RotationStores(m, m', side, Parent(ctx, top), t.elem, u.elem, Root(Kid(side, u)))
    ensures Zip(ctx, Rotated(t, side), top, m')
  {
    AtHole(ctx, t, top, m);
    RotatedApart(t, side);
    RotationBelow(t, side, Parent(ctx, top), m, m');
    RotationAbove(ctx, t, side, top, m, m');
  }

  lemma RotationShape(ctx: Ctx, t: Tree, side: Side, top: RbNode, m: Mem)
    requires Zip(ctx, t, top, m) && CanRotate(t, side)
    ensures Rotatable(m, t.elem, side) && Zip(ctx, Rotated(t, side), top, Rotation(m, t.elem, side))
  {
    var u := Kid(Other(side), t);
    var b := Kid(side, u);
    assert Shape(u, t.elem, m) && Apart(u) && Shape(b, u.elem, m);
    assert u.elem in Nodes(t) && (b.Node? ==> b.elem in Nodes(u) && b.elem in Nodes(t));
    AtHole(ctx, t, top, m);
    RotationDoes(m, side, Parent(ctx, top), t.elem, u.elem, Root(b));
    RotationZip(ctx, t, side, top, m, Rotation(m, t.elem, side));
  }

  // ----- moving the focus -----

  lemma ZipUp(f: Frame, up: Ctx, t: Tree, top: RbNode, m: Mem)
    ensures Zip(Under(f, up), t, top, m) <==> Zip(up, Fill(f, t), top, m)
  {
    assert Nodes(Fill(f, t)) == Nodes(t) + {f.elem} + Nodes(f.sib);
  }

  /** From a node to its sibling. */
  function Swing(f: Frame, t: Tree): Frame { Frame(Other(f.side), f.red, f.elem, t) }

  lemma ZipSwing(f: Frame, up: Ctx, t: Tree, top: RbNode, m: Mem)
    ensures Zip(Under(f, up), t, top, m) <==> Zip(Under(Swing(f, t), up), f.sib, top, m)
  {
    ZipUp(f, up, t, top, m);
    ZipUp(Swing(f, t), up, f.sib, top, m);
  }

  lemma {:induction false} ZipPlug(ctx: Ctx, t: Tree, top: RbNode, m: Mem)
    ensures Zip(ctx, t, top, m) <==> Zip(Top, Plug(ctx, t), top, m)
  {
    if ctx.Under? {
      ZipUp(ctx.f, ctx.up, t, top, m);
      ZipPlug(ctx.up, Fill(ctx.f, t), top, m);
    }
  }

  /** A colour was written at the focus. */
  lemma ZipPaint(ctx: Ctx, t: Tree, top: RbNode, m: Mem, red: bool)
    requires Zip(ctx, t, top, m) && t.Node?
    ensures t.elem in m && Zip(ctx, Paint(t, red), top, m[t.elem := m[t.elem].(color := ColorOf(red))])
  {
    var m' := m[t.elem := m[t.elem].(color := ColorOf(red))];
    SameShape(t.left, t.elem, m, m');
    SameShape(t.right, t.elem, m, m');
    SameCtxShape(ctx, top, t.elem, m, m');
  }

  /** The colour of the node above the focus was written. */
  lemma ZipPaintParent(f: Frame, up: Ctx, t: Tree, top: RbNode, m: Mem, red: bool)
    requires Zip(Under(f, up), t, top, m)
    ensures f.elem in m
    ensures Zip(Under(f.(red := red), up), t, top, m[f.elem := m[f.elem].(color := ColorOf(red))])
  {
    ZipUp(f, up, t, top, m);
    ZipPaint(up, Fill(f, t), top, m, red);
    ZipUp(f.(red := red), up, t, top, m[f.elem := m[f.elem].(color := ColorOf(red))]);
  }

  /** The colour of the sibling of the focus was written. */
  lemma ZipPaintSibling(f: Frame, up: Ctx, t: Tree, top: RbNode, m: Mem, red: bool)
    requires Zip(Under(f, up), t, top, m) && f.sib.Node?
    ensures f.sib.elem in m
    ensures var m' := m[f.sib.elem := m[f.sib.elem].(color := ColorOf(red))];
      Zip(Under(f.(sib := Paint(f.sib, red)), up), t, top, m')
  {
    var m' := m[f.sib.elem := m[f.sib.elem].(color := ColorOf(red))];
    ZipSwing(f, up, t, top, m);
    ZipPaint(Under(Swing(f, t), up), f.sib, top, m, red);
    ZipSwing(f.(sib := Paint(f.sib, red)), up, t, top, m');
  }

  /** What the nodes around the focus say of each other. */
  lemma Around(f: Frame, up: Ctx, t: Tree, top: RbNode, m: Mem)
    requires Zip(Under(f, up), t, top, m)
    ensures f.elem in m && m[f.elem] == (if f.side.L? then Rec(Root(t), Root(f.sib), Parent(up, top), ColorOf(f.red))
                                         else Rec(Root(f.sib), Root(t), Parent(up, top), ColorOf(f.red)))
    ensures t.Node? ==> t.elem in m && m[t.elem] == Rec(Root(t.left), Root(t.right), f.elem, ColorOf(t.red))
    ensures f.sib.Node? ==>
      f.sib.elem in m && m[f.sib.elem] == Rec(Root(f.sib.left), Root(f.sib.right), f.elem, ColorOf(f.sib.red))
    ensures t.Node? ==> Root(t) != Root(f.sib) && f.elem != t.elem
  {
    assert t.Node? ==> t.elem in Nodes(t);
    assert f.sib.Node? ==> f.sib.elem in Nodes(f.sib);
  }

  /** Zip looks at the nodes of the tree and at the dummy root only. */
  lemma ZipAgree(ctx: Ctx, t: Tree, top: RbNode, m: Mem, m': Mem)
    requires Zip(ctx, t, top, m) && Agree(Nodes(t) + CtxNodes(ctx) + {top}, m, m')
    ensures Zip(ctx, t, top, m')
  {
    SameShape(t, Parent(ctx, top), m, m');
    SameCtxShape(ctx, top, Root(t), m, m');
  }

  // ----- insertion -----

  /** Frame and tree after case 4 has turned a bent path into a straight one. */
  function StraightFrame(p: Frame, t: Tree): Frame
    requires t.Node?
  { Frame(Other(p.side), t.red, t.elem, Kid(p.side, t)) }

  function StraightTree(p: Frame, t: Tree): Tree
    requires t.Node?
  { Sibling(Other(p.side), p.red, p.sib, p.elem, Kid(Other(p.side), t)) }

  lemma Straighten(p: Frame, g: Frame, up: Ctx, t: Tree, top: RbNode, m: Mem)
    requires Zip(Under(p, Under(g, up)), t, top, m) && t.Node?
    ensures Rotatable(m, p.elem, Other(p.side))
    ensures var p', t' := StraightFrame(p, t), StraightTree(p, t);
      Zip(Under(p', Under(g, up)), t', top, Rotation(m, p.elem, Other(p.side)))
  {
    ZipUp(p, Under(g, up), t, top, m);
    RotationShape(Under(g, up), Fill(p, t), Other(p.side), top, m);
    ZipUp(StraightFrame(p, t), Under(g, up), StraightTree(p, t), top, Rotation(m, p.elem, Other(p.side)));
  }

  /** Case 5: where the new node stands once its parent has been lifted over its grandparent. */
  function Lifted(p: Frame, g: Frame): Frame {
    Frame(p.side, false, p.elem, Sibling(Other(g.side), true, g.sib, g.elem, p.sib))
  }

  lemma LiftParent(p: Frame, g: Frame, up: Ctx, t: Tree, top: RbNode, m: Mem)
    requires p.side == g.side && !p.red && g.red && Zip(Under(p, Under(g, up)), t, top, m) && t.Node?
    ensures Rotatable(m, g.elem, Other(g.side))
    ensures Zip(Under(Lifted(p, g), up), t, top, Rotation(m, g.elem, Other(g.side)))
  {
    ZipUp(p, Under(g, up), t, top, m);
    ZipUp(g, up, Fill(p, t), top, m);
    RotationShape(up, Fill(g, Fill(p, t)), Other(g.side), top, m);
    ZipUp(Lifted(p, g), up, t, top, Rotation(m, g.elem, Other(g.side)));
  }

  lemma RecolorShape(p: Frame, g: Frame, up: Ctx, t: Tree, top: RbNode, m: Mem)
    requires Zip(Under(p, Under(g, up)), t, top, m) && g.sib.Node?
    ensures {p.elem, g.elem, g.sib.elem} <= m.Keys
    ensures var m1 := m[p.elem := m[p.elem].(color := Black)];
      var m2 := m1[g.sib.elem := m1[g.sib.elem].(color := Black)];
      var m3 := m2[g.elem := m2[g.elem].(color := Red)];
      Zip(up, InsertRecolor(p, g, t), top, m3)
  {
    var m1 := m[p.elem := m[p.elem].(color := Black)];
    ZipPaintParent(p, Under(g, up), t, top, m, false);
    var p' := p.(red := false);
    ZipUp(p', Under(g, up), t, top, m1);
    ZipPaintSibling(g, up, Fill(p', t), top, m1, false);
    var m2 := m1[g.sib.elem := m1[g.sib.elem].(color := Black)];
    var g' := g.(sib := Paint(g.sib, false));
    ZipPaintParent(g', up, Fill(p', t), top, m2, true);
    ZipUp(g'.(red := true), up, Fill(p', t), top, m2[g.elem := m2[g.elem].(color := Red)]);
  }

  lemma ParentsBlackened(p: Frame, g: Frame, up: Ctx, t: Tree, top: RbNode, m: Mem)
    requires Zip(Under(p, Under(g, up)), t, top, m) && t.Node?
    ensures {p.elem, g.elem} <= m.Keys
    ensures var m1 := m[p.elem := m[p.elem].(color := Black)];
      var m2 := m1[g.elem := m1[g.elem].(color := Red)];
      Zip(Under(p.(red := false), Under(g.(red := true), up)), t, top, m2)
  {
    var p', m1 := p.(red := false), m[p.elem := m[p.elem].(color := Black)];
    ZipPaintParent(p, Under(g, up), t, top, m, false);
    ZipUp(p', Under(g, up), t, top, m1);
    ZipPaintParent(g, up, Fill(p', t), top, m1, true);
    ZipUp(p', Under(g.(red := true), up), t, top, m1[g.elem := m1[g.elem].(color := Red)]);
  }

  /** The new node has been linked into the hole. */
  lemma LinkedShape(ctx: Ctx, node: RbNode, top: RbNode, m: Mem, m': Mem)
    requires Zip(ctx, Leaf, top, m) && node !in CtxNodes(ctx) && node != top
    requires var p := Parent(ctx, top);
      && p in m && p in m' && m'[p] == Refilled(ctx, m[p], node) && Agree(m.Keys - {node, p}, m, m')
      && node in m' && m'[node] == Rec(null, null, p, Red)
    ensures Zip(ctx, Node(true, Leaf, node, Leaf), top, m')
  {
    RefillShape(ctx, top, null, node, m, m');
  }

  /** The first five assignments: `node` becomes a red leaf in the hole. */
  method Link(node: RbNode, parent: RbNode, link: Side, ghost ctx: Ctx, ghost top: RbNode, ghost S: set<RbNode>)
    requires node in S && Zip(ctx, Leaf, top, Snap(S)) && node !in CtxNodes(ctx) && node != top
    requires parent == Parent(ctx, top) && (link.L? <==> OnLeft(ctx))
    modifies S
    ensures Zip(ctx, Node(true, Leaf, node, Leaf), top, Snap(S))
  {
    ghost var m := Snap(S);
    assert parent in m by { if ctx.Under? { Around(ctx.f, ctx.up, Leaf, top, m); } }
    SetLeft(node, null, S);
    SetRight(node, null, S);
    SetColor(node, Red, S);
    SetParent(node, parent, S);
    if link.L? {
      SetLeft(parent, node, S);
    } else {
      SetRight(parent, node, S);
    }
    LinkedShape(ctx, node, top, m, Snap(S));
  }

  /** What the loop can see from a node with a red parent. */
  lemma Family(p: Frame, g: Frame, up: Ctx, t: Tree, top: RbNode, m: Mem)
    requires Zip(Under(p, Under(g, up)), t, top, m) && t.Node?
    ensures t.elem in m && p.elem in m && g.elem in m
    ensures m[t.elem].parent == p.elem && m[p.elem].parent == g.elem
    ensures (m[p.elem].left == t.elem <==> p.side.L?) && (m[p.elem].right == t.elem <==> p.side.R?)
    ensures (m[g.elem].left == p.elem <==> g.side.L?) && (m[g.elem].right == p.elem <==> g.side.R?)
    ensures KidOf(Other(g.side), m[g.elem]) == Root(g.sib)
    ensures g.sib.Node? ==> g.sib.elem in m && m[g.sib.elem].color == ColorOf(g.sib.red)
  {
    AtHole(Under(p, Under(g, up)), t, top, m);
    ZipUp(p, Under(g, up), t, top, m);
    AtHole(Under(g, up), Fill(p, t), top, m);
    Around(g, up, Fill(p, t), top, m);
  }

  /** rb_uncle: the root of the tree beside the parent, on either side of the grandparent */
  method RbUncle(n: RbNode, ghost p: Frame, ghost g: Frame, ghost up: Ctx, ghost t: Tree,
                 ghost top: RbNode, ghost S: set<RbNode>) returns (u: RbNode?)
    requires Zip(Under(p, Under(g, up)), t, top, Snap(S)) && t.Node? && t.elem == n
    ensures u == Root(g.sib)
  {
    Family(p, g, up, t, top, Snap(S));
    var grandparent := n.parent.parent;
    u := if n.parent == grandparent.left then grandparent.right else grandparent.left;
  }

  method InsertCase3(n: RbNode, uncle: RbNode, ghost p: Frame, ghost g: Frame, ghost up: Ctx, ghost t: Tree,
                     ghost top: RbNode, ghost S: set<RbNode>) returns (n': RbNode)
    requires Zip(Under(p, Under(g, up)), t, top, Snap(S)) && t.Node? && t.elem == n && Root(g.sib) == uncle
    modifies S
    ensures n' == g.elem && Zip(up, InsertRecolor(p, g, t), top, Snap(S))
  {
    Family(p, g, up, t, top, Snap(S));
    RecolorShape(p, g, up, t, top, Snap(S));
    SetColor(n.parent, Black, S);
    SetColor(uncle, Black, S);
    SetColor(n.parent.parent, Red, S);
    n' := n.parent.parent;
  }

  method InsertCase4(n: RbNode, ghost p: Frame, ghost g: Frame, ghost up: Ctx, ghost t: Tree,
                     ghost top: RbNode, ghost S: set<RbNode>) returns (n': RbNode)
    requires Zip(Under(p, Under(g, up)), t, top, Snap(S)) && t.Node? && t.elem == n
    modifies S
    ensures p.side == g.side ==> n' == n && Zip(Under(p, Under(g, up)), t, top, Snap(S))
    ensures p.side != g.side ==>
      n' == p.elem && Zip(Under(StraightFrame(p, t), Under(g, up)), StraightTree(p, t), top, Snap(S))
  {
    Family(p, g, up, t, top, Snap(S));
    n' := n;
    if n == n.parent.right && n.parent == n.parent.parent.left {
      Straighten(p, g, up, t, top, Snap(S));
      RotateLeft(n.parent, S);
      Family(StraightFrame(p, t), g, up, StraightTree(p, t), top, Snap(S));
      n' := n.left;
    } else if n == n.parent.left && n.parent == n.parent.parent.right {
      Straighten(p, g, up, t, top, Snap(S));
      RotateRight(n.parent, S);
      Family(StraightFrame(p, t), g, up, StraightTree(p, t), top, Snap(S));
      n' := n.right;
    }
  }

  method InsertCase5(n: RbNode, ghost p: Frame, ghost g: Frame, ghost up: Ctx, ghost t: Tree,
                     ghost top: RbNode, ghost S: set<RbNode>)
    requires Zip(Under(p, Under(g, up)), t, top, Snap(S)) && t.Node? && t.elem == n && p.side == g.side
    modifies S
    ensures Zip(Under(Lifted(p, g), up), t, top, Snap(S))
  {
    Family(p, g, up, t, top, Snap(S));
    ParentsBlackened(p, g, up, t, top, Snap(S));
    SetColor(n.parent, Black, S);
    SetColor(n.parent.parent, Red, S);
    ghost var p', g' := p.(red := false), g.(red := true);
    Family(p', g', up, t, top, Snap(S));
    LiftParent(p', g', up, t, top, Snap(S));
    if n == n.parent.left && n.parent == n.parent.parent.left {
      RotateRight(n.parent.parent, S);
    } else {
      RotateLeft(n.parent.parent, S);
    }
  }

  /** The root is black. */
  predicate BlackTop(ctx: Ctx) {
    ctx.Under? ==> if ctx.up.Top? then !ctx.f.red else BlackTop(ctx.up)
  }

  lemma {:induction false} NoRedRedBlackTop(ctx: Ctx)
    requires CtxNoRedRed(ctx)
    ensures BlackTop(ctx)
  {
    if ctx.Under? { NoRedRedBlackTop(ctx.up); }
  }

  lemma InsertRotateIsLift(p: Frame, g: Frame, up: Ctx, t: Tree)
    requires t.Node? && p.red && !IsRed(g.sib) && BlackTop(Under(p, Under(g, up)))
    ensures var (p', t') := if p.side == g.side then (p, t) else (StraightFrame(p, t), StraightTree(p, t));
      && InsertFix(Under(Lifted(p', g), up), t') == InsertFix(Under(p, Under(g, up)), t)
      && BlackTop(Under(Lifted(p', g), up))
  {
    var (p', t') := if p.side == g.side then (p, t) else (StraightFrame(p, t), StraightTree(p, t));
    assert Fill(Lifted(p', g), t') == InsertRotate(p, g, t);
    assert Plug(Under(Lifted(p', g), up), t') == Plug(up, InsertRotate(p, g, t));
    assert BlackTop(Under(g, up));
  }

  function Depth(ctx: Ctx): nat {
    if ctx.Top? then 0 else 1 + Depth(ctx.up)
  }

  /** Cases 3 to 5: one turn of the loop below a red parent. */
  method InsertStep(n: RbNode, ghost ctx: Ctx, ghost t: Tree, ghost top: RbNode, ghost S: set<RbNode>)
    returns (n': RbNode, ghost ctx': Ctx, ghost t': Tree)
    requires Zip(ctx, t, top, Snap(S)) && t.Node? && t.elem == n && BlackTop(ctx) && ctx.Under? && ctx.f.red
    modifies S
    ensures Zip(ctx', t', top, Snap(S)) && t'.Node? && t'.elem == n' && BlackTop(ctx')
    ensures InsertFix(ctx', t') == InsertFix(ctx, t) && Depth(ctx') < Depth(ctx)
  {
    ghost var p, g, up := ctx.f, ctx.up.f, ctx.up.up;
    Family(p, g, up, t, top, Snap(S));
    // case 3:
    var uncle := RbUncle(n, p, g, up, t, top, S);
    if uncle != null && uncle.color == Red {
      n' := InsertCase3(n, uncle, p, g, up, t, top, S);
      ctx', t' := up, InsertRecolor(p, g, t);
      return;
    }
    // cases 4 and 5:
    InsertRotateIsLift(p, g, up, t);
    n' := InsertCase4(n, p, g, up, t, top, S);
    ghost var p' := if p.side == g.side then p else StraightFrame(p, t);
    t' := if p.side == g.side then t else StraightTree(p, t);
    InsertCase5(n', p', g, up, t', top, S);
    ctx' := Under(Lifted(p', g), up);
  }

  /** navi_rb_insert: `link` is the side of `parent` whose address the C caller passes. */
  method Insert(node: RbNode, parent: RbNode, link: Side, ghost ctx0: Ctx, ghost top: RbNode, ghost S: set<RbNode>)
    requires node in S && Zip(ctx0, Leaf, top, Snap(S)) && BlackTop(ctx0)
    requires node !in CtxNodes(ctx0) && node != top
    requires parent == Parent(ctx0, top) && (link.L? <==> OnLeft(ctx0))
    modifies S
    ensures var w := InsertFix(ctx0, Node(true, Leaf, node, Leaf));
      && Zip(Top, w, top, Snap(S)) && InOrder(w) == Before(ctx0) + [node] + After(ctx0)
      && (RedBlack(Plug(ctx0, Leaf)) ==> RedBlack(w))
  {
    InsertOk(ctx0, node);
    Link(node, parent, link, ctx0, top, S);
    var n := node;
    ghost var ctx, t := ctx0, Node(true, Leaf, node, Leaf);
    ghost var w := InsertFix(ctx, t);
    while true
      invariant Zip(ctx, t, top, Snap(S)) && t.Node? && t.elem == n && BlackTop(ctx) && InsertFix(ctx, t) == w
      decreases Depth(ctx)
    {
      AtHole(ctx, t, top, Snap(S));
      // case 1:
      if n.parent.color == RootMark {
        ZipPaint(ctx, t, top, Snap(S), false);
        SetColor(n, Black, S);
        return;
      }
      // case 2:
      if n.parent.color == Black {
        ZipPlug(ctx, t, top, Snap(S));
        return;
      }
      n, ctx, t := InsertStep(n, ctx, t, top, S);
    }
  }
}
