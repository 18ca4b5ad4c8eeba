/** navi_rb_first, navi_rb_next and the rb_for_each loop. */
module RbTraversal {
  import opened RbTheory
  import opened RbTree

  function FirstOf(s: seq<RbNode>): RbNode? { if s == [] then null else s[0] }

  /** The nodes from the focus on: its own, then its right subtree, then what follows in the context. */
  function Rest(ctx: Ctx, t: Tree): seq<RbNode>
    requires t.Node?
  {
    [t.elem] + (InOrder(t.right) + After(ctx))
  }

  /** navi_rb_first of a non-empty subtree. */
  method RbFirst(n: RbNode, ghost ctx: Ctx, ghost t: Tree, ghost top: RbNode, ghost S: set<RbNode>)
    returns (r: RbNode, ghost c: Ctx, ghost s: Tree)
    requires Zip(ctx, t, top, Snap(S)) && t.Node? && t.elem == n
    ensures Zip(c, s, top, Snap(S)) && s.Node? && s.elem == r && s.left.Leaf?
    ensures InOrder(t) + After(ctx) == Rest(c, s) && Plug(c, s) == Plug(ctx, t)
    ensures InOrder(t) != [] && r == InOrder(t)[0]
  {
    r := n;
    c, s := ctx, t;
    AtHole(c, s, top, Snap(S));
    while r.left != null
      invariant Zip(c, s, top, Snap(S)) && s.Node? && s.elem == r && r in S
      invariant InOrder(t) + After(ctx) == InOrder(s) + After(c) && Plug(c, s) == Plug(ctx, t)
      decreases s
    {
      ghost var f := Frame(L, s.red, s.elem, s.right);
      ZipUp(f, c, s.left, top, Snap(S));
      StepLeft(s, c);
      c, s := Under(f, c), s.left;
      AtHole(c, s, top, Snap(S));
      r := r.left;
    }
    StepLeft(s, c);
    assert (InOrder(t) + After(ctx))[0] == r;
  }

  lemma Associate<T>(a: seq<T>, e: seq<T>, b: seq<T>, d: seq<T>)
    ensures (a + e + b) + d == a + (e + b + d) && (e + b) + d == e + (b + d) && [] + e + b == e + b
  {
  }

  lemma StepLeft(s: Tree, c: Ctx)
    requires s.Node?
    ensures InOrder(s) + After(c) == InOrder(s.left) + ([s.elem] + InOrder(s.right) + After(c))
    ensures s.left.Leaf? ==> InOrder(s) + After(c) == Rest(c, s)
  {
    Associate(InOrder(s.left), [s.elem], InOrder(s.right), After(c));
  }

  /** The part of navi_rb_next that climbs from a node with no right child. */
  method RbNextAbove(n: RbNode, ghost ctx: Ctx, ghost t: Tree, ghost top: RbNode, ghost S: set<RbNode>)
    returns (r: RbNode?, ghost c: Ctx, ghost s: Tree)
    requires Zip(ctx, t, top, Snap(S)) && t.Node? && t.elem == n
    ensures r == FirstOf(After(ctx))
    ensures r != null ==>
      Zip(c, s, top, Snap(S)) && s.Node? && s.elem == r && Rest(c, s) == After(ctx) && Plug(c, s) == Plug(ctx, t)
  {
    c, s := ctx, t;
    AtHole(ctx, t, top, Snap(S));
    var node := n;
    while node == node.parent.right
      invariant Zip(c, s, top, Snap(S)) && s.Node? && s.elem == node && node in S && After(c) == After(ctx)
      invariant node.parent != null && node.parent in S && Plug(c, s) == Plug(ctx, t)
      decreases c
    {
      AtHole(c, s, top, Snap(S));
      ZipUp(c.f, c.up, s, top, Snap(S));
      c, s := c.up, Fill(c.f, s);
      AtHole(c, s, top, Snap(S));
      node := node.parent;
    }
    AtHole(c, s, top, Snap(S));
    if node.parent.color == RootMark {
      return null, c, s;
    }
    ZipUp(c.f, c.up, s, top, Snap(S));
    r := node.parent;
    c, s := c.up, Fill(c.f, s);
    assert Rest(c, s) == After(ctx);
  }

  /** navi_rb_next: the in-order successor, or null after the last node. */
  method RbNext(n: RbNode, ghost ctx: Ctx, ghost t: Tree, ghost top: RbNode, ghost S: set<RbNode>)
    returns (r: RbNode?, ghost c: Ctx, ghost s: Tree)
    requires Zip(ctx, t, top, Snap(S)) && t.Node? && t.elem == n
    ensures r == FirstOf(Rest(ctx, t)[1..])
    ensures r != null ==>
      Zip(c, s, top, Snap(S)) && s.Node? && s.elem == r && Rest(c, s) == Rest(ctx, t)[1..] && Plug(c, s) == Plug(ctx, t)
  {
    AtHole(ctx, t, top, Snap(S));
    assert Rest(ctx, t)[1..] == InOrder(t.right) + After(ctx);
    if n.right != null {
      ghost var f := Frame(R, t.red, t.elem, t.left);
      ZipUp(f, ctx, t.right, top, Snap(S));
      r, c, s := RbFirst(n.right, Under(f, ctx), t.right, top, S);
      return;
    }
    assert InOrder(t.right) + After(ctx) == After(ctx);
    r, c, s := RbNextAbove(n, ctx, t, top, S);
  }

  /** The rb_for_each loop: it visits every node once, in order. */
  method ForEach(top: RbNode, ghost w: Tree, ghost S: set<RbNode>) returns (visited: seq<RbNode>)
    requires Zip(Top, w, top, Snap(S)) && top in S
    ensures visited == InOrder(w)
  {
    visited := [];
    if top.left == null {
      return;
    }
    var n: RbNode?;
    ghost var c, s;
    n, c, s := RbFirst(top.left, Top, w, top, S);
    assert InOrder(w) + [] == InOrder(w);
    while n != null
      invariant n != null ==> Zip(c, s, top, Snap(S)) && s.Node? && s.elem == n && visited + Rest(c, s) == InOrder(w)
      invariant n == null ==> visited == InOrder(w)
      decreases if n == null then 0 else 1 + |Rest(c, s)|
    {
      ghost var rest := Rest(c, s);
      assert visited + rest == visited + [n] + rest[1..];
      visited := visited + [n];
      n, c, s := RbNext(n, c, s, top, S);
      if n == null { assert rest[1..] == []; }
    }
  }
}
