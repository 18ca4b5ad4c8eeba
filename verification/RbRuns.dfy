/** Runs of the tree with the removal as written: what follows the defect. */
module RbRuns {
  import opened RbTheory
  import opened Sequences
  import opened SlabTrees

  datatype Op = Insert(node: RbNode) | Delete(node: RbNode)

  /** The link at which a search by address ends, as slab_insert does it */
  function Place(ctx: Ctx, t: Tree, key: nat): Ctx
    decreases t
  {
    if t.Leaf? then ctx
    else if key < t.elem.addr then Place(Under(Frame(L, t.red, t.elem, t.right), ctx), t.left, key)
    else Place(Under(Frame(R, t.red, t.elem, t.left), ctx), t.right, key)
  }

  /** navi_rb_insert and navi_rb_remove, both as written */
  function Apply(t: Tree, op: Op): Tree {
    match op
    case Insert(node) => InsertFix(Place(Top, t, node.addr), RedLeaf(node))
    case Delete(node) => if node in Nodes(t) then RemoveTree(t, node, true) else t
  }

  function Run(t: Tree, ops: seq<Op>): Tree
    decreases |ops|
  {
    if ops == [] then t else Run(Apply(t, ops[0]), ops[1..])
  }

  // ----- what every run keeps -----

  /** The caller inserts an address once, and removes without a fault. */
  ghost predicate Allowed(t: Tree, op: Op) {
    match op
    case Insert(node) => forall m :: m in InOrder(t) ==> m.addr != node.addr
    case Delete(node) => node in Nodes(t) ==> RemoveSafe(t, node)
  }

  ghost predicate RunAllowed(t: Tree, ops: seq<Op>)
    decreases |ops|
  {
    ops == [] || (Allowed(t, ops[0]) && RunAllowed(Apply(t, ops[0]), ops[1..]))
  }

  lemma {:induction false} PlaceOrder(ctx: Ctx, t: Tree, key: nat)
    requires Ascending(InOrder(Plug(ctx, t))) && forall m :: m in InOrder(t) ==> m.addr != key
    requires AllBelow(Before(ctx), key) && AllAbove(After(ctx), key)
    ensures var c := Place(ctx, t, key);
      Plug(c, Leaf) == Plug(ctx, t) && AllBelow(Before(c), key) && AllAbove(After(c), key)
    decreases t
  {
    if t.Node? {
      Surround(ctx, t);
      assert t.elem in InOrder(t);
      if key < t.elem.addr {
        PlaceOrder(Under(Frame(L, t.red, t.elem, t.right), ctx), t.left, key);
      } else {
        PlaceOrder(Under(Frame(R, t.red, t.elem, t.left), ctx), t.right, key);
      }
    }
  }

  lemma AscendingWithout(s: seq<RbNode>, n: RbNode)
    requires Ascending(s) && n in s
    ensures Ascending(Without(s, n))
  {
    var i :| 0 <= i < |s| && s[i] == n;
    var a, b := s[..i], s[i + 1..];
    assert s == a + [n] + b;
    AscendingSplit(a, n, b);
    AscendingCat(a, b, n.addr);
    hide Ascending;
    WithoutMiddle(a, n, b);
  }

  lemma AscendingCat(a: seq<RbNode>, b: seq<RbNode>, key: nat)
    requires Ascending(a) && Ascending(b) && AllBelow(a, key) && AllAbove(b, key)
    ensures Ascending(a + b)
  {
  }

  lemma AscendingDistinct(s: seq<RbNode>)
    requires Ascending(s)
    ensures NoDuplicates(s)
  {
  }

  /** An insertion or a removal, as written and on any tree, keeps the order of addresses. */
  lemma ApplyAscending(t: Tree, op: Op)
    requires Ascending(InOrder(t)) && Allowed(t, op)
    ensures Ascending(InOrder(Apply(t, op)))
  {
    match op
    case Insert(node) =>
      PlaceOrder(Top, t, node.addr);
      var c := Place(Top, t, node.addr);
      InsertOk(c, node);
      PlugInOrder(c, Leaf);
      assert Before(c) + [] + After(c) == Before(c) + After(c);
      AscendingParts(Before(c), After(c));
      AscendingJoin(Before(c), node, After(c));
    case Delete(node) =>
      if node in Nodes(t) {
        InOrderNodes(t);
        AscendingWithout(InOrder(t), node);
        AscendingDistinct(InOrder(t));
        RemoveInOrder(t, node, true);
      }
  }

  lemma AscendingParts(a: seq<RbNode>, b: seq<RbNode>)
    requires Ascending(a + b)
    ensures Ascending(a) && Ascending(b)
  {
    assert forall i :: 0 <= i < |a| ==> (a + b)[i] == a[i];
    assert forall i :: 0 <= i < |b| ==> (a + b)[|a| + i] == b[i];
  }

  /** So every run as written keeps it, balanced or not. */
  lemma {:induction false} RunAscending(t: Tree, ops: seq<Op>)
    requires Ascending(InOrder(t)) && RunAllowed(t, ops)
    ensures Ascending(InOrder(Run(t, ops)))
    decreases |ops|
  {
    if ops != [] {
      ApplyAscending(t, ops[0]);
      RunAscending(Apply(t, ops[0]), ops[1..]);
    }
  }

  /** The defect does not strike on the way. */
  predicate NoDefect(t: Tree, ops: seq<Op>)
    decreases |ops|
  {
    ops == [] ||
    ((ops[0].Delete? && ops[0].node in Nodes(t) ==> !DefectAt(t, ops[0].node)) && NoDefect(Apply(t, ops[0]), ops[1..]))
  }

  /** Until the defect strikes, the tree is a red-black tree, and no removal follows a null pointer. */
  lemma {:induction false} RunRedBlack(t: Tree, ops: seq<Op>)
    requires Ascending(InOrder(t)) && RunAllowed(t, ops) && RedBlack(t) && NoDefect(t, ops)
    ensures RedBlack(Run(t, ops)) && forall n :: n in Nodes(Run(t, ops)) ==> RemoveSafe(Run(t, ops), n)
    decreases |ops|
  {
    if ops == [] {
      forall n | n in Nodes(t) ensures RemoveSafe(t, n) { NoRedRedRemoves(t, n); }
    } else {
      var op := ops[0];
      ApplyAscending(t, op);
      if op.Insert? {
        PlaceOrder(Top, t, op.node.addr);
        InsertOk(Place(Top, t, op.node.addr), op.node);
      } else if op.node in Nodes(t) {
        RemoveTreeOk(t, op.node, true);
      }
      RunRedBlack(Apply(t, op), ops[1..]);
    }
  }

  // ----- what happens after it -----

  lemma {:induction false} RunIs(ops: seq<Op>, trees: seq<Tree>)
    requires |trees| == |ops| + 1 && forall i :: 0 <= i < |ops| ==> Apply(trees[i], ops[i]) == trees[i + 1]
    ensures Run(trees[0], ops) == trees[|ops|]
    decreases |ops|
  {
    if ops != [] { RunIs(ops[1..], trees[1..]); }
  }

  predicate Numbered(n: seq<RbNode>) { |n| == 7 && forall i :: 0 <= i < |n| ==> n[i].addr == i }

  function BlackLeaf(n: RbNode): Tree { Node(false, Leaf, n, Leaf) }

  /** The search for `key` passes every frame on the side of the hole. */
  predicate Leads(ctx: Ctx, key: nat) {
    ctx.Under? ==> (ctx.f.side.L? <==> key < ctx.f.elem.addr) && Leads(ctx.up, key)
  }

  lemma {:induction false} PlaceThrough(ctx: Ctx, t: Tree, key: nat)
    requires Leads(ctx, key)
    ensures Place(Top, Plug(ctx, t), key) == Place(ctx, t, key)
  {
    if ctx.Under? { PlaceThrough(ctx.up, Fill(ctx.f, t), key); }
  }

  lemma PlaceIs(ctx: Ctx, key: nat)
    requires Leads(ctx, key)
    ensures Place(Top, Plug(ctx, Leaf), key) == ctx
  {
    PlaceThrough(ctx, Leaf, key);
  }

  /** `n` is in no frame. */
  predicate Off(ctx: Ctx, n: RbNode) {
    ctx.Under? ==> ctx.f.elem != n && n !in Nodes(ctx.f.sib) && Off(ctx.up, n)
  }

  lemma {:induction false} PathIs(ctx: Ctx, t: Tree, n: RbNode)
    requires n in Nodes(t) && Off(ctx, n)
    ensures n in Nodes(Plug(ctx, t)) && Path(Top, Plug(ctx, t), n) == Path(ctx, t, n)
  {
    if ctx.Under? {
      assert n in Nodes(Fill(ctx.f, t));
      PathIs(ctx.up, Fill(ctx.f, t), n);
    }
  }

  function Tree0(n: seq<RbNode>): Tree
    requires |n| == 7
  {
    BlackLeaf(n[0])
  }

  function Tree1(n: seq<RbNode>): Tree
    requires |n| == 7
  {
    Node(false, Leaf, n[0], RedLeaf(n[1]))
  }

  function Tree2(n: seq<RbNode>): Tree
    requires |n| == 7
  {
    Node(false, RedLeaf(n[0]), n[1], RedLeaf(n[2]))
  }

  function Tree3(n: seq<RbNode>): Tree
    requires |n| == 7
  {
    Node(false, BlackLeaf(n[0]), n[1], Node(false, Leaf, n[2], RedLeaf(n[3])))
  }

  function Tree4(n: seq<RbNode>): Tree
    requires |n| == 7
  {
    Node(false, RedLeaf(n[0]), n[1], BlackLeaf(n[3]))
  }

  function Tree5(n: seq<RbNode>): Tree
    requires |n| == 7
  {
    Node(false, RedLeaf(n[0]), n[1], Node(false, RedLeaf(n[2]), n[3], Leaf))
  }

  function Tree6(n: seq<RbNode>): Tree
    requires |n| == 7
  {
    Node(false, Leaf, n[0], Node(true, Leaf, n[1], RedLeaf(n[2])))
  }

  function Tree7(n: seq<RbNode>): Tree
    requires |n| == 7
  {
    Node(false, Leaf, n[0], BlackLeaf(n[3]))
  }

  function Tree8(n: seq<RbNode>): Tree
    requires |n| == 7
  {
    Node(false, Leaf, n[0], Node(false, Leaf, n[3], RedLeaf(n[5])))
  }

  function Tree9(n: seq<RbNode>): Tree
    requires |n| == 7
  {
    Node(false, Leaf, n[0], Node(false, RedLeaf(n[3]), n[5], RedLeaf(n[6])))
  }

  function Tree10(n: seq<RbNode>): Tree
    requires |n| == 7
  {
    Node(false, Leaf, n[0], Node(true, Node(false, RedLeaf(n[1]), n[3], Leaf), n[5], BlackLeaf(n[6])))
  }

  function Tree11(n: seq<RbNode>): Tree
    requires |n| == 7
  {
    Node(false, Leaf, n[0], Node(true, Node(false, RedLeaf(n[1]), n[3], RedLeaf(n[4])), n[5], BlackLeaf(n[6])))
  }

  function Tree12(n: seq<RbNode>): Tree
    requires |n| == 7
  {
    Node(false, Node(true, Leaf, n[0], Node(false, Leaf, n[1], RedLeaf(n[2]))), n[3],
         Node(true, BlackLeaf(n[4]), n[5], BlackLeaf(n[6])))
  }

  function Tree13(n: seq<RbNode>): Tree
    requires |n| == 7
  {
    Node(false, Node(true, Leaf, n[0], RedLeaf(n[2])), n[3], Node(true, BlackLeaf(n[4]), n[5], BlackLeaf(n[6])))
  }

  function Tree14(n: seq<RbNode>): Tree
    requires |n| == 7
  {
    Node(false, Node(true, Leaf, n[0], RedLeaf(n[2])), n[3], Node(false, Leaf, n[5], RedLeaf(n[6])))
  }

  lemma Step0(n: seq<RbNode>)
    requires Numbered(n)
    ensures Apply(Leaf, Insert(n[0])) == Tree0(n)
  {
  }

  lemma Step1(n: seq<RbNode>)
    requires Numbered(n)
    ensures Apply(Tree0(n), Insert(n[1])) == Tree1(n)
  {
    var c1 := Under(Frame(R, false, n[0], Leaf), Top);
    assert Plug(c1, Leaf) == Tree0(n);
    PlaceIs(c1, 1);
    assert Plug(c1, RedLeaf(n[1])) == Tree1(n);
    assert InsertFix(c1, RedLeaf(n[1])) == Tree1(n);
  }

  lemma Step2(n: seq<RbNode>)
    requires Numbered(n)
    ensures Apply(Tree1(n), Insert(n[2])) == Tree2(n)
  {
    var c1 := Under(Frame(R, false, n[0], Leaf), Top);
    var c2 := Under(Frame(R, true, n[1], Leaf), c1);
    assert Plug(c1, RedLeaf(n[1])) == Tree1(n);
    assert Plug(c2, Leaf) == Tree1(n);
    assert Leads(c1, 2);
    PlaceIs(c2, 2);
    assert InsertFix(c2, RedLeaf(n[2])) == Tree2(n);
  }

  lemma Step3(n: seq<RbNode>)
    requires Numbered(n)
    ensures Apply(Tree2(n), Insert(n[3])) == Tree3(n)
  {
    var c1 := Under(Frame(R, false, n[1], RedLeaf(n[0])), Top);
    var c2 := Under(Frame(R, true, n[2], Leaf), c1);
    assert Plug(c1, RedLeaf(n[2])) == Tree2(n);
    assert Plug(c2, Leaf) == Tree2(n);
    assert Leads(c1, 3);
    PlaceIs(c2, 3);
    assert InsertFix(Top, Node(true, BlackLeaf(n[0]), n[1], Node(false, Leaf, n[2], RedLeaf(n[3])))) == Tree3(n);
    assert InsertFix(c2, RedLeaf(n[3])) == Tree3(n);
  }

  lemma Step4(n: seq<RbNode>)
    requires Numbered(n)
    ensures Apply(Tree3(n), Delete(n[2])) == Tree4(n)
  {
    var c1 := Under(Frame(R, false, n[1], BlackLeaf(n[0])), Top);
    assert Plug(c1, Node(false, Leaf, n[2], RedLeaf(n[3]))) == Tree3(n);
    assert Off(Top, n[2]);
    assert Off(c1, n[2]);
    PathIs(c1, Node(false, Leaf, n[2], RedLeaf(n[3])), n[2]);
    assert Victim(c1, Node(false, Leaf, n[2], RedLeaf(n[3]))) == (c1, Node(false, Leaf, n[2], RedLeaf(n[3])));
    var d1 := Under(Frame(R, false, n[1], RedLeaf(n[0])), Top);
    assert RemoveFix(c1) == d1;
    assert Climbs(c1);
    assert Plug(d1, BlackLeaf(n[3])) == Tree4(n);
  }

  lemma Step5(n: seq<RbNode>)
    requires Numbered(n)
    ensures Apply(Tree4(n), Insert(n[2])) == Tree5(n)
  {
    var c1 := Under(Frame(R, false, n[1], RedLeaf(n[0])), Top);
    var c2 := Under(Frame(L, false, n[3], Leaf), c1);
    assert Plug(c1, BlackLeaf(n[3])) == Tree4(n);
    assert Plug(c2, Leaf) == Tree4(n);
    assert Leads(c1, 2);
    PlaceIs(c2, 2);
    assert Plug(c1, Node(false, RedLeaf(n[2]), n[3], Leaf)) == Tree5(n);
    assert Plug(c2, RedLeaf(n[2])) == Tree5(n);
    assert InsertFix(c2, RedLeaf(n[2])) == Tree5(n);
  }

  lemma Step6(n: seq<RbNode>)
    requires Numbered(n)
    ensures Apply(Tree5(n), Delete(n[3])) == Tree6(n)
  {
    var c1 := Under(Frame(R, false, n[1], RedLeaf(n[0])), Top);
    assert Plug(c1, Node(false, RedLeaf(n[2]), n[3], Leaf)) == Tree5(n);
    assert Off(Top, n[3]);
    assert Off(c1, n[3]);
    PathIs(c1, Node(false, RedLeaf(n[2]), n[3], Leaf), n[3]);
    assert Victim(c1, Node(false, RedLeaf(n[2]), n[3], Leaf)) == (c1, Node(false, RedLeaf(n[2]), n[3], Leaf));
    var d1 := Under(Frame(R, false, n[0], Leaf), Top);
    var d2 := Under(Frame(R, true, n[1], Leaf), d1);
    assert RemoveFix(c1) == d2;
    assert !Climbs(c1);
    assert Plug(d1, Node(true, Leaf, n[1], RedLeaf(n[2]))) == Tree6(n);
    assert Plug(d2, RedLeaf(n[2])) == Tree6(n);
  }

  lemma Step7(n: seq<RbNode>)
    requires Numbered(n)
    ensures Apply(Tree4(n), Delete(n[1])) == Tree7(n)
  {
    assert Off(Top, n[1]);
    PathIs(Top, Node(false, RedLeaf(n[0]), n[1], BlackLeaf(n[3])), n[1]);
    var c1 := Under(Frame(L, false, n[0], BlackLeaf(n[3])), Top);
    assert Victim(Top, Node(false, RedLeaf(n[0]), n[1], BlackLeaf(n[3]))) == (c1, RedLeaf(n[1]));
    assert Plug(c1, Leaf) == Tree7(n);
  }

  lemma Step8(n: seq<RbNode>)
    requires Numbered(n)
    ensures Apply(Tree7(n), Insert(n[5])) == Tree8(n)
  {
    var c1 := Under(Frame(R, false, n[0], Leaf), Top);
    var c2 := Under(Frame(R, false, n[3], Leaf), c1);
    assert Plug(c1, BlackLeaf(n[3])) == Tree7(n);
    assert Plug(c2, Leaf) == Tree7(n);
    assert Leads(c1, 5);
    PlaceIs(c2, 5);
    assert Plug(c1, Node(false, Leaf, n[3], RedLeaf(n[5]))) == Tree8(n);
    assert Plug(c2, RedLeaf(n[5])) == Tree8(n);
    assert InsertFix(c2, RedLeaf(n[5])) == Tree8(n);
  }

  lemma Step9(n: seq<RbNode>)
    requires Numbered(n)
    ensures Apply(Tree8(n), Insert(n[6])) == Tree9(n)
  {
    var c1 := Under(Frame(R, false, n[0], Leaf), Top);
    var c2 := Under(Frame(R, false, n[3], Leaf), c1);
    var c3 := Under(Frame(R, true, n[5], Leaf), c2);
    assert Plug(c1, Node(false, Leaf, n[3], RedLeaf(n[5]))) == Tree8(n);
    assert Plug(c2, RedLeaf(n[5])) == Tree8(n);
    assert Plug(c3, Leaf) == Tree8(n);
    assert Leads(c1, 6);
    assert Leads(c2, 6);
    PlaceIs(c3, 6);
    assert Plug(c1, Node(false, RedLeaf(n[3]), n[5], RedLeaf(n[6]))) == Tree9(n);
    assert InsertFix(c3, RedLeaf(n[6])) == Tree9(n);
  }

  lemma Step10(n: seq<RbNode>)
    requires Numbered(n)
    ensures Apply(Tree9(n), Insert(n[1])) == Tree10(n)
  {
    var c1 := Under(Frame(R, false, n[0], Leaf), Top);
    var c2 := Under(Frame(L, false, n[5], RedLeaf(n[6])), c1);
    var c3 := Under(Frame(L, true, n[3], Leaf), c2);
    assert Plug(c1, Node(false, RedLeaf(n[3]), n[5], RedLeaf(n[6]))) == Tree9(n);
    assert Plug(c2, RedLeaf(n[3])) == Tree9(n);
    assert Plug(c3, Leaf) == Tree9(n);
    assert Leads(c1, 1);
    assert Leads(c2, 1);
    PlaceIs(c3, 1);
    assert Plug(c1, Node(true, Node(false, RedLeaf(n[1]), n[3], Leaf), n[5], BlackLeaf(n[6]))) == Tree10(n);
    assert InsertFix(c1, Node(true, Node(false, RedLeaf(n[1]), n[3], Leaf), n[5], BlackLeaf(n[6]))) == Tree10(n);
    assert InsertFix(c3, RedLeaf(n[1])) == Tree10(n);
  }

  lemma Step11(n: seq<RbNode>)
    requires Numbered(n)
    ensures Apply(Tree10(n), Insert(n[4])) == Tree11(n)
  {
    var c1 := Under(Frame(R, false, n[0], Leaf), Top);
    var c2 := Under(Frame(L, true, n[5], BlackLeaf(n[6])), c1);
    var c3 := Under(Frame(R, false, n[3], RedLeaf(n[1])), c2);
    assert Plug(c1, Node(true, Node(false, RedLeaf(n[1]), n[3], Leaf), n[5], BlackLeaf(n[6]))) == Tree10(n);
    assert Plug(c2, Node(false, RedLeaf(n[1]), n[3], Leaf)) == Tree10(n);
    assert Plug(c3, Leaf) == Tree10(n);
    assert Leads(c1, 4);
    assert Leads(c2, 4);
    PlaceIs(c3, 4);
    assert Plug(c1, Node(true, Node(false, RedLeaf(n[1]), n[3], RedLeaf(n[4])), n[5], BlackLeaf(n[6]))) == Tree11(n);
    assert Plug(c2, Node(false, RedLeaf(n[1]), n[3], RedLeaf(n[4]))) == Tree11(n);
    assert Plug(c3, RedLeaf(n[4])) == Tree11(n);
    assert InsertFix(c3, RedLeaf(n[4])) == Tree11(n);
  }

  lemma Step12(n: seq<RbNode>)
    requires Numbered(n)
    ensures Apply(Tree11(n), Insert(n[2])) == Tree12(n)
  {
    var c1 := Under(Frame(R, false, n[0], Leaf), Top);
    var c2 := Under(Frame(L, true, n[5], BlackLeaf(n[6])), c1);
    var c3 := Under(Frame(L, false, n[3], RedLeaf(n[4])), c2);
    var c4 := Under(Frame(R, true, n[1], Leaf), c3);
    assert Plug(c1, Node(true, Node(false, RedLeaf(n[1]), n[3], RedLeaf(n[4])), n[5], BlackLeaf(n[6]))) == Tree11(n);
    assert Plug(c2, Node(false, RedLeaf(n[1]), n[3], RedLeaf(n[4]))) == Tree11(n);
    assert Plug(c3, RedLeaf(n[1])) == Tree11(n);
    assert Plug(c4, Leaf) == Tree11(n);
    assert Leads(c1, 2);
    assert Leads(c2, 2);
    assert Leads(c3, 2);
    PlaceIs(c4, 2);
    assert InsertFix(c2, Node(true, Node(false, Leaf, n[1], RedLeaf(n[2])), n[3], BlackLeaf(n[4]))) == Tree12(n);
    assert InsertFix(c4, RedLeaf(n[2])) == Tree12(n);
  }

  lemma Step13(n: seq<RbNode>)
    requires Numbered(n)
    ensures Apply(Tree12(n), Delete(n[1])) == Tree13(n)
  {
    var c1 := Under(Frame(L, false, n[3], Node(true, BlackLeaf(n[4]), n[5], BlackLeaf(n[6]))), Top);
    var c2 := Under(Frame(R, true, n[0], Leaf), c1);
    assert Plug(c1, Node(true, Leaf, n[0], Node(false, Leaf, n[1], RedLeaf(n[2])))) == Tree12(n);
    assert Plug(c2, Node(false, Leaf, n[1], RedLeaf(n[2]))) == Tree12(n);
    assert Off(Top, n[1]);
    assert n[1] !in Nodes(BlackLeaf(n[4])) && n[1] !in Nodes(BlackLeaf(n[6]));
    assert Off(c1, n[1]);
    assert Off(c2, n[1]);
    PathIs(c2, Node(false, Leaf, n[1], RedLeaf(n[2])), n[1]);
    assert Victim(c2, Node(false, Leaf, n[1], RedLeaf(n[2]))) == (c2, Node(false, Leaf, n[1], RedLeaf(n[2])));
    assert RemoveFix(c2) == c2;
    assert !Climbs(c2);
    assert Plug(c1, Node(true, Leaf, n[0], RedLeaf(n[2]))) == Tree13(n);
    assert Plug(c2, RedLeaf(n[2])) == Tree13(n);
  }

  lemma Step14(n: seq<RbNode>)
    requires Numbered(n)
    ensures Apply(Tree13(n), Delete(n[4])) == Tree14(n)
  {
    var c1 := Under(Frame(R, false, n[3], Node(true, Leaf, n[0], RedLeaf(n[2]))), Top);
    var c2 := Under(Frame(L, true, n[5], BlackLeaf(n[6])), c1);
    assert Plug(c1, Node(true, BlackLeaf(n[4]), n[5], BlackLeaf(n[6]))) == Tree13(n);
    assert Plug(c2, BlackLeaf(n[4])) == Tree13(n);
    assert Off(Top, n[4]);
    assert n[4] !in Nodes(Leaf) && n[4] !in Nodes(RedLeaf(n[2]));
    assert Off(c1, n[4]);
    assert Off(c2, n[4]);
    PathIs(c2, BlackLeaf(n[4]), n[4]);
    assert Victim(c2, BlackLeaf(n[4])) == (c2, BlackLeaf(n[4]));
    var d1 := Under(Frame(L, false, n[5], RedLeaf(n[6])), c1);
    assert RemoveFix(c2) == d1;
    assert !Climbs(c2);
    assert Plug(c1, Node(false, Leaf, n[5], RedLeaf(n[6]))) == Tree14(n);
    assert Plug(d1, Leaf) == Tree14(n);
  }

  /** Seven steps that leave a red node under a red one */
  lemma RedUnderRed(n: seq<RbNode>)
    requires Numbered(n)
    ensures var w := Run(Leaf, [Insert(n[0]), Insert(n[1]), Insert(n[2]), Insert(n[3]), Delete(n[2]),
                         Insert(n[2]), Delete(n[3])]);
      !IsRed(w) && !NoRedRed(w)
  {
    Step0(n);
    Step1(n);
    Step2(n);
    Step3(n);
    Step4(n);
    Step5(n);
    Step6(n);
    var ops := [Insert(n[0]), Insert(n[1]), Insert(n[2]), Insert(n[3]), Delete(n[2]),
                Insert(n[2]), Delete(n[3])];
    var trees := [Leaf, Tree0(n), Tree1(n), Tree2(n), Tree3(n), Tree4(n), Tree5(n), Tree6(n)];
    RunIs(ops, trees);
  }

  /** Thirteen steps after which removing node 5 follows a null pointer */
  lemma NullFollowed(n: seq<RbNode>)
    requires Numbered(n)
    ensures var w := Run(Leaf, [Insert(n[0]), Insert(n[1]), Insert(n[2]), Insert(n[3]), Delete(n[2]),
                         Delete(n[1]), Insert(n[5]), Insert(n[6]), Insert(n[1]), Insert(n[4]),
                         Insert(n[2]), Delete(n[1]), Delete(n[4])]);
      n[5] in Nodes(w) && !RemoveSafe(w, n[5])
  {
    Step0(n);
    Step1(n);
    Step2(n);
    Step3(n);
    Step4(n);
    Step7(n);
    Step8(n);
    Step9(n);
    Step10(n);
    Step11(n);
    Step12(n);
    Step13(n);
    Step14(n);
    var ops := [Insert(n[0]), Insert(n[1]), Insert(n[2]), Insert(n[3]), Delete(n[2]),
                Delete(n[1]), Insert(n[5]), Insert(n[6]), Insert(n[1]), Insert(n[4]),
                Insert(n[2]), Delete(n[1]), Delete(n[4])];
    var trees := [Leaf, Tree0(n), Tree1(n), Tree2(n), Tree3(n), Tree4(n), Tree7(n), Tree8(n), Tree9(n),
                  Tree10(n), Tree11(n), Tree12(n), Tree13(n), Tree14(n)];
    RunIs(ops, trees);
    var c1 := Under(Frame(R, false, n[3], Node(true, Leaf, n[0], RedLeaf(n[2]))), Top);
    assert Plug(c1, Node(false, Leaf, n[5], RedLeaf(n[6]))) == Tree14(n);
    PathIs(c1, Node(false, Leaf, n[5], RedLeaf(n[6])), n[5]);
    assert Victim(c1, Node(false, Leaf, n[5], RedLeaf(n[6]))) == (c1, Node(false, Leaf, n[5], RedLeaf(n[6])));
  }
}
