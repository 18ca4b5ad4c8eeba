/** The address-ordered trees of slab.c: slab_insert, slab_remove and _find_slab over rbtree.c. */
module SlabTrees {
  import opened RbTheory
  import opened RbTree
  import opened RbRemoval
  import opened Sequences

  const SLAB_SIZE: nat := 4096

  ghost predicate Ascending(ns: seq<RbNode>) {
    forall i, j :: 0 <= i < j < |ns| ==> ns[i].addr < ns[j].addr
  }

  ghost predicate AllBelow(ns: seq<RbNode>, a: nat) { forall n :: n in ns ==> n.addr < a }

  ghost predicate AllAbove(ns: seq<RbNode>, a: nat) { forall n :: n in ns ==> a < n.addr }

  lemma AscendingSplit(a: seq<RbNode>, e: RbNode, b: seq<RbNode>)
    requires Ascending(a + [e] + b)
    ensures AllBelow(a, e.addr) && AllAbove(b, e.addr) && Ascending(a) && Ascending(b)
  {
    var s := a + [e] + b;
    assert s[|a|] == e;
    assert forall i :: 0 <= i < |a| ==> s[i] == a[i];
    assert forall i :: 0 <= i < |b| ==> s[|a| + 1 + i] == b[i];
  }

  lemma AscendingJoin(a: seq<RbNode>, e: RbNode, b: seq<RbNode>)
    requires Ascending(a) && Ascending(b) && AllBelow(a, e.addr) && AllAbove(b, e.addr)
    ensures Ascending(a + [e] + b)
  {
  }

  /** The interval of addresses that _find_slab attributes to a slab. */
  predicate Covers(n: RbNode, mem: nat) { n.addr <= mem < n.addr + SLAB_SIZE }

  predicate DisjointSlabs(ns: seq<RbNode>) {
    forall i, j :: 0 <= i < j < |ns| ==> ns[i].addr + SLAB_SIZE <= ns[j].addr
  }

  /** The two sides of a focus: every address wanted lies between them. */
  lemma Surround(ctx: Ctx, t: Tree)
    requires t.Node? && Ascending(InOrder(Plug(ctx, t)))
    ensures AllBelow(Before(ctx), t.elem.addr) && AllAbove(After(ctx), t.elem.addr)
    ensures AllBelow(InOrder(t.left), t.elem.addr) && AllAbove(InOrder(t.right), t.elem.addr)
  {
    SplitAt(Plug(ctx, t), ctx, t);
    AscendingSplit(Before(ctx) + InOrder(t.left), t.elem, InOrder(t.right) + After(ctx));
    assert forall n :: n in Before(ctx) ==> n in Before(ctx) + InOrder(t.left);
    assert forall n :: n in InOrder(t.left) ==> n in Before(ctx) + InOrder(t.left);
    assert forall n :: n in InOrder(t.right) ==> n in InOrder(t.right) + After(ctx);
    assert forall n :: n in After(ctx) ==> n in InOrder(t.right) + After(ctx);
  }

  /** Addresses below the focus are to be found to its left, addresses past its slab to its right. */
  lemma Narrow(ctx: Ctx, t: Tree, mem: nat)
    requires t.Node? && Ascending(InOrder(Plug(ctx, t))) && DisjointSlabs(InOrder(Plug(ctx, t)))
    ensures mem < t.elem.addr ==> forall n :: n in InOrder(t) && Covers(n, mem) ==> n in InOrder(t.left)
    ensures mem >= t.elem.addr + SLAB_SIZE ==> forall n :: n in InOrder(t) && Covers(n, mem) ==> n in InOrder(t.right)
  {
    Surround(ctx, t);
    PlugInOrder(ctx, t);
    Gap(Before(ctx), InOrder(t.left), t.elem, InOrder(t.right), After(ctx));
  }

  lemma Gap(before: seq<RbNode>, left: seq<RbNode>, x: RbNode, right: seq<RbNode>, after: seq<RbNode>)
    requires DisjointSlabs(before + (left + [x] + right) + after)
    ensures forall n :: n in left ==> n.addr + SLAB_SIZE <= x.addr
  {
    var s, k := before + (left + [x] + right) + after, |before| + |left|;
    forall n | n in left ensures n.addr + SLAB_SIZE <= x.addr {
      var i :| 0 <= i < |left| && left[i] == n;
      assert s[|before| + i] == n && s[k] == x;
    }
  }

  lemma VisitBound(w: Tree, visited: nat)
    requires RedBlack(w) && visited <= Height(w)
    ensures Pow2((visited + 1) / 2) <= |InOrder(w)| + 1
  {
    Pow2Monotone((visited + 1) / 2, (Height(w) + 1) / 2);
    HeightBound(w);
  }

  /** Different slabs share no address. */
  ghost predicate Spaced(ns: set<RbNode>) {
    forall a, b :: a in ns && b in ns && a != b ==> a.addr + SLAB_SIZE <= b.addr || b.addr + SLAB_SIZE <= a.addr
  }

  lemma SpacedIsDisjoint(w: Tree)
    requires Ascending(InOrder(w)) && Spaced(Nodes(w))
    ensures DisjointSlabs(InOrder(w))
  {
    InOrderNodes(w);
    var s := InOrder(w);
    forall i, j | 0 <= i < j < |s| ensures s[i].addr + SLAB_SIZE <= s[j].addr {
      assert s[i] in Nodes(w) && s[j] in Nodes(w);
    }
  }

  /** The frame above the `side` child of `t`. */
  function FrameOf(side: Side, t: Tree): Frame
    requires t.Node?
  { Frame(side, t.red, t.elem, Kid(Other(side), t)) }

  /** After `visited` nodes the search is at the subtree `t` of `w`; a slab of `w` that covers `mem` is in it. */
  ghost predicate Seeks(c: Ctx, t: Tree, w: Tree, root: RbNode, m: Mem, mem: nat, visited: nat) {
    && Zip(c, t, root, m) && Plug(c, t) == w && visited + Height(t) <= Height(w)
    && forall n :: n in InOrder(w) && Covers(n, mem) ==> n in InOrder(t)
  }

  lemma Seek(c: Ctx, t: Tree, w: Tree, root: RbNode, m: Mem, mem: nat, visited: nat, side: Side)
    requires Seeks(c, t, w, root, m, mem, visited) && t.Node? && Ascending(InOrder(w)) && DisjointSlabs(InOrder(w))
    requires if side.L? then mem < t.elem.addr else mem >= t.elem.addr + SLAB_SIZE
    ensures t.elem in m && KidOf(side, m[t.elem]) == Root(Kid(side, t))
    ensures Seeks(Under(FrameOf(side, t), c), Kid(side, t), w, root, m, mem, visited + 1)
  {
    Narrow(c, t, mem);
    ZipUp(FrameOf(side, t), c, Kid(side, t), root, m);
  }

  lemma Sought(c: Ctx, t: Tree, w: Tree, root: RbNode, m: Mem, mem: nat, visited: nat)
    requires Seeks(c, t, w, root, m, mem, visited) && RedBlack(w)
    ensures t.Leaf? ==> forall n :: n in Nodes(w) ==> !Covers(n, mem)
    ensures t.Node? ==> t.elem in Nodes(w) && t.elem in m
    ensures var v := if t.Node? then visited + 1 else visited; Pow2((v + 1) / 2) <= |InOrder(w)| + 1
  {
    InOrderNodes(w);
    PlugNodes(c, t);
    VisitBound(w, if t.Node? then visited + 1 else visited);
  }

  /** The search for the link of a new node is at the subtree `t` of `w`. */
  ghost predicate Places(c: Ctx, t: Tree, w: Tree, root: RbNode, m: Mem, a: nat) {
    Zip(c, t, root, m) && Plug(c, t) == w && AllBelow(Before(c), a) && AllAbove(After(c), a)
  }

  lemma Place(c: Ctx, t: Tree, w: Tree, root: RbNode, m: Mem, a: nat, side: Side)
    requires Places(c, t, w, root, m, a) && t.Node? && Ascending(InOrder(w))
    requires if side.L? then a < t.elem.addr else a > t.elem.addr
    ensures t.elem in m && KidOf(side, m[t.elem]) == Root(Kid(side, t))
    ensures Places(Under(FrameOf(side, t), c), Kid(side, t), w, root, m, a)
  {
    Surround(c, t);
    ZipUp(FrameOf(side, t), c, Kid(side, t), root, m);
  }

  /** The ordered-set contract of a tree of slabs. */
  ghost predicate OrderedTree(w: Tree, root: RbNode, m: Mem) {
    Zip(Top, w, root, m) && RedBlack(w) && Ascending(InOrder(w))
  }

  lemma PlacedIsOrdered(c: Ctx, w: Tree, root: RbNode, m: Mem, node: RbNode)
    requires Places(c, Leaf, w, root, m, node.addr) && RedBlack(w) && Ascending(InOrder(w))
    ensures BlackTop(c) && Nodes(w) == CtxNodes(c) && RedBlack(Plug(c, Leaf))
    ensures Ascending(Before(c) + [node] + After(c)) && Nodes(InsertFix(c, RedLeaf(node))) == Nodes(w) + {node}
  {
    PlugNodes(c, Leaf);
    PlugNoRedRed(c, Leaf);
    NoRedRedBlackTop(c);
    PlugInOrder(c, Leaf);
    InsertNodes(c, node);
    AscendingSplitTwo(Before(c), After(c));
    AscendingJoin(Before(c), node, After(c));
  }

  lemma SetWithout<T>(a: set<T>, b: set<T>, n: T)
    requires forall x :: x in a <==> x in b && x != n
    ensures a == b - {n}
  {
  }

  lemma RemovedIsOrdered(w: Tree, w': Tree, node: RbNode)
    requires Apart(w) && Ascending(InOrder(w)) && node in Nodes(w) && InOrder(w') == Without(InOrder(w), node)
    ensures Ascending(InOrder(w')) && Nodes(w') == Nodes(w) - {node}
  {
    InOrderNodes(w);
    InOrderNodes(w');
    ApartNoDuplicates(w);
    var s := InOrder(w);
    assert node in s;
    WithoutKeeps(s, node);
    assert forall x: RbNode :: x in Nodes(w') <==> x in Nodes(w) && x != node;
    SetWithout(Nodes(w'), Nodes(w), node);
  }

  lemma SameFootprint(w: Tree, root: RbNode, m: Mem, m': Mem)
    requires OrderedTree(w, root, m) && (forall n :: n in Nodes(w) + {root} ==> n in m' && (n in m ==> m'[n] == m[n]))
    ensures OrderedTree(w, root, m')
  {
    ZipAgree(Top, w, root, m, m');
  }

  /** A `struct rb_tree` of slabs. */
  class SlabTree {
    const root: RbNode
    ghost var w: Tree

    ghost function Members(): set<RbNode>
      reads this
    { Nodes(w) }

    ghost function Footprint(): set<RbNode>
      reads this
    { Nodes(w) + {root} }

    ghost predicate Valid()
      reads this, Footprint()
    {
      OrderedTree(w, root, Snap(Footprint()))
    }

    constructor ()
      ensures Valid() && Members() == {} && fresh(root)
    {
      root := new RbNode.Dummy();
      w := Leaf;
    }

    /** rb_root */
    function Root(): (r: RbNode?)
      requires Valid()
      reads this, Footprint()
      ensures r == null <==> Members() == {}
      ensures r != null ==> r in Members()
    {
      root.left
    }

    /** _find_slab, counting the nodes it looks at. */
    method FindSlab(mem: nat) returns (r: RbNode?, visited: nat)
      requires Valid() && Spaced(Members())
      ensures r != null ==> r in Members() && Covers(r, mem)
      ensures r == null ==> forall n :: n in Members() ==> !Covers(n, mem)
      ensures Pow2((visited + 1) / 2) <= |InOrder(w)| + 1
    {
      visited := 0;
      r := root.left;
      ghost var c, t, m := Top, w, Snap(Footprint());
      SpacedIsDisjoint(w);
      while r != null
        invariant Seeks(c, t, w, root, m, mem, visited) && r == RbTheory.Root(t)
        decreases t
      {
        Sought(c, t, w, root, m, mem, visited);
        visited := visited + 1;
        if mem < r.addr {
          Seek(c, t, w, root, m, mem, visited - 1, L);
          c, t := Under(FrameOf(L, t), c), t.left;
          r := r.left;
        } else if mem >= r.addr + SLAB_SIZE {
          Seek(c, t, w, root, m, mem, visited - 1, R);
          c, t := Under(FrameOf(R, t), c), t.right;
          r := r.right;
        } else {
          return;
        }
      }
      Sought(c, t, w, root, m, mem, visited);
    }

    /** The search of slab_insert: the empty link at which a slab with this address belongs. */
    method FindLink(node: RbNode) returns (parent: RbNode, link: Side, ghost c: Ctx)
      requires Valid() && (forall n :: n in Members() ==> n.addr != node.addr)
      ensures Places(c, Leaf, w, root, Snap(Footprint()), node.addr)
      ensures parent == Parent(c, root) && (link.L? <==> OnLeft(c))
      ensures (if link.L? then parent.left else parent.right) == null
    {
      var p := root.left;
      parent, link := root, L;
      c := Top;
      ghost var t, m := w, Snap(Footprint());
      while p != null
        invariant Places(c, t, w, root, m, node.addr) && p == RbTheory.Root(t)
        invariant parent == Parent(c, root) && (link.L? <==> OnLeft(c))
        invariant p == if link.L? then parent.left else parent.right
        decreases t
      {
        PlugNodes(c, t);
        AtHole(c, t, root, m);
        parent := p;
        if node.addr < p.addr {
          Place(c, t, w, root, m, node.addr, L);
          link := L;
          c, t := Under(FrameOf(L, t), c), t.left;
          p := p.left;
        } else {
          Place(c, t, w, root, m, node.addr, R);
          link := R;
          c, t := Under(FrameOf(R, t), c), t.right;
          p := p.right;
        }
      }
    }

    /** slab_insert */
    method SlabInsert(node: RbNode)
      requires Valid() && node !in Footprint() && (forall n :: n in Members() ==> n.addr != node.addr)
      modifies this, Footprint(), node
      ensures Valid() && Members() == old(Members()) + {node}
    {
      hide Zip;
      hide RedBlack;
      hide InOrder;
      hide Plug;
      hide InsertFix;
      hide Ascending;
      hide Nodes;
      hide BlackTop;
      var parent, link;
      ghost var c;
      parent, link, c := FindLink(node);
      ghost var S, m := Footprint() + {node}, Snap(Footprint());
      PlacedIsOrdered(c, w, root, m, node);
      ZipAgree(c, Leaf, root, m, Snap(S));
      Insert(node, parent, link, c, root, S);
      w := InsertFix(c, RedLeaf(node));
      SameFootprint(w, root, Snap(S), Snap(Footprint()));
    }

    /** slab_remove, with the corrected test of navi_rb_remove; `tree` is the tree that holds the node. */
    static method SlabRemove(node: RbNode, ghost tree: SlabTree)
      requires tree.Valid() && node in tree.Members()
      modifies tree, tree.Footprint()
      ensures tree.Valid() && tree.Members() == old(tree.Members()) - {node} && node != tree.root
    {
      ghost var S := tree.Footprint();
      RemoveCorrected(node, tree.w, tree.root, S);
      RemovedIsOrdered(tree.w, RemoveTree(tree.w, node, false), node);
      tree.w := RemoveTree(tree.w, node, false);
      SameFootprint(tree.w, tree.root, Snap(S), Snap(tree.Footprint()));
    }
  }

  lemma AscendingSplitTwo(a: seq<RbNode>, b: seq<RbNode>)
    requires Ascending(a + [] + b)
    ensures Ascending(a) && Ascending(b)
  {
    var s := a + [] + b;
    assert forall i :: 0 <= i < |a| ==> s[i] == a[i];
    assert forall i :: 0 <= i < |b| ==> s[|a| + i] == b[i];
  }

  lemma {:induction false} WithoutKeeps(s: seq<RbNode>, n: RbNode)
    requires NoDuplicates(s) && n in s
    ensures Ascending(s) ==> Ascending(Without(s, n))
    ensures forall x: RbNode :: x in Without(s, n) <==> x in s && x != n
  {
    if s[0] == n {
      assert forall x: RbNode :: x in s <==> x == n || x in s[1..];
    } else {
      WithoutKeeps(s[1..], n);
      assert forall x: RbNode :: x in s <==> x == s[0] || x in s[1..];
      if Ascending(s) {
        assert forall i :: 0 <= i < |s[1..]| ==> s[1..][i] == s[i + 1];
        assert AllAbove(Without(s[1..], n), s[0].addr);
        AscendingJoin([], s[0], Without(s[1..], n));
        assert [] + [s[0]] + Without(s[1..], n) == Without(s, n);
      }
    }
  }
}
