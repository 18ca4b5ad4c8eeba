/** navi_rb_remove and the traversals of rbtree.c. */
module RbRemoval {
  import opened RbTheory
  import opened RbTree
  import opened Sequences

  // ----- parents and children know each other -----

  /** The child pointers of `x` have parent pointers back, and its parent pointer has a child pointer back. */
  predicate LinksOf(m: Mem, N: set<RbNode>, x: RbNode, top: RbNode) {
    && x in m
    && (m[x].left != null ==> m[x].left in N && m[x].left in m && m[m[x].left].parent == x)
    && (m[x].right != null ==> m[x].right in N && m[x].right in m && m[m[x].right].parent == x)
    && (m[x].left != null ==> m[x].left != m[x].right)
    && (x != top ==> m[x].parent != null && m[x].parent in N && m[x].parent in m && m[x].parent != x)
    && (x != top ==> m[m[x].parent].left == x || m[m[x].parent].right == x)
  }

  predicate Linked(m: Mem, N: set<RbNode>, top: RbNode) {
    forall x :: x in N ==> LinksOf(m, N, x, top)
  }

  lemma {:induction false} ShapeLinks(t: Tree, par: RbNode, m: Mem, x: RbNode)
    requires Shape(t, par, m) && Apart(t) && x in Nodes(t)
    ensures x in m && (m[x].left != null ==> m[x].left != m[x].right)
    ensures m[x].left != null ==> m[x].left in Nodes(t) && m[x].left in m && m[m[x].left].parent == x
    ensures m[x].right != null ==> m[x].right in Nodes(t) && m[x].right in m && m[m[x].right].parent == x
    ensures x == Root(t) ==> m[x].parent == par
    ensures x != Root(t) ==> m[x].parent != null && m[x].parent in Nodes(t) && m[x].parent in m && m[x].parent != x
    ensures x != Root(t) ==> m[m[x].parent].left == x || m[m[x].parent].right == x
  {
    assert t.left.Node? ==> Root(t.left) in Nodes(t.left);
    if x in Nodes(t.left) { ShapeLinks(t.left, t.elem, m, x); }
    if x in Nodes(t.right) { ShapeLinks(t.right, t.elem, m, x); }
  }

  lemma TreeLinks(w: Tree, top: RbNode, m: Mem)
    requires Zip(Top, w, top, m)
    ensures Linked(m, Nodes(w) + {top}, top)
  {
    forall x | x in Nodes(w) + {top} ensures LinksOf(m, Nodes(w) + {top}, x, top) {
      if x in Nodes(w) { ShapeLinks(w, top, m, x); }
    }
  }

  // ----- swapping two nodes is renaming them -----

  function Swp(a: RbNode, b: RbNode, x: RbNode?): RbNode? {
    if x == a then b else if x == b then a else x
  }

  function SwapRec(a: RbNode, b: RbNode, r: Rec): Rec {
    Rec(Swp(a, b, r.left), Swp(a, b, r.right), Swp(a, b, r.parent), r.color)
  }

  /** The memory in which `a` and `b` have traded places, colours included, on the nodes of `N`. */
  predicate Traded(m: Mem, m': Mem, a: RbNode, b: RbNode, N: set<RbNode>) {
    forall x :: x in N ==> x in m && Swp(a, b, x) in m' && m'[Swp(a, b, x)] == SwapRec(a, b, m[x])
  }

  function SwapTree(a: RbNode, b: RbNode, t: Tree): Tree {
    match t
    case Leaf => Leaf
    case Node(red, l, e, r) => Node(red, SwapTree(a, b, l), Swp(a, b, e), SwapTree(a, b, r))
  }

  function SwapCtx(a: RbNode, b: RbNode, ctx: Ctx): Ctx {
    match ctx
    case Top => Top
    case Under(f, up) =>
      Under(f.(elem := Swp(a, b, f.elem), sib := SwapTree(a, b, f.sib)), SwapCtx(a, b, up))
  }

  lemma {:induction false} SwapTreeNodes(a: RbNode, b: RbNode, t: Tree)
    ensures forall x: RbNode :: x in Nodes(SwapTree(a, b, t)) <==> Swp(a, b, x) in Nodes(t)
    ensures a !in Nodes(t) && b !in Nodes(t) ==> SwapTree(a, b, t) == t
  {
    if t.Node? {
      SwapTreeNodes(a, b, t.left);
      SwapTreeNodes(a, b, t.right);
    }
  }

  lemma {:induction false} SwapApart(a: RbNode, b: RbNode, t: Tree)
    requires Apart(t)
    ensures Apart(SwapTree(a, b, t))
  {
    if t.Node? {
      SwapApart(a, b, t.left);
      SwapApart(a, b, t.right);
      SwapTreeNodes(a, b, t.left);
      SwapTreeNodes(a, b, t.right);
      forall x | x in Nodes(SwapTree(a, b, t.left)) ensures x !in Nodes(SwapTree(a, b, t.right)) {
        assert Swp(a, b, x) in Nodes(t.left);
      }
      assert Nodes(SwapTree(a, b, t.left)) !! Nodes(SwapTree(a, b, t.right));
    }
  }

  lemma {:induction false} SwapShape(a: RbNode, b: RbNode, t: Tree, par: RbNode, m: Mem, m': Mem)
    requires Shape(t, par, m) && Traded(m, m', a, b, Nodes(t))
    ensures Shape(SwapTree(a, b, t), Swp(a, b, par), m')
  {
    if t.Node? {
      assert t.elem in Nodes(t);
      SwapShape(a, b, t.left, t.elem, m, m');
      SwapShape(a, b, t.right, t.elem, m, m');
    }
  }

  lemma SwapZip(a: RbNode, b: RbNode, w: Tree, top: RbNode, m: Mem, m': Mem)
    requires Zip(Top, w, top, m) && a != top && b != top && Traded(m, m', a, b, Nodes(w) + {top})
    ensures Zip(Top, SwapTree(a, b, w), top, m')
  {
    SwapTreeNodes(a, b, w);
    SwapApart(a, b, w);
    SwapShape(a, b, w, top, m, m');
  }

  function Put(m: Mem, n: RbNode?, r: Rec): (m': Mem)
    ensures m'.Keys == m.Keys
  { if n != null && n in m then m[n := r] else m }

  function At(m: Mem, n: RbNode?): Rec { if n != null && n in m then m[n] else Rec(null, null, null, Red) }

  /** `n` takes over two children. */
  function Adopt(m: Mem, n: RbNode, l: RbNode?, r: RbNode?): (m': Mem)
    ensures m'.Keys == m.Keys
  {
    var m1 := Put(m, n, At(m, n).(left := l));
    var m2 := Put(m1, l, At(m1, l).(parent := n));
    var m3 := Put(m2, n, At(m2, n).(right := r));
    Put(m3, r, At(m3, r).(parent := n))
  }

  /** The parent of `n` gets `v` in its place. */
  function Regraft(m: Mem, n: RbNode, v: RbNode): (m': Mem)
    ensures m'.Keys == m.Keys
  {
    var q := At(m, n).parent;
    Put(m, q, if At(m, q).left == n then At(m, q).(left := v) else At(m, q).(right := v))
  }

  predicate SwapCase(m: Mem, N: set<RbNode>, top: RbNode, a: RbNode, b: RbNode) {
    && LinksOf(m, N, a, top) && LinksOf(m, N, b, top) && top in m && a != b && a != top && b != top
    && m[top].parent == null
  }

  /** `swap` gets it right unless `b` is the parent of `a`, or its right sibling. */
  predicate SwapWorks(m: Mem, a: RbNode, b: RbNode) {
    At(m, a).parent != b && (At(m, a).parent == At(m, b).parent ==> At(m, At(m, a).parent).left == b)
  }

  /** The record of `x` once `n` has adopted `l` and `r`. */
  function Adopted(x: RbNode, n: RbNode, l: RbNode?, r: RbNode?, c: Rec): Rec {
    Rec(if x == n then l else c.left, if x == n then r else c.right,
        if x == l || x == r then n else c.parent, c.color)
  }

  lemma AdoptAt(m: Mem, n: RbNode, l: RbNode?, r: RbNode?, x: RbNode)
    requires n in m && x in m && (l != null ==> l in m) && (r != null ==> r in m)
    ensures x in Adopt(m, n, l, r) && Adopt(m, n, l, r)[x] == Adopted(x, n, l, r, m[x])
  {
  }

  /** The record of `x` after both adoptions of `swap`. */
  function Adoptions(m: Mem, a: RbNode, b: RbNode, x: RbNode): Rec
    requires a in m && b in m && x in m
  {
    Adopted(x, b, m[a].left, m[a].right, Adopted(x, a, m[b].left, m[b].right, m[x]))
  }

  function BothAdopt(m: Mem, a: RbNode, b: RbNode): (m': Mem)
    ensures m'.Keys == m.Keys
  {
    Adopt(Adopt(m, a, At(m, b).left, At(m, b).right), b, At(m, a).left, At(m, a).right)
  }

  lemma AdoptionsAt(m: Mem, N: set<RbNode>, top: RbNode, a: RbNode, b: RbNode, z: RbNode)
    requires SwapCase(m, N, top, a, b) && z in m
    ensures BothAdopt(m, a, b)[z] == Adoptions(m, a, b, z)
  {
    AdoptAt(m, a, m[b].left, m[b].right, z);
    AdoptAt(Adopt(m, a, m[b].left, m[b].right), b, m[a].left, m[a].right, z);
  }

  /** The rest of `swap`: parents and colours. */
  function SwapTail(m2: Mem, a: RbNode, b: RbNode, was: Rec): Mem {
    var m3 := Regraft(m2, a, b);
    var m4 := Put(m3, a, At(m3, a).(parent := At(m3, b).parent));
    var m5 := Regraft(m4, b, a);
    var m6 := Put(m5, b, At(m5, b).(parent := was.parent));
    var m7 := Put(m6, a, At(m6, a).(color := At(m6, b).color));
    Put(m7, b, At(m7, b).(color := was.color))
  }

  /** The assignments of `swap`. */
  function SwapMem(m: Mem, a: RbNode, b: RbNode): Mem {
    SwapTail(BothAdopt(m, a, b), a, b, At(m, a))
  }

  /** The case in which `b` is not a child of `a`. */
  lemma SwapTailAt(m2: Mem, a: RbNode, b: RbNode, was: Rec, x: RbNode)
    requires a in m2 && b in m2 && x in m2 && a != b && was == m2[a].(left := was.left, right := was.right)
    requires var p, q := m2[a].parent, m2[b].parent;
      p != null && q != null && p in m2 && q in m2 && p != q && p != a && p != b && q != a && q != b
    ensures x in SwapTail(m2, a, b, was)
    ensures var p, q := m2[a].parent, m2[b].parent;
      SwapTail(m2, a, b, was)[x] ==
        if x == a then m2[a].(parent := q, color := m2[b].color)
        else if x == b then m2[b].(parent := p, color := m2[a].color)
        else if x == p then (if m2[p].left == a then m2[p].(left := b) else m2[p].(right := b))
        else if x == q then (if m2[q].left == b then m2[q].(left := a) else m2[q].(right := a))
        else m2[x]
  {
  }

  /** The case in which `b` is the left child of `a`: here `b` is its own parent and left child for a while. */
  lemma SwapTailAtChild(m2: Mem, a: RbNode, b: RbNode, was: Rec, x: RbNode)
    requires a in m2 && b in m2 && x in m2 && a != b && was == m2[a].(left := was.left, right := was.right)
    requires var p := m2[a].parent; p != null && p in m2 && p != a && p != b
    requires m2[b].parent == b && m2[b].left == b
    ensures x in SwapTail(m2, a, b, was)
    ensures var p := m2[a].parent;
      SwapTail(m2, a, b, was)[x] ==
        if x == a then m2[a].(parent := b, color := m2[b].color)
        else if x == b then m2[b].(left := a, parent := p, color := m2[a].color)
        else if x == p then (if m2[p].left == a then m2[p].(left := b) else m2[p].(right := b))
        else m2[x]
  {
  }

  /** The case in which `b` is the right child of `a`: likewise on the other side. */
  lemma SwapTailAtRight(m2: Mem, a: RbNode, b: RbNode, was: Rec, x: RbNode)
    requires a in m2 && b in m2 && x in m2 && a != b && was == m2[a].(left := was.left, right := was.right)
    requires var p := m2[a].parent; p != null && p in m2 && p != a && p != b
    requires m2[b].parent == b && m2[b].right == b && m2[b].left != b
    ensures x in SwapTail(m2, a, b, was)
    ensures var p := m2[a].parent;
      SwapTail(m2, a, b, was)[x] ==
        if x == a then m2[a].(parent := b, color := m2[b].color)
        else if x == b then m2[b].(right := a, parent := p, color := m2[a].color)
        else if x == p then (if m2[p].left == a then m2[p].(left := b) else m2[p].(right := b))
        else m2[x]
  {
  }

  /** The case in which `b` is the left sibling of `a`. */
  lemma SwapTailAtSibling(m2: Mem, a: RbNode, b: RbNode, was: Rec, x: RbNode)
    requires a in m2 && b in m2 && x in m2 && a != b && was == m2[a].(left := was.left, right := was.right)
    requires var p := m2[a].parent; p != null && p in m2 && p != a && p != b && m2[b].parent == p && m2[p].left == b
    ensures x in SwapTail(m2, a, b, was)
    ensures var p := m2[a].parent;
      SwapTail(m2, a, b, was)[x] ==
        if x == a then m2[a].(color := m2[b].color)
        else if x == b then m2[b].(color := m2[a].color)
        else if x == p then m2[p].(left := a, right := b)
        else m2[x]
  {
  }

  /** The final record of `y`, with no update of the memory left in it. */
  function SwapResult(m: Mem, a: RbNode, b: RbNode, y: RbNode): Rec
    requires a in m && b in m && y in m && m[a].parent != null && m[a].parent in m
    requires m[b].parent != null && m[b].parent in m
  {
    var p, q := m[a].parent, m[b].parent;
    var c, ca, cb := Adoptions(m, a, b, y), Adoptions(m, a, b, a), Adoptions(m, a, b, b);
    if y == a then ca.(parent := cb.parent, color := cb.color)
    else if y == b then
      cb.(left := if m[a].left == b then a else cb.left, right := if m[a].right == b then a else cb.right,
          parent := p, color := ca.color)
    else if y == p && p == q then c.(left := a, right := b)
    else if y == p then (if c.left == a then c.(left := b) else c.(right := b))
    else if y == q then (if c.left == b then c.(left := a) else c.(right := a))
    else c
  }

  lemma SwapMemIs(m: Mem, N: set<RbNode>, top: RbNode, a: RbNode, b: RbNode, y: RbNode)
    requires SwapCase(m, N, top, a, b) && SwapWorks(m, a, b) && y in m
    ensures y in SwapMem(m, a, b) && SwapMem(m, a, b)[y] == SwapResult(m, a, b, y)
  {
    AdoptionsAt(m, N, top, a, b, a);
    AdoptionsAt(m, N, top, a, b, b);
    AdoptionsAt(m, N, top, a, b, m[a].parent);
    AdoptionsAt(m, N, top, a, b, m[b].parent);
    AdoptionsAt(m, N, top, a, b, y);
    if m[a].left == b {
      SwapTailAtChild(BothAdopt(m, a, b), a, b, m[a], y);
    } else if m[a].right == b {
      SwapTailAtRight(BothAdopt(m, a, b), a, b, m[a], y);
    } else if m[a].parent == m[b].parent {
      SwapTailAtSibling(BothAdopt(m, a, b), a, b, m[a], y);
    } else {
      SwapTailAt(BothAdopt(m, a, b), a, b, m[a], y);
    }
  }

  lemma SwapResultIs(m: Mem, N: set<RbNode>, top: RbNode, a: RbNode, b: RbNode, x: RbNode)
    requires SwapCase(m, N, top, a, b) && SwapWorks(m, a, b) && LinksOf(m, N, x, top)
    ensures SwapResult(m, a, b, Swp(a, b, x)) == SwapRec(a, b, m[x])
  {
  }

  lemma SwapTrades(w: Tree, top: RbNode, m: Mem, a: RbNode, b: RbNode)
    requires Zip(Top, w, top, m) && a in Nodes(w) && b in Nodes(w) && a != b
    requires SwapWorks(m, a, b)
    ensures Zip(Top, SwapTree(a, b, w), top, SwapMem(m, a, b))
  {
    var N := Nodes(w) + {top};
    TreeLinks(w, top, m);
    assert LinksOf(m, N, a, top) && LinksOf(m, N, b, top);
    forall x | x in N
      ensures x in m && Swp(a, b, x) in SwapMem(m, a, b) && SwapMem(m, a, b)[Swp(a, b, x)] == SwapRec(a, b, m[x])
    {
      assert LinksOf(m, N, x, top);
      SwapMemIs(m, N, top, a, b, Swp(a, b, x));
      SwapResultIs(m, N, top, a, b, x);
    }
    SwapZip(a, b, w, top, m, SwapMem(m, a, b));
  }

  /** The left child of a node in a swapped tree */
  lemma {:induction false} SwappedLeft(a: RbNode, b: RbNode, t: Tree, par: RbNode, par': RbNode, m: Mem, m': Mem,
        x: RbNode)
    requires Shape(t, par, m) && Shape(SwapTree(a, b, t), par', m') && x in Nodes(t)
    ensures x in m && Swp(a, b, x) in m' && m'[Swp(a, b, x)].left == Swp(a, b, m[x].left)
  {
    assert t.left.Node? ==> SwapTree(a, b, t.left).Node?;
    assert Root(SwapTree(a, b, t.left)) == Swp(a, b, Root(t.left));
    if x in Nodes(t.left) {
      SwappedLeft(a, b, t.left, t.elem, Swp(a, b, t.elem), m, m', x);
    } else if x in Nodes(t.right) {
      SwappedLeft(a, b, t.right, t.elem, Swp(a, b, t.elem), m, m', x);
    }
  }

  /** What the code leaves in `b`, and in a parent of which `a` is the left and `b` the right child */
  lemma SwapTailWrong(m2: Mem, a: RbNode, b: RbNode, was: Rec)
    requires a in m2 && b in m2 && a != b
    ensures At(SwapTail(m2, a, b, was), b).parent == was.parent
    ensures var p := m2[a].parent; p == m2[b].parent && p != null && p in m2 && p != a && p != b && m2[p].left == a ==>
      At(SwapTail(m2, a, b, was), p).left == a
  {
  }

  /** Otherwise a link is left wrong: the parent of `b`, or the left child of the parent. */
  lemma SwapFails(w: Tree, top: RbNode, m: Mem, a: RbNode, b: RbNode)
    requires Zip(Top, w, top, m) && a in Nodes(w) && b in Nodes(w) && a != b
    requires !SwapWorks(m, a, b)
    ensures !Zip(Top, SwapTree(a, b, w), top, SwapMem(m, a, b))
  {
    hide SwapTail;
    var N := Nodes(w) + {top};
    TreeLinks(w, top, m);
    assert LinksOf(m, N, a, top) && LinksOf(m, N, b, top);
    var p, m', w' := m[a].parent, SwapMem(m, a, b), SwapTree(a, b, w);
    AdoptionsAt(m, N, top, a, b, a);
    AdoptionsAt(m, N, top, a, b, b);
    AdoptionsAt(m, N, top, a, b, p);
    SwapTailWrong(BothAdopt(m, a, b), a, b, m[a]);
    hide BothAdopt;
    if Zip(Top, w', top, m') {
      if p == b {
        SwapTreeNodes(a, b, w);
        ShapeLinks(w', top, m', b);
      } else {
        SwappedLeft(a, b, w, top, top, m, m', p);
      }
      assert false;
    }
  }

  lemma SwapExact(w: Tree, top: RbNode, m: Mem, a: RbNode, b: RbNode)
    requires Zip(Top, w, top, m) && a in Nodes(w) && b in Nodes(w) && a != b
    ensures Zip(Top, SwapTree(a, b, w), top, SwapMem(m, a, b)) <==> SwapWorks(m, a, b)
  {
    if SwapWorks(m, a, b) { SwapTrades(w, top, m, a, b); } else { SwapFails(w, top, m, a, b); }
  }

  method AdoptChildren(n: RbNode, l: RbNode?, r: RbNode?, ghost S: set<RbNode>)
    requires n in S && (l != null ==> l in S) && (r != null ==> r in S)
    modifies S
    ensures Snap(S) == Adopt(old(Snap(S)), n, l, r)
  {
    SetLeft(n, l, S);
    if l != null {
      SetParent(l, n, S);
    }
    SetRight(n, r, S);
    if r != null {
      SetParent(r, n, S);
    }
  }

  method RegraftParent(n: RbNode, v: RbNode, ghost S: set<RbNode>)
    requires n in S && n.parent != null && n.parent in S
    modifies S
    ensures Snap(S) == Regraft(old(Snap(S)), n, v)
  {
    if n == n.parent.left {
      SetLeft(n.parent, v, S);
    } else {
      SetRight(n.parent, v, S);
    }
  }

  method SwapParents(a: RbNode, b: RbNode, was: Rec, ghost S: set<RbNode>)
    requires a in S && b in S && a.parent != null && a.parent in S && b.parent != null && b.parent in S && a != b
    modifies S
    ensures Snap(S) == SwapTail(old(Snap(S)), a, b, was)
  {
    // swap a parent
    RegraftParent(a, b, S);
    assert Snap(S)[b].parent == b.parent;
    SetParent(a, b.parent, S);
    // swap b parent
    assert Snap(S)[b].parent == b.parent;
    RegraftParent(b, a, S);
    SetParent(b, was.parent, S);
    // swap colors
    SetColor(a, b.color, S);
    SetColor(b, was.color, S);
  }

  lemma SwapSetting(w: Tree, top: RbNode, m: Mem, a: RbNode, b: RbNode)
    requires Zip(Top, w, top, m) && a in Nodes(w) && b in Nodes(w) && a != b
    ensures a in m && b in m
    ensures forall c :: c == a || c == b ==>
      && (m[c].left != null ==> m[c].left in m) && (m[c].right != null ==> m[c].right in m)
      && var p := BothAdopt(m, a, b)[c].parent; p != null && p in m
  {
    var N := Nodes(w) + {top};
    TreeLinks(w, top, m);
    assert LinksOf(m, N, a, top) && LinksOf(m, N, b, top);
    AdoptionsAt(m, N, top, a, b, a);
    AdoptionsAt(m, N, top, a, b, b);
  }

  /** `swap`: exchanges two nodes, even when `b` is a child of `a` and points to itself for a while; exactly so. */
  method Swap(a: RbNode, b: RbNode, ghost w: Tree, ghost top: RbNode, ghost S: set<RbNode>)
    requires Zip(Top, w, top, Snap(S)) && a in Nodes(w) && b in Nodes(w) && a != b
    modifies S
    ensures Snap(S) == SwapMem(old(Snap(S)), a, b)
    ensures Zip(Top, SwapTree(a, b, w), top, Snap(S)) <==> SwapWorks(old(Snap(S)), a, b)
  {
    ghost var m := Snap(S);
    ShapeLinks(w, top, m, a);
    ShapeLinks(w, top, m, b);
    SwapExact(w, top, m, a, b);
    hide SwapWorks;
    SwapSetting(w, top, m, a, b);
    var was := Rec(a.left, a.right, a.parent, a.color);
    // swap a children
    AdoptChildren(a, b.left, b.right, S);
    // swap b children
    AdoptChildren(b, was.left, was.right, S);
    assert Snap(S)[a].parent == a.parent && Snap(S)[b].parent == b.parent;
    SwapParents(a, b, was, S);
  }

  // ----- the predecessor takes the victim's place -----

  /** navi_rb_last */
  method RbLast(n: RbNode, ghost ctx: Ctx, ghost t: Tree, ghost top: RbNode, ghost S: set<RbNode>) returns (r: RbNode)
    requires Zip(ctx, t, top, Snap(S)) && t.Node? && t.elem == n
    ensures r == Last(ctx, t).1.elem && Zip(Last(ctx, t).0, Last(ctx, t).1, top, Snap(S))
  {
    r := n;
    ghost var c, s := ctx, t;
    AtHole(c, s, top, Snap(S));
    while r.right != null
      invariant Zip(c, s, top, Snap(S)) && s.Node? && s.elem == r && Last(c, s) == Last(ctx, t)
      invariant r in S
      decreases s
    {
      ghost var f := Frame(R, s.red, s.elem, s.left);
      ZipUp(f, c, s.right, top, Snap(S));
      c, s := Under(f, c), s.right;
      AtHole(c, s, top, Snap(S));
      r := r.right;
    }
  }

  lemma {:induction false} SwapPlug(a: RbNode, b: RbNode, ctx: Ctx, t: Tree)
    ensures SwapTree(a, b, Plug(ctx, t)) == Plug(SwapCtx(a, b, ctx), SwapTree(a, b, t))
  {
    if ctx.Under? { SwapPlug(a, b, ctx.up, Fill(ctx.f, t)); }
  }

  lemma {:induction false} SwapAppend(a: RbNode, b: RbNode, inner: Ctx, outer: Ctx)
    ensures SwapCtx(a, b, Append(inner, outer)) == Append(SwapCtx(a, b, inner), SwapCtx(a, b, outer))
  {
    if inner.Under? { SwapAppend(a, b, inner.up, outer); }
  }

  lemma {:induction false} SwapCtxElsewhere(a: RbNode, b: RbNode, ctx: Ctx)
    requires a !in CtxNodes(ctx) && b !in CtxNodes(ctx)
    ensures SwapCtx(a, b, ctx) == ctx
  {
    if ctx.Under? {
      SwapTreeNodes(a, b, ctx.f.sib);
      SwapCtxElsewhere(a, b, ctx.up);
    }
  }

  lemma {:induction false} AppendApart(inner: Ctx, outer: Ctx)
    ensures CtxNodes(Append(inner, outer)) == CtxNodes(inner) + CtxNodes(outer)
    ensures CtxApart(Append(inner, outer)) ==> CtxNodes(inner) !! CtxNodes(outer) && CtxApart(outer)
  {
    if inner.Under? { AppendApart(inner.up, outer); }
  }

  /** Trading a node with its in-order predecessor gives the tree in which Victim finds it. */
  lemma SwapVictim(ctx: Ctx, t: Tree, top: RbNode, m: Mem)
    requires Zip(ctx, t, top, m) && t.Node? && t.left.Node? && t.right.Node?
    ensures var b := Last(Top, t.left).1.elem;
      && b in Nodes(t.left) && b != t.elem && b !in Nodes(t.right) && b !in CtxNodes(ctx) && b in m
      && m[b].parent != Parent(ctx, top)
      && SwapTree(t.elem, b, Plug(ctx, t)) == Plug(Victim(ctx, t).0, Victim(ctx, t).1)
  {
    var (inner, v) := Last(Top, t.left);
    var a, b := t.elem, v.elem;
    var here, there := Frame(L, t.red, a, t.right), Frame(L, t.red, b, t.right);
    var c := Append(inner, Under(here, ctx));
    LastPlug(Top, t.left);
    PlugNodes(inner, v);
    PlugAppend(inner, Under(here, ctx), v);
    assert Plug(c, v) == Plug(ctx, t);
    ZipPlug(ctx, t, top, m);
    ZipPlug(c, v, top, m);
    AtHole(c, v, top, m);
    AppendApart(inner, Under(here, ctx));
    SwapPlug(a, b, c, v);
    SwapAppend(a, b, inner, Under(here, ctx));
    SwapCtxElsewhere(a, b, inner);
    SwapCtxElsewhere(a, b, ctx);
    SwapTreeNodes(a, b, t.right);
    SwapTreeNodes(a, b, v.left);
    assert SwapCtx(a, b, Under(here, ctx)) == Under(there, ctx);
    assert SwapTree(a, b, v) == Node(v.red, v.left, a, Leaf);
    assert Parent(c, top) in CtxNodes(inner) + {a};
  }

  // ----- the loop of navi_rb_remove -----

  function WithKidTree(k: Side, t: Tree, u: Tree): Tree
    requires t.Node?
  { if k.L? then t.(left := u) else t.(right := u) }

  /** The colour of a child of the sibling was written. */
  lemma ZipPaintNephew(p: Frame, up: Ctx, t: Tree, k: Side, top: RbNode, m: Mem, red: bool)
    requires Zip(Under(p, up), t, top, m) && p.sib.Node? && Kid(k, p.sib).Node?
    ensures Kid(k, p.sib).elem in m
    ensures var u := Kid(k, p.sib); var m' := m[u.elem := m[u.elem].(color := ColorOf(red))];
      Zip(Under(p.(sib := WithKidTree(k, p.sib, Paint(u, red))), up), t, top, m')
  {
    var u := Kid(k, p.sib);
    var f := Frame(k, p.sib.red, p.sib.elem, Kid(Other(k), p.sib));
    var above := Under(Swing(p, t), up);
    ZipSwing(p, up, t, top, m);
    ZipUp(f, above, u, top, m);
    ZipPaint(Under(f, above), u, top, m, red);
    var m' := m[u.elem := m[u.elem].(color := ColorOf(red))];
    ZipUp(f, above, Paint(u, red), top, m');
    ZipSwing(p.(sib := WithKidTree(k, p.sib, Paint(u, red))), up, t, top, m');
  }

  lemma Case2Shape(p: Frame, up: Ctx, t: Tree, top: RbNode, m: Mem)
    requires Zip(Under(p, up), t, top, m) && p.sib.Node? && t.Node?
    ensures p.elem in m && p.sib.elem in m
    ensures var m1 := m[p.elem := m[p.elem].(color := Red)];
      var m2 := m1[p.sib.elem := m1[p.sib.elem].(color := Black)];
      Rotatable(m2, p.elem, p.side) && Zip(RedSibling(p, up), t, top, Rotation(m2, p.elem, p.side))
  {
    ZipPaintParent(p, up, t, top, m, true);
    var p1, m1 := p.(red := true), m[p.elem := m[p.elem].(color := Red)];
    ZipPaintSibling(p1, up, t, top, m1, false);
    var p2, m2 := p1.(sib := Paint(p.sib, false)), m1[p.sib.elem := m1[p.sib.elem].(color := Black)];
    ZipUp(p2, up, t, top, m2);
    RotationShape(up, Fill(p2, t), p.side, top, m2);
    var c, m3 := RedSibling(p, up), Rotation(m2, p.elem, p.side);
    ZipUp(c.up.f, c.up.up, Fill(c.f, t), top, m3);
    ZipUp(c.f, c.up, t, top, m3);
  }

  lemma Case5Shape(p: Frame, up: Ctx, t: Tree, top: RbNode, m: Mem)
    requires Zip(Under(p, up), t, top, m) && p.sib.Node? && Near(p.side, p.sib).Node?
    requires !p.sib.red && IsRed(Near(p.side, p.sib)) && !IsRed(Far(p.side, p.sib))
    ensures var s, u := p.sib, Near(p.side, p.sib);
      s.elem in m && u.elem in m &&
      var m1 := m[s.elem := m[s.elem].(color := Red)];
      var m2 := m1[u.elem := m1[u.elem].(color := Black)];
      && Rotatable(m2, s.elem, Other(p.side))
      && Zip(Under(p.(sib := FarNephew(p.side, s)), up), t, top, Rotation(m2, s.elem, Other(p.side)))
  {
    var s, u := p.sib, Near(p.side, p.sib);
    ZipPaintSibling(p, up, t, top, m, true);
    var p1, m1 := p.(sib := Paint(s, true)), m[s.elem := m[s.elem].(color := Red)];
    ZipPaintNephew(p1, up, t, p.side, top, m1, false);
    var s2, m2 := WithKidTree(p.side, p1.sib, Paint(u, false)), m1[u.elem := m1[u.elem].(color := Black)];
    var above := Under(Swing(p, t), up);
    ZipSwing(p.(sib := s2), up, t, top, m2);
    RotationShape(above, s2, Other(p.side), top, m2);
    assert Rotated(s2, Other(p.side)) == FarNephew(p.side, s);
    ZipSwing(p.(sib := FarNephew(p.side, s)), up, t, top, Rotation(m2, s.elem, Other(p.side)));
  }

  /** The colours of case 6. */
  function Case6Colors(m: Mem, s: RbNode, parent: RbNode, u: RbNode, c: Color): (m': Mem)
    requires s in m && parent in m && u in m
    ensures m'.Keys == m.Keys
  {
    var m1 := m[s := m[s].(color := c)];
    var m2 := m1[parent := m1[parent].(color := Black)];
    m2[u := m2[u].(color := Black)]
  }

  lemma Case6Shape(p: Frame, up: Ctx, t: Tree, top: RbNode, m: Mem)
    requires Zip(Under(p, up), t, top, m) && p.sib.Node? && Far(p.side, p.sib).Node? && t.Node?
    ensures var s, u := p.sib, Far(p.side, p.sib);
      p.elem in m && s.elem in m && u.elem in m &&
      var m3 := Case6Colors(m, s.elem, p.elem, u.elem, ColorOf(p.red));
      && Rotatable(m3, p.elem, p.side)
      && Zip(RaiseSibling(p, up), t, top, Rotation(m3, p.elem, p.side))
  {
    var s, u := p.sib, Far(p.side, p.sib);
    ZipPaintSibling(p, up, t, top, m, p.red);
    var p1, m1 := p.(sib := Paint(s, p.red)), m[s.elem := m[s.elem].(color := ColorOf(p.red))];
    ZipPaintParent(p1, up, t, top, m1, false);
    var p2, m2 := p1.(red := false), m1[p.elem := m1[p.elem].(color := Black)];
    ZipPaintNephew(p2, up, t, Other(p.side), top, m2, false);
    var m3 := m2[u.elem := m2[u.elem].(color := Black)];
    var p3 := p2.(sib := WithKidTree(Other(p.side), p2.sib, Paint(u, false)));
    ZipUp(p3, up, t, top, m3);
    RotationShape(up, Fill(p3, t), p.side, top, m3);
    var c, m4 := RaiseSibling(p, up), Rotation(m3, p.elem, p.side);
    ZipUp(c.up.f, c.up.up, Fill(c.f, t), top, m4);
    ZipUp(c.f, c.up, t, top, m4);
  }

  /** What the loop can see from `n`: its parent, its sibling and its nephews. */
  lemma Siblings(p: Frame, up: Ctx, t: Tree, top: RbNode, m: Mem)
    requires Zip(Under(p, up), t, top, m) && t.Node?
    ensures t.elem in m && p.elem in m && m[t.elem].parent == p.elem && m[p.elem].color == ColorOf(p.red)
    ensures (m[p.elem].left == t.elem <==> p.side.L?) && (m[p.elem].right == t.elem <==> p.side.R?)
    ensures KidOf(Other(p.side), m[p.elem]) == Root(p.sib)
    ensures p.sib.Node? ==> var s := p.sib;
      && s.elem in m && m[s.elem] == Rec(Root(s.left), Root(s.right), p.elem, ColorOf(s.red))
      && (s.left.Node? ==> s.left.elem in m && m[s.left.elem].color == ColorOf(s.left.red))
      && (s.right.Node? ==> s.right.elem in m && m[s.right.elem].color == ColorOf(s.right.red))
  {
    AtHole(Under(p, up), t, top, m);
    Around(p, up, t, top, m);
    assert Shape(p.sib, p.elem, m);
    assert p.sib.Node? ==> Shape(p.sib.left, p.sib.elem, m) && Shape(p.sib.right, p.sib.elem, m);
  }

  /** rb_sibling: the root of the tree beside `n`, on either side of the parent */
  method RbSibling(n: RbNode, ghost p: Frame, ghost up: Ctx, ghost t: Tree, ghost top: RbNode, ghost S: set<RbNode>)
    returns (s: RbNode?)
    requires Zip(Under(p, up), t, top, Snap(S)) && t.Node? && t.elem == n
    ensures s == Root(p.sib)
  {
    Siblings(p, up, t, top, Snap(S));
    s := if n == n.parent.left then n.parent.right else n.parent.left;
  }

  /** The parent of `n` moves down on the side of `n`. */
  method RotateParent(n: RbNode, ghost parent: RbNode, ghost side: Side, ghost S: set<RbNode>)
    requires n in S && parent == n.parent && Rotatable(Snap(S), parent, side) && (side.L? <==> n == parent.left)
    modifies S
    ensures Snap(S) == Rotation(old(Snap(S)), parent, side)
  {
    if n == n.parent.left {
      RotateLeft(n.parent, S);
    } else {
      RotateRight(n.parent, S);
    }
  }

  method RemoveCase2(n: RbNode, sibling: RbNode, ghost p: Frame, ghost up: Ctx, ghost t: Tree,
                     ghost top: RbNode, ghost S: set<RbNode>)
    requires Zip(Under(p, up), t, top, Snap(S)) && t.Node? && t.elem == n && Root(p.sib) == sibling
    modifies S
    ensures Zip(RedSibling(p, up), t, top, Snap(S))
  {
    Siblings(p, up, t, top, Snap(S));
    Case2Shape(p, up, t, top, Snap(S));
    SetColor(n.parent, Red, S);
    SetColor(sibling, Black, S);
    RotateParent(n, p.elem, p.side, S);
  }

  method RemoveCase5(n: RbNode, sibling: RbNode, ghost p: Frame, ghost up: Ctx, ghost t: Tree,
                     ghost top: RbNode, ghost S: set<RbNode>)
    requires Zip(Under(p, up), t, top, Snap(S)) && t.Node? && t.elem == n && Root(p.sib) == sibling
    modifies S
    ensures Zip(Under(p.(sib := FarNephew(p.side, p.sib)), up), t, top, Snap(S))
  {
    Siblings(p, up, t, top, Snap(S));
    if n == n.parent.left && sibling.color == Black
       && sibling.left != null && sibling.left.color == Red
       && (sibling.right == null || sibling.right.color == Black) {
      Case5Shape(p, up, t, top, Snap(S));
      SetColor(sibling, Red, S);
      SetColor(sibling.left, Black, S);
      RotateRight(sibling, S);
    } else if n == n.parent.right && sibling.color == Black
              && sibling.right != null && sibling.right.color == Red
              && (sibling.left == null || sibling.left.color == Black) {
      Case5Shape(p, up, t, top, Snap(S));
      SetColor(sibling, Red, S);
      SetColor(sibling.right, Black, S);
      RotateLeft(sibling, S);
    }
  }

  method RecolorCase6(n: RbNode, sibling: RbNode, ghost parent: RbNode, ghost u: RbNode, ghost S: set<RbNode>)
    requires n in S && sibling in S && parent in S && u in S && n.parent == parent && sibling != parent
    requires if n == parent.left then sibling.right == u else sibling.left == u
    modifies S
    ensures Snap(S) == Case6Colors(old(Snap(S)), sibling, parent, u, old(parent.color))
  {
    SetColor(sibling, n.parent.color, S);
    SetColor(n.parent, Black, S);
    if n == n.parent.left {
      SetColor(sibling.right, Black, S);
    } else {
      SetColor(sibling.left, Black, S);
    }
  }

  method RemoveCase6(n: RbNode, ghost p: Frame, ghost up: Ctx, ghost t: Tree, ghost top: RbNode, ghost S: set<RbNode>)
    requires Zip(Under(p, up), t, top, Snap(S)) && t.Node? && t.elem == n
    requires p.sib.Node? && Far(p.side, p.sib).Node?
    modifies S
    ensures Zip(RaiseSibling(p, up), t, top, Snap(S))
  {
    Siblings(p, up, t, top, Snap(S));
    Case6Shape(p, up, t, top, Snap(S));
    var sibling := RbSibling(n, p, up, t, top, S);
    RecolorCase6(n, sibling, p.elem, Far(p.side, p.sib).elem, S);
    RotateParent(n, p.elem, p.side, S);
  }

  /** The sibling and both nephews are black. */
  method BlackSibling(n: RbNode, sibling: RbNode, ghost p: Frame, ghost up: Ctx, ghost t: Tree,
                      ghost top: RbNode, ghost S: set<RbNode>) returns (b: bool)
    requires Zip(Under(p, up), t, top, Snap(S)) && t.Node? && t.elem == n && Root(p.sib) == sibling
    ensures b <==> !p.sib.red && BlackNephews(p)
  {
    Siblings(p, up, t, top, Snap(S));
    b := sibling.color == Black
      && (sibling.left == null || sibling.left.color == Black)
      && (sibling.right == null || sibling.right.color == Black);
  }

  method RemoveCase4(n: RbNode, sibling: RbNode, ghost p: Frame, ghost up: Ctx, ghost t: Tree,
                     ghost top: RbNode, ghost S: set<RbNode>)
    requires Zip(Under(p, up), t, top, Snap(S)) && t.Node? && t.elem == n && Root(p.sib) == sibling
    modifies S
    ensures Zip(Under(p.(red := false, sib := Paint(p.sib, true)), up), t, top, Snap(S))
  {
    Siblings(p, up, t, top, Snap(S));
    ZipPaintSibling(p, up, t, top, Snap(S), true);
    SetColor(sibling, Red, S);
    ghost var q := p.(sib := Paint(p.sib, true));
    Siblings(q, up, t, top, Snap(S));
    ZipPaintParent(q, up, t, top, Snap(S), false);
    SetColor(n.parent, Black, S);
  }

  /** Cases 4 to 6. */
  method RemoveCases456(n: RbNode, sibling: RbNode, ghost p: Frame, ghost up: Ctx, ghost t: Tree,
                        ghost top: RbNode, ghost S: set<RbNode>)
    requires Zip(Under(p, up), t, top, Snap(S)) && t.Node? && t.elem == n && Root(p.sib) == sibling
    requires p.sib.Node? && TailSafe(p)
    modifies S
    ensures Zip(RemoveTail(p, up), t, top, Snap(S))
  {
    Siblings(p, up, t, top, Snap(S));
    var black := BlackSibling(n, sibling, p, up, t, top, S);
    if n.parent.color == Red && black {
      RemoveCase4(n, sibling, p, up, t, top, S);
    } else {
      RemoveCase5(n, sibling, p, up, t, top, S);
      RemoveCase6(n, p.(sib := FarNephew(p.side, p.sib)), up, t, top, S);
    }
  }

  /** Everything between the hole and the root, seen as one context again. */
  lemma Rejoin(done: Ctx, outer: Ctx, v: Tree, top: RbNode, m: Mem)
    requires Zip(outer, Plug(done, v), top, m)
    ensures Zip(Append(done, outer), v, top, m)
  {
    ZipPlug(outer, Plug(done, v), top, m);
    PlugAppend(done, outer, v);
    ZipPlug(Append(done, outer), v, top, m);
  }

  /** Case 2 if the sibling is red. */
  method RemoveMaybeCase2(n: RbNode, ghost p: Frame, ghost up: Ctx, ghost t: Tree, ghost top: RbNode,
        ghost S: set<RbNode>)
    requires Zip(Under(p, up), t, top, Snap(S)) && t.Node? && t.elem == n
    modifies S
    ensures IsRed(p.sib) ==> Zip(RedSibling(p, up), t, top, Snap(S))
    ensures !IsRed(p.sib) ==> Zip(Under(p, up), t, top, Snap(S))
  {
    Siblings(p, up, t, top, Snap(S));
    var sibling := RbSibling(n, p, up, t, top, S);
    if sibling != null && sibling.color == Red {
      RemoveCase2(n, sibling, p, up, t, top, S);
    }
  }

  /** Case 3, or cases 4 to 6, or no sibling: what follows case 2. */
  method RemoveCases3456(n: RbNode, ghost p: Frame, ghost up: Ctx, ghost t: Tree, ghost top: RbNode,
        ghost S: set<RbNode>)
    returns (climb: bool)
    requires Zip(Under(p, up), t, top, Snap(S)) && t.Node? && t.elem == n
    requires !AllBlackFrame(p) ==> TailSafe(p)
    modifies S
    ensures climb <==> AllBlackFrame(p)
    ensures climb ==> Zip(Under(p.(sib := Paint(p.sib, true)), up), t, top, Snap(S))
    ensures !climb ==> Zip(RemoveTail(p, up), t, top, Snap(S))
  {
    Siblings(p, up, t, top, Snap(S));
    var sibling := RbSibling(n, p, up, t, top, S);
    if sibling == null {
      return false;
    }
    var black := BlackSibling(n, sibling, p, up, t, top, S);
    climb := n.parent.color == Black && black;
    if climb {
      ZipPaintSibling(p, up, t, top, Snap(S), true);
      SetColor(sibling, Red, S);
    } else {
      RemoveCases456(n, sibling, p, up, t, top, S);
    }
  }

  /** One turn of the loop, up to the decision to climb. */
  method RemoveStep(n: RbNode, ghost p: Frame, ghost up: Ctx, ghost t: Tree, ghost top: RbNode, ghost S: set<RbNode>)
    returns (climb: bool)
    requires Zip(Under(p, up), t, top, Snap(S)) && t.Node? && t.elem == n && FixSafe(Under(p, up))
    modifies S
    ensures climb <==> AllBlackFrame(p)
    ensures climb ==> Zip(Under(p.(sib := Paint(p.sib, true)), up), t, top, Snap(S))
    ensures !climb ==> Zip(RemoveFix(Under(p, up)), t, top, Snap(S))
  {
    RemoveMaybeCase2(n, p, up, t, top, S);
    ghost var c := if IsRed(p.sib) then RedSibling(p, up) else Under(p, up);
    climb := RemoveCases3456(n, c.f, c.up, t, top, S);
  }

  /** What the loop keeps: above `r` the rest of the context, below it what has been climbed. */
  predicate Climbing(ctx: Ctx, done: Ctx, outer: Ctx, v: Tree, r: RbNode, top: RbNode, m: Mem) {
    && Zip(outer, Plug(done, v), top, m) && Plug(done, v).Node? && Plug(done, v).elem == r
    && FixSafe(outer) && (Climbs(outer) <==> Climbs(ctx))
    && Append(done, RemoveFix(outer)) == RemoveFix(ctx)
  }

  lemma {:induction false} RootOfPlug(ctx: Ctx, t: Tree)
    requires t.Node?
    ensures Plug(ctx, t).Node? && (Plug(ctx, t).elem == t.elem || Plug(ctx, t).elem in CtxNodes(ctx))
  {
    if ctx.Under? { RootOfPlug(ctx.up, Fill(ctx.f, t)); }
  }

  lemma ClimbOne(ctx: Ctx, done: Ctx, outer: Ctx, v: Tree, r: RbNode, top: RbNode, m: Mem, m': Mem)
    requires Climbing(ctx, done, outer, v, r, top, m) && outer.Under? && AllBlackFrame(outer.f)
    requires Zip(Under(outer.f.(sib := Paint(outer.f.sib, true)), outer.up), Plug(done, v), top, m')
    ensures r in m' && m'[r].parent == outer.f.elem
    ensures var q := outer.f.(sib := Paint(outer.f.sib, true));
      Climbing(ctx, Append(done, Under(q, Top)), outer.up, v, outer.f.elem, top, m')
  {
    var q := outer.f.(sib := Paint(outer.f.sib, true));
    Siblings(q, outer.up, Plug(done, v), top, m');
    ZipUp(q, outer.up, Plug(done, v), top, m');
    PlugAppend(done, Under(q, Top), v);
    AppendAssoc(done, Under(q, Top), RemoveFix(outer.up));
  }

  lemma Climbed(ctx: Ctx, done: Ctx, outer: Ctx, v: Tree, r: RbNode, top: RbNode, m: Mem, m': Mem)
    requires Climbing(ctx, done, outer, v, r, top, m) && v.Node?
    requires Zip(RemoveFix(outer), Plug(done, v), top, m')
    ensures Zip(RemoveFix(ctx), v, top, m') && (r == v.elem || r in CtxNodes(RemoveFix(ctx)))
    ensures r in m' && m'[r].parent != null && m'[r].parent in m'
    ensures m'[m'[r].parent].color == RootMark <==> outer.Top?
  {
    AtHole(RemoveFix(outer), Plug(done, v), top, m');
    Rejoin(done, RemoveFix(outer), v, top, m');
    RootOfPlug(done, v);
    AppendApart(done, RemoveFix(outer));
  }

  /** The loop of navi_rb_remove; `r` is where it stops. */
  method RemoveFixup(victim: RbNode, ghost ctx: Ctx, ghost v: Tree, ghost top: RbNode, ghost S: set<RbNode>)
    returns (r: RbNode)
    requires Zip(ctx, v, top, Snap(S)) && v.Node? && v.elem == victim && FixSafe(ctx)
    modifies S
    ensures Zip(RemoveFix(ctx), v, top, Snap(S))
    ensures r in S && r.parent != null && r.parent in S && (r.parent.color == RootMark <==> Climbs(ctx))
    ensures r == victim || r in CtxNodes(RemoveFix(ctx))
  {
    r := victim;
    ghost var done, outer := Top, ctx;
    while true
      invariant Climbing(ctx, done, outer, v, r, top, Snap(S))
      decreases outer
    {
      ghost var t, m := Plug(done, v), Snap(S);
      AtHole(outer, t, top, m);
      // case 1:
      if r.parent.color == RootMark {
        Climbed(ctx, done, outer, v, r, top, m, m);
        return;
      }
      var climb := RemoveStep(r, outer.f, outer.up, t, top, S);
      if !climb {
        Climbed(ctx, done, outer, v, r, top, m, Snap(S));
        return;
      }
      ClimbOne(ctx, done, outer, v, r, top, m, Snap(S));
      done := Append(done, Under(outer.f.(sib := Paint(outer.f.sib, true)), Top));
      outer := outer.up;
      r := r.parent;
    }
  }

  // ----- navi_rb_remove -----

  /** Trades `n` with its predecessor if it has two children. */
  method MoveDown(n: RbNode, ghost ctx: Ctx, ghost t: Tree, ghost top: RbNode, ghost S: set<RbNode>)
    requires Zip(ctx, t, top, Snap(S)) && t.Node? && t.elem == n
    modifies S
    ensures Zip(Victim(ctx, t).0, Victim(ctx, t).1, top, Snap(S))
  {
    AtHole(ctx, t, top, Snap(S));
    if n.left != null && n.right != null {
      ghost var w, f := Plug(ctx, t), Frame(L, t.red, n, t.right);
      SwapVictim(ctx, t, top, Snap(S));
      ZipPlug(ctx, t, top, Snap(S));
      PlugNodes(ctx, t);
      ZipUp(f, ctx, t.left, top, Snap(S));
      LastAppend(Top, Under(f, ctx), t.left);
      var last := RbLast(n.left, Under(f, ctx), t.left, top, S);
      assert t.right.elem in Nodes(t.right);
      Swap(n, last, w, top, S);
      ZipPlug(Victim(ctx, t).0, Victim(ctx, t).1, top, Snap(S));
    }
  }

  /** `replace(saved_n, child)` */
  lemma UnlinkShape(ctx: Ctx, v: Tree, top: RbNode, m: Mem)
    requires Zip(ctx, v, top, m) && v.Node? && (v.left.Leaf? || v.right.Leaf?)
    ensures var child := OnlyChild(v); var n := v.elem;
      && n in m && m[n].parent != null && m[n].parent in m && (child.Node? ==> child.elem in m)
      && Zip(ctx, child, top, Replaced(m, n, Root(child)))
  {
    var child, n := OnlyChild(v), v.elem;
    AtHole(ctx, v, top, m);
    assert Shape(child, n, m);
    var m' := Replaced(m, n, Root(child));
    assert child.Node? ==> child.elem in Nodes(v);
    Reparent(child, n, Parent(ctx, top), m, m');
    RefillShape(ctx, top, n, Root(child), m, m');
  }

  lemma UnlinkKeeps(ctx: Ctx, v: Tree, top: RbNode, m: Mem, r: RbNode)
    requires Zip(ctx, v, top, m) && v.Node? && (v.left.Leaf? || v.right.Leaf?)
    requires r in m && (r == v.elem || r in CtxNodes(ctx)) && m[r].parent != null && m[r].parent in m
    requires v.elem in m && m[v.elem].parent != null && m[v.elem].parent in m
    requires OnlyChild(v).Node? ==> OnlyChild(v).elem in m
    ensures var m' := Replaced(m, v.elem, Root(OnlyChild(v)));
      m'[r].parent == m[r].parent && m'[m[r].parent].color == m[m[r].parent].color
  {
    assert OnlyChild(v).Node? ==> OnlyChild(v).elem in Nodes(OnlyChild(v));
  }

  /** The part of navi_rb_remove before the victim is replaced by its child. */
  method RemoveRebalance(victim: RbNode, child: RbNode?, ghost ctx: Ctx, ghost v: Tree, ghost top: RbNode,
        ghost S: set<RbNode>)
    returns (r: RbNode)
    requires Zip(ctx, v, top, Snap(S)) && v.Node? && v.elem == victim && child == Root(OnlyChild(v))
      && (v.red || FixSafe(ctx))
    modifies S
    ensures v.red ==> Zip(ctx, v, top, Snap(S)) && r == victim
    ensures !v.red ==> Zip(RemoveFix(ctx), Paint(v, IsRed(OnlyChild(v))), top, Snap(S))
    ensures r == victim || r in CtxNodes(if v.red then ctx else RemoveFix(ctx))
    ensures r in S && r.parent != null && r.parent in S
    ensures r.parent.color == RootMark <==> ctx.Top? || (!v.red && Climbs(ctx))
  {
    AtHole(ctx, v, top, Snap(S));
    r := victim;
    if victim.color == Black {
      assert Shape(OnlyChild(v), victim, Snap(S));
      ZipPaint(ctx, v, top, Snap(S), IsRed(OnlyChild(v)));
      SetColor(victim, if child == null then Black else child.color, S);
      r := RemoveFixup(victim, ctx, Paint(v, IsRed(OnlyChild(v))), top, S);
    }
  }

  lemma {:induction false} RemoveFixTop(ctx: Ctx)
    ensures RemoveFix(ctx).Top? <==> ctx.Top?
  {
  }

  /** Recolours, rebalances and unlinks the victim; `r` is the `n` that the last test of the C code looks at. */
  method Detach(victim: RbNode, ghost ctx: Ctx, ghost v: Tree, ghost top: RbNode, ghost S: set<RbNode>)
    returns (r: RbNode, child: RbNode?)
    requires Zip(ctx, v, top, Snap(S)) && v.Node? && v.elem == victim && (v.left.Leaf? || v.right.Leaf?)
    requires v.red || FixSafe(ctx)
    modifies S
    ensures child == Root(OnlyChild(v)) && Zip(if v.red then ctx else RemoveFix(ctx), OnlyChild(v), top, Snap(S))
    ensures r.parent != null && victim.parent != null
    ensures victim.parent.color == RootMark <==> ctx.Top?
    ensures r.parent.color == RootMark <==> ctx.Top? || (!v.red && Climbs(ctx))
  {
    AtHole(ctx, v, top, Snap(S));
    child := if victim.right != null then victim.right else victim.left;
    r := RemoveRebalance(victim, child, ctx, v, top, S);
    ghost var c := if v.red then ctx else RemoveFix(ctx);
    ghost var u := if v.red then v else Paint(v, IsRed(OnlyChild(v)));
    ghost var m := Snap(S);
    RemoveFixTop(ctx);
    AtHole(c, u, top, m);
    UnlinkShape(c, u, top, m);
    UnlinkKeeps(c, u, top, m, r);
    UnlinkKeeps(c, u, top, m, victim);
    Replace(victim, child, S);
    assert Snap(S)[r].parent == r.parent && Snap(S)[r.parent].color == r.parent.color;
    assert Snap(S)[victim].parent == victim.parent && Snap(S)[victim.parent].color == victim.parent.color;
  }

  /**
   * navi_rb_remove as written: the last test looks at `n` after it may have climbed. Links and order are right on
   * every tree on which it follows no null pointer, and a red-black tree is one unless the defect strikes.
   */
  method Remove(n: RbNode, ghost w: Tree, ghost top: RbNode, ghost S: set<RbNode>)
    requires Zip(Top, w, top, Snap(S)) && n in Nodes(w) && RemoveSafe(w, n)
    modifies S
    ensures var w' := RemoveTree(w, n, true);
      && Zip(Top, w', top, Snap(S)) && InOrder(w') == Without(InOrder(w), n)
      && (RedBlack(w) ==> !IsRed(w') && NoRedRed(w') && (Balanced(w') <==> !DefectAt(w, n)))
  {
    ghost var (ctx, t) := Path(Top, w, n);
    ghost var (c, v) := Victim(ctx, t);
    RemoveSetting(n, w, top, Snap(S));
    MoveDown(n, ctx, t, top, S);
    var r, child := Detach(n, c, v, top, S);
    ghost var c' := if v.red then c else RemoveFix(c);
    if r.parent.color == RootMark && child != null {
      ZipPaint(c', OnlyChild(v), top, Snap(S), false);
      SetColor(child, Black, S);
      ZipPlug(c', Paint(OnlyChild(v), false), top, Snap(S));
    } else {
      ZipPlug(c', OnlyChild(v), top, Snap(S));
    }
  }

  /** navi_rb_remove with the last test on `saved_n`: every red-black condition is kept. */
  method RemoveCorrected(n: RbNode, ghost w: Tree, ghost top: RbNode, ghost S: set<RbNode>)
    requires Zip(Top, w, top, Snap(S)) && RedBlack(w) && n in Nodes(w)
    modifies S
    ensures var w' := RemoveTree(w, n, false);
      Zip(Top, w', top, Snap(S)) && InOrder(w') == Without(InOrder(w), n) && RedBlack(w')
  {
    ghost var (ctx, t) := Path(Top, w, n);
    ghost var (c, v) := Victim(ctx, t);
    NoRedRedRemoves(w, n);
    RemoveSetting(n, w, top, Snap(S));
    MoveDown(n, ctx, t, top, S);
    var r, child := Detach(n, c, v, top, S);
    ghost var c' := if v.red then c else RemoveFix(c);
    if n.parent.color == RootMark && child != null {
      ZipPaint(c', OnlyChild(v), top, Snap(S), false);
      SetColor(child, Black, S);
      ZipPlug(c', Paint(OnlyChild(v), false), top, Snap(S));
    } else {
      ZipPlug(c', OnlyChild(v), top, Snap(S));
    }
  }

  lemma RemoveSetting(n: RbNode, w: Tree, top: RbNode, m: Mem)
    requires Zip(Top, w, top, m) && n in Nodes(w)
    ensures Zip(Path(Top, w, n).0, Path(Top, w, n).1, top, m)
    ensures forall b: bool :: var w' := RemoveTree(w, n, b);
      && InOrder(w') == Without(InOrder(w), n)
      && (RedBlack(w) ==> !IsRed(w') && NoRedRed(w') && (Balanced(w') <==> !(b && DefectAt(w, n))))
  {
    var (ctx, t) := Path(Top, w, n);
    PathPlug(Top, w, n);
    ZipPlug(ctx, t, top, m);
    ApartNoDuplicates(w);
    RemoveInOrder(w, n, true);
    RemoveInOrder(w, n, false);
    if RedBlack(w) {
      RemoveTreeOk(w, n, true);
      RemoveTreeOk(w, n, false);
    }
  }

  lemma {:induction false} ApartNoDuplicates(t: Tree)
    requires Apart(t)
    ensures NoDuplicates(InOrder(t))
  {
    if t.Node? {
      ApartNoDuplicates(t.left);
      ApartNoDuplicates(t.right);
      var a, b, s := InOrder(t.left), InOrder(t.right), InOrder(t);
      InOrderNodes(t.left);
      InOrderNodes(t.right);
      forall i, j | 0 <= i < j < |s| ensures s[i] != s[j] {
        assert i < |a| ==> s[i] == a[i] && s[i] in Nodes(t.left);
        assert j < |a| ==> s[j] == a[j];
        assert i > |a| ==> s[i] == b[i - |a| - 1];
        assert j > |a| ==> s[j] == b[j - |a| - 1] && s[j] in Nodes(t.right);
      }
    }
  }
}
