/** slab.c: caches of slabs, each a page of equal slots with a singly linked free list. */
module SlabAllocator {
  import opened RbTheory
  import opened RbTree
  import opened SlabTrees
  import opened Sequences

  /** offsetof(struct slab, mem): an rb_node of 32 bytes, the free-list head and in_use. */
  const SLAB_DESC_SIZE: nat := 48
  const SLAB_MEM_SIZE: nat := 4048

  /** get_object */
  function Slot(base: nat, size: nat, i: nat): nat { base + SLAB_DESC_SIZE + size * i }

  /** The first `k` slots of the slab at `base`. */
  function Slots(base: nat, size: nat, k: nat): set<nat> {
    if k == 0 then {} else Slots(base, size, k - 1) + {Slot(base, size, k - 1)}
  }

  /** The slots of a slab are the addresses of its objects. */
  lemma {:induction false} SlotsAre(base: nat, size: nat, k: nat)
    ensures forall a :: a in Slots(base, size, k) <==> exists i: nat :: i < k && a == Slot(base, size, i)
  {
    if k > 0 { SlotsAre(base, size, k - 1); }
  }

  lemma {:induction false} SlotsBound(base: nat, size: nat, k: nat)
    ensures forall a :: a in Slots(base, size, k) ==>
      base + SLAB_DESC_SIZE <= a && a + size <= base + SLAB_DESC_SIZE + size * k
  {
    if k > 0 {
      SlotsBound(base, size, k - 1);
      assert size * k == size * (k - 1) + size;
    }
  }

  lemma {:induction false} SlotsCount(base: nat, size: nat, k: nat)
    requires size > 0
    ensures |Slots(base, size, k)| == k
  {
    if k > 0 {
      SlotsCount(base, size, k - 1);
      SlotIsNew(base, size, k - 1);
    }
  }

  lemma Positive(a: nat, b: nat)
    requires a > 0 && b > 0
    ensures a * b >= a
  {
  }

  function Elements(s: seq<nat>): set<nat> { set a | a in s }

  lemma {:induction false} DistinctCount(s: seq<nat>)
    requires NoDuplicates(s)
    ensures |Elements(s)| == |s|
  {
    if s != [] {
      DistinctCount(s[1..]);
      assert Elements(s) == Elements(s[1..]) + {s[0]};
    }
  }

  /** A free list together with the slots in use fills the slab. */
  lemma InUseCount(free: seq<nat>, slots: set<nat>, a: nat)
    requires NoDuplicates(free) && Elements(free) <= slots && a in slots && a !in free
    ensures |free| < |slots|
  {
    DistinctCount(free);
    SubsetSize(Elements(free), slots - {a});
  }

  lemma {:induction false} SubsetSize(a: set<nat>, b: set<nat>)
    requires a <= b
    ensures |a| <= |b|
    decreases a
  {
    if x :| x in a { SubsetSize(a - {x}, b - {x}); }
  }

  // ----- the state of a cache, as values -----

  datatype SlabData = SlabData(free: seq<nat>, inUse: nat)

  type Slabs = map<RbNode, SlabData>

  ghost predicate SlabOk(n: RbNode, d: SlabData, size: nat, cap: nat) {
    NoDuplicates(d.free) && Elements(d.free) <= Slots(n.addr, size, cap) && |d.free| + d.inUse == cap
  }

  predicate InUse(n: RbNode, d: SlabData, size: nat, cap: nat, a: nat) {
    a in Slots(n.addr, size, cap) && a !in d.free
  }

  /** Free lists are sound, and exactly the slots that are on none are live. */
  ghost predicate SlabsOk(data: Slabs, live: set<nat>, size: nat, cap: nat) {
    && Spaced(data.Keys)
    && (forall n :: n in data ==> SlabOk(n, data[n], size, cap))
    && (forall n, a :: n in data && InUse(n, data[n], size, cap, a) ==> a in live)
    && (forall a :: a in live ==> exists n :: n in data && InUse(n, data[n], size, cap, a))
  }

  /** Which tree a slab is in is decided by its in_use. */
  ghost predicate SortedByUse(full: set<RbNode>, partial: set<RbNode>, empty: set<RbNode>, data: Slabs, cap: nat) {
    && data.Keys == full + partial + empty && full !! partial && full !! empty && partial !! empty
    && (forall n :: n in full ==> data[n].inUse == cap)
    && (forall n :: n in partial ==> 0 < data[n].inUse < cap)
    && (forall n :: n in empty ==> data[n].inUse == 0)
  }

  /** The same, but for the slab `x` that is being moved. */
  ghost predicate SortedExcept(full: set<RbNode>, partial: set<RbNode>, empty: set<RbNode>, data: Slabs, cap: nat,
        x: RbNode)
  {
    && data.Keys == full + partial + empty && full !! partial && full !! empty && partial !! empty
    && (forall n :: n in full && n != x ==> data[n].inUse == cap)
    && (forall n :: n in partial && n != x ==> 0 < data[n].inUse < cap)
    && (forall n :: n in empty && n != x ==> data[n].inUse == 0)
  }

  predicate GoodSizes(size: nat, cap: nat) { size >= 16 && size * cap <= SLAB_MEM_SIZE }

  /** The whole state of a cache: the members of its three trees, the slabs and the slots handed out. */
  ghost predicate CacheOk(full: set<RbNode>, partial: set<RbNode>, empty: set<RbNode>,
                          data: Slabs, live: set<nat>, size: nat, cap: nat) {
    GoodSizes(size, cap) && SlabsOk(data, live, size, cap) && SortedByUse(full, partial, empty, data, cap)
  }

  /** The same while the slab `x` is on its way between trees. */
  ghost predicate CacheBut(full: set<RbNode>, partial: set<RbNode>, empty: set<RbNode>,
                           data: Slabs, live: set<nat>, size: nat, cap: nat, x: RbNode) {
    && GoodSizes(size, cap) && SlabsOk(data, live, size, cap)
    && SortedExcept(full, partial, empty, data, cap, x) && x in data
  }

  lemma SlotsInside(n: RbNode, size: nat, cap: nat)
    requires GoodSizes(size, cap)
    ensures forall a :: a in Slots(n.addr, size, cap) ==> Covers(n, a) && a + size <= n.addr + SLAB_SIZE
  {
    SlotsBound(n.addr, size, cap);
  }

  /** Slots of different slabs are different. */
  lemma OneSlab(data: Slabs, live: set<nat>, size: nat, cap: nat, n: RbNode, n': RbNode, a: nat)
    requires SlabsOk(data, live, size, cap) && GoodSizes(size, cap) && n in data && n' in data
    requires a in Slots(n.addr, size, cap) && Covers(n', a)
    ensures n == n'
  {
    SlotsInside(n, size, cap);
  }

  lemma FreeListSteps(free: seq<nat>, a: nat)
    requires NoDuplicates(free)
    ensures free != [] ==> NoDuplicates(free[1..]) && free[0] !in free[1..] && Elements(free[1..]) <= Elements(free)
    ensures a !in free ==> NoDuplicates([a] + free) && Elements([a] + free) == Elements(free) + {a}
  {
  }

  /** Taking the head of a free list. */
  lemma PopOk(data: Slabs, live: set<nat>, size: nat, cap: nat, n: RbNode)
    requires SlabsOk(data, live, size, cap) && GoodSizes(size, cap) && n in data && data[n].free != []
    ensures var d := data[n]; var obj := d.free[0];
      && obj !in live && obj in Slots(n.addr, size, cap)
      && SlabsOk(data[n := SlabData(d.free[1..], d.inUse + 1)], live + {obj}, size, cap)
  {
    hide Slots;
    hide NoDuplicates;
    hide GoodSizes;
    var d := data[n];
    var obj := d.free[0];
    var data' := data[n := SlabData(d.free[1..], d.inUse + 1)];
    FreeListSteps(d.free, d.free[0]);
    assert obj in Elements(d.free);
    SlotsInside(n, size, cap);
    assert obj !in live by {
      if obj in live {
        var n': RbNode :| n' in data && InUse(n', data[n'], size, cap, obj);
        OneSlab(data, live, size, cap, n', n, obj);
      }
    }
    assert SlabOk(n, data'[n], size, cap);
    forall x, a | x in data' && InUse(x, data'[x], size, cap, a) ensures a in live + {obj} {
      if a != obj { assert InUse(x, data[x], size, cap, a); }
    }
    forall a | a in live + {obj} ensures exists x :: x in data' && InUse(x, data'[x], size, cap, a) {
      if a == obj {
        assert InUse(n, data'[n], size, cap, obj);
      } else {
        var x: RbNode :| x in data && InUse(x, data[x], size, cap, a);
        assert InUse(x, data'[x], size, cap, a);
      }
    }
  }

  /** Putting a live slot back on the free list of its slab. */
  lemma PushOk(data: Slabs, live: set<nat>, size: nat, cap: nat, n: RbNode, obj: nat)
    requires SlabsOk(data, live, size, cap) && GoodSizes(size, cap) && n in data && InUse(n, data[n], size, cap, obj)
    ensures data[n].inUse > 0
    ensures SlabsOk(data[n := SlabData([obj] + data[n].free, data[n].inUse - 1)], live - {obj}, size, cap)
  {
    hide Slots;
    hide NoDuplicates;
    var d := data[n];
    SlotsCount(n.addr, size, cap);
    InUseCount(d.free, Slots(n.addr, size, cap), obj);
    var data' := data[n := SlabData([obj] + d.free, d.inUse - 1)];
    SlotsInside(n, size, cap);
    FreeListSteps(d.free, obj);
    assert SlabOk(n, data'[n], size, cap);
    forall x, a | x in data' && InUse(x, data'[x], size, cap, a) ensures a in live - {obj} {
      assert InUse(x, data[x], size, cap, a);
      if a == obj { OneSlab(data, live, size, cap, x, n, obj); }
    }
    forall a | a in live - {obj} ensures exists x :: x in data' && InUse(x, data'[x], size, cap, a) {
      var x: RbNode :| x in data && InUse(x, data[x], size, cap, a);
      assert InUse(x, data'[x], size, cap, a);
    }
  }

  /** A new slab, all of whose slots are free. */
  lemma NewSlabOk(data: Slabs, live: set<nat>, size: nat, cap: nat, n: RbNode, free: seq<nat>)
    requires SlabsOk(data, live, size, cap) && GoodSizes(size, cap) && n !in data && Spaced(data.Keys + {n})
    requires SlabOk(n, SlabData(free, 0), size, cap) && Elements(free) == Slots(n.addr, size, cap)
    ensures SlabsOk(data[n := SlabData(free, 0)], live, size, cap)
  {
    var data' := data[n := SlabData(free, 0)];
    assert data'.Keys == data.Keys + {n};
    assert forall a :: a in Slots(n.addr, size, cap) ==> a in Elements(free);
    forall x, a | x in data' && InUse(x, data'[x], size, cap, a) ensures a in live {
      assert x != n && InUse(x, data[x], size, cap, a);
    }
    forall a | a in live ensures exists x :: x in data' && InUse(x, data'[x], size, cap, a) {
      var x: RbNode :| x in data && InUse(x, data[x], size, cap, a);
      assert InUse(x, data'[x], size, cap, a);
    }
  }

  /** Live slots are inside their slab and do not overlap. */
  lemma LiveSlotsApart(data: Slabs, live: set<nat>, size: nat, cap: nat, a: nat, b: nat)
    requires SlabsOk(data, live, size, cap) && GoodSizes(size, cap) && a in live && b in live && a != b
    ensures a + size <= b || b + size <= a
    ensures exists n :: n in data && n.addr + SLAB_DESC_SIZE <= a && a + size <= n.addr + SLAB_SIZE
  {
    hide Slots;
    hide SlabOk;
    var n: RbNode :| n in data && InUse(n, data[n], size, cap, a);
    var n': RbNode :| n' in data && InUse(n', data[n'], size, cap, b);
    SlotsInside(n, size, cap);
    SlotsInside(n', size, cap);
    SlotsBound(n.addr, size, cap);
    if n == n' { SameSlab(n.addr, size, cap, a, b); }
  }

  lemma SameSlab(base: nat, size: nat, cap: nat, a: nat, b: nat)
    requires size > 0 && a in Slots(base, size, cap) && b in Slots(base, size, cap) && a != b
    ensures a + size <= b || b + size <= a
  {
    SlotsAre(base, size, cap);
    var i: nat :| i < cap && a == Slot(base, size, i);
    var j: nat :| j < cap && b == Slot(base, size, j);
    if i < j { SlotGap(base, size, i, j); } else if j < i { SlotGap(base, size, j, i); }
  }

  lemma SlotGap(base: nat, size: nat, i: nat, j: nat)
    requires size > 0 && i < j
    ensures Slot(base, size, i) + size <= Slot(base, size, j)
  {
    Positive(size, j - i);
    assert size * j - size * i == size * (j - i);
  }

  // ----- the cache -----

  /** The free list of a new slab: the last slot first. */
  function NewFreeList(base: nat, size: nat, k: nat): seq<nat> {
    if k == 0 then [] else [Slot(base, size, k - 1)] + NewFreeList(base, size, k - 1)
  }

  lemma {:induction false} NewFreeListOk(base: nat, size: nat, k: nat)
    requires size > 0
    ensures var f := NewFreeList(base, size, k);
      NoDuplicates(f) && Elements(f) == Slots(base, size, k) && |f| == k
  {
    if k > 0 {
      NewFreeListOk(base, size, k - 1);
      var f, g, a := NewFreeList(base, size, k), NewFreeList(base, size, k - 1), Slot(base, size, k - 1);
      SlotIsNew(base, size, k - 1);
      assert a !in g by { assert a !in Elements(g); }
      assert Elements(f) == Elements(g) + {a};
    }
  }

  lemma SlotIsNew(base: nat, size: nat, k: nat)
    requires size > 0
    ensures Slot(base, size, k) !in Slots(base, size, k)
  {
    SlotsBound(base, size, k);
  }

  /** init_single */
  method InitSingle(page: nat, size: nat, cap: nat) returns (list: seq<nat>)
    ensures list == NewFreeList(page, size, cap)
  {
    list := [];
    for i := 0 to cap
      invariant list == NewFreeList(page, size, i)
    {
      list := [Slot(page, size, i)] + list;
    }
  }

  /** `struct slab`: its node carries its address. */
  class Slab {
    const node: RbNode
    var free: seq<nat>
    var inUse: nat

    /** new_slab, on the page at `page` */
    constructor (page: nat, size: nat, cap: nat)
      ensures node.addr == page && fresh(node) && inUse == 0 && free == NewFreeList(page, size, cap)
    {
      var list := InitSingle(page, size, cap);
      node := new RbNode(page);
      free := list;
      inUse := 0;
    }
  }

  /** Three rb_tree_init calls */
  method NewTrees() returns (f: SlabTree, p: SlabTree, e: SlabTree)
    ensures fresh(f) && fresh(p) && fresh(e) && f != p && f != e && p != e
    ensures f.Valid() && p.Valid() && e.Valid() && f.Members() == p.Members() == e.Members() == {}
    ensures fresh(f.Footprint()) && fresh(p.Footprint()) && fresh(e.Footprint())
    ensures f.root != p.root && f.root != e.root && p.root != e.root
  {
    hide OrderedTree;
    f := new SlabTree();
    p := new SlabTree();
    e := new SlabTree();
  }

  class SlabCache {
    const full: SlabTree
    const partial: SlabTree
    const empty: SlabTree
    const objSize: nat
    const objsPerSlab: nat
    /** slab_entry: from a node to the slab that embeds it. */
    var entry: map<RbNode, Slab>
    /** The slots handed out and not yet given back. */
    ghost var live: set<nat>

    ghost function Data(): Slabs
      reads this, entry.Values
    {
      map n | n in entry :: SlabData(entry[n].free, entry[n].inUse)
    }

    ghost predicate TreesApart()
      reads full, partial, empty
    {
      && full != partial && full != empty && partial != empty
      && full.Footprint() !! partial.Footprint() && full.Footprint() !! empty.Footprint()
      && partial.Footprint() !! empty.Footprint()
    }

    ghost predicate TreesValid()
      reads full, partial, empty, full.Footprint(), partial.Footprint(), empty.Footprint()
    {
      TreesApart() && full.Valid() && partial.Valid() && empty.Valid()
    }

    ghost predicate EntriesOk()
      reads this
    {
      && full != partial && full != empty && partial != empty
      && full.root !in entry && partial.root !in entry && empty.root !in entry
      && (forall n :: n in entry ==> entry[n].node == n)
    }

    ghost predicate Valid()
      reads this, full, partial, empty, full.Footprint(), partial.Footprint(), empty.Footprint(), entry.Values
    {
      && TreesValid() && EntriesOk()
      && CacheOk(full.Members(), partial.Members(), empty.Members(), Data(), live, objSize, objsPerSlab)
    }

    /** navi_slab_cache_create; a slab of objects that are too large has no slot. */
    constructor (size: nat)
      ensures Valid() && live == {} && entry == map[]
      ensures objSize == (if size < 16 then 16 else size) && objsPerSlab == SLAB_MEM_SIZE / objSize
      ensures fresh(full) && fresh(partial) && fresh(empty)
      ensures fresh(full.Footprint()) && fresh(partial.Footprint()) && fresh(empty.Footprint())
    {
      hide OrderedTree;
      hide CacheOk;
      var s: nat := if size < 16 then 16 else size;
      var f, p, e := NewTrees();
      full, partial, empty := f, p, e;
      objSize := s;
      objsPerSlab := SLAB_MEM_SIZE / s;
      entry := map[];
      live := {};
      new;
      EmptyCacheOk(s, SLAB_MEM_SIZE / s);
      assert Data() == map[];
      assert TreesApart();
    }

    /** RemoveFrom and InsertInto leave the slabs themselves alone. */
    method Take(node: RbNode, ghost tree: SlabTree)
      requires TreesValid() && (tree == full || tree == partial || tree == empty) && node in tree.Members()
      modifies tree, tree.Footprint()
      ensures TreesValid() && tree.Members() == old(tree.Members()) - {node}
      ensures node !in full.Footprint() + partial.Footprint() + empty.Footprint()
      ensures tree != full ==> full.w == old(full.w)
      ensures tree != partial ==> partial.w == old(partial.w)
      ensures tree != empty ==> empty.w == old(empty.w)
      ensures Data() == old(Data())
    {
      hide TreesValid;
      RemoveFrom(node, tree);
    }

    method Put(node: RbNode, tree: SlabTree)
      requires TreesValid() && (tree == full || tree == partial || tree == empty)
      requires node !in full.Footprint() + partial.Footprint() + empty.Footprint()
      requires forall n :: n in tree.Members() ==> n.addr != node.addr
      modifies tree, tree.Footprint(), node
      ensures TreesValid() && tree.Members() == old(tree.Members()) + {node}
      ensures tree != full ==> full.w == old(full.w)
      ensures tree != partial ==> partial.w == old(partial.w)
      ensures tree != empty ==> empty.w == old(empty.w)
      ensures Data() == old(Data())
    {
      hide TreesValid;
      InsertInto(node, tree);
    }

    /** Everything but the place of `n` among the trees, which `from` holds. */
    ghost predicate Ready(n: RbNode, from: SlabTree)
      reads this, full, partial, empty, full.Footprint(), partial.Footprint(), empty.Footprint(), entry.Values
    {
      && TreesValid() && EntriesOk()
      && CacheBut(full.Members(), partial.Members(), empty.Members(), Data(), live, objSize, objsPerSlab, n)
      && (from == full || from == partial || from == empty) && n in from.Members() && n in entry
    }

    /** slab_remove; the trees beside it keep what they hold. */
    method RemoveFrom(node: RbNode, ghost tree: SlabTree)
      requires TreesValid() && (tree == full || tree == partial || tree == empty) && node in tree.Members()
      modifies tree, tree.Footprint()
      ensures TreesValid() && tree.Members() == old(tree.Members()) - {node}
      ensures node !in full.Footprint() + partial.Footprint() + empty.Footprint()
      ensures tree != full ==> full.w == old(full.w)
      ensures tree != partial ==> partial.w == old(partial.w)
      ensures tree != empty ==> empty.w == old(empty.w)
    {
      hide OrderedTree;
      ghost var b, c := if tree == full then partial else full, if tree == empty then partial else empty;
      ghost var mb, mc := Snap(b.Footprint()), Snap(c.Footprint());
      assert allocated(b.Footprint()) && allocated(c.Footprint());
      SlabTree.SlabRemove(node, tree);
      assert Snap(b.Footprint()) == mb && Snap(c.Footprint()) == mc;
      assert b.Valid() && c.Valid();
    }

    /** slab_insert; the trees beside it keep what they hold. */
    method InsertInto(node: RbNode, tree: SlabTree)
      requires TreesValid() && (tree == full || tree == partial || tree == empty)
      requires node !in full.Footprint() + partial.Footprint() + empty.Footprint()
      requires forall n :: n in tree.Members() ==> n.addr != node.addr
      modifies tree, tree.Footprint(), node
      ensures TreesValid() && tree.Members() == old(tree.Members()) + {node}
      ensures tree != full ==> full.w == old(full.w)
      ensures tree != partial ==> partial.w == old(partial.w)
      ensures tree != empty ==> empty.w == old(empty.w)
    {
      hide OrderedTree;
      ghost var b, c := if tree == full then partial else full, if tree == empty then partial else empty;
      ghost var mb, mc := Snap(b.Footprint()), Snap(c.Footprint());
      assert allocated(b.Footprint()) && allocated(c.Footprint());
      tree.SlabInsert(node);
      assert Snap(b.Footprint()) == mb && Snap(c.Footprint()) == mc;
      assert b.Valid() && c.Valid();
    }

    /** new_slab */
    method NewSlab(page: nat) returns (slab: Slab)
      requires TreesValid() && EntriesOk()
      requires full.Members() + partial.Members() + empty.Members() == entry.Keys
      requires forall n :: n in entry ==> page + SLAB_SIZE <= n.addr || n.addr + SLAB_SIZE <= page
      modifies this`entry
      ensures TreesValid() && EntriesOk() && entry == old(entry)[slab.node := slab]
      ensures slab.node !in old(entry) && slab.node.addr == page && fresh(slab) && fresh(slab.node)
      ensures slab.node !in full.Footprint() + partial.Footprint() + empty.Footprint()
      ensures full.w == old(full.w) && partial.w == old(partial.w) && empty.w == old(empty.w)
      ensures slab.inUse == 0 && slab.free == NewFreeList(page, objSize, objsPerSlab)
      ensures Data() == old(Data())[slab.node := SlabData(slab.free, 0)]
    {
      hide OrderedTree;
      hide NewFreeList;
      slab := new Slab(page, objSize, objsPerSlab);
      AddEntry(slab);
    }

    /** The new slab can be found from its node. */
    method AddEntry(slab: Slab)
      requires TreesValid() && EntriesOk() && slab.node !in entry
      requires slab.node !in full.Footprint() + partial.Footprint() + empty.Footprint()
      modifies this`entry
      ensures TreesValid() && EntriesOk() && entry == old(entry)[slab.node := slab]
      ensures Data() == old(Data())[slab.node := SlabData(slab.free, slab.inUse)]
    {
      hide OrderedTree;
      entry := entry[slab.node := slab];
    }

    /** The first branch of get_slab: a new slab goes to the partial tree before anything is taken from it. */
    method AddSlab(page: nat) returns (slab: Slab)
      requires Valid() && (forall n :: n in entry ==> page + SLAB_SIZE <= n.addr || n.addr + SLAB_SIZE <= page)
      requires objsPerSlab > 0
      modifies this`entry, partial, partial.Footprint()
      ensures Ready(slab.node, partial) && entry[slab.node] == slab && slab.free != [] && slab.inUse == 0
      ensures fresh(slab) && fresh(partial.Footprint() - old(partial.Footprint()))
    {
      hide TreesValid;
      hide CacheOk;
      hide CacheBut;
      ghost var data := Data();
      KeysAre(full.Members(), partial.Members(), empty.Members(), data, live, objSize, objsPerSlab);
      slab := NewSlab(page);
      AddedOk(data, live, objSize, objsPerSlab, slab.node, slab.free, full.Members(), partial.Members(),
        empty.Members());
      Put(slab.node, partial);
      assert EntriesOk();
      assert full.Members() == old(full.Members()) && empty.Members() == old(empty.Members());
      assert TreesValid();
      assert CacheBut(full.Members(), partial.Members(), empty.Members(), Data(), live, objSize, objsPerSlab,
        slab.node);
    }

    /** get_slab; `page` is what malloc returns if a new slab is needed. */
    method GetSlab(page: nat) returns (slab: Slab, ghost from: SlabTree)
      requires Valid() && (forall n :: n in entry ==> page + SLAB_SIZE <= n.addr || n.addr + SLAB_SIZE <= page)
      requires objsPerSlab > 0
      modifies this`entry, partial, partial.Footprint()
      ensures Ready(slab.node, from) && entry[slab.node] == slab && slab.free != []
      ensures from == partial || from == empty
      ensures 0 < slab.inUse ==> from == partial
      ensures full.w == old(full.w) && empty.w == old(empty.w)
      ensures fresh(partial.Footprint() - old(partial.Footprint())) && (fresh(slab) || slab in old(entry.Values))
    {
      hide OrderedTree;
      hide CacheOk;
      hide CacheBut;
      var p := partial.Root();
      var e := empty.Root();
      KeysAre(full.Members(), partial.Members(), empty.Members(), Data(), live, objSize, objsPerSlab);
      if p == null && e == null {
        from := partial;
        slab := AddSlab(page);
      } else if p == null {
        slab := entry[e];
        from := empty;
        Standing(full.Members(), partial.Members(), empty.Members(), Data(), live, objSize, objsPerSlab, e);
      } else {
        slab := entry[p];
        from := partial;
        Standing(full.Members(), partial.Members(), empty.Members(), Data(), live, objSize, objsPerSlab, p);
      }
    }

    /** Changes the free list and the count of one slab; the trees are not concerned. */
    method SetSlab(slab: Slab, free: seq<nat>, inUse: nat, ghost newLive: set<nat>)
      requires TreesValid() && EntriesOk() && slab.node in entry && entry[slab.node] == slab
      modifies slab, this`live
      ensures live == newLive && TreesValid() && EntriesOk() && slab.free == free && slab.inUse == inUse
      ensures Data() == old(Data())[slab.node := SlabData(free, inUse)]
    {
      hide OrderedTree;
      ghost var data := Data();
      slab.free := free;
      slab.inUse := inUse;
      live := newLive;
      ghost var kept := TreesValid();
      assert kept;
      hide TreesValid;
      assert Data() == data[slab.node := SlabData(free, inUse)];
    }

    /** slab_pop and the increment of in_use */
    method SlabPop(slab: Slab, ghost from: SlabTree) returns (obj: nat)
      requires Ready(slab.node, from) && entry[slab.node] == slab && slab.free != []
      modifies slab, this`live
      ensures Ready(slab.node, from) && live == old(live) + {obj} && obj !in old(live)
      ensures slab.inUse == old(slab.inUse) + 1
    {
      hide TreesValid;
      hide CacheBut;
      ghost var data, n := Data(), slab.node;
      PoppedOk(full.Members(), partial.Members(), empty.Members(), data, live, objSize, objsPerSlab, n);
      obj := slab.free[0];
      SetSlab(slab, slab.free[1..], slab.inUse + 1, live + {obj});
    }

    /** Moves a slab from the tree that holds it to another, or to the same again. */
    method Move(n: RbNode, ghost from: SlabTree, to: SlabTree)
      requires Ready(n, from) && (to == full || to == partial || to == empty)
      modifies from, to, from.Footprint(), to.Footprint()
      ensures Ready(n, to) && Data() == old(Data())
      ensures full.Members() == if to == full then old(full.Members()) + {n} else old(full.Members()) - {n}
      ensures partial.Members() == if to == partial then old(partial.Members()) + {n} else old(partial.Members()) - {n}
      ensures empty.Members() == if to == empty then old(empty.Members()) + {n} else old(empty.Members()) - {n}
    {
      hide TreesValid;
      hide CacheBut;
      ghost var data, F, P, E := Data(), full.Members(), partial.Members(), empty.Members();
      MoveOk(F, P, E, data, live, objSize, objsPerSlab, n);
      Take(n, from);
      assert full.Members() == F - {n} && partial.Members() == P - {n} && empty.Members() == E - {n};
      Put(n, to);
      assert full.Members() == if to == full then F + {n} else F - {n};
      assert partial.Members() == if to == partial then P + {n} else P - {n};
      assert empty.Members() == if to == empty then E + {n} else E - {n};
      assert TreesValid();
      assert EntriesOk();
      assert CacheBut(full.Members(), partial.Members(), empty.Members(), Data(), live, objSize, objsPerSlab, n);
    }

    /** navi_slab_alloc; `page` is what malloc returns if a new slab is needed. */
    method Alloc(page: nat) returns (obj: nat)
      requires Valid() && (forall n :: n in entry ==> page + SLAB_SIZE <= n.addr || n.addr + SLAB_SIZE <= page)
      requires objsPerSlab > 0
      modifies this`entry, this`live, full, partial, empty, entry.Values
      modifies full.Footprint(), partial.Footprint(), empty.Footprint()
      ensures Valid() && obj !in old(live) && live == old(live) + {obj}
      ensures fresh(full.Footprint() + partial.Footprint() + empty.Footprint()
                    - old(full.Footprint()) - old(partial.Footprint()) - old(empty.Footprint()))
    {
      hide TreesValid;
      hide CacheOk;
      hide CacheBut;
      var slab: Slab;
      ghost var from;
      slab, from := GetSlab(page);
      obj := SlabPop(slab, from);
      Settle(slab, from);
    }

    /** The end of navi_slab_alloc: the slab goes where its use belongs. */
    method Settle(slab: Slab, ghost from: SlabTree)
      requires Ready(slab.node, from) && entry[slab.node] == slab
      requires slab.inUse > 0 && (from == partial || from == empty) && (slab.inUse > 1 ==> from == partial)
      modifies full, partial, empty, full.Footprint(), partial.Footprint(), empty.Footprint()
      ensures Valid()
      ensures full.Members() + partial.Members() + empty.Members() <=
              old(full.Members()) + old(partial.Members()) + old(empty.Members())
    {
      hide TreesValid;
      hide CacheOk;
      hide CacheBut;
      UseBounds(full.Members(), partial.Members(), empty.Members(), Data(), live, objSize, objsPerSlab, slab.node);
      if slab.inUse == objsPerSlab {
        Move(slab.node, from, full);
      } else if slab.inUse == 1 {
        Move(slab.node, from, partial);
      }
      PlacedOk(full.Members(), partial.Members(), empty.Members(), Data(), live, objSize, objsPerSlab, slab.node);
    }

    /** _find_slab in one of the trees */
    method FindNode(tree: SlabTree, mem: nat) returns (n: RbNode?)
      requires TreesValid() && (tree == full || tree == partial || tree == empty) && Spaced(tree.Members())
      ensures TreesValid() && Data() == old(Data())
      ensures n == null ==> forall n' :: n' in tree.Members() ==> !Covers(n', mem)
      ensures n != null ==> n in tree.Members() && Covers(n, mem)
    {
      hide OrderedTree;
      ghost var f, p, e := Snap(full.Footprint()), Snap(partial.Footprint()), Snap(empty.Footprint());
      assert allocated(full.Footprint()) && allocated(partial.Footprint()) && allocated(empty.Footprint());
      var visited;
      n, visited := tree.FindSlab(mem);
      assert Snap(full.Footprint()) == f && Snap(partial.Footprint()) == p && Snap(empty.Footprint()) == e;
    }

    /** find_slab: the slab that covers an address, unless it is empty */
    method FindSlab(mem: nat) returns (slab: Slab?, ghost from: SlabTree)
      requires Valid()
      ensures Valid()
      ensures slab == null ==> forall n :: n in full.Members() + partial.Members() ==> !Covers(n, mem)
      ensures slab != null ==> slab.node in entry && entry[slab.node] == slab && Covers(slab.node, mem)
      ensures slab != null ==> Ready(slab.node, from) && (from == full || from == partial)
      ensures slab != null ==> if from == full then slab.inUse == objsPerSlab else 0 < slab.inUse < objsPerSlab
    {
      hide TreesValid;
      hide CacheOk;
      hide CacheBut;
      KeysAre(full.Members(), partial.Members(), empty.Members(), Data(), live, objSize, objsPerSlab);
      from := full;
      var n := FindNode(full, mem);
      if n == null {
        from := partial;
        n := FindNode(partial, mem);
      }
      if n == null {
        return null, from;
      }
      Standing(full.Members(), partial.Members(), empty.Members(), Data(), live, objSize, objsPerSlab, n);
      slab := entry[n];
    }

    /** Puts a live slot on the free list of its slab. */
    method SlabPush(slab: Slab, mem: nat, ghost from: SlabTree)
      requires Ready(slab.node, from) && entry[slab.node] == slab && mem in live && Covers(slab.node, mem)
      modifies slab, this`live
      ensures Ready(slab.node, from) && live == old(live) - {mem} && slab.inUse == old(slab.inUse) - 1
    {
      hide TreesValid;
      hide CacheBut;
      ghost var data, n := Data(), slab.node;
      PushedOk(full.Members(), partial.Members(), empty.Members(), data, live, objSize, objsPerSlab, n, mem);
      SetSlab(slab, [mem] + slab.free, slab.inUse - 1, live - {mem});
    }

    /** navi_slab_free; false stands for navi_die.  The caller passes a live slot or an address in no slab in use. */
    method Free(mem: nat) returns (found: bool)
      requires Valid()
      requires mem in live || forall n :: n in full.Members() + partial.Members() ==> !Covers(n, mem)
      modifies this`live, full, partial, empty, entry.Values
      modifies full.Footprint(), partial.Footprint(), empty.Footprint()
      ensures Valid() && (found <==> mem in old(live)) && live == old(live) - {mem}
    {
      hide TreesValid;
      hide CacheOk;
      hide CacheBut;
      var slab: Slab?;
      ghost var from;
      slab, from := FindLive(mem);
      if slab == null {
        return false;
      }
      SlabPush(slab, mem, from);
      SettleFreed(slab, from);
      found := true;
    }

    /** find_slab finds a slab for live slots, and only for them. */
    method FindLive(mem: nat) returns (slab: Slab?, ghost from: SlabTree)
      requires Valid()
      requires mem in live || forall n :: n in full.Members() + partial.Members() ==> !Covers(n, mem)
      ensures Valid() && (slab == null <==> mem !in live)
      ensures slab != null ==> slab.node in entry && entry[slab.node] == slab && Covers(slab.node, mem)
      ensures slab != null ==> Ready(slab.node, from) && (from == full || from == partial)
      ensures slab != null ==> if from == full then slab.inUse == objsPerSlab else 0 < slab.inUse < objsPerSlab
    {
      hide TreesValid;
      hide CacheOk;
      hide CacheBut;
      ghost var data := Data();
      KeysAre(full.Members(), partial.Members(), empty.Members(), data, live, objSize, objsPerSlab);
      if mem in live {
        LiveIsFound(full.Members(), partial.Members(), empty.Members(), data, live, objSize, objsPerSlab, mem);
      }
      slab, from := FindSlab(mem);
    }

    /** The end of navi_slab_free */
    method SettleFreed(slab: Slab, ghost from: SlabTree)
      requires Ready(slab.node, from) && entry[slab.node] == slab && (from == full || from == partial)
      requires if from == full then slab.inUse + 1 == objsPerSlab else slab.inUse + 1 < objsPerSlab
      modifies full, partial, empty, full.Footprint(), partial.Footprint(), empty.Footprint()
      ensures Valid()
    {
      hide TreesValid;
      hide CacheOk;
      hide CacheBut;
      UseBounds(full.Members(), partial.Members(), empty.Members(), Data(), live, objSize, objsPerSlab, slab.node);
      if slab.inUse == 0 {
        Move(slab.node, from, empty);
      } else if slab.inUse + 1 == objsPerSlab {
        Move(slab.node, from, partial);
      }
      PlacedOk(full.Members(), partial.Members(), empty.Members(), Data(), live, objSize, objsPerSlab, slab.node);
    }
  }

  lemma UseBounds(F: set<RbNode>, P: set<RbNode>, E: set<RbNode>,
                  data: Slabs, live: set<nat>, size: nat, cap: nat, n: RbNode)
    requires CacheBut(F, P, E, data, live, size, cap, n)
    ensures data[n].inUse <= cap
  {
  }

  /** A live slot lies in a slab that is not empty. */
  lemma LiveIsFound(F: set<RbNode>, P: set<RbNode>, E: set<RbNode>,
                    data: Slabs, live: set<nat>, size: nat, cap: nat, mem: nat)
    requires CacheOk(F, P, E, data, live, size, cap) && mem in live
    ensures exists n :: n in F + P && Covers(n, mem)
  {
    var n: RbNode :| n in data && InUse(n, data[n], size, cap, mem);
    PushOk(data, live, size, cap, n, mem);
    SlotsInside(n, size, cap);
    assert n !in E;
  }

  lemma PushedOk(F: set<RbNode>, P: set<RbNode>, E: set<RbNode>,
                 data: Slabs, live: set<nat>, size: nat, cap: nat, n: RbNode, mem: nat)
    requires CacheBut(F, P, E, data, live, size, cap, n) && mem in live && Covers(n, mem)
    ensures data[n].inUse > 0
    ensures CacheBut(F, P, E, data[n := SlabData([mem] + data[n].free, data[n].inUse - 1)], live - {mem}, size, cap, n)
  {
    var x: RbNode :| x in data && InUse(x, data[x], size, cap, mem);
    OneSlab(data, live, size, cap, x, n, mem);
    PushOk(data, live, size, cap, n, mem);
  }

  lemma MoveOk(F: set<RbNode>, P: set<RbNode>, E: set<RbNode>,
               data: Slabs, live: set<nat>, size: nat, cap: nat, n: RbNode)
    requires CacheBut(F, P, E, data, live, size, cap, n)
    ensures F !! P && F !! E && P !! E && n in F + P + E
    ensures forall x :: x in F + P + E && x != n ==> x.addr != n.addr
    ensures CacheBut(F + {n}, P - {n}, E - {n}, data, live, size, cap, n)
    ensures CacheBut(F - {n}, P + {n}, E - {n}, data, live, size, cap, n)
    ensures CacheBut(F - {n}, P - {n}, E + {n}, data, live, size, cap, n)
  {
  }

  /** Where a slab belongs after an allocation or a release. */
  lemma PlacedOk(F: set<RbNode>, P: set<RbNode>, E: set<RbNode>,
                 data: Slabs, live: set<nat>, size: nat, cap: nat, n: RbNode)
    requires CacheBut(F, P, E, data, live, size, cap, n)
    requires var u := data[n].inUse;
      (n in F && u == cap) || (n in P && 0 < u < cap) || (n in E && u == 0)
    ensures CacheOk(F, P, E, data, live, size, cap)
  {
  }

  lemma PoppedOk(F: set<RbNode>, P: set<RbNode>, E: set<RbNode>,
                 data: Slabs, live: set<nat>, size: nat, cap: nat, n: RbNode)
    requires CacheBut(F, P, E, data, live, size, cap, n) && data[n].free != []
    ensures var d := data[n]; var obj := d.free[0];
      obj !in live
      && CacheBut(F, P, E, data[n := SlabData(d.free[1..], d.inUse + 1)], live + {obj}, size, cap, n)
  {
    PopOk(data, live, size, cap, n);
  }

  lemma KeysAre(full: set<RbNode>, partial: set<RbNode>, empty: set<RbNode>,
                data: Slabs, live: set<nat>, size: nat, cap: nat)
    requires CacheOk(full, partial, empty, data, live, size, cap)
    ensures full + partial + empty == data.Keys && Spaced(full) && Spaced(partial)
  {
  }

  /** What the tree of a slab says about it */
  lemma Standing(full: set<RbNode>, partial: set<RbNode>, empty: set<RbNode>,
                data: Slabs, live: set<nat>, size: nat, cap: nat, n: RbNode)
    requires CacheOk(full, partial, empty, data, live, size, cap) && n in data
    ensures CacheBut(full, partial, empty, data, live, size, cap, n)
    ensures n in partial + empty && cap > 0 ==> data[n].free != []
    ensures if n in full then data[n].inUse == cap else if n in partial then 0 < data[n].inUse < cap
      else data[n].inUse == 0
  {
  }

  lemma AddedOk(data: Slabs, live: set<nat>, size: nat, cap: nat, n: RbNode, free: seq<nat>,
                full: set<RbNode>, partial: set<RbNode>, empty: set<RbNode>)
    requires CacheOk(full, partial, empty, data, live, size, cap)
    requires n !in data && free == NewFreeList(n.addr, size, cap) && cap > 0
    requires forall x :: x in data ==> n.addr + SLAB_SIZE <= x.addr || x.addr + SLAB_SIZE <= n.addr
    ensures free != [] && CacheBut(full, partial + {n}, empty, data[n := SlabData(free, 0)], live, size, cap, n)
  {
    NewFreeListOk(n.addr, size, cap);
    NewSlabOk(data, live, size, cap, n, free);
  }

  lemma EmptyCacheOk(size: nat, cap: nat)
    requires 16 <= size && cap == SLAB_MEM_SIZE / size
    ensures CacheOk({}, {}, {}, map[], {}, size, cap)
  {
    assert size * cap + SLAB_MEM_SIZE % size == SLAB_MEM_SIZE;
  }
}
