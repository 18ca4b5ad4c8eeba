/** What C code must guard: a value that it has made is freed by the next collection unless a guard holds it. */
module Guards {
  import opened Collector
  import opened Cycles
  import opened GcMarking
  import opened ScopeCounting

  // ----- an object that nothing refers to -----

  ghost predicate Unreferenced(x: Obj, g: Graph) { forall a :: a in g ==> x !in g[a] }

  lemma LastStep(p: seq<Obj>, o: Obj, x: Obj, g: Graph)
    requires IsPath(p, o, x, g) && |p| > 1
    ensures p[|p| - 2] in g && x in g[p[|p| - 2]]
  {
    assert p[|p| - 2 + 1] in g[p[|p| - 2]];
  }

  lemma OnlyItself(o: Obj, x: Obj, g: Graph)
    requires Unreferenced(x, g) && Reaches(o, x, g)
    ensures o == x
  {
    var p :| IsPath(p, o, x, g);
    if |p| > 1 { LastStep(p, o, x, g); }
  }

  lemma Unrooted(active: seq<Scope>, x: Obj, g: Graph)
    requires Unreferenced(x, g) && forall s :: s in active ==> !HeldByScope(s, x)
    ensures !Rooted(active, x, g)
  {
    hide Reaches;
    if s :| s in active && ScopeReaches(s, x, g) {
      if b :| b in s.bindings && EntryReaches(b, x, g) {
        if b.1.Ptr? && Reaches(b.1.o, x, g) { OnlyItself(b.1.o, x, g); }
      } else {
        var v :| v in s.guards && v.Ptr? && Reaches(v.o, x, g);
        OnlyItself(v.o, x, g);
      }
    }
  }

  // ----- a collection after an object has been made -----

  /** `g'` has more objects than `g`, and the same references from those of `g`. */
  ghost predicate Extends(g': Graph, g: Graph) { forall x :: x in g ==> x in g' && g'[x] == g[x] }

  lemma {:induction false} EndsInMore(a: Obj, g: Graph, g': Graph, d: nat)
    requires Closed(g) && Closed(g') && Extends(g', g) && a in g && EndsWithin(a, g, d)
    ensures EndsWithin(a, g', d)
  {
    forall c | c in g'[a] ensures EndsWithin(c, g', d - 1) { EndsInMore(c, g, g', d - 1); }
  }

  lemma NoNewCycle(a: Obj, g: Graph, g': Graph)
    requires Closed(g) && Closed(g') && Extends(g', g) && a in g && !ReachesCycle(a, g)
    ensures !ReachesCycle(a, g')
  {
    MarkingEnds(a, g);
    EndsInMore(a, g, g', |g|);
    assert Ends(a, g');
    MarkingEnds(a, g');
  }

  lemma RootsEndInMore(active: seq<Scope>, g: Graph, g': Graph)
    requires Closed(g) && Closed(g') && Extends(g', g) && RootsIn(active, g.Keys) && RootsEnd(active, g)
    ensures RootsEnd(active, g')
  {
    hide ReachesCycle;
    forall s | s in active ensures ScopeEnds(s, g') {
      forall b | b in s.bindings ensures ValueEnds(b.1, g') { if b.1.Ptr? { NoNewCycle(b.1.o, g, g'); } }
      forall v | v in s.guards ensures ValueEnds(v, g') { if v.Ptr? { NoNewCycle(v.o, g, g'); } }
    }
  }

  lemma RootedInMore(active: seq<Scope>, x: Obj, g: Graph, g': Graph)
    requires Extends(g', g) && Rooted(active, x, g)
    ensures Rooted(active, x, g')
  {
    forall o | Reaches(o, x, g) ensures Reaches(o, x, g') {
      var p :| IsPath(p, o, x, g);
      assert IsPath(p, o, x, g');
    }
    hide Reaches;
    var s :| s in active && ScopeReaches(s, x, g);
    if b :| b in s.bindings && EntryReaches(b, x, g) {
      assert EntryReaches(b, x, g');
    }
    assert ScopeReaches(s, x, g');
  }

  // ----- scm_cond -----

  /** What a collection asks for */
  ghost predicate Collectable(h: Heap)
    reads h, h.envs, h.list, h.graph.Keys, h.envs.active, h.symbols.buckets
  {
    h.Valid() && h.Shielded() && RootsEnd(h.envs.active, h.graph)
  }

  /** What a collection needed when the graph was `g` */
  ghost predicate NeededWere(active: seq<Scope>, g: Graph, needed: set<Obj>)
    reads active`bindings, active`guards, g.Keys`protect
  {
    && RootsIn(active, g.Keys) && RootsEnd(active, g)
    && needed <= g.Keys
    && (forall x :: x in g ==> (x in needed <==> Rooted(active, x, g) || x.protect || x.payload.Symbol?))
    && (forall x :: x in g && x.protect ==> g[x] <= needed)
  }

  lemma NeededNow(h: Heap)
    requires Collectable(h)
    ensures NeededWere(h.envs.active, h.graph, h.Needed())
  {
    hide Counted;
    hide Rooted;
  }

  /** A new object is referred to by nothing, and what was needed still is. */
  lemma AfterNew(h: Heap, o: Obj, g: Graph, needed: set<Obj>)
    requires h.Valid() && Closed(g) && o !in g && h.graph == g[o := {}] && !o.protect
    requires NeededWere(h.envs.active, g, needed)
    ensures Collectable(h) && Unreferenced(o, h.graph)
    ensures forall s :: s in h.envs.active ==> !HeldByScope(s, o)
  {
    hide Reaches;
    hide Rooted;
    hide Counted;
    hide IsGraph;
    hide Chained;
    RootsEndInMore(h.envs.active, g, h.graph);
    forall x | x in needed ensures x in h.Needed() {
      if Rooted(h.envs.active, x, g) { RootedInMore(h.envs.active, x, g, h.graph); }
    }
  }

  /** The value of `(cons 1 2)` */
  method MakePair(h: Heap) returns (o: Obj)
    requires Collectable(h)
    modifies h, h.Active()`refs
    ensures Collectable(h) && fresh(o) && o.payload == Pair && !o.protect
    ensures h.list == [o] + old(h.list) && h.envs.active == old(h.envs.active)
    ensures Unreferenced(o, h.graph) && forall s :: s in h.envs.active ==> !HeldByScope(s, o)
    ensures o !in Filter(h.list, h.Needed())
  {
    hide Counted;
    hide NeededWere;
    hide Filter;
    ghost var g, needed, active := h.graph, h.Needed(), h.envs.active;
    NeededNow(h);
    o := h.NewObject(Pair, [Imm, Imm]);
    assert EdgesOf(Pair, [Imm, Imm]) == {};
    ghost var kept := NeededWere(active, g, needed);
    assert kept;
    AfterNew(h, o, g, needed);
    PairIsFreed(h, o);
  }

  /** navi_gc_collect */
  method GcCollect(h: Heap)
    requires Collectable(h)
    modifies h, h.envs, h.Objects(), h.Active()
    ensures h.Valid() && h.list == Filter(old(h.list), old(h.Needed()))
  {
    h.GcCollect();
  }

  /**
   * The clause `((cons 1 2) => receiver)` of `cond`: scm_cond and eval_clause have the value of the test in a local
   * variable only while the receiver is evaluated. If that collects, as `(begin (gc-collect) car)` does, it is gone.
   */
  method EvalTest(h: Heap) returns (test: Obj)
    requires Collectable(h)
    modifies h, h.envs, h.Objects(), h.Active()
    ensures h.Valid() && fresh(test) && test !in h.list
  {
    hide Counted;
    hide Rooted;
    hide RootsEnd;
    hide Filter;
    hide LeakedBy;
    hide HeldByScope;
    hide Unreferenced;
    hide Collectable;
    test := MakePair(h);
    assert h.Objects() == old(h.Objects()) + {test} && h.Active() == old(h.Active());
    GcCollect(h);
  }

  lemma PairIsFreed(h: Heap, o: Obj)
    requires h.Valid() && o.payload == Pair && !o.protect
    requires Unreferenced(o, h.graph) && forall s :: s in h.envs.active ==> !HeldByScope(s, o)
    ensures o !in Filter(h.list, h.Needed())
  {
    Unrooted(h.envs.active, o, h.graph);
    FilterKeeps(h.list, h.Needed());
  }

  /** A guard, as eval_call has one for the operator and do_apply for the arguments, keeps a value. */
  lemma GuardedIsKept(h: Heap, s: Scope, o: Obj)
    requires h.Valid() && s in h.envs.active && Ptr(o) in s.guards
    ensures o in Filter(h.list, h.Needed())
  {
    ReachesSelf(o, h.graph);
    assert ScopeReaches(s, o, h.graph);
    FilterKeeps(h.list, h.Needed());
  }
}
