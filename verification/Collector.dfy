/** heap.c: the heap list, the roots, and the sweeping half of the collector. */
module Collector {
  import opened Cycles
  import opened GcMarking
  import opened ScopeCounting
  import opened Sequences
  import opened Symbols

  // ----- the heap list -----

  function First(s: seq<Obj>): Obj? { if s == [] then null else s[0] }

  /** The objects of `s` are chained by their links. */
  ghost predicate Chained(s: seq<Obj>)
    reads s`link
  {
    NoDuplicates(s) && forall i :: 0 <= i < |s| ==> s[i].link == From(s, i + 1)
  }

  function From(s: seq<Obj>, i: nat): Obj? { if i < |s| then s[i] else null }

  /** The elements of `s` that are in `keep`, in order. */
  function Filter(s: seq<Obj>, keep: set<Obj>): seq<Obj> {
    if s == [] then [] else
      var n := |s| - 1;
      Filter(s[..n], keep) + if s[n] in keep then [s[n]] else []
  }

  lemma {:induction false} FilterKeeps(s: seq<Obj>, keep: set<Obj>)
    ensures forall x :: x in Filter(s, keep) <==> x in s && x in keep
  {
    if s != [] {
      var n := |s| - 1;
      FilterKeeps(s[..n], keep);
      assert s == s[..n] + [s[n]];
    }
  }

  lemma {:induction false} HeldByAppend(a: seq<Obj>, b: seq<Obj>)
    ensures HeldBy(a + b) == HeldBy(a) + HeldBy(b)
  {
    hide Held;
    if a == [] {
      assert a + b == b;
    } else {
      HeldByAppend(a[1..], b);
      assert (a + b)[1..] == a[1..] + b;
    }
  }

  lemma {:induction false} HeldInAll(list: seq<Obj>, o: Obj, s: Scope)
    requires o in list && s in Held(o.payload)
    ensures s in HeldBy(list)
  {
    if list[0] != o {
      HeldInAll(list[1..], o, s);
    }
  }

  lemma {:induction false} HeldAsOften(list: seq<Obj>, o: Obj, s: Scope)
    requires o in list
    ensures HeldBy(list)[s] >= Held(o.payload)[s]
  {
    hide Held;
    if list[0] != o {
      HeldAsOften(list[1..], o, s);
    }
  }

  lemma {:induction false} NextInAll(active: seq<Scope>, s: Scope)
    requires s in active && s.next != null
    ensures s.next in NextsOf(active)
  {
    if active[0] != s {
      NextInAll(active[1..], s);
    }
  }

  lemma HeldByMiddle(a: seq<Obj>, o: Obj, b: seq<Obj>)
    ensures HeldBy(a + ([o] + b)) == Held(o.payload) + HeldBy(a + b)
  {
    hide Held;
    HeldByAppend(a, [o] + b);
    HeldByAppend(a, b);
    assert ([o] + b)[1..] == b;
  }

  /** What navi_free releases: not the scopes of macros, special forms and promises. */
  function Released(p: Payload): (r: multiset<Scope>)
    ensures r <= Held(p)
  {
    if p.Proc? && p.kind != Procedure then multiset{} else Held(p)
  }

  /** The references that an object holds and navi_free does not give back */
  function Unreleased(p: Payload): multiset<Scope> { Held(p) - Released(p) }

  function Lost(o: Obj, keep: set<Obj>): multiset<Scope> {
    if o in keep then multiset{} else Unreleased(o.payload)
  }

  /** What a sweep that keeps `keep` leaks */
  function LeakedBy(s: seq<Obj>, keep: set<Obj>): multiset<Scope> {
    if s == [] then multiset{} else
      var n := |s| - 1;
      LeakedBy(s[..n], keep) + Lost(s[n], keep)
  }

  /** A sweep leaks nothing exactly when all that it sweeps gives back what it holds. */
  lemma {:induction false} LeaksNothing(s: seq<Obj>, keep: set<Obj>)
    ensures LeakedBy(s, keep) == multiset{} <==>
            forall o :: o in s && o !in keep ==> Released(o.payload) == Held(o.payload)
  {
    hide Held;
    hide Released;
    if s != [] {
      var n := |s| - 1;
      LeaksNothing(s[..n], keep);
      GivesBack(s[n].payload);
      assert s == s[..n] + [s[n]];
    }
  }

  /** Only macros, special forms and promises leak. */
  lemma GivesBack(p: Payload)
    ensures Unreleased(p) == multiset{} <==> Released(p) == Held(p)
    ensures Released(p) == Held(p) <==> !(p.Proc? && p.kind != Procedure)
  {
  }

  lemma MinusTwo(h: multiset<Scope>, l: Scope, d: Scope)
    requires multiset{l, d} <= h
    ensures l in h && d in h - multiset{l} && h - multiset{l} - multiset{d} == h - multiset{l, d}
  {
  }

  lemma Skip<T>(kept: seq<T>, obj: T, rest: seq<T>)
    requires NoDuplicates(kept + ([obj] + rest))
    ensures var before, after := kept + ([obj] + rest), kept + rest;
      && NoDuplicates(after) && obj !in after && before[|kept|] == obj
      && (forall j :: 0 <= j < |kept| ==> after[j] == before[j])
      && (forall j :: |kept| <= j < |after| ==> after[j] == before[j + 1])
  {
    var before, after, k := kept + ([obj] + rest), kept + rest, |kept|;
    assert before[k] == obj;
    forall j | 0 <= j < |after| ensures after[j] == before[if j < k then j else j + 1] && after[j] != obj {
    }
    forall i, j | 0 <= i < j < |after| ensures after[i] != after[j] {
      assert before[if i < k then i else i + 1] != before[if j < k then j else j + 1];
    }
  }

  /** The sweep has gone through `done`, of which it has kept `kept`, and `rest` is to come. */
  ghost predicate SweepAt(l0: seq<Obj>, done: seq<Obj>, kept: seq<Obj>, rest: seq<Obj>, keep: set<Obj>,
                          leak: multiset<Scope>)
  {
    l0 == done + rest && kept == Filter(done, keep) && leak == LeakedBy(done, keep)
  }

  lemma SweepStart(l0: seq<Obj>, keep: set<Obj>)
    ensures SweepAt(l0, [], [], l0, keep, multiset{}) && [] + l0 == l0
  {
  }

  lemma SweepStep(l0: seq<Obj>, done: seq<Obj>, kept: seq<Obj>, rest: seq<Obj>, keep: set<Obj>, leak: multiset<Scope>)
    requires SweepAt(l0, done, kept, rest, keep, leak) && rest != []
    ensures rest == [rest[0]] + rest[1..]
    ensures var o := rest[0];
      SweepAt(l0, done + [o], if o in keep then kept + [o] else kept, rest[1..], keep, leak + Lost(o, keep))
  {
    hide Lost;
    FilterLast(done, rest[0], keep);
    assert done + rest == (done + [rest[0]]) + rest[1..];
  }

  lemma FilterLast(done: seq<Obj>, o: Obj, keep: set<Obj>)
    ensures Filter(done + [o], keep) == Filter(done, keep) + if o in keep then [o] else []
    ensures LeakedBy(done + [o], keep) == LeakedBy(done, keep) + Lost(o, keep)
  {
    hide Lost;
    assert (done + [o])[..|done|] == done;
  }

  lemma ChainedAt(kept: seq<Obj>, obj: Obj, rest: seq<Obj>)
    requires Chained(kept + ([obj] + rest))
    ensures obj.link == First(rest) && obj !in rest && obj !in kept
  {
    var s := kept + ([obj] + rest);
    assert forall i :: 0 <= i < |kept| ==> s[i] == kept[i];
    assert forall i :: 0 <= i < |rest| ==> s[|kept| + 1 + i] == rest[i];
    assert s[|kept|] == obj && From(s, |kept| + 1) == First(rest);
  }

  lemma ChainedCons(s: seq<Obj>, o: Obj)
    requires Chained(s) && o !in s && o.link == First(s)
    ensures Chained([o] + s)
  {
    var t := [o] + s;
    forall i | 0 <= i < |t| ensures t[i].link == From(t, i + 1) {
      if i > 0 { assert s[i - 1].link == From(s, i); }
    }
  }

  lemma OneShorter<T>(kept: seq<T>, obj: T, rest: seq<T>)
    ensures |kept + ([obj] + rest)| == |kept + rest| + 1
  {
  }

  lemma FreedHolders(holders: multiset<Scope>, others: multiset<Scope>, held: multiset<Scope>,
        released: multiset<Scope>)
    requires holders == held + others && released <= held
    ensures released <= holders && others + (held - released) == holders - released
  {
  }

  // ----- the roots, as facts about scopes -----

  ghost predicate EntryReaches(b: (Obj, Value), x: Obj, g: Graph) { x == b.0 || (b.1.Ptr? && Reaches(b.1.o, x, g)) }

  ghost predicate EntriesIn(bs: seq<(Obj, Value)>, S: set<Obj>) {
    forall b :: b in bs ==> b.0 in S && b.0.payload.Symbol? && (b.1.Ptr? ==> b.1.o in S)
  }

  ghost predicate ValuesIn(vs: seq<Value>, S: set<Obj>) { forall v :: v in vs && v.Ptr? ==> v.o in S }

  ghost predicate EntriesReach(bs: seq<(Obj, Value)>, x: Obj, g: Graph)
  {
    exists b :: b in bs && EntryReaches(b, x, g)
  }

  lemma EntriesReachAppend(bs: seq<(Obj, Value)>, b: (Obj, Value), g: Graph)
    ensures forall x :: x in g ==>
      (EntriesReach(bs + [b], x, g) <==> EntriesReach(bs, x, g) || EntryReaches(b, x, g))
  {
    assert b in [b];
    forall x | x in g
      ensures EntriesReach(bs + [b], x, g) <==> EntriesReach(bs, x, g) || EntryReaches(b, x, g)
    {
      assert b in bs + [b];
      if EntriesReach(bs, x, g) {
        var e :| e in bs && EntryReaches(e, x, g);
        assert e in bs + [b];
      }
    }
  }

  /** What gc_mark_env marks from: the symbols and values of the bindings, and the guards. */
  ghost predicate ScopeReaches(s: Scope, x: Obj, g: Graph)
    reads s`bindings, s`guards
  {
    EntriesReach(s.bindings, x, g) || ReachesAny(s.guards, x, g)
  }

  ghost predicate RootsIn(active: seq<Scope>, S: set<Obj>)
    reads active`bindings, active`guards
  {
    forall s :: s in active ==> EntriesIn(s.bindings, S) && ValuesIn(s.guards, S)
  }

  ghost predicate Rooted(active: seq<Scope>, x: Obj, g: Graph)
    reads active`bindings, active`guards
  {
    exists s :: s in active && ScopeReaches(s, x, g)
  }

  /** A scope binds or guards `x`, or `x` is a symbol that it binds. */
  ghost predicate HeldByScope(s: Scope, x: Obj)
    reads s`bindings, s`guards
  {
    (exists b :: b in s.bindings && (b.0 == x || b.1 == Ptr(x))) || Ptr(x) in s.guards
  }

  /** A chain of pointers leads from what the scope binds or guards to `x`. */
  ghost predicate ScopeLeadsTo(s: Scope, older p: seq<Obj>, x: Obj, heap: set<Obj>)
    reads s`bindings, s`guards, heap`fields
  {
    |p| > 0 && HeldByScope(s, p[0]) && IsChain(p, p[0], x, heap)
  }

  /** In terms of the fields: a chain of pointers leads to `x` from what an active scope binds or guards. */
  lemma RootedByChain(active: seq<Scope>, x: Obj, g: Graph)
    requires IsGraph(g) && Closed(g) && RootsIn(active, g.Keys)
    ensures Rooted(active, x, g) <==> exists s, p :: s in active && ScopeLeadsTo(s, p, x, g.Keys)
  {
    hide IsGraph;
    hide Closed;
    if s :| s in active && ScopeReaches(s, x, g) {
      var r := HeldThere(s, x, g);
      ReachesByChain(r, x, g);
      var p :| IsChain(p, r, x, g.Keys);
      assert ScopeLeadsTo(s, p, x, g.Keys);
    }
    if s, p :| s in active && ScopeLeadsTo(s, p, x, g.Keys) {
      ReachesByChain(p[0], x, g);
      ReachedThence(s, p[0], x, g);
    }
  }

  lemma HeldThere(s: Scope, x: Obj, g: Graph) returns (r: Obj)
    requires ScopeReaches(s, x, g)
    ensures HeldByScope(s, r) && Reaches(r, x, g)
  {
    hide Reaches;
    ReachesSelf(x, g);
    if EntriesReach(s.bindings, x, g) {
      var b :| b in s.bindings && EntryReaches(b, x, g);
      r := if b.0 == x then x else b.1.o;
    } else {
      var v :| v in s.guards && v.Ptr? && Reaches(v.o, x, g);
      r := v.o;
    }
  }

  lemma ReachedThence(s: Scope, r: Obj, x: Obj, g: Graph)
    requires Closed(g) && EntriesIn(s.bindings, g.Keys) && HeldByScope(s, r) && Reaches(r, x, g)
    ensures ScopeReaches(s, x, g)
  {
    hide Reaches;
    if b :| b in s.bindings && b.0 == r {
      SymbolReachesItself(r, x, g);
      assert EntryReaches(b, x, g);
    } else if b :| b in s.bindings && b.1 == Ptr(r) {
      assert EntryReaches(b, x, g);
    }
  }

  lemma SymbolReachesItself(o: Obj, x: Obj, g: Graph)
    requires Closed(g) && o in g && o.payload.Symbol? && Reaches(o, x, g)
    ensures x == o
  {
    hide Reaches;
    ReachesStep(o, x, g);
  }

  lemma RootedEdge(active: seq<Scope>, x: Obj, y: Obj, g: Graph)
    requires Closed(g) && RootsIn(active, g.Keys) && Rooted(active, x, g) && x in g && y in g[x]
    ensures Rooted(active, y, g)
  {
    hide Reaches;
    ReachesOne(x, y, g);
    var s :| s in active && ScopeReaches(s, x, g);
    if EntriesReach(s.bindings, x, g) {
      var b :| b in s.bindings && EntryReaches(b, x, g);
      assert x != b.0;
      ReachesTrans(b.1.o, x, y, g);
      assert EntryReaches(b, y, g);
    } else {
      var v :| v in s.guards && v.Ptr? && Reaches(v.o, x, g);
      ReachesTrans(v.o, x, y, g);
    }
    assert ScopeReaches(s, y, g);
  }

  // ----- when marking ends -----

  ghost predicate ValueEnds(v: Value, g: Graph) { v.Ptr? ==> !ReachesCycle(v.o, g) }

  ghost predicate ScopeEnds(s: Scope, g: Graph)
    reads s`bindings, s`guards
  {
    (forall b :: b in s.bindings ==> ValueEnds(b.1, g)) && forall v :: v in s.guards ==> ValueEnds(v, g)
  }

  /** Nothing that a scope binds or guards leads to a cycle; garbage may. */
  ghost predicate RootsEnd(active: seq<Scope>, g: Graph)
    reads active`bindings, active`guards
  {
    forall s :: s in active ==> ScopeEnds(s, g)
  }

  /** The part of a graph that is in `K` */
  ghost function Within(g: Graph, K: set<Obj>): Graph { map a | a in g && a in K :: g[a] }

  /** A part of the heap that holds all that is rooted, and with any other object all that it refers to, is closed. */
  lemma KeptIsClosed(active: seq<Scope>, g: Graph, K: set<Obj>)
    requires Closed(g) && RootsIn(active, g.Keys) && K <= g.Keys
    requires forall o :: o in g && Rooted(active, o, g) ==> o in K
    requires forall o :: o in K ==> Rooted(active, o, g) || g[o] <= K
    ensures Within(g, K).Keys == K && Closed(Within(g, K)) && RootsIn(active, K)
  {
    hide Reaches;
    forall a | a in K ensures g[a] <= K {
      forall b | b in g[a] ensures b in K {
        if Rooted(active, a, g) { RootedEdge(active, a, b, g); }
      }
    }
    forall s | s in active ensures EntriesIn(s.bindings, K) && ValuesIn(s.guards, K) {
      forall b | b in s.bindings ensures b.0 in K && (b.1.Ptr? ==> b.1.o in K) {
        assert EntryReaches(b, b.0, g) && ScopeReaches(s, b.0, g);
        if b.1.Ptr? {
          ReachesSelf(b.1.o, g);
          assert EntryReaches(b, b.1.o, g) && ScopeReaches(s, b.1.o, g);
        }
      }
      forall v | v in s.guards && v.Ptr? ensures v.o in K {
        ReachesSelf(v.o, g);
        assert ScopeReaches(s, v.o, g);
      }
    }
  }

  lemma GraphWithin(g: Graph, K: set<Obj>)
    requires IsGraph(g)
    ensures IsGraph(Within(g, K))
  {
  }

  lemma GraphChanges(g: Graph, o: Obj)
    requires Closed(g) && o in g && Edges(o) <= g.Keys && forall a :: a in g && a != o ==> IsNode(g, a)
    requires FieldsFit(o.payload, |o.fields|)
    requires (o.payload.Proc? ==> o.payload.name in Edges(o) && o.payload.name.payload.Symbol?) && !o.payload.Symbol?
    ensures var g' := g[o := Edges(o)]; Closed(g') && IsGraph(g') && g'.Keys == g.Keys
  {
    var g' := g[o := Edges(o)];
    assert forall a :: a in g' && a != o ==> IsNode(g, a);
  }

  lemma GraphGrows(g: Graph, o: Obj)
    requires Closed(g) && IsGraph(g) && o !in g && Edges(o) <= g.Keys && FieldsFit(o.payload, |o.fields|)
    requires o.payload.Proc? ==> o.payload.name in Edges(o) && o.payload.name.payload.Symbol?
    requires o.payload.Symbol? ==> Edges(o) == {}
    ensures var g' := g[o := Edges(o)]; Closed(g') && IsGraph(g')
  {
    var g' := g[o := Edges(o)];
    assert forall a :: a in g' && a != o ==> IsNode(g, a);
  }

  lemma RootsInFewer(active: seq<Scope>, active': seq<Scope>, S: set<Obj>)
    requires RootsIn(active, S) && forall x :: x in active' ==> x in active
    ensures RootsIn(active', S)
  {
  }

  lemma RootsInMore(active: seq<Scope>, S: set<Obj>, T: set<Obj>)
    requires RootsIn(active, S) && S <= T
    ensures RootsIn(active, T)
  {
  }

  lemma FieldEdges(p: Payload, fields: seq<Value>, i: nat, value: Value)
    requires i < |fields|
    ensures EdgesOf(p, fields[i := value]) <= EdgesOf(p, fields) + if value.Ptr? then {value.o} else {}
    ensures p.Proc? ==> p.name in EdgesOf(p, fields[i := value])
  {
    var vs, vs' := Traced(p, fields), Traced(p, fields[i := value]);
    forall v | v in vs' ensures v in vs || v == value {
    }
  }

  class Heap {
    const envs: ScopeList
    const symbols: SymbolTable
    var first: Obj?
    var objects: int
    ghost var list: seq<Obj>
    /** References held by C code: environments that are being executed in. */
    ghost var handles: multiset<Scope>
    ghost var leaked: multiset<Scope>
    /** What the objects in the list refer to */
    ghost var graph: Graph

    constructor ()
      ensures fresh(envs) && fresh(symbols) && fresh(symbols.buckets)
      ensures envs.active == [] && list == [] && symbols.Interned() == {} && handles == leaked == multiset{}
      ensures Valid()
    {
      envs := new ScopeList();
      symbols := new SymbolTable();
      first, objects, list, handles, leaked, graph := null, 0, [], multiset{}, multiset{}, map[];
    }

    ghost predicate ListOk()
      reads this`list, this`first, this`objects, list`link
    {
      Chained(list) && first == First(list) && objects == |list|
    }

    ghost function Holders(): multiset<Scope>
      reads this`list, this`handles, this`leaked
    {
      HeldBy(list) + handles + leaked
    }

    /** NAVI_SLIST_REMOVE_HEAD or NAVI_SLIST_REMOVE_AFTER: `last` is used only when something was kept. */
    method Unlink(obj: Obj, last: Obj?, ghost kept: seq<Obj>, ghost rest: seq<Obj>, ghost objs: set<Obj>)
      requires (forall o :: o in kept ==> o in objs) && Chained(kept + ([obj] + rest))
        && first == First(kept + ([obj] + rest))
      requires kept != [] ==> last == kept[|kept| - 1]
      modifies this`first, objs`link
      ensures Chained(kept + rest) && first == First(kept + rest)
    {
      ghost var before, after, k := kept + ([obj] + rest), kept + rest, |kept|;
      Skip(kept, obj, rest);
      assert first == before[0] && (obj == first ==> k == 0);
      assert before[k].link == From(before, k + 1);
      if obj == first {
        first := first.link;
        assert forall j :: 0 <= j < |after| ==> after[j].link == before[j + 1].link;
      } else {
        assert before[k - 1] == last && before[k - 1].link == before[k];
        last.link := last.link.link;
        assert forall j :: 0 <= j < k - 1 ==> after[j].link == before[j].link;
        assert forall j :: k <= j < |after| ==> after[j] != last && after[j].link == before[j + 1].link;
      }
    }

    /** navi_free, for an object that is no longer in the list */
    method NaviFree(obj: Obj, ghost holders: multiset<Scope>, ghost all: set<Scope>)
      requires Counted(envs.active, holders) && Released(obj.payload) <= holders
      requires forall x :: x in envs.active ==> x in all
      modifies this`objects, envs`active, all`refs
      ensures objects == old(objects) - 1
      ensures Counted(envs.active, holders - Released(obj.payload))
      ensures forall x :: x in envs.active ==> x in old(envs.active)
    {
      hide Counted;
      objects := objects - 1;
      var p := obj.payload;
      if p.Thunk? || p.Bounce? {
        EnvUnref(p.lexical, p.dynamic, holders, all);
        assert Released(p) == multiset{p.lexical, p.dynamic};
      } else if p.Proc? && p.kind == Procedure {
        envs.ScopeUnref(p.env, holders, all);
        assert Released(p) == multiset{p.env};
      } else {
        assert holders - Released(p) == holders;
      }
    }

    /** navi_env_unref */
    method EnvUnref(lexical: Scope, dynamic: Scope, ghost holders: multiset<Scope>, ghost all: set<Scope>)
      requires Counted(envs.active, holders) && multiset{lexical, dynamic} <= holders
      requires forall x :: x in envs.active ==> x in all
      modifies envs`active, all`refs
      ensures Counted(envs.active, holders - multiset{lexical, dynamic})
      ensures forall x :: x in envs.active ==> x in old(envs.active)
    {
      hide Counted;
      MinusTwo(holders, lexical, dynamic);
      envs.ScopeUnref(lexical, holders, all);
      envs.ScopeUnref(dynamic, holders - multiset{lexical}, all);
    }

    /** The sweep is at `obj`, and `last` is the last object it has kept, if any. */
    ghost predicate Cursor(obj: Obj, last: Obj?, kept: seq<Obj>, rest: seq<Obj>)
      reads this`list
    {
      list == kept + ([obj] + rest) && (kept != [] ==> last == kept[|kept| - 1])
    }

    /** Removes an object from the heap list; the references it will not release leak. */
    method DropFromList(obj: Obj, last: Obj?, ghost kept: seq<Obj>, ghost rest: seq<Obj>, ghost objs: set<Obj>)
      requires forall o :: o in kept ==> o in objs
      requires ListOk() && Cursor(obj, last, kept, rest)
      modifies this`first, this`list, this`leaked, objs`link
      ensures Chained(list) && first == First(list) && list == kept + rest && objects == |list| + 1
      ensures Released(obj.payload) <= old(Holders()) && Holders() == old(Holders()) - Released(obj.payload)
      ensures leaked == old(leaked) + Unreleased(obj.payload)
    {
      hide HeldBy;
      hide Held;
      hide Released;
      hide Chained;
      ghost var p := obj.payload;
      HeldByMiddle(kept, obj, rest);
      FreedHolders(Holders(), HeldBy(kept + rest) + handles + leaked, Held(p), Released(p));
      OneShorter(kept, obj, rest);
      Unlink(obj, last, kept, rest, objs);
      list := kept + rest;
      leaked := leaked + Unreleased(p);
    }

    /** Removes an object from the heap list and frees it. */
    method Drop(obj: Obj, last: Obj?, ghost kept: seq<Obj>, ghost rest: seq<Obj>, ghost objs: set<Obj>,
          ghost all: set<Scope>)
      requires forall o :: o in kept ==> o in objs
      requires ListOk() && Cursor(obj, last, kept, rest)
      requires Counted(envs.active, Holders()) && forall x :: x in envs.active ==> x in all
      modifies this`first, this`objects, this`list, this`leaked, objs`link, envs`active, all`refs
      ensures ListOk() && list == kept + rest
      ensures Counted(envs.active, Holders()) && forall x :: x in envs.active ==> x in old(envs.active)
      ensures leaked == old(leaked) + Unreleased(obj.payload)
    {
      hide Counted;
      hide HeldBy;
      hide Held;
      hide Released;
      hide Unreleased;
      hide Chained;
      hide Cursor;
      ghost var holders := Holders();
      DropFromList(obj, last, kept, rest, objs);
      ghost var same := Counted(envs.active, holders);
      assert same;
      NaviFree(obj, holders, all);
      same := Chained(list);
      assert same;
    }

    /** The objects that the next sweep spares. */
    ghost function Spared(): set<Obj>
      reads this`list, list`mark, list`protect
    {
      set o | o in list && (o.mark || o.protect || o.payload.Symbol?)
    }

    /** One turn of the loop of gc_sweep. */
    method SweepOne(obj: Obj, last: Obj?, ghost kept: seq<Obj>, ghost rest: seq<Obj>, ghost objs: set<Obj>,
          ghost all: set<Scope>)
      returns (last': Obj?)
      requires ListOk() && Cursor(obj, last, kept, rest)
      requires forall o :: o in kept ==> o in objs
      requires Counted(envs.active, Holders()) && forall x :: x in envs.active ==> x in all
      modifies obj`mark, this`first, this`objects, this`list, this`leaked, objs`link, envs`active, all`refs
      ensures var spared := old(obj.mark) || obj.protect || obj.payload.Symbol?;
        var kept' := if spared then kept + [obj] else kept;
        && ListOk() && list == kept' + rest && (kept' != [] ==> last' == kept'[|kept'| - 1])
        && leaked == old(leaked) + if spared then multiset{} else Unreleased(obj.payload)
      ensures !obj.mark
      ensures Counted(envs.active, Holders()) && forall x :: x in envs.active ==> x in old(envs.active)
    {
      hide Counted;
      hide HeldBy;
      hide Held;
      hide Released;
      hide Unreleased;
      hide Chained;
      last' := obj;
      assert kept + ([obj] + rest) == (kept + [obj]) + rest;
      if obj.mark {
        obj.mark := false;
      } else if obj.protect {
      } else if obj.payload.Symbol? {
      } else {
        last' := last;
        Drop(obj, last, kept, rest, objs, all);
      }
    }

    /** What the loop of gc_sweep keeps: `done` has been gone through and `rest` is to come. */
    ghost predicate Sweeping(l0: seq<Obj>, done: seq<Obj>, kept: seq<Obj>, rest: seq<Obj>, keep: set<Obj>,
                             leak: multiset<Scope>, obj: Obj?, last: Obj?)
      reads this`list, this`first, this`objects, list`link, kept`mark, rest`mark, rest`protect
    {
      && SweepAt(l0, done, kept, rest, keep, leak) && list == kept + rest && ListOk()
      && obj == First(rest) && (kept != [] ==> last == kept[|kept| - 1])
      && (forall o :: o in kept ==> o in done && !o.mark)
      && (forall o :: o in rest ==> (o in keep <==> o.mark || o.protect || o.payload.Symbol?))
    }

    method SweepTurn(obj: Obj, last: Obj?, ghost l0: seq<Obj>, ghost done: seq<Obj>, ghost kept: seq<Obj>,
                     ghost rest: seq<Obj>, ghost keep: set<Obj>, ghost leak: multiset<Scope>,
                     ghost objs: set<Obj>, ghost all: set<Scope>)
      returns (obj': Obj?, last': Obj?, ghost done': seq<Obj>, ghost kept': seq<Obj>, ghost rest': seq<Obj>,
               ghost lost: multiset<Scope>)
      requires Sweeping(l0, done, kept, rest, keep, leak, obj, last) && forall o :: o in l0 ==> o in objs
      requires Counted(envs.active, Holders()) && forall x :: x in envs.active ==> x in all
      modifies this`first, this`objects, this`list, this`leaked, objs`mark, objs`link, envs`active, all`refs
      ensures Sweeping(l0, done', kept', rest', keep, leak + lost, obj', last') && |rest'| < |rest|
      ensures Counted(envs.active, Holders()) && forall x :: x in envs.active ==> x in old(envs.active)
      ensures leaked == old(leaked) + lost
    {
      hide Counted;
      hide HeldBy;
      hide Filter;
      hide LeakedBy;
      hide Held;
      hide Released;
      hide Unreleased;
      hide Chained;
      SweepStep(l0, done, kept, rest, keep, leak);
      ChainedAt(kept, obj, rest[1..]);
      obj' := obj.link;
      last' := SweepOne(obj, last, kept, rest[1..], objs, all);
      done', kept', rest' := done + [obj], if obj in keep then kept + [obj] else kept, rest[1..];
      lost := Lost(obj, keep);
    }

    /** gc_sweep */
    method GcSweep(ghost objs: set<Obj>, ghost all: set<Scope>)
      requires ListOk() && Counted(envs.active, Holders()) && forall x :: x in envs.active ==> x in all
      requires forall o :: o in list ==> o in objs
      modifies this`first, this`objects, this`list, this`leaked, objs`mark, objs`link, envs`active, all`refs
      ensures ListOk() && list == Filter(old(list), old(Spared()))
      ensures forall o :: o in list ==> !o.mark
      ensures Counted(envs.active, Holders()) && forall x :: x in envs.active ==> x in old(envs.active)
      ensures leaked == old(leaked) + LeakedBy(old(list), old(Spared()))
    {
      hide Counted;
      hide HeldBy;
      hide Filter;
      hide LeakedBy;
      hide Held;
      hide Released;
      hide Chained;
      ghost var l0, keep := list, Spared();
      ghost var done: seq<Obj>, kept: seq<Obj>, rest: seq<Obj>, leak: multiset<Scope> := [], [], list, multiset{};
      var last, obj := first, first;
      SweepStart(l0, keep);
      while obj != null
        invariant Sweeping(l0, done, kept, rest, keep, leak, obj, last)
        invariant Counted(envs.active, Holders()) && forall x :: x in envs.active ==> x in old(envs.active)
        invariant leaked == old(leaked) + leak
        decreases |rest|
      {
        ghost var lost: multiset<Scope>;
        obj, last, done, kept, rest, lost := SweepTurn(obj, last, l0, done, kept, rest, keep, leak, objs, all);
        leak := leak + lost;
      }
      assert done + rest == done && kept + rest == kept;
    }

    // ----- the roots -----

    method MarkValue(v: Value, ghost g: Graph)
      requires IsGraph(g) && Closed(g) && (v.Ptr? ==> v.o in g) && ValueEnds(v, g)
      modifies g.Keys`mark
      ensures forall x :: x in g ==> (x.mark <==> old(x.mark) || (v.Ptr? && Reaches(v.o, x, g)))
    {
      if v.Ptr? { MarkingEnds(v.o, g); }
      GcMarkObj(v, g, |g|);
    }

    /** gc_mark_env */
    method GcMarkEnv(s: Scope, ghost g: Graph)
      requires IsGraph(g) && Closed(g) && EntriesIn(s.bindings, g.Keys) && ValuesIn(s.guards, g.Keys) && ScopeEnds(s, g)
      modifies g.Keys`mark
      ensures forall x :: x in g ==> (x.mark <==> old(x.mark) || ScopeReaches(s, x, g))
    {
      hide Reaches;
      hide Closed;
      hide IsGraph;
      hide ValueEnds;
      var bs := s.bindings;
      for i := 0 to |bs|
        invariant forall x :: x in g ==> (x.mark <==> old(x.mark) || EntriesReach(bs[..i], x, g))
      {
        assert bs[..i + 1] == bs[..i] + [bs[i]] && bs[i] in bs;
        EntriesReachAppend(bs[..i], bs[i], g);
        GcSetMark(bs[i].0);
        MarkValue(bs[i].1, g);
      }
      assert bs[..|bs|] == bs;
      var gs := s.guards;
      for i := 0 to |gs|
        invariant forall x :: x in g ==>
          (x.mark <==> old(x.mark) || EntriesReach(bs, x, g) || ReachesAny(gs[..i], x, g))
      {
        assert gs[..i + 1] == gs[..i] + [gs[i]];
        MarkValue(gs[i], g);
      }
      assert gs[..|gs|] == gs;
    }

    /** gc_mark: exactly what an active scope reaches is marked. */
    method GcMark(ghost g: Graph)
      requires IsGraph(g) && Closed(g) && RootsIn(envs.active, g.Keys) && RootsEnd(envs.active, g)
      modifies g.Keys`mark
      ensures forall x :: x in g ==> (x.mark <==> old(x.mark) || Rooted(envs.active, x, g))
    {
      hide Closed;
      hide IsGraph;
      hide ScopeEnds;
      hide ScopeReaches;
      var active := envs.active;
      for i := 0 to |active|
        invariant forall x :: x in g ==> (x.mark <==> old(x.mark) || Rooted(active[..i], x, g))
      {
        assert active[..i + 1] == active[..i] + [active[i]];
        GcMarkEnv(active[i], g);
      }
      assert active[..|active|] == active;
    }

    // ----- collections -----

    ghost function Objects(): set<Obj>
      reads this`list
    {
      set o | o in list
    }

    ghost function Active(): set<Scope>
      reads envs`active
    {
      set s | s in envs.active
    }

    /** Between collections no mark is set. */
    ghost predicate Calm()
      reads this`list, list`mark
    {
      forall o :: o in list ==> !o.mark
    }

    /** The references are those of the graph, and none leads out of the heap. */
    ghost predicate Traceable()
      reads this`list, this`graph, graph.Keys`fields
    {
      graph.Keys == Objects() && IsGraph(graph) && Closed(graph)
    }

    /** The objects, apart from scopes: what is interned is in the list. */
    ghost predicate ObjectsOk()
      reads this`list, this`first, this`objects, this`graph
      reads list`link, list`mark, graph.Keys`fields, symbols.buckets
    {
      ListOk() && Traceable() && Calm() && symbols.Valid() && symbols.Interned() <= Objects()
    }

    ghost predicate AllButCounts(active: seq<Scope>)
      reads this`list, this`first, this`objects, this`graph
      reads list`link, list`mark, graph.Keys`fields, symbols.buckets, active`bindings, active`guards
    {
      ObjectsOk() && RootsIn(active, Objects())
    }

    /** Every scope counts what holds it, and what scopes bind and guard is in the list. */
    ghost predicate Valid()
      reads this, envs`active, list`link, list`mark, graph.Keys`fields
      reads envs.active`refs, envs.active`bindings, envs.active`guards, symbols.buckets
    {
      AllButCounts(envs.active) && Counted(envs.active, Holders())
    }

    /** What a collection must keep. */
    ghost function Needed(): set<Obj>
      reads this, envs`active, list`protect, envs.active`bindings, envs.active`guards
    {
      set o | o in list && (Rooted(envs.active, o, graph) || o.protect || o.payload.Symbol?)
    }

    /** What a collection must keep, in terms of the fields of objects and of what scopes bind and guard */
    lemma NeededByChain(x: Obj)
      requires Valid() && x in list
      ensures x in Needed() <==>
        x.protect || x.payload.Symbol? || exists s, p :: s in envs.active && ScopeLeadsTo(s, p, x, Objects())
    {
      hide Counted;
      hide ListOk;
      RootedByChain(envs.active, x, graph);
    }

    /** A scope binds or guards the object, or binds it as a symbol. */
    ghost predicate InScope(o: Obj)
      reads envs`active, envs.active`bindings, envs.active`guards
    {
      exists s :: s in envs.active && HeldByScope(s, o)
    }

    ghost predicate IsRooted(o: Obj)
      reads this`graph, envs`active, envs.active`bindings, envs.active`guards
    {
      Rooted(envs.active, o, graph)
    }

    /** What is in a scope is rooted, and so is what a field of a rooted object points to, or its name. */
    lemma RootsSurvive()
      requires Valid()
      ensures forall o :: o in list && InScope(o) ==> IsRooted(o)
      ensures forall a, b :: a in list && b in list && IsRooted(a) && (PointsTo(a, b) || IsNamed(a, b)) ==> IsRooted(b)
    {
      hide Counted;
      hide ListOk;
      hide Rooted;
      hide PointsTo;
      hide HeldByScope;
      forall o | o in list && InScope(o) ensures IsRooted(o) {
        var s :| s in envs.active && HeldByScope(s, o);
        ReachesSelf(o, graph);
        ScopeRoots(s, o);
      }
      forall a, b | a in list && b in list && IsRooted(a) && (PointsTo(a, b) || IsNamed(a, b)) ensures IsRooted(b) {
        EdgesAreFields(graph, a, b);
        RootedEdge(envs.active, a, b, graph);
      }
    }

    lemma ScopeRoots(s: Scope, o: Obj)
      requires Traceable() && RootsIn(envs.active, Objects()) && s in envs.active && HeldByScope(s, o)
      requires Reaches(o, o, graph)
      ensures IsRooted(o)
    {
      ReachedThence(s, o, o, graph);
    }

    /** What a protected object refers to is kept for another reason; it is not traced. */
    ghost predicate Shielded()
      requires Traceable()
      reads this, envs`active, list`protect, envs.active`bindings, envs.active`guards, graph.Keys`fields
    {
      forall o :: o in list && o.protect ==> graph[o] <= Needed()
    }

    /** What a collection keeps refers to nothing that it frees exactly when protected objects are shielded. */
    lemma NeededIsClosed()
      requires Valid()
      ensures Within(graph, Needed()).Keys == Needed() && RootsIn(envs.active, Needed())
      ensures Closed(Within(graph, Needed())) <==> Shielded()
    {
      hide Counted;
      hide Chained;
      hide Reaches;
      hide Rooted;
      ghost var needed := Needed();
      if Shielded() {
        assert forall o :: o in needed ==> Rooted(envs.active, o, graph) || graph[o] <= needed;
        KeptIsClosed(envs.active, graph, needed);
      } else {
        RootsNeeded();
      }
      assert forall o :: o in list && o.protect ==> o in Within(graph, needed);
    }

    lemma RootsNeeded()
      requires Valid()
      ensures RootsIn(envs.active, Needed())
    {
      hide Counted;
      hide Chained;
      hide Reaches;
      ghost var g, K := graph, Needed();
      forall s | s in envs.active ensures EntriesIn(s.bindings, K) && ValuesIn(s.guards, K) {
        forall b | b in s.bindings ensures b.0 in K && (b.1.Ptr? ==> b.1.o in K) {
          assert EntryReaches(b, b.0, g) && ScopeReaches(s, b.0, g);
          if b.1.Ptr? {
            ReachesSelf(b.1.o, g);
            assert EntryReaches(b, b.1.o, g) && ScopeReaches(s, b.1.o, g);
          }
        }
        forall v | v in s.guards && v.Ptr? ensures v.o in K {
          ReachesSelf(v.o, g);
          assert ScopeReaches(s, v.o, g);
        }
      }
    }

    /** The marking half: what is spared is what is needed, and that is closed under tracing. */
    method MarkNeeded()
      requires Valid() && Shielded() && RootsEnd(envs.active, graph)
      modifies graph.Keys`mark
      ensures Spared() == old(Needed()) && Within(graph, old(Needed())).Keys == old(Needed())
      ensures Closed(Within(graph, old(Needed()))) && RootsIn(envs.active, old(Needed()))
    {
      hide Counted;
      hide Chained;
      hide Closed;
      hide IsGraph;
      hide RootsIn;
      hide Rooted;
      NeededIsClosed();
      GcMark(graph);
    }

    /** The interned symbols are needed. */
    lemma SymbolsNeeded()
      requires Valid()
      ensures symbols.Interned() <= Needed()
    {
      forall o | o in symbols.Interned() ensures o in Needed() {
        symbols.InternedAreUnique(o, o);
      }
    }

    /** After marking: what the sweep will spare is closed, and holds the roots and the interned symbols. */
    ghost predicate Marked(needed: set<Obj>)
      reads this, envs`active, list`link, list`mark, list`protect, graph.Keys`fields
      reads envs.active`refs, envs.active`bindings, envs.active`guards, symbols.buckets
    {
      && ListOk() && Counted(envs.active, Holders()) && IsGraph(graph) && Spared() == needed
      && Within(graph, needed).Keys == needed && Closed(Within(graph, needed))
      && RootsIn(envs.active, needed) && symbols.Valid() && symbols.Interned() <= needed
    }

    /** The sweeping half */
    method SweepRest(ghost needed: set<Obj>, ghost objs: set<Obj>, ghost all: set<Scope>)
      requires Marked(needed) && (forall o :: o in list ==> o in objs) && forall x :: x in envs.active ==> x in all
      modifies this`first, this`objects, this`list, this`leaked, this`graph
      modifies objs`mark, objs`link, envs`active, all`refs
      ensures Valid() && list == Filter(old(list), needed) && leaked == old(leaked) + LeakedBy(old(list), needed)
      ensures forall s :: s in envs.active ==> s in old(envs.active)
    {
      hide Counted;
      hide Holders;
      hide Filter;
      hide LeakedBy;
      hide Chained;
      hide Closed;
      hide IsGraph;
      hide RootsIn;
      hide SymbolTable.Valid;
      hide SymbolTable.Interned;
      ghost var l0, active := list, envs.active;
      GcSweep(objs, all);
      Prune(l0, needed);
      RootsInFewer(active, envs.active, needed);
    }

    /** The graph after a sweep that has kept `needed` of `l0` */
    ghost method Prune(l0: seq<Obj>, needed: set<Obj>)
      requires list == Filter(l0, needed) && forall o :: o in needed ==> o in l0
      requires IsGraph(graph) && Within(graph, needed).Keys == needed && Closed(Within(graph, needed))
      modifies this`graph
      ensures Objects() == needed && Traceable()
    {
      hide Closed;
      hide IsGraph;
      hide Filter;
      GraphWithin(graph, needed);
      ObjectsAre(l0, needed);
      graph := Within(graph, needed);
    }

    lemma ObjectsAre(l0: seq<Obj>, needed: set<Obj>)
      requires list == Filter(l0, needed) && forall o :: o in needed ==> o in l0
      ensures Objects() == needed
    {
      FilterKeeps(l0, needed);
    }

    /**
     * do_gc_collect: it keeps what is rooted, protected or a symbol, in order, and everything stays consistent. It ends
     * if no root leads to a cycle, and leaves no reference to a freed object if protected objects are shielded.
     */
    method GcCollect()
      requires Valid() && Shielded() && RootsEnd(envs.active, graph)
      modifies this`first, this`objects, this`list, this`leaked, this`graph
      modifies Objects()`mark, Objects()`link, envs`active, Active()`refs
      ensures Valid() && list == Filter(old(list), old(Needed()))
      ensures forall s :: s in envs.active ==> s in old(envs.active)
      ensures forall o :: o in old(list) && old(InScope(o)) ==> o in list
      ensures forall a, b :: a in old(list) && b in old(list) && old(IsRooted(a)) && old(PointsTo(a, b)) ==> b in list
      ensures leaked == old(leaked) + LeakedBy(old(list), old(Needed()))
      ensures symbols.Interned() == old(symbols.Interned())
    {
      RootsSurvive();
      hide InScope;
      hide PointsTo;
      hide Counted;
      hide Filter;
      hide LeakedBy;
      hide Chained;
      hide Closed;
      hide IsGraph;
      hide RootsIn;
      hide RootsEnd;
      hide Rooted;
      ghost var needed := Needed();
      SymbolsNeeded();
      MarkNeeded();
      SweepRest(needed, Objects(), Active());
      FilterKeeps(old(list), needed);
    }

    // ----- what the rest of the interpreter does between collections -----

    /** What an object may be made of: registered objects and active scopes. */
    ghost predicate Fits(p: Payload, fields: seq<Value>)
      reads this`list, envs`active
    {
      && FieldsFit(p, |fields|) && ValuesIn(fields, Objects())
      && (p.Proc? ==> p.name in list && p.name.payload.Symbol?)
      && forall s :: s in Held(p) ==> s in envs.active
    }

    /** register_object */
    method RegisterObject(o: Obj)
      requires ListOk() && o !in list
      modifies this`first, this`objects, this`list, o`link
      ensures ListOk() && list == [o] + old(list)
    {
      hide Chained;
      ghost var l0 := list;
      o.link := first;
      first := o;
      objects := objects + 1;
      list := [o] + list;
      ChainedCons(l0, o);
    }

    /** navi_env_ref, as the constructors of objects call it. */
    method Hold(p: Payload, ghost holders: multiset<Scope>)
      requires Counted(envs.active, holders) && forall s :: s in Held(p) ==> s in envs.active
      modifies envs.active`refs
      ensures Counted(envs.active, holders + Held(p))
    {
      hide Counted;
      if p.Thunk? || p.Bounce? {
        EnvRef(p.lexical, p.dynamic, holders);
      } else if p.Proc? {
        assert p.env in Held(p);
        envs.ScopeRef(p.env, holders);
      } else {
        assert holders + Held(p) == holders;
      }
    }

    /** navi_env_ref */
    method EnvRef(lexical: Scope, dynamic: Scope, ghost holders: multiset<Scope>)
      requires Counted(envs.active, holders) && lexical in envs.active && dynamic in envs.active
      modifies envs.active`refs
      ensures Counted(envs.active, holders + multiset{lexical, dynamic})
    {
      hide Counted;
      envs.ScopeRef(lexical, holders);
      envs.ScopeRef(dynamic, holders + multiset{lexical});
      assert holders + multiset{lexical} + multiset{dynamic} == holders + multiset{lexical, dynamic};
    }

    /** The graph with an object that has just been registered in front of `l0` */
    ghost method Trace(o: Obj, l0: seq<Obj>)
      requires list == [o] + l0 && o !in l0 && (forall a :: a in graph <==> a in l0)
      requires IsGraph(graph) && Closed(graph) && Edges(o) <= graph.Keys && FieldsFit(o.payload, |o.fields|)
      requires o.payload.Proc? ==> o.payload.name in Edges(o) && o.payload.name.payload.Symbol?
      requires o.payload.Symbol? ==> Edges(o) == {}
      modifies this`graph
      ensures graph == old(graph)[o := Edges(o)]
      ensures Traceable()
    {
      hide Closed;
      hide IsGraph;
      hide Edges;
      GraphGrows(graph, o);
      graph := graph[o := Edges(o)];
    }

    /** make_object and slab_make_object */
    method MakeObject(p: Payload, fields: seq<Value>) returns (o: Obj)
      requires ObjectsOk() && Fits(p, fields)
      modifies this`first, this`objects, this`list, this`graph
      ensures fresh(o) && o.payload == p && o.fields == fields && !o.mark && !o.protect && list == [o] + old(list)
      ensures graph == old(graph)[o := EdgesOf(p, fields)]
      ensures ObjectsOk()
    {
      hide Chained;
      hide Closed;
      hide IsGraph;
      hide SymbolTable.Valid;
      hide SymbolTable.Interned;
      ghost var l0 := list;
      EdgesFit(p, fields);
      o := new Obj(p, fields);
      RegisterObject(o);
      Trace(o, l0);
    }

    lemma EdgesFit(p: Payload, fields: seq<Value>)
      requires Fits(p, fields)
      ensures EdgesOf(p, fields) <= Objects()
      ensures p.Symbol? ==> EdgesOf(p, fields) == {}
    {
    }

    /** navi_make_thunk, navi_make_bounce, navi_make_procedure, navi_make_pair, ...: a new object holds its scopes. */
    method NewObject(p: Payload, fields: seq<Value>) returns (o: Obj)
      requires Valid() && Fits(p, fields)
      modifies this`first, this`objects, this`list, this`graph, envs.active`refs
      ensures fresh(o) && o.payload == p && o.fields == fields && !o.protect && list == [o] + old(list)
      ensures graph == old(graph)[o := EdgesOf(p, fields)]
      ensures Valid()
    {
      hide ObjectsOk;
      hide Counted;
      hide RootsIn;
      hide Held;
      hide EdgesOf;
      ghost var S, l0, holders, active := Objects(), list, Holders(), envs.active;
      o := MakeObject(p, fields);
      ghost var kept := RootsIn(active, S);
      assert kept;
      RootsInMore(active, S, Objects());
      kept := Counted(active, holders);
      assert kept;
      Hold(p, holders);
      kept := AllButCounts(active);
      assert kept;
      assert list[1..] == l0;
      assert Holders() == holders + Held(p);
    }

    /** set-car!, set-cdr!, vector-set!, and what C code does to an object */
    method SetField(o: Obj, i: nat, value: Value)
      requires Valid() && o in list && !o.payload.Symbol? && i < |o.fields| && (value.Ptr? ==> value.o in list)
      modifies o`fields, this`graph
      ensures o.fields == old(o.fields)[i := value] && graph == old(graph)[o := Edges(o)]
      ensures Valid()
    {
      hide ObjectsOk;
      hide Counted;
      hide HeldBy;
      hide RootsIn;
      hide Edges;
      ChangeField(o, i, value);
    }

    method ChangeField(o: Obj, i: nat, value: Value)
      requires ObjectsOk() && o in list && !o.payload.Symbol? && i < |o.fields| && (value.Ptr? ==> value.o in list)
      modifies o`fields, this`graph
      ensures o.fields == old(o.fields)[i := value] && graph == old(graph)[o := Edges(o)]
      ensures ObjectsOk()
    {
      hide ListOk;
      hide Calm;
      hide SymbolTable.Valid;
      hide SymbolTable.Interned;
      OldField(o, i, value);
      hide IsGraph;
      hide NodesBut;
      o.fields := o.fields[i := value];
      ghost var kept := NodesBut(o);
      assert kept;
      Rewire(o);
      kept := ListOk() && Calm();
      assert kept;
      kept := symbols.Valid();
      assert kept;
    }

    /** All objects but one are as the graph has them. */
    ghost predicate NodesBut(o: Obj)
      reads this`graph, (graph.Keys - {o})`fields
    {
      forall a :: a in graph && a != o ==> IsNode(graph, a)
    }

    lemma OldField(o: Obj, i: nat, value: Value)
      requires Traceable() && o in graph && i < |o.fields| && (value.Ptr? ==> value.o in list)
      ensures FieldsFit(o.payload, |o.fields|) && NodesBut(o)
      ensures EdgesOf(o.payload, o.fields[i := value]) <= graph.Keys
      ensures o.payload.Proc? ==> o.payload.name in EdgesOf(o.payload, o.fields[i := value])
    {
      FieldEdges(o.payload, o.fields, i, value);
      assert IsNode(graph, o);
    }

    /** The graph after the fields of `o` have changed */
    ghost method Rewire(o: Obj)
      requires graph.Keys == Objects() && Closed(graph) && o in graph && Edges(o) <= graph.Keys
      requires FieldsFit(o.payload, |o.fields|) && NodesBut(o)
      requires (o.payload.Proc? ==> o.payload.name in Edges(o) && o.payload.name.payload.Symbol?) && !o.payload.Symbol?
      modifies this`graph
      ensures graph == old(graph)[o := Edges(o)] && Traceable()
    {
      hide Edges;
      GraphChanges(graph, o);
      hide Closed;
      hide IsGraph;
      graph := graph[o := Edges(o)];
    }

    /** navi_make_symbol: the interned symbol of that name, which is made if there is none. */
    method MakeSymbol(str: string) returns (symbol: Obj)
      requires Valid()
      modifies this`first, this`objects, this`list, this`graph, envs.active`refs, symbols.buckets
      ensures Valid() && symbol in symbols.Interned() && Named(symbol, str)
      ensures var known := exists s :: s in old(symbols.Interned()) && Named(s, str);
        && (known ==> list == old(list) && symbols.Interned() == old(symbols.Interned()))
        && (!known ==> fresh(symbol) && list == [symbol] + old(list))
        && (!known ==> symbols.Interned() == old(symbols.Interned()) + {symbol})
    {
      hide Counted;
      hide Chained;
      hide Traceable;
      hide RootsIn;
      hide Calm;
      hide HeldBy;
      hide SymbolHash;
      var hash := SymbolHash(str);
      var found := symbols.SymbolLookup(str, hash);
      if found == null {
        symbol := NewObject(Symbol(str), []);
        symbols.Intern(symbol, str, hash);
        ghost var kept := ListOk() && Traceable() && Calm();
        assert kept;
        kept := Counted(envs.active, Holders()) && RootsIn(envs.active, Objects());
        assert kept;
      } else {
        symbol := found;
      }
    }

    /** navi_gc_protect */
    method Protect(o: Obj)
      requires Valid() && o in list
      modifies o`protect
      ensures Valid() && o.protect
    {
      hide Counted;
      hide Chained;
      hide Closed;
      hide RootsIn;
      o.protect := true;
    }

    /** navi_env_new_scope: the caller holds the new scope and, once more, the dynamic one. */
    method NewScope(lexical: Scope, dynamic: Scope) returns (s: Scope)
      requires Valid() && lexical in envs.active && dynamic in envs.active
      modifies this`handles, envs`active, envs.active`refs
      ensures Valid() && fresh(s) && s.next == lexical && s.bindings == []
      ensures envs.active == [s] + old(envs.active) && handles == old(handles) + multiset{s, dynamic}
    {
      hide ObjectsOk;
      hide RootsIn;
      hide Counted;
      hide HeldBy;
      ghost var holders, active := Holders(), envs.active;
      s := envs.MakeScope(lexical, holders);
      ghost var kept := AllButCounts(active);
      assert kept;
      OneMoreScope(active, s);
      envs.ScopeRef(dynamic, holders + multiset{s});
      kept := AllButCounts(envs.active);
      assert kept;
      handles := handles + multiset{s, dynamic};
      kept := AllButCounts(envs.active);
      assert kept;
      assert Holders() == holders + multiset{s} + multiset{dynamic};
    }

    /** navi_dynamic_env_new_scope: likewise, with the new scope around nothing but the dynamic one. */
    method DynamicNewScope(lexical: Scope, dynamic: Scope) returns (s: Scope)
      requires Valid() && lexical in envs.active && dynamic in envs.active
      modifies this`handles, envs`active, envs.active`refs
      ensures Valid() && fresh(s) && s.next == dynamic && s.bindings == []
      ensures envs.active == [s] + old(envs.active) && handles == old(handles) + multiset{s, lexical}
    {
      s := NewScope(dynamic, lexical);
    }

    /** _navi_empty_environment: one of its two scopes */
    method EmptyScope() returns (s: Scope)
      requires Valid()
      modifies this`handles, envs`active
      ensures Valid() && fresh(s) && s.next == null && s.bindings == []
      ensures envs.active == [s] + old(envs.active) && handles == old(handles) + multiset{s}
    {
      hide ObjectsOk;
      hide Counted;
      hide HeldBy;
      ghost var holders := Holders();
      s := envs.MakeScope(null, holders);
      handles := handles + multiset{s};
      assert Holders() == holders + multiset{s};
    }

    /** navi_env_unref, by C code that has finished executing in an environment */
    method ReleaseEnv(lexical: Scope, dynamic: Scope)
      requires Valid() && multiset{lexical, dynamic} <= handles
      modifies this`handles, envs`active, Active()`refs
      ensures Valid() && handles == old(handles) - multiset{lexical, dynamic}
      ensures forall s :: s in envs.active ==> s in old(envs.active)
    {
      hide Valid;
      ReleaseFrom(lexical, dynamic, Active());
    }

    method ReleaseFrom(lexical: Scope, dynamic: Scope, ghost all: set<Scope>)
      requires Valid() && multiset{lexical, dynamic} <= handles && forall s :: s in envs.active ==> s in all
      modifies this`handles, envs`active, all`refs
      ensures Valid() && handles == old(handles) - multiset{lexical, dynamic}
      ensures forall s :: s in envs.active ==> s in old(envs.active)
    {
      hide Counted;
      hide HeldBy;
      hide ObjectsOk;
      hide RootsIn;
      ghost var holders, active := Holders(), envs.active;
      handles := handles - multiset{lexical, dynamic};
      assert Holders() == holders - multiset{lexical, dynamic};
      ghost var kept := AllButCounts(active);
      assert kept;
      EnvUnref(lexical, dynamic, holders, all);
      kept := AllButCounts(active);
      assert kept;
      FewerScopes(active, envs.active);
    }

    lemma OneMoreScope(active: seq<Scope>, s: Scope)
      requires AllButCounts(active) && s.bindings == [] && s.guards == []
      ensures AllButCounts([s] + active)
    {
    }

    lemma FewerScopes(active: seq<Scope>, active': seq<Scope>)
      requires AllButCounts(active) && forall x :: x in active' ==> x in active
      ensures AllButCounts(active')
    {
    }

    /** navi_scope_set, as far as the collector is concerned */
    method Bind(s: Scope, symbol: Obj, value: Value)
      requires Valid() && s in envs.active
      requires symbol in list && symbol.payload.Symbol? && (value.Ptr? ==> value.o in list)
      modifies s`bindings
      ensures Valid() && (symbol, value) in s.bindings
      ensures forall x: Obj, v :: x != symbol ==> ((x, v) in s.bindings <==> (x, v) in old(s.bindings))
    {
      hide ObjectsOk;
      hide Counted;
      ghost var bs := s.bindings;
      if i :| 0 <= i < |s.bindings| && s.bindings[i].0 == symbol {
        s.bindings := s.bindings[i := (symbol, value)];
        assert s.bindings[i] == (symbol, value);
        forall x: Obj, v | x != symbol ensures (x, v) in s.bindings <==> (x, v) in bs {
          if k :| 0 <= k < |bs| && bs[k] == (x, v) { assert s.bindings[k] == (x, v); }
        }
      } else {
        s.bindings := [(symbol, value)] + s.bindings;
      }
      assert forall b :: b in s.bindings ==> b == (symbol, value) || b in bs;
    }

    /** navi_gc_guard */
    method Guard(s: Scope, value: Value)
      requires Valid() && s in envs.active && (value.Ptr? ==> value.o in list)
      modifies s`guards
      ensures Valid() && s.guards == [value] + old(s.guards)
    {
      hide ObjectsOk;
      hide Counted;
      s.guards := [value] + s.guards;
    }

    /** navi_gc_unguard */
    method Unguard(s: Scope, i: nat)
      requires Valid() && s in envs.active && i < |s.guards|
      modifies s`guards
      ensures Valid() && s.guards == old(s.guards[..i] + s.guards[i + 1..])
    {
      hide ObjectsOk;
      hide Counted;
      s.guards := s.guards[..i] + s.guards[i + 1..];
    }

    /**
     * The two halves of the memory manager agree: the scope an object holds and every scope around it are active,
     * and all that they bind is in the heap list.
     */
    lemma {:induction false} ChainAlive(o: Obj, chain: seq<Scope>)
      requires Valid() && o in list && chain != [] && chain[0] in Held(o.payload)
      requires forall i :: 0 <= i < |chain| - 1 ==> chain[i].next == chain[i + 1]
      ensures forall i :: 0 <= i < |chain| ==> chain[i] in envs.active && chain[i].refs > 0
      ensures forall i, b :: 0 <= i < |chain| && b in chain[i].bindings ==> b.0 in list && (b.1.Ptr? ==> b.1.o in list)
    {
      hide Chained;
      hide Closed;
      hide Held;
      hide HeldBy;
      hide NextsOf;
      HeldInAll(list, o, chain[0]);
      for n := 0 to |chain|
        invariant n < |chain| ==> chain[n] in envs.active
        invariant forall i :: 0 <= i < n ==> chain[i] in envs.active
      {
        if n + 1 < |chain| {
          assert chain[n].next == chain[n + 1];
          NextInAll(envs.active, chain[n]);
        }
      }
    }

    /** The scopes that a listed thunk, bounce or procedure refers to are active, and counted once for each of them. */
    lemma ScopesAlive(o: Obj)
      requires Valid() && o in list
      ensures o.payload.Thunk? || o.payload.Bounce? ==>
        && o.payload.lexical in envs.active && o.payload.dynamic in envs.active
        && o.payload.lexical.refs >= (if o.payload.lexical == o.payload.dynamic then 2 else 1)
        && o.payload.dynamic.refs >= 1
      ensures o.payload.Proc? ==> o.payload.env in envs.active && o.payload.env.refs >= 1
    {
      hide ObjectsOk;
      hide RootsIn;
      hide HeldBy;
      hide NextsOf;
      if o.payload.Proc? {
        HeldAsOften(list, o, o.payload.env);
      } else if o.payload.Thunk? || o.payload.Bounce? {
        HeldAsOften(list, o, o.payload.lexical);
        HeldAsOften(list, o, o.payload.dynamic);
      }
    }

    /** No reference is lost: what a scope counts is what holds it, and what nothing holds is gone. */
    lemma CountIsHolders(s: Scope)
      requires Valid()
      ensures s in envs.active ==> s.refs == (NextsOf(envs.active) + HeldBy(list) + handles + leaked)[s]
      ensures s in envs.active <==> s in NextsOf(envs.active) + HeldBy(list) + handles + leaked
    {
      hide HeldBy;
      assert NextsOf(envs.active) + Holders() == NextsOf(envs.active) + HeldBy(list) + handles + leaked;
    }

    /** Two interned symbols are the same object exactly when their names are equal, and none of them is ever swept. */
    lemma SymbolsAreUnique(a: Obj, b: Obj)
      requires Valid() && a in symbols.Interned() && b in symbols.Interned()
      ensures a.payload.Symbol? && b.payload.Symbol? && (a == b <==> a.payload.data == b.payload.data)
      ensures a in Filter(list, Needed()) && b in Filter(list, Needed())
    {
      symbols.InternedAreUnique(a, b);
      SymbolsNeeded();
      FilterKeeps(list, Needed());
    }
  }
}
