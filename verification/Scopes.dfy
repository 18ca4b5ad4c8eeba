/** Reference counts of scopes: internal.h and navi_scope_free. */
module ScopeCounting {
  import opened GcMarking
  import opened Sequences

  /** The scopes on which an object holds a reference. */
  function Held(p: Payload): multiset<Scope> {
    match p
    case Thunk(l, d) => multiset{l, d}
    case Bounce(l, d) => multiset{l, d}
    case Proc(_, _, _, env) => multiset{env}
    case _ => multiset{}
  }

  function HeldBy(list: seq<Obj>): multiset<Scope> {
    if list == [] then multiset{} else Held(list[0].payload) + HeldBy(list[1..])
  }

  function NextOf(s: Scope): multiset<Scope> {
    if s.next == null then multiset{} else multiset{s.next}
  }

  function NextsOf(active: seq<Scope>): multiset<Scope> {
    if active == [] then multiset{} else NextOf(active[0]) + NextsOf(active[1..])
  }

  lemma {:induction false} NextsWithout(active: seq<Scope>, s: Scope)
    requires s in active
    ensures NextsOf(active) == NextOf(s) + NextsOf(Without(active, s))
  {
    if active[0] != s {
      NextsWithout(active[1..], s);
      var rest := Without(active[1..], s);
      assert Without(active, s) == [active[0]] + rest && ([active[0]] + rest)[1..] == rest;
    }
  }

  ghost predicate CountedAs(active: seq<Scope>, total: multiset<Scope>)
    reads active`refs
  {
    && NoDuplicates(active)
    && (forall s :: s in active ==> s.refs > 0 && s.refs == total[s])
    && (forall s :: s in total ==> s in active)
  }

  /** Every active scope counts exactly its holders, and every holder's scope is active. */
  ghost predicate Counted(active: seq<Scope>, holders: multiset<Scope>)
    reads active`refs
  {
    CountedAs(active, NextsOf(active) + holders)
  }

  /** Counted, but for `s`, whose last reference has just been released. */
  ghost predicate CountedBut(active: seq<Scope>, total: multiset<Scope>, s: Scope)
    reads active`refs
  {
    && NoDuplicates(active) && s in active && s !in total
    && (forall x :: x in active && x != s ==> x.refs > 0 && x.refs == total[x])
    && (forall x :: x in total ==> x in active)
  }

  lemma FreedCounted(active: seq<Scope>, holders: multiset<Scope>, s: Scope)
    requires CountedBut(active, NextsOf(active) + holders, s)
    ensures Counted(Without(active, s), holders + NextOf(s)) && |Without(active, s)| < |active|
    ensures forall x :: x in Without(active, s) ==> x in active
  {
    WithoutDistinct(active, s);
    assert CountedAs(Without(active, s), NextsOf(active) + holders);
    NextsWithout(active, s);
    assert NextsOf(Without(active, s)) + (holders + NextOf(s)) == NextsOf(active) + holders;
  }

  lemma AddedCounted(active: seq<Scope>, holders: multiset<Scope>, s: Scope)
    requires Counted(active, holders + NextOf(s)) && s !in active && s.refs == 1
    ensures Counted([s] + active, holders + multiset{s})
  {
    var total := NextsOf(active) + (holders + NextOf(s));
    assert s !in total;
    assert ([s] + active)[1..] == active;
    assert NextsOf([s] + active) + (holders + multiset{s}) == total + multiset{s};
    assert CountedAs([s] + active, total + multiset{s});
  }

  class ScopeList {
    /** active_environments */
    var active: seq<Scope>

    constructor ()
      ensures active == []
    {
      active := [];
    }

    /** _navi_scope_ref: `s` gets one holder more. */
    method ScopeRef(s: Scope, ghost holders: multiset<Scope>)
      requires Counted(active, holders) && s in active
      modifies s`refs
      ensures Counted(active, holders + multiset{s})
    {
      ghost var total := NextsOf(active) + holders;
      assert NextsOf(active) + (holders + multiset{s}) == total + multiset{s};
      s.refs := s.refs + 1;
    }

    /** navi_make_scope with `next` set, as in navi_env_new_scope: the new scope holds `next`, the caller holds it. */
    method MakeScope(next: Scope?, ghost holders: multiset<Scope>) returns (s: Scope)
      requires Counted(active, holders) && (next != null ==> next in active)
      modifies this`active, (if next == null then {} else {next})`refs
      ensures fresh(s) && s.next == next && s.bindings == [] && s.guards == []
      ensures active == [s] + old(active) && Counted(active, holders + multiset{s})
    {
      hide Counted;
      if next != null {
        ScopeRef(next, holders);
      } else {
        assert holders + multiset{} == holders;
      }
      s := new Scope(next);
      AddedCounted(active, holders, s);
      active := [s] + active;
    }

    /** _navi_scope_unref: one holder of `s` is gone. */
    method ScopeUnref(s: Scope, ghost holders: multiset<Scope>, ghost all: set<Scope>)
      requires Counted(active, holders) && s in holders && forall x :: x in active ==> x in all
      modifies this`active, all`refs
      ensures Counted(active, holders - multiset{s})
      ensures forall x :: x in active ==> x in old(active)
      decreases |active|, 1
    {
      ghost var total := NextsOf(active) + holders;
      assert s in total;
      assert NextsOf(active) + (holders - multiset{s}) == total - multiset{s};
      s.refs := s.refs - 1;
      if s.refs == 0 {
        assert CountedBut(active, total - multiset{s}, s);
        ScopeFree(s, holders - multiset{s}, all);
      }
    }

    /** navi_scope_free: the scope leaves the list and its bindings go; then the enclosing scope is released. */
    method ScopeFree(s: Scope, ghost holders: multiset<Scope>, ghost all: set<Scope>)
      requires CountedBut(active, NextsOf(active) + holders, s) && forall x :: x in active ==> x in all
      modifies this`active, all`refs
      ensures Counted(active, holders)
      ensures forall x :: x in active ==> x in old(active)
      decreases |active|, 0
    {
      FreedCounted(active, holders, s);
      active := Without(active, s);
      if s.next != null {
        assert s.next in holders + NextOf(s) && holders + NextOf(s) - multiset{s.next} == holders;
        ScopeUnref(s.next, holders + NextOf(s), all);
      } else {
        assert holders + NextOf(s) == holders;
      }
    }
  }
}
