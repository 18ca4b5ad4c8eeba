/** When marking ends: gc_mark_obj never looks at the mark. */
module Cycles {
  import opened GcMarking

  ghost predicate Ends(o: Obj, g: Graph)
    requires Closed(g) && o in g
  {
    exists d: nat :: EndsWithin(o, g, d)
  }

  /** A path from `x` back to `x` */
  ghost predicate OnCycle(x: Obj, g: Graph) { exists p :: |p| > 1 && IsPath(p, x, x, g) }

  ghost predicate ReachesCycle(o: Obj, g: Graph) {
    exists x :: x in g && Reaches(o, x, g) && OnCycle(x, g)
  }

  // ----- on a cycle it does not end -----

  /** A path takes its length from the bound. */
  lemma {:induction false} EndsAlong(p: seq<Obj>, o: Obj, x: Obj, g: Graph, d: nat)
    requires Closed(g) && o in g && EndsWithin(o, g, d) && IsPath(p, o, x, g)
    ensures x in g && |p| <= d && EndsWithin(x, g, d - |p| + 1)
    decreases |p|
  {
    if |p| > 1 {
      FirstStep(p, o, x, g);
      EndsAlong(p[1..], p[1], x, g, d - 1);
    }
  }

  lemma {:induction false} CycleGoesOn(p: seq<Obj>, x: Obj, g: Graph, d: nat)
    requires Closed(g) && x in g && |p| > 1 && IsPath(p, x, x, g)
    ensures !EndsWithin(x, g, d)
    decreases d
  {
    if EndsWithin(x, g, d) {
      EndsAlong(p, x, x, g, d);
      CycleGoesOn(p, x, g, d - |p| + 1);
    }
  }

  // ----- and without one it does -----

  /** The objects on the way, of which each one leads on to `o`, are different: there is no way back. */
  lemma {:induction false} EndsInTime(o: Obj, r: Obj, g: Graph, seen: set<Obj>)
    requires Closed(g) && o in g && seen <= g.Keys && Reaches(r, o, g) && !ReachesCycle(r, g)
    requires forall s :: s in seen ==> exists c :: c in g[s] && Reaches(c, o, g)
    ensures EndsWithin(o, g, |g.Keys - seen|)
    decreases |g.Keys - seen|
  {
    hide Reaches;
    if o in seen {
      var c :| c in g[o] && Reaches(c, o, g);
      CycleBack(o, c, g);
      assert false;
    }
    var seen' := seen + {o};
    assert g.Keys - seen == (g.Keys - seen') + {o};
    forall c | c in g[o] ensures EndsWithin(c, g, |g.Keys - seen'|) {
      ReachesOne(o, c, g);
      ReachesTrans(r, o, c, g);
      ReachesSelf(c, g);
      forall s | s in seen' ensures exists b :: b in g[s] && Reaches(b, c, g) {
        if s != o {
          var b :| b in g[s] && Reaches(b, o, g);
          ReachesTrans(b, o, c, g);
        }
      }
      EndsInTime(c, r, g, seen');
    }
  }

  lemma CycleBack(o: Obj, c: Obj, g: Graph)
    requires o in g && c in g[o] && Reaches(c, o, g)
    ensures OnCycle(o, g)
  {
    var p :| IsPath(p, c, o, g);
    assert IsPath([o, c], o, c, g);
    PathAppend([o, c], p, o, c, o, g);
  }

  /** Marking ends exactly when it does not come to a cycle. */
  lemma MarkingEnds(o: Obj, g: Graph)
    requires Closed(g) && o in g
    ensures Ends(o, g) <==> !ReachesCycle(o, g)
    ensures !ReachesCycle(o, g) ==> EndsWithin(o, g, |g|)
  {
    if !ReachesCycle(o, g) {
      ReachesSelf(o, g);
      EndsInTime(o, o, g, {});
      assert g.Keys - {} == g.Keys;
    } else if d: nat :| EndsWithin(o, g, d) {
      var x :| x in g && Reaches(o, x, g) && OnCycle(x, g);
      var q :| IsPath(q, o, x, g);
      EndsAlong(q, o, x, g, d);
      var p :| |p| > 1 && IsPath(p, x, x, g);
      CycleGoesOn(p, x, g, d - |q| + 1);
      assert false;
    }
  }

  /** `(set-cdr! p p)`: marking a pair that is its own tail does not end. */
  lemma PairInItself(o: Obj, car: Value, g: Graph)
    requires IsGraph(g) && Closed(g) && o in g && o.payload.Pair? && o.fields == [car, Ptr(o)]
    ensures !Ends(o, g)
  {
    assert o.fields[1] in Traced(o.payload, o.fields);
    ReachesSelf(o, g);
    CycleBack(o, o, g);
    MarkingEnds(o, g);
  }

  // ----- a new reference -----

  ghost function WithEdge(g: Graph, o: Obj, v: Obj): Graph
    requires o in g
  {
    g[o := g[o] + {v}]
  }

  lemma {:induction false} EndsInLess(a: Obj, g: Graph, g': Graph, d: nat)
    requires Closed(g) && Closed(g') && a in g && a in g' && EndsWithin(a, g', d)
    requires forall x :: x in g ==> x in g' && g[x] <= g'[x]
    ensures EndsWithin(a, g, d)
  {
    if d > 0 {
      forall c | c in g[a] ensures EndsWithin(c, g, d - 1) { EndsInLess(c, g, g', d - 1); }
    }
  }

  lemma {:induction false} EndsFarFrom(a: Obj, o: Obj, v: Obj, g: Graph, d: nat)
    requires Closed(g) && o in g && Closed(WithEdge(g, o, v)) && a in g && !Reaches(a, o, g) && EndsWithin(a, g, d)
    ensures EndsWithin(a, WithEdge(g, o, v), d)
  {
    ReachesSelf(a, g);
    forall c | c in g[a] ensures EndsWithin(c, WithEdge(g, o, v), d - 1) {
      if Reaches(c, o, g) {
        ReachesOne(a, c, g);
        ReachesTrans(a, c, o, g);
      }
      EndsFarFrom(c, o, v, g, d - 1);
    }
  }

  lemma {:induction false} EndsLater(a: Obj, g: Graph, d: nat, d': nat)
    requires Closed(g) && a in g && EndsWithin(a, g, d) && d <= d'
    ensures EndsWithin(a, g, d')
  {
    forall c | c in g[a] ensures EndsWithin(c, g, d' - 1) { EndsLater(c, g, d - 1, d' - 1); }
  }

  /** Marking still ends at `o` when it refers to `v` too exactly when it ended at both and `v` does not reach `o`. */
  lemma EdgeEnds(g: Graph, o: Obj, v: Obj)
    requires Closed(g) && o in g && v in g && Closed(WithEdge(g, o, v))
    ensures Ends(o, WithEdge(g, o, v)) <==> Ends(o, g) && Ends(v, g) && !Reaches(v, o, g)
  {
    var g' := WithEdge(g, o, v);
    if Ends(o, g) && Ends(v, g) && !Reaches(v, o, g) {
      EdgeStillEnds(g, o, v);
    }
    if Ends(o, g') {
      var d: nat :| EndsWithin(o, g', d);
      EndsInLess(o, g, g', d);
      EndsInLess(v, g, g', d - 1);
      if p :| IsPath(p, v, o, g) {
        assert IsPath(p, v, o, g');
        CycleBack(o, v, g');
        ReachesSelf(o, g');
        MarkingEnds(o, g');
      }
    }
  }

  lemma EdgeStillEnds(g: Graph, o: Obj, v: Obj)
    requires Closed(g) && o in g && v in g && Closed(WithEdge(g, o, v))
    requires Ends(o, g) && Ends(v, g) && !Reaches(v, o, g)
    ensures Ends(o, WithEdge(g, o, v))
  {
    var g' := WithEdge(g, o, v);
    var d: nat :| EndsWithin(o, g, d);
    var e: nat :| EndsWithin(v, g, e);
    var m: nat := d + e;
    MarkingEnds(o, g);
    ReachesSelf(o, g);
    forall c | c in g'[o] ensures EndsWithin(c, g', m) {
      if c == v {
        EndsFarFrom(v, o, v, g, e);
        EndsLater(v, g', e, m);
      } else {
        if Reaches(c, o, g) { CycleBack(o, c, g); }
        EndsFarFrom(c, o, v, g, d - 1);
        EndsLater(c, g', d - 1, m);
      }
    }
    assert EndsWithin(o, g', m + 1);
  }
}
