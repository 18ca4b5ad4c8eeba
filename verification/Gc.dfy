/** heap.c: objects, scopes, and the marking half of the collector. */
module GcMarking {

  datatype Value = Imm | Ptr(o: Obj)

  datatype ProcKind = Procedure | Macro | Special | Promise

  /** What kind of object it is, with all that never changes; the cases are those of gc_mark_obj. */
  datatype Payload =
    | Pair
    | Parameter
    | Port
    | Symbol(data: string)
    | Str
    | Bytevec
    | Vector
    | Values
    | CaseLambda
    | Thunk(lexical: Scope, dynamic: Scope)
    | Bounce(lexical: Scope, dynamic: Scope)
    | Proc(kind: ProcKind, builtin: bool, name: Obj, env: Scope)
    | Escape

  /**
   * How many values an object has: car and cdr, the expression of a port, thunk or bounce, the elements of a vector,
   * the arguments and the body of a procedure, the argument of an escape.
   */
  predicate FieldsFit(p: Payload, n: nat) {
    match p
    case Pair => n == 2
    case Parameter => n == 2
    case Proc(_, _, _, _) => n == 2
    case Symbol(_) => n == 0
    case Str => n == 0
    case Bytevec => n == 0
    case Port => n == 1
    case Thunk(_, _) => n == 1
    case Bounce(_, _) => n == 1
    case Escape => n == 1
    case _ => true
  }

  /** `struct navi_object` */
  class Obj {
    const payload: Payload
    var fields: seq<Value>
    var mark: bool
    var protect: bool
    var link: Obj?

    constructor (payload: Payload, fields: seq<Value>)
      ensures this.payload == payload && this.fields == fields && !mark && !protect && link == null
    {
      this.payload, this.fields := payload, fields;
      mark, protect, link := false, false, null;
    }
  }

  /** `struct navi_scope` */
  class Scope {
    const next: Scope?
    var refs: nat
    var bindings: seq<(Obj, Value)>
    var guards: seq<Value>

    constructor (next: Scope?)
      ensures this.next == next && refs == 1 && bindings == [] && guards == []
    {
      this.next := next;
      refs, bindings, guards := 1, [], [];
    }
  }

  // ----- the traced graph -----

  /** The values that gc_mark_obj calls itself on: not the body of a builtin. */
  function Traced(p: Payload, fields: seq<Value>): seq<Value> {
    match p
    case Symbol(_) => []
    case Str => []
    case Bytevec => []
    case Proc(_, builtin, _, _) => if builtin && fields != [] then fields[..1] else fields
    case _ => fields
  }

  /** What is traced, and the name of a procedure, which is marked but not traced. */
  function EdgesOf(p: Payload, fields: seq<Value>): set<Obj> {
    var vs := Traced(p, fields);
    (set v | v in vs && v.Ptr? :: v.o) + if p.Proc? then {p.name} else {}
  }

  function Edges(a: Obj): set<Obj>
    reads a`fields
  {
    EdgesOf(a.payload, a.fields)
  }

  /** The heap as a graph */
  type Graph = map<Obj, set<Obj>>

  /** An object has the fields of its kind, and the graph has its references. */
  ghost predicate IsNode(g: Graph, a: Obj)
    reads a`fields
  {
    FieldsFit(a.payload, |a.fields|) && a in g && g[a] == Edges(a)
  }

  ghost predicate IsGraph(g: Graph)
    reads g.Keys`fields
  {
    forall a :: a in g ==> IsNode(g, a)
  }

  // ----- what is traced, in terms of the fields -----

  predicate IsBuiltin(a: Obj) { a.payload.Proc? && a.payload.builtin }

  /** A field of `a` points to `b`; of a builtin only the first counts, which has its arguments. */
  predicate PointsTo(a: Obj, b: Obj)
    reads a`fields
  {
    exists i :: 0 <= i < |a.fields| && a.fields[i] == Ptr(b) && (IsBuiltin(a) ==> i == 0)
  }

  /** `a` is a procedure of that name. */
  predicate IsNamed(a: Obj, b: Obj) { a.payload.Proc? && a.payload.name == b }

  /** The references of an object are what its fields point to and, of a procedure, its name, and no more. */
  lemma EdgesAreFields(g: Graph, a: Obj, b: Obj)
    requires IsGraph(g) && a in g
    ensures b in g[a] <==> PointsTo(a, b) || IsNamed(a, b)
  {
    assert IsNode(g, a);
    var p, fields := a.payload, a.fields;
    if i :| 0 <= i < |fields| && fields[i] == Ptr(b) && (IsBuiltin(a) ==> i == 0) {
      assert Traced(p, fields)[i] == Ptr(b);
    }
    if v :| v in Traced(p, fields) && v == Ptr(b) {
      var i :| 0 <= i < |Traced(p, fields)| && Traced(p, fields)[i] == v;
      assert fields[i] == Ptr(b);
    }
  }

  /** A chain of such pointers */
  ghost predicate IsChain(older p: seq<Obj>, o: Obj, x: Obj, heap: set<Obj>)
    reads heap`fields
  {
    && |p| > 0 && p[0] == o && p[|p| - 1] == x
    && forall i :: 0 <= i < |p| - 1 ==> p[i] in heap && (PointsTo(p[i], p[i + 1]) || IsNamed(p[i], p[i + 1]))
  }

  /** So what an object reaches is what a chain of pointers leads to. */
  lemma ReachesByChain(o: Obj, x: Obj, g: Graph)
    requires IsGraph(g)
    ensures Reaches(o, x, g) <==> exists p :: IsChain(p, o, x, g.Keys)
  {
    if p :| IsPath(p, o, x, g) {
      forall i | 0 <= i < |p| - 1 ensures PointsTo(p[i], p[i + 1]) || IsNamed(p[i], p[i + 1]) {
        EdgesAreFields(g, p[i], p[i + 1]);
      }
      assert IsChain(p, o, x, g.Keys);
    }
    if p :| IsChain(p, o, x, g.Keys) {
      forall i | 0 <= i < |p| - 1 ensures p[i] in g && p[i + 1] in g[p[i]] {
        EdgesAreFields(g, p[i], p[i + 1]);
      }
      assert IsPath(p, o, x, g);
    }
  }

  /** The name of a procedure is a symbol, and a symbol refers to nothing. */
  ghost predicate NamesOk(g: Graph) {
    && (forall a :: a in g && a.payload.Symbol? ==> g[a] == {})
    && (forall a :: a in g && a.payload.Proc? ==> a.payload.name in g[a] && a.payload.name.payload.Symbol?)
  }

  /** Nothing refers out of the graph. */
  ghost predicate Closed(g: Graph) { (forall a :: a in g ==> g[a] <= g.Keys) && NamesOk(g) }

  /** A chain of references. */
  ghost predicate IsPath(older p: seq<Obj>, o: Obj, x: Obj, g: Graph) {
    && |p| > 0 && p[0] == o && p[|p| - 1] == x
    && forall i :: 0 <= i < |p| - 1 ==> p[i] in g && p[i + 1] in g[p[i]]
  }

  /** `x` can be reached from `o`. */
  ghost predicate Reaches(o: Obj, x: Obj, g: Graph) { exists p :: IsPath(p, o, x, g) }

  ghost predicate ReachesAny(vs: seq<Value>, x: Obj, g: Graph) {
    exists v :: v in vs && v.Ptr? && Reaches(v.o, x, g)
  }

  lemma PathAppend(p: seq<Obj>, q: seq<Obj>, o: Obj, x: Obj, y: Obj, g: Graph)
    requires IsPath(p, o, x, g) && IsPath(q, x, y, g)
    ensures IsPath(p + q[1..], o, y, g)
  {
    var r := p + q[1..];
    forall i | 0 <= i < |r| - 1 ensures r[i] in g && r[i + 1] in g[r[i]] {
      if i >= |p| - 1 {
        var k := i - (|p| - 1);
        assert q[k] in g && q[k + 1] in g[q[k]];
      }
    }
  }

  lemma ReachesTrans(o: Obj, x: Obj, y: Obj, g: Graph)
    requires Reaches(o, x, g) && Reaches(x, y, g)
    ensures Reaches(o, y, g)
  {
    var p :| IsPath(p, o, x, g);
    var q :| IsPath(q, x, y, g);
    PathAppend(p, q, o, x, y, g);
  }

  lemma ReachesOne(o: Obj, c: Obj, g: Graph)
    requires o in g && c in g[o]
    ensures Reaches(o, c, g)
  {
    assert IsPath([o, c], o, c, g);
  }

  lemma ReachesSelf(o: Obj, g: Graph)
    ensures Reaches(o, o, g)
  {
    assert IsPath([o], o, o, g);
  }

  /** The first step of a path */
  lemma FirstStep(p: seq<Obj>, o: Obj, x: Obj, g: Graph)
    requires IsPath(p, o, x, g) && |p| > 1
    ensures o in g && p[1] in g[o] && IsPath(p[1..], p[1], x, g)
  {
    assert p[0 + 1] in g[p[0]];
    var q := p[1..];
    forall i | 0 <= i < |q| - 1 ensures q[i] in g && q[i + 1] in g[q[i]] {
      assert p[i + 1] in g && p[i + 1 + 1] in g[p[i + 1]];
    }
  }

  /** What an object reaches: itself, and what the objects reach that it refers to. */
  lemma ReachesStep(o: Obj, x: Obj, g: Graph)
    requires o in g
    ensures Reaches(o, x, g) <==> x == o || exists c :: c in g[o] && Reaches(c, x, g)
  {
    ReachesSelf(o, g);
    if p :| IsPath(p, o, x, g) {
      if |p| > 1 {
        FirstStep(p, o, x, g);
        assert p[1] in g[o] && Reaches(p[1], x, g);
      }
    }
    if c :| c in g[o] && Reaches(c, x, g) {
      ReachesOne(o, c, g);
      ReachesTrans(o, c, x, g);
    }
  }

  /** gc_mark_obj on `o` is done with no more than `d` calls at a time. */
  ghost predicate EndsWithin(o: Obj, g: Graph, d: nat)
    requires Closed(g) && o in g
  {
    d > 0 && forall c :: c in g[o] ==> EndsWithin(c, g, d - 1)
  }

  // ----- marking -----

  /** gc_set_mark */
  method GcSetMark(o: Obj)
    modifies o`mark
    ensures o.mark
  {
    o.mark := true;
  }

  /** In terms of the fields: itself, what they reach, and its name. */
  lemma ReachesThrough(o: Obj, vs: seq<Value>, g: Graph)
    requires IsGraph(g) && Closed(g) && o in g && vs == Traced(o.payload, o.fields)
    ensures forall v :: v in vs && v.Ptr? ==> v.o in g && v.o in g[o]
    ensures forall x :: x in g ==>
      (Reaches(o, x, g) <==> x == o || ReachesAny(vs, x, g) || (o.payload.Proc? && x == o.payload.name))
  {
    hide Reaches;
    assert forall v :: v in vs && v.Ptr? ==> v.o in g[o];
    forall x | x in g
      ensures Reaches(o, x, g) <==> x == o || ReachesAny(vs, x, g) || (o.payload.Proc? && x == o.payload.name)
    {
      ReachesStep(o, x, g);
      if o.payload.Proc? { ReachesStep(o.payload.name, x, g); }
      if c :| c in g[o] && Reaches(c, x, g) {
        assert (exists v :: v in vs && v.Ptr? && v.o == c) || (o.payload.Proc? && c == o.payload.name);
      }
    }
  }

  /** gc_mark_obj: it never looks at the mark, so it needs a bound on its calls to end. */
  method GcMarkObj(v: Value, ghost g: Graph, ghost d: nat)
    requires IsGraph(g) && Closed(g) && (v.Ptr? ==> v.o in g && EndsWithin(v.o, g, d))
    modifies g.Keys`mark
    ensures forall x :: x in g ==> (x.mark <==> old(x.mark) || (v.Ptr? && Reaches(v.o, x, g)))
    decreases d, 0
  {
    if v.Imm? {
      return;
    }
    var o := v.o;
    GcSetMark(o);
    var vs := Traced(o.payload, o.fields);
    ReachesThrough(o, vs, g);
    hide IsGraph;
    hide IsNode;
    hide Traced;
    hide Reaches;
    hide ReachesAny;
    GcMarkEach(vs, g, d - 1);
    if o.payload.Proc? {
      GcSetMark(o.payload.name);
    }
  }

  /** The calls for its fields */
  method GcMarkEach(vs: seq<Value>, ghost g: Graph, ghost d: nat)
    requires IsGraph(g) && Closed(g) && forall v :: v in vs && v.Ptr? ==> v.o in g && EndsWithin(v.o, g, d)
    modifies g.Keys`mark
    ensures forall x :: x in g ==> (x.mark <==> old(x.mark) || ReachesAny(vs, x, g))
    decreases d, 1
  {
    hide IsGraph;
    hide Reaches;
    hide Closed;
    hide EndsWithin;
    for i := 0 to |vs|
      invariant forall x :: x in g ==> (x.mark <==> old(x.mark) || ReachesAny(vs[..i], x, g))
    {
      assert vs[..i + 1] == vs[..i] + [vs[i]];
      GcMarkObj(vs[i], g, d);
    }
    assert vs[..|vs|] == vs;
  }
}
