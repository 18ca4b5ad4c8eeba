/** eval.c: the evaluator, which changes the bindings of scopes as it goes. */
module Evaluator {
  import opened Objects
  import T = Trampoline

  /** What a C function returns: an object, which may be a bounce, or a jump to an error handler. */
  datatype Answer = Object(v: Value) | BounceObject(e: Value, env: Env) | Error | Spent

  class Interpreter {
    /** The bindings of the scopes that have been made */
    var store: Store
    const prim: Prim

    constructor (prim: Prim)
      ensures store == [] && this.prim == prim
    {
      store, this.prim := [], prim;
    }

    /** The answer and the bindings are as `o` says. */
    ghost predicate Gives(r: Answer, o: T.Out)
      reads this
    {
      match o
      case Val(v, s) => r == Object(v) && store == s
      case Bounce(e, env, s) => r == BounceObject(e, env) && store == s
      case Err => r == Error
      case Spent => r == Spent
    }

    // ----- environments -----

    /** navi_env_binding: the scope of the innermost binding */
    method EnvBinding(env: Env, sym: Value) returns (r: Option<nat>)
      ensures r == Find(store, env, sym)
    {
      var i := 0;
      while i < |env|
        invariant 0 <= i <= |env| && Find(store, env[i..], sym) == Find(store, env, sym)
      {
        if sym in Vars(store, env[i]) {
          return Some(env[i]);
        }
        i := i + 1;
      }
      return None;
    }

    /** navi_scope_set */
    method ScopeSet(id: nat, sym: Value, v: Value)
      modifies this
      ensures store == SetIn(old(store), id, sym, v)
    {
      if id < |store| {
        store := store[id := store[id][sym := v]];
      }
    }

    /** navi_env_new_scope */
    method NewScope(env: Env) returns (inner: Env)
      modifies this
      ensures inner == [|old(store)|] + env && store == old(store) + [map[]]
    {
      inner := [|store|] + env;
      store := store + [map[]];
    }

    /** navi_extend_environment */
    method ExtendEnvironment(env: Env, params: Value, args: Value) returns (inner: Env)
      modifies this
      ensures inner == [|old(store)|] + env
      ensures store == BindAll(params, args, old(store) + [map[]], |old(store)|)
    {
      inner := NewScope(env);
      var id, vcons, acons := inner[0], params, args;
      while vcons.Pair? && acons.Pair?
        invariant id == |old(store)|
        invariant BindAll(vcons, acons, store, id) == BindAll(params, args, old(store) + [map[]], id)
        decreases vcons
      {
        ScopeSet(id, vcons.car, acons.car);
        vcons, acons := vcons.cdr, acons.cdr;
      }
      if !vcons.Nil? {
        ScopeSet(id, vcons, acons);
      }
    }

    // ----- evaluation -----

    /** navi_eval, called from C code that _eval has called */
    method Nested(e: Value, env: Env, m: T.Vm) returns (r: Answer)
      requires m.prim == prim
      modifies this
      ensures Gives(r, T.Nested(e, env, old(store), m)) && !r.BounceObject?
      decreases m.depth, 1
    {
      if m.depth == 0 {
        return Spent;
      }
      r := NaviEval(e, env, m.(depth := m.depth - 1));
    }

    /** navi_eval */
    method NaviEval(e: Value, env: Env, m: T.Vm) returns (r: Answer)
      requires m.prim == prim
      modifies this
      ensures Gives(r, T.Run(e, env, old(store), m, m.bounces)) && !r.BounceObject?
      decreases m.depth, 8
    {
      hide T.Eval;
      ghost var o := T.Run(e, env, store, m, m.bounces);
      var n := m.bounces;
      r := Eval(e, env, m);
      while r.BounceObject?
        invariant if r.BounceObject? && n > 0 then o == T.Run(r.e, r.env, store, m, n - 1)
                  else if r.BounceObject? then o == T.Spent
                  else Gives(r, o)
        decreases n, r.BounceObject?
      {
        if n == 0 {
          return Spent;
        }
        n := n - 1;
        r := Eval(r.e, r.env, m);
      }
    }

    /** _eval */
    method Eval(e: Value, env: Env, m: T.Vm) returns (r: Answer)
      requires m.prim == prim
      modifies this
      ensures Gives(r, T.Eval(e, env, old(store), m))
      decreases m.depth, 7
    {
      hide T.EvalCall;
      match e
      case Sym(_) =>
        var id := EnvBinding(env, e);
        var v := if id.Some? && e in Vars(store, id.value) then Vars(store, id.value)[e] else Void;
        r := if v.Void? then Error else Object(v);
      case Pair(_, _) =>
        if IsProper(e) { r := EvalCall(e, env, m); } else { r := Error; }
      case _ =>
        r := Object(e);
    }

    /** eval_call */
    method EvalCall(call: Value, env: Env, m: T.Vm) returns (r: Answer)
      requires m.prim == prim && call.Pair?
      modifies this
      ensures Gives(r, T.EvalCall(call, env, old(store), m))
      decreases m.depth, 6
    {
      hide T.Nested;
      hide T.ProcedureCall;
      hide T.ApplyForm;
      hide FormArityOk;
      r := Nested(call.car, env, m);
      if r.Object? {
        var proc, args := r.v, call.cdr;
        match proc
        case Special(form) =>
          if FormArityOk(form, args) { r := ApplyForm(form, args, env, m); } else { r := Error; }
        case Closure(_, _, _) => r := ProcedureCall(proc, args, env, m);
        case Builtin(_, _, _) => r := ProcedureCall(proc, args, env, m);
        case _ => r := Error;
      }
    }

    /** procedure_call */
    method ProcedureCall(proc: Value, args: Value, env: Env, m: T.Vm) returns (r: Answer)
      requires m.prim == prim && (proc.Closure? || proc.Builtin?)
      modifies this
      ensures Gives(r, T.ProcedureCall(proc, args, env, old(store), m))
      decreases m.depth, 5
    {
      hide T.EvalArgs;
      hide T.NaviApply;
      r := EvalArgs(args, env, m);
      if r.Object? {
        r := NaviApply(proc, r.v, m);
      }
    }

    /** The loop of procedure_call, which builds a list at its end */
    method EvalArgs(args: Value, env: Env, m: T.Vm) returns (r: Answer)
      requires m.prim == prim
      modifies this
      ensures Gives(r, T.EvalArgs(args, env, old(store), m)) && !r.BounceObject?
      decreases m.depth, 3
    {
      hide T.Nested;
      ghost var o := T.EvalArgs(args, env, store, m);
      var cons, vals := args, [];
      while cons.Pair?
        invariant o == Onto(vals, T.EvalArgs(cons, env, store, m))
        decreases cons
      {
        ghost var s := store;
        r := Nested(cons.car, env, m);
        if !r.Object? { return; }
        OntoLast(vals, r.v, T.EvalArgs(cons.cdr, env, store, m));
        vals := vals + [r.v];
        cons := cons.cdr;
      }
      return Object(ListOf(vals, Nil));
    }

    /** check_apply and do_apply, for procedures */
    method NaviApply(proc: Value, args: Value, m: T.Vm) returns (r: Answer)
      requires m.prim == prim && (proc.Closure? || proc.Builtin?)
      modifies this
      ensures Gives(r, T.NaviApply(proc, args, old(store), m))
      decreases m.depth, 4
    {
      hide T.ScmBegin;
      hide BindAll;
      hide ArityOk;
      match proc
      case Closure(params, body, env) =>
        if !ClosureArityOk(params, args) { return Error; }
        var inner := ExtendEnvironment(env, params, args);
        r := ScmBegin(body, inner, m);
      case Builtin(p, arity, variadic) =>
        if !ArityOk(Length(args), arity, variadic) { return Error; }
        var v := prim(p, args);
        r := if v.None? then Error else Object(v.value);
    }

    /** scm_begin */
    method ScmBegin(args: Value, env: Env, m: T.Vm) returns (r: Answer)
      requires m.prim == prim
      modifies this
      ensures Gives(r, T.ScmBegin(args, env, old(store), m))
      decreases m.depth, 3
    {
      hide T.Nested;
      r := Object(Void);
      var cons := args;
      ghost var o := T.ScmBegin(args, env, store, m);
      while cons.Pair?
        invariant cons.Pair? ==> o == T.ScmBegin(cons, env, store, m)
        invariant !cons.Pair? ==> Gives(r, o)
        decreases cons
      {
        if IsLast(cons) {
          return BounceObject(cons.car, env);
        }
        r := Nested(cons.car, env, m);
        if !r.Object? { return; }
        cons := cons.cdr;
      }
    }

    /** do_apply, for special forms */
    method ApplyForm(form: Form, args: Value, env: Env, m: T.Vm) returns (r: Answer)
      requires m.prim == prim && FormArityOk(form, args)
      modifies this
      ensures Gives(r, T.ApplyForm(form, args, env, old(store), m))
      decreases m.depth, 5
    {
      hide T.ScmIf;
      hide T.ScmBegin;
      hide T.ScmAnd;
      hide T.ScmOr;
      hide T.ScmCond;
      hide T.ScmLet;
      hide T.ScmDefine;
      hide T.ScmSet;
      match form
      case Quote => r := Object(args.car);
      case If => r := ScmIf(args, env, m);
      case Begin => r := ScmBegin(args, env, m);
      case And => r := ScmAnd(args, env, m);
      case Or => r := ScmOr(args, env, m);
      case Cond => if CondValid(args) { r := ScmCond(args, env, m); } else { r := Error; }
      case Let => r := ScmLet(args, false, env, m);
      case LetStar => r := ScmLet(args, true, env, m);
      case Lambda => r := if LambdaValid(args) then Object(Closure(args.car, args.cdr, env)) else Error;
      case Define => r := ScmDefine(args, env, m);
      case SetBang => r := ScmSet(args, env, m);
    }

    /** scm_if */
    method ScmIf(args: Value, env: Env, m: T.Vm) returns (r: Answer)
      requires m.prim == prim && FormArityOk(If, args)
      modifies this
      ensures Gives(r, T.ScmIf(args, env, old(store), m))
      decreases m.depth, 3
    {
      hide T.Nested;
      var n := Length(args);
      if n > 3 { return Error; }
      var test := Nested(args.car, env, m);
      if !test.Object? { return test; }
      if IsTrue(test.v) { return BounceObject(args.cdr.car, env); }
      if n == 3 { return BounceObject(args.cdr.cdr.car, env); }
      return Object(Void);
    }

    /** scm_and */
    method ScmAnd(args: Value, env: Env, m: T.Vm) returns (r: Answer)
      requires m.prim == prim
      modifies this
      ensures Gives(r, T.ScmAnd(args, env, old(store), m))
      decreases m.depth, 3
    {
      hide T.Nested;
      var cons := args;
      ghost var o := T.ScmAnd(args, env, store, m);
      while cons.Pair?
        invariant o == T.ScmAnd(cons, env, store, m)
        decreases cons
      {
        if IsLast(cons) { return BounceObject(cons.car, env); }
        r := Nested(cons.car, env, m);
        if !r.Object? { return; }
        if !IsTrue(r.v) { return Object(Bool(false)); }
        cons := cons.cdr;
      }
      return Object(Bool(true));
    }

    /** scm_or */
    method ScmOr(args: Value, env: Env, m: T.Vm) returns (r: Answer)
      requires m.prim == prim
      modifies this
      ensures Gives(r, T.ScmOr(args, env, old(store), m))
      decreases m.depth, 3
    {
      hide T.Nested;
      var cons := args;
      ghost var o := T.ScmOr(args, env, store, m);
      while cons.Pair?
        invariant o == T.ScmOr(cons, env, store, m)
        decreases cons
      {
        if IsLast(cons) { return BounceObject(cons.car, env); }
        r := Nested(cons.car, env, m);
        if !r.Object? { return; }
        if IsTrue(r.v) { return Object(Bool(true)); }
        cons := cons.cdr;
      }
      return Object(Bool(false));
    }

    /** scm_cond */
    method ScmCond(args: Value, env: Env, m: T.Vm) returns (r: Answer)
      requires m.prim == prim && CondValid(args)
      modifies this
      ensures Gives(r, T.ScmCond(args, env, old(store), m))
      decreases m.depth, 4
    {
      hide T.Nested;
      hide T.EvalClause;
      var cons := args;
      ghost var o := T.ScmCond(args, env, store, m);
      while cons.Pair?
        invariant CondValid(cons) && o == T.ScmCond(cons, env, store, m)
        decreases cons
      {
        var fst := cons.car;
        if fst.car == Sym("else") {
          r := EvalClause(Bool(true), fst.cdr, env, m);
          return;
        }
        r := Nested(fst.car, env, m);
        if !r.Object? { return; }
        if IsTrue(r.v) {
          r := EvalClause(r.v, fst.cdr, env, m);
          return;
        }
        cons := cons.cdr;
      }
      return Object(Void);
    }

    /** eval_clause */
    method EvalClause(arg: Value, begin: Value, env: Env, m: T.Vm) returns (r: Answer)
      requires m.prim == prim && begin.Pair? && (begin.car == Sym("=>") ==> begin.cdr.Pair?)
      modifies this
      ensures Gives(r, T.EvalClause(arg, begin, env, old(store), m))
      decreases m.depth, 4, 0
    {
      hide T.Nested;
      hide T.ScmBegin;
      if begin.car == Sym("=>") {
        r := Nested(begin.cdr.car, env, m);
        if r.Object? { r := BounceObject(Pair(r.v, Pair(arg, Nil)), env); }
      } else {
        r := ScmBegin(begin, env, m);
      }
    }

    /** scm_let and scm_sequential_let */
    method ScmLet(args: Value, sequential: bool, env: Env, m: T.Vm) returns (r: Answer)
      requires m.prim == prim && args.Pair?
      modifies this
      ensures Gives(r, T.ScmLet(args, sequential, env, old(store), m))
      decreases m.depth, 4
    {
      hide T.LetExtend;
      hide T.ScmBegin;
      hide DefsValid;
      if !DefsValid(args.car) { return Error; }
      var inner := NewScope(env);
      r := LetExtend(args.car, if sequential then inner else env, inner[0], m);
      if r.Object? {
        r := ScmBegin(args.cdr, inner, m);
      }
    }

    /** The loops of let_extend_env and sequential_let_extend_env */
    method LetExtend(defs: Value, env: Env, id: nat, m: T.Vm) returns (r: Answer)
      requires m.prim == prim && DefsValid(defs)
      modifies this
      ensures Gives(r, T.LetExtend(defs, env, id, old(store), m)) && !r.BounceObject?
      decreases m.depth, 3
    {
      hide T.Nested;
      hide SetIn;
      var cons := defs;
      ghost var o := T.LetExtend(defs, env, id, store, m);
      while cons.Pair?
        invariant DefsValid(cons) && o == T.LetExtend(cons, env, id, store, m)
        decreases cons
      {
        var defn := cons.car;
        r := Nested(defn.cdr.car, env, m);
        if !r.Object? { return; }
        ScopeSet(id, defn.car, r.v);
        cons := cons.cdr;
      }
      return Object(Void);
    }

    /** scm_define */
    method ScmDefine(args: Value, env: Env, m: T.Vm) returns (r: Answer)
      requires m.prim == prim && FormArityOk(Define, args)
      modifies this
      ensures Gives(r, T.ScmDefine(args, env, old(store), m))
      decreases m.depth, 3
    {
      hide T.Nested;
      hide SetIn;
      hide IsSymbolList;
      if args.car.Sym? {
        if !args.cdr.cdr.Nil? { return Error; }
        r := Nested(args.cdr.car, env, m);
        if !r.Object? { return; }
        ScopeSet(Inner(env), args.car, r.v);
        return Object(Void);
      }
      if args.car.Pair? && IsSymbolList(args.car) {
        ScopeSet(Inner(env), args.car.car, DefinedProcedure(args.car, args.cdr, env));
        return Object(Void);
      }
      return Error;
    }

    /** scm_set */
    method ScmSet(args: Value, env: Env, m: T.Vm) returns (r: Answer)
      requires m.prim == prim && FormArityOk(SetBang, args)
      modifies this
      ensures Gives(r, T.ScmSet(args, env, old(store), m))
      decreases m.depth, 3
    {
      hide T.Nested;
      hide SetIn;
      hide Find;
      if !args.car.Sym? { return Error; }
      var id := EnvBinding(env, args.car);
      if id.None? { return Error; }
      r := Nested(args.cdr.car, env, m);
      if !r.Object? { return; }
      ScopeSet(id.value, args.car, r.v);
      return Object(Void);
    }
  }

  /** The list of the values in `vals`, and then `tail` */
  function ListOf(vals: seq<Value>, tail: Value): Value
  {
    if vals == [] then tail else Pair(vals[0], ListOf(vals[1..], tail))
  }

  /** Puts values in front of a list that is being computed. */
  function Onto(vals: seq<Value>, o: T.Out): T.Out { if o.Val? then T.Val(ListOf(vals, o.v), o.s) else o }

  lemma {:induction false} ListOfLast(vals: seq<Value>, v: Value, tail: Value)
    ensures ListOf(vals + [v], tail) == ListOf(vals, Pair(v, tail))
  {
    if vals == [] {
      assert vals + [v] == [v];
    } else {
      ListOfLast(vals[1..], v, tail);
      assert (vals + [v])[1..] == vals[1..] + [v];
    }
  }

  lemma OntoLast(vals: seq<Value>, v: Value, o: T.Out)
    ensures Onto(vals + [v], o) == Onto(vals, if o.Val? then T.Val(Pair(v, o.v), o.s) else o)
  {
    if o.Val? { ListOfLast(vals, v, o.v); }
  }
}
