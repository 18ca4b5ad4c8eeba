/** The trampoline evaluates, and its stack is as deep as expressions outside tail position are nested. */
module TailCalls {
  import opened Objects
  import opened Trampoline
  import Direct = BigStep

  type Ans = Direct.Ans

  /**
   * `o` agrees with `r`: the same value and bindings or both an error, or a bounce to an expression that has the rest
   * of the answer; and what has been nested so far fits the stack.
   */
  ghost predicate Agrees(o: Out, r: Ans, m: Vm, f: nat) {
    match o
    case Val(v, s) => r.Ret? && r.v == v && r.s == s && r.nest <= m.depth
    case Err => r.Fail? && r.nest <= m.depth
    case Bounce(e, env, s) => exists k: nat :: k <= m.depth && r == Direct.After(k, Direct.Eval(e, env, s, f, m.prim))
    case Spent => false
  }

  /**
   * The side that is known to have ended: with `ahead` the direct evaluation, on a stack that is deep enough, and
   * otherwise the trampoline.
   */
  ghost predicate Ended(ahead: bool, o: Out, r: Ans, m: Vm) {
    if ahead then !r.OutOfFuel? && r.nest <= m.depth else !o.Spent?
  }

  ghost predicate Follows(ahead: bool, o: Out, r: Ans, m: Vm, f: nat) { Ended(ahead, o, r, m) ==> Agrees(o, r, m, f) }

  /** Evaluations that are not in tail position agree. */
  ghost predicate NestedAgree(ahead: bool, m: Vm, f: nat) {
    forall e, env, s :: Follows(ahead, Nested(e, env, s, m), Direct.Operand(e, env, s, f, m.prim), m, f)
  }

  /** What is done after a nested evaluation */
  lemma AfterFollows(ahead: bool, nest: nat, o: Out, r: Ans, m: Vm, f: nat)
    requires Follows(ahead, o, r, m, f) && nest <= m.depth
    ensures Follows(ahead, o, Direct.After(nest, r), m, f)
  {
    if Ended(ahead, o, Direct.After(nest, r), m) && o.Bounce? {
      assert Ended(ahead, o, r, m);
      var k: nat :| k <= m.depth && r == Direct.After(k, Direct.Eval(o.e, o.env, o.s, f, m.prim));
      assert Direct.After(nest, r) == Direct.After(Direct.Max(nest, k), Direct.Eval(o.e, o.env, o.s, f, m.prim));
    }
  }

  lemma BounceFollows(ahead: bool, e: Value, env: Env, s: Store, m: Vm, f: nat)
    ensures Follows(ahead, Bounce(e, env, s), Direct.Eval(e, env, s, f, m.prim), m, f)
  {
    var r := Direct.Eval(e, env, s, f, m.prim);
    assert r == Direct.After(0, r);
  }

  lemma Use(ahead: bool, e: Value, env: Env, s: Store, m: Vm, f: nat)
    requires NestedAgree(ahead, m, f)
    ensures Follows(ahead, Nested(e, env, s, m), Direct.Operand(e, env, s, f, m.prim), m, f)
  {
  }

  lemma {:induction false} ArgsFollow(ahead: bool, list: Value, env: Env, s: Store, m: Vm, f: nat)
    requires NestedAgree(ahead, m, f)
    ensures Follows(ahead, EvalArgs(list, env, s, m), Direct.Operands(list, env, s, f, m.prim), m, f)
  {
    hide Nested;
    hide Direct.Operand;
    hide NestedAgree;
    if list.Pair? {
      Use(ahead, list.car, env, s, m, f);
      var o := Nested(list.car, env, s, m);
      if o.Val? { ArgsFollow(ahead, list.cdr, env, o.s, m, f); }
    }
  }

  lemma {:induction false} SequenceFollows(ahead: bool, list: Value, env: Env, s: Store, m: Vm, f: nat)
    requires NestedAgree(ahead, m, f)
    ensures Follows(ahead, ScmBegin(list, env, s, m), Direct.Sequence(list, env, s, f, m.prim), m, f)
  {
    hide Nested;
    hide Direct.Operand;
    hide Direct.Eval;
    hide NestedAgree;
    if IsLast(list) {
      BounceFollows(ahead, list.car, env, s, m, f);
    } else if list.Pair? {
      Use(ahead, list.car, env, s, m, f);
      var o := Nested(list.car, env, s, m);
      var r := Direct.Operand(list.car, env, s, f, m.prim);
      if o.Val? && list.cdr.Pair? && Ended(ahead, o, r, m) {
        SequenceFollows(ahead, list.cdr, env, o.s, m, f);
        AfterFollows(ahead, r.nest, ScmBegin(list.cdr, env, o.s, m), Direct.Sequence(list.cdr, env, o.s, f, m.prim),
          m, f);
      }
    }
  }

  lemma {:induction false} AndFollows(ahead: bool, list: Value, env: Env, s: Store, m: Vm, f: nat)
    requires NestedAgree(ahead, m, f)
    ensures Follows(ahead, ScmAnd(list, env, s, m), Direct.Connective(true, list, env, s, f, m.prim), m, f)
  {
    hide Nested;
    hide Direct.Operand;
    hide Direct.Eval;
    hide NestedAgree;
    if IsLast(list) {
      BounceFollows(ahead, list.car, env, s, m, f);
    } else if list.Pair? {
      Use(ahead, list.car, env, s, m, f);
      var o, r := Nested(list.car, env, s, m), Direct.Operand(list.car, env, s, f, m.prim);
      if o.Val? && IsTrue(o.v) && Ended(ahead, o, r, m) {
        AndFollows(ahead, list.cdr, env, o.s, m, f);
        AfterFollows(ahead, r.nest, ScmAnd(list.cdr, env, o.s, m),
          Direct.Connective(true, list.cdr, env, o.s, f, m.prim), m, f);
      }
    }
  }

  lemma {:induction false} OrFollows(ahead: bool, list: Value, env: Env, s: Store, m: Vm, f: nat)
    requires NestedAgree(ahead, m, f)
    ensures Follows(ahead, ScmOr(list, env, s, m), Direct.Connective(false, list, env, s, f, m.prim), m, f)
  {
    hide Nested;
    hide Direct.Operand;
    hide Direct.Eval;
    hide NestedAgree;
    if IsLast(list) {
      BounceFollows(ahead, list.car, env, s, m, f);
    } else if list.Pair? {
      Use(ahead, list.car, env, s, m, f);
      var o, r := Nested(list.car, env, s, m), Direct.Operand(list.car, env, s, f, m.prim);
      if o.Val? && !IsTrue(o.v) && Ended(ahead, o, r, m) {
        OrFollows(ahead, list.cdr, env, o.s, m, f);
        AfterFollows(ahead, r.nest, ScmOr(list.cdr, env, o.s, m),
          Direct.Connective(false, list.cdr, env, o.s, f, m.prim), m, f);
      }
    }
  }

  lemma IfFollows(ahead: bool, args: Value, env: Env, s: Store, m: Vm, f: nat)
    requires NestedAgree(ahead, m, f) && FormArityOk(If, args)
    ensures Follows(ahead, ScmIf(args, env, s, m), Direct.IfThen(args, env, s, f, m.prim), m, f)
  {
    hide Nested;
    hide Direct.Operand;
    hide Direct.Eval;
    hide NestedAgree;
    Use(ahead, args.car, env, s, m, f);
    var o, r := Nested(args.car, env, s, m), Direct.Operand(args.car, env, s, f, m.prim);
    if Length(args) <= 3 && o.Val? && Ended(ahead, o, r, m) {
      var e := if IsTrue(o.v) || !args.cdr.cdr.Pair? then args.cdr.car else args.cdr.cdr.car;
      BounceFollows(ahead, e, env, o.s, m, f);
      AfterFollows(ahead, r.nest, Bounce(e, env, o.s), Direct.Eval(e, env, o.s, f, m.prim), m, f);
    }
  }

  lemma ClauseFollows(ahead: bool, test: Value, body: Value, env: Env, s: Store, m: Vm, f: nat)
    requires NestedAgree(ahead, m, f) && body.Pair? && (body.car == Sym("=>") ==> body.cdr.Pair?)
    ensures Follows(ahead, EvalClause(test, body, env, s, m), Direct.Clause(test, body, env, s, f, m.prim), m, f)
  {
    hide Nested;
    hide Direct.Operand;
    hide Direct.Eval;
    hide Direct.Sequence;
    hide ScmBegin;
    hide NestedAgree;
    if body.car == Sym("=>") {
      Use(ahead, body.cdr.car, env, s, m, f);
      var o, r := Nested(body.cdr.car, env, s, m), Direct.Operand(body.cdr.car, env, s, f, m.prim);
      if o.Val? && Ended(ahead, o, r, m) {
        var e := Pair(o.v, Pair(test, Nil));
        BounceFollows(ahead, e, env, o.s, m, f);
        AfterFollows(ahead, r.nest, Bounce(e, env, o.s), Direct.Eval(e, env, o.s, f, m.prim), m, f);
      }
    } else {
      SequenceFollows(ahead, body, env, s, m, f);
    }
  }

  lemma {:induction false} CondFollows(ahead: bool, list: Value, env: Env, s: Store, m: Vm, f: nat)
    requires NestedAgree(ahead, m, f) && CondValid(list)
    ensures Follows(ahead, ScmCond(list, env, s, m), Direct.Clauses(list, env, s, f, m.prim), m, f)
  {
    hide Nested;
    hide Direct.Operand;
    hide Direct.Eval;
    hide Direct.Clause;
    hide EvalClause;
    hide NestedAgree;
    if list.Pair? {
      var body := list.car.cdr;
      if list.car.car == Sym("else") {
        ClauseFollows(ahead, Bool(true), body, env, s, m, f);
      } else {
        Use(ahead, list.car.car, env, s, m, f);
        var o, r := Nested(list.car.car, env, s, m), Direct.Operand(list.car.car, env, s, f, m.prim);
        if o.Val? && Ended(ahead, o, r, m) {
          if IsTrue(o.v) {
            ClauseFollows(ahead, o.v, body, env, o.s, m, f);
            AfterFollows(ahead, r.nest, EvalClause(o.v, body, env, o.s, m),
              Direct.Clause(o.v, body, env, o.s, f, m.prim), m, f);
          } else {
            CondFollows(ahead, list.cdr, env, o.s, m, f);
            AfterFollows(ahead, r.nest, ScmCond(list.cdr, env, o.s, m),
              Direct.Clauses(list.cdr, env, o.s, f, m.prim), m, f);
          }
        }
      }
    }
  }

  lemma {:induction false} DefinitionsFollow(ahead: bool, defs: Value, env: Env, id: nat, s: Store, m: Vm, f: nat)
    requires NestedAgree(ahead, m, f) && DefsValid(defs)
    ensures Follows(ahead, LetExtend(defs, env, id, s, m), Direct.Definitions(defs, env, id, s, f, m.prim), m, f)
  {
    hide Nested;
    hide Direct.Operand;
    hide NestedAgree;
    hide SetIn;
    if defs.Pair? {
      var e := defs.car.cdr.car;
      Use(ahead, e, env, s, m, f);
      var o, r := Nested(e, env, s, m), Direct.Operand(e, env, s, f, m.prim);
      if o.Val? && Ended(ahead, o, r, m) {
        var s' := SetIn(o.s, id, defs.car.car, o.v);
        DefinitionsFollow(ahead, defs.cdr, env, id, s', m, f);
        AfterFollows(ahead, r.nest, LetExtend(defs.cdr, env, id, s', m),
          Direct.Definitions(defs.cdr, env, id, s', f, m.prim), m, f);
      }
    }
  }

  lemma LetFollows(ahead: bool, args: Value, sequential: bool, env: Env, s: Store, m: Vm, f: nat)
    requires NestedAgree(ahead, m, f) && args.Pair? && DefsValid(args.car)
    ensures var inner := [|s|] + env;
      Follows(ahead, ScmLet(args, sequential, env, s, m),
              Direct.LetIn(args, if sequential then inner else env, inner, s, f, m.prim), m, f)
  {
    hide Direct.Definitions;
    hide Direct.Sequence;
    hide LetExtend;
    hide ScmBegin;
    hide NestedAgree;
    var inner := [|s|] + env;
    var defEnv, s0 := if sequential then inner else env, s + [map[]];
    DefinitionsFollow(ahead, args.car, defEnv, |s|, s0, m, f);
    var o, r := LetExtend(args.car, defEnv, |s|, s0, m), Direct.Definitions(args.car, defEnv, |s|, s0, f, m.prim);
    if o.Val? && Ended(ahead, o, r, m) {
      SequenceFollows(ahead, args.cdr, inner, o.s, m, f);
      AfterFollows(ahead, r.nest, ScmBegin(args.cdr, inner, o.s, m),
        Direct.Sequence(args.cdr, inner, o.s, f, m.prim), m, f);
    }
  }

  lemma FormFollows(ahead: bool, form: Form, args: Value, env: Env, s: Store, m: Vm, f: nat)
    requires NestedAgree(ahead, m, f) && FormArityOk(form, args)
    ensures Follows(ahead, ApplyForm(form, args, env, s, m), Direct.Apply(form, args, env, s, f, m.prim), m, f)
  {
    hide Nested;
    hide Direct.Operand;
    hide Direct.Eval;
    hide NestedAgree;
    hide SetIn;
    hide Find;
    match form
    case If => IfFollows(ahead, args, env, s, m, f);
    case Begin => SequenceFollows(ahead, args, env, s, m, f);
    case And => AndFollows(ahead, args, env, s, m, f);
    case Or => OrFollows(ahead, args, env, s, m, f);
    case Cond => if CondValid(args) { CondFollows(ahead, args, env, s, m, f); }
    case Let => if DefsValid(args.car) { LetFollows(ahead, args, false, env, s, m, f); }
    case LetStar => if DefsValid(args.car) { LetFollows(ahead, args, true, env, s, m, f); }
    case Define => Use(ahead, args.cdr.car, env, s, m, f);
    case SetBang => Use(ahead, args.cdr.car, env, s, m, f);
    case Quote =>
    case Lambda =>
  }

  lemma ProcedureFollows(ahead: bool, op: Value, args: Value, env: Env, s: Store, m: Vm, f: nat)
    requires NestedAgree(ahead, m, f) && (op.Closure? || op.Builtin?)
    ensures Follows(ahead, ProcedureCall(op, args, env, s, m), Direct.Call(op, args, env, s, f, m.prim), m, f)
  {
    hide Direct.Operands;
    hide Direct.Sequence;
    hide EvalArgs;
    hide ScmBegin;
    hide NestedAgree;
    hide BindAll;
    ArgsFollow(ahead, args, env, s, m, f);
    var o, r := EvalArgs(args, env, s, m), Direct.Operands(args, env, s, f, m.prim);
    if o.Val? && Ended(ahead, o, r, m) && op.Closure? {
      var env', s' := [|o.s|] + op.env, BindAll(op.params, o.v, o.s + [map[]], |o.s|);
      SequenceFollows(ahead, op.body, env', s', m, f);
      AfterFollows(ahead, r.nest, ScmBegin(op.body, env', s', m), Direct.Sequence(op.body, env', s', f, m.prim), m, f);
    }
  }

  lemma CallFollows(ahead: bool, op: Value, args: Value, env: Env, s: Store, m: Vm, f: nat)
    requires NestedAgree(ahead, m, f)
    ensures Follows(ahead, CallProc(op, args, env, s, m), Direct.Call(op, args, env, s, f, m.prim), m, f)
  {
    hide ProcedureCall;
    hide ApplyForm;
    hide Direct.Apply;
    hide NestedAgree;
    if op.Special? && FormArityOk(op.form, args) {
      FormFollows(ahead, op.form, args, env, s, m, f);
    } else if op.Closure? || op.Builtin? {
      hide Direct.Call;
      ProcedureFollows(ahead, op, args, env, s, m, f);
    }
  }

  /** One step of the trampoline */
  lemma EvalFollows(ahead: bool, e: Value, env: Env, s: Store, m: Vm, f: nat)
    requires NestedAgree(ahead, m, f)
    ensures Follows(ahead, Trampoline.Eval(e, env, s, m), Direct.Eval(e, env, s, f + 1, m.prim), m, f)
  {
    hide Nested;
    hide Direct.Operand;
    hide CallProc;
    hide Direct.Call;
    hide NestedAgree;
    hide Lookup;
    if e.Pair? && IsProper(e) {
      Use(ahead, e.car, env, s, m, f);
      var o, r := Nested(e.car, env, s, m), Direct.Operand(e.car, env, s, f, m.prim);
      if o.Val? && Ended(ahead, o, r, m) {
        CallFollows(ahead, o.v, e.cdr, env, o.s, m, f);
        AfterFollows(ahead, r.nest, CallProc(o.v, e.cdr, env, o.s, m), Direct.Call(o.v, e.cdr, env, o.s, f, m.prim),
          m, f);
      }
    }
  }

  // ----- both directions -----

  /** Where the direct evaluation ends with nesting that the stack has room for, the trampoline ends likewise. */
  lemma {:induction false} RunCatchesUp(e: Value, env: Env, s: Store, m: Vm, n: nat, f: nat)
    requires f <= n && f <= m.bounces
    ensures Follows(true, Run(e, env, s, m, n), Direct.Eval(e, env, s, f, m.prim), m, f)
    decreases f, n
  {
    hide Trampoline.Eval;
    if f > 0 {
      hide Direct.Eval;
      forall e', env', s'
        ensures Follows(true, Nested(e', env', s', m), Direct.Operand(e', env', s', f - 1, m.prim), m, f - 1)
      {
        if m.depth > 0 { RunCatchesUp(e', env', s', m.(depth := m.depth - 1), m.bounces, f - 1); }
      }
      EvalFollows(true, e, env, s, m, f - 1);
      var o := Trampoline.Eval(e, env, s, m);
      if o.Bounce? { RunCatchesUp(o.e, o.env, o.s, m, n - 1, f - 1); }
    }
  }

  /** Where the trampoline ends, the direct evaluation ends likewise, with nesting that fits the stack. */
  lemma {:induction false} DirectCatchesUp(e: Value, env: Env, s: Store, m: Vm, n: nat, f: nat)
    requires n <= m.bounces && f > Fuel(m, n)
    ensures Follows(false, Run(e, env, s, m, n), Direct.Eval(e, env, s, f, m.prim), m, f)
    decreases m.depth, n
  {
    hide Trampoline.Eval;
    hide Direct.Eval;
    hide Fuel;
    FuelFalls(m, n);
    forall e', env', s'
      ensures Follows(false, Nested(e', env', s', m), Direct.Operand(e', env', s', f - 1, m.prim), m, f - 1)
    {
      if m.depth > 0 { DirectCatchesUp(e', env', s', m.(depth := m.depth - 1), m.bounces, f - 1); }
    }
    EvalFollows(false, e, env, s, m, f - 1);
    var o := Trampoline.Eval(e, env, s, m);
    if o.Bounce? && n > 0 { DirectCatchesUp(o.e, o.env, o.s, m, n - 1, f - 1); }
  }

  function Fuel(m: Vm, n: nat): nat { m.depth * (m.bounces + 1) + n }

  lemma FuelFalls(m: Vm, n: nat)
    requires n <= m.bounces
    ensures n > 0 ==> Fuel(m, n - 1) < Fuel(m, n)
    ensures m.depth > 0 ==> Fuel(m.(depth := m.depth - 1), m.bounces) < Fuel(m, n)
  {
    if m.depth > 0 {
      var b := m.bounces + 1;
      assert m.depth * b == (m.depth - 1) * b + b;
    }
  }

  /** The answers mean the same. */
  predicate Same(o: Out, r: Ans) {
    match o
    case Val(v, s) => r.Ret? && r.v == v && r.s == s
    case Err => r.Fail?
    case _ => false
  }

  /**
   * For every expression, and however many bounces are allowed: when the trampoline ends, direct evaluation ends too,
   * with the same value and bindings, or with an error as well, and nothing is nested deeper than the stack.
   */
  lemma TrampolineIsSound(e: Value, env: Env, s: Store, m: Vm)
    requires !Run(e, env, s, m, m.bounces).Spent?
    ensures exists f :: Same(Run(e, env, s, m, m.bounces), Direct.Eval(e, env, s, f, m.prim)) &&
                        Direct.Eval(e, env, s, f, m.prim).nest <= m.depth
  {
    var f := Fuel(m, m.bounces) + 1;
    DirectCatchesUp(e, env, s, m, m.bounces, f);
    assert Same(Run(e, env, s, m, m.bounces), Direct.Eval(e, env, s, f, m.prim));
  }

  /**
   * Tail calls are flat: when direct evaluation ends, the trampoline ends with the same answer on a stack as deep as
   * expressions outside tail position were nested, and on no stack that is less deep.
   */
  lemma TrampolineIsFlat(e: Value, env: Env, s: Store, prim: Prim, f: nat, depth: nat)
    requires !Direct.Eval(e, env, s, f, prim).OutOfFuel?
    ensures var r := Direct.Eval(e, env, s, f, prim);
      && (r.nest <= depth ==> forall n :: f <= n ==> Same(Run(e, env, s, Vm(prim, depth, n), n), r))
      && (r.nest > depth ==> forall n :: Run(e, env, s, Vm(prim, depth, n), n) == Spent)
  {
    hide Direct.Eval;
    hide Run;
    var r := Direct.Eval(e, env, s, f, prim);
    if r.nest <= depth {
      forall n: nat | f <= n ensures Same(Run(e, env, s, Vm(prim, depth, n), n), r) {
        RunCatchesUp(e, env, s, Vm(prim, depth, n), n, f);
      }
    } else {
      forall n: nat ensures Run(e, env, s, Vm(prim, depth, n), n) == Spent {
        var m := Vm(prim, depth, n);
        var g := Direct.Max(f, Fuel(m, n) + 1);
        DirectCatchesUp(e, env, s, m, n, g);
        Direct.EvalKeeps(e, env, s, f, g, prim);
      }
    }
  }
}
