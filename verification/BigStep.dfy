/** What evaluation means: a direct evaluator, in which the value of a tail expression is found by recursion. */
module BigStep {
  import opened Objects

  /**
   * A value and the bindings afterwards, or an error; `nest` is how deep evaluations of operators, arguments,
   * tests and other expressions that are not in tail position were nested.
   */
  datatype Ans = Ret(v: Value, s: Store, nest: nat) | Fail(nest: nat) | OutOfFuel

  function Max(a: nat, b: nat): nat { if a < b then b else a }

  /** The answer of an expression in tail position, after something nested `nest` deep. */
  function After(nest: nat, r: Ans): Ans
  {
    match r
    case Ret(v, s, k) => Ret(v, s, Max(nest, k))
    case Fail(k) => Fail(Max(nest, k))
    case OutOfFuel => OutOfFuel
  }

  /** An expression that is not in tail position is one level deeper. */
  function Deeper(r: Ans): Ans
  {
    match r
    case Ret(v, s, k) => Ret(v, s, k + 1)
    case Fail(k) => Fail(k + 1)
    case OutOfFuel => OutOfFuel
  }

  function Eval(e: Value, env: Env, s: Store, f: nat, prim: Prim): Ans
    decreases f, 0, 0, 0
  {
    if f == 0 then OutOfFuel else
      match e
      case Sym(_) =>
        var v := Lookup(s, env, e);
        if v.Void? then Fail(0) else Ret(v, s, 0)
      case Pair(car, cdr) =>
        if !IsProper(e) then Fail(0) else
          var r := Operand(car, env, s, f - 1, prim);
          if r.Ret? then After(r.nest, Call(r.v, cdr, env, r.s, f - 1, prim)) else r
      case _ => Ret(e, s, 0)
  }

  function Operand(e: Value, env: Env, s: Store, f: nat, prim: Prim): Ans
    decreases f, 1, 0, 0
  {
    Deeper(Eval(e, env, s, f, prim))
  }

  function Call(op: Value, args: Value, env: Env, s: Store, f: nat, prim: Prim): Ans
    decreases f, 4, 0, 0
  {
    match op
    case Special(form) => if FormArityOk(form, args) then Apply(form, args, env, s, f, prim) else Fail(0)
    case Closure(params, body, cenv) =>
      var r := Operands(args, env, s, f, prim);
      if !r.Ret? then r
      else if !ClosureArityOk(params, r.v) then Fail(r.nest)
      else After(r.nest, Sequence(body, [|r.s|] + cenv, BindAll(params, r.v, r.s + [map[]], |r.s|), f, prim))
    case Builtin(p, arity, variadic) =>
      var r := Operands(args, env, s, f, prim);
      if !r.Ret? then r
      else if !ArityOk(Length(r.v), arity, variadic) then Fail(r.nest)
      else
        var v := prim(p, r.v);
        if v.None? then Fail(r.nest) else Ret(v.value, r.s, r.nest)
    case _ => Fail(0)
  }

  /** The values of a list of operands, from the left */
  function Operands(list: Value, env: Env, s: Store, f: nat, prim: Prim): Ans
    decreases f, 2, list, 0
  {
    if !list.Pair? then Ret(Nil, s, 0) else
      var r := Operand(list.car, env, s, f, prim);
      if !r.Ret? then r else
        var rest := After(r.nest, Operands(list.cdr, env, r.s, f, prim));
        if rest.Ret? then Ret(Pair(r.v, rest.v), rest.s, rest.nest) else rest
  }

  /** The last of a list of expressions gives the value. */
  function Sequence(list: Value, env: Env, s: Store, f: nat, prim: Prim): Ans
    decreases f, 2, list, 0
  {
    if !list.Pair? then Ret(Void, s, 0)
    else if list.cdr.Nil? then Eval(list.car, env, s, f, prim)
    else
      var r := Operand(list.car, env, s, f, prim);
      if r.Ret? then
        if list.cdr.Pair? then After(r.nest, Sequence(list.cdr, env, r.s, f, prim)) else r
      else r
  }

  /** Special forms */
  function Apply(form: Form, args: Value, env: Env, s: Store, f: nat, prim: Prim): Ans
    requires FormArityOk(form, args)
    decreases f, 3, 0, 0
  {
    match form
    case Quote => Ret(args.car, s, 0)
    case If => IfThen(args, env, s, f, prim)
    case Begin => Sequence(args, env, s, f, prim)
    case And => Connective(true, args, env, s, f, prim)
    case Or => Connective(false, args, env, s, f, prim)
    case Cond => if CondValid(args) then Clauses(args, env, s, f, prim) else Fail(0)
    case Let => if DefsValid(args.car) then LetIn(args, env, [|s|] + env, s, f, prim) else Fail(0)
    case LetStar => if DefsValid(args.car) then LetIn(args, [|s|] + env, [|s|] + env, s, f, prim) else Fail(0)
    case Lambda => if LambdaValid(args) then Ret(Closure(args.car, args.cdr, env), s, 0) else Fail(0)
    case Define => DefineIn(args, env, s, f, prim)
    case SetBang =>
      if !args.car.Sym? || Find(s, env, args.car).None? then Fail(0) else
        var r := Operand(args.cdr.car, env, s, f, prim);
        if r.Ret? then Ret(Void, SetIn(r.s, Find(s, env, args.car).value, args.car, r.v), r.nest) else r
  }

  function IfThen(args: Value, env: Env, s: Store, f: nat, prim: Prim): Ans
    requires FormArityOk(If, args)
    decreases f, 2, 0, 0
  {
    if Length(args) > 3 then Fail(0) else
      var r := Operand(args.car, env, s, f, prim);
      if !r.Ret? then r
      else if IsTrue(r.v) then After(r.nest, Eval(args.cdr.car, env, r.s, f, prim))
      else if args.cdr.cdr.Pair? then After(r.nest, Eval(args.cdr.cdr.car, env, r.s, f, prim))
      else Ret(Void, r.s, r.nest)
  }

  /** `and` (unit true) and `or` (unit false): a test that decides gives a boolean, in `or` instead of its own value. */
  function Connective(unit: bool, list: Value, env: Env, s: Store, f: nat, prim: Prim): Ans
    decreases f, 2, list, 0
  {
    if !list.Pair? then Ret(Bool(unit), s, 0)
    else if list.cdr.Nil? then Eval(list.car, env, s, f, prim)
    else
      var r := Operand(list.car, env, s, f, prim);
      if !r.Ret? then r
      else if IsTrue(r.v) == unit then After(r.nest, Connective(unit, list.cdr, env, r.s, f, prim))
      else Ret(Bool(!unit), r.s, r.nest)
  }

  function Clauses(list: Value, env: Env, s: Store, f: nat, prim: Prim): Ans
    requires CondValid(list)
    decreases f, 2, list, 1
  {
    if !list.Pair? then Ret(Void, s, 0)
    else if list.car.car == Sym("else") then Clause(Bool(true), list.car.cdr, env, s, f, prim)
    else
      var r := Operand(list.car.car, env, s, f, prim);
      if !r.Ret? then r
      else if IsTrue(r.v) then After(r.nest, Clause(r.v, list.car.cdr, env, r.s, f, prim))
      else After(r.nest, Clauses(list.cdr, env, r.s, f, prim))
  }

  /** The body of a clause; after `=>`, a receiver is called with the value of the test, which is evaluated again. */
  function Clause(test: Value, body: Value, env: Env, s: Store, f: nat, prim: Prim): Ans
    requires body.Pair? && (body.car == Sym("=>") ==> body.cdr.Pair?)
    decreases f, 2, body, 1
  {
    if body.car == Sym("=>") then
      var r := Operand(body.cdr.car, env, s, f, prim);
      if r.Ret? then After(r.nest, Eval(Pair(r.v, Pair(test, Nil)), env, r.s, f, prim)) else r
    else Sequence(body, env, s, f, prim)
  }

  /** `let` evaluates its definitions outside the new scope, `let*` inside. */
  function LetIn(args: Value, defEnv: Env, bodyEnv: Env, s: Store, f: nat, prim: Prim): Ans
    requires args.Pair? && DefsValid(args.car)
    decreases f, 2, args, 1
  {
    var r := Definitions(args.car, defEnv, |s|, s + [map[]], f, prim);
    if r.Ret? then After(r.nest, Sequence(args.cdr, bodyEnv, r.s, f, prim)) else r
  }

  function Definitions(defs: Value, env: Env, id: nat, s: Store, f: nat, prim: Prim): Ans
    requires DefsValid(defs)
    decreases f, 2, defs, 0
  {
    if !defs.Pair? then Ret(Void, s, 0) else
      var r := Operand(defs.car.cdr.car, env, s, f, prim);
      if r.Ret? then After(r.nest, Definitions(defs.cdr, env, id, SetIn(r.s, id, defs.car.car, r.v), f, prim)) else r
  }

  function DefineIn(args: Value, env: Env, s: Store, f: nat, prim: Prim): Ans
    requires FormArityOk(Define, args)
    decreases f, 2, 0, 0
  {
    if args.car.Sym? then
      if !args.cdr.cdr.Nil? then Fail(0) else
        var r := Operand(args.cdr.car, env, s, f, prim);
        if r.Ret? then Ret(Void, SetIn(r.s, Inner(env), args.car, r.v), r.nest) else r
    else if args.car.Pair? then
      if !IsSymbolList(args.car) then Fail(0)
      else Ret(Void, SetIn(s, Inner(env), args.car.car, DefinedProcedure(args.car, args.cdr, env)), 0)
    else Fail(0)
  }

  // ----- the fuel is only a bound -----

  /** What has ended stays as it is. */
  ghost predicate Keeps(r: Ans, r': Ans) { r.OutOfFuel? || r' == r }

  ghost predicate OperandsKeep(f: nat, g: nat, prim: Prim) {
    forall e, env, s :: Keeps(Operand(e, env, s, f, prim), Operand(e, env, s, g, prim))
  }

  lemma Keep(e: Value, env: Env, s: Store, f: nat, g: nat, prim: Prim)
    requires OperandsKeep(f, g, prim)
    ensures Keeps(Operand(e, env, s, f, prim), Operand(e, env, s, g, prim))
    ensures Keeps(Eval(e, env, s, f, prim), Eval(e, env, s, g, prim))
  {
    assert Keeps(Operand(e, env, s, f, prim), Operand(e, env, s, g, prim));
  }

  lemma {:induction false} OperandListKeeps(list: Value, env: Env, s: Store, f: nat, g: nat, prim: Prim)
    requires OperandsKeep(f, g, prim)
    ensures Keeps(Operands(list, env, s, f, prim), Operands(list, env, s, g, prim))
  {
    hide Operand;
    hide OperandsKeep;
    if list.Pair? {
      Keep(list.car, env, s, f, g, prim);
      var r := Operand(list.car, env, s, f, prim);
      if r.Ret? { OperandListKeeps(list.cdr, env, r.s, f, g, prim); }
    }
  }

  lemma {:induction false} SequenceKeeps(list: Value, env: Env, s: Store, f: nat, g: nat, prim: Prim)
    requires OperandsKeep(f, g, prim)
    ensures Keeps(Sequence(list, env, s, f, prim), Sequence(list, env, s, g, prim))
  {
    hide Operand;
    hide Eval;
    hide OperandsKeep;
    if list.Pair? {
      Keep(list.car, env, s, f, g, prim);
      var r := Operand(list.car, env, s, f, prim);
      if r.Ret? { SequenceKeeps(list.cdr, env, r.s, f, g, prim); }
    }
  }

  lemma {:induction false} ConnectiveKeeps(unit: bool, list: Value, env: Env, s: Store, f: nat, g: nat, prim: Prim)
    requires OperandsKeep(f, g, prim)
    ensures Keeps(Connective(unit, list, env, s, f, prim), Connective(unit, list, env, s, g, prim))
  {
    hide Operand;
    hide Eval;
    hide OperandsKeep;
    if list.Pair? {
      Keep(list.car, env, s, f, g, prim);
      var r := Operand(list.car, env, s, f, prim);
      if r.Ret? { ConnectiveKeeps(unit, list.cdr, env, r.s, f, g, prim); }
    }
  }

  lemma ClauseKeeps(test: Value, body: Value, env: Env, s: Store, f: nat, g: nat, prim: Prim)
    requires OperandsKeep(f, g, prim) && body.Pair? && (body.car == Sym("=>") ==> body.cdr.Pair?)
    ensures Keeps(Clause(test, body, env, s, f, prim), Clause(test, body, env, s, g, prim))
  {
    hide Operand;
    hide Eval;
    hide Sequence;
    hide OperandsKeep;
    if body.car == Sym("=>") {
      Keep(body.cdr.car, env, s, f, g, prim);
      var r := Operand(body.cdr.car, env, s, f, prim);
      if r.Ret? { Keep(Pair(r.v, Pair(test, Nil)), env, r.s, f, g, prim); }
    } else {
      SequenceKeeps(body, env, s, f, g, prim);
    }
  }

  lemma {:induction false} ClausesKeep(list: Value, env: Env, s: Store, f: nat, g: nat, prim: Prim)
    requires OperandsKeep(f, g, prim) && CondValid(list)
    ensures Keeps(Clauses(list, env, s, f, prim), Clauses(list, env, s, g, prim))
  {
    hide Operand;
    hide Clause;
    hide OperandsKeep;
    if list.Pair? {
      ClauseKeeps(Bool(true), list.car.cdr, env, s, f, g, prim);
      Keep(list.car.car, env, s, f, g, prim);
      var r := Operand(list.car.car, env, s, f, prim);
      if r.Ret? {
        ClauseKeeps(r.v, list.car.cdr, env, r.s, f, g, prim);
        ClausesKeep(list.cdr, env, r.s, f, g, prim);
      }
    }
  }

  lemma {:induction false} DefinitionsKeep(defs: Value, env: Env, id: nat, s: Store, f: nat, g: nat, prim: Prim)
    requires OperandsKeep(f, g, prim) && DefsValid(defs)
    ensures Keeps(Definitions(defs, env, id, s, f, prim), Definitions(defs, env, id, s, g, prim))
  {
    hide Operand;
    hide OperandsKeep;
    hide SetIn;
    if defs.Pair? {
      Keep(defs.car.cdr.car, env, s, f, g, prim);
      var r := Operand(defs.car.cdr.car, env, s, f, prim);
      if r.Ret? { DefinitionsKeep(defs.cdr, env, id, SetIn(r.s, id, defs.car.car, r.v), f, g, prim); }
    }
  }

  lemma LetKeeps(args: Value, defEnv: Env, bodyEnv: Env, s: Store, f: nat, g: nat, prim: Prim)
    requires OperandsKeep(f, g, prim) && args.Pair? && DefsValid(args.car)
    ensures Keeps(LetIn(args, defEnv, bodyEnv, s, f, prim), LetIn(args, defEnv, bodyEnv, s, g, prim))
  {
    hide Definitions;
    hide Sequence;
    hide OperandsKeep;
    DefinitionsKeep(args.car, defEnv, |s|, s + [map[]], f, g, prim);
    var r := Definitions(args.car, defEnv, |s|, s + [map[]], f, prim);
    if r.Ret? { SequenceKeeps(args.cdr, bodyEnv, r.s, f, g, prim); }
  }

  lemma FormKeeps(form: Form, args: Value, env: Env, s: Store, f: nat, g: nat, prim: Prim)
    requires OperandsKeep(f, g, prim) && FormArityOk(form, args)
    ensures Keeps(Apply(form, args, env, s, f, prim), Apply(form, args, env, s, g, prim))
  {
    hide Operand;
    hide Eval;
    hide OperandsKeep;
    hide SetIn;
    hide Find;
    match form
    case If =>
      Keep(args.car, env, s, f, g, prim);
      var r := Operand(args.car, env, s, f, prim);
      if r.Ret? {
        Keep(args.cdr.car, env, r.s, f, g, prim);
        if args.cdr.cdr.Pair? { Keep(args.cdr.cdr.car, env, r.s, f, g, prim); }
      }
    case Begin => SequenceKeeps(args, env, s, f, g, prim);
    case And => ConnectiveKeeps(true, args, env, s, f, g, prim);
    case Or => ConnectiveKeeps(false, args, env, s, f, g, prim);
    case Cond => if CondValid(args) { ClausesKeep(args, env, s, f, g, prim); }
    case Let => if DefsValid(args.car) { LetKeeps(args, env, [|s|] + env, s, f, g, prim); }
    case LetStar => if DefsValid(args.car) { LetKeeps(args, [|s|] + env, [|s|] + env, s, f, g, prim); }
    case Define => Keep(args.cdr.car, env, s, f, g, prim);
    case SetBang => Keep(args.cdr.car, env, s, f, g, prim);
    case Quote =>
    case Lambda =>
  }

  lemma CallKeeps(op: Value, args: Value, env: Env, s: Store, f: nat, g: nat, prim: Prim)
    requires OperandsKeep(f, g, prim)
    ensures Keeps(Call(op, args, env, s, f, prim), Call(op, args, env, s, g, prim))
  {
    hide Operands;
    hide Sequence;
    hide Apply;
    hide BindAll;
    hide OperandsKeep;
    if op.Special? && FormArityOk(op.form, args) {
      FormKeeps(op.form, args, env, s, f, g, prim);
    } else if op.Closure? || op.Builtin? {
      OperandListKeeps(args, env, s, f, g, prim);
      var r := Operands(args, env, s, f, prim);
      if r.Ret? && op.Closure? {
        SequenceKeeps(op.body, [|r.s|] + op.env, BindAll(op.params, r.v, r.s + [map[]], |r.s|), f, g, prim);
      }
    }
  }

  /** More fuel changes nothing about an evaluation that has ended. */
  lemma {:induction false} EvalKeeps(e: Value, env: Env, s: Store, f: nat, g: nat, prim: Prim)
    requires f <= g
    ensures Keeps(Eval(e, env, s, f, prim), Eval(e, env, s, g, prim))
    decreases f
  {
    hide Call;
    hide Lookup;
    if f > 0 {
      var f', g' := f - 1, g - 1;
      forall e', env', s' ensures Keeps(Operand(e', env', s', f', prim), Operand(e', env', s', g', prim)) {
        EvalKeeps(e', env', s', f', g', prim);
      }
      if e.Pair? {
        var r := Operand(e.car, env, s, f - 1, prim);
        if r.Ret? { CallKeeps(r.v, e.cdr, env, r.s, f - 1, g - 1, prim); }
      }
    }
  }
}
