/**
 * What eval.c does: an expression in tail position comes back as a bounce, and the loop of navi_eval runs it.
 * The functions bound two things that the program does not: how deep calls of navi_eval may nest, and how often one
 * of them may bounce.
 */
module Trampoline {
  import opened Objects

  /** What _eval returns: a value, a bounce with its environment, or an error; `Spent` when a bound was reached. */
  datatype Out = Val(v: Value, s: Store) | Bounce(e: Value, env: Env, s: Store) | Err | Spent

  /** The bounds: `depth` further nested calls of navi_eval, and `bounces` for each. */
  datatype Vm = Vm(prim: Prim, depth: nat, bounces: nat)

  /** navi_eval, called from C code that _eval has called */
  function Nested(e: Value, env: Env, s: Store, m: Vm): (r: Out)
    ensures !r.Bounce?
    decreases m.depth, 1, 0, 0, 0
  {
    if m.depth == 0 then Spent else Run(e, env, s, m.(depth := m.depth - 1), m.bounces)
  }

  /** The loop of navi_eval, with `n` bounces left */
  function Run(e: Value, env: Env, s: Store, m: Vm, n: nat): (r: Out)
    ensures !r.Bounce?
    decreases m.depth, 6, n, 0, 0
  {
    var r := Eval(e, env, s, m);
    if !r.Bounce? then r
    else if n == 0 then Spent
    else Run(r.e, r.env, r.s, m, n - 1)
  }

  /** _eval */
  function Eval(e: Value, env: Env, s: Store, m: Vm): Out
    decreases m.depth, 5, 0, 0, 0
  {
    match e
    case Sym(_) =>
      var v := Lookup(s, env, e);
      if v.Void? then Err else Val(v, s)
    case Pair(_, _) => if IsProper(e) then EvalCall(e, env, s, m) else Err
    case _ => Val(e, s)
  }

  /** eval_call */
  function EvalCall(call: Value, env: Env, s: Store, m: Vm): Out
    requires call.Pair?
    decreases m.depth, 4, 1, 0, 0
  {
    var r := Nested(call.car, env, s, m);
    if r.Val? then CallProc(r.v, call.cdr, env, r.s, m) else r
  }

  /** The switch of eval_call */
  function CallProc(op: Value, args: Value, env: Env, s: Store, m: Vm): Out
    decreases m.depth, 4, 0, 0, 0
  {
    match op
    case Special(form) => if FormArityOk(form, args) then ApplyForm(form, args, env, s, m) else Err
    case Closure(_, _, _) => ProcedureCall(op, args, env, s, m)
    case Builtin(_, _, _) => ProcedureCall(op, args, env, s, m)
    case _ => Err
  }

  /** procedure_call */
  function ProcedureCall(op: Value, args: Value, env: Env, s: Store, m: Vm): Out
    requires op.Closure? || op.Builtin?
    decreases m.depth, 3, 1, 0, 0
  {
    var r := EvalArgs(args, env, s, m);
    if r.Val? then NaviApply(op, r.v, r.s, m) else r
  }

  /** The loop of procedure_call */
  function EvalArgs(list: Value, env: Env, s: Store, m: Vm): (r: Out)
    ensures !r.Bounce?
    decreases m.depth, 2, list, 0, 0
  {
    if !list.Pair? then Val(Nil, s) else
      var r := Nested(list.car, env, s, m);
      if !r.Val? then r else
        var rest := EvalArgs(list.cdr, env, r.s, m);
        if rest.Val? then Val(Pair(r.v, rest.v), rest.s) else rest
  }

  /** check_apply and do_apply for procedures */
  function NaviApply(op: Value, args: Value, s: Store, m: Vm): Out
    requires op.Closure? || op.Builtin?
    decreases m.depth, 3, 0, 0, 0
  {
    match op
    case Closure(params, body, env) =>
      if ClosureArityOk(params, args)
      then ScmBegin(body, [|s|] + env, BindAll(params, args, s + [map[]], |s|), m)
      else Err
    case Builtin(p, arity, variadic) =>
      if !ArityOk(Length(args), arity, variadic) || m.prim(p, args).None? then Err
      else Val(m.prim(p, args).value, s)
  }

  /** scm_begin */
  function ScmBegin(list: Value, env: Env, s: Store, m: Vm): Out
    decreases m.depth, 2, list, 0, 0
  {
    if !list.Pair? then Val(Void, s)
    else if IsLast(list) then Bounce(list.car, env, s)
    else
      var r := Nested(list.car, env, s, m);
      if r.Val? && list.cdr.Pair? then ScmBegin(list.cdr, env, r.s, m) else r
  }

  /** do_apply for special forms */
  function ApplyForm(form: Form, args: Value, env: Env, s: Store, m: Vm): Out
    requires FormArityOk(form, args)
    decreases m.depth, 3, 0, 0, 0
  {
    match form
    case Quote => Val(args.car, s)
    case If => ScmIf(args, env, s, m)
    case Begin => ScmBegin(args, env, s, m)
    case And => ScmAnd(args, env, s, m)
    case Or => ScmOr(args, env, s, m)
    case Cond => if CondValid(args) then ScmCond(args, env, s, m) else Err
    case Let => ScmLet(args, false, env, s, m)
    case LetStar => ScmLet(args, true, env, s, m)
    case Lambda => if LambdaValid(args) then Val(Closure(args.car, args.cdr, env), s) else Err
    case Define => ScmDefine(args, env, s, m)
    case SetBang => ScmSet(args, env, s, m)
  }

  /** scm_if */
  function ScmIf(args: Value, env: Env, s: Store, m: Vm): Out
    requires FormArityOk(If, args)
    decreases m.depth, 2, 0, 0, 0
  {
    if Length(args) > 3 then Err else
      var r := Nested(args.car, env, s, m);
      if !r.Val? then r
      else if IsTrue(r.v) then Bounce(args.cdr.car, env, r.s)
      else if Length(args) == 3 then Bounce(args.cdr.cdr.car, env, r.s)
      else Val(Void, r.s)
  }

  /** scm_and */
  function ScmAnd(list: Value, env: Env, s: Store, m: Vm): Out
    decreases m.depth, 2, list, 0, 0
  {
    if !list.Pair? then Val(Bool(true), s)
    else if IsLast(list) then Bounce(list.car, env, s)
    else
      var r := Nested(list.car, env, s, m);
      if !r.Val? then r
      else if !IsTrue(r.v) then Val(Bool(false), r.s)
      else ScmAnd(list.cdr, env, r.s, m)
  }

  /** scm_or */
  function ScmOr(list: Value, env: Env, s: Store, m: Vm): Out
    decreases m.depth, 2, list, 0, 0
  {
    if !list.Pair? then Val(Bool(false), s)
    else if IsLast(list) then Bounce(list.car, env, s)
    else
      var r := Nested(list.car, env, s, m);
      if !r.Val? then r
      else if IsTrue(r.v) then Val(Bool(true), r.s)
      else ScmOr(list.cdr, env, r.s, m)
  }

  /** The loop of scm_cond */
  function ScmCond(list: Value, env: Env, s: Store, m: Vm): Out
    requires CondValid(list)
    decreases m.depth, 2, list, 1, 0
  {
    if !list.Pair? then Val(Void, s)
    else if list.car.car == Sym("else") then EvalClause(Bool(true), list.car.cdr, env, s, m)
    else
      var r := Nested(list.car.car, env, s, m);
      if !r.Val? then r
      else if IsTrue(r.v) then EvalClause(r.v, list.car.cdr, env, r.s, m)
      else ScmCond(list.cdr, env, r.s, m)
  }

  /** eval_clause */
  function EvalClause(arg: Value, begin: Value, env: Env, s: Store, m: Vm): Out
    requires begin.Pair? && (begin.car == Sym("=>") ==> begin.cdr.Pair?)
    decreases m.depth, 2, begin, 1, 0
  {
    if begin.car == Sym("=>") then
      var r := Nested(begin.cdr.car, env, s, m);
      if r.Val? then Bounce(Pair(r.v, Pair(arg, Nil)), env, r.s) else r
    else ScmBegin(begin, env, s, m)
  }

  /** scm_let and scm_sequential_let */
  function ScmLet(args: Value, sequential: bool, env: Env, s: Store, m: Vm): Out
    requires args.Pair?
    decreases m.depth, 2, args, 1, 0
  {
    if !DefsValid(args.car) then Err else
      var inner := [|s|] + env;
      var r := LetExtend(args.car, if sequential then inner else env, |s|, s + [map[]], m);
      if r.Val? then ScmBegin(args.cdr, inner, r.s, m) else r
  }

  /** The loops of let_extend_env and sequential_let_extend_env */
  function LetExtend(defs: Value, env: Env, id: nat, s: Store, m: Vm): (r: Out)
    requires DefsValid(defs)
    ensures !r.Bounce?
    decreases m.depth, 2, defs, 0, 0
  {
    if !defs.Pair? then Val(Void, s) else
      var r := Nested(defs.car.cdr.car, env, s, m);
      if r.Val? then LetExtend(defs.cdr, env, id, SetIn(r.s, id, defs.car.car, r.v), m) else r
  }

  /** scm_define */
  function ScmDefine(args: Value, env: Env, s: Store, m: Vm): Out
    requires FormArityOk(Define, args)
    decreases m.depth, 2, 0, 0, 0
  {
    if args.car.Sym? then
      if !args.cdr.cdr.Nil? then Err else
        var r := Nested(args.cdr.car, env, s, m);
        if r.Val? then Val(Void, SetIn(r.s, Inner(env), args.car, r.v)) else r
    else if args.car.Pair? && IsSymbolList(args.car)
    then Val(Void, SetIn(s, Inner(env), args.car.car, DefinedProcedure(args.car, args.cdr, env)))
    else Err
  }

  /** scm_set: the binding is found before the value is computed. */
  function ScmSet(args: Value, env: Env, s: Store, m: Vm): Out
    requires FormArityOk(SetBang, args)
    decreases m.depth, 2, 0, 0, 0
  {
    if !args.car.Sym? then Err else
      var id := Find(s, env, args.car);
      if id.None? then Err else
        var r := Nested(args.cdr.car, env, s, m);
        if r.Val? then Val(Void, SetIn(r.s, id.value, args.car, r.v)) else r
  }
}
