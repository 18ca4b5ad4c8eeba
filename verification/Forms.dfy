/** What the special forms and calls mean, and which of them are short for others, as section 7.3 of R7RS has it. */
module Forms {
  import opened Objects
  import opened BigStep
  import opened Departures
  import opened Formals

  /** The expression stands for the special form: it is that value, or a variable bound to it. */
  predicate Is(e: Value, form: Form, env: Env, s: Store) {
    e == Special(form) || (e.Sym? && Lookup(s, env, e) == Special(form))
  }

  /** A use of a special form: its name is looked up, and nothing else is evaluated. */
  lemma FormUse(op: Value, form: Form, args: Value, env: Env, s: Store, f: nat, prim: Prim)
    requires Is(op, form, env, s) && f >= 2
    ensures SameAnswer(Eval(Pair(op, args), env, s, f, prim),
              if IsProper(args) && FormArityOk(form, args) then Apply(form, args, env, s, f - 1, prim) else Fail(0))
  {
    hide Apply;
    hide FormArityOk;
    assert Eval(op, env, s, f - 1, prim) == Ret(Special(form), s, 0);
  }

  /** How many operands each form takes: so many, or at least so many */
  lemma FormArities(args: Value)
    ensures FormArityOk(Quote, args) <==> Length(args) == 1
    ensures FormArityOk(SetBang, args) <==> Length(args) == 2
    ensures FormArityOk(And, args) && FormArityOk(Or, args)
    ensures FormArityOk(Begin, args) <==> Length(args) >= 1
    ensures FormArityOk(Cond, args) <==> Length(args) >= 1
    ensures FormArityOk(If, args) <==> Length(args) >= 2
    ensures FormArityOk(Let, args) <==> Length(args) >= 2
    ensures FormArityOk(LetStar, args) <==> Length(args) >= 2
    ensures FormArityOk(Lambda, args) <==> Length(args) >= 2
    ensures FormArityOk(Define, args) <==> Length(args) >= 2
  {
  }

  lemma TwoOperands(x: Value, e: Value)
    ensures var args := Pair(x, Pair(e, Nil));
      IsProper(args) && Length(args) == 2 && FormArityOk(SetBang, args) && FormArityOk(Define, args)
  {
    var last := Pair(e, Nil);
    assert IsProper(last.cdr) && Length(last.cdr) == 0;
    assert IsProper(last) && Length(last) == 1;
    FormArities(Pair(x, Pair(e, Nil)));
  }

  // ----- variables -----

  /** The innermost scope that binds a variable decides. */
  lemma InnermostWins(s: Store, id: nat, env: Env, x: Value)
    ensures Lookup(s, [], x) == Void
    ensures Lookup(s, [id] + env, x) == if id < |s| && x in s[id] then s[id][x] else Lookup(s, env, x)
  {
    assert ([id] + env)[1..] == env;
  }

  /** All scopes of the environment exist. */
  predicate InStore(env: Env, s: Store) { forall i :: 0 <= i < |env| ==> env[i] < |s| }

  /** Scopes that the environment has are the same in both stores. */
  predicate Agree(env: Env, s: Store, s': Store) {
    InStore(env, s) && InStore(env, s') && forall i :: 0 <= i < |env| ==> s[env[i]] == s'[env[i]]
  }

  lemma {:induction false} SameLookup(env: Env, s: Store, s': Store, x: Value)
    requires Agree(env, s, s')
    ensures Lookup(s, env, x) == Lookup(s', env, x)
  {
    if env != [] && x !in s[env[0]] {
      var rest := env[1..];
      assert forall i :: 0 <= i < |rest| ==> rest[i] == env[i + 1];
      SameLookup(rest, s, s', x);
      assert env == [env[0]] + rest;
      InnermostWins(s, env[0], rest, x);
      InnermostWins(s', env[0], rest, x);
    }
  }

  // ----- simple forms -----

  lemma QuoteIs(d: Value, env: Env, s: Store, f: nat, prim: Prim)
    requires f >= 2
    ensures SameAnswer(Eval(Pair(Special(Quote), Pair(d, Nil)), env, s, f, prim), Ret(d, s, 0))
  {
    var args := Pair(d, Nil);
    assert IsProper(args.cdr) && Length(args.cdr) == 0;
    assert IsProper(args) && Length(args) == 1;
    FormUse(Special(Quote), Quote, args, env, s, f, prim);
  }

  /** A procedure has the environment that its lambda expression is evaluated in. */
  lemma LambdaIs(formals: Value, body: Value, env: Env, s: Store, f: nat, prim: Prim)
    requires f >= 2
    ensures SameAnswer(Eval(Pair(Special(Lambda), Pair(formals, body)), env, s, f, prim),
              if body.Pair? && IsProper(body) && IsSymbolList(formals) then Ret(Closure(formals, body, env), s, 0)
              else Fail(0))
  {
    FormUse(Special(Lambda), Lambda, Pair(formals, body), env, s, f, prim);
  }

  /** Only `#f` is false; without an alternative the value is then unspecified. */
  lemma IfIs(test: Value, then': Value, more: Value, env: Env, s: Store, f: nat, prim: Prim)
    requires f >= 2 && (more.Nil? || (more.Pair? && more.cdr.Nil?))
    ensures var r := Operand(test, env, s, f - 1, prim);
      SameAnswer(Eval(Pair(Special(If), Pair(test, Pair(then', more))), env, s, f, prim),
        if !r.Ret? then r
        else if r.v != Bool(false) then Eval(then', env, r.s, f - 1, prim)
        else if more.Pair? then Eval(more.car, env, r.s, f - 1, prim)
        else Ret(Void, r.s, 0))
  {
    hide Operand;
    var args := Pair(test, Pair(then', more));
    assert IsProper(more) && Length(more) <= 1;
    assert IsProper(args.cdr) && Length(args.cdr) == 1 + Length(more);
    assert IsProper(args) && Length(args) == 2 + Length(more);
    FormArities(args);
    FormUse(Special(If), If, args, env, s, f, prim);
    hide Eval;
  }

  /** One expression is in tail position; of more the first is evaluated before the others. */
  lemma BeginIs(first: Value, rest: Value, env: Env, s: Store, f: nat, prim: Prim)
    requires f >= 2 && IsProper(rest)
    ensures var r := Operand(first, env, s, f - 1, prim);
      SameAnswer(Eval(Pair(Special(Begin), Pair(first, rest)), env, s, f, prim),
        if rest.Nil? then Eval(first, env, s, f - 1, prim)
        else if r.Ret? then Sequence(rest, env, r.s, f - 1, prim)
        else r)
    ensures rest.Pair? ==>
      SameAnswer(Eval(Pair(Special(Begin), rest), env, s, f, prim), Sequence(rest, env, s, f - 1, prim))
  {
    hide Operand;
    FormUse(Special(Begin), Begin, Pair(first, rest), env, s, f, prim);
    if rest.Pair? { FormUse(Special(Begin), Begin, rest, env, s, f, prim); }
    hide Eval;
  }

  /** `set!` changes the binding that the variable had beforehand, and no other; there must be one. */
  lemma SetIs(x: Value, e: Value, env: Env, s: Store, f: nat, prim: Prim)
    requires f >= 2 && x.Sym?
    ensures var r, id := Operand(e, env, s, f - 1, prim), Find(s, env, x);
      SameAnswer(Eval(Pair(Special(SetBang), Pair(x, Pair(e, Nil))), env, s, f, prim),
        if id.None? then Fail(0)
        else if r.Ret? then Ret(Void, SetIn(r.s, id.value, x, r.v), 0)
        else r)
    ensures Find(s, env, x).Some? ==> Find(s, env, x).value in env && x in Vars(s, Find(s, env, x).value)
    ensures Find(s, env, x).None? ==> forall i :: 0 <= i < |env| ==> x !in Vars(s, env[i])
  {
    hide Operand;
    TwoOperands(x, e);
    FormUse(Special(SetBang), SetBang, Pair(x, Pair(e, Nil)), env, s, f, prim);
    FindIs(s, env, x);
    hide Eval;
    hide Find;
  }

  lemma {:induction false} FindIs(s: Store, env: Env, x: Value)
    ensures Find(s, env, x).Some? ==> Find(s, env, x).value in env && x in Vars(s, Find(s, env, x).value)
    ensures Find(s, env, x).None? ==> forall i :: 0 <= i < |env| ==> x !in Vars(s, env[i])
  {
    if env != [] {
      FindIs(s, env[1..], x);
      assert forall i :: 0 < i < |env| ==> env[i] == env[1..][i - 1];
    }
  }

  /** A binding that is set has the value, and every other one is as before. */
  lemma SetInIs(s: Store, id: nat, x: Value, v: Value, j: nat, y: Value)
    requires id < |s| && j < |s|
    ensures |SetIn(s, id, x, v)| == |s|
    ensures var m := SetIn(s, id, x, v)[j];
      if j == id && y == x then y in m && m[y] == v else (y in m <==> y in s[j]) && (y in m ==> m[y] == s[j][y])
  {
  }

  // ----- definitions -----

  /** `(define x e)` binds in the innermost scope. */
  lemma DefineIs(def: Value, x: Value, e: Value, env: Env, s: Store, f: nat, prim: Prim)
    requires Is(def, Define, env, s) && f >= 2 && x.Sym?
    ensures var r := Operand(e, env, s, f - 1, prim);
      SameAnswer(Eval(Pair(def, Pair(x, Pair(e, Nil))), env, s, f, prim),
        if r.Ret? then Ret(Void, SetIn(r.s, Inner(env), x, r.v), 0) else r)
    ensures env != [] ==> Inner(env) == env[0]
  {
    hide Operand;
    TwoOperands(x, e);
    FormUse(def, Define, Pair(x, Pair(e, Nil)), env, s, f, prim);
    hide Eval;
  }

  /** The expressions `(define (name . formals) . body)` and `(define name (lambda formals . body))` */
  function Definition(def: Value, name: Value, formals: Value, body: Value): Value
  {
    Pair(def, Pair(Pair(name, formals), body))
  }

  function LambdaDefinition(def: Value, lambda: Value, name: Value, formals: Value, body: Value): Value
  {
    Pair(def, Pair(name, Pair(Pair(lambda, Pair(formals, body)), Nil)))
  }

  /** The procedure is made with the formals, the body and the environment of the definition. */
  lemma DefinitionMakes(def: Value, name: Value, formals: Value, body: Value, env: Env, s: Store, f: nat, prim: Prim)
    requires Is(def, Define, env, s) && name.Sym? && f >= 2
    ensures SameAnswer(Eval(Definition(def, name, formals, body), env, s, f, prim),
              if body.Pair? && IsProper(body) && IsSymbolList(formals)
              then Ret(Void, SetIn(s, Inner(env), name, Closure(formals, body, env)), 0)
              else Fail(0))
  {
    FormUse(def, Define, Pair(Pair(name, formals), body), env, s, f, prim);
    hide Eval;
    hide SetIn;
  }

  /** The two definitions leave the same answer and bindings, and are errors for the same formals and bodies. */
  lemma DefinitionIsLambda(def: Value, lambda: Value, name: Value, formals: Value, body: Value,
        env: Env, s: Store, f: nat, prim: Prim)
    requires Is(def, Define, env, s) && Is(lambda, Lambda, env, s) && name.Sym? && f >= 3
    ensures SameAnswer(Eval(Definition(def, name, formals, body), env, s, f, prim),
              Eval(LambdaDefinition(def, lambda, name, formals, body), env, s, f, prim))
  {
    hide Eval;
    hide SetIn;
    DefinitionMakes(def, name, formals, body, env, s, f, prim);
    DefineIs(def, name, Pair(lambda, Pair(formals, body)), env, s, f, prim);
    FormUse(lambda, Lambda, Pair(formals, body), env, s, f - 1, prim);
  }

  // ----- calls -----

  /** The arguments are evaluated from the left. */
  lemma {:induction false} FromTheLeft(a: Value, rest: Value, env: Env, s: Store, f: nat, prim: Prim)
    ensures var r := Operand(a, env, s, f, prim);
      SameAnswer(Operands(Pair(a, rest), env, s, f, prim),
        if !r.Ret? then r else
          var more := Operands(rest, env, r.s, f, prim);
          if more.Ret? then Ret(Pair(r.v, more.v), more.s, 0) else more)
  {
    hide Operand;
  }

  /** The body of a procedure: its own scope, with its arguments, around which is the environment that it was made in */
  function Body(params: Value, body: Value, cenv: Env, args: Value, s: Store, f: nat, prim: Prim): Ans
  {
    if ClosureArityOk(params, args)
    then Sequence(body, [|s|] + cenv, BindAll(params, args, s + [map[]], |s|), f, prim)
    else Fail(0)
  }

  /** What the body sees: its formals in the new scope, and everything else as where the procedure was made */
  lemma BodySees(params: Value, args: Value, cenv: Env, s: Store, x: Value)
    requires InStore(cenv, s)
    ensures var s' := BindAll(params, args, s + [map[]], |s|);
      Lookup(s', [|s|] + cenv, x) ==
        if x in Bindings(params, args) then Bindings(params, args)[x] else Lookup(s, cenv, x)
  {
    var s0 := s + [map[]];
    var s' := BindAll(params, args, s0, |s|);
    BindAllBinds(params, args, s0, |s|);
    assert s'[|s|] == map[] + Bindings(params, args);
    InnermostWins(s', |s|, cenv, x);
    SameLookup(cenv, s, s', x);
    hide BindAll;
    hide Lookup;
  }

  /** A call of a variable that is bound to a procedure */
  lemma CallIs(name: Value, args: Value, env: Env, s: Store, f: nat, prim: Prim)
    requires name.Sym? && Lookup(s, env, name).Closure? && f >= 2
    ensures var p, r := Lookup(s, env, name), Operands(args, env, s, f - 1, prim);
      SameAnswer(Eval(Pair(name, args), env, s, f, prim),
        if !IsProper(args) then Fail(0)
        else if !r.Ret? then r
        else Body(p.params, p.body, p.env, r.v, r.s, f - 1, prim))
  {
    hide Operands;
    hide Sequence;
    hide BindAll;
    hide ClosureArityOk;
    var p := Lookup(s, env, name);
    assert Eval(name, env, s, f - 1, prim) == Ret(p, s, 0);
    hide Lookup;
  }

  /** A definition and then a call: the body runs in a new scope inside the environment of the definition. */
  lemma DefinedThenCalled(def: Value, name: Value, formals: Value, body: Value, args: Value,
        env: Env, s: Store, f: nat, prim: Prim)
    requires Is(def, Define, env, s) && name.Sym? && f >= 3 && env != [] && env[0] < |s|
    requires body.Pair? && IsProper(body) && IsSymbolList(formals) && IsProper(args)
    ensures var s1 := SetIn(s, env[0], name, Closure(formals, body, env));
      var r := Operands(args, env, s1, f - 2, prim);
      var program := Pair(Special(Begin), Pair(Definition(def, name, formals, body), Pair(Pair(name, args), Nil)));
      SameAnswer(Eval(program, env, s, f, prim),
        if r.Ret? then Body(formals, body, env, r.v, r.s, f - 2, prim) else r)
  {
    hide Eval;
    hide Body;
    hide Operands;
    hide Lookup;
    hide SetIn;
    hide Is;
    var d, call := Definition(def, name, formals, body), Pair(name, args);
    var s1 := SetIn(s, env[0], name, Closure(formals, body, env));
    DefinitionMakes(def, name, formals, body, env, s, f - 1, prim);
    BeginIs(d, Pair(call, Nil), env, s, f, prim);
    InnermostWins(s1, env[0], env[1..], name);
    assert env == [env[0]] + env[1..];
    SetInIs(s, env[0], name, Closure(formals, body, env), env[0], name);
    CallIs(name, args, env, s1, f - 1, prim);
  }

  /** So a procedure sees the variables around its definition: `(begin (define (name) y) (name))` is that of `y`. */
  lemma SeesItsScope(def: Value, name: Value, y: Value, env: Env, s: Store, f: nat, prim: Prim)
    requires Is(def, Define, env, s) && name.Sym? && y.Sym? && f >= 3 && env != [] && InStore(env, s)
    requires y != name && Lookup(s, env, y) != Void
    ensures var d, call := Definition(def, name, Nil, Pair(y, Nil)), Pair(name, Nil);
      var program := Pair(Special(Begin), Pair(d, Pair(call, Nil)));
      var r := Eval(program, env, s, f, prim);
      r.Ret? && r.v == Lookup(s, env, y)
  {
    var p := Closure(Nil, Pair(y, Nil), env);
    var s1 := SetIn(s, env[0], name, p);
    DefinedThenCalled(def, name, Nil, Pair(y, Nil), Nil, env, s, f, prim);
    SetLooks(s, env, env[0], name, p, y);
    BodySees(Nil, Nil, env, s1, y);
    hide Lookup;
    hide Is;
    hide SetIn;
    assert Operands(Nil, env, s1, f - 2, prim) == Ret(Nil, s1, 0);
    assert ClosureArityOk(Nil, Nil) && Bindings(Nil, Nil) == map[];
    var s2 := BindAll(Nil, Nil, s1 + [map[]], |s1|);
    assert Eval(y, [|s1|] + env, s2, f - 2, prim) == Ret(Lookup(s, env, y), s2, 0);
  }

  lemma {:induction false} SetLooks(s: Store, env: Env, id: nat, x: Value, v: Value, y: Value)
    requires InStore(env, s) && x != y && id < |s|
    ensures var s' := SetIn(s, id, x, v); InStore(env, s') && Lookup(s', env, y) == Lookup(s, env, y)
    decreases |env|
  {
    if env != [] {
      var rest := env[1..];
      assert forall i :: 0 <= i < |rest| ==> rest[i] == env[i + 1];
      SetLooks(s, rest, id, x, v, y);
      assert env == [env[0]] + rest;
      InnermostWins(s, env[0], rest, y);
      InnermostWins(SetIn(s, id, x, v), env[0], rest, y);
    }
  }

  /** A call of a variable that is bound to a procedure written in C */
  lemma BuiltinCallIs(name: Value, args: Value, env: Env, s: Store, f: nat, prim: Prim)
    requires name.Sym? && Lookup(s, env, name).Builtin? && f >= 2
    ensures var p, r := Lookup(s, env, name), Operands(args, env, s, f - 1, prim);
      SameAnswer(Eval(Pair(name, args), env, s, f, prim),
        if !IsProper(args) then Fail(0)
        else if !r.Ret? then r
        else if ArityOk(Length(r.v), p.arity, p.variadic) && prim(p.op, r.v).Some?
        then Ret(prim(p.op, r.v).value, r.s, 0)
        else Fail(0))
  {
    hide Operands;
    var p := Lookup(s, env, name);
    assert Eval(name, env, s, f - 1, prim) == Ret(p, s, 0);
    hide Lookup;
  }

  // ----- arity -----

  function Symbols(names: seq<string>, tail: Value): Value
  {
    if names == [] then tail else Pair(Sym(names[0]), Symbols(names[1..], tail))
  }

  lemma {:induction false} SymbolsLength(names: seq<string>, tail: Value)
    requires !tail.Pair?
    ensures Length(Symbols(names, tail)) == |names| && (IsProper(Symbols(names, tail)) <==> tail.Nil?)
  {
    if names != [] { SymbolsLength(names[1..], tail); }
  }

  /** As many arguments as there are formals, or with a dotted tail at least as many */
  lemma ProcedureArity(names: seq<string>, tail: Value, args: Value)
    requires tail.Nil? || tail.Sym?
    ensures ClosureArityOk(Symbols(names, tail), args) <==>
      if tail.Nil? then Length(args) == |names| else Length(args) >= |names|
  {
    SymbolsLength(names, tail);
  }

  // ----- derived forms -----

  /** What has ended is the same answer; otherwise more fuel is needed. */
  predicate EndsAs(a: Ans, b: Ans) { a.OutOfFuel? || SameAnswer(a, b) }

  /** The expressions have the same answers, with fuel for one turn more or less. */
  ghost predicate SameMeaning(e: Value, e': Value, env: Env, s: Store, prim: Prim) {
    forall f: nat :: f >= 3 ==>
      && EndsAs(Eval(e, env, s, f, prim), Eval(e', env, s, f + 1, prim))
      && EndsAs(Eval(e', env, s, f, prim), Eval(e, env, s, f, prim))
  }

  lemma MoreFuel(f: nat, prim: Prim)
    ensures OperandsKeep(f, f + 1, prim)
  {
    forall e, env, s ensures Keeps(Operand(e, env, s, f, prim), Operand(e, env, s, f + 1, prim)) {
      EvalKeeps(e, env, s, f, f + 1, prim);
    }
  }

  /** `(and a . rest)` is `(if a (and . rest) #f)`. */
  lemma AndIsIf(a: Value, rest: Value, env: Env, s: Store, prim: Prim)
    requires rest.Pair? && IsProper(rest)
    ensures var inner := Pair(Special(And), rest);
      SameMeaning(Pair(Special(And), Pair(a, rest)),
        Pair(Special(If), Pair(a, Pair(inner, Pair(Bool(false), Nil)))), env, s, prim)
  {
    var inner, no := Pair(Special(And), rest), Pair(Bool(false), Nil);
    forall f: nat | f >= 3
      ensures EndsAs(Eval(Pair(Special(And), Pair(a, rest)), env, s, f, prim),
                Eval(Pair(Special(If), Pair(a, Pair(inner, no))), env, s, f + 1, prim))
      ensures EndsAs(Eval(Pair(Special(If), Pair(a, Pair(inner, no))), env, s, f, prim),
                Eval(Pair(Special(And), Pair(a, rest)), env, s, f, prim))
    {
      AndOnce(a, rest, env, s, f, prim);
      IfIs(a, inner, no, env, s, f, prim);
      IfIs(a, inner, no, env, s, f + 1, prim);
      MoreFuel(f - 1, prim);
      MoreFuel(f - 2, prim);
      Keep(a, env, s, f - 1, f, prim);
      var r := Operand(a, env, s, f - 1, prim);
      if r.Ret? {
        AndRest(rest, env, r.s, f, prim);
        ConnectiveKeeps(true, rest, env, r.s, f - 2, f - 1, prim);
        assert Eval(Bool(false), env, r.s, f - 1, prim) == Ret(Bool(false), r.s, 0);
        assert Eval(Bool(false), env, r.s, f, prim) == Ret(Bool(false), r.s, 0);
      }
      hide Operand;
      hide Eval;
      hide Connective;
      hide OperandsKeep;
    }
  }

  lemma AndOnce(a: Value, rest: Value, env: Env, s: Store, f: nat, prim: Prim)
    requires rest.Pair? && IsProper(rest) && f >= 2
    ensures var r := Operand(a, env, s, f - 1, prim);
      SameAnswer(Eval(Pair(Special(And), Pair(a, rest)), env, s, f, prim),
        if !r.Ret? then r
        else if r.v != Bool(false) then Connective(true, rest, env, r.s, f - 1, prim)
        else Ret(Bool(false), r.s, 0))
  {
    hide Operand;
    FormUse(Special(And), And, Pair(a, rest), env, s, f, prim);
    hide Eval;
  }

  lemma AndRest(rest: Value, env: Env, s: Store, f: nat, prim: Prim)
    requires IsProper(rest) && f >= 3
    ensures SameAnswer(Eval(Pair(Special(And), rest), env, s, f, prim), Connective(true, rest, env, s, f - 1, prim))
    ensures SameAnswer(Eval(Pair(Special(And), rest), env, s, f - 1, prim), Connective(true, rest, env, s, f - 2, prim))
  {
    FormUse(Special(And), And, rest, env, s, f, prim);
    FormUse(Special(And), And, rest, env, s, f - 1, prim);
    hide Eval;
    hide Connective;
  }

  /** `(cond (else . body) . clauses)` is `(begin . body)`. */
  lemma ElseIsBegin(body: Value, clauses: Value, env: Env, s: Store, f: nat, prim: Prim)
    requires CondValid(Pair(Pair(Sym("else"), body), clauses)) && body.car != Sym("=>") && f >= 2
    ensures SameAnswer(Eval(Pair(Special(Cond), Pair(Pair(Sym("else"), body), clauses)), env, s, f, prim),
              Eval(Pair(Special(Begin), body), env, s, f, prim))
  {
    CondUse(Pair(Sym("else"), body), clauses, env, s, f, prim);
    BodyUse(body, env, s, f, prim);
    hide Eval;
    hide Sequence;
  }

  lemma BodyUse(body: Value, env: Env, s: Store, f: nat, prim: Prim)
    requires body.Pair? && IsProper(body) && f >= 2
    ensures SameAnswer(Eval(Pair(Special(Begin), body), env, s, f, prim), Sequence(body, env, s, f - 1, prim))
  {
    FormUse(Special(Begin), Begin, body, env, s, f, prim);
    hide Eval;
    hide Sequence;
  }

  lemma CondUse(clause: Value, clauses: Value, env: Env, s: Store, f: nat, prim: Prim)
    requires CondValid(Pair(clause, clauses)) && f >= 2
    ensures IsProper(clauses) && CondValid(clauses) && clause.Pair? && clause.cdr.Pair? && IsProper(clause.cdr)
    ensures SameAnswer(Eval(Pair(Special(Cond), Pair(clause, clauses)), env, s, f, prim),
              Clauses(Pair(clause, clauses), env, s, f - 1, prim))
  {
    ValidIsProper(clauses);
    FormUse(Special(Cond), Cond, Pair(clause, clauses), env, s, f, prim);
    hide Eval;
    hide Clauses;
  }

  lemma {:induction false} ValidIsProper(clauses: Value)
    requires CondValid(clauses)
    ensures IsProper(clauses)
  {
    if clauses.Pair? { ValidIsProper(clauses.cdr); }
  }

  /** `(if test (begin . body) (cond . clauses))`, without the last if there are no clauses */
  function CondAsIf(test: Value, body: Value, clauses: Value): Value
  {
    Pair(Special(If), Pair(test, Pair(Pair(Special(Begin), body), Others(clauses))))
  }

  function Others(clauses: Value): Value { if clauses.Nil? then Nil else Pair(Pair(Special(Cond), clauses), Nil) }

  /** `(cond (test . body) . clauses)` is `(if test (begin . body) (cond . clauses))`. */
  lemma CondIsIf(test: Value, body: Value, clauses: Value, env: Env, s: Store, prim: Prim)
    requires CondValid(Pair(Pair(test, body), clauses)) && test != Sym("else") && body.car != Sym("=>")
    ensures SameMeaning(Pair(Special(Cond), Pair(Pair(test, body), clauses)), CondAsIf(test, body, clauses),
              env, s, prim)
  {
    var e, e' := Pair(Special(Cond), Pair(Pair(test, body), clauses)), CondAsIf(test, body, clauses);
    forall f: nat | f >= 3
      ensures EndsAs(Eval(e, env, s, f, prim), Eval(e', env, s, f + 1, prim))
      ensures EndsAs(Eval(e', env, s, f, prim), Eval(e, env, s, f, prim))
    {
      CondTurn(test, body, clauses, env, s, f, prim);
    }
  }

  lemma CondTurn(test: Value, body: Value, clauses: Value, env: Env, s: Store, f: nat, prim: Prim)
    requires CondValid(Pair(Pair(test, body), clauses)) && test != Sym("else") && body.car != Sym("=>") && f >= 3
    ensures var e, e' := Pair(Special(Cond), Pair(Pair(test, body), clauses)), CondAsIf(test, body, clauses);
      && EndsAs(Eval(e, env, s, f, prim), Eval(e', env, s, f + 1, prim))
      && EndsAs(Eval(e', env, s, f, prim), Eval(e, env, s, f, prim))
  {
    CondUp(test, body, clauses, env, s, f, prim);
    CondDown(test, body, clauses, env, s, f, prim);
  }

  lemma CondUp(test: Value, body: Value, clauses: Value, env: Env, s: Store, f: nat, prim: Prim)
    requires CondValid(Pair(Pair(test, body), clauses)) && test != Sym("else") && body.car != Sym("=>") && f >= 3
    ensures EndsAs(Eval(Pair(Special(Cond), Pair(Pair(test, body), clauses)), env, s, f, prim),
              Eval(CondAsIf(test, body, clauses), env, s, f + 1, prim))
  {
    hide Operand;
    hide Eval;
    hide Clauses;
    hide Sequence;
    hide CondValid;
    CondUse(Pair(test, body), clauses, env, s, f, prim);
    CondOnce(test, body, clauses, env, s, f - 1, prim);
    IfIs(test, Pair(Special(Begin), body), Others(clauses), env, s, f + 1, prim);
    MoreFuel(f - 1, prim);
    Keep(test, env, s, f - 1, f, prim);
    var r := Operand(test, env, s, f - 1, prim);
    if r.Ret? {
      BodyUse(body, env, r.s, f, prim);
      OthersUse(clauses, env, r.s, f, prim);
    }
  }

  lemma CondDown(test: Value, body: Value, clauses: Value, env: Env, s: Store, f: nat, prim: Prim)
    requires CondValid(Pair(Pair(test, body), clauses)) && test != Sym("else") && body.car != Sym("=>") && f >= 3
    ensures EndsAs(Eval(CondAsIf(test, body, clauses), env, s, f, prim),
              Eval(Pair(Special(Cond), Pair(Pair(test, body), clauses)), env, s, f, prim))
  {
    hide Operand;
    hide Eval;
    hide Clauses;
    hide Sequence;
    hide CondValid;
    CondUse(Pair(test, body), clauses, env, s, f, prim);
    CondOnce(test, body, clauses, env, s, f - 1, prim);
    IfIs(test, Pair(Special(Begin), body), Others(clauses), env, s, f, prim);
    MoreFuel(f - 2, prim);
    var r := Operand(test, env, s, f - 1, prim);
    if r.Ret? {
      BodyUse(body, env, r.s, f - 1, prim);
      SequenceKeeps(body, env, r.s, f - 2, f - 1, prim);
      OthersUse(clauses, env, r.s, f - 1, prim);
      ClausesKeep(clauses, env, r.s, f - 2, f - 1, prim);
    }
  }

  lemma OthersUse(clauses: Value, env: Env, s: Store, f: nat, prim: Prim)
    requires CondValid(clauses) && f >= 2
    ensures if clauses.Nil? then Clauses(clauses, env, s, f - 1, prim) == Ret(Void, s, 0)
            else SameAnswer(Eval(Others(clauses).car, env, s, f, prim), Clauses(clauses, env, s, f - 1, prim))
  {
    if clauses.Pair? { CondUse(clauses.car, clauses.cdr, env, s, f, prim); }
    hide Eval;
  }

  lemma CondOnce(test: Value, body: Value, clauses: Value, env: Env, s: Store, f: nat, prim: Prim)
    requires CondValid(Pair(Pair(test, body), clauses)) && test != Sym("else") && body.car != Sym("=>")
    ensures var r := Operand(test, env, s, f, prim);
      SameAnswer(Clauses(Pair(Pair(test, body), clauses), env, s, f, prim),
        if !r.Ret? then r
        else if r.v != Bool(false) then Sequence(body, env, r.s, f, prim)
        else Clauses(clauses, env, r.s, f, prim))
  {
    hide Operand;
    hide Sequence;
  }

  // ----- let -----

  /** `((x e) ...)` */
  function Defs(names: seq<string>, inits: seq<Value>): Value
    requires |names| == |inits|
  {
    if names == [] then Nil
    else Pair(Pair(Sym(names[0]), Pair(inits[0], Nil)), Defs(names[1..], inits[1..]))
  }

  function ListOfValues(vs: seq<Value>): Value { if vs == [] then Nil else Pair(vs[0], ListOfValues(vs[1..])) }

  lemma {:induction false} DefsAreValid(names: seq<string>, inits: seq<Value>)
    requires |names| == |inits|
    ensures DefsValid(Defs(names, inits)) && IsProper(ListOfValues(inits)) && IsSymbolList(Symbols(names, Nil))
  {
    if names != [] { DefsAreValid(names[1..], inits[1..]); }
  }

  /** A variable or a constant: evaluating it changes nothing. */
  predicate IsSimple(e: Value) { !e.Pair? }

  lemma SimpleIs(e: Value, env: Env, s: Store, f: nat, prim: Prim)
    requires IsSimple(e) && f >= 1
    ensures Operand(e, env, s, f, prim) ==
      if e.Sym? then if Lookup(s, env, e).Void? then Fail(1) else Ret(Lookup(s, env, e), s, 1) else Ret(e, s, 1)
  {
    hide Lookup;
  }

  /** The definitions of a `let` bind what the same operands of a call are bound to. */
  lemma {:induction false} DefinitionsBind(names: seq<string>, inits: seq<Value>, env: Env, id: nat,
        s: Store, s0: Store, f: nat, prim: Prim)
    requires |names| == |inits| && f >= 1 && (forall e :: e in inits ==> IsSimple(e))
    requires Agree(env, s, s0) && id < |s| && id !in env && DefsValid(Defs(names, inits))
    ensures var r := Definitions(Defs(names, inits), env, id, s, f, prim);
      var a := Operands(ListOfValues(inits), env, s0, f, prim);
      if a.Ret? then r.Ret? && a.s == s0 && r.s == BindAll(Symbols(names, Nil), a.v, s, id) else r.Fail? && a.Fail?
    decreases |names|
  {
    hide Operand;
    hide Lookup;
    if names != [] {
      SimpleIs(inits[0], env, s, f, prim);
      SimpleIs(inits[0], env, s0, f, prim);
      SameLookup(env, s, s0, inits[0]);
      var r := Operand(inits[0], env, s, f, prim);
      if r.Ret? {
        var s' := SetIn(s, id, Sym(names[0]), r.v);
        DefinitionsBind(names[1..], inits[1..], env, id, s', s0, f, prim);
      }
    }
  }

  /** A `let` of variables and constants is a call of a lambda expression: `((lambda (x ...) . body) e ...)`. */
  lemma LetIsLambda(names: seq<string>, inits: seq<Value>, body: Value, env: Env, s: Store, f: nat, prim: Prim)
    requires |names| == |inits| && (forall e :: e in inits ==> IsSimple(e)) && InStore(env, s) && f >= 3
    ensures SameAnswer(Eval(Pair(Special(Let), Pair(Defs(names, inits), body)), env, s, f, prim),
              Eval(Pair(Pair(Special(Lambda), Pair(Symbols(names, Nil), body)), ListOfValues(inits)), env, s, f, prim))
  {
    hide Eval;
    hide Body;
    hide LetIn;
    hide Operands;
    var params, args := Symbols(names, Nil), ListOfValues(inits);
    DefsAreValid(names, inits);
    FormUse(Special(Let), Let, Pair(Defs(names, inits), body), env, s, f, prim);
    LambdaIs(params, body, env, s, f - 1, prim);
    LambdaCall(params, body, args, env, s, f, prim);
    if body.Pair? && IsProper(body) {
      LetBinds(names, inits, body, env, s, f - 1, prim);
    }
  }

  lemma LambdaCall(params: Value, body: Value, args: Value, env: Env, s: Store, f: nat, prim: Prim)
    requires f >= 3 && IsProper(args)
    ensures var lambda := Pair(Special(Lambda), Pair(params, body));
      var r := Eval(lambda, env, s, f - 1, prim);
      r.Fail? || (r.Ret? && r.v == Closure(params, body, env) && r.s == s) ==>
      var a := Operands(args, env, s, f - 1, prim);
      SameAnswer(Eval(Pair(lambda, args), env, s, f, prim),
        if r.Fail? then Fail(0) else if !a.Ret? then a else Body(params, body, env, a.v, a.s, f - 1, prim))
  {
    hide Operands;
    hide Sequence;
    hide BindAll;
    hide ClosureArityOk;
    hide Apply;
  }

  lemma LetBinds(names: seq<string>, inits: seq<Value>, body: Value, env: Env, s: Store, f: nat, prim: Prim)
    requires |names| == |inits| && (forall e :: e in inits ==> IsSimple(e)) && InStore(env, s) && f >= 1
    requires DefsValid(Defs(names, inits))
    ensures var a := Operands(ListOfValues(inits), env, s, f, prim);
      SameAnswer(LetIn(Pair(Defs(names, inits), body), env, [|s|] + env, s, f, prim),
        if a.Ret? then Body(Symbols(names, Nil), body, env, a.v, a.s, f, prim) else a)
  {
    hide Sequence;
    DefinitionsBind(names, inits, env, |s|, s + [map[]], s, f, prim);
    OperandsLength(ListOfValues(inits), env, s, f, prim);
    SymbolsLength(names, Nil);
    ValuesLength(inits);
    hide Definitions;
    hide Operands;
    hide BindAll;
  }

  lemma {:induction false} ValuesLength(vs: seq<Value>)
    ensures Length(ListOfValues(vs)) == |vs|
  {
    if vs != [] { ValuesLength(vs[1..]); }
  }

  lemma {:induction false} OperandsLength(list: Value, env: Env, s: Store, f: nat, prim: Prim)
    ensures var r := Operands(list, env, s, f, prim); r.Ret? ==> Length(r.v) == Length(list)
  {
    hide Operand;
    if list.Pair? {
      var r := Operand(list.car, env, s, f, prim);
      if r.Ret? { OperandsLength(list.cdr, env, r.s, f, prim); }
    }
  }

  /** The definitions as expressions in front of the body: `(define x e) ... . body` */
  function AsDefines(defs: Value, body: Value): Value
    requires DefsValid(defs)
  {
    if !defs.Pair? then body
    else Pair(Pair(Special(Define), Pair(defs.car.car, Pair(defs.car.cdr.car, Nil))), AsDefines(defs.cdr, body))
  }

  lemma {:induction false} DefinesAreList(defs: Value, body: Value)
    requires DefsValid(defs) && body.Pair? && IsProper(body)
    ensures AsDefines(defs, body).Pair? && IsProper(AsDefines(defs, body))
  {
    if defs.Pair? { DefinesAreList(defs.cdr, body); }
  }

  /** The definitions of a `let*` and then its body */
  function InTurn(defs: Value, body: Value, env: Env, s: Store, f: nat, prim: Prim): Ans
    requires DefsValid(defs) && env != []
  {
    var d := Definitions(defs, env, env[0], s, f, prim);
    if d.Ret? then Sequence(body, env, d.s, f, prim) else d
  }

  lemma OneInTurn(defs: Value, body: Value, env: Env, s: Store, f: nat, prim: Prim)
    requires DefsValid(defs) && defs.Pair? && env != []
    ensures var r := Operand(defs.car.cdr.car, env, s, f, prim);
      SameAnswer(InTurn(defs, body, env, s, f, prim),
        if r.Ret? then InTurn(defs.cdr, body, env, SetIn(r.s, env[0], defs.car.car, r.v), f, prim) else r)
  {
    hide Operand;
    hide Sequence;
    hide SetIn;
  }

  /** One definition in front of a body */
  lemma OneDefine(defs: Value, body: Value, env: Env, s: Store, f: nat, prim: Prim)
    requires DefsValid(defs) && defs.Pair? && body.Pair? && IsProper(body) && env != [] && f >= 2
    ensures var r := Operand(defs.car.cdr.car, env, s, f - 1, prim);
      SameAnswer(Sequence(AsDefines(defs, body), env, s, f, prim),
        if r.Ret? then Sequence(AsDefines(defs.cdr, body), env, SetIn(r.s, env[0], defs.car.car, r.v), f, prim) else r)
  {
    DefinesAreList(defs.cdr, body);
    DefineIs(Special(Define), defs.car.car, defs.car.cdr.car, env, s, f, prim);
    hide Eval;
    hide SetIn;
  }

  /** In the scope of a `let*` its definitions are definitions in front of its body. */
  lemma {:induction false} DefinesUp(defs: Value, body: Value, env: Env, s: Store, f: nat, prim: Prim)
    requires DefsValid(defs) && body.Pair? && IsProper(body) && env != [] && f >= 1
    ensures EndsAs(InTurn(defs, body, env, s, f, prim), Sequence(AsDefines(defs, body), env, s, f + 1, prim))
    decreases defs
  {
    hide Operand;
    hide SetIn;
    if defs.Pair? {
      OneInTurn(defs, body, env, s, f, prim);
      OneDefine(defs, body, env, s, f + 1, prim);
      hide Sequence;
      hide InTurn;
      var r := Operand(defs.car.cdr.car, env, s, f, prim);
      if r.Ret? { DefinesUp(defs.cdr, body, env, SetIn(r.s, env[0], defs.car.car, r.v), f, prim); }
    } else {
      MoreFuel(f, prim);
      SequenceKeeps(body, env, s, f, f + 1, prim);
    }
  }

  lemma {:induction false} DefinesDown(defs: Value, body: Value, env: Env, s: Store, f: nat, prim: Prim)
    requires DefsValid(defs) && body.Pair? && IsProper(body) && env != [] && f >= 2
    ensures EndsAs(Sequence(AsDefines(defs, body), env, s, f, prim), InTurn(defs, body, env, s, f, prim))
    decreases defs
  {
    hide Operand;
    hide SetIn;
    if defs.Pair? {
      OneInTurn(defs, body, env, s, f, prim);
      OneDefine(defs, body, env, s, f, prim);
      MoreFuel(f - 1, prim);
      Keep(defs.car.cdr.car, env, s, f - 1, f, prim);
      hide OperandsKeep;
      hide Sequence;
      hide InTurn;
      var r := Operand(defs.car.cdr.car, env, s, f, prim);
      if r.Ret? { DefinesDown(defs.cdr, body, env, SetIn(r.s, env[0], defs.car.car, r.v), f, prim); }
    }
  }

  /** `(let* ((x e) ...) . body)` is `(let () (define x e) ... . body)`. */
  lemma LetStarIsDefines(defs: Value, body: Value, env: Env, s: Store, prim: Prim)
    requires DefsValid(defs) && body.Pair? && IsProper(body)
    ensures SameMeaning(Pair(Special(LetStar), Pair(defs, body)),
              Pair(Special(Let), Pair(Nil, AsDefines(defs, body))), env, s, prim)
  {
    var e, e' := Pair(Special(LetStar), Pair(defs, body)), Pair(Special(Let), Pair(Nil, AsDefines(defs, body)));
    var inner, s' := [|s|] + env, s + [map[]];
    forall f: nat | f >= 3
      ensures EndsAs(Eval(e, env, s, f, prim), Eval(e', env, s, f + 1, prim))
      ensures EndsAs(Eval(e', env, s, f, prim), Eval(e, env, s, f, prim))
    {
      LetStarUse(defs, body, env, s, f, prim);
      EmptyLetUse(defs, body, env, s, f, prim);
      EmptyLetUse(defs, body, env, s, f + 1, prim);
      DefinesUp(defs, body, inner, s', f - 1, prim);
      DefinesDown(defs, body, inner, s', f - 1, prim);
      hide Eval;
      hide InTurn;
      hide Sequence;
    }
  }

  lemma LetStarUse(defs: Value, body: Value, env: Env, s: Store, f: nat, prim: Prim)
    requires DefsValid(defs) && body.Pair? && IsProper(body) && f >= 2
    ensures SameAnswer(Eval(Pair(Special(LetStar), Pair(defs, body)), env, s, f, prim),
              InTurn(defs, body, [|s|] + env, s + [map[]], f - 1, prim))
  {
    FormUse(Special(LetStar), LetStar, Pair(defs, body), env, s, f, prim);
    hide Eval;
    hide Definitions;
    hide Sequence;
  }

  lemma EmptyLetUse(defs: Value, body: Value, env: Env, s: Store, f: nat, prim: Prim)
    requires DefsValid(defs) && body.Pair? && IsProper(body) && f >= 2
    ensures SameAnswer(Eval(Pair(Special(Let), Pair(Nil, AsDefines(defs, body))), env, s, f, prim),
              Sequence(AsDefines(defs, body), [|s|] + env, s + [map[]], f - 1, prim))
  {
    DefinesAreList(defs, body);
    FormUse(Special(Let), Let, Pair(Nil, AsDefines(defs, body)), env, s, f, prim);
    assert DefsValid(Nil) && Definitions(Nil, env, |s|, s + [map[]], f - 1, prim) == Ret(Void, s + [map[]], 0);
    hide Eval;
    hide Sequence;
  }
}
