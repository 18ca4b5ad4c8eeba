/** Where eval.c departs from R7RS, and exactly when: `or`, `=>` and variables. */
module Departures {
  import opened Objects
  import opened BigStep

  /** The same answer, however deep the evaluations were nested */
  predicate SameAnswer(a: Ans, b: Ans) {
    if a.Ret? then b.Ret? && a.v == b.v && a.s == b.s else a.Fail? == b.Fail? && a.OutOfFuel? == b.OutOfFuel?
  }

  // ----- or -----

  /** `or` in section 4.2.1 of R7RS: the first true value is the value. */
  function FirstTrue(list: Value, env: Env, s: Store, f: nat, prim: Prim): Ans {
    if !list.Pair? then Ret(Bool(false), s, 0)
    else if list.cdr.Nil? then Eval(list.car, env, s, f, prim)
    else
      var r := Operand(list.car, env, s, f, prim);
      if !r.Ret? || IsTrue(r.v) then r else After(r.nest, FirstTrue(list.cdr, env, r.s, f, prim))
  }

  /** The true value of an operand that is not the last, if there is one */
  function Decider(list: Value, env: Env, s: Store, f: nat, prim: Prim): Option<Value> {
    if !list.Pair? || list.cdr.Nil? then None
    else
      var r := Operand(list.car, env, s, f, prim);
      if !r.Ret? then None
      else if IsTrue(r.v) then Some(r.v)
      else Decider(list.cdr, env, r.s, f, prim)
  }

  /** The code gives the answer of R7RS exactly when the last operand decides, or the deciding value is `#t`. */
  lemma {:induction false} OrIsFirstTrue(list: Value, env: Env, s: Store, f: nat, prim: Prim)
    ensures var d := Decider(list, env, s, f, prim);
      && (SameAnswer(Connective(false, list, env, s, f, prim), FirstTrue(list, env, s, f, prim)) <==>
          d in {None, Some(Bool(true))})
      && (d.Some? ==> var r := Connective(false, list, env, s, f, prim);
           r.Ret? && r.v == Bool(true) && FirstTrue(list, env, s, f, prim) == r.(v := d.value))
  {
    hide Operand;
    hide Eval;
    if list.Pair? && !list.cdr.Nil? {
      var r := Operand(list.car, env, s, f, prim);
      if r.Ret? && !IsTrue(r.v) { OrIsFirstTrue(list.cdr, env, r.s, f, prim); }
    }
  }

  /** `(or 2 3)` is 2 in R7RS. */
  lemma OrTwoThree(env: Env, s: Store, prim: Prim)
    ensures var list := Pair(Other(2), Pair(Other(3), Nil));
      && FirstTrue(list, env, s, 1, prim) == Ret(Other(2), s, 1)
      && Eval(Pair(Special(Or), list), env, s, 2, prim) == Ret(Bool(true), s, 1)
  {
  }

  // ----- and -----

  /** `and` in section 4.2.1 of R7RS: the first false value, or the last value, is the value. */
  function FirstFalse(list: Value, env: Env, s: Store, f: nat, prim: Prim): Ans {
    if !list.Pair? then Ret(Bool(true), s, 0)
    else if list.cdr.Nil? then Eval(list.car, env, s, f, prim)
    else
      var r := Operand(list.car, env, s, f, prim);
      if !r.Ret? || !IsTrue(r.v) then r else After(r.nest, FirstFalse(list.cdr, env, r.s, f, prim))
  }

  /** The boolean that `and` gives is the value that decides, so here nothing is lost. */
  lemma {:induction false} AndIsFirstFalse(list: Value, env: Env, s: Store, f: nat, prim: Prim)
    ensures Connective(true, list, env, s, f, prim) == FirstFalse(list, env, s, f, prim)
  {
    hide Operand;
    hide Eval;
    if list.Pair? && !list.cdr.Nil? {
      var r := Operand(list.car, env, s, f, prim);
      if r.Ret? && IsTrue(r.v) { AndIsFirstFalse(list.cdr, env, r.s, f, prim); }
    }
  }

  // ----- => -----

  predicate IsProcedure(v: Value) { v.Closure? || v.Builtin? }

  /** A procedure called with one value, as section 4.2.1 of R7RS has it after `=>` */
  function Receive(op: Value, v: Value, s: Store, f: nat, prim: Prim): Ans
    requires IsProcedure(op)
  {
    var args := Pair(v, Nil);
    match op
    case Closure(params, body, cenv) =>
      if !ClosureArityOk(params, args) then Fail(0)
      else Sequence(body, [|s|] + cenv, BindAll(params, args, s + [map[]], |s|), f, prim)
    case Builtin(p, arity, variadic) =>
      var r := if ArityOk(1, arity, variadic) then prim(p, args) else None;
      if r.None? then Fail(0) else Ret(r.value, s, 0)
  }

  /** The call that eval_clause builds */
  function BuiltCall(op: Value, v: Value): Value { Pair(op, Pair(v, Nil)) }

  /** Evaluating `v` as an expression gives `v` and changes nothing. */
  predicate EvaluatesToItself(v: Value, env: Env, s: Store, f: nat, prim: Prim) {
    SameAnswer(Eval(v, env, s, f, prim), Ret(v, s, 0))
  }

  /** All but symbols and pairs do. */
  lemma SelfEvaluating(v: Value, env: Env, s: Store, f: nat, prim: Prim)
    requires f > 0 && !v.Sym? && !v.Pair?
    ensures EvaluatesToItself(v, env, s, f, prim)
  {
  }

  /** The call evaluates its argument once more. */
  lemma CallAgain(op: Value, v: Value, env: Env, s: Store, f: nat, prim: Prim)
    requires IsProcedure(op) && f > 0
    ensures var a := Eval(v, env, s, f, prim);
      SameAnswer(Eval(BuiltCall(op, v), env, s, f + 1, prim), if a.Ret? then Receive(op, a.v, a.s, f, prim) else a)
  {
    hide Sequence;
    hide BindAll;
    var e := BuiltCall(op, v);
    assert IsProper(Nil) && IsProper(e.cdr);
    assert Eval(op, env, s, f, prim) == Ret(op, s, 0);
    OneOperand(v, env, s, f, prim);
    hide Operands;
    assert Eval(e, env, s, f + 1, prim) == After(1, Call(op, e.cdr, env, s, f, prim));
    var a := Eval(v, env, s, f, prim);
    if a.Ret? { assert Length(Pair(a.v, Nil)) == 1; }
  }

  lemma OneOperand(v: Value, env: Env, s: Store, f: nat, prim: Prim)
    ensures var a := Eval(v, env, s, f, prim); var r := Operands(Pair(v, Nil), env, s, f, prim);
      if a.Ret? then r == Ret(Pair(a.v, Nil), a.s, a.nest + 1) else SameAnswer(r, a)
  {
    hide Eval;
    var a := Eval(v, env, s, f, prim);
    if a.Ret? { assert Operands(Nil, env, a.s, f, prim) == Ret(Nil, a.s, 0); }
  }

  /** `(lambda x x)` */
  const LIST: Value := Closure(Sym("x"), Pair(Sym("x"), Nil), [])

  lemma ListReceives(v: Value, s: Store, f: nat, prim: Prim)
    requires f > 0
    ensures Receive(LIST, v, s, f, prim) == Ret(Pair(v, Nil), s + [map[Sym("x") := Pair(v, Nil)]], 0)
  {
    var x, s', id := Sym("x"), s + [map[]], |s|;
    assert Length(x) == 0 && !IsProper(x);
    var t := BindAll(x, Pair(v, Nil), s', id);
    assert t == s'[id := map[x := Pair(v, Nil)]] == s + [map[x := Pair(v, Nil)]];
    assert Find(t, [id], x) == Some(id);
    assert Eval(x, [id], t, f, prim) == Ret(Pair(v, Nil), t, 0);
    assert [id] + [] == [id];
  }

  /** For one receiver: a value that evaluates to itself is received as R7RS has it. */
  lemma ArrowReceives(op: Value, v: Value, env: Env, s: Store, f: nat, prim: Prim)
    requires IsProcedure(op) && f > 0 && EvaluatesToItself(v, env, s, f, prim)
    ensures SameAnswer(Eval(BuiltCall(op, v), env, s, f + 1, prim), Receive(op, v, s, f, prim))
  {
    hide Eval;
    hide Receive;
    CallAgain(op, v, env, s, f, prim);
  }

  /** Every receiver gets the value of the test, as in R7RS, exactly when that value evaluates to itself. */
  lemma ArrowIsReceive(v: Value, env: Env, s: Store, f: nat, prim: Prim)
    requires f > 0
    ensures (forall op :: IsProcedure(op) ==>
              SameAnswer(Eval(BuiltCall(op, v), env, s, f + 1, prim), Receive(op, v, s, f, prim)))
       <==> EvaluatesToItself(v, env, s, f, prim)
  {
    hide Eval;
    hide Receive;
    if EvaluatesToItself(v, env, s, f, prim) {
      forall op | IsProcedure(op)
        ensures SameAnswer(Eval(BuiltCall(op, v), env, s, f + 1, prim), Receive(op, v, s, f, prim))
      {
        ArrowReceives(op, v, env, s, f, prim);
      }
    } else {
      var a := Eval(v, env, s, f, prim);
      CallAgain(LIST, v, env, s, f, prim);
      ListReceives(v, s, f, prim);
      if a.Ret? {
        ListReceives(a.v, a.s, f, prim);
        assert (s + [map[Sym("x") := Pair(v, Nil)]])[..|s|] == s;
        assert (a.s + [map[Sym("x") := Pair(a.v, Nil)]])[..|a.s|] == a.s;
      }
      assert !SameAnswer(Eval(BuiltCall(LIST, v), env, s, f + 1, prim), Receive(LIST, v, s, f, prim));
    }
  }

  /** A clause with `=>`, whose receiver is an expression: the same condition, on the bindings after the receiver. */
  lemma ClauseReceives(v: Value, receiver: Value, env: Env, s: Store, f: nat, prim: Prim)
    requires f > 0
    ensures var body := Pair(Sym("=>"), Pair(receiver, Nil)); var r := Operand(receiver, env, s, f + 1, prim);
      r.Ret? && IsProcedure(r.v) && EvaluatesToItself(v, env, r.s, f, prim) ==>
        SameAnswer(Clause(v, body, env, s, f + 1, prim), Receive(r.v, v, r.s, f, prim))
  {
    hide Eval;
    hide Receive;
    var r := Operand(receiver, env, s, f + 1, prim);
    if r.Ret? && IsProcedure(r.v) && EvaluatesToItself(v, env, r.s, f, prim) {
      ArrowReceives(r.v, v, env, r.s, f, prim);
    }
  }

  /** `((quote y) => list)` in `cond`, with `y` unbound: an error, where R7RS gives a list of one symbol. */
  lemma ArrowSymbol(s: Store, prim: Prim)
    ensures var body := Pair(Sym("=>"), Pair(LIST, Nil));
      && Clause(Sym("y"), body, [], s, 2, prim).Fail?
      && Receive(LIST, Sym("y"), s, 1, prim).Ret?
  {
  }

  // ----- variables -----

  /** A bound variable has the value that it is bound to exactly when that is not the unspecified value. */
  lemma VariableHasValue(x: Value, env: Env, s: Store, f: nat, prim: Prim)
    requires x.Sym? && f > 0 && Find(s, env, x).Some?
    ensures var id := Find(s, env, x).value;
      && x in Vars(s, id)
      && (Eval(x, env, s, f, prim) == Ret(Vars(s, id)[x], s, 0) <==> !Vars(s, id)[x].Void?)
      && (Vars(s, id)[x].Void? ==> Eval(x, env, s, f, prim) == Fail(0))
  {
    FoundIsBound(s, env, x);
  }

  lemma {:induction false} FoundIsBound(s: Store, env: Env, x: Value)
    ensures Find(s, env, x).Some? ==> x in Vars(s, Find(s, env, x).value)
  {
    if env != [] { FoundIsBound(s, env[1..], x); }
  }

  const UNSPECIFIED: Value := Pair(Special(If), Pair(Bool(false), Pair(Bool(false), Nil)))

  /** `(define x (if #f #f))` binds `x`. */
  lemma DefineUnspecified(prim: Prim)
    ensures var x := Sym("x");
      Operand(Pair(Special(Define), Pair(x, Pair(UNSPECIFIED, Nil))), [0], [map[]], 4, prim) ==
        Ret(Void, [map[x := Void]], 3)
  {
    assert Operand(UNSPECIFIED, [0], [map[]], 3, prim) == Ret(Void, [map[]], 2);
    hide IfThen;
  }

  /** `(begin (define x (if #f #f)) x)` is an error, although `x` is bound. */
  lemma UnspecifiedVariable(prim: Prim)
    ensures var x := Sym("x"); var define := Pair(Special(Define), Pair(x, Pair(UNSPECIFIED, Nil)));
      && Operand(define, [0], [map[]], 4, prim) == Ret(Void, [map[x := Void]], 3)
      && Operand(Pair(Special(Begin), Pair(define, Pair(x, Nil))), [0], [map[]], 5, prim).Fail?
  {
    DefineUnspecified(prim);
    hide DefineIn;
    hide IfThen;
  }
}
