/** What navi_extend_environment binds: formals to actuals, and a dotted tail to the rest of them. */
module Formals {
  import opened Objects

  /** The formals, with a dotted tail at the end */
  function Names(params: Value): seq<Value>
  {
    if params.Pair? then [params.car] + Names(params.cdr) else if params.Nil? then [] else [params]
  }

  function Nth(list: Value, i: nat): Value
    requires i < Length(list)
  {
    if i == 0 then list.car else Nth(list.cdr, i - 1)
  }

  /** What is left of a list after its first `n` elements */
  function Rest(list: Value, n: nat): Value
    requires n <= Length(list)
  {
    if n == 0 then list else Rest(list.cdr, n - 1)
  }

  /** The bindings that a call makes; of formals that are the same symbol, the last one counts. */
  function Bindings(params: Value, args: Value): map<Value, Value>
  {
    if params.Pair? && args.Pair? then map[params.car := args.car] + Bindings(params.cdr, args.cdr)
    else if params.Nil? then map[]
    else map[params := args]
  }

  /** Only the new scope changes, and by just these bindings. */
  lemma {:induction false} BindAllBinds(params: Value, args: Value, s: Store, id: nat)
    requires id < |s|
    ensures BindAll(params, args, s, id) == s[id := s[id] + Bindings(params, args)]
    decreases params
  {
    if params.Pair? && args.Pair? {
      var s' := SetIn(s, id, params.car, args.car);
      BindAllBinds(params.cdr, args.cdr, s', id);
      assert s'[id] + Bindings(params.cdr, args.cdr) == s[id] + Bindings(params, args);
    } else if params.Nil? {
      assert s[id] + map[] == s[id];
    } else {
      assert s[id] + map[params := args] == s[id][params := args];
    }
  }

  predicate Distinct(names: seq<Value>) { forall i, j :: 0 <= i < j < |names| ==> names[i] != names[j] }

  lemma {:induction false} TailIsLast(params: Value, i: nat)
    requires IsSymbolList(params) && i < Length(params)
    ensures |Names(params)| >= Length(params) && Names(params)[i] == Nth(params, i)
  {
    if i > 0 { TailIsLast(params.cdr, i - 1); } else if params.cdr.Pair? { TailIsLast(params.cdr, 0); }
  }

  lemma {:induction false} BindingsOfNames(params: Value, args: Value)
    requires IsSymbolList(params) && Length(params) <= Length(args)
    ensures Bindings(params, args).Keys == set n | n in Names(params)
  {
    if params.Pair? {
      BindingsOfNames(params.cdr, args.cdr);
      assert Names(params) == [params.car] + Names(params.cdr);
    }
  }

  /** With distinct formals, each formal gets its own argument. */
  lemma {:induction false} FormalGetsActual(params: Value, args: Value, i: nat)
    requires IsSymbolList(params) && Distinct(Names(params)) && i < Length(params) <= Length(args)
    ensures Nth(params, i) in Bindings(params, args) && Bindings(params, args)[Nth(params, i)] == Nth(args, i)
  {
    DistinctTail(params);
    BindingsOfNames(params.cdr, args.cdr);
    if i > 0 { FormalGetsActual(params.cdr, args.cdr, i - 1); }
  }

  lemma DistinctTail(params: Value)
    requires params.Pair? && Distinct(Names(params))
    ensures Distinct(Names(params.cdr)) && params.car !in Names(params.cdr)
  {
    var names, rest := Names(params), Names(params.cdr);
    assert names == [params.car] + rest;
    hide Names;
    assert forall j :: 0 <= j < |rest| ==> rest[j] == names[j + 1] != names[0];
  }

  /** A dotted tail gets the list of the arguments that are left. */
  lemma {:induction false} TailGetsRest(params: Value, args: Value)
    requires IsSymbolList(params) && Length(params) <= Length(args) && !IsProper(params)
    ensures Names(params) != []
    ensures var tail := Names(params)[|Names(params)| - 1];
      tail in Bindings(params, args) && Bindings(params, args)[tail] == Rest(args, Length(params))
  {
    if params.Pair? {
      TailGetsRest(params.cdr, args.cdr);
      assert Names(params) == [params.car] + Names(params.cdr);
    }
  }
}
