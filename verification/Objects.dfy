/** Expressions, values and environments, as eval.c sees them. */
module Objects {

  /** The special forms that are modelled: values that a symbol is bound to, like procedures. */
  datatype Form = Quote | If | Begin | And | Or | Cond | Let | LetStar | Lambda | Define | SetBang

  /** A lexical environment: the numbers of its scopes, innermost first. */
  type Env = seq<nat>

  /** A Scheme object. Code is data: an expression is a value. `Other` stands for any further self-evaluating object. */
  datatype Value =
    | Void
    | Nil
    | Bool(b: bool)
    | Other(id: int)
    | Sym(name: string)
    | Pair(car: Value, cdr: Value)
    | Special(form: Form)
    | Closure(params: Value, body: Value, env: Env)
    | Builtin(op: nat, arity: nat, variadic: bool)

  datatype Option<T> = None | Some(value: T)

  /** The bindings of every scope. */
  type Store = seq<map<Value, Value>>

  /** What the procedures written in C do: an answer, or an error, for each list of arguments. */
  type Prim = (nat, Value) -> Option<Value>

  // ----- lists -----

  /** navi_is_proper_list */
  predicate IsProper(list: Value) { list.Nil? || (list.Pair? && IsProper(list.cdr)) }

  /** navi_list_length: the number of pairs */
  function Length(list: Value): (n: nat)
    ensures n >= 1 <==> list.Pair?
    ensures n >= 2 <==> list.Pair? && list.cdr.Pair?
    ensures n >= 3 <==> list.Pair? && list.cdr.Pair? && list.cdr.cdr.Pair?
  {
    if list.Pair? then 1 + Length(list.cdr) else 0
  }

  /** navi_is_list_of symbols, with a dotted tail allowed */
  predicate IsSymbolList(list: Value)
  {
    if list.Pair? then list.car.Sym? && IsSymbolList(list.cdr) else list.Nil? || list.Sym?
  }

  /** navi_is_true */
  predicate IsTrue(v: Value) { v != Bool(false) }

  predicate IsLast(cons: Value) { cons.Pair? && cons.cdr.Nil? }

  // ----- syntax checks -----

  /** lambda_valid */
  predicate LambdaValid(args: Value) { args.Pair? && args.cdr.Pair? && IsSymbolList(args.car) }

  /** One turn of cond_valid */
  predicate ClauseValid(clause: Value)
  {
    && IsProper(clause) && Length(clause) >= 2
    && (clause.cdr.car == Sym("=>") ==> Length(clause) == 3)
  }

  /** cond_valid */
  predicate CondValid(list: Value)
  {
    if list.Pair? then ClauseValid(list.car) && CondValid(list.cdr) else list.Nil?
  }

  /** let_def_valid */
  predicate DefValid(def: Value) { def.Pair? && def.cdr.Pair? && def.cdr.cdr.Nil? && def.car.Sym? }

  /** let_defs_valid */
  predicate DefsValid(list: Value)
  {
    if list.Pair? then DefValid(list.car) && DefsValid(list.cdr) else list.Nil?
  }

  /** navi_arity_satisfied */
  predicate ArityOk(n: nat, arity: nat, variadic: bool) { n == arity || (variadic && n > arity) }

  function FormArity(form: Form): (nat, bool)
  {
    match form
    case Quote => (1, false)
    case If => (2, true)
    case Begin => (1, true)
    case And => (0, true)
    case Or => (0, true)
    case Cond => (1, true)
    case Let => (2, true)
    case LetStar => (2, true)
    case Lambda => (2, true)
    case Define => (2, true)
    case SetBang => (2, false)
  }

  predicate FormArityOk(form: Form, args: Value)
  {
    var (arity, variadic) := FormArity(form);
    ArityOk(Length(args), arity, variadic)
  }

  predicate ClosureArityOk(params: Value, args: Value) { ArityOk(Length(args), Length(params), !IsProper(params)) }

  // ----- environments -----

  function Vars(s: Store, id: nat): map<Value, Value> { if id < |s| then s[id] else map[] }

  /** navi_env_binding: the innermost scope that binds `sym` */
  function Find(s: Store, env: Env, sym: Value): Option<nat>
  {
    if env == [] then None
    else if sym in Vars(s, env[0]) then Some(env[0])
    else Find(s, env[1..], sym)
  }

  /** navi_env_lookup, where an unbound symbol and one bound to the unspecified value look the same */
  function Lookup(s: Store, env: Env, sym: Value): Value
  {
    var id := Find(s, env, sym);
    if id.Some? && sym in Vars(s, id.value) then Vars(s, id.value)[sym] else Void
  }

  /** navi_scope_set */
  function SetIn(s: Store, id: nat, sym: Value, v: Value): Store
  {
    if id < |s| then s[id := s[id][sym := v]] else s
  }

  /** The loop of navi_extend_environment, and the dotted tail after it */
  function BindAll(params: Value, args: Value, s: Store, id: nat): Store
  {
    if params.Pair? && args.Pair? then BindAll(params.cdr, args.cdr, SetIn(s, id, params.car, args.car), id)
    else if params.Nil? then s
    else SetIn(s, id, params, args)
  }

  /** Where a `define` that names a procedure puts its closure. */
  function DefinedProcedure(decl: Value, body: Value, env: Env): Value
    requires decl.Pair?
  {
    Closure(decl.cdr, body, env)
  }

  function Inner(env: Env): nat { if env == [] then 0 else env[0] }
}
