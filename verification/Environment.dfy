/** environment.c: scopes as hash tables of bindings. Interned symbols are named by their strings. */
module Environments {
  import opened Objects

  const NAVI_ENV_HT_SIZE: nat := 64

  /** `struct navi_binding` */
  datatype Binding = Binding(symbol: string, obj: Value)

  type Bucket = seq<Binding>

  type Table = seq<Bucket>

  /** Where in memory the symbol with a given name is. */
  type Address = string -> nat

  /** ptr_hash and get_bucket */
  function Index(symbol: string, addr: Address): (i: nat)
    ensures i < NAVI_ENV_HT_SIZE
  {
    addr(symbol) % NAVI_ENV_HT_SIZE
  }

  /** The object of the first binding of a symbol in a bucket */
  function InBucket(b: Bucket, symbol: string): Option<Value>
  {
    if b == [] then None
    else if b[0].symbol == symbol then Some(b[0].obj)
    else InBucket(b[1..], symbol)
  }

  /** Every binding is in its own bucket, and a symbol has at most one. */
  ghost predicate TableOk(t: Table, addr: Address) {
    && |t| == NAVI_ENV_HT_SIZE
    && (forall i, j :: 0 <= i < |t| && 0 <= j < |t[i]| ==> Index(t[i][j].symbol, addr) == i)
    && (forall i :: 0 <= i < |t| ==> BucketOk(t[i]))
  }

  ghost predicate BucketOk(b: Bucket) { forall j, k :: 0 <= j < k < |b| ==> b[j].symbol != b[k].symbol }

  /** The finite map that a table stands for. */
  ghost function Contents(t: Table): map<string, Value> { Upto(t, |t|) }

  /** The bindings of the first `n` buckets */
  ghost function Upto(t: Table, n: nat): map<string, Value>
    requires n <= |t|
  {
    if n == 0 then map[] else Upto(t, n - 1) + BucketMap(t[n - 1])
  }

  ghost function BucketMap(b: Bucket): map<string, Value>
  {
    if b == [] then map[] else BucketMap(b[1..])[b[0].symbol := b[0].obj]
  }

  lemma {:induction false} BucketMapAt(b: Bucket, symbol: string)
    ensures symbol in BucketMap(b) <==> InBucket(b, symbol).Some?
    ensures symbol in BucketMap(b) ==> BucketMap(b)[symbol] == InBucket(b, symbol).value
    ensures symbol in BucketMap(b) ==> exists j :: 0 <= j < |b| && b[j].symbol == symbol
  {
    if b != [] && b[0].symbol != symbol {
      BucketMapAt(b[1..], symbol);
      if symbol in BucketMap(b[1..]) {
        var j :| 0 <= j < |b| - 1 && b[1..][j].symbol == symbol;
        assert b[j + 1].symbol == symbol;
      }
    }
  }

  lemma {:induction false} UptoAt(t: Table, n: nat, symbol: string, addr: Address)
    requires TableOk(t, addr) && n <= |t|
    ensures var i := Index(symbol, addr);
      && (symbol in Upto(t, n) <==> i < n && InBucket(t[i], symbol).Some?)
      && (symbol in Upto(t, n) ==> Upto(t, n)[symbol] == InBucket(t[i], symbol).value)
  {
    if n > 0 {
      UptoAt(t, n - 1, symbol, addr);
      BucketMapAt(t[n - 1], symbol);
    }
  }

  /** A symbol is looked for in its own bucket only. */
  lemma ContentsAt(t: Table, symbol: string, addr: Address)
    requires TableOk(t, addr)
    ensures symbol in Contents(t) <==> InBucket(t[Index(symbol, addr)], symbol).Some?
    ensures symbol in Contents(t) ==> Contents(t)[symbol] == InBucket(t[Index(symbol, addr)], symbol).value
  {
    UptoAt(t, |t|, symbol, addr);
  }

  // ----- changes of one bucket -----

  /** `b'` has `v` for `symbol`, or nothing, and is otherwise like `b`. */
  ghost predicate Changes(b: Bucket, b': Bucket, symbol: string, v: Option<Value>) {
    InBucket(b', symbol) == v && forall k :: k != symbol ==> InBucket(b', k) == InBucket(b, k)
  }

  lemma ContentsChange(t: Table, symbol: string, b: Bucket, v: Option<Value>, addr: Address)
    requires TableOk(t, addr) && Changes(t[Index(symbol, addr)], b, symbol, v)
    requires TableOk(t[Index(symbol, addr) := b], addr)
    ensures Contents(t[Index(symbol, addr) := b]) ==
      if v.Some? then Contents(t)[symbol := v.value] else Contents(t) - {symbol}
  {
    hide Contents;
    hide TableOk;
    SizeOf(t, addr);
    var t' := t[Index(symbol, addr) := b];
    var m := if v.Some? then Contents(t)[symbol := v.value] else Contents(t) - {symbol};
    forall k ensures k in Contents(t') <==> k in m
             ensures k in m ==> Contents(t')[k] == m[k]
    {
      ContentsAt(t, k, addr);
      ContentsAt(t', k, addr);
    }
    assert Contents(t') == m;
  }

  lemma SizeOf(t: Table, addr: Address)
    requires TableOk(t, addr)
    ensures |t| == NAVI_ENV_HT_SIZE
  {
  }

  /** The bucket without its binding number `j` */
  function Dropped(b: Bucket, j: nat): Bucket
    requires j < |b|
  {
    b[..j] + b[j + 1..]
  }

  lemma {:induction false} FoundAt(b: Bucket, j: nat)
    requires BucketOk(b) && j < |b|
    ensures InBucket(b, b[j].symbol) == Some(b[j].obj)
  {
    if j > 0 {
      FoundAt(b[1..], j - 1);
    }
  }

  lemma {:induction false} NotFound(b: Bucket, symbol: string)
    requires forall j :: 0 <= j < |b| ==> b[j].symbol != symbol
    ensures InBucket(b, symbol) == None
  {
    if b != [] { NotFound(b[1..], symbol); }
  }

  /** A change behind the first binding, which is another symbol's */
  lemma ChangesBehind(b: Bucket, b': Bucket, symbol: string, v: Option<Value>)
    requires b != [] && b' != [] && b[0] == b'[0] && b[0].symbol != symbol
    requires Changes(b[1..], b'[1..], symbol, v)
    ensures Changes(b, b', symbol, v)
  {
  }

  lemma {:induction false} ReplacedBucket(b: Bucket, j: nat, v: Value)
    requires BucketOk(b) && j < |b|
    ensures var b' := b[j := Binding(b[j].symbol, v)]; BucketOk(b') && Changes(b, b', b[j].symbol, Some(v))
  {
    var b' := b[j := Binding(b[j].symbol, v)];
    if j > 0 {
      ReplacedBucket(b[1..], j - 1, v);
      assert b'[1..] == b[1..][j - 1 := Binding(b[j].symbol, v)];
      ChangesBehind(b, b', b[j].symbol, Some(v));
    }
  }

  lemma {:induction false} DroppedBucket(b: Bucket, j: nat)
    requires BucketOk(b) && j < |b|
    ensures BucketOk(Dropped(b, j)) && Changes(b, Dropped(b, j), b[j].symbol, None)
  {
    var b' := Dropped(b, j);
    DroppedOk(b, j);
    if j == 0 {
      assert b' == b[1..];
      NotFound(b', b[0].symbol);
    } else {
      assert b[1..][j - 1] == b[j] && b'[1..] == Dropped(b[1..], j - 1) && b'[0] == b[0];
      hide Dropped;
      hide InBucket;
      DroppedBucket(b[1..], j - 1);
      ChangesBehind(b, b', b[j].symbol, None);
    }
  }

  lemma DroppedOk(b: Bucket, j: nat)
    requires BucketOk(b) && j < |b|
    ensures BucketOk(Dropped(b, j))
  {
  }

  lemma PushedBucket(b: Bucket, symbol: string, v: Value)
    requires BucketOk(b) && forall j :: 0 <= j < |b| ==> b[j].symbol != symbol
    ensures BucketOk([Binding(symbol, v)] + b) && Changes(b, [Binding(symbol, v)] + b, symbol, Some(v))
  {
    assert ([Binding(symbol, v)] + b)[1..] == b;
  }

  // ----- scopes -----

  /** `struct navi_scope`, of which the collector's side is in another module */
  class HashScope {
    const addr: Address
    const next: HashScope?
    const bindings: array<Bucket>

    /** _navi_make_scope, with the enclosing scope */
    constructor (next: HashScope?, addr: Address)
      ensures this.next == next && this.addr == addr && fresh(bindings) && Valid() && Map() == map[]
    {
      this.next, this.addr := next, addr;
      bindings := new Bucket[NAVI_ENV_HT_SIZE](i => []);
      new;
      EmptyContents(bindings[..], |bindings[..]|);
    }

    ghost predicate Valid()
      reads bindings
    {
      TableOk(bindings[..], addr)
    }

    /** What the scope means */
    ghost function Map(): map<string, Value>
      reads bindings
    {
      Contents(bindings[..])
    }

    /** scope_lookup: the place of the binding in its bucket */
    method ScopeLookup(symbol: string) returns (r: Option<nat>)
      requires Valid()
      ensures r.None? <==> symbol !in Map()
      ensures var b := bindings[..][Index(symbol, addr)];
        if r.Some? then r.value < |b| && b[r.value].symbol == symbol && Map()[symbol] == b[r.value].obj
        else forall j :: 0 <= j < |b| ==> b[j].symbol != symbol
    {
      hide TableOk;
      hide Contents;
      ContentsAt(bindings[..], symbol, addr);
      OwnBucket(bindings[..], Index(symbol, addr), addr);
      var hd := bindings[Index(symbol, addr)];
      for j := 0 to |hd|
        invariant forall k :: 0 <= k < j ==> hd[k].symbol != symbol
      {
        if hd[j].symbol == symbol {
          FoundAt(hd, j);
          return Some(j);
        }
      }
      NotFound(hd, symbol);
      return None;
    }

    /** The object that scope_lookup leads to */
    method ObjectOf(symbol: string) returns (r: Option<Value>)
      requires Valid()
      ensures r == if symbol in Map() then Some(Map()[symbol]) else None
    {
      hide Contents;
      var j := ScopeLookup(symbol);
      r := if j.None? then None else Some(bindings[Index(symbol, addr)][j.value].obj);
    }

    /** navi_scope_set */
    method ScopeSet(symbol: string, obj: Value)
      requires Valid()
      modifies bindings
      ensures Valid() && Map() == old(Map())[symbol := obj]
    {
      hide Contents;
      hide BucketOk;
      ghost var t := bindings[..];
      var i := Index(symbol, addr);
      var j := ScopeLookup(symbol);
      ghost var b := t[i];
      if j.Some? {
        ReplacedBucket(b, j.value, obj);
        bindings[i] := bindings[i][j.value := Binding(symbol, obj)];
      } else {
        PushedBucket(b, symbol, obj);
        bindings[i] := [Binding(symbol, obj)] + bindings[i];
      }
      assert bindings[..] == t[i := bindings[i]];
      ContentsChange(t, symbol, bindings[i], Some(obj), addr);
    }

    /** navi_scope_unset */
    method ScopeUnset(symbol: string) returns (r: bool)
      requires Valid()
      modifies bindings
      ensures r == (symbol in old(Map()))
      ensures Valid() && Map() == old(Map()) - {symbol}
    {
      hide Contents;
      hide BucketOk;
      ghost var t := bindings[..];
      var i := Index(symbol, addr);
      var j := ScopeLookup(symbol);
      if j.None? {
        return false;
      }
      DroppedBucket(t[i], j.value);
      bindings[i] := Dropped(bindings[i], j.value);
      assert bindings[..] == t[i := bindings[i]];
      ContentsChange(t, symbol, bindings[i], None, addr);
      return true;
    }
  }

  // ----- chains of scopes -----

  /** Inner bindings hide outer ones. */
  ghost function Visible(maps: seq<map<string, Value>>): map<string, Value>
  {
    if maps == [] then map[] else Visible(maps[1..]) + maps[0]
  }

  /** The first map that has a symbol decides. */
  lemma {:induction false} FirstMapDecides(maps: seq<map<string, Value>>, symbol: string, i: nat)
    requires i <= |maps| && forall j :: 0 <= j < i ==> symbol !in maps[j]
    ensures i == |maps| ==> symbol !in Visible(maps)
    ensures i < |maps| && symbol in maps[i] ==> symbol in Visible(maps) && Visible(maps)[symbol] == maps[i][symbol]
    decreases |maps|
  {
    if maps != [] && i > 0 {
      FirstMapDecides(maps[1..], symbol, i - 1);
    }
  }

  ghost predicate IsChain(env: HashScope?, chain: seq<HashScope>)
    decreases chain
  {
    if env == null then chain == [] else chain != [] && chain[0] == env && IsChain(env.next, chain[1..])
  }

  ghost function Maps(chain: seq<HashScope>): seq<map<string, Value>>
    reads set s | s in chain :: s.bindings
  {
    if chain == [] then [] else [chain[0].Map()] + Maps(chain[1..])
  }

  /** navi_env_binding: the scope whose binding is found, and the object that is bound */
  method EnvBinding(env: HashScope?, symbol: string, ghost chain: seq<HashScope>) returns (r: HashScope?, obj: Value)
    requires IsChain(env, chain) && forall s :: s in chain ==> s.Valid()
    ensures r == null <==> symbol !in Visible(Maps(chain))
    ensures r != null ==> r in chain && symbol in r.Map() && r.Map()[symbol] == obj == Visible(Maps(chain))[symbol]
  {
    hide Visible;
    hide Maps;
    hide Contents;
    r, obj := env, Void;
    ghost var rest := chain;
    while r != null
      invariant IsChain(r, rest) && forall s :: s in rest ==> s in chain
      invariant SameAt(Visible(Maps(chain)), Visible(Maps(rest)), symbol)
      decreases |rest|
    {
      VisibleStep(rest);
      var found := r.ObjectOf(symbol);
      if found.Some? {
        return r, found.value;
      }
      r, rest := r.next, rest[1..];
    }
    VisibleStep(rest);
  }

  /** The maps agree about `symbol`. */
  ghost predicate SameAt(m: map<string, Value>, n: map<string, Value>, symbol: string) {
    (symbol in m <==> symbol in n) && (symbol in m ==> m[symbol] == n[symbol])
  }

  lemma VisibleStep(chain: seq<HashScope>)
    ensures Visible(Maps(chain)) == if chain == [] then map[] else Visible(Maps(chain[1..])) + chain[0].Map()
  {
    hide Contents;
    if chain != [] { assert Maps(chain)[1..] == Maps(chain[1..]); }
  }

  lemma {:induction false} EmptyContents(t: Table, n: nat)
    requires n <= |t| && forall i :: 0 <= i < |t| ==> t[i] == []
    ensures Upto(t, n) == map[]
  {
    if n > 0 { EmptyContents(t, n - 1); }
  }

  lemma OwnBucket(t: Table, i: nat, addr: Address)
    requires TableOk(t, addr) && i < NAVI_ENV_HT_SIZE
    ensures |t| == NAVI_ENV_HT_SIZE && BucketOk(t[i])
  {
  }
}
