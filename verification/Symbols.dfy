/** heap.c: the table of interned symbols, which are objects of the heap. */
module Symbols {
  import opened GcMarking

  const SYMTAB_SIZE: nat := 64

  ghost predicate Named(o: Obj, str: string) { o.payload == Symbol(str) }

  /** symbol_hash, on unsigned long */
  function SymbolHash(s: string): bv64 { HashFrom(5381, s) }

  function HashFrom(hash: bv64, s: string): bv64
    decreases |s|
  {
    if s == "" then hash else HashFrom(((hash << 5) + hash) ^ CodeOf(s[0]), s[1..])
  }

  function CodeOf(c: char): bv64 { (c as int % 256) as bv64 }

  function BucketOf(hash: bv64): (i: nat)
    ensures i < SYMTAB_SIZE
  {
    (hash as nat) % SYMTAB_SIZE
  }

  /** The bucket that symbols with a given name are in */
  function Home(s: string): (i: nat)
    ensures i < SYMTAB_SIZE
  {
    BucketOf(SymbolHash(s))
  }

  class SymbolTable {
    const buckets: array<seq<Obj>>

    /** symbol_table_init */
    constructor ()
      ensures fresh(buckets) && Valid() && Interned() == {}
    {
      buckets := new seq<Obj>[SYMTAB_SIZE](i => []);
    }

    /** Each symbol is in its own bucket, where no other has its name. */
    ghost predicate Valid()
      reads buckets
    {
      && buckets.Length == SYMTAB_SIZE
      && (forall i, j :: 0 <= i < buckets.Length && 0 <= j < |buckets[i]| ==> InBucket(buckets[i][j], i))
      && (forall i :: 0 <= i < buckets.Length ==> NamesDiffer(buckets[i]))
    }

    ghost function Interned(): set<Obj>
      reads buckets
    {
      set i, j | 0 <= i < buckets.Length && 0 <= j < |buckets[i]| :: buckets[i][j]
    }

    /** symbol_lookup */
    method SymbolLookup(str: string, hash: bv64) returns (r: Obj?)
      requires Valid() && hash == SymbolHash(str)
      ensures r != null ==> r in Interned() && Named(r, str)
      ensures r == null ==> forall s :: s in Interned() ==> !Named(s, str)
    {
      hide SymbolHash;
      hide BucketOf;
      var head := buckets[BucketOf(hash)];
      for j := 0 to |head|
        invariant forall k :: 0 <= k < j ==> !Named(head[k], str)
      {
        if head[j].payload.data == str {
          return head[j];
        }
      }
      return null;
    }

    /** NAVI_LIST_INSERT_HEAD, as new_symbol does it, for a name that no interned symbol has */
    method Intern(symbol: Obj, str: string, hash: bv64)
      requires Valid() && Named(symbol, str) && hash == SymbolHash(str)
      requires forall s :: s in Interned() ==> !Named(s, str)
      modifies buckets
      ensures Valid() && Interned() == old(Interned()) + {symbol}
    {
      hide SymbolHash;
      hide BucketOf;
      var i := BucketOf(hash);
      ghost var was := buckets[..];
      forall k | 0 <= k < |buckets[i]| ensures !Named(buckets[i][k], str) {
        assert buckets[i][k] in Interned();
      }
      buckets[i] := [symbol] + buckets[i];
      assert buckets[..] == was[i := [symbol] + was[i]];
      InternedOne(was, i, symbol);
      assert Interned() == InternedIn(buckets[..]) && old(Interned()) == InternedIn(was);
    }

    /** Interned symbols are the same object exactly when their names are equal. */
    lemma InternedAreUnique(a: Obj, b: Obj)
      requires Valid() && a in Interned() && b in Interned()
      ensures a == b <==> a.payload == b.payload
      ensures a.payload.Symbol? && b.payload.Symbol?
    {
      hide SymbolHash;
      hide BucketOf;
      var i, j :| 0 <= i < buckets.Length && 0 <= j < |buckets[i]| && buckets[i][j] == a;
      var k, l :| 0 <= k < buckets.Length && 0 <= l < |buckets[k]| && buckets[k][l] == b;
      assert InBucket(a, i) && InBucket(b, k);
      if a.payload == b.payload {
        assert NamesDiffer(buckets[i]);
      }
    }
  }

  ghost predicate InBucket(o: Obj, i: nat) { o.payload.Symbol? && Home(o.payload.data) == i }

  ghost predicate NamesDiffer(b: seq<Obj>) { forall j, k :: 0 <= j < k < |b| ==> b[j].payload != b[k].payload }

  ghost function InternedIn(t: seq<seq<Obj>>): set<Obj> {
    set i, j | 0 <= i < |t| && 0 <= j < |t[i]| :: t[i][j]
  }

  lemma InternedOne(t: seq<seq<Obj>>, i: nat, r: Obj)
    requires i < |t|
    ensures InternedIn(t[i := [r] + t[i]]) == InternedIn(t) + {r}
  {
    var t' := t[i := [r] + t[i]];
    forall s | s in InternedIn(t) + {r} ensures s in InternedIn(t') {
      if s == r {
        assert t'[i][0] == r;
      } else {
        var k, l :| 0 <= k < |t| && 0 <= l < |t[k]| && t[k][l] == s;
        assert t'[k][if k == i then l + 1 else l] == s;
      }
    }
    forall s | s in InternedIn(t') ensures s in InternedIn(t) + {r} {
      var k, l :| 0 <= k < |t'| && 0 <= l < |t'[k]| && t'[k][l] == s;
      if k == i && l > 0 { assert t[k][l - 1] == s; }
      if k != i { assert t[k][l] == s; }
    }
  }
}
