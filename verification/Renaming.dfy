/** When the renamings of an import set, done one by one, are the simultaneous renaming of R7RS, section 5.2. */
module Renaming {
  import opened Objects
  import opened Imports

  type Renames = seq<(string, string)>

  function RenamesOf(list: Value): Renames
    requires RenamesValid(list)
    decreases list
  {
    if list.Pair? then [(list.car.car.name, list.car.cdr.car.name)] + RenamesOf(list.cdr) else []
  }

  ghost function OneByOne(m: Exports, rs: Renames): Option<Exports>
    decreases |rs|
  {
    if rs == [] then Some(m) else
      var r := RenameOne(m, rs[0].0, rs[0].1);
      if r.Some? then OneByOne(r.value, rs[1..]) else None
  }

  lemma {:induction false} RenamedIsOneByOne(m: Exports, list: Value)
    requires RenamesValid(list)
    ensures Renamed(m, list) == OneByOne(m, RenamesOf(list))
    decreases list
  {
    if list.Pair? {
      var rs := RenamesOf(list);
      assert rs[1..] == RenamesOf(list.cdr);
      var r := RenameOne(m, rs[0].0, rs[0].1);
      if r.Some? { RenamedIsOneByOne(r.value, list.cdr); }
    }
  }

  /** What a simultaneous renaming makes of a name */
  function Target(rs: Renames, k: string): string
  {
    if rs == [] then k else if rs[0].0 == k then rs[0].1 else Target(rs[1..], k)
  }

  /** The names to be replaced are bound, and distinct. */
  ghost predicate OldsOk(m: Exports, rs: Renames) {
    && (forall i :: 0 <= i < |rs| ==> rs[i].0 in m)
    && (forall i, j :: 0 <= i < j < |rs| ==> rs[i].0 != rs[j].0)
  }

  /** No two names end up the same. */
  ghost predicate Injective(m: Exports, rs: Renames) {
    forall j, k :: j in m && k in m && Target(rs, j) == Target(rs, k) ==> j == k
  }

  ghost function Simultaneous(m: Exports, rs: Renames): Exports
    requires Injective(m, rs)
  {
    map x | x in (set k | k in m :: Target(rs, k)) :: m[Source(m, rs, x)]
  }

  /** The name that becomes `x` */
  ghost function Source(m: Exports, rs: Renames, x: string): (k: string)
    requires exists k :: k in m && Target(rs, k) == x
    ensures k in m && Target(rs, k) == x
  {
    var k :| k in m && Target(rs, k) == x; k
  }

  /** No new name is one that is still to be replaced: its own old name, or a later one. */
  predicate Orderly(rs: Renames) { forall i, j :: 0 <= i <= j < |rs| ==> rs[i].1 != rs[j].0 }

  lemma {:induction false} TargetOfOther(rs: Renames, k: string)
    requires forall i :: 0 <= i < |rs| ==> rs[i].0 != k
    ensures Target(rs, k) == k
  {
    if rs != [] { TargetOfOther(rs[1..], k); }
  }

  lemma SimultaneousAt(m: Exports, rs: Renames, k: string)
    requires Injective(m, rs) && k in m
    ensures Target(rs, k) in Simultaneous(m, rs) && Simultaneous(m, rs)[Target(rs, k)] == m[k]
  {
  }

  lemma NewIsFresh(m: Exports, rs: Renames)
    requires rs != [] && OldsOk(m, rs) && Injective(m, rs) && Orderly(rs)
    ensures rs[0].1 !in m && Target(rs, rs[0].1) == rs[0].1 && Target(rs[1..], rs[0].1) == rs[0].1
  {
    TargetOfOther(rs, rs[0].1);
    assert Target(rs, rs[0].0) == rs[0].1;
  }

  /** After an orderly first step, what is left to do is the rest of the simultaneous renaming. */
  lemma FirstStep(m: Exports, rs: Renames)
    requires rs != [] && OldsOk(m, rs) && Injective(m, rs) && Orderly(rs)
    ensures var m1 := RenameOne(m, rs[0].0, rs[0].1).value;
      OldsOk(m1, rs[1..]) && Injective(m1, rs[1..]) && Simultaneous(m1, rs[1..]) == Simultaneous(m, rs)
  {
    NewIsFresh(m, rs);
    var (old', new') := rs[0];
    var m1, rest := RenameOne(m, old', new').value, rs[1..];
    assert m1.Keys == m.Keys - {old'} + {new'};
    Origins(m, rs, m1);
    assert OldsOk(m1, rest);
    var a, b := Simultaneous(m1, rest), Simultaneous(m, rs);
    forall x | x in a ensures x in b && a[x] == b[x] {
      var k :| k in m1 && x == Target(rest, k);
      SimultaneousAt(m1, rest, k);
      SimultaneousAt(m, rs, if k == new' then old' else k);
    }
    forall x | x in b ensures x in a {
      var k :| k in m && x == Target(rs, k);
      SimultaneousAt(m1, rest, if k == old' then new' else k);
    }
  }

  lemma Origins(m: Exports, rs: Renames, m1: Exports)
    requires rs != [] && OldsOk(m, rs) && Injective(m, rs) && Orderly(rs)
    requires m1 == RenameOne(m, rs[0].0, rs[0].1).value
    ensures forall k :: k in m1 ==>
      var k0 := if k == rs[0].1 then rs[0].0 else k; k0 in m && Target(rs, k0) == Target(rs[1..], k) && m1[k] == m[k0]
    ensures Injective(m1, rs[1..])
  {
    NewIsFresh(m, rs);
  }

  lemma {:induction false} OrderlyIsSimultaneous(m: Exports, rs: Renames)
    requires OldsOk(m, rs) && Injective(m, rs) && Orderly(rs)
    ensures OneByOne(m, rs) == Some(Simultaneous(m, rs))
    decreases |rs|
  {
    if rs == [] {
      assert Simultaneous(m, rs) == m;
    } else {
      FirstStep(m, rs);
      OrderlyIsSimultaneous(RenameOne(m, rs[0].0, rs[0].1).value, rs[1..]);
    }
  }

  /** A renaming onto a bound name loses a binding. */
  lemma StepSize(m: Exports, lib: string, new': string)
    requires lib in m
    ensures var m1 := RenameOne(m, lib, new').value; |m1| == if new' in m then |m| - 1 else |m|
  {
    var m1 := RenameOne(m, lib, new').value;
    if new' in m {
      assert m1.Keys == m.Keys - {lib};
    } else {
      assert m1.Keys == m.Keys - {lib} + {new'};
    }
    assert |m1| == |m1.Keys| && |m| == |m.Keys|;
  }

  lemma {:induction false} DisorderLoses(m: Exports, rs: Renames)
    requires OldsOk(m, rs)
    ensures OneByOne(m, rs).Some? && |OneByOne(m, rs).value| <= |m|
    ensures !Orderly(rs) ==> |OneByOne(m, rs).value| < |m|
    decreases |rs|
  {
    if rs != [] {
      StepSize(m, rs[0].0, rs[0].1);
      var m1 := RenameOne(m, rs[0].0, rs[0].1).value;
      DisorderLoses(m1, rs[1..]);
      if !Orderly(rs) {
        var i, j :| 0 <= i <= j < |rs| && rs[i].1 == rs[j].0;
        if i > 0 {
          assert rs[1..][i - 1].1 == rs[1..][j - 1].0;
        }
      }
    }
  }

  lemma {:induction false} ImageSize(m: Exports, rs: Renames)
    requires Injective(m, rs)
    ensures |Simultaneous(m, rs)| == |m|
    decreases |m|
  {
    if m == map[] {
      assert Simultaneous(m, rs) == map[];
    } else {
      var k :| k in m;
      var m1 := m - {k};
      assert m1.Keys == m.Keys - {k} && |m1| == |m1.Keys| && |m| == |m.Keys|;
      ImageSize(m1, rs);
      var a, b := Simultaneous(m, rs), Simultaneous(m1, rs);
      assert Target(rs, k) !in b;
      assert a.Keys == b.Keys + {Target(rs, k)};
      assert |a| == |a.Keys| && |b| == |b.Keys|;
    }
  }

  /**
   * For renamings that R7RS gives a meaning, where bound and distinct names are replaced and no two names become the
   * same: the code does them exactly when they are orderly.
   */
  lemma RenameIsSimultaneous(m: Exports, list: Value)
    requires RenamesValid(list) && OldsOk(m, RenamesOf(list)) && Injective(m, RenamesOf(list))
    ensures Renamed(m, list) == Some(Simultaneous(m, RenamesOf(list))) <==> Orderly(RenamesOf(list))
  {
    var rs := RenamesOf(list);
    RenamedIsOneByOne(m, list);
    DisorderLoses(m, rs);
    ImageSize(m, rs);
    if Orderly(rs) { OrderlyIsSimultaneous(m, rs); }
  }

  lemma TwoTargets(a: string, b: string)
    requires a != b
    ensures Target([(a, b), (b, a)], a) == b && Target([(a, b), (b, a)], b) == a
  {
    var rs := [(a, b), (b, a)];
    assert rs[1..] == [(b, a)];
    assert Target(rs, b) == Target([(b, a)], b);
  }

  lemma TwoSteps(m: Exports, a: string, b: string)
    requires m.Keys == {a, b} && a != b
    ensures OneByOne(m, [(a, b), (b, a)]) == Some(map[a := m[a]])
  {
    var rs, last := [(a, b), (b, a)], [(b, a)];
    var m1 := m[b := m[a]] - {a};
    var m2 := m1[a := m1[b]] - {b};
    assert rs[1..] == last && last[1..] == [];
    assert OneByOne(m, rs) == OneByOne(m1, last);
    assert OneByOne(m1, last) == OneByOne(m2, []);
    assert m2 == map[a := m[a]];
  }

  lemma ExchangeInjective(m: Exports, rs: Renames, a: string, b: string)
    requires m.Keys == {a, b} && a != b && Target(rs, a) == b && Target(rs, b) == a
    ensures Injective(m, rs)
  {
    hide Target;
    forall j, k | j in m && k in m && Target(rs, j) == Target(rs, k) ensures j == k {
      assert j in m.Keys && k in m.Keys;
    }
  }

  lemma ExchangeMap(m: Exports, rs: Renames, a: string, b: string)
    requires m.Keys == {a, b} && a != b && Target(rs, a) == b && Target(rs, b) == a && Injective(m, rs)
    ensures Simultaneous(m, rs) == map[a := m[b], b := m[a]]
  {
    hide Target;
    assert a in m.Keys && b in m.Keys;
    SimultaneousAt(m, rs, a);
    SimultaneousAt(m, rs, b);
    forall x | x in Simultaneous(m, rs) ensures x in {a, b} {
      var k :| k in m && Target(rs, k) == x;
      assert k in m.Keys;
    }
    hide Simultaneous;
  }

  /** Exchanging two names is not orderly, and loses one of them. */
  lemma ExchangeLoses(m: Exports, a: string, b: string)
    requires m.Keys == {a, b} && a != b
    ensures Injective(m, [(a, b), (b, a)]) && Simultaneous(m, [(a, b), (b, a)]) == map[a := m[b], b := m[a]]
    ensures OneByOne(m, [(a, b), (b, a)]) == Some(map[a := m[a]])
  {
    hide *;
    var rs := [(a, b), (b, a)];
    TwoTargets(a, b);
    TwoSteps(m, a, b);
    ExchangeInjective(m, rs, a, b);
    ExchangeMap(m, rs, a, b);
  }
}
