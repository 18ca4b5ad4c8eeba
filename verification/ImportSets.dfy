/** What each kind of import set stands for, name by name, over what the set inside it stands for. */
module ImportSets {
  import opened Objects
  import opened Environments
  import opened Imports
  import opened Renaming

  // ----- the lists of an import set -----

  function NameList(names: seq<string>): Value
  {
    if names == [] then Nil else Pair(Sym(names[0]), NameList(names[1..]))
  }

  /** `(<old name> <new name>) ...` */
  function RenameList(rs: Renames): Value
  {
    if rs == [] then Nil else Pair(Pair(Sym(rs[0].0), Pair(Sym(rs[0].1), Nil)), RenameList(rs[1..]))
  }

  lemma {:induction false} ListedNames(names: seq<string>, x: string)
    ensures IsSymbols(NameList(names)) && (Listed(NameList(names), x) <==> x in names)
  {
    if names != [] {
      ListedNames(names[1..], x);
      assert names == [names[0]] + names[1..];
    }
  }

  lemma {:induction false} ListedRenames(rs: Renames)
    ensures RenamesValid(RenameList(rs)) && IsProper(RenameList(rs)) && RenamesOf(RenameList(rs)) == rs
  {
    if rs != [] {
      ListedRenames(rs[1..]);
      assert rs == [rs[0]] + rs[1..];
      PairIsRename(rs[0].0, rs[0].1);
    }
  }

  lemma PairIsRename(a: string, b: string)
    ensures IsRename(Pair(Sym(a), Pair(Sym(b), Nil)))
  {
    var d := Pair(Sym(b), Nil);
    assert IsSymbolList(d) && IsProper(d) && Length(d) == 1;
    assert IsSymbolList(Pair(Sym(a), d)) && IsProper(Pair(Sym(a), d)) && Length(Pair(Sym(a), d)) == 2;
  }

  // ----- one import set around another -----

  /** The same binding, or none */
  predicate SameAt(m: Exports, x: string, n: Exports, y: string) {
    (x in m <==> y in n) && (x in m ==> y in n && m[x] == n[y])
  }

  /** `(only set name ...)` has what the set has and the list names; it is an error exactly when the set is one. */
  lemma OnlyDenotes(set': Value, names: seq<string>, libs: Libraries, x: string)
    ensures var r, inner := Denotes(Pair(Sym("only"), Pair(set', NameList(names))), libs), Denotes(set', libs);
      && (r.Some? <==> inner.Some?)
      && (r.Some? ==> if x in names then SameAt(r.value, x, inner.value, x) else x !in r.value)
  {
    ListedNames(names, x);
    HeadsDiffer();
    hide NameList;
    ListSet("only", set', NameList(names), libs);
  }

  /** `(except set name ...)` has what the set has and the list does not name. */
  lemma ExceptDenotes(set': Value, names: seq<string>, libs: Libraries, x: string)
    ensures var r, inner := Denotes(Pair(Sym("except"), Pair(set', NameList(names))), libs), Denotes(set', libs);
      && (r.Some? <==> inner.Some?)
      && (r.Some? ==> if x in names then x !in r.value else SameAt(r.value, x, inner.value, x))
  {
    ListedNames(names, x);
    HeadsDiffer();
    hide NameList;
    ListSet("except", set', NameList(names), libs);
  }

  /** `(prefix set p)` has a name exactly when it is `p` in front of a name that the set has. */
  lemma PrefixDenotes(set': Value, p: string, libs: Libraries, x: string)
    ensures var r, inner := Denotes(Pair(Sym("prefix"), Pair(set', Pair(Sym(p), Nil))), libs), Denotes(set', libs);
      && (r.Some? <==> inner.Some?)
      && (r.Some? ==>
            && (x in r.value <==> exists k :: k in inner.value && x == p + k)
            && (forall k :: k in inner.value && x == p + k ==> x in r.value && r.value[x] == inner.value[k]))
  {
    HeadsDiffer();
    PrefixSet(set', p, libs);
    var inner := Denotes(set', libs);
    if inner.Some? {
      PrefixAt(inner.value, p, x);
      hide Prefixed;
      forall k | k in inner.value && x == p + k ensures x[|p|..] == k { }
      if p <= x { assert x == p + x[|p|..]; }
    }
  }

  /** `(rename set (old new) ...)` does the renamings of the list, from the left. */
  lemma RenameDenotes(set': Value, rs: Renames, libs: Libraries)
    ensures var r, inner := Denotes(Pair(Sym("rename"), Pair(set', RenameList(rs))), libs), Denotes(set', libs);
      r == if inner.None? then None else OneByOne(inner.value, rs)
  {
    HeadsDiffer();
    ListedRenames(rs);
    hide RenameList;
    hide RenamesOf;
    RenameSet(set', RenameList(rs), libs);
    var inner := Denotes(set', libs);
    if inner.Some? { RenamedIsOneByOne(inner.value, RenameList(rs)); }
  }

  /** One renaming: the old name is gone, and the new one has its binding, unless they are the same. */
  lemma RenameOneAt(m: Exports, old': string, new': string, x: string)
    ensures var r := RenameOne(m, old', new');
      && (r.Some? <==> old' in m)
      && (r.Some? ==> if x == old' then x !in r.value
                      else SameAt(r.value, x, m, if x == new' then old' else x))
  {
  }

  /** Any other import set is the name of a library, and has its exports. */
  lemma LibraryDenotes(name: string, rest: Value, libs: Libraries, x: string)
    requires name != "only" && name != "except" && name != "prefix" && name != "rename" && IsProper(rest)
    ensures var lib, r := libs(Pair(Sym(name), rest)), Denotes(Pair(Sym(name), rest), libs);
      && (r.Some? <==> lib.Some? && AllBound(lib.value.exports, lib.value.bindings))
      && (r.Some? ==>
            var last := LastExport(lib.value.exports, x);
            if last.None? then x !in r.value else SameAt(r.value, x, lib.value.bindings, last.value) && x in r.value)
  {
    var lib := libs(Pair(Sym(name), rest));
    if lib.Some? { ExportedAt(map[], lib.value.exports, lib.value.bindings, x); }
    hide Exported;
    hide LastExport;
    hide AllBound;
  }

  /** `name`, or `(rename <name in the library> <exported name>)` */
  lemma ExportNames(a: string, b: string)
    ensures IsExport(Sym(a)) && LibName(Sym(a)) == a && ExportName(Sym(a)) == a
    ensures var e := Pair(Sym("rename"), Pair(Sym(a), Pair(Sym(b), Nil)));
      IsExport(e) && LibName(e) == a && ExportName(e) == b
  {
    PairIsRename(a, b);
    var d := Pair(Sym(a), Pair(Sym(b), Nil));
    assert IsSymbols(d) && Length(d) == 2;
    var e := Pair(Sym("rename"), d);
    assert IsSymbolList(e) && IsProper(e) && Length(e) == 3;
  }

  // ----- the shapes of import sets -----

  lemma HeadsDiffer()
    ensures "only" != "except" && "only" != "prefix" && "only" != "rename"
    ensures "except" != "prefix" && "except" != "rename" && "prefix" != "rename"
  {
    assert "only"[0] == 'o' && "except"[0] == 'e' && "prefix"[0] == 'p' && "rename"[0] == 'r';
  }

  lemma DenotesValid(spec: Value, libs: Libraries)
    ensures Denotes(spec, libs).Some? ==> ImportValid(spec)
  {
  }

  /** The list must be one of symbols. */
  lemma ListSet(head: string, set': Value, list: Value, libs: Libraries)
    requires head == "only" || head == "except"
    ensures var inner := Denotes(set', libs);
      Denotes(Pair(Sym(head), Pair(set', list)), libs) ==
        if inner.None? || !IsSymbols(list) then None
        else Some(if head == "only" then Only(inner.value, list) else Except(inner.value, list))
  {
    DenotesValid(set', libs);
    HeadsDiffer();
    var spec := Pair(Sym(head), Pair(set', list));
    assert IsProper(spec) <==> IsProper(Pair(set', list));
    assert IsProper(spec) <==> IsProper(list);
    hide Only;
    hide Except;
    hide Prefixed;
  }

  lemma PrefixSet(set': Value, p: string, libs: Libraries)
    ensures var inner := Denotes(set', libs);
      Denotes(Pair(Sym("prefix"), Pair(set', Pair(Sym(p), Nil))), libs) ==
        if inner.None? then None else Some(Prefixed(inner.value, p))
  {
    DenotesValid(set', libs);
    HeadsDiffer();
    var rest := Pair(set', Pair(Sym(p), Nil));
    var last := Pair(Sym(p), Nil);
    assert IsProper(Nil) && Length(Nil) == 0;
    assert IsProper(last) && Length(last) == 1;
    assert IsProper(rest) && Length(rest) == 2;
    assert IsProper(Pair(Sym("prefix"), rest));
    hide Only;
    hide Except;
    hide Prefixed;
  }

  /** The list must be one of pairs of symbols. */
  lemma RenameSet(set': Value, list: Value, libs: Libraries)
    ensures var inner := Denotes(set', libs);
      Denotes(Pair(Sym("rename"), Pair(set', list)), libs) ==
        if inner.None? || !IsProper(list) || !RenamesValid(list) then None else Renamed(inner.value, list)
  {
    DenotesValid(set', libs);
    HeadsDiffer();
    var spec := Pair(Sym("rename"), Pair(set', list));
    assert IsProper(spec) <==> IsProper(Pair(set', list));
    assert IsProper(spec) <==> IsProper(list);
    hide Only;
    hide Except;
    hide Prefixed;
    hide Renamed;
  }

  // ----- lists of import sets -----

  function SetList(sets: seq<Value>): Value
  {
    if sets == [] then Nil else Pair(sets[0], SetList(sets[1..]))
  }

  /** The last of the sets that has `x` */
  ghost function LastWith(sets: seq<Value>, libs: Libraries, x: string): Option<Value>
  {
    if sets == [] then None else
      var r := LastWith(sets[1..], libs, x);
      if r.Some? then r
      else if Denotes(sets[0], libs).Some? && x in Denotes(sets[0], libs).value
      then Some(Denotes(sets[0], libs).value[x])
      else None
  }

  /** Importing sets that all denote something: a name has the binding of the last set that has it, if any. */
  lemma {:induction false} LastImportWins(m: Exports, sets: seq<Value>, libs: Libraries, x: string)
    ensures AllDenote(SetList(sets), libs) <==> forall set' :: set' in sets ==> Denotes(set', libs).Some?
    ensures AllDenote(SetList(sets), libs) ==>
      var r, last := Imported(m, SetList(sets), libs), LastWith(sets, libs, x);
      if last.Some? then x in r && r[x] == last.value else SameAt(r, x, m, x)
    decreases |sets|
  {
    hide Denotes;
    if sets != [] {
      var first := Denotes(sets[0], libs);
      SetsDenote(sets, libs);
      SetsDenote(sets[1..], libs);
      if first.Some? { LastImportWins(m + first.value, sets[1..], libs, x); }
    }
  }

  lemma {:induction false} SetsDenote(sets: seq<Value>, libs: Libraries)
    ensures AllDenote(SetList(sets), libs) <==> forall set' :: set' in sets ==> Denotes(set', libs).Some?
  {
    hide Denotes;
    if sets != [] {
      SetsDenote(sets[1..], libs);
      assert sets[0] in sets && forall set' :: set' in sets <==> set' == sets[0] || set' in sets[1..];
    }
  }
}
