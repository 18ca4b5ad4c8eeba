/** environment.c: import sets, as operations on the scopes that they fill. */
module Imports {
  import opened Objects
  import opened Environments

  type Exports = map<string, Value>

  /** A library that is loaded: its export declarations, and what is bound in its environment. */
  datatype LoadedLibrary = LoadedLibrary(exports: Value, bindings: Exports)

  type Library = l: LoadedLibrary | ExportsValid(l.exports) witness LoadedLibrary(Nil, map[])

  /** The libraries that can be found and loaded, by their names */
  type Libraries = Value -> Option<Library>

  // ----- import sets -----

  predicate IsSymbols(list: Value) { IsSymbolList(list) && IsProper(list) }

  /** import_valid and the functions that it calls; the form of library names is left to `Libraries`. */
  predicate ImportValid(spec: Value)
  {
    && spec.Pair? && IsProper(spec) && spec.car.Sym?
    && var rest := spec.cdr;
       if spec.car in {Sym("only"), Sym("except")} then
         rest.Pair? && ImportValid(rest.car) && IsSymbols(rest.cdr)
       else if spec.car == Sym("prefix") then
         Length(rest) == 2 && ImportValid(rest.car) && rest.cdr.car.Sym?
       else if spec.car == Sym("rename") then
         rest.Pair? && ImportValid(rest.car) && RenamesValid(rest.cdr)
       else true
  }

  /** The loop of import_rename_valid */
  predicate RenamesValid(list: Value)
  {
    list.Pair? ==> IsRename(list.car) && RenamesValid(list.cdr)
  }

  predicate IsRename(d: Value): (r: bool)
    ensures r ==> d.Pair? && d.car.Sym? && d.cdr.Pair? && d.cdr.car.Sym?
  {
    && IsSymbols(d) && Length(d) == 2
    && (assert IsSymbolList(d.cdr); true)
  }

  /** exports_valid, on each declaration: a name, or `(rename <name> <exported name>)` */
  predicate ExportsValid(list: Value)
  {
    list.Pair? ==> IsExport(list.car) && ExportsValid(list.cdr)
  }

  predicate IsExport(d: Value): (r: bool)
    ensures r && !d.Sym? ==>
      d.Pair? && d.cdr.Pair? && d.cdr.car.Sym? && d.cdr.cdr.Pair? && d.cdr.cdr.car.Sym?
  {
    || d.Sym?
    || (IsSymbols(d) && Length(d) == 3 && d.car == Sym("rename")
        && (assert IsSymbolList(d.cdr) && IsSymbolList(d.cdr.cdr); true))
  }

  // ----- what they denote -----

  predicate Listed(list: Value, name: string)
  {
    list.Pair? && (list.car == Sym(name) || Listed(list.cdr, name))
  }

  ghost function Only(m: Exports, list: Value): Exports { map k | k in m && Listed(list, k) :: m[k] }

  ghost function Except(m: Exports, list: Value): Exports { map k | k in m && !Listed(list, k) :: m[k] }

  ghost function Prefixed(m: Exports, prefix: string): Exports
  {
    map x | x in (set k | k in m :: prefix + k) && x[|prefix|..] in m :: m[x[|prefix|..]]
  }

  /** One renaming: the new name is set, and then the old one is unset. */
  ghost function RenameOne(m: Exports, lib: string, new': string): Option<Exports>
  {
    if lib in m then Some(m[new' := m[lib]] - {lib}) else None
  }

  ghost function Renamed(m: Exports, list: Value): Option<Exports>
    requires RenamesValid(list)
    decreases list
  {
    if !list.Pair? then Some(m) else
      var r := RenameOne(m, list.car.car.name, list.car.cdr.car.name);
      if r.Some? then Renamed(r.value, list.cdr) else None
  }

  /** The name in the library */
  function LibName(d: Value): string
    requires IsExport(d)
  {
    if d.Sym? then d.name else d.cdr.car.name
  }

  /** The name that it is exported by */
  function ExportName(d: Value): string
    requires IsExport(d)
  {
    if d.Sym? then d.name else d.cdr.cdr.car.name
  }

  /** One export after the other; a name that the library does not bind is an error. */
  ghost function Exported(m: Exports, list: Value, bindings: Exports): Option<Exports>
    requires ExportsValid(list)
    decreases list
  {
    if !list.Pair? then Some(m)
    else if LibName(list.car) !in bindings then None
    else Exported(m[ExportName(list.car) := bindings[LibName(list.car)]], list.cdr, bindings)
  }

  /** The bindings that an import set stands for, by the depth of its nesting */
  ghost function Denotes(spec: Value, libs: Libraries): Option<Exports>
    decreases spec
  {
    if !ImportValid(spec) then None
    else if spec.car in {Sym("only"), Sym("except"), Sym("prefix"), Sym("rename")} then
      var inner := Denotes(spec.cdr.car, libs);
      if inner.None? then None
      else if spec.car == Sym("only") then Some(Only(inner.value, spec.cdr.cdr))
      else if spec.car == Sym("except") then Some(Except(inner.value, spec.cdr.cdr))
      else if spec.car == Sym("prefix") then Some(Prefixed(inner.value, spec.cdr.cdr.car.name))
      else Renamed(inner.value, spec.cdr.cdr)
    else
      var lib := libs(spec);
      if lib.None? then None else Exported(map[], lib.value.exports, lib.value.bindings)
  }

  // ----- the import functions -----

  /** The search for a symbol in a list, as import_only and import_except make it */
  method IsListed(list: Value, name: string) returns (r: bool)
    ensures r == Listed(list, name)
  {
    var cons := list;
    while cons.Pair?
      invariant Listed(list, name) == Listed(cons, name)
      decreases cons
    {
      if cons.car == Sym(name) { return true; }
      cons := cons.cdr;
    }
    return false;
  }

  /** Every binding of the first buckets, and the first ones of the next bucket, are among `seen`. */
  ghost predicate Seen(t: Table, i: nat, j: nat, seen: set<string>) {
    && |t| == NAVI_ENV_HT_SIZE && i <= |t|
    && (forall i', j' :: 0 <= i' < i && 0 <= j' < |t[i']| ==> t[i'][j'].symbol in seen)
    && (i < |t| ==> j <= |t[i]| && forall j' :: 0 <= j' < j ==> t[i][j'].symbol in seen)
  }

  lemma NothingSeen(t: Table, addr: Address, m: Exports, m0: Exports, prefix: string)
    requires TableOk(t, addr)
    ensures Seen(t, 0, 0, {}) && m0 + Part(m, {}) == m0 && Prefixed(Part(m, {}), prefix) == map[]
  {
  }

  lemma SeenOn(t: Table, i: nat, j: nat, seen: set<string>)
    requires Seen(t, i, j, seen) && i < |t|
    ensures if j < |t[i]| then Seen(t, i, j + 1, seen + {t[i][j].symbol}) else Seen(t, i + 1, 0, seen)
  {
  }

  lemma AllSeen(t: Table, seen: set<string>, addr: Address)
    requires TableOk(t, addr) && Seen(t, NAVI_ENV_HT_SIZE, 0, seen)
    ensures Contents(t).Keys <= seen
  {
    forall k | k in Contents(t) ensures k in seen {
      ContentsAt(t, k, addr);
      BucketMapAt(t[Index(k, addr)], k);
    }
  }

  lemma BindingIn(t: Table, i: nat, j: nat, addr: Address)
    requires TableOk(t, addr) && i < |t| && j < |t[i]|
    ensures t[i][j].symbol in Contents(t) && Contents(t)[t[i][j].symbol] == t[i][j].obj
  {
    ContentsAt(t, t[i][j].symbol, addr);
    FoundAt(t[i], j);
  }

  /** navi_import_all */
  method ImportAll(dst: HashScope, src: HashScope)
    requires dst.Valid() && src.Valid() && dst.bindings != src.bindings
    modifies dst.bindings
    ensures dst.Valid() && dst.Map() == old(dst.Map()) + src.Map()
  {
    hide TableOk;
    hide Contents;
    hide Seen;
    hide Part;
    ghost var t: Table := src.bindings[..];
    ghost var m, m0, seen: set<string> := src.Map(), dst.Map(), {};
    SizeOf(t, src.addr);
    NothingSeen(t, src.addr, m, m0, "");
    for i := 0 to NAVI_ENV_HT_SIZE
      invariant src.bindings[..] == t && dst.Valid() && Seen(t, i, 0, seen)
      invariant dst.Map() == m0 + Part(m, seen)
    {
      for j := 0 to |src.bindings[i]|
        invariant src.bindings[..] == t && dst.Valid() && Seen(t, i, j, seen)
        invariant dst.Map() == m0 + Part(m, seen)
      {
        var b := src.bindings[i][j];
        BindingIn(t, i, j, src.addr);
        SeenOn(t, i, j, seen);
        PartOne(m, m0, seen, b.symbol);
        dst.ScopeSet(b.symbol, b.obj);
        seen := seen + {b.symbol};
      }
      SeenOn(t, i, |t[i]|, seen);
    }
    AllSeen(t, seen, src.addr);
    PartAll(m, seen);
  }

  lemma PartOne(m: Exports, m0: Exports, seen: set<string>, k: string)
    requires k in m
    ensures m0 + Part(m, seen + {k}) == (m0 + Part(m, seen))[k := m[k]]
  {
  }

  lemma PartAll(m: Exports, seen: set<string>)
    requires m.Keys <= seen
    ensures Part(m, seen) == m
  {
  }

  /** Removes a binding in the middle of an iteration, as NAVI_LIST_REMOVE does. */
  method RemoveAt(scope: HashScope, i: nat, j: nat)
    requires scope.Valid() && i < scope.bindings.Length && j < |scope.bindings[i]|
    modifies scope.bindings
    ensures scope.bindings[..] == old(scope.bindings[..])[i := Dropped(old(scope.bindings[i]), j)]
    ensures scope.Valid() && scope.Map() == old(scope.Map()) - {old(scope.bindings[i][j].symbol)}
  {
    hide Contents;
    hide BucketOk;
    ghost var t: Table := scope.bindings[..];
    assert i == Index(t[i][j].symbol, scope.addr) && BucketOk(t[i]);
    DroppedBucket(t[i], j);
    scope.bindings[i] := Dropped(scope.bindings[i], j);
    assert scope.bindings[..] == t[i := Dropped(t[i], j)];
    ContentsChange(t, t[i][j].symbol, Dropped(t[i], j), None, scope.addr);
  }

  /** The bindings that an iteration has passed satisfy `p`. */
  ghost predicate Passed(t: Table, i: nat, j: nat, p: string -> bool) {
    && |t| == NAVI_ENV_HT_SIZE && i <= |t|
    && (forall i', j' :: 0 <= i' < i && 0 <= j' < |t[i']| ==> p(t[i'][j'].symbol))
    && (i < |t| ==> j <= |t[i]| && forall j' :: 0 <= j' < j ==> p(t[i][j'].symbol))
  }

  lemma NothingPassed(t: Table, p: string -> bool, addr: Address, m: Exports)
    requires TableOk(t, addr)
    ensures Passed(t, 0, 0, p) && RemovedOnly(m, m, p)
  {
  }

  lemma PassedOn(t: Table, i: nat, j: nat, p: string -> bool)
    requires Passed(t, i, j, p) && i < |t|
    ensures j == |t[i]| ==> Passed(t, i + 1, 0, p)
    ensures j < |t[i]| && p(t[i][j].symbol) ==> Passed(t, i, j + 1, p)
    ensures j < |t[i]| ==> Passed(t[i := Dropped(t[i], j)], i, j, p)
  {
    if j < |t[i]| {
      var b, b' := t[i], Dropped(t[i], j);
      assert forall j' :: 0 <= j' < j ==> b'[j'] == b[j'];
    }
  }

  lemma AllPassed(t: Table, p: string -> bool, addr: Address)
    requires TableOk(t, addr) && Passed(t, NAVI_ENV_HT_SIZE, 0, p)
    ensures forall k :: k in Contents(t) ==> p(k)
  {
    forall k | k in Contents(t) ensures p(k) {
      ContentsAt(t, k, addr);
      BucketMapAt(t[Index(k, addr)], k);
    }
  }

  /** What is left of `m0` when only names that fail `p` have been removed. */
  ghost predicate RemovedOnly(m0: Exports, m: Exports, p: string -> bool) {
    (forall k :: k in m ==> k in m0 && m[k] == m0[k]) && forall k :: k in m0 && p(k) ==> k in m
  }

  /** The loops of import_only, which keeps what is listed, and of import_except, which removes it */
  method KeepListed(scope: HashScope, list: Value, keep: bool)
    requires scope.Valid()
    modifies scope.bindings
    ensures scope.Valid()
    ensures scope.Map() == if keep then Only(old(scope.Map()), list) else Except(old(scope.Map()), list)
  {
    hide TableOk;
    hide Contents;
    hide Listed;
    hide Passed;
    hide RemovedOnly;
    ghost var p: string -> bool := k => Listed(list, k) == keep;
    ghost var m0 := scope.Map();
    SizeOf(scope.bindings[..], scope.addr);
    NothingPassed(scope.bindings[..], p, scope.addr, m0);
    for i := 0 to NAVI_ENV_HT_SIZE
      invariant scope.Valid() && Passed(scope.bindings[..], i, 0, p) && RemovedOnly(m0, scope.Map(), p)
    {
      SizeOf(scope.bindings[..], scope.addr);
      var j := 0;
      while j < |scope.bindings[i]|
        invariant j <= |scope.bindings[i]|
        invariant scope.Valid() && Passed(scope.bindings[..], i, j, p) && RemovedOnly(m0, scope.Map(), p)
        decreases |scope.bindings[i]| - j
      {
        var symbol := scope.bindings[i][j].symbol;
        var found := IsListed(list, symbol);
        if found == keep {
          PassedOn(scope.bindings[..], i, j, p);
          j := j + 1;
        } else {
          PassedOn(scope.bindings[..], i, j, p);
          OneRemoved(m0, scope.Map(), symbol, p);
          RemoveAt(scope, i, j);
        }
      }
      PassedOn(scope.bindings[..], i, j, p);
    }
    AllPassed(scope.bindings[..], p, scope.addr);
    KeptListed(m0, scope.Map(), list, keep, p);
  }

  lemma OneRemoved(m0: Exports, m: Exports, k: string, p: string -> bool)
    requires RemovedOnly(m0, m, p) && !p(k)
    ensures RemovedOnly(m0, m - {k}, p)
  {
  }

  lemma KeptListed(m0: Exports, m: Exports, list: Value, keep: bool, p: string -> bool)
    requires RemovedOnly(m0, m, p) && (forall k :: k in m ==> p(k)) && forall k :: p(k) == (Listed(list, k) == keep)
    ensures m == if keep then Only(m0, list) else Except(m0, list)
  {
    hide Listed;
  }

  /** The loop of import_prefix */
  method ImportPrefixed(dst: HashScope, src: HashScope, prefix: string)
    requires dst.Valid() && src.Valid() && dst.bindings != src.bindings && dst.Map() == map[]
    modifies dst.bindings
    ensures dst.Valid() && dst.Map() == Prefixed(src.Map(), prefix)
  {
    hide TableOk;
    hide Contents;
    hide Seen;
    hide Part;
    hide Prefixed;
    ghost var t: Table := src.bindings[..];
    ghost var m, seen: set<string> := src.Map(), {};
    SizeOf(t, src.addr);
    NothingSeen(t, src.addr, m, map[], prefix);
    for i := 0 to NAVI_ENV_HT_SIZE
      invariant src.bindings[..] == t && dst.Valid() && Seen(t, i, 0, seen)
      invariant dst.Map() == Prefixed(Part(m, seen), prefix)
    {
      for j := 0 to |src.bindings[i]|
        invariant src.bindings[..] == t && dst.Valid() && Seen(t, i, j, seen)
        invariant dst.Map() == Prefixed(Part(m, seen), prefix)
      {
        var b := src.bindings[i][j];
        BindingIn(t, i, j, src.addr);
        SeenOn(t, i, j, seen);
        PrefixOne(m, seen, b.symbol, prefix);
        dst.ScopeSet(prefix + b.symbol, b.obj);
        seen := seen + {b.symbol};
      }
      SeenOn(t, i, |t[i]|, seen);
    }
    AllSeen(t, seen, src.addr);
    PartAll(m, seen);
  }

  lemma PrefixOne(m: Exports, seen: set<string>, k: string, prefix: string)
    requires k in m
    ensures Prefixed(Part(m, seen + {k}), prefix) == Prefixed(Part(m, seen), prefix)[prefix + k := m[k]]
  {
    var a, b := Part(m, seen + {k}), Part(m, seen);
    assert a == b[k := m[k]];
    hide Part;
    PrefixSet(b, k, m[k], prefix);
  }

  lemma PrefixSet(m: Exports, k: string, v: Value, prefix: string)
    ensures Prefixed(m[k := v], prefix) == Prefixed(m, prefix)[prefix + k := v]
  {
    hide Prefixed;
    var a, b := Prefixed(m[k := v], prefix), Prefixed(m, prefix)[prefix + k := v];
    assert (prefix + k)[|prefix|..] == k;
    forall x ensures x in a <==> x in b
             ensures x in a && x in b ==> a[x] == b[x]
    {
      PrefixAt(m[k := v], prefix, x);
      PrefixAt(m, prefix, x);
      if prefix <= x && x[|prefix|..] == k { assert x == prefix + k; }
    }
  }

  ghost function Part(m: Exports, keys: set<string>): Exports { map k | k in m && k in keys :: m[k] }

  /** The loop of import_rename; false when an identifier is not bound. */
  method ImportRenames(scope: HashScope, renames: Value) returns (ok: bool)
    requires scope.Valid() && RenamesValid(renames)
    modifies scope.bindings
    ensures scope.Valid() && ok == Renamed(old(scope.Map()), renames).Some?
    ensures ok ==> scope.Map() == Renamed(old(scope.Map()), renames).value
  {
    hide TableOk;
    hide Contents;
    var cons := renames;
    ghost var result := Renamed(scope.Map(), renames);
    while cons.Pair?
      invariant scope.Valid() && RenamesValid(cons) && result == Renamed(scope.Map(), cons)
      decreases cons
    {
      var libname, newname := cons.car.car.name, cons.car.cdr.car.name;
      var b := scope.ObjectOf(libname);
      if b.None? {
        return false;
      }
      scope.ScopeSet(newname, b.value);
      var _ := scope.ScopeUnset(libname);
      cons := cons.cdr;
    }
    return true;
  }

  /** The loop of do_import_library; false where import_binding raises an error */
  method ImportLibrary(scope: HashScope, lib: Library) returns (ok: bool)
    requires scope.Valid() && scope.Map() == map[]
    modifies scope.bindings
    ensures scope.Valid()
    ensures var r := Exported(map[], lib.exports, lib.bindings);
      ok == r.Some? && (ok ==> scope.Map() == r.value)
  {
    hide TableOk;
    hide Contents;
    hide IsExport;
    var cons := lib.exports;
    while cons.Pair?
      invariant scope.Valid() && ExportsValid(cons)
      invariant Exported(map[], lib.exports, lib.bindings) == Exported(scope.Map(), cons, lib.bindings)
      decreases cons
    {
      if LibName(cons.car) !in lib.bindings {
        return false;
      }
      scope.ScopeSet(ExportName(cons.car), lib.bindings[LibName(cons.car)]);
      cons := cons.cdr;
    }
    return true;
  }

  /** get_import_env: a fresh scope with what the import set denotes, or null where the original raises an error. */
  method GetImportEnv(spec: Value, libs: Libraries, addr: Address) returns (r: HashScope?)
    ensures r == null <==> Denotes(spec, libs).None?
    ensures r != null ==> fresh(r.bindings) && r.Valid() && r.Map() == Denotes(spec, libs).value
    decreases spec
  {
    hide TableOk;
    hide Contents;
    hide Prefixed;
    hide Only;
    hide Except;
    if !ImportValid(spec) {
      return null;
    }
    if spec.car !in {Sym("only"), Sym("except"), Sym("prefix"), Sym("rename")} {
      var lib := libs(spec);
      if lib.None? {
        return null;
      }
      r := new HashScope(null, addr);
      var ok := ImportLibrary(r, lib.value);
      if !ok {
        return null;
      }
      return;
    }
    var inner := GetImportEnv(spec.cdr.car, libs, addr);
    if inner == null {
      return null;
    }
    if spec.car == Sym("only") {
      KeepListed(inner, spec.cdr.cdr, true);
    } else if spec.car == Sym("except") {
      KeepListed(inner, spec.cdr.cdr, false);
    } else if spec.car == Sym("prefix") {
      r := new HashScope(null, addr);
      ImportPrefixed(r, inner, spec.cdr.cdr.car.name);
      return;
    } else {
      var ok := ImportRenames(inner, spec.cdr.cdr);
      if !ok {
        return null;
      }
    }
    r := inner;
  }

  /** What importing a list of sets adds to a scope; an error stops it, and what was imported before stays. */
  ghost function Imported(m: Exports, imports: Value, libs: Libraries): Exports
    decreases imports
  {
    if imports.Pair? && Denotes(imports.car, libs).Some?
    then Imported(m + Denotes(imports.car, libs).value, imports.cdr, libs)
    else m
  }

  /** Every set of the list denotes something. */
  ghost predicate AllDenote(imports: Value, libs: Libraries)
    decreases imports
  {
    imports.Pair? ==> Denotes(imports.car, libs).Some? && AllDenote(imports.cdr, libs)
  }

  /** navi_import, into a global scope; false where the original raises an error. */
  method NaviImport(imports: Value, global: HashScope, libs: Libraries, addr: Address) returns (ok: bool)
    requires global.Valid()
    modifies global.bindings
    ensures global.Valid() && global.Map() == Imported(old(global.Map()), imports, libs)
    ensures ok == AllDenote(imports, libs)
  {
    hide TableOk;
    hide Contents;
    hide Denotes;
    var cons := imports;
    ghost var m := Imported(global.Map(), imports, libs);
    while cons.Pair?
      invariant global.Valid() && m == Imported(global.Map(), cons, libs)
      invariant AllDenote(imports, libs) == AllDenote(cons, libs)
      decreases cons
    {
      var env := GetImportEnv(cons.car, libs, addr);
      if env == null {
        return false;
      }
      ImportAll(global, env);
      cons := cons.cdr;
    }
    return true;
  }

  // ----- exports -----

  /** The name in the library of the last export by the name `x` */
  function LastExport(list: Value, x: string): Option<string>
    requires ExportsValid(list)
  {
    if !list.Pair? then None else
      var r := LastExport(list.cdr, x);
      if r.Some? then r else if ExportName(list.car) == x then Some(LibName(list.car)) else None
  }

  /** The library binds all that it exports. */
  predicate AllBound(list: Value, bindings: Exports)
    requires ExportsValid(list)
  {
    list.Pair? ==> LibName(list.car) in bindings && AllBound(list.cdr, bindings)
  }

  /**
   * Importing a library succeeds if and only if it binds all that it exports. A name is then bound if and only if there
   * is an export by it, to the object of the last one.
   */
  lemma {:induction false} ExportedAt(m: Exports, list: Value, bindings: Exports, x: string)
    requires ExportsValid(list)
    ensures Exported(m, list, bindings).Some? <==> AllBound(list, bindings)
    ensures AllBound(list, bindings) ==>
      var e, last := Exported(m, list, bindings).value, LastExport(list, x);
      && (x in e <==> x in m || last.Some?)
      && (last.Some? ==> last.value in bindings && x in e && e[x] == bindings[last.value])
      && (last.None? && x in m ==> x in e && e[x] == m[x])
    decreases list
  {
    hide IsExport;
    if list.Pair? && LibName(list.car) in bindings {
      ExportedAt(m[ExportName(list.car) := bindings[LibName(list.car)]], list.cdr, bindings, x);
    }
  }

  // ----- the algebra of import sets -----

  /** What is listed and what is not make up the whole. */
  lemma OnlyAndExcept(m: Exports, list: Value)
    ensures Only(m, list) + Except(m, list) == m && Only(m, list).Keys !! Except(m, list).Keys
  {
    hide Listed;
  }

  /** A prefix loses nothing and confuses nothing. */
  lemma PrefixAt(m: Exports, p: string, x: string)
    ensures x in Prefixed(m, p) <==> p <= x && x[|p|..] in m
    ensures x in Prefixed(m, p) ==> Prefixed(m, p)[x] == m[x[|p|..]]
  {
    if x in Prefixed(m, p) {
      var k :| k in m && x == p + k;
      assert x[|p|..] == k;
    }
    if p <= x && x[|p|..] in m {
      assert x == p + x[|p|..];
    }
  }

  /** Prefixes compose. */
  lemma PrefixTwice(m: Exports, p: string, q: string)
    ensures Prefixed(Prefixed(m, p), q) == Prefixed(m, q + p)
  {
    hide Prefixed;
    var a, b := Prefixed(Prefixed(m, p), q), Prefixed(m, q + p);
    forall x ensures x in a <==> x in b
             ensures x in a && x in b ==> a[x] == b[x]
    {
      PrefixAt(Prefixed(m, p), q, x);
      PrefixAt(m, q + p, x);
      if q <= x {
        var y := x[|q|..];
        PrefixAt(m, p, y);
        assert q + p <= x <==> p <= y;
        assert p <= y ==> y[|p|..] == x[|q + p|..];
      }
    }
  }

  /** `only` of prefixed names is the prefix of `only` of the names. */
  lemma OnlyOfPrefix(m: Exports, p: string, list: Value, prefixed: Value)
    requires forall k :: Listed(prefixed, p + k) <==> Listed(list, k)
    ensures Only(Prefixed(m, p), prefixed) == Prefixed(Only(m, list), p)
  {
    hide Listed;
    hide Prefixed;
    var a, b := Only(Prefixed(m, p), prefixed), Prefixed(Only(m, list), p);
    forall x ensures x in a <==> x in b
             ensures x in a && x in b ==> a[x] == b[x]
    {
      PrefixAt(m, p, x);
      PrefixAt(Only(m, list), p, x);
      if p <= x { assert x == p + x[|p|..]; }
    }
  }
}
