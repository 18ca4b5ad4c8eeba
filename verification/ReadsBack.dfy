/**
 * Exactly which data `read` gives back from what `write` wrote. A text has a weight: its open parentheses less its
 * closed ones, less its single dots, and more for a character literal that is cut short. A reader uses up at most the
 * weight that the dots of its datum account for, and the printer puts out more than that for every fault it makes.
 */
module ReadsBack {
  import opened Syntax
  import opened Printer
  import opened RoundTrip
  import Ports
  import Reader

  // ----- tokens of a text -----

  /** The text up to its first terminal */
  function Head(t: string): string { t[..Until(t, IsTerminal)] }

  predicate BarFree(s: string) { forall i :: 0 <= i < |s| ==> s[i] != '|' }

  predicate NumberLike(s: string) { forall i :: 0 <= i < |s| ==> IsDigit(s[i]) || s[i] == '-' }

  /** What the printer begins with `#` */
  predicate SharpRun(s: string) {
    || s == "#" || s == "#u8" || s == "#t" || s == "#f" || s == "#!eof"
    || (|s| >= 2 && s[0] == '#' && s[1] == '\\')
  }

  /**
   * What may stand between two terminals: at level 0 anything, at level 1 no bar, unless it is inside of a symbol or a
   * character, and at level 2 only what the printer writes for bare symbols and other data.
   */
  predicate RunOk(s: string, level: nat) {
    || level == 0
    || (NoNul(s) && if level == 1 then BarFree(s) || Bare(s) || s == "#\\|"
      else NumberLike(s) || Bare(s) || SharpRun(s))
  }

  /** All of a text is like that, but for its last `m` characters. */
  predicate Good(t: string, m: nat, level: nat)
    decreases |t|
  {
    || level == 0 || |t| <= m
    || (RunOk(Head(t), level) && (|Head(t)| < |t| ==> Good(t[|Head(t)| + 1..], m, level)))
  }

  function CharWeight(c: char): int { if c == '(' then 1 else if c == ')' then -1 else 0 }

  function RunWeight(s: string): int { if s == "." then -1 else if s == "#\\" then 2 else 0 }

  function Weight(t: string): int
    decreases |t|
  {
    var n := |Head(t)|;
    RunWeight(Head(t)) + if n < |t| then CharWeight(t[n]) + Weight(t[n + 1..]) else 0
  }

  // ----- data -----

  /** A datum that can be read; with `bare` set, one that no symbol between bars is part of. */
  predicate Fine(d: Datum, bare: bool) {
    match d
    case Void => false
    case Fixnum(n) => -TWO_62 <= n < TWO_62
    case Symbol(name) => Bare(name) || (!bare && NoNul(name) && BarFree(name))
    case Pair(car, cdr) => Fine(car, bare) && Fine(cdr, bare)
    case Vector(elems) => forall e :: e in elems ==> Fine(e, bare)
    case Bytevec(bytes) => AreBytes(bytes)
    case _ => true
  }

  /** The fewest single dots that a text needs to be read as this datum: `( . .)` is a dot in a list. */
  function Dots(d: Datum): nat
  {
    match d
    case Symbol(name) => if name == "." then 1 else 0
    case Pair(car, cdr) => DotsIn(car, Dots(car)) + TailDots(cdr, Dots(cdr))
    case Vector(elems) => DotsOf(elems)
    case _ => 0
  }

  function DotsIn(d: Datum, dots: nat): nat { if IsDot(d) then 2 else dots }

  function TailDots(d: Datum, dots: nat): nat { if d.Nil? || d.Pair? then dots else 1 + dots }

  function DotsOf(elems: seq<Datum>): nat
  {
    if elems == [] then 0 else DotsIn(elems[0], Dots(elems[0])) + DotsOf(elems[1..])
  }

  // ----- what the readers keep -----

  ghost predicate ReadKeeps(t: string, r: Parse, m: nat, level: nat) {
    r.Done? && |r.rest.text| >= m ==>
      && Fine(r.value, level > 0) && Good(r.rest.text, m, level)
      && (level == 2 ==> Weight(t) + Dots(r.value) <= Weight(r.rest.text))
  }

  ghost predicate ElementKeeps(t: string, r: Parse, m: nat, level: nat) {
    r.Done? && |r.rest.text| >= m ==>
      && Fine(r.value, level > 0) && Good(r.rest.text, m, level)
      && (level == 2 ==> Weight(t) + DotsIn(r.value, Dots(r.value)) <= Weight(r.rest.text))
  }

  ghost predicate ListKeeps(t: string, r: Parse, m: nat, level: nat) {
    r.Done? && |r.rest.text| >= m ==>
      && Fine(r.value, level > 0) && Good(r.rest.text, m, level)
      && (level == 2 ==> Weight(t) + 1 + TailDots(r.value, Dots(r.value)) <= Weight(r.rest.text))
  }

  // ----- moving along a text -----

  lemma TerminalStep(t: string, m: nat, level: nat)
    requires t != "" && IsTerminal(t[0])
    ensures Head(t) == "" && Weight(t) == CharWeight(t[0]) + Weight(t[1..])
    ensures Good(t, m, level) ==> Good(t[1..], m, level)
  {
  }

  lemma {:induction false} SkipKeeps(t: string, m: nat, level: nat)
    ensures Weight(Skip(t)) == Weight(t)
    ensures Good(t, m, level) ==> Good(Skip(t), m, level)
    decreases |t|
  {
    if t != "" && IsSpace(t[0]) {
      TerminalStep(t, m, level);
      SkipKeeps(t[1..], m, level);
      assert Skip(t) == Skip(t[1..]);
    } else {
      assert Skip(t) == t;
    }
  }

  lemma {:induction false} UntilBehind(t: string, i: nat)
    requires i <= Until(t, IsTerminal)
    ensures Until(t, IsTerminal) == i + Until(t[i..], IsTerminal)
  {
    hide IsTerminal;
    if i > 0 {
      UntilBehind(t[1..], i - 1);
      assert t[1..][i - 1..] == t[i..];
    } else {
      assert t[0..] == t;
    }
  }

  lemma UntilShift(t: string, i: nat)
    requires i <= |Head(t)|
    ensures Until(t, IsTerminal) == i + Until(t[i..], IsTerminal)
    ensures Head(t[i..]) == Head(t)[i..]
  {
    UntilBehind(t, i);
    hide Until;
  }

  /** Into a token, or to its end */
  lemma RunDrop(t: string, i: nat, m: nat, level: nat)
    requires i <= |Head(t)| && Good(t, m, level) && (|t| > m ==> RunOk(Head(t)[i..], level))
    ensures Good(t[i..], m, level)
    ensures Weight(t[i..]) - RunWeight(Head(t)[i..]) == Weight(t) - RunWeight(Head(t))
  {
    DropText(t, i);
    WeightDrop(t, i);
    hide Head;
    hide RunOk;
    hide Weight;
  }

  lemma DropText(t: string, i: nat)
    requires i <= |Head(t)|
    ensures var n := |Head(t)|;
      && n <= |t| && Head(t[i..]) == Head(t)[i..]
      && (n < |t| ==> t[i..][n - i + 1..] == t[n + 1..] && t[i..][n - i] == t[n] && IsTerminal(t[n]))
  {
    UntilShift(t, i);
    hide Until;
  }

  lemma WeightDrop(t: string, i: nat)
    requires i <= |Head(t)|
    ensures Weight(t[i..]) - RunWeight(Head(t)[i..]) == Weight(t) - RunWeight(Head(t))
  {
    DropText(t, i);
    hide Head;
    hide RunWeight;
    hide CharWeight;
  }

  lemma RunEnd(t: string, m: nat, level: nat)
    requires Good(t, m, level)
    ensures Good(t[|Head(t)|..], m, level)
    ensures Weight(t) == RunWeight(Head(t)) + Weight(t[|Head(t)|..])
  {
    assert Head(t)[|Head(t)|..] == "";
    RunDrop(t, |Head(t)|, m, level);
  }

  /** Behind any terminal */
  lemma {:induction false} LineDrop(t: string, i: nat, m: nat, level: nat)
    requires i < |t| && IsTerminal(t[i]) && Good(t, m, level)
    ensures Good(t[i + 1..], m, level)
    decreases |t|
  {
    var n := |Head(t)|;
    NotBefore(t, IsTerminal);
    if level > 0 && |t| > m && i > n {
      LineDrop(t[n + 1..], i - n - 1, m, level);
      assert t[n + 1..][i - n..] == t[i + 1..];
    }
  }

  // ----- tokens that are read -----

  /** A symbol may begin with this character and go on like that. */
  predicate Begins(t: string) {
    && t != "" && !IsTerminal(t[0]) && !IsDigit(t[0]) && !IsMark(t[0])
    && (t[0] in "+-" && |t| > 1 ==> !IsDigit(t[1]))
  }

  lemma FoldChar(c: char, fold: bool)
    ensures var d := if fold then ToLower(c) else c;
      && (IsTerminal(c) <==> IsTerminal(d)) && (IsDigit(c) <==> IsDigit(d)) && (c == '.' <==> d == '.')
      && (IsMark(c) <==> IsMark(d)) && (c in "+-" <==> d in "+-") && (c == '\0' <==> d == '\0')
  {
  }

  /** Folding case, but for the first `i` characters, changes nothing that matters here. */
  lemma BareFold(s: string, i: nat, fold: bool)
    requires Bare(s) && i <= |s|
    ensures var name := s[..i] + Fold(s[i..], fold);
      Bare(name) && (name == "." <==> s == ".")
  {
    var name := s[..i] + Fold(s[i..], fold);
    forall j | 0 <= j < |s| ensures name[j] == s[j] || name[j] == if fold then ToLower(s[j]) else s[j] {
    }
    forall j | 0 <= j < |s|
      ensures !IsTerminal(name[j]) && name[j] != '\0'
    {
      FoldChar(s[j], fold);
    }
    FoldChar(s[0], fold);
    if |s| > 1 { FoldChar(s[1], fold); }
  }

  /** What read_symbol takes from a text: a token, or the part of it in front of a null character */
  function Taken(t: string, i: nat): string
    requires i <= |Head(t)|
  {
    t[..i] + CString(Head(t)[i..])
  }

  lemma SymbolTaken(t: string, i: nat, fold: bool)
    requires i <= |Head(t)|
    ensures var s := Taken(t, i);
      i <= |s| && ReadSymbol(Input(t[i..], fold), t[..i]) ==
        Done(Symbol(s[..i] + Fold(s[i..], fold)), Input(t[|Head(t)|..], fold))
  {
    UntilShift(t, i);
    var h := Head(t);
    var c := CString(h[i..]);
    hide CString;
    hide Until;
    hide Fold;
    var s := t[..i] + c;
    assert t[i..][|h| - i..] == t[|h|..];
    assert s[..i] == t[..i] && s[i..] == c;
  }

  lemma TakenBare(t: string, i: nat)
    requires Begins(t) && i <= 1 && i <= |Head(t)| && (i == 1 ==> t[0] != '\0')
    ensures var s := Taken(t, i);
      (s == "" || Bare(s)) && (NoNul(Head(t)) ==> s == Head(t) && s != "")
  {
    hide IsMark;
    hide IsDigit;
    TakenPart(t, i);
    FirstHead(t);
    hide Taken;
    hide Head;
    var s := Taken(t, i);
    if |s| > 1 { assert s[1] == t[1]; }
  }

  lemma TakenPart(t: string, i: nat)
    requires i <= 1 && i <= |Head(t)| && (i == 1 ==> t[0] != '\0')
    ensures var s := Taken(t, i);
      && s <= t && NoNul(s) && NoTerminal(s) && (NoNul(Head(t)) ==> s == Head(t))
  {
    var h := Head(t);
    var c := CString(h[i..]);
    CStringPart(h[i..]);
    HeadPart(t);
    hide Head;
    hide CString;
    hide IsTerminal;
    assert t[..i] == h[..i];
    PrefixPart(h, i, c);
  }

  lemma PrefixPart(h: string, i: nat, c: string)
    requires i <= 1 && i <= |h| && c <= h[i..] && NoNul(c) && NoTerminal(h) && (i == 1 ==> h[0] != '\0')
    ensures var s := h[..i] + c;
      s <= h && NoNul(s) && NoTerminal(s) && (c == h[i..] ==> s == h)
    ensures NoNul(h) ==> NoNul(h[i..])
  {
    hide IsTerminal;
    var s := h[..i] + c;
    assert |s| <= |h| && s == h[..|s|];
  }

  lemma CStringPart(s: string)
    ensures CString(s) <= s && NoNul(CString(s)) && (NoNul(s) ==> CString(s) == s)
  {
    NotBefore(s, IsNul);
    if NoNul(s) { CStringWhole(s); }
    hide Until;
  }

  lemma HeadPart(t: string)
    ensures Head(t) <= t && NoTerminal(Head(t))
  {
    NotBefore(t, IsTerminal);
    hide Until;
    hide IsTerminal;
  }

  lemma SymbolLaw(t: string, i: nat, fold: bool, m: nat, level: nat)
    requires Begins(t) && i <= 1 && (i == 1 ==> t[0] != '\0') && Good(t, m, level) && |t| > m && level <= 2
    ensures var r := ReadSymbol(Input(t[i..], fold), t[..i]);
      && Fine(r.value, level > 0) && Good(r.rest.text, m, level)
      && (level == 2 ==> Weight(t) + Dots(r.value) <= Weight(r.rest.text))
      && (level == 2 ==> (IsDot(r.value) <==> Head(t) == "."))
  {
    hide Bare;
    hide ReadSymbol;
    hide Head;
    hide CString;
    hide Begins;
    hide Weight;
    hide RunOk;
    hide Taken;
    HeadBegins(t);
    SymbolTaken(t, i, fold);
    TakenBare(t, i);
    RunEnd(t, m, level);
    var s := Taken(t, i);
    if s == "" {
      assert BarFree("") && NoNul("");
      assert s[..i] + Fold(s[i..], fold) == "";
    } else {
      BareFold(s, i, fold);
    }
    if level > 0 { RunNoNul(Head(t), level); }
  }

  lemma RunNoNul(s: string, level: nat)
    requires level > 0 && RunOk(s, level)
    ensures NoNul(s)
  {
  }

  lemma HeadBegins(t: string)
    requires Begins(t)
    ensures Head(t) != "" && Head(t)[0] == t[0] && Head(t) != "#\\"
  {
    assert IsMark('#');
  }

  /** A token that can be read from its middle on */
  predicate Loose(s: string, level: nat) {
    level == 0 || (NoNul(s) && if level == 1 then BarFree(s) else NumberLike(s))
  }

  lemma EnterRun(t: string, i: nat, m: nat, level: nat)
    requires i <= |Head(t)| && Good(t, m, level) && Loose(Head(t), level)
    ensures Good(t[i..], m, level) && Loose(Head(t[i..]), level)
    ensures level == 2 ==> Weight(t[i..]) == Weight(t)
  {
    hide IsTerminal;
    hide Bare;
    hide SharpRun;
    DropText(t, i);
    hide Head;
    var h := Head(t);
    assert forall j :: 0 <= j < |h| - i ==> h[i..][j] == h[i + j];
    RunDrop(t, i, m, level);
    hide Good;
    hide Weight;
    if level == 2 {
      NumberLikeWeight(h);
      NumberLikeWeight(h[i..]);
    }
  }

  lemma NumberLikeWeight(s: string)
    requires NumberLike(s)
    ensures RunWeight(s) == 0
  {
    assert s != "" ==> IsDigit(s[0]) || s[0] == '-';
  }

  /** What the first token of a text can be. */
  lemma FirstRun(t: string, m: nat, level: nat)
    requires t != "" && !IsTerminal(t[0]) && Good(t, m, level) && |t| > m && level <= 2
    ensures |Head(t)| > 0 && Head(t)[0] == t[0]
    ensures !Begins(t) && t[0] != '#' ==> Loose(Head(t), level)
    ensures !Begins(t) && t[0] != '#' && level == 2 ==> IsDigit(t[0]) || t[0] in "+-"
    ensures t[0] == '|' ==> level == 0
    ensures t[0] == '#' && level == 1 ==> Loose(Head(t), level) || Head(t) == "#\\|"
    ensures t[0] == '#' && level == 2 ==> SharpRun(Head(t))
  {
    FirstHead(t);
    hide Head;
    hide Bare;
    if !Bare(Head(t)) { RunStart(Head(t), level); }
    assert IsMark('#') && IsMark('|');
  }

  lemma FirstHead(t: string)
    requires t != "" && !IsTerminal(t[0])
    ensures |Head(t)| > 0 && Head(t)[0] == t[0]
    ensures Bare(Head(t)) ==> Begins(t)
  {
    if |t| > 1 && |Head(t)| > 1 { assert Head(t)[1] == t[1]; }
  }

  lemma RunStart(s: string, level: nat)
    requires s != "" && RunOk(s, level) && level <= 2 && !Bare(s)
    ensures s[0] == '#' || Loose(s, level)
    ensures level == 1 ==> Loose(s, level) || s == "#\\|"
    ensures level == 2 ==> NumberLike(s) || SharpRun(s)
    ensures level > 0 ==> s[0] != '|'
    ensures level == 2 && s[0] != '#' ==> IsDigit(s[0]) || s[0] == '-'
    ensures level == 2 && s[0] == '#' ==> SharpRun(s)
  {
  }

  lemma {:induction false} UntilWithin(t: string, isDigit: char -> bool)
    requires forall c :: isDigit(c) ==> !IsTerminal(c)
    ensures Until(t, Not(isDigit)) <= |Head(t)|
  {
    if t != "" && isDigit(t[0]) {
      UntilWithin(t[1..], isDigit);
      UntilShift(t, 1);
    }
  }

  lemma NumLaw(t: string, radix: int, isDigit: char -> bool, fold: bool, m: nat, level: nat)
    requires forall c :: isDigit(c) ==> !IsTerminal(c)
    requires Good(t, m, level) && Loose(Head(t), level)
    ensures var r := ReadNum(Input(t, fold), radix, isDigit);
      && Fine(r.value, level > 0) && Good(r.rest.text, m, level)
      && (level == 2 ==> Weight(t) <= Weight(r.rest.text))
  {
    hide Good;
    hide Weight;
    hide Loose;
    hide Unsigned;
    if t != "" && (t[0] == '-' || t[0] == '+') {
      FirstHead(t);
      hide Head;
      EnterRun(t, 1, m, level);
      UntilWithin(t[1..], isDigit);
      EnterRun(t[1..], Until(t[1..], Not(isDigit)), m, level);
    } else {
      hide Head;
      UntilWithin(t, isDigit);
      EnterRun(t, Until(t, Not(isDigit)), m, level);
    }
  }

  // ----- the readers -----

  lemma {:induction false} ElementsLaw(list: Datum, bare: bool)
    requires Fine(list, bare)
    ensures Fine(Vector(Elements(list)), bare) && DotsOf(Elements(list)) <= TailDots(list, Dots(list))
  {
    if list.Pair? {
      ElementsLaw(list.cdr, bare);
      var rest := Elements(list.cdr);
      assert Elements(list)[1..] == rest;
      assert forall e :: e in Elements(list) ==> e == list.car || e in rest;
    }
  }

  /** navi_read keeps what is behind it good, and gives a fine datum that costs its dots. */
  lemma {:induction false} ReadLaw(t: string, fold: bool, m: nat, level: nat)
    requires Good(t, m, level) && level <= 2
    ensures ReadKeeps(t, Read(Input(t, fold)), m, level)
    decreases |t|, 4
  {
    hide Good;
    hide Weight;
    hide Read;
    hide ReadDatum;
    hide Skip;
    SkipKeeps(t, m, level);
    SkipShorter(t);
    ReadBegins(Input(t, fold));
    var text := Skip(t);
    if text == "" {
      Exhausted(m, level);
    } else {
      DatumLaw(text, fold, m, level);
    }
  }

  lemma SkipShorter(t: string)
    ensures |Skip(t)| <= |t| && (Skip(t) != "" ==> !IsSpace(Skip(t)[0]))
  {
  }

  lemma Exhausted(m: nat, level: nat)
    ensures Weight("") == 0 && Good("", m, level)
  {
  }

  /** The switch of navi_read */
  lemma {:induction false} DatumLaw(t: string, fold: bool, m: nat, level: nat)
    requires t != "" && !IsSpace(t[0]) && Good(t, m, level) && level <= 2
    ensures ReadKeeps(t, ReadDatum(t[0], Input(t, fold)), m, level)
    ensures t[0] != '.' ==> ElementKeeps(t, ReadDatum(t[0], Input(t, fold)), m, level)
    decreases |t|, 3
  {
    hide ReadKeeps;
    hide ElementKeeps;
    hide Good;
    hide Begins;
    hide ReadDatum;
    var c := t[0];
    if |t| <= m {
      TooLate(t, ReadDatum(c, Input(t, fold)), m, level);
    } else if c == '(' {
      OpenLaw(t, fold, m, level);
    } else if c == ')' {
      Closing(t, fold, m, level);
    } else if c == '#' {
      HashLaw(t, fold, m, level);
    } else if Begins(t) {
      BeginsLaw(t, fold, m, level);
    } else {
      FirstRun(t, m, level);
      if IsDigit(c) || c == '+' || c == '-' {
        NumberLaw(t, fold, m, level);
      } else {
        MarkLaw(t, fold, m, level);
      }
    }
  }

  lemma TooLate(t: string, r: Parse, m: nat, level: nat)
    requires |t| <= m && (r.Done? ==> |r.rest.text| < |t|)
    ensures ReadKeeps(t, r, m, level) && ElementKeeps(t, r, m, level)
  {
  }

  lemma Closing(t: string, fold: bool, m: nat, level: nat)
    requires t != "" && t[0] == ')'
    ensures ReadDatum(t[0], Input(t, fold)) == Failed
    ensures ReadKeeps(t, ReadDatum(t[0], Input(t, fold)), m, level)
    ensures ElementKeeps(t, ReadDatum(t[0], Input(t, fold)), m, level)
  {
  }

  lemma {:induction false} OpenLaw(t: string, fold: bool, m: nat, level: nat)
    requires t != "" && t[0] == '(' && Good(t, m, level) && level <= 2
    ensures ReadKeeps(t, ReadDatum(t[0], Input(t, fold)), m, level)
    ensures ElementKeeps(t, ReadDatum(t[0], Input(t, fold)), m, level)
    decreases |t|, 2
  {
    TerminalStep(t, m, level);
    ListLaw(t[1..], fold, m, level);
    hide Good;
    hide Weight;
    hide ReadList;
  }

  lemma BeginsLaw(t: string, fold: bool, m: nat, level: nat)
    requires t != "" && Begins(t) && Good(t, m, level) && |t| > m && level <= 2
    ensures ReadKeeps(t, ReadDatum(t[0], Input(t, fold)), m, level)
    ensures t[0] != '.' ==> ElementKeeps(t, ReadDatum(t[0], Input(t, fold)), m, level)
  {
    BeginsRead(t, fold);
    hide ReadDatum;
    HeadBegins(t);
    hide Begins;
    hide Good;
    hide Weight;
    hide Head;
    hide ReadSymbol;
    hide Fine;
    if t[0] in "+-" {
      assert t[..1] == [t[0]];
      SymbolLaw(t, 1, fold, m, level);
    } else {
      assert t[..0] == "" && t[0..] == t;
      SymbolLaw(t, 0, fold, m, level);
    }
  }

  lemma BeginsRead(t: string, fold: bool)
    requires Begins(t)
    ensures ReadDatum(t[0], Input(t, fold)) ==
      if t[0] in "+-" then ReadSymbol(Input(t[1..], fold), [t[0]]) else ReadSymbol(Input(t, fold), "")
  {
    hide ReadDatum;
    hide ReadSymbol;
    if t[0] in "+-" { DatumSign(t, fold); } else { DatumPlain(t, fold); }
  }

  lemma NumberLaw(t: string, fold: bool, m: nat, level: nat)
    requires t != "" && !Begins(t) && (IsDigit(t[0]) || t[0] == '+' || t[0] == '-')
    requires Good(t, m, level) && Loose(Head(t), level) && |Head(t)| > 0
    ensures ReadKeeps(t, ReadDatum(t[0], Input(t, fold)), m, level)
    ensures ElementKeeps(t, ReadDatum(t[0], Input(t, fold)), m, level)
  {
    NumberRead(t, fold);
    hide Begins;
    hide ReadDatum;
    hide ReadNum;
    hide Good;
    hide Weight;
    hide Loose;
    hide Head;
    if IsDigit(t[0]) {
      NumLaw(t, 10, IsDigit, fold, m, level);
    } else {
      EnterRun(t, 1, m, level);
      NumLaw(t[1..], 10, IsDigit, fold, m, level);
    }
  }

  lemma NumberRead(t: string, fold: bool)
    requires t != "" && !Begins(t) && (IsDigit(t[0]) || t[0] == '+' || t[0] == '-')
    ensures IsDigit(t[0]) ==> ReadDatum(t[0], Input(t, fold)) == ReadNum(Input(t, fold), 10, IsDigit)
    ensures !IsDigit(t[0]) ==>
      var r := ReadNum(Input(t[1..], fold), 10, IsDigit);
      ReadDatum(t[0], Input(t, fold)) == Done(Fixnum(Fix(r.value.n * if t[0] == '+' then 1 else -1)), r.rest)
  {
    hide ReadNum;
    hide Fix;
    if !IsDigit(t[0]) {
      assert !IsMark(t[0]);
      assert t[0] in "+-";
    }
  }

  /** Quotes, comments and bars, none of which the printer writes on its own */
  lemma {:induction false} MarkLaw(t: string, fold: bool, m: nat, level: nat)
    requires t != "" && !IsTerminal(t[0]) && !Begins(t) && t[0] != '#'
    requires !IsDigit(t[0]) && t[0] != '+' && t[0] != '-'
    requires Good(t, m, level) && |t| > m && Loose(Head(t), level) && |Head(t)| > 0
    requires level < 2 && (t[0] == '|' ==> level == 0)
    ensures ReadKeeps(t, ReadDatum(t[0], Input(t, fold)), m, level)
    ensures ElementKeeps(t, ReadDatum(t[0], Input(t, fold)), m, level)
    decreases |t|, 2
  {
    hide ReadKeeps;
    hide ElementKeeps;
    MarkIs(t);
    hide Begins;
    hide ReadDatum;
    if t[0] == ';' {
      SemicolonLaw(t, fold, m, level);
    } else if t[0] == '|' {
      BarLaw(t, fold, m);
    } else {
      QuoteLaw(t, fold, m, level);
    }
  }

  lemma MarkIs(t: string)
    requires t != "" && !IsTerminal(t[0]) && !Begins(t) && t[0] != '#'
    requires !IsDigit(t[0]) && t[0] != '+' && t[0] != '-'
    ensures t[0] == '"' || t[0] == '\'' || t[0] == '`' || t[0] == ',' || t[0] == ';' || t[0] == '|'
  {
    var c := t[0];
    assert c in "+-" <==> c == '+' || c == '-';
  }

  lemma BarLaw(t: string, fold: bool, m: nat)
    requires t != "" && t[0] == '|'
    ensures ReadKeeps(t, ReadDatum(t[0], Input(t, fold)), m, 0)
    ensures ElementKeeps(t, ReadDatum(t[0], Input(t, fold)), m, 0)
  {
    var rest := t[1..];
    var n := NextBar(rest);
    NotBefore(rest, IsPipe);
    NotBefore(rest[..n], IsNul);
    var c := CString(rest[..n]);
    forall j | 0 <= j < |c| ensures Fold(c, fold)[j] != '|' && Fold(c, fold)[j] != '\0' {
      assert c[j] == rest[j] && !IsPipe(rest[j]) && !IsNul(rest[..n][j]);
    }
    assert NoNul(Fold(c, fold)) && BarFree(Fold(c, fold));
    hide CString;
    hide NextBar;
    hide Fold;
  }

  lemma {:induction false} SemicolonLaw(t: string, fold: bool, m: nat, level: nat)
    requires t != "" && t[0] == ';' && Good(t, m, level) && level < 2
    ensures ReadKeeps(t, ReadDatum(t[0], Input(t, fold)), m, level)
    ensures ElementKeeps(t, ReadDatum(t[0], Input(t, fold)), m, level)
    decreases |t|, 1
  {
    hide Good;
    hide Read;
    LineLaw(t, 0, m, level);
    ReadLaw(ConsumeLine(t), fold, m, level);
  }

  /** Behind a line comment */
  lemma LineLaw(t: string, i: nat, m: nat, level: nat)
    requires i <= |t| && Good(t, m, level)
    ensures AfterLine(t[i..]).Some? ==> Good(AfterLine(t[i..]).value, m, level)
    ensures Good(ConsumeLine(t[i..]), m, level)
    ensures i == 0 ==> Good(ConsumeLine(t), m, level)
  {
    hide Good;
    var n := Until(t[i..], IsNewline);
    Exhausted(m, level);
    assert t[0..] == t;
    if n < |t[i..]| {
      assert t[i + n] == '\n' && t[i..][n + 1..] == t[i + n + 1..];
      LineDrop(t, i + n, m, level);
    }
  }

  lemma WrapLaw(t: string, symbol: string, u: string, r: Parse, m: nat, level: nat)
    requires Bare(symbol) && level < 2 && ReadKeeps(u, r, m, level)
    ensures ReadKeeps(t, Wrap(symbol, r), m, level) && ElementKeeps(t, Wrap(symbol, r), m, level)
  {
    hide Good;
    hide Weight;
    hide Fine;
    if r.Done? && |r.rest.text| >= m { WrapFine(symbol, r.value, level > 0); }
  }

  lemma WrapFine(symbol: string, d: Datum, bare: bool)
    requires Bare(symbol) && Fine(d, bare)
    ensures Fine(Pair(Symbol(symbol), Pair(d, Nil)), bare)
  {
    FineSymbol(symbol, bare);
    hide Bare;
    assert Fine(Pair(d, Nil), bare);
  }

  lemma FineSymbol(symbol: string, bare: bool)
    requires Bare(symbol)
    ensures Fine(Symbol(symbol), bare)
  {
  }

  lemma QuoteNames()
    ensures Bare("quote") && Bare("quasiquote") && Bare("unquote") && Bare("unquote-splice")
  {
  }

  lemma {:induction false} QuoteLaw(t: string, fold: bool, m: nat, level: nat)
    requires t != "" && (t[0] == '"' || t[0] == '\'' || t[0] == '`' || t[0] == ',')
    requires Good(t, m, level) && Loose(Head(t), level) && |Head(t)| > 0 && level < 2
    ensures ReadKeeps(t, ReadDatum(t[0], Input(t, fold)), m, level)
    ensures ElementKeeps(t, ReadDatum(t[0], Input(t, fold)), m, level)
    decreases |t|, 1
  {
    hide Good;
    hide ReadKeeps;
    hide ElementKeeps;
    hide Wrap;
    hide Read;
    hide Loose;
    hide Head;
    hide Bare;
    QuoteNames();
    var rest := t[1..];
    EnterRun(t, 1, m, level);
    ReadLaw(rest, fold, m, level);
    if t[0] == '"' {
      NothingKept(t, Outside, m, level);
    } else if t[0] == '\'' {
      WrapLaw(t, "quote", rest, Read(Input(rest, fold)), m, level);
    } else if t[0] == '`' {
      WrapLaw(t, "quasiquote", rest, Read(Input(rest, fold)), m, level);
    } else if rest == "" {
      NothingKept(t, Failed, m, level);
    } else if rest[0] == '@' {
      FirstHead(rest);
      EnterRun(rest, 1, m, level);
      ReadLaw(rest[1..], fold, m, level);
      WrapLaw(t, "unquote-splice", rest[1..], Read(Input(rest[1..], fold)), m, level);
    } else {
      WrapLaw(t, "unquote", rest, Read(Input(rest, fold)), m, level);
    }
  }

  lemma NothingKept(t: string, r: Parse, m: nat, level: nat)
    requires !r.Done?
    ensures ReadKeeps(t, r, m, level) && ElementKeeps(t, r, m, level)
  {
  }

  // ----- after a number sign -----

  ghost predicate SharpKeeps(t: string, r: Parse, m: nat, level: nat) {
    r.Done? && |r.rest.text| >= m ==>
      if r.value.Void? then level < 2 && Good(r.rest.text, m, level)
      else !r.value.Symbol? && ReadKeeps(t, r, m, level)
  }

  lemma {:induction false} HashLaw(t: string, fold: bool, m: nat, level: nat)
    requires t != "" && t[0] == '#' && Good(t, m, level) && |t| > m && level <= 2
    ensures ReadKeeps(t, ReadDatum(t[0], Input(t, fold)), m, level)
    ensures ElementKeeps(t, ReadDatum(t[0], Input(t, fold)), m, level)
    decreases |t|, 2
  {
    hide Good;
    hide Weight;
    hide Fine;
    hide Read;
    hide ReadSharp;
    hide ReadDatum;
    var r := ReadSharp(Input(t[1..], fold));
    DatumSharp(t, fold);
    SharpLaw(t, fold, m, level);
    if r.Done? && r.value.Void? && |r.rest.text| >= m {
      ReadLaw(r.rest.text, r.rest.fold, m, level);
    }
  }

  lemma TokenEnd(t: string, i: nat)
    requires i <= |Head(t)|
    ensures t[i..][Until(t[i..], IsTerminal)..] == t[|Head(t)|..]
    ensures t[i..][..Until(t[i..], IsTerminal)] == Head(t)[i..]
  {
    UntilShift(t, i);
    hide Until;
  }

  /** read_sharp */
  lemma {:induction false} SharpLaw(t: string, fold: bool, m: nat, level: nat)
    requires t != "" && t[0] == '#' && Good(t, m, level) && |t| > m && level <= 2
    ensures SharpKeeps(t, ReadSharp(Input(t[1..], fold)), m, level)
    decreases |t|, 1
  {
    hide SharpKeeps;
    hide Good;
    hide Begins;
    hide ReadSharp;
    hide Loose;
    hide SharpRun;
    FirstRun(t, m, level);
    if |t| == 1 || t[1] == '#' {
      SharpNothing(t, fold, m, level);
    } else if t[1] == '(' {
      SharpOpenLaw(t, fold, m, level);
    } else if t[1] == 'u' {
      SharpBytesLaw(t, fold, m, level);
    } else if IsTerminal(t[1]) {
      SharpNothing(t, fold, m, level);
    } else {
      SharpTokenLaw(t, fold, m, level);
    }
  }

  lemma SharpNothing(t: string, fold: bool, m: nat, level: nat)
    requires t != "" && (|t| == 1 || t[1] == '#' || (t[1] != '(' && IsTerminal(t[1])))
    ensures SharpKeeps(t, ReadSharp(Input(t[1..], fold)), m, level)
  {
  }

  lemma {:induction false} SharpOpenLaw(t: string, fold: bool, m: nat, level: nat)
    requires |t| > 1 && t[0] == '#' && t[1] == '(' && Good(t, m, level) && level <= 2
    ensures SharpKeeps(t, ReadSharp(Input(t[1..], fold)), m, level)
    decreases |t|, 0
  {
    assert Until(t[1..], IsTerminal) == 0;
    assert Head(t) == "#" && RunWeight("#") == 0;
    hide Head;
    RunEnd(t, m, level);
    TerminalStep(t[1..], m, level);
    assert t[1..][1..] == t[2..];
    ListLaw(t[2..], fold, m, level);
    hide Good;
    hide Weight;
    hide ReadList;
    hide Fine;
    hide Dots;
    hide Elements;
    hide ReadSharp;
    var r := ReadList(Input(t[2..], fold));
    SharpOpen(t, fold);
    if r.Done? && |r.rest.text| >= m {
      ElementsLaw(r.value, level > 0);
      VectorDots(Elements(r.value));
    }
  }

  lemma SharpOpen(t: string, fold: bool)
    requires |t| > 1 && t[1] == '('
    ensures ReadSharp(Input(t[1..], fold)) == AsVector(ReadList(Input(t[2..], fold)))
  {
    hide ReadList;
    hide AsVector;
    assert t[1..][1..] == t[2..];
  }

  lemma VectorDots(elems: seq<Datum>)
    ensures Dots(Vector(elems)) == DotsOf(elems)
  {
  }

  lemma {:induction false} SharpBytesLaw(t: string, fold: bool, m: nat, level: nat)
    requires |t| > 1 && t[0] == '#' && t[1] == 'u' && Good(t, m, level) && level <= 2
    ensures SharpKeeps(t, ReadSharp(Input(t[1..], fold)), m, level)
    decreases |t|, 0
  {
    SharpBytes(t, fold);
    hide SharpKeeps;
    hide ReadSharp;
    hide Good;
    hide ReadList;
    if |t| >= 4 && t[2] == '8' && t[3] == '(' {
      BytesHead(t);
      RunEnd(t, m, level);
      TerminalStep(t[3..], m, level);
      assert t[3..][1..] == t[4..];
      ListLaw(t[4..], fold, m, level);
      BytesLaw(t, ReadList(Input(t[4..], fold)), m, level);
    } else {
      NoSharp(t, m, level);
    }
  }

  lemma SharpBytes(t: string, fold: bool)
    requires |t| > 1 && t[0] == '#' && t[1] == 'u'
    ensures ReadSharp(Input(t[1..], fold)) ==
      if |t| >= 4 && t[2] == '8' && t[3] == '(' then AsBytevec(ReadList(Input(t[4..], fold))) else Failed
  {
    hide ReadList;
    hide AsBytevec;
    if |t| >= 4 {
      assert t[1..][1..][2..] == t[4..];
      assert t[1..][1..][0] == t[2] && t[1..][1..][1] == t[3];
    }
  }

  lemma BytesHead(t: string)
    requires |t| >= 4 && t[..4] == "#u8("
    ensures Head(t) == "#u8" && RunWeight(Head(t)) == 0
  {
    assert t[0] == '#' && t[1] == 'u' && t[2] == '8' && t[3] == '(';
    assert t[1..][1..] == t[2..] && t[2..][1..] == t[3..];
    assert Until(t[3..], IsTerminal) == 0;
    assert Until(t[2..], IsTerminal) == 1;
    assert Until(t[1..], IsTerminal) == 2;
  }

  lemma BytesLaw(t: string, r: Parse, m: nat, level: nat)
    requires |t| >= 4 && Weight(t) == 1 + Weight(t[4..]) && ListKeeps(t[4..], r, m, level)
    ensures SharpKeeps(t, AsBytevec(r), m, level)
  {
    hide Weight;
    hide Good;
    if r.Done? && ToBytes(Elements(r.value)).Some? {
      var elems := Elements(r.value);
      assert forall i :: 0 <= i < |elems| ==> elems[i] in elems;
    }
  }

  lemma NoSharp(t: string, m: nat, level: nat)
    ensures SharpKeeps(t, Failed, m, level)
  {
  }

  /** The cases in which the character after the number sign belongs to the same token */
  lemma {:induction false} SharpTokenLaw(t: string, fold: bool, m: nat, level: nat)
    requires |t| > 1 && t[0] == '#' && !IsTerminal(t[1]) && t[1] != '#' && t[1] != 'u'
    requires Good(t, m, level) && |t| > m && level <= 2
    ensures SharpKeeps(t, ReadSharp(Input(t[1..], fold)), m, level)
    decreases |t|, 0
  {
    FirstRun(t, m, level);
    SecondChar(t);
    SharpSwitch(t, fold);
    SharpChar(Head(t));
    hide SharpKeeps;
    hide ReadSharp;
    hide Good;
    hide Head;
    hide Loose;
    hide SharpRun;
    hide Begins;
    hide IsTerminal;
    var c, rest := t[1], Input(t[2..], fold);
    if c == 't' || c == 'f' {
      BooleanLaw(t, fold, m, level);
    } else if c == '\\' {
      CharacterLaw(t, fold, m, level);
    } else if c == '!' {
      BangLaw(t, fold, m, level);
    } else if c == 'b' || c == 'o' || c == 'x' {
      RadixLaw(t, if c == 'b' then 2 else if c == 'o' then 8 else 16,
        if c == 'b' then IsBinaryDigit else if c == 'o' then IsOctalDigit else IsHexDigit, fold, m, level);
    } else if c == ';' {
      EnterRun(t, 2, m, level);
      ReadLaw(t[2..], fold, m, level);
      VoidLaw(t, Read(rest), m, level);
    } else if c == '/' {
      LineLaw(t, 2, m, level);
      CommentLaw(t, AfterLine(rest.text), rest, m, level);
    } else if c == '|' {
      AllGood(m, level);
      CommentLaw(t, AfterBlock(rest.text), rest, m, level);
    } else {
      NoSharp(t, m, level);
    }
  }

  lemma SecondChar(t: string)
    requires |t| > 1 && !IsTerminal(t[0]) && !IsTerminal(t[1])
    ensures |Head(t)| >= 2 && Head(t)[0] == t[0] && Head(t)[1] == t[1]
  {
  }

  lemma SharpSwitch(t: string, fold: bool)
    requires |t| > 1 && t[1] != '(' && t[1] != 'u' && t[1] != '#'
    ensures var c, rest := t[1], Input(t[2..], fold);
      ReadSharp(Input(t[1..], fold)) ==
        if c == 't' || c == 'f' then ReadBoolean(c, rest)
        else if c == '\\' then ReadCharacter(rest)
        else if c == 'b' then ReadNum(rest, 2, IsBinaryDigit)
        else if c == 'o' then ReadNum(rest, 8, IsOctalDigit)
        else if c == 'x' then ReadNum(rest, 16, IsHexDigit)
        else if c == '!' then ReadSharpBang(rest)
        else if c == ';' then AsVoid(Read(rest))
        else if c == '|' then Comment(AfterBlock(rest.text), rest)
        else if c == '/' then Comment(AfterLine(rest.text), rest)
        else Failed
  {
    hide ReadBoolean;
    hide ReadCharacter;
    hide ReadNum;
    hide ReadSharpBang;
    hide Read;
    hide AfterBlock;
    hide AfterLine;
    assert t[1..][1..] == t[2..];
  }

  /** The token in front of level 1 and level 2, by its second character */
  lemma SharpChar(s: string)
    requires |s| >= 2 && s[0] == '#'
    ensures SharpRun(s) && s[1] == '!' ==> s == "#!eof"
    ensures SharpRun(s) ==> s[1] == '!' || s[1] == 'u' || s[1] == 't' || s[1] == 'f' || s[1] == '\\'
    ensures s[1] != '\\' ==> s != "#\\|" && RunWeight(s) == 0
    ensures s[1] == '|' ==> !BarFree(s)
  {
  }

  lemma AllGood(m: nat, level: nat)
    ensures level == 0 ==> forall t :: Good(t, m, level)
  {
  }

  lemma CommentLaw(t: string, after: Option<string>, rest: Input, m: nat, level: nat)
    requires level < 2 && (after.Some? ==> Good(after.value, m, level))
    ensures SharpKeeps(t, Comment(after, rest), m, level)
  {
  }

  lemma VoidLaw(t: string, r: Parse, m: nat, level: nat)
    requires |t| >= 2 && level < 2 && ReadKeeps(t[2..], r, m, level)
    ensures SharpKeeps(t, AsVoid(r), m, level)
  {
  }

  lemma BooleanLaw(t: string, fold: bool, m: nat, level: nat)
    requires |t| > 1 && |Head(t)| >= 2 && RunWeight(Head(t)) == 0 && Good(t, m, level)
    ensures SharpKeeps(t, ReadBoolean(t[1], Input(t[2..], fold)), m, level)
  {
    hide Weight;
    hide Good;
    hide Head;
    hide CString;
    TokenEnd(t, 2);
    RunEnd(t, m, level);
  }

  lemma CharacterLaw(t: string, fold: bool, m: nat, level: nat)
    requires |t| > 1 && |Head(t)| >= 2 && Head(t)[0] == '#' && Head(t)[1] == '\\' && Good(t, m, level)
    ensures SharpKeeps(t, ReadCharacter(Input(t[2..], fold)), m, level)
  {
    hide Weight;
    hide Good;
    hide Head;
    TokenEnd(t, 2);
    RunEnd(t, m, level);
    NoEmptyName(0);
    var lit := Head(t)[2..];
    if lit == "" {
      assert CString(lit) == "" && CharLiteral("", fold) == None;
    } else {
      assert Head(t) != "#\\" && Head(t) != ".";
      hide CharLiteral;
      hide CString;
    }
  }

  lemma RadixLaw(t: string, radix: int, isDigit: char -> bool, fold: bool, m: nat, level: nat)
    requires |t| > 1 && |Head(t)| >= 2 && Loose(Head(t), level) && Good(t, m, level) && level < 2
    requires isDigit == IsBinaryDigit || isDigit == IsOctalDigit || isDigit == IsHexDigit
    ensures SharpKeeps(t, ReadNum(Input(t[2..], fold), radix, isDigit), m, level)
  {
    hide Weight;
    hide Good;
    hide Head;
    hide Loose;
    EnterRun(t, 2, m, level);
    assert forall c :: isDigit(c) ==> !IsTerminal(c);
    NumLaw(t[2..], radix, isDigit, fold, m, level);
  }

  lemma BangLaw(t: string, fold: bool, m: nat, level: nat)
    requires |t| > 1 && |Head(t)| >= 2 && RunWeight(Head(t)) == 0 && Good(t, m, level) && level <= 2
    requires level == 2 ==> Head(t) == "#!eof"
    ensures SharpKeeps(t, ReadSharpBang(Input(t[2..], fold)), m, level)
  {
    hide Weight;
    hide Good;
    hide Head;
    hide Until;
    hide ReadSharpBang;
    hide Directive;
    hide SharpKeeps;
    RunEnd(t, m, level);
    BangRead(t, fold);
    DropText(t, 0);
    DirectiveLaw(t, Head(t)[2..], t[|Head(t)|..], fold, m, level);
  }

  lemma BangRead(t: string, fold: bool)
    requires |Head(t)| >= 2
    ensures ReadSharpBang(Input(t[2..], fold)) == Directive(CString(Head(t)[2..]), Input(t[|Head(t)|..], fold))
  {
    TokenEnd(t, 2);
    hide Head;
    hide Until;
    hide Directive;
    hide CString;
  }

  lemma DirectiveLaw(t: string, s: string, rest: string, fold: bool, m: nat, level: nat)
    requires Good(rest, m, level) && level <= 2
    requires level == 2 ==> s == "eof" && Weight(t) == Weight(rest)
    ensures SharpKeeps(t, Directive(CString(s), Input(rest, fold)), m, level)
  {
    hide Weight;
    hide Good;
    LineLaw(rest, 0, m, level);
    assert rest[0..] == rest;
    hide ConsumeLine;
    hide AfterLine;
    if level == 2 { CStringWhole("eof"); }
    hide CString;
  }

  // ----- lists -----

  lemma ConsLaw(t: string, r: Parse, l: Parse, m: nat, level: nat)
    requires r.Done? && ElementKeeps(t, r, m, level) && ListKeeps(r.rest.text, l, m, level)
    requires l.Done? ==> |l.rest.text| <= |r.rest.text|
    ensures ListKeeps(t, Cons(r.value, l), m, level)
  {
    hide Weight;
    hide Good;
  }

  /** read_list: it uses up the parenthesis at its end too. */
  lemma {:induction false} ListLaw(t: string, fold: bool, m: nat, level: nat)
    requires Good(t, m, level) && level <= 2
    ensures ListKeeps(t, ReadList(Input(t, fold)), m, level)
    decreases |t|, 7
  {
    SkipKeeps(t, m, level);
    SkipShorter(t);
    hide Good;
    hide Weight;
    hide ListKeeps;
    hide ReadList;
    var text := Skip(t);
    if text == "" {
      NoList(t, fold, m, level);
    } else {
      ListSkips(Input(t, fold), text);
      hide Skip;
      ListSwitchLaw(text, fold, m, level);
      SameWeight(t, text, ReadList(Input(t, fold)), m, level);
    }
  }

  lemma SameWeight(t: string, u: string, r: Parse, m: nat, level: nat)
    requires Weight(t) == Weight(u) && ListKeeps(u, r, m, level)
    ensures ListKeeps(t, r, m, level)
  {
  }

  lemma NoList(t: string, fold: bool, m: nat, level: nat)
    requires Skip(t) == ""
    ensures ListKeeps(t, ReadList(Input(t, fold)), m, level)
  {
  }

  lemma {:induction false} ListSwitchLaw(t: string, fold: bool, m: nat, level: nat)
    requires t != "" && !IsSpace(t[0]) && Good(t, m, level) && level <= 2
    ensures ListKeeps(t, ListSwitch(t[0], Input(t, fold)), m, level)
    decreases |t|, 6
  {
    hide Good;
    hide Weight;
    hide ListKeeps;
    var c := t[0];
    if |t| <= m {
      TooLateList(t, ListSwitch(c, Input(t, fold)), m, level);
    } else if c == ')' {
      TerminalStep(t, m, level);
      EndLaw(t, fold, m, level);
    } else if c == '.' {
      DotLaw(t, fold, m, level);
    } else if c == '#' {
      ListSharpLaw(t, fold, m, level);
    } else if c == ';' {
      ListLineLaw(t, fold, m, level);
    } else {
      ListElementLaw(t, fold, m, level);
    }
  }

  lemma TooLateList(t: string, r: Parse, m: nat, level: nat)
    requires |t| <= m && (r.Done? ==> |r.rest.text| < |t|)
    ensures ListKeeps(t, r, m, level)
  {
  }

  lemma EndLaw(t: string, fold: bool, m: nat, level: nat)
    requires t != "" && t[0] == ')' && Weight(t) == -1 + Weight(t[1..]) && Good(t[1..], m, level)
    ensures ListKeeps(t, ListSwitch(t[0], Input(t, fold)), m, level)
  {
    hide Weight;
    hide Good;
  }

  lemma {:induction false} ListLineLaw(t: string, fold: bool, m: nat, level: nat)
    requires t != "" && t[0] == ';' && Good(t, m, level) && |t| > m && level <= 2
    ensures ListKeeps(t, ListSwitch(t[0], Input(t, fold)), m, level)
    decreases |t|, 2
  {
    hide ReadList;
    hide Good;
    hide Weight;
    hide ListSwitch;
    hide ListKeeps;
    FirstRun(t, m, level);
    assert !Begins(t) by { assert IsMark(';'); }
    hide Begins;
    hide Head;
    hide Loose;
    LineLaw(t, 0, m, level);
    ListLaw(ConsumeLine(t), fold, m, level);
    LineSwitch(t, fold);
    LowLevel(t, ConsumeLine(t), ReadList(Input(ConsumeLine(t), fold)), m, level);
  }

  lemma LineSwitch(t: string, fold: bool)
    requires t != "" && t[0] == ';'
    ensures ListSwitch(t[0], Input(t, fold)) == ReadList(Input(ConsumeLine(t), fold))
  {
    hide ReadList;
    hide ConsumeLine;
  }

  lemma {:induction false} ListSharpLaw(t: string, fold: bool, m: nat, level: nat)
    requires t != "" && t[0] == '#' && Good(t, m, level) && |t| > m && level <= 2
    ensures ListKeeps(t, ListSwitch(t[0], Input(t, fold)), m, level)
    decreases |t|, 2
  {
    hide Good;
    hide Weight;
    hide ListKeeps;
    hide ReadSharp;
    hide ReadList;
    hide Fine;
    SharpLaw(t, fold, m, level);
    var r := ReadSharp(Input(t[1..], fold));
    assert ListSwitch(t[0], Input(t, fold)) == ListMore(r, Input(t[1..], fold));
    if !r.Done? || |r.rest.text| < m {
      MoreTooLate(t, r, Input(t[1..], fold), m, level);
    } else {
      ListLaw(r.rest.text, r.rest.fold, m, level);
      if r.value.Void? {
        LowLevel(t, r.rest.text, ReadList(r.rest), m, level);
      } else {
        ConsLaw(t, r, ReadList(r.rest), m, level);
      }
    }
  }

  lemma MoreTooLate(t: string, r: Parse, input: Input, m: nat, level: nat)
    requires r.Done? ==> |r.rest.text| < m && |r.rest.text| <= |input.text|
    ensures ListKeeps(t, ListMore(r, input), m, level)
  {
  }

  lemma LowLevel(t: string, u: string, r: Parse, m: nat, level: nat)
    requires level < 2 && ListKeeps(u, r, m, level)
    ensures ListKeeps(t, r, m, level)
  {
  }

  /** Any other element of a list */
  lemma {:induction false} ListElementLaw(t: string, fold: bool, m: nat, level: nat)
    requires t != "" && !IsSpace(t[0]) && t[0] != ')' && t[0] != '.' && t[0] != '#' && t[0] != ';'
    requires Good(t, m, level) && |t| > m && level <= 2
    ensures ListKeeps(t, ListSwitch(t[0], Input(t, fold)), m, level)
    decreases |t|, 5
  {
    hide Good;
    hide Weight;
    hide ListKeeps;
    hide ElementKeeps;
    hide ReadList;
    hide Read;
    hide ListSwitch;
    ElementLaw(t, fold, m, level);
    ElementSwitch(t, fold);
    var r := Read(Input(t, fold));
    if r.Done? && !r.value.EofObject? {
      if |r.rest.text| >= m {
        KeptGood(t, r, m, level);
        ListLaw(r.rest.text, r.rest.fold, m, level);
        ConsLaw(t, r, ReadList(r.rest), m, level);
      } else {
        ConsTooLate(t, r.value, ReadList(r.rest), m, level);
      }
    } else {
      NothingListed(t, ListSwitch(t[0], Input(t, fold)), m, level);
    }
  }

  lemma {:induction false} ElementLaw(t: string, fold: bool, m: nat, level: nat)
    requires t != "" && !IsSpace(t[0]) && t[0] != '.' && Good(t, m, level) && level <= 2
    ensures ElementKeeps(t, Read(Input(t, fold)), m, level)
    decreases |t|, 4
  {
    hide Good;
    hide ElementKeeps;
    hide ReadKeeps;
    hide Read;
    hide ReadDatum;
    ReadHere(t, fold);
    DatumLaw(t, fold, m, level);
  }

  lemma ElementSwitch(t: string, fold: bool)
    requires t != "" && !IsSpace(t[0]) && t[0] != ')' && t[0] != '.' && t[0] != '#' && t[0] != ';'
    ensures var r := Read(Input(t, fold));
      ListSwitch(t[0], Input(t, fold)) ==
        if !r.Done? then r else if r.value.EofObject? then Failed else Cons(r.value, ReadList(r.rest))
  {
    hide Read;
    hide ReadList;
    hide ReadSharp;
  }

  lemma KeptGood(t: string, r: Parse, m: nat, level: nat)
    requires ElementKeeps(t, r, m, level) && r.Done? && |r.rest.text| >= m
    ensures Good(r.rest.text, m, level)
  {
  }

  lemma ConsTooLate(t: string, car: Datum, r: Parse, m: nat, level: nat)
    requires r.Done? ==> |r.rest.text| < m
    ensures ListKeeps(t, Cons(car, r), m, level)
  {
  }

  lemma NothingListed(t: string, r: Parse, m: nat, level: nat)
    requires !r.Done?
    ensures ListKeeps(t, r, m, level)
  {
  }

  /** A dot: a symbol, or the tail and the end of the list */
  lemma {:induction false} DotLaw(t: string, fold: bool, m: nat, level: nat)
    requires t != "" && t[0] == '.' && Good(t, m, level) && |t| > m && level <= 2
    ensures ListKeeps(t, ListSwitch(t[0], Input(t, fold)), m, level)
    decreases |t|, 2
  {
    hide Good;
    hide Weight;
    hide ListKeeps;
    hide ReadSymbol;
    hide ReadList;
    hide Read;
    DotSwitch(t, fold);
    if |t| == 1 {
      NothingListed(t, Failed, m, level);
    } else if IsTerminal(t[1]) {
      assert Until(t[1..], IsTerminal) == 0;
      assert Head(t) == "." && RunWeight(".") == -1;
      hide Head;
      RunEnd(t, m, level);
      ReadLaw(t[1..], fold, m, level);
      var r := Read(Input(t[1..], fold));
      if r.Done? && |r.rest.text| >= m { SkipKeeps(r.rest.text, m, level); }
      TailLaw(t, r, m, level);
    } else {
      assert Begins(t);
      SymbolLaw(t, 1, fold, m, level);
      SecondChar(t);
      hide Begins;
      hide Head;
      var r := ReadSymbol(Input(t[1..], fold), ".");
      assert t[..1] == ".";
      DotSymbolLaw(t, r, m, level);
      ListLaw(r.rest.text, r.rest.fold, m, level);
      ConsLaw(t, r, ReadList(r.rest), m, level);
    }
  }

  lemma DotSwitch(t: string, fold: bool)
    requires t != "" && t[0] == '.'
    ensures ListSwitch(t[0], Input(t, fold)) ==
      if |t| == 1 then Failed
      else if IsTerminal(t[1]) then CloseList(Read(Input(t[1..], fold)))
      else
        var r := ReadSymbol(Input(t[1..], fold), ".");
        Cons(r.value, ReadList(r.rest))
  {
    hide ReadSymbol;
    hide ReadList;
    hide Read;
    hide CloseList;
  }

  lemma DotSymbolLaw(t: string, r: Parse, m: nat, level: nat)
    requires r.Done? && Fine(r.value, level > 0) && Good(r.rest.text, m, level)
    requires level == 2 ==> Weight(t) + Dots(r.value) <= Weight(r.rest.text) && !IsDot(r.value)
    ensures ElementKeeps(t, r, m, level)
  {
  }

  lemma TailLaw(t: string, r: Parse, m: nat, level: nat)
    requires |t| > 1 && ReadKeeps(t[1..], r, m, level) && Weight(t) == -1 + Weight(t[1..])
    requires r.Done? && |r.rest.text| >= m ==>
      var u := Skip(r.rest.text);
      Good(u, m, level) && Weight(u) == Weight(r.rest.text)
    ensures ListKeeps(t, CloseList(r), m, level)
  {
    hide Good;
    hide Weight;
    if r.Done? && |r.rest.text| >= m {
      var u := Skip(r.rest.text);
      if u != "" && u[0] == ')' { TerminalStep(u, m, level); }
    }
  }

  // ----- what the printer puts out -----

  /** The text of a character after the backslash */
  function CharText(code: int): string
    ensures ShowChar(code) == "#\\" + CharText(code)
  {
    CharShown(code);
    ShowChar(code)[2..]
  }

  lemma CharShown(code: int)
    ensures |ShowChar(code)| >= 2 && ShowChar(code) == "#\\" + ShowChar(code)[2..]
  {
    hide NameFrom;
    var s := "#\\" + [(code % 256) as char];
    assert s[0] == '#' && s[1..][0] == '\\';
    assert Until(s[1..], IsNul) >= 1 && Until(s, IsNul) >= 2;
  }

  /** Nothing that the printer writes in a form that cannot be read as this datum, taken by itself */
  predicate Faultless(d: Datum) {
    match d
    case Char(code) => CharText(code) != "" && NoTerminal(CharText(code))
    case Pair(car, cdr) => !IsDot(car) && Faultless(car) && Faultless(cdr)
    case Vector(elems) => forall e :: e in elems ==> !IsDot(e) && Faultless(e)
    case Bytevec(bytes) => bytes != []
    case _ => true
  }

  predicate AllFaultless(elems: seq<Datum>) { forall e :: e in elems ==> !IsDot(e) && Faultless(e) }

  /** `t` is good text in front of `k`, and weighs more than `spent` allows for unless it is faultless. */
  ghost predicate Prints(t: string, k: string, spent: int, faultless: bool, m: nat, level: nat) {
    && Good(t, m, level)
    && (level == 2 ==>
          && Weight(t) + spent >= Weight(k)
          && (Weight(t) + spent == Weight(k) ==> faultless))
  }

  lemma TokenPrints(s: string, k: string, m: nat, level: nat)
    requires NoTerminal(s) && RunOk(s, level) && Delimited(k) && Good(k, m, level)
    ensures Good(s + k, m, level) && Weight(s + k) == RunWeight(s) + Weight(k)
  {
    UntilEnd(s, k, IsTerminal);
    var t := s + k;
    assert Head(t) == s;
    if k != "" {
      TerminalStep(k, m, level);
      assert t[|s|] == k[0] && t[|s| + 1..] == k[1..];
    } else {
      assert Weight(k) == 0;
    }
  }

  lemma TerminalPrints(c: char, s: string, m: nat, level: nat)
    requires IsTerminal(c) && Good(s, m, level)
    ensures Good([c] + s, m, level) && Weight([c] + s) == CharWeight(c) + Weight(s)
  {
    var t := [c] + s;
    assert t[0] == c && t[1..] == s && Head(t) == "";
  }

  /** A name without bars, whatever else is in it */
  lemma {:induction false} NamePrints(s: string, k: string, m: nat)
    requires NoNul(s) && BarFree(s) && Delimited(k) && Good(k, m, 1)
    ensures Good(s + k, m, 1)
    decreases |s|
  {
    var n := |Head(s)|;
    NameParts(s);
    hide Head;
    hide Good;
    hide NoNul;
    hide BarFree;
    hide NoTerminal;
    if n == |s| {
      RunPrints(s, k, m);
    } else {
      NamePrints(s[n + 1..], k, m);
      TerminalPrints(s[n], s[n + 1..] + k, m, 1);
      RunPrints(s[..n], [s[n]] + (s[n + 1..] + k), m);
      NameText(s, n, k);
    }
  }

  lemma NameText(s: string, n: nat, k: string)
    requires n < |s|
    ensures s + k == s[..n] + ([s[n]] + (s[n + 1..] + k))
  {
    assert s == s[..n] + [s[n]] + s[n + 1..];
  }

  lemma NameParts(s: string)
    requires NoNul(s) && BarFree(s)
    ensures var n := |Head(s)|;
      && n <= |s| && NoTerminal(s[..n]) && NoNul(s[..n]) && BarFree(s[..n]) && s[..n] == Head(s)
      && (n < |s| ==> IsTerminal(s[n]) && NoNul(s[n + 1..]) && BarFree(s[n + 1..]))
      && (n == |s| ==> s == s[..n])
  {
    NotBefore(s, IsTerminal);
    hide Until;
    hide IsTerminal;
  }

  lemma RunPrints(run: string, k: string, m: nat)
    requires NoTerminal(run) && NoNul(run) && BarFree(run) && Delimited(k) && Good(k, m, 1)
    ensures Good(run + k, m, 1)
  {
    hide Good;
    hide Weight;
    hide Bare;
    TokenPrints(run, k, m, 1);
  }

  lemma SymbolPrints(name: string, k: string, m: nat, level: nat)
    requires 1 <= level <= 2 && Fine(Symbol(name), level == 2) && Delimited(k) && Good(k, m, level)
    ensures Prints(Show(Symbol(name)) + k, k, Dots(Symbol(name)), true, m, level)
  {
    hide Good;
    hide Weight;
    CStringWhole(name);
    hide CString;
    if Bare(name) {
      assert IsMark('#');
      TokenPrints(name, k, m, level);
    } else {
      NamePrints(name, k, m);
    }
  }

  lemma {:induction false} NumberText(n: int)
    ensures NumberLike(Decimal(n)) && NoTerminal(Decimal(n)) && NoNul(Decimal(n))
  {
    DecimalNoNul(n);
    if n < 0 { DecimalDigits(-n); } else { DecimalDigits(n); }
  }

  lemma NumberPrints(n: int, k: string, m: nat, level: nat)
    requires 1 <= level <= 2 && Delimited(k) && Good(k, m, level)
    ensures Prints(Decimal(n) + k, k, 0, true, m, level)
  {
    hide Good;
    hide Weight;
    hide Decimal;
    NumberText(n);
    NumberLikeWeight(Decimal(n));
    TokenPrints(Decimal(n), k, m, level);
  }

  lemma {:induction false} ConstantPrints(s: string, k: string, m: nat, level: nat)
    requires s == "#t" || s == "#f" || s == "#!eof" || s == "#" || s == "#u8"
    requires 1 <= level <= 2 && Delimited(k) && Good(k, m, level)
    ensures Good(s + k, m, level) && Weight(s + k) == Weight(k)
  {
    hide Good;
    hide Weight;
    TokenPrints(s, k, m, level);
  }

  lemma NilPrints(k: string, m: nat, level: nat)
    requires Good(k, m, level)
    ensures Good(Show(Nil) + k, m, level) && Weight(Show(Nil) + k) == Weight(k)
  {
    TerminalPrints(')', k, m, level);
    TerminalPrints('(', ")" + k, m, level);
    assert Show(Nil) + k == ['('] + ([')'] + k);
    hide Good;
    hide Weight;
  }

  // ----- characters -----

  /** What can follow the backslash */
  predicate LiteralShape(lit: string) {
    NoNul(lit) && (lit == "|" || BarFree(lit)) && (NoTerminal(lit) || |lit| == 1)
  }

  lemma CharShape(code: int)
    ensures LiteralShape(CharText(code))
  {
    hide CharText;
    hide LiteralShape;
    if NameFrom(code, 0).Some? {
      NameShape(code);
    } else if code > 127 {
      HexTextBack(code);
      SameLiteral(code, "x" + HexText(code));
      HexBars(HexText(code));
      assert "#\\x" == "#\\" + "x";
      Associate("#\\", "x", HexText(code));
    } else {
      ByteShape(code);
    }
  }

  lemma NameShape(code: int)
    requires NameFrom(code, 0).Some?
    ensures LiteralShape(CharText(code))
  {
    hide CharText;
    var name := NameFrom(code, 0).value;
    NamedLetters(code, 0);
    SameLiteral(code, name);
    assert NoNul(name) && BarFree(name) && NoTerminal(name);
  }

  lemma ByteShape(code: int)
    requires NameFrom(code, 0).None? && code <= 127
    ensures LiteralShape(CharText(code))
    ensures CharText(code) == "" || |CharText(code)| == 1
  {
    hide NameFrom;
    hide CString;
    hide CharText;
    var c := (code % 256) as char;
    if c == '\0' {
      CutAtNull();
      SameLiteral(code, "");
    } else {
      CStringWhole("#\\" + [c]);
      SameLiteral(code, [c]);
    }
  }

  lemma CutAtNull()
    ensures CString("#\\" + ['\0']) == "#\\" + ""
  {
    var s := "#\\" + ['\0'];
    assert s[2..] == ['\0'] && s[1..][1..] == s[2..];
    assert Until(s[2..], IsNul) == 0;
    assert Until(s[1..], IsNul) == 1;
    assert Until(s, IsNul) == 2;
  }

  lemma SameLiteral(code: int, lit: string)
    requires ShowChar(code) == "#\\" + lit
    ensures CharText(code) == lit
  {
    hide ShowChar;
    assert ("#\\" + lit)[2..] == lit;
  }

  lemma {:induction false} NamedLetters(code: int, i: nat)
    requires NameFrom(code, i).Some?
    ensures Letters(NameFrom(code, i).value)
    decreases |NAMED_CHARS| - i
  {
    if NAMED_CHARS[i].1 == code { assert Letters(NAMED_CHARS[i].0); } else { NamedLetters(code, i + 1); }
  }

  lemma HexBars(h: string)
    requires Lower(h) && forall i :: 0 <= i < |h| ==> IsHexDigit(h[i])
    ensures LiteralShape("x" + h)
  {
  }

  lemma CharPrints(code: int, k: string, m: nat, level: nat)
    requires 1 <= level <= 2 && Delimited(k) && Good(k, m, level)
    ensures Prints(ShowChar(code) + k, k, 0, Faultless(Char(code)), m, level)
  {
    hide Good;
    hide Weight;
    hide ShowChar;
    CharShape(code);
    var lit := CharText(code);
    hide CharText;
    if lit != "" && NoTerminal(lit) {
      LiteralRun(lit, level);
      TokenPrints("#\\" + lit, k, m, level);
    } else {
      LiteralRun("", level);
      if lit == "" {
        assert "#\\" + lit == "#\\";
        TokenPrints("#\\", k, m, level);
      } else {
        TerminalPrints(lit[0], k, m, level);
        TokenPrints("#\\", [lit[0]] + k, m, level);
        assert "#\\" + lit + k == "#\\" + ([lit[0]] + k);
      }
    }
  }

  lemma LiteralRun(lit: string, level: nat)
    requires LiteralShape(lit) && NoTerminal(lit) && 1 <= level <= 2
    ensures RunOk("#\\" + lit, level) && NoTerminal("#\\" + lit)
    ensures RunWeight("#\\" + lit) == if lit == "" then 2 else 0
  {
    hide Bare;
    var s := "#\\" + lit;
    assert s[0] == '#' && s[1] == '\\';
    assert lit == "|" ==> s == "#\\|";
    assert lit == "" ==> s == "#\\";
  }

  // ----- compound data -----

  /** Printing any fine datum */
  lemma {:induction false} ShowLaw(d: Datum, k: string, m: nat, level: nat)
    requires 1 <= level <= 2 && Fine(d, level == 2) && Delimited(k) && Good(k, m, level)
    ensures Prints(Show(d) + k, k, Dots(d), Faultless(d), m, level)
    decreases d, 3
  {
    hide Good;
    hide Weight;
    match d
    case Nil => NilPrints(k, m, level);
    case EofObject => ConstantPrints("#!eof", k, m, level);
    case Bool(b) => ConstantPrints(if b then "#t" else "#f", k, m, level);
    case Fixnum(n) => NumberPrints(n, k, m, level);
    case Char(code) => CharPrints(code, k, m, level);
    case Symbol(name) => SymbolPrints(name, k, m, level);
    case Pair(_, _) => PairLaw(d, k, m, level);
    case Vector(_) => VectorLaw(d, k, m, level);
    case Bytevec(bytes) => BytevecLaw(bytes, k, m, level);
  }

  /** A character, an element of a list and the rest */
  lemma ElementPrints(c: char, d: Datum, k': string, k: string, spent: int, faultless: bool, m: nat, level: nat)
    requires IsTerminal(c) && Prints(Show(d) + k', k', Dots(d), Faultless(d), m, level)
    requires Prints(k', k, spent, faultless, m, level)
    ensures Prints([c] + (Show(d) + k'), k, DotsIn(d, Dots(d)) + spent - CharWeight(c),
              !IsDot(d) && Faultless(d) && faultless, m, level)
  {
    hide Good;
    hide Weight;
    hide Show;
    hide Faultless;
    hide CharWeight;
    TerminalPrints(c, Show(d) + k', m, level);
    assert IsDot(d) ==> Dots(d) == 1;
    hide Dots;
  }

  lemma PairParts(d: Datum, bare: bool)
    requires d.Pair? && Fine(d, bare)
    ensures Fine(d.car, bare) && Fine(d.cdr, bare)
    ensures Dots(d) == DotsIn(d.car, Dots(d.car)) + TailDots(d.cdr, Dots(d.cdr)) && TailDots(d, Dots(d)) == Dots(d)
    ensures Faultless(d) <==> !IsDot(d.car) && Faultless(d.car) && Faultless(d.cdr)
    ensures CharWeight('(') == 1 && CharWeight(' ') == 0
  {
  }

  lemma {:induction false} PairLaw(d: Datum, k: string, m: nat, level: nat)
    requires d.Pair? && 1 <= level <= 2 && Fine(d, level == 2) && Delimited(k) && Good(k, m, level)
    ensures Prints(Show(d) + k, k, Dots(d), Faultless(d), m, level)
    decreases d, 2
  {
    hide Prints;
    hide Show;
    hide ShowCdr;
    hide Good;
    hide TailDots;
    hide DotsIn;
    hide CharWeight;
    PairParts(d, level == 2);
    hide Dots;
    hide Faultless;
    hide Fine;
    var k' := ShowCdr(d.cdr, false) + k;
    CdrDelimited(d.cdr, k);
    CdrLaw(d.cdr, k, m, level);
    PrintsGood(k', k, 1 + TailDots(d.cdr, Dots(d.cdr)), Faultless(d.cdr), m, level);
    ShowLaw(d.car, k', m, level);
    ElementPrints('(', d.car, k', k, 1 + TailDots(d.cdr, Dots(d.cdr)), Faultless(d.cdr), m, level);
    PairShown(d, k);
  }

  lemma PrintsGood(t: string, k: string, spent: int, faultless: bool, m: nat, level: nat)
    requires Prints(t, k, spent, faultless, m, level)
    ensures Good(t, m, level)
  {
  }

  /** The rest of a list, with the parenthesis at its end */
  lemma {:induction false} CdrLaw(cdr: Datum, k: string, m: nat, level: nat)
    requires 1 <= level <= 2 && Fine(cdr, level == 2) && Good(k, m, level)
    ensures Prints(ShowCdr(cdr, false) + k, k, 1 + TailDots(cdr, Dots(cdr)), Faultless(cdr), m, level)
    decreases cdr, 5
  {
    hide Good;
    if cdr.Pair? {
      MoreLaw(cdr, k, m, level);
    } else if cdr.Nil? {
      hide Weight;
      TerminalPrints(')', k, m, level);
    } else {
      TailPrints(cdr, k, m, level);
    }
  }

  lemma {:induction false} MoreLaw(d: Datum, k: string, m: nat, level: nat)
    requires d.Pair? && 1 <= level <= 2 && Fine(d, level == 2) && Good(k, m, level)
    ensures Prints(ShowCdr(d, false) + k, k, 1 + TailDots(d, Dots(d)), Faultless(d), m, level)
    decreases d, 4
  {
    hide Prints;
    hide Show;
    hide ShowCdr;
    hide Good;
    hide TailDots;
    hide DotsIn;
    hide CharWeight;
    PairParts(d, level == 2);
    hide Dots;
    hide Faultless;
    hide Fine;
    var k' := ShowCdr(d.cdr, false) + k;
    CdrDelimited(d.cdr, k);
    CdrLaw(d.cdr, k, m, level);
    PrintsGood(k', k, 1 + TailDots(d.cdr, Dots(d.cdr)), Faultless(d.cdr), m, level);
    ShowLaw(d.car, k', m, level);
    ElementPrints(' ', d.car, k', k, 1 + TailDots(d.cdr, Dots(d.cdr)), Faultless(d.cdr), m, level);
    PairShown(d, k);
  }

  lemma {:induction false} TailPrints(cdr: Datum, k: string, m: nat, level: nat)
    requires !cdr.Pair? && !cdr.Nil? && 1 <= level <= 2 && Fine(cdr, level == 2) && Good(k, m, level)
    ensures Prints(ShowCdr(cdr, false) + k, k, 2 + Dots(cdr), Faultless(cdr), m, level)
    decreases cdr, 4
  {
    hide Good;
    hide Weight;
    hide Show;
    hide Faultless;
    hide Dots;
    TerminalPrints(')', k, m, level);
    ShowLaw(cdr, ")" + k, m, level);
    DotPrints(Show(cdr) + (")" + k), m, level);
    DotText(Show(cdr), k);
  }

  lemma DotPrints(s: string, m: nat, level: nat)
    requires 1 <= level <= 2 && Good(s, m, level)
    ensures Good(" " + ("." + (" " + s)), m, level) && Weight(" " + ("." + (" " + s))) == Weight(s) - 1
  {
    hide Good;
    hide Weight;
    TerminalPrints(' ', s, m, level);
    assert Bare(".");
    TokenPrints(".", " " + s, m, level);
    TerminalPrints(' ', "." + (" " + s), m, level);
  }

  lemma DotText(s: string, k: string)
    ensures " . " + s + ")" + k == " " + ("." + (" " + (s + (")" + k))))
  {
    assert " . " == " " + "." + " ";
  }

  lemma {:induction false} VectorLaw(d: Datum, k: string, m: nat, level: nat)
    requires d.Vector? && 1 <= level <= 2 && Fine(d, level == 2) && Delimited(k) && Good(k, m, level)
    ensures Prints(Show(d) + k, k, Dots(d), Faultless(d), m, level)
    decreases d, 2
  {
    hide Good;
    hide Weight;
    hide Show;
    hide ShowFrom;
    VectorText(d, k);
    var elems := d.elems;
    if elems == [] {
      TerminalPrints(')', k, m, level);
      SharpPrints("#", ")" + k, m, level);
      SharpOpens("#", ")", k);
    } else {
      var k' := ShowFrom(d, 1) + k;
      FromDelimited(d, 1, k);
      FromLaw(d, 1, k, m, level);
      ShowLaw(elems[0], k', m, level);
      SharpPrints("#", Show(elems[0]) + k', m, level);
      SharpOpens("#", Show(elems[0]) + ShowFrom(d, 1), k);
      assert elems == [elems[0]] + elems[1..];
      assert forall e :: e in elems <==> e == elems[0] || e in elems[1..];
    }
  }

  /** A token and the parenthesis that a vector or a bytevector opens with */
  lemma SharpPrints(s: string, t: string, m: nat, level: nat)
    requires (s == "#" || s == "#u8") && 1 <= level <= 2 && Good(t, m, level)
    ensures Good(s + ("(" + t), m, level) && Weight(s + ("(" + t)) == 1 + Weight(t)
  {
    hide Good;
    hide Weight;
    TerminalPrints('(', t, m, level);
    ConstantPrints(s, "(" + t, m, level);
  }

  lemma SharpOpens(s: string, t: string, k: string)
    ensures s + "(" + t + k == s + ("(" + (t + k))
    ensures "#" + "(" == "#(" && "#u8" + "(" == "#u8("
  {
  }

  lemma {:induction false} FromLaw(d: Datum, i: nat, k: string, m: nat, level: nat)
    requires d.Vector? && i <= |d.elems| && 1 <= level <= 2 && Fine(d, level == 2) && Good(k, m, level)
    ensures Prints(ShowFrom(d, i) + k, k, 1 + DotsOf(d.elems[i..]), AllFaultless(d.elems[i..]), m, level)
    decreases d, 1, |d.elems| - i
  {
    hide Good;
    hide Show;
    hide AllFaultless;
    hide Faultless;
    hide Prints;
    hide CharWeight;
    hide Dots;
    hide DotsIn;
    FineElements(d, level == 2);
    hide Fine;
    if i == |d.elems| {
      NoElements(d, k, m, level);
    } else {
      hide ShowFrom;
      hide DotsOf;
      var e, spent := d.elems[i], 1 + DotsOf(d.elems[i + 1..]);
      var k' := ShowFrom(d, i + 1) + k;
      FromText(d, i, k);
      FromDelimited(d, i + 1, k);
      FromLaw(d, i + 1, k, m, level);
      PrintsGood(k', k, spent, AllFaultless(d.elems[i + 1..]), m, level);
      ShowLaw(e, k', m, level);
      ElementPrints(' ', e, k', k, spent, AllFaultless(d.elems[i + 1..]), m, level);
    }
  }

  lemma FineElements(d: Datum, bare: bool)
    requires d.Vector? && Fine(d, bare)
    ensures forall i :: 0 <= i < |d.elems| ==> Fine(d.elems[i], bare)
  {
  }

  lemma NoElements(d: Datum, k: string, m: nat, level: nat)
    requires d.Vector? && Good(k, m, level)
    ensures var n := |d.elems|;
      Prints(ShowFrom(d, n) + k, k, 1 + DotsOf(d.elems[n..]), AllFaultless(d.elems[n..]), m, level)
  {
    hide Good;
    hide Weight;
    TerminalPrints(')', k, m, level);
  }

  lemma FromDelimited(d: Datum, i: nat, k: string)
    requires d.Vector? && i <= |d.elems|
    ensures Delimited(ShowFrom(d, i) + k)
  {
    hide Show;
  }

  lemma FromText(d: Datum, i: nat, k: string)
    requires d.Vector? && i < |d.elems|
    ensures ShowFrom(d, i) + k == " " + (Show(d.elems[i]) + (ShowFrom(d, i + 1) + k))
    ensures var e, rest := d.elems[i], d.elems[i + 1..];
      && DotsOf(d.elems[i..]) == DotsIn(e, Dots(e)) + DotsOf(rest) && CharWeight(' ') == 0
      && (!IsDot(e) && Faultless(e) && AllFaultless(rest) <==> AllFaultless(d.elems[i..]))
  {
    hide Show;
    hide Dots;
    hide Faultless;
    var elems := d.elems[i..];
    assert elems[0] == d.elems[i] && elems[1..] == d.elems[i + 1..];
    assert elems == [d.elems[i]] + d.elems[i + 1..];
    Regroup(" ", Show(d.elems[i]), ShowFrom(d, i + 1), k);
  }

  lemma BytevecLaw(bytes: seq<int>, k: string, m: nat, level: nat)
    requires 1 <= level <= 2 && Delimited(k) && Good(k, m, level)
    ensures Prints(Show(Bytevec(bytes)) + k, k, 0, bytes != [], m, level)
  {
    hide Good;
    hide Weight;
    hide Decimal;
    hide ShowBytes;
    if bytes == [] {
      SharpPrints("#u8", k, m, level);
      SharpOpens("#u8", "", k);
      assert "" + k == k;
      assert "#u8(" + "" == "#u8(";
    } else {
      var k' := ShowBytes(bytes[1..]) + k;
      BytesPrint(bytes[1..], k, m, level);
      NumberPrints(bytes[0], k', m, level);
      SharpPrints("#u8", Decimal(bytes[0]) + k', m, level);
      SharpOpens("#u8", Decimal(bytes[0]) + ShowBytes(bytes[1..]), k);
      assert Show(Bytevec(bytes)) == "#u8(" + (Decimal(bytes[0]) + ShowBytes(bytes[1..]));
      assert Decimal(bytes[0]) + ShowBytes(bytes[1..]) + k == Decimal(bytes[0]) + k';
    }
  }

  lemma {:induction false} BytesPrint(bytes: seq<int>, k: string, m: nat, level: nat)
    requires 1 <= level <= 2 && Good(k, m, level)
    ensures Delimited(ShowBytes(bytes) + k)
    ensures Prints(ShowBytes(bytes) + k, k, 1, true, m, level)
  {
    hide Good;
    hide Weight;
    hide Decimal;
    BytesText(bytes, k);
    if bytes == [] {
      TerminalPrints(')', k, m, level);
    } else {
      hide ShowBytes;
      var k' := ShowBytes(bytes[1..]) + k;
      BytesPrint(bytes[1..], k, m, level);
      NumberPrints(bytes[0], k', m, level);
      TerminalPrints(' ', Decimal(bytes[0]) + k', m, level);
    }
  }

  lemma BytesText(bytes: seq<int>, k: string)
    ensures Delimited(ShowBytes(bytes) + k)
    ensures bytes != [] ==> ShowBytes(bytes) + k == " " + (Decimal(bytes[0]) + (ShowBytes(bytes[1..]) + k))
  {
    hide Decimal;
    if bytes != [] { Regroup(" ", Decimal(bytes[0]), ShowBytes(bytes[1..]), k); }
  }

  // ----- a datum that is not readable -----

  /** `t` is no text for `d`, neither by itself nor in front of the rest of a list. */
  ghost predicate Misses(d: Datum, t: string, fold: bool) {
    && t != "" && !IsSpace(t[0])
    && var r, l := ReadDatum(t[0], Input(t, fold)), ListSwitch(t[0], Input(t, fold));
       (r.Done? ==> r.value != d) && (l.Done? && l.value.Pair? ==> l.value.car != d)
  }

  ghost predicate ReadsElse(d: Datum, t: string, fold: bool) {
    var r := Read(Input(t, fold)); r.Done? ==> r.value != d
  }

  ghost predicate ListsElse(d: Datum, t: string, fold: bool) {
    var l := ReadList(Input(t, fold)); l.Done? ==> l.value != d
  }

  ghost predicate StartsElse(d: Datum, t: string, fold: bool) {
    var l := ReadList(Input(t, fold)); l.Done? && l.value.Pair? ==> l.value.car != d
  }

  lemma MissRead(d: Datum, t: string, fold: bool)
    requires Misses(d, t, fold)
    ensures ReadsElse(d, t, fold) && ReadsElse(d, " " + t, fold)
    ensures StartsElse(d, t, fold) && StartsElse(d, " " + t, fold)
  {
    hide ReadDatum;
    hide ListSwitch;
    hide Read;
    hide ReadList;
    ReadHere(t, fold);
    SpaceRead(t, fold);
    SkipNone(t);
    SkipOne(t);
    ListSkips(Input(t, fold), t);
    ListSkips(Input(" " + t, fold), t);
  }

  /** In a list it is the same. */
  lemma MissElement(d: Datum, t: string, fold: bool)
    requires t != "" && !IsSpace(t[0]) && t[0] != ')' && t[0] != '.' && t[0] != '#' && t[0] != ';'
    requires ReadDatum(t[0], Input(t, fold)).Done? ==> ReadDatum(t[0], Input(t, fold)).value != d
    ensures Misses(d, t, fold)
  {
    hide ReadDatum;
    hide ListSwitch;
    hide Read;
    hide ReadList;
    ReadHere(t, fold);
    ElementSwitch(t, fold);
  }

  lemma MissSharp(d: Datum, t: string, fold: bool)
    requires t != "" && t[0] == '#'
    requires var r := ReadSharp(Input(t[1..], fold)); r.Done? ==> !r.value.Void? && r.value != d
    ensures Misses(d, t, fold)
  {
    hide ReadDatum;
    hide ReadSharp;
    hide Read;
    hide ReadList;
    DatumSharp(t, fold);
    var r := ReadSharp(Input(t[1..], fold));
    assert ListSwitch(t[0], Input(t, fold)) == ListMore(r, Input(t[1..], fold));
  }

  lemma SymbolMiss(name: string, k: string, fold: bool)
    requires Bare(name) && !PlainAtTop(name, fold) && Delimited(k)
    ensures Misses(Symbol(name), Show(Symbol(name)) + k, fold)
  {
    var t := name + k;
    CStringWhole(name);
    BareBegins(name, k);
    ReadElse(name, 0, k, fold);
    if name[0] in "+-." { ReadElse(name, 1, k, fold); }
    hide CString;
    hide Begins;
    hide Bare;
    hide ReadSymbol;
    hide ReadDatum;
    hide ListSwitch;
    hide Misses;
    BeginsRead(t, fold);
    if name[0] == '.' {
      DotMiss(name, k, fold);
    } else {
      MissElement(Symbol(name), t, fold);
    }
  }

  lemma DotMiss(name: string, k: string, fold: bool)
    requires Bare(name) && name[0] == '.' && name != "." && Delimited(k)
    requires ReadDatum('.', Input(name + k, fold)) == ReadSymbol(Input(name + k, fold), "")
    requires ReadSymbol(Input(name + k, fold), "").value != Symbol(name)
    requires ReadSymbol(Input((name + k)[1..], fold), ".").value != Symbol(name)
    ensures Misses(Symbol(name), name + k, fold)
  {
    hide ReadSymbol;
    hide ReadDatum;
    hide ReadList;
    hide ListSwitch;
    assert |name| > 1 && (name + k)[1] == name[1];
    DotSwitch(name + k, fold);
  }

  /** A name that folding changes is read as another one. */
  lemma ReadElse(name: string, i: nat, k: string, fold: bool)
    requires Bare(name) && !PlainAtTop(name, fold) && Delimited(k) && i <= 1 && (i == 1 ==> name[0] in "+-.")
    ensures ReadSymbol(Input((name + k)[i..], fold), if i == 0 then "" else [name[0]]).value != Symbol(name)
    ensures (name + k)[0..] == name + k && (name + k)[0] == name[0]
  {
    var t := name + k;
    UntilEnd(name, k, IsTerminal);
    assert Head(t) == name;
    hide Head;
    hide Until;
    hide ReadSymbol;
    SymbolTaken(t, i, fold);
    assert Taken(t, i) == name by { CStringWhole(name[i..]); }
    FoldsElse(name, i, fold);
    assert t[..i] == if i == 0 then "" else [name[0]];
  }

  lemma BareBegins(name: string, k: string)
    requires Bare(name) && Delimited(k)
    ensures Begins(name + k)
  {
    var t := name + k;
    if |t| > 1 && |name| == 1 { assert t[1] == k[0]; }
  }

  lemma FoldsElse(name: string, i: nat, fold: bool)
    requires i <= 1 && |name| > 0 && Fold(name, fold) != name && (i == 1 ==> name[0] in "+-.")
    ensures name[..i] + Fold(name[i..], fold) != name
  {
    var s := name[..i] + Fold(name[i..], fold);
    var f := Fold(name, fold);
    assert forall j :: i <= j < |name| ==> s[j] == f[j];
    assert i == 1 ==> s[0] == name[0] && (name[0] == '+' || name[0] == '-' || name[0] == '.');
  }

  lemma CharMiss(code: int, k: string, fold: bool)
    requires Faultless(Char(code)) && !PlainChar(code) && Delimited(k)
    ensures Misses(Char(code), ShowChar(code) + k, fold)
  {
    hide ReadSharp;
    hide ReadCharacter;
    hide Misses;
    CharSharp(CharText(code), k, fold);
    CharacterElse(code, k, fold);
    hide CharText;
    hide ShowChar;
    MissSharp(Char(code), "#\\" + CharText(code) + k, fold);
  }

  lemma CharSharp(lit: string, k: string, fold: bool)
    ensures var t := "#\\" + lit + k;
      t[0] == '#' && ReadSharp(Input(t[1..], fold)) == ReadCharacter(Input(lit + k, fold))
  {
    hide ReadCharacter;
    hide ReadSharp;
    var t := "#\\" + lit + k;
    assert t[1..] == "\\" + (lit + k);
    SharpCases(lit + k, fold);
  }

  lemma CharacterElse(code: int, k: string, fold: bool)
    requires Faultless(Char(code)) && !PlainChar(code) && Delimited(k)
    ensures var r := ReadCharacter(Input(CharText(code) + k, fold));
      r.Done? ==> r.value.Char? && r.value != Char(code)
  {
    CharShape(code);
    LiteralRead(CharText(code), k, fold);
    OtherLiteral(code, k, fold);
    hide CharText;
    hide CharLiteral;
    hide ReadCharacter;
  }

  lemma OtherLiteral(code: int, k: string, fold: bool)
    requires Faultless(Char(code)) && !PlainChar(code) && Delimited(k)
    ensures CharLiteral(CharText(code), fold) != Some(code)
  {
    var lit := CharText(code);
    CharShape(code);
    LiteralRead(lit, k, fold);
    hide CharText;
    if code >= 0 {
      LiteralShown(code);
      SameLiteral(code, Literal(code));
      CharTrip(code, k, fold);
    } else {
      if NameFrom(code, 0).Some? { NameTrip(code, 0); }
      ByteShape(code);
    }
  }

  /** A fine and faultless datum that is not readable is not what its text is read as. */
  lemma {:induction false} Miss(d: Datum, k: string, fold: bool)
    requires Fine(d, true) && Faultless(d) && !Readable(d, fold) && (Delimited(k) || SelfDelimited(d))
    ensures Misses(d, Show(d) + k, fold)
    decreases d, 2
  {
    hide Misses;
    match d
    case Symbol(name) => SymbolMiss(name, k, fold);
    case Char(code) => CharMiss(code, k, fold);
    case Pair(_, _) => PairMiss(d, k, fold);
    case Vector(_) => VectorMiss(d, k, fold);
  }

  lemma {:induction false} PairMiss(d: Datum, k: string, fold: bool)
    requires d.Pair? && Fine(d, true) && Faultless(d) && !Readable(d, fold)
    ensures Misses(d, Show(d) + k, fold)
    decreases d, 1
  {
    hide Show;
    hide ShowCdr;
    hide ReadList;
    hide ReadDatum;
    hide Misses;
    hide Trips;
    var k' := ShowCdr(d.cdr, false) + k;
    var s := Show(d.car) + k';
    PairShown(d, k);
    CdrDelimited(d.cdr, k);
    FirstMiss(d, k, fold);
    OpenRead(s, fold);
    MissElement(d, "(" + s, fold);
  }

  lemma OpenRead(s: string, fold: bool)
    ensures ("(" + s)[0] == '(' && ReadDatum('(', Input("(" + s, fold)) == ReadList(Input(s, fold))
  {
    hide ReadList;
    assert ("(" + s)[1..] == s;
  }

  /** The car or the rest is missed. */
  lemma {:induction false} FirstMiss(d: Datum, k: string, fold: bool)
    requires d.Pair? && Fine(d, true) && Faultless(d) && !Readable(d, fold)
    ensures var t := Show(d.car) + (ShowCdr(d.cdr, false) + k);
      ListsElse(d, t, fold) && ListsElse(d, " " + t, fold)
    decreases d, 0
  {
    hide Show;
    hide ShowCdr;
    hide ReadList;
    hide Read;
    hide Misses;
    hide Trips;
    var k' := ShowCdr(d.cdr, false) + k;
    CdrDelimited(d.cdr, k);
    if Readable(d.car, fold) {
      Trip(d.car, k', fold);
      TripElement(d.car, Show(d.car) + k', k', fold);
      CdrMiss(d.cdr, k, fold);
    } else {
      Miss(d.car, k', fold);
      MissRead(d.car, Show(d.car) + k', fold);
    }
  }

  lemma {:induction false} CdrMiss(cdr: Datum, k: string, fold: bool)
    requires Fine(cdr, true) && Faultless(cdr) && !Readable(cdr, fold)
    ensures ListsElse(cdr, ShowCdr(cdr, false) + k, fold)
    decreases cdr, 3
  {
    hide ReadList;
    hide Show;
    hide Misses;
    if cdr.Pair? {
      FirstMiss(cdr, k, fold);
      PairShown(cdr, k);
    } else {
      Miss(cdr, ")" + k, fold);
      MissRead(cdr, Show(cdr) + (")" + k), fold);
      DotReads(Show(cdr), k, fold);
    }
  }

  lemma DotReads(s: string, k: string, fold: bool)
    ensures ReadList(Input(" . " + s + ")" + k, fold)) == CloseList(Read(Input(" " + (s + (")" + k)), fold)))
  {
    hide Read;
    hide ReadList;
    hide CloseList;
    hide ListSwitch;
    var t := " " + (s + (")" + k));
    DotText(s, k);
    SkipOne("." + t);
    assert ("." + t)[1..] == t && t[0] == ' ' && ("." + t)[1] == ' ';
    ListSkips(Input(" . " + s + ")" + k, fold), "." + t);
    DotSwitch("." + t, fold);
  }

  ghost predicate ElementsElse(elems: seq<Datum>, t: string, fold: bool) {
    var l := ReadList(Input(t, fold)); l.Done? ==> Elements(l.value) != elems
  }

  predicate AllReadable(elems: seq<Datum>, fold: bool) { forall e :: e in elems ==> !IsDot(e) && Readable(e, fold) }

  lemma {:induction false} VectorMiss(d: Datum, k: string, fold: bool)
    requires d.Vector? && Fine(d, true) && Faultless(d) && !Readable(d, fold)
    ensures Misses(d, Show(d) + k, fold)
    decreases d, 1, 1
  {
    VectorStart(d, k, fold);
    hide Show;
    hide ShowFrom;
    hide Readable;
    hide Fine;
    hide Faultless;
    hide Misses;
    hide ElementsElse;
    ElementsMiss(d, k, fold);
    VectorElse(d.elems, Show(d.elems[0]) + (ShowFrom(d, 1) + k), fold);
  }

  lemma {:induction false} ElementsMiss(d: Datum, k: string, fold: bool)
    requires d.Vector? && d.elems != [] && Fine(d, true) && Faultless(d) && !AllReadable(d.elems, fold)
    ensures ElementsElse(d.elems, Show(d.elems[0]) + (ShowFrom(d, 1) + k), fold)
    decreases d, 1, 0
  {
    hide Show;
    hide ShowFrom;
    hide Fine;
    hide Faultless;
    hide ElementsElse;
    hide AllReadable;
    assert d.elems[0..] == d.elems;
    ElementMiss(d, 0, k, fold);
  }

  lemma VectorElse(elems: seq<Datum>, s: string, fold: bool)
    requires ElementsElse(elems, s, fold)
    ensures Misses(Vector(elems), "#(" + s, fold)
  {
    hide ReadList;
    hide ReadSharp;
    hide Misses;
    var t := "#(" + s;
    SharpOpen(t, fold);
    assert t[2..] == s;
    MissSharp(Vector(elems), t, fold);
  }

  lemma VectorStart(d: Datum, k: string, fold: bool)
    requires d.Vector? && !Readable(d, fold)
    ensures d.elems != [] && !AllReadable(d.elems, fold)
    ensures Show(d) + k == "#(" + (Show(d.elems[0]) + (ShowFrom(d, 1) + k))
  {
    hide Show;
    hide ShowFrom;
    VectorText(d, k);
    var s := Show(d.elems[0]) + ShowFrom(d, 1);
    assert "#(" + s + k == "#(" + (s + k);
  }

  /** The elements of a vector from `i` on, the first without a space */
  lemma {:induction false} ElementMiss(d: Datum, i: nat, k: string, fold: bool)
    requires d.Vector? && i < |d.elems| && Fine(d, true) && Faultless(d) && !AllReadable(d.elems[i..], fold)
    ensures var t := Show(d.elems[i]) + (ShowFrom(d, i + 1) + k);
      ElementsElse(d.elems[i..], t, fold) && ElementsElse(d.elems[i..], " " + t, fold)
    decreases d, 0, |d.elems| - i
  {
    hide Show;
    hide ShowFrom;
    hide ReadList;
    hide Misses;
    hide Trips;
    hide AllReadable;
    hide Elements;
    var e, k' := d.elems[i], ShowFrom(d, i + 1) + k;
    FromDelimited(d, i + 1, k);
    FirstElement(d.elems, i, fold);
    if Readable(e, fold) {
      Trip(e, k', fold);
      TripElement(e, Show(e) + k', k', fold);
      ElementMiss(d, i + 1, k, fold);
      FromText(d, i + 1, k);
    } else {
      Miss(e, k', fold);
      MissRead(e, Show(e) + k', fold);
    }
  }

  lemma FirstElement(elems: seq<Datum>, i: nat, fold: bool)
    requires i < |elems| && !AllReadable(elems[i..], fold) && !IsDot(elems[i])
    ensures elems[i..][0] == elems[i] && elems[i..][1..] == elems[i + 1..]
    ensures Readable(elems[i], fold) ==> i + 1 < |elems| && !AllReadable(elems[i + 1..], fold)
    ensures forall d: Datum :: Elements(d) == elems[i..] ==>
      d.Pair? && d.car == elems[i] && Elements(d.cdr) == elems[i + 1..]
  {
    assert elems[i..] == [elems[i]] + elems[i + 1..];
    forall d: Datum | Elements(d) == elems[i..]
      ensures d.Pair? && d.car == elems[i] && Elements(d.cdr) == elems[i + 1..]
    {
      assert Elements(d) == [d.car] + Elements(d.cdr);
      assert Elements(d)[1..] == Elements(d.cdr);
    }
  }

  // ----- exactly -----

  /** What `write` wrote is read back, all of it and nothing more, if and only if the datum is readable. */
  lemma ReadsBackExactly(d: Datum, k: string, fold: bool)
    requires Delimited(k)
    ensures Read(Input(Show(d) + k, fold)) == Done(d, Input(k, fold)) <==> Readable(d, fold)
  {
    hide Good;
    hide Weight;
    hide Show;
    hide Read;
    hide Readable;
    if Readable(d, fold) {
      ReadShown(d, k, fold);
    } else if Read(Input(Show(d) + k, fold)) == Done(d, Input(k, fold)) {
      var t, m := Show(d) + k, |k|;
      NoText(k, m);
      ReadLaw(t, fold, m, 0);
      ShowLaw(d, k, m, 1);
      ReadLaw(t, fold, m, 1);
      ShowLaw(d, k, m, 2);
      ReadLaw(t, fold, m, 2);
      Miss(d, k, fold);
      MissRead(d, t, fold);
    }
  }

  lemma NoText(k: string, m: nat)
    requires |k| <= m
    ensures forall level: nat :: Good(k, m, level)
    ensures forall t :: Good(t, m, 0)
  {
  }

  /**
   * Through the ports: writing succeeds on a port that takes bytes always, and on a string port exactly if no symbol
   * is in the datum. A port on what was written, with `k` after it, then delivers the datum and is at `k` exactly if
   * the datum is readable.
   */
  method WriteThenRead(d: Datum, k: string, bytes: bool) returns (written: bool, r: Reader.Outcome, port: Ports.Port)
    requires Delimited(k)
    ensures written <==> bytes || SymbolFree(d)
    ensures written ==>
      (r == Reader.Got(d) && port.Valid() && port.Rest() == k && !port.foldCase <==> Readable(d, false))
  {
    hide Readable;
    hide Show;
    hide Read;
    hide Delimited;
    hide SymbolFree;
    var out := new OutPort(bytes);
    written := out.Display(d);
    port := new Ports.Port(out.text + k);
    r := Reader.ReadError;
    if written {
      ReadsBackExactly(d, k, false);
      assert out.text == "" + Show(d) == Show(d);
      r := Reader.Read(port);
    }
  }
}
