/** macros.h and arithmetic.c: arithmetic on tagged words. */
module Fixnums {

  const TWO_62: int := 0x4000_0000_0000_0000
  const TWO_63: int := 0x8000_0000_0000_0000
  const TWO_64: int := 0x1_0000_0000_0000_0000

  // ----- words -----

  /** A long holds what fits in 64 bits; on overflow it wraps around. */
  function Wrap64(n: int): int { (n + TWO_63) % TWO_64 - TWO_63 }

  /** What a fixnum holds: 63 bits */
  function Wrap63(n: int): int { (n + TWO_62) % TWO_63 - TWO_62 }

  predicate Fits(n: int) { -TWO_62 <= n < TWO_62 }

  /** The C operators `| 1`, `<< 1` and `>> 1` */
  function Or1(n: int): int { if n % 2 == 0 then n + 1 else n }

  function Shl1(n: int): int { Wrap64(2 * n) }

  function Shr1(n: int): int { n / 2 }

  /** Division in C drops the fraction. */
  function Quotient(a: int, b: int): int
    requires b != 0
  {
    if a >= 0 then (if b > 0 then a / b else -(a / -b)) else (if b > 0 then -(-a / b) else -a / -b)
  }

  /** navi_fixnum_fix, navi_fixnum_unfix */
  function FixnumFix(n: int): int { Or1(Shl1(n)) }

  function FixnumUnfix(w: int): int { Shr1(w) }

  /** navi_fixnum_plus, navi_fixnum_minus, navi_fixnum_times, navi_fixnum_divide */
  function FixnumPlus(a: int, b: int): int { Or1(Wrap64(Wrap64(a - 1) + b)) }

  function FixnumMinus(a: int, b: int): int { Or1(Wrap64(Wrap64(a - b) + 1)) }

  function FixnumTimes(a: int, b: int): int { FixnumFix(Wrap64(FixnumUnfix(a) * FixnumUnfix(b))) }

  function FixnumDivide(a: int, b: int): int
    requires FixnumUnfix(b) != 0
  {
    FixnumFix(Quotient(FixnumUnfix(a), FixnumUnfix(b)))
  }

  // ----- what they compute -----

  /** The tagged word of a number that fits. */
  function Tag(n: int): int { 2 * n + 1 }

  predicate IsFixnumWord(w: int) { -TWO_63 <= w < TWO_63 && w % 2 == 1 }

  lemma TagBack(n: int)
    requires Fits(n)
    ensures IsFixnumWord(Tag(n)) && FixnumUnfix(Tag(n)) == n && FixnumFix(n) == Tag(n)
  {
    Wrapped(2 * n, 2 * n, 0);
    hide Wrap64;
  }

  lemma Wrapped(n: int, r: int, q: int)
    requires -TWO_63 <= r < TWO_63 && n == r + q * TWO_64
    ensures Wrap64(n) == r
  {
    var m := n + TWO_63;
    assert m == (r + TWO_63) + q * TWO_64;
    assert m / TWO_64 == q;
  }

  lemma Halves(n: int) returns (q: int)
    ensures n == Wrap63(n) + q * TWO_63 && Fits(Wrap63(n))
  {
    q := (n + TWO_62) / TWO_63;
  }

  /** Each operation keeps the tag, and is exact modulo 2^63. */
  lemma PlusIsSum(x: int, y: int)
    requires Fits(x) && Fits(y)
    ensures FixnumPlus(Tag(x), Tag(y)) == Tag(Wrap63(x + y))
  {
    hide Wrap63;
    hide Wrap64;
    var q := Halves(x + y);
    Wrapped(Tag(x) - 1, 2 * x, 0);
    Wrapped(2 * x + Tag(y), Tag(Wrap63(x + y)), q);
  }

  lemma MinusIsDifference(x: int, y: int)
    requires Fits(x) && Fits(y)
    ensures FixnumMinus(Tag(x), Tag(y)) == Tag(Wrap63(x - y))
  {
    hide Wrap63;
    hide Wrap64;
    var q := Halves(x - y);
    Wrapped(Tag(x) - Tag(y), 2 * Wrap63(x - y), q);
    Wrapped(2 * Wrap63(x - y) + 1, Tag(Wrap63(x - y)), 0);
  }

  lemma FixWraps(p: int)
    ensures FixnumFix(Wrap64(p)) == Tag(Wrap63(p))
  {
    var q := Halves(p);
    var k := (p + TWO_63) / TWO_64;
    assert Wrap64(p) == p - k * TWO_64;
    hide Wrap63;
    hide Wrap64;
    Wrapped(2 * Wrap64(p), 2 * Wrap63(p), q - 2 * k);
  }

  lemma TimesIsProduct(x: int, y: int)
    requires Fits(x) && Fits(y)
    ensures FixnumTimes(Tag(x), Tag(y)) == Tag(Wrap63(x * y))
  {
    TagBack(x);
    TagBack(y);
    FixWraps(x * y);
  }

  lemma DivBound(a: int, b: int)
    requires a >= 0 && b > 0
    ensures 0 <= a / b <= a
  {
    if a / b > 0 { MulGrows(b, a / b); }
  }

  lemma {:induction false} MulGrows(b: int, q: int)
    requires b > 0 && q > 0
    ensures b * q >= q
  {
    if b > 1 {
      MulGrows(b - 1, q);
      assert b * q == (b - 1) * q + q;
    }
  }

  lemma QuotientBound(a: int, b: int)
    requires b != 0
    ensures -Abs(a) <= Quotient(a, b) <= Abs(a)
  {
    DivBound(Abs(a), Abs(b));
  }

  function Abs(a: int): int { if a < 0 then -a else a }

  lemma DivideIsQuotient(x: int, y: int)
    requires Fits(x) && Fits(y) && y != 0
    ensures FixnumUnfix(Tag(y)) != 0
    ensures FixnumDivide(Tag(x), Tag(y)) == Tag(Wrap63(Quotient(x, y)))
  {
    TagBack(x);
    TagBack(y);
    QuotientBound(x, y);
    hide Quotient;
    hide Wrap63;
    FixWraps(Quotient(x, y));
    Wrapped(Quotient(x, y), Quotient(x, y), 0);
    hide Wrap64;
  }

  // ----- procedures of any number of arguments -----

  datatype Op = Plus | Minus | Times | Divide

  /** A Scheme object, of which only fixnums matter here */
  datatype Arg = Fixnum(word: int) | Different(id: int)

  /** A result, a type error, or the trap of the processor on a division by zero */
  datatype Result = Value(arg: Arg) | TypeError | Trap

  /** One of the four operators on words */
  function Operate(op: Op, a: int, b: int): Result
  {
    match op
    case Plus => Value(Fixnum(FixnumPlus(a, b)))
    case Minus => Value(Fixnum(FixnumMinus(a, b)))
    case Times => Value(Fixnum(FixnumTimes(a, b)))
    case Divide => if FixnumUnfix(b) == 0 then Trap else Value(Fixnum(FixnumDivide(a, b)))
  }

  /** ARITHMETIC_FOLD over words */
  function FoldWords(op: Op, args: seq<Arg>): (r: Result)
    requires args != []
    ensures r.Value? ==> r.arg.Fixnum?
  {
    var n := |args| - 1;
    if n == 0 then (if args[0].Fixnum? then Value(args[0]) else TypeError)
    else
      var acc := FoldWords(op, args[..n]);
      if !acc.Value? then acc
      else if !args[n].Fixnum? then TypeError
      else Operate(op, acc.arg.word, args[n].word)
  }

  /** ARITHMETIC_FOLD */
  method ArithmeticFold(op: Op, args: seq<Arg>) returns (r: Result)
    requires args != []
    ensures r == FoldWords(op, args)
  {
    hide Operate;
    var whole := args[..|args|];
    assert whole == args && args[..1] == [args[0]];
    if !args[0].Fixnum? {
      FoldFails(op, args, 1);
      return TypeError;
    }
    r := Value(args[0]);
    for i := 1 to |args|
      invariant r.Value? && r == FoldWords(op, args[..i])
    {
      FoldStep(op, args, i);
      if !args[i].Fixnum? {
        FoldFails(op, args, i + 1);
        return TypeError;
      }
      r := Operate(op, r.arg.word, args[i].word);
      if !r.Value? {
        FoldFails(op, args, i + 1);
        return;
      }
    }
  }

  lemma FoldStep(op: Op, args: seq<Arg>, i: nat)
    requires 0 < i < |args| && FoldWords(op, args[..i]).Value?
    ensures FoldWords(op, args[..i + 1]) ==
      if args[i].Fixnum? then Operate(op, FoldWords(op, args[..i]).arg.word, args[i].word) else TypeError
  {
    hide Operate;
    var front := args[..i + 1];
    assert front[..i] == args[..i] && front[i] == args[i];
  }

  lemma {:induction false} FoldFails(op: Op, args: seq<Arg>, i: nat)
    requires 0 < i <= |args| && !FoldWords(op, args[..i]).Value?
    ensures FoldWords(op, args) == FoldWords(op, args[..i])
    decreases |args|
  {
    hide Operate;
    if i == |args| {
      assert args[..i] == args;
    } else {
      var n := |args| - 1;
      assert args[..n][..i] == args[..i];
      FoldFails(op, args[..n], i);
    }
  }

  /** scm_add */
  method ScmAdd(args: seq<Arg>) returns (r: Result)
    ensures r == Arith(Plus, args)
  {
    if |args| == 0 { return Value(Fixnum(FixnumFix(0))); }
    if |args| == 1 { return Value(args[0]); }
    r := ArithmeticFold(Plus, args);
  }

  /** scm_sub */
  method ScmSub(args: seq<Arg>) returns (r: Result)
    requires |args| >= 1 && args[0].Fixnum?
    ensures r == Arith(Minus, args)
  {
    if |args| == 1 { return Value(Fixnum(FixnumMinus(FixnumFix(0), args[0].word))); }
    r := ArithmeticFold(Minus, args);
  }

  /** scm_mul */
  method ScmMul(args: seq<Arg>) returns (r: Result)
    ensures r == Arith(Times, args)
  {
    if |args| == 0 { return Value(Fixnum(FixnumFix(1))); }
    if |args| == 1 { return Value(args[0]); }
    r := ArithmeticFold(Times, args);
  }

  /** scm_div */
  method ScmDiv(args: seq<Arg>) returns (r: Result)
    requires |args| >= 1 && args[0].Fixnum?
    ensures r == Arith(Divide, args)
  {
    if |args| == 1 {
      return Operate(Divide, FixnumFix(1), args[0].word);
    }
    r := ArithmeticFold(Divide, args);
  }

  /** The arity and the type that the declaration of a procedure asks for */
  predicate Callable(op: Op, args: seq<Arg>) { op == Plus || op == Times || (|args| >= 1 && args[0].Fixnum?) }

  function Unit(op: Op): int { if op == Times || op == Divide then 1 else 0 }

  function Arith(op: Op, args: seq<Arg>): Result
    requires Callable(op, args)
  {
    if |args| == 0 then Value(Fixnum(FixnumFix(Unit(op))))
    else if |args| > 1 then FoldWords(op, args)
    else if op == Plus || op == Times then Value(args[0])
    else Operate(op, FixnumFix(Unit(op)), args[0].word)
  }

  // ----- the exact results -----

  function Exactly(op: Op, x: int, y: int): int
    requires op == Divide ==> y != 0
  {
    match op
    case Plus => x + y
    case Minus => x - y
    case Times => x * y
    case Divide => Quotient(x, y)
  }

  predicate NoZero(op: Op, xs: seq<int>) { op == Divide ==> forall i :: 0 < i < |xs| ==> xs[i] != 0 }

  /** The left fold over the integers */
  function Exact(op: Op, xs: seq<int>): int
    requires xs != [] && NoZero(op, xs)
  {
    var n := |xs| - 1;
    if n == 0 then xs[0] else Exactly(op, Exact(op, xs[..n]), xs[n])
  }

  function Words(xs: seq<int>): (r: seq<Arg>)
    ensures |r| == |xs|
  {
    seq(|xs|, i requires 0 <= i < |xs| => Fixnum(Tag(xs[i])))
  }

  predicate AllFit(xs: seq<int>) { forall i :: 0 <= i < |xs| ==> Fits(xs[i]) }

  lemma SameWrap(a: int, b: int, q: int)
    requires a == b - q * TWO_63
    ensures Wrap63(a) == Wrap63(b)
  {
    assert (a + TWO_62) + q * TWO_63 == b + TWO_62;
    var k := (a + TWO_62) / TWO_63;
    assert (b + TWO_62) / TWO_63 == k + q;
  }

  /** What has wrapped around already can go on: sums, differences and products are right modulo 2^63. */
  lemma WrapEarly(op: Op, x: int, y: int)
    requires op != Divide
    ensures Wrap63(Exactly(op, Wrap63(x), y)) == Wrap63(Exactly(op, x, y))
  {
    var q := Halves(x);
    hide Wrap63;
    if op == Times {
      assert (x - q * TWO_63) * y == x * y - (q * y) * TWO_63;
      SameWrap(Wrap63(x) * y, x * y, q * y);
    } else {
      SameWrap(Exactly(op, Wrap63(x), y), Exactly(op, x, y), q);
    }
  }

  lemma OperateIs(op: Op, x: int, y: int)
    requires Fits(x) && Fits(y) && (op == Divide ==> y != 0)
    ensures Operate(op, Tag(x), Tag(y)) == Value(Fixnum(Tag(Wrap63(Exactly(op, x, y)))))
  {
    hide Wrap63;
    hide FixnumPlus;
    hide FixnumMinus;
    hide FixnumTimes;
    hide FixnumDivide;
    hide Quotient;
    match op
    case Plus => PlusIsSum(x, y);
    case Minus => MinusIsDifference(x, y);
    case Times => TimesIsProduct(x, y);
    case Divide => DivideIsQuotient(x, y);
  }

  lemma WrapFits(n: int)
    ensures Fits(Wrap63(n)) && (Fits(n) <==> Wrap63(n) == n)
  {
    var q := Halves(n);
    hide Wrap63;
    if Fits(n) { assert q == 0; }
  }

  /** For sums, differences and products only the exact result has to fit; partial results may overflow. */
  lemma {:induction false} FoldIsExact(op: Op, xs: seq<int>)
    requires op != Divide && xs != [] && AllFit(xs)
    ensures FoldWords(op, Words(xs)) == Value(Fixnum(Tag(Wrap63(Exact(op, xs)))))
    decreases |xs|
  {
    hide Operate;
    hide Wrap63;
    hide Exactly;
    var n := |xs| - 1;
    if n == 0 {
      WrapFits(xs[0]);
    } else {
      assert Words(xs)[..n] == Words(xs[..n]);
      FoldIsExact(op, xs[..n]);
      var x := Exact(op, xs[..n]);
      WrapFits(x);
      OperateIs(op, Wrap63(x), xs[n]);
      WrapEarly(op, x, xs[n]);
    }
  }

  // ----- quotients: the one that does not fit is that of the least fixnum by -1 -----

  predicate IsUnit(y: int) { y == 1 || y == -1 }

  /** The least fixnum, divided by nothing but 1 and -1 */
  predicate StaysLeast(xs: seq<int>)
    requires xs != []
  {
    xs[0] == -TWO_62 && forall i :: 0 < i < |xs| ==> IsUnit(xs[i])
  }

  /** As long as the divisors are 1 and -1, an odd number of them is -1, and what they divide is the least fixnum. */
  predicate Flipped(xs: seq<int>)
    requires xs != []
  {
    var n := |xs| - 1;
    n > 0 && Flipped(xs[..n]) != (StaysLeast(xs) && xs[n] == -1)
  }

  function Negated(b: bool, n: int): int { if b then -n else n }

  lemma QuotientNegates(x: int, y: int)
    requires y != 0
    ensures Quotient(-x, y) == -Quotient(x, y)
  {
  }

  /** A divisor other than 1 and -1 makes the quotient smaller. */
  lemma QuotientFalls(x: int, y: int)
    requires y != 0 && Abs(x) <= TWO_62 && (!IsUnit(y) || Abs(x) < TWO_62)
    ensures Abs(Quotient(x, y)) < TWO_62
  {
    QuotientBound(x, y);
    var a, b := Abs(x), Abs(y);
    if a == TWO_62 { assert a / b <= a / 2 by { HalfAtMost(a, b); } }
  }

  lemma HalfAtMost(a: nat, b: nat)
    requires b >= 2
    ensures a / b <= a / 2
  {
    var q := a / b;
    assert b * q <= a && 2 * q <= b * q by { MulGrows2(b, q); }
  }

  lemma MulGrows2(b: nat, q: nat)
    requires b >= 2
    ensures 2 * q <= b * q
  {
    assert b * q == 2 * q + (b - 2) * q;
  }

  /** Folding `/` gives the exact fold, or that with the wrong sign. */
  lemma {:induction false} QuotientFold(xs: seq<int>)
    requires xs != [] && AllFit(xs) && NoZero(Divide, xs)
    ensures var e := Exact(Divide, xs); var r := Negated(Flipped(xs), e);
      && FoldWords(Divide, Words(xs)) == Value(Fixnum(Tag(r))) && Fits(r)
      && (if StaysLeast(xs) then r == -TWO_62 else Abs(e) < TWO_62)
    decreases |xs|
  {
    hide Operate;
    hide Wrap63;
    hide Quotient;
    var n := |xs| - 1;
    if n > 0 {
      var front, y := xs[..n], xs[n];
      assert Words(xs)[..n] == Words(front);
      QuotientFold(front);
      var e, flip := Exact(Divide, front), Flipped(front);
      var r := Negated(flip, e);
      assert StaysLeast(xs) <==> StaysLeast(front) && IsUnit(y);
      OperateIs(Divide, r, y);
      QuotientNegates(e, y);
      WrapFits(Quotient(r, y));
      if StaysLeast(xs) {
        LeastByUnit(r, y);
      } else {
        QuotientFalls(e, y);
      }
    }
  }

  lemma LeastByUnit(r: int, y: int)
    requires r == -TWO_62 && IsUnit(y)
    ensures Quotient(r, y) == (if y == 1 then -TWO_62 else TWO_62) && Wrap63(Quotient(r, y)) == -TWO_62
  {
  }

  /** Folding `/` is exact exactly when the sign did not flip, or the result is 0. */
  lemma QuotientsAreExact(xs: seq<int>)
    requires xs != [] && AllFit(xs) && NoZero(Divide, xs)
    ensures FoldWords(Divide, Words(xs)) == Value(Fixnum(Tag(Exact(Divide, xs)))) <==>
            !Flipped(xs) || Exact(Divide, xs) == 0
  {
    QuotientFold(xs);
  }

  /** A division traps exactly when there is a divisor that is 0. */
  lemma {:induction false} ZeroTraps(xs: seq<int>)
    requires xs != [] && AllFit(xs)
    ensures FoldWords(Divide, Words(xs)) == Trap <==> exists i :: 0 < i < |xs| && xs[i] == 0
    ensures FoldWords(Divide, Words(xs)) != TypeError
    decreases |xs|
  {
    var n := |xs| - 1;
    if n > 0 {
      var front := xs[..n];
      assert Words(xs)[..n] == Words(front);
      ZeroTraps(front);
      TagBack(xs[n]);
      hide FixnumDivide;
      if i :| 0 < i < |xs| && xs[i] == 0 {
        assert i < n ==> front[i] == 0;
      }
    }
  }

  /** `(/ -4611686018427387904 -1)` is the least fixnum again. */
  lemma LeastByMinusOne()
    ensures Exact(Divide, [-TWO_62, -1]) == TWO_62
    ensures FoldWords(Divide, Words([-TWO_62, -1])) == Value(Fixnum(Tag(-TWO_62)))
  {
  }

  /** The result that the procedure should have */
  function Meaning(op: Op, xs: seq<int>): int
    requires op != Divide && Callable(op, Words(xs))
  {
    if xs == [] then Unit(op) else if |xs| == 1 && op == Minus then 0 - xs[0] else Exact(op, xs)
  }

  /** `+`, `-` and `*` on fixnums give the exact result exactly when it is a fixnum. */
  lemma ArithIsExact(op: Op, xs: seq<int>)
    requires op != Divide && AllFit(xs) && Callable(op, Words(xs))
    ensures Arith(op, Words(xs)) == Value(Fixnum(Tag(Meaning(op, xs)))) <==> Fits(Meaning(op, xs))
  {
    hide Operate;
    hide Wrap63;
    hide FoldWords;
    var n := Meaning(op, xs);
    WrapFits(n);
    TagBack(0);
    TagBack(1);
    if |xs| > 1 {
      FoldIsExact(op, xs);
    } else if |xs| == 1 {
      if op == Minus { OperateIs(Minus, 0, xs[0]); }
    }
  }

  /** What `/` divides: `(/ x)` is `(/ 1 x)`. */
  function Dividend(xs: seq<int>): (ys: seq<int>)
    ensures xs != [] ==> |ys| > 1
  {
    if |xs| == 1 then [1] + xs else xs
  }

  /** `/` on fixnums traps exactly on a divisor 0; otherwise it is exact exactly when the sign did not flip, or at 0. */
  lemma DivisionIsExact(xs: seq<int>)
    requires xs != [] && AllFit(xs)
    ensures var ys, r := Dividend(xs), Arith(Divide, Words(xs));
      && (r == Trap <==> !NoZero(Divide, ys))
      && (NoZero(Divide, ys) ==>
           (r == Value(Fixnum(Tag(Exact(Divide, ys)))) <==> !Flipped(ys) || Exact(Divide, ys) == 0))
  {
    var ys := Dividend(xs);
    TagBack(1);
    if |xs| == 1 {
      assert Words(ys)[..1] == [Fixnum(Tag(1))] && Words(ys)[1] == Words(xs)[0];
      assert FoldWords(Divide, [Fixnum(Tag(1))]) == Value(Fixnum(Tag(1)));
      assert FoldWords(Divide, Words(ys)) == Operate(Divide, Tag(1), Tag(xs[0]));
    }
    hide FoldWords;
    hide Operate;
    ZeroTraps(ys);
    if NoZero(Divide, ys) { QuotientsAreExact(ys); }
  }

  // ----- what the operators and folds mean -----

  /** A remainder as C has it: smaller than the divisor, and 0 or of the sign of the dividend */
  predicate IsRemainder(r: int, x: int, y: int) { Abs(r) < Abs(y) && (r > 0 ==> x > 0) && (r < 0 ==> x < 0) }

  /** The quotient is the one number that leaves such a remainder. */
  lemma QuotientIs(x: int, y: int, q: int)
    requires y != 0
    ensures q == Quotient(x, y) <==> IsRemainder(x - y * q, x, y)
  {
    QuotientLeaves(x, y);
    hide Quotient;
    if IsRemainder(x - y * q, x, y) { OnlyOne(x, y, q, Quotient(x, y)); }
  }

  lemma QuotientLeaves(x: int, y: int)
    requires y != 0
    ensures IsRemainder(x - y * Quotient(x, y), x, y)
  {
    var q := Abs(x) / Abs(y);
    DivMod(Abs(x), Abs(y));
    QuotientSigned(x, y);
    SignedProduct(x, y, q);
    hide Quotient;
    RemainderOf(x, y, Abs(y) * q, y * Quotient(x, y));
  }

  lemma DivMod(a: nat, b: nat)
    requires b > 0
    ensures 0 <= a - b * (a / b) < b && b * (a / b) >= 0
  {
    assert a == b * (a / b) + a % b;
    if a / b > 0 { MulGrows(b, a / b); }
  }

  lemma QuotientSigned(x: int, y: int)
    requires y != 0
    ensures Quotient(x, y) == if (x < 0) == (y < 0) then Abs(x) / Abs(y) else -(Abs(x) / Abs(y))
  {
  }

  lemma RemainderOf(x: int, y: int, p: int, r: int)
    requires 0 <= p && 0 <= Abs(x) - p < Abs(y) && r == if x < 0 then -p else p
    ensures IsRemainder(x - r, x, y)
  {
  }

  lemma SignedProduct(x: int, y: int, q: int)
    ensures y * (if (x < 0) == (y < 0) then q else -q) == if x < 0 then -(Abs(y) * q) else Abs(y) * q
  {
    assert y * -q == -(y * q) && -y * q == -(y * q);
  }

  lemma OnlyOne(x: int, y: int, p: int, q: int)
    requires y != 0 && IsRemainder(x - y * p, x, y) && IsRemainder(x - y * q, x, y)
    ensures p == q
  {
    var d := p - q;
    MinusProduct(y, p, q);
    if d != 0 {
      AbsGrows(y, d);
      Near(x - y * p, x - y * q, x, y);
    }
  }

  lemma MinusProduct(y: int, p: int, q: int)
    ensures y * (p - q) == y * p - y * q
  {
  }

  /** Two remainders differ by less than the divisor. */
  lemma Near(r: int, t: int, x: int, y: int)
    requires IsRemainder(r, x, y) && IsRemainder(t, x, y)
    ensures Abs(t - r) < Abs(y)
  {
  }

  lemma AbsGrows(y: int, d: int)
    requires d != 0
    ensures Abs(y * d) >= Abs(y)
  {
    if y != 0 { MulGrows(Abs(d), Abs(y)); }
    assert Abs(y * d) == Abs(d) * Abs(y) by { AbsProduct(y, d); }
  }

  lemma AbsProduct(a: int, b: int)
    ensures Abs(a * b) == Abs(b) * Abs(a)
  {
    if a >= 0 && b >= 0 {
      assert a * b >= 0;
    } else if a >= 0 {
      assert a * b == -(a * -b) && a * -b >= 0;
    } else if b >= 0 {
      assert a * b == -(-a * b) && -a * b >= 0;
    } else {
      assert a * b == -a * -b && -a * -b >= 0;
    }
  }

  /** What the word of a division holds: the number that leaves a remainder of C, but for the one that does not fit. */
  lemma DivideTruncates(x: int, y: int)
    requires Fits(x) && Fits(y) && y != 0
    ensures FixnumUnfix(Tag(y)) != 0
    ensures var q := FixnumUnfix(FixnumDivide(Tag(x), Tag(y)));
      Fits(q) && FixnumDivide(Tag(x), Tag(y)) == Tag(q) &&
      if x == -TWO_62 && y == -1 then q == -TWO_62 else IsRemainder(x - y * q, x, y)
  {
    DivideIsQuotient(x, y);
    WrapFits(Quotient(x, y));
    TagBack(Wrap63(Quotient(x, y)));
    hide FixnumDivide;
    if x == -TWO_62 && y == -1 {
      LeastByUnit(x, y);
    } else {
      QuotientIs(x, y, Quotient(x, y));
      QuotientFits(x, y);
    }
  }

  lemma QuotientFits(x: int, y: int)
    requires Fits(x) && y != 0 && !(x == -TWO_62 && y == -1)
    ensures Fits(Quotient(x, y))
  {
    QuotientBound(x, y);
    if x == -TWO_62 && y != 1 { QuotientFalls(x, y); }
  }

  function Sum(xs: seq<int>): int { if xs == [] then 0 else Sum(xs[..|xs| - 1]) + xs[|xs| - 1] }

  function Product(xs: seq<int>): int { if xs == [] then 1 else Product(xs[..|xs| - 1]) * xs[|xs| - 1] }

  /**
   * The exact folds: a sum, the first number less the sum of the others, a product, and the first number divided by
   * the product of the others, as dropping the fraction at each step drops no more than dropping it once.
   */
  lemma {:induction false} ExactFolds(xs: seq<int>)
    requires xs != []
    ensures Exact(Plus, xs) == Sum(xs)
    ensures Exact(Minus, xs) == xs[0] - Sum(xs[1..])
    ensures Exact(Times, xs) == Product(xs)
    ensures NoZero(Divide, xs) ==>
      Product(xs[1..]) != 0 && Exact(Divide, xs) == Quotient(xs[0], Product(xs[1..]))
    decreases |xs|
  {
    hide Quotient;
    var n := |xs| - 1;
    var front, y := xs[..n], xs[n];
    if n == 0 {
      assert xs[1..] == [] && front == [] && Sum(front) == 0 && Product(front) == 1;
      QuotientIs(xs[0], 1, xs[0]);
    } else {
      ExactFolds(front);
      assert xs[1..][..n - 1] == front[1..] && xs[1..][n - 1] == y;
      if NoZero(Divide, xs) {
        var p := Product(front[1..]);
        assert Product(xs[1..]) == p * y && p * y != 0 by { AbsGrows(p, y); }
        QuotientTwice(xs[0], p, y);
      }
    }
  }

  /** Dividing twice is dividing by the product. */
  lemma QuotientTwice(x: int, a: int, b: int)
    requires a != 0 && b != 0
    ensures a * b != 0 && Quotient(Quotient(x, a), b) == Quotient(x, a * b)
  {
    var q := Quotient(x, a);
    var p := Quotient(q, b);
    QuotientIs(x, a, q);
    QuotientIs(q, b, p);
    hide Quotient;
    AbsGrows(a, b);
    TwoRemainders(x, a, b, q, x - a * q, q - b * p);
    Distribute(x, a, b, q, p);
    QuotientIs(x, a * b, p);
  }

  lemma Distribute(x: int, a: int, b: int, q: int, p: int)
    ensures a * (q - b * p) + (x - a * q) == x - (a * b) * p
  {
    assert (a * b) * p == a * (b * p);
  }

  lemma TwoRemainders(x: int, a: int, b: int, q: int, r: int, t: int)
    requires a != 0 && b != 0 && x == a * q + r && IsRemainder(r, x, a) && IsRemainder(t, q, b)
    ensures IsRemainder(a * t + r, x, a * b)
  {
    AbsProduct(a, b);
    AbsProduct(a, t);
    SmallerProduct(Abs(t), Abs(b), Abs(a));
    SameSigns(x, a, q, r, t);
  }

  lemma SmallerProduct(t: nat, n: nat, m: nat)
    requires t < n
    ensures t * m + m <= n * m
  {
    assert n * m == t * m + (n - t) * m && (n - t) * m >= m by {
      assert (n - t - 1) * m >= 0;
    }
  }

  /** The first remainder, and the divisor times the second, both have the sign of the dividend. */
  lemma SameSigns(x: int, a: int, q: int, r: int, t: int)
    requires a != 0 && x == a * q + r && IsRemainder(r, x, a) && (t > 0 ==> q > 0) && (t < 0 ==> q < 0)
    ensures (a * t > 0 ==> x > 0) && (a * t < 0 ==> x < 0)
  {
    if t != 0 {
      assert q != 0;
      AbsGrows(a, q);
      assert a * t > 0 <==> a * q > 0 by { SignOf(a, t); SignOf(a, q); }
      assert a * t != 0 by { AbsGrows(a, t); }
    }
  }

  lemma SignOf(a: int, b: int)
    requires a != 0 && b != 0
    ensures a * b > 0 <==> (a > 0) == (b > 0)
  {
    AbsGrows(a, b);
    if a > 0 && b < 0 { assert a * b == -(a * -b) && a * -b >= 0; }
    if a < 0 && b > 0 { assert a * b == -(-a * b) && -a * b >= 0; }
    if a < 0 && b < 0 { assert a * b == -a * -b && -a * -b >= 0; }
  }

  /** The procedures on no argument and on one */
  lemma FewArguments(x: int)
    requires Fits(x)
    ensures Arith(Plus, []) == Value(Fixnum(Tag(0))) && Arith(Times, []) == Value(Fixnum(Tag(1)))
    ensures var one := Words([x]);
      && Arith(Plus, one) == Value(Fixnum(Tag(x))) && Arith(Times, one) == Value(Fixnum(Tag(x)))
      && Arith(Minus, one) == Value(Fixnum(Tag(Wrap63(-x))))
      && Arith(Divide, one) == if x == 0 then Trap else Value(Fixnum(Tag(if x == 1 || x == -1 then x else 0)))
  {
    TagBack(0);
    TagBack(1);
    TagBack(x);
    MinusIsDifference(0, x);
    hide FixnumMinus;
    hide Wrap63;
    if x != 0 {
      DivideIsQuotient(1, x);
      hide FixnumDivide;
      QuotientIs(1, x, if x == 1 || x == -1 then x else 0);
      hide Quotient;
      WrapFits(Quotient(1, x));
    }
  }

  // ----- comparisons -----

  datatype Relation = Lt | Gt | Lte | Gte | NumEq

  predicate Holds(op: Relation, x: int, y: int)
  {
    match op
    case Lt => x < y
    case Gt => x > y
    case Lte => x <= y
    case Gte => x >= y
    case NumEq => x == y
  }

  datatype Verdict = Truth(b: bool) | BadType

  /** fold_pairs with one of the comparisons: neighbours are compared from the left, until a comparison fails. */
  method FoldPairs(op: Relation, args: seq<Arg>) returns (r: Verdict)
    ensures r == Pairs(op, args)
  {
    for i := 0 to |args|
      invariant Pairs(op, args) == Pairs(op, args[i..])
    {
      if i + 1 == |args| {
        return Truth(true);
      }
      assert args[i..][1..] == args[i + 1..];
      if !args[i].Fixnum? || !args[i + 1].Fixnum? {
        return BadType;
      }
      if !Holds(op, FixnumUnfix(args[i].word), FixnumUnfix(args[i + 1].word)) {
        return Truth(false);
      }
    }
    return Truth(true);
  }

  function Pairs(op: Relation, args: seq<Arg>): Verdict
  {
    if |args| < 2 then Truth(true)
    else if !args[0].Fixnum? || !args[1].Fixnum? then BadType
    else if Holds(op, FixnumUnfix(args[0].word), FixnumUnfix(args[1].word)) then Pairs(op, args[1..])
    else Truth(false)
  }

  /** A comparison of fixnums is true exactly when it holds of every argument and every later one. */
  lemma {:induction false} PairsAreAll(op: Relation, xs: seq<int>)
    requires AllFit(xs)
    ensures Pairs(op, Words(xs)) == Truth(forall i, j :: 0 <= i < j < |xs| ==> Holds(op, xs[i], xs[j]))
    decreases |xs|
  {
    if |xs| >= 2 {
      var rest := xs[1..];
      PairsAreAll(op, rest);
      assert Words(xs)[1..] == Words(rest);
      TagBack(xs[0]);
      TagBack(xs[1]);
      var all := forall i, j :: 0 <= i < j < |xs| ==> Holds(op, xs[i], xs[j]);
      if Holds(op, xs[0], xs[1]) && forall i, j :: 0 <= i < j < |rest| ==> Holds(op, rest[i], rest[j]) {
        forall i, j | 0 <= i < j < |xs| ensures Holds(op, xs[i], xs[j]) {
          if i > 0 {
            assert Holds(op, rest[i - 1], rest[j - 1]);
          } else if j > 1 {
            assert Holds(op, rest[0], rest[j - 1]);
          }
        }
      }
      if all {
        forall i, j | 0 <= i < j < |rest| ensures Holds(op, rest[i], rest[j]) {
          assert Holds(op, xs[i + 1], xs[j + 1]);
        }
      }
    }
  }

  /** Each comparison, by what it says of every argument and every later one */
  lemma ComparisonsAre(xs: seq<int>)
    requires AllFit(xs)
    ensures var ws, n := Words(xs), |xs|;
      && Pairs(Lt, ws) == Truth(forall i, j :: 0 <= i < j < n ==> xs[i] < xs[j])
      && Pairs(Gt, ws) == Truth(forall i, j :: 0 <= i < j < n ==> xs[i] > xs[j])
      && Pairs(Lte, ws) == Truth(forall i, j :: 0 <= i < j < n ==> xs[i] <= xs[j])
      && Pairs(Gte, ws) == Truth(forall i, j :: 0 <= i < j < n ==> xs[i] >= xs[j])
      && Pairs(NumEq, ws) == Truth(forall i, j :: 0 <= i < j < n ==> xs[i] == xs[j])
  {
    hide Pairs;
    hide Words;
    PairsAreAll(Lt, xs);
    PairsAreAll(Gt, xs);
    PairsAreAll(Lte, xs);
    PairsAreAll(Gte, xs);
    PairsAreAll(NumEq, xs);
  }
}
