/** Block comments: where read_sharp ends them, and where section 2.2 of R7RS does. */
module Comments {
  import opened Syntax

  /** `|#` at `i` */
  predicate ClosesAt(t: string, i: int) { 0 <= i < |t| - 1 && t[i] == '|' && t[i + 1] == '#' }

  /** `#|` at `i` */
  predicate OpensAt(t: string, i: int) { 0 <= i < |t| - 1 && t[i] == '#' && t[i + 1] == '|' }

  predicate ClosesFirstAt(t: string, i: int) { ClosesAt(t, i) && forall j :: 0 <= j < i ==> !ClosesAt(t, j) }

  /** How many bars in a row end at `i` */
  function Bars(t: string, i: int): nat
    requires -1 <= i < |t|
    decreases i
  {
    if i < 0 || t[i] != '|' then 0 else 1 + Bars(t, i - 1)
  }

  predicate OddlyClosesAt(t: string, i: int) { ClosesAt(t, i) && Bars(t, i) % 2 == 1 }

  /** The first place from `i` on where an odd number of bars in a row ends and `#` follows */
  function CodeEnd(t: string, i: nat): (r: Option<nat>)
    ensures r.Some? ==> i <= r.value && OddlyClosesAt(t, r.value)
    ensures forall j :: i <= j && (r.Some? ==> j < r.value) ==> !OddlyClosesAt(t, j)
    decreases |t| - i
  {
    if i >= |t| then None else if OddlyClosesAt(t, i) then Some(i) else CodeEnd(t, i + 1)
  }

  function Behind(t: string, end: Option<nat>): Option<string>
    requires end.Some? ==> end.value + 2 <= |t|
  {
    if end.None? then None else Some(t[end.value + 2..])
  }

  lemma {:induction false} CodeEndSkips(t: string, i: nat, k: nat)
    requires i <= k <= |t| && forall j :: i <= j < k ==> !OddlyClosesAt(t, j)
    ensures CodeEnd(t, i) == CodeEnd(t, k)
    decreases k - i
  {
    if i < k { CodeEndSkips(t, i + 1, k); }
  }

  /** The code goes on at `k`, behind an even number of bars. */
  lemma {:induction false} GoesOn(t: string, k: nat)
    requires k <= |t| && Bars(t, k - 1) % 2 == 0
    ensures AfterBlock(t[k..]) == Behind(t, CodeEnd(t, k))
    decreases |t| - k
  {
    hide NextBar;
    hide AfterBlock;
    var u, n := t[k..], NextBar(t[k..]);
    BarsBetween(t, k, n);
    if n + 1 >= |u| {
      NoMoreTurns(u);
      CodeEndSkips(t, k, |t|);
    } else {
      OneTurn(u, n);
      CodeEndSkips(t, k, k + n);
      assert u[n + 2..] == t[k + n + 2..];
      assert Bars(t, k + n) % 2 == 1;
      if t[k + n + 1] != '#' {
        assert !OddlyClosesAt(t, k + n) && !OddlyClosesAt(t, k + n + 1);
        CodeEndSkips(t, k + n, k + n + 2);
        GoesOn(t, k + n + 2);
      }
    }
  }

  /** Up to the next bar there is none, so the number of bars that end at it is odd. */
  lemma BarsBetween(t: string, k: nat, n: nat)
    requires k <= |t| && Bars(t, k - 1) % 2 == 0 && n == NextBar(t[k..])
    ensures forall j :: k <= j < k + n ==> !ClosesAt(t, j)
    ensures n < |t| - k ==> Bars(t, k + n) % 2 == 1
  {
    var u := t[k..];
    NotBefore(u, IsPipe);
    forall j | k <= j < k + n ensures t[j] != '|' { assert t[j] == u[j - k]; }
    if n < |u| {
      assert t[k + n] == '|';
      assert n > 0 ==> Bars(t, k + n - 1) == 0;
    }
  }

  /** One turn of the loop: the first bar and the character after it */
  lemma OneTurn(u: string, n: nat)
    requires n == NextBar(u) && n + 1 < |u|
    ensures u[n] == '|' && AfterBlock(u) == if u[n + 1] == '#' then Some(u[n + 2..]) else AfterBlock(u[n + 2..])
  {
    hide NextBar;
    var rest := u[n + 1..];
    assert rest[0] == u[n + 1] && rest[1..] == u[n + 2..];
  }

  lemma NoMoreTurns(u: string)
    requires NextBar(u) + 1 >= |u|
    ensures AfterBlock(u) == None
  {
    hide NextBar;
  }

  /** For every text, the code ends a comment at the first odd run of bars with `#` behind it, if there is one. */
  lemma EndsAtOddBars(t: string)
    ensures AfterBlock(t) == Behind(t, CodeEnd(t, 0))
  {
    assert t[0..] == t;
    GoesOn(t, 0);
  }

  /** So it ends at the first `|#` exactly when the bars in front of that are odd in number. */
  lemma EndsAtFirst(t: string, i: int)
    requires ClosesFirstAt(t, i)
    ensures AfterBlock(t) == Some(t[i + 2..]) <==> Bars(t, i) % 2 == 1
  {
    EndsAtOddBars(t);
    var end := CodeEnd(t, 0);
    if OddlyClosesAt(t, i) {
      assert end == Some(i);
    } else if end.Some? {
      assert |t[end.value + 2..]| != |t[i + 2..]|;
    }
  }

  /** Here the code misses the end of a comment. */
  lemma TwoBars()
    ensures ClosesFirstAt("||# ", 1) && AfterBlock("||# ") == None
  {
    var t := "||# ";
    EndsAtOddBars(t);
    assert Bars(t, 0) == 1 && Bars(t, 1) == 2;
    assert !OddlyClosesAt(t, 0) && !OddlyClosesAt(t, 1) && !OddlyClosesAt(t, 2) && !OddlyClosesAt(t, 3);
    CodeEndSkips(t, 0, 4);
  }

  // ----- comments in comments -----

  /** The rest after a comment of R7RS, inside `depth` comments: they nest. */
  function Nested(t: string, depth: nat): (r: Option<string>)
    decreases |t|
  {
    if |t| < 2 || depth == 0 then None
    else if ClosesAt(t, 0) then if depth == 1 then Some(t[2..]) else Nested(t[2..], depth - 1)
    else if OpensAt(t, 0) then Nested(t[2..], depth + 1)
    else Nested(t[1..], depth)
  }

  /** A comment in a comment needs an end of its own. */
  lemma {:induction false} NestedLater(t: string, depth: nat, i: nat)
    requires depth > 0 && i <= |t| && forall j :: 0 <= j < i ==> !ClosesAt(t, j)
    ensures Nested(t, depth).Some? ==> |Nested(t, depth).value| + i + 2 * depth <= |t|
    decreases |t|
  {
    if |t| >= 2 {
      var k := if ClosesAt(t, 0) || OpensAt(t, 0) then 2 else 1;
      var u, i' := t[k..], if i < k then 0 else i - k;
      forall j | 0 <= j < i' ensures !ClosesAt(u, j) { assert !ClosesAt(t, j + k); }
      if ClosesAt(t, 0) {
        if depth > 1 { NestedLater(u, depth - 1, i'); }
      } else if OpensAt(t, 0) {
        NestedLater(u, depth + 1, i');
      } else {
        NestedLater(u, depth, i');
      }
    }
  }

  /** R7RS ends a comment at the first `|#` exactly when no other comment begins before. */
  lemma {:induction false} NestedAtFirst(t: string, i: int)
    requires ClosesFirstAt(t, i)
    ensures Nested(t, 1) == Some(t[i + 2..]) <==> forall j :: 0 <= j < i ==> !OpensAt(t, j)
    decreases |t|
  {
    if i > 0 {
      assert !ClosesAt(t, 0);
      if OpensAt(t, 0) {
        var u, i' := t[2..], if i < 2 then 0 else i - 2;
        forall j | 0 <= j < i' ensures !ClosesAt(u, j) { assert !ClosesAt(t, j + 2); }
        NestedLater(u, 2, i');
      } else {
        var u := t[1..];
        assert forall j :: ClosesAt(u, j) ==> ClosesAt(t, j + 1);
        assert ClosesAt(u, i - 1);
        NestedAtFirst(u, i - 1);
        assert u[i + 1..] == t[i + 2..];
        assert forall j :: 0 <= j < i - 1 ==> (OpensAt(u, j) <==> OpensAt(t, j + 1));
        assert forall j :: 0 < j < i ==> OpensAt(u, j - 1) == OpensAt(t, j);
      }
    }
  }

  /** For every text: the code agrees with R7RS exactly when R7RS ends the comment at those bars or not at all too. */
  lemma BlockComment(t: string)
    ensures AfterBlock(t) == Nested(t, 1) <==> Nested(t, 1) == Behind(t, CodeEnd(t, 0))
  {
    EndsAtOddBars(t);
  }

  /**
   * By the first `|#`: if an odd number of bars ends there, or no comment begins before, then the code agrees with
   * R7RS exactly when both hold.
   */
  lemma AgreesAtFirst(t: string, i: int)
    requires ClosesFirstAt(t, i)
    ensures var odd, flat := Bars(t, i) % 2 == 1, forall j :: 0 <= j < i ==> !OpensAt(t, j);
      odd || flat ==> (AfterBlock(t) == Nested(t, 1) <==> odd && flat)
  {
    EndsAtFirst(t, i);
    NestedAtFirst(t, i);
  }

  /** Here the code takes the end of the inner comment for that of the outer one. */
  lemma NoNesting()
    ensures AfterBlock("#| |#|#") == Some("|#") && Nested("#| |#|#", 1) == Some("")
  {
    var t := "#| |#|#";
    EndsAtOddBars(t);
    assert Bars(t, 3) == 1 && OddlyClosesAt(t, 3) && !ClosesAt(t, 0) && !ClosesAt(t, 1) && !ClosesAt(t, 2);
    CodeEndSkips(t, 0, 3);
    assert t[2..] == " |#|#" && " |#|#"[1..] == "|#|#" && t[5..] == "|#" && "|#|#"[2..] == "|#" && "|#"[2..] == "";
    assert Nested("|#", 1) == Some("") && Nested("|#|#", 2) == Some("") && Nested(" |#|#", 2) == Some("");
  }

  lemma BothWrongBars()
    ensures CodeEnd("#| ||# |#", 0) == Some(7)
  {
    var t := "#| ||# |#";
    hide CodeEnd;
    assert Bars(t, 3) == 1 && Bars(t, 4) == 2 && Bars(t, 7) == 1 && OddlyClosesAt(t, 7);
    assert forall j :: 0 <= j < 7 ==> !OddlyClosesAt(t, j);
  }

  /** Here neither holds of the first `|#`, and the two mistakes make up for each other. */
  lemma BothWrong()
    ensures ClosesFirstAt("#| ||# |#", 4) && AfterBlock("#| ||# |#") == Some("") && Nested("#| ||# |#", 1) == Some("")
  {
    var t := "#| ||# |#";
    EndsAtOddBars(t);
    BothWrongBars();
    hide Bars;
    hide CodeEnd;
    hide OddlyClosesAt;
    hide AfterBlock;
    assert t[9..] == "";
    assert t[2..] == " ||# |#" && " ||# |#"[1..] == "||# |#" && "||# |#"[1..] == "|# |#";
    assert "|# |#"[2..] == " |#" && " |#"[1..] == "|#" && "|#"[2..] == "";
    assert Nested("|#", 1) == Some("") && Nested(" |#", 1) == Some("") && Nested("|# |#", 2) == Some("");
    assert Nested("||# |#", 2) == Some("") && Nested(" ||# |#", 2) == Some("");
  }
}
