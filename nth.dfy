/**
 * Query::convertNthExpression: the argument of `:nth-child(...)` and
 * `:nth-of-type(...)` turned into an XPath predicate on position().
 *
 * The source recognises, in this order: the empty string (an error), `odd`,
 * `even`, a number, and the pattern `^([0-9]?n)(?:([+-])([0-9]+))?$` with the
 * `i` flag; anything else is an error.  The model reads the argument into an
 * NthForm and prints the form.
 */
module Nth {
  import opened Outcomes
  import opened Strings

  /**
   * What an nth argument was read as, with each number as `%d` formats it:
   * saturated at PHP_INT_MAX.  In a Cycle, `subtract` is the sign the XPath
   * is printed with (the source prints `-` for a given `+` and `+`
   * otherwise), `offset` is the number after the sign (0 when absent) and
   * `modulus` is the multiplier.
   */
  datatype NthForm = Odd | Even | Index(n: nat) | Cycle(subtract: bool, offset: nat, modulus: nat)

  /**
   * The multiplier group `[0-9]?n` read case-insensitively, and what the
   * source makes of it: `n` is 1; otherwise `trim($mul, 'n')` is formatted
   * with `%d`, which reads the leading digit, or 0 for a lone `N`.
   */
  function Multiplier(mul: string): (m: Option<nat>)
    ensures m.Some? ==> m.value < 10
    ensures mul == "n" ==> m == Some(1)
    ensures |mul| == 2 && IsDigit(mul[0]) && (mul[1] == 'n' || mul[1] == 'N') ==> m == Some(mul[0] as int - '0' as int)
  {
    if mul == "n" then Some(1)
    else if mul == "N" then Some(0)
    else if |mul| == 2 && IsDigit(mul[0]) && (mul[1] == 'n' || mul[1] == 'N') then Some(mul[0] as int - '0' as int)
    else None
  }

  /** The optional `([+-])([0-9]+)` tail: Some((subtract, offset)) when it matches. */
  function OffsetPart(s: string): (r: Option<(bool, nat)>)
    ensures s == [] ==> r == Some((false, 0))
    ensures r.Some? && s != [] ==> |s| >= 2 && (s[0] == '+' || s[0] == '-') && AllDigits(s[1..])
    ensures r.Some? && s != [] ==> r.value == (s[0] == '+', PhpInt(DigitsValue(s[1..])))
  {
    if s == [] then Some((false, 0))
    else if |s| >= 2 && (s[0] == '+' || s[0] == '-') && AllDigits(s[1..]) then Some((s[0] == '+', PhpInt(DigitsValue(s[1..]))))
    else None
  }

  /** The text the anchored pattern applies to: `$` also matches before one final newline. */
  function Anchored(e: string): (c: string)
    ensures c <= e && |e| - |c| <= 1
  {
    if e != [] && e[|e| - 1] == '\n' then e[..|e| - 1] else e
  }

  /** The `[0-9]?n[+-k]` pattern, matched against the whole argument. */
  function CycleForm(e: string): (r: Option<NthForm>)
    ensures r.Some? ==> r.value.Cycle?
  {
    var c := Anchored(e);
    var k := if c != [] && IsDigit(c[0]) then 2 else 1;
    if |c| < k then None
    else
      match (Multiplier(c[..k]), OffsetPart(c[k..]))
      case (Some(m), Some((subtract, offset))) => Some(Cycle(subtract, offset, m))
      case _ => None
  }

  /** The branches of convertNthExpression, in the order the source tries them. */
  function ParseNth(e: string): (r: Result<NthForm>)
    ensures r == Err(EmptyNthExpression) <==> e == ""
    ensures r.Err? ==> r.error == EmptyNthExpression || r.error == InvalidNthExpression
    ensures e != "" && AllDigits(e) ==> r == Ok(Index(PhpInt(DigitsValue(e))))
  {
    if e == "" then Err(EmptyNthExpression)
    else if e == "odd" then Ok(Odd)
    else if e == "even" then Ok(Even)
    else if AllDigits(e) then Ok(Index(PhpInt(DigitsValue(e))))
    else
      match CycleForm(e)
      case Some(f) => Ok(f)
      case None => Err(InvalidNthExpression)
  }

  /** The text of an index predicate before the number. */
  const IndexTestOpen: string := "position() = "

  /**
   * The XPath predicate the source prints for each form; an index is printed
   * in decimal and reads back as itself.
   */
  function NthXPath(f: NthForm): (r: string)
    ensures f.Index? ==> IndexTestOpen <= r && AllDigits(r[|IndexTestOpen|..])
                          && DigitsValue(r[|IndexTestOpen|..]) == f.n
  {
    match f
    case Odd => "position() mod 2 = 1 and position() >= 1"
    case Even => "position() mod 2 = 0 and position() >= 0"
    case Index(n) =>
      var r := IndexTestOpen + NatToString(n);
      assert r[|IndexTestOpen|..] == NatToString(n);
      r
    case Cycle(subtract, k, m) =>
      "(position() " + (if subtract then "-" else "+") + " " + NatToString(k) + ") mod "
      + NatToString(m) + " = 0 and position() >= " + NatToString(k)
  }

  /** convertNthExpression. */
  function ConvertNthExpression(e: string): (r: Result<string>)
    ensures r.Ok? <==> ParseNth(e).Ok?
    ensures r.Ok? ==> r.value == NthXPath(ParseNth(e).value)
    ensures r.Err? ==> r.error == ParseNth(e).error
  {
    var f :- ParseNth(e);
    Ok(NthXPath(f))
  }

  /**
   * Which positions p the printed predicate keeps.  XPath's `mod` takes the
   * sign of the dividend, but `x mod m = 0` holds exactly when m divides x,
   * which `%` tests here; `x mod 0` is NaN and equals nothing.
   */
  predicate Selects(f: NthForm, p: int) {
    match f
    case Odd => p % 2 == 1 && p >= 1
    case Even => p % 2 == 0 && p >= 0
    case Index(n) => p == n
    case Cycle(subtract, k, m) => m != 0 && (if subtract then p - k else p + k) % m == 0 && p >= k
  }

  function Step(a: int, n: nat): int {
    a * n
  }

  /** The CSS meaning of `An+B`: p is a*n + b for some n >= 0. */
  ghost predicate CssSelects(a: int, b: int, p: int) {
    exists n: nat :: Step(a, n) + b == p
  }

  /** The text `An+B` with a one-digit multiplier, as a selector author writes it. */
  function CycleText(a: nat, sign: char, b: nat): string
    requires a < 10
  {
    [DigitChar(a), 'n', sign] + NatToString(b)
  }

  /**
   * Reading `An+B` and `An-B` back: the digit, the sign and the offset are
   * recovered, the offset saturated at PHP_INT_MAX.
   */
  lemma ParseCycleText(a: nat, sign: char, b: nat)
    requires a < 10 && (sign == '+' || sign == '-')
    ensures ParseNth(CycleText(a, sign, b)) == Ok(Cycle(sign == '+', PhpInt(b), a))
  {
    var e := CycleText(a, sign, b);
    assert !IsDigit(e[1]);
    assert e != "odd" && e != "even";
    assert Anchored(e) == e;
    assert e[..2] == [DigitChar(a), 'n'];
    assert e[2..][1..] == NatToString(b);
  }

  /** A digit string is read as that index, saturated at PHP_INT_MAX. */
  lemma ParseIndex(n: nat)
    ensures ParseNth(NatToString(n)) == Ok(Index(PhpInt(n)))
  {
  }

  lemma {:induction false} MulAtLeast(m: int, k: int)
    requires m >= 1 && k >= 1
    ensures m * k >= m
    decreases k
  {
    if k > 1 {
      MulAtLeast(m, k - 1);
      assert m * k == m * (k - 1) + m;
    }
  }

  /** Euclidean division is unique: x = m*q + r with 0 <= r < m fixes q and r. */
  lemma DivModUnique(x: int, m: int, q: int, r: int)
    requires m >= 1 && 0 <= r < m && x == m * q + r
    ensures x % m == r && x / m == q
  {
    var q2, r2 := x / m, x % m;
    assert x == m * q2 + r2;
    if q2 > q {
      assert m * (q2 - q) == m * q2 - m * q;
      MulAtLeast(m, q2 - q);
    } else if q2 < q {
      assert m * (q - q2) == m * q - m * q2;
      MulAtLeast(m, q - q2);
    }
  }

  /** p is m*n + b for some n >= 0 exactly when p >= b and m divides p - b. */
  lemma DividesOffset(m: int, b: int, p: int)
    requires m >= 1
    ensures CssSelects(m, b, p) <==> (p - b) % m == 0 && p >= b
  {
    if (p - b) % m == 0 && p >= b {
      var n: nat := (p - b) / m;
      assert Step(m, n) + b == p;
    }
    if CssSelects(m, b, p) {
      var n: nat :| Step(m, n) + b == p;
      DivModUnique(p - b, m, n, 0);
      assert Step(m, n) >= 0 by {
        if n > 0 { MulAtLeast(m, n); }
      }
    }
  }

  /**
   * For a positive multiplier and a `+` offset that fits a PHP int, the
   * printed predicate keeps exactly the positions CSS's An+B denotes.
   */
  lemma PlusOffsetAgrees(a: nat, b: nat, p: int)
    requires 1 <= a < 10 && b <= PhpIntMax
    ensures Selects(ParseNth(CycleText(a, '+', b)).value, p) <==> CssSelects(a, b, p)
  {
    ParseCycleText(a, '+', b);
    DividesOffset(a, b, p);
  }

  /** `odd` keeps exactly the positions 2n+1 and `even` exactly the positions 2n. */
  lemma OddEvenAgree(p: int)
    ensures Selects(Odd, p) <==> CssSelects(2, 1, p)
    ensures Selects(Even, p) <==> CssSelects(2, 0, p)
  {
    DividesOffset(2, 1, p);
    DividesOffset(2, 0, p);
  }

  /**
   * With a `-` offset the printed lower bound `position() >= B` is too strict:
   * `3n-4` denotes 2, 5, 8, ... but the predicate drops position 2.
   */
  lemma MinusOffsetDropsPositions()
    ensures CssSelects(3, -4, 2)
    ensures !Selects(ParseNth("3n-4").value, 2)
  {
    assert Step(3, 2) + -4 == 2;
    ParseCycleText(3, '-', 4);
    assert CycleText(3, '-', 4) == "3n-4";
  }

  /**
   * An offset beyond PHP_INT_MAX is printed as PHP_INT_MAX: `n+B` then keeps
   * position PHP_INT_MAX, which CSS's n+B, starting at B, does not.
   */
  lemma LargeOffsetCapped(b: nat)
    requires b > PhpIntMax
    ensures ParseNth(CycleText(1, '+', b)) == Ok(Cycle(true, PhpIntMax, 1))
    ensures Selects(Cycle(true, PhpIntMax, 1), PhpIntMax) && !CssSelects(1, b, PhpIntMax)
  {
    ParseCycleText(1, '+', b);
    DividesOffset(1, b, PhpIntMax);
  }

  /**
   * A zero multiplier prints `mod 0`, which keeps nothing, although CSS's
   * `0n+3` denotes position 3.
   */
  lemma ZeroMultiplierSelectsNothing(b: nat, p: int)
    ensures CssSelects(0, b, b)
    ensures !Selects(ParseNth(CycleText(0, '+', b)).value, p)
  {
    assert Step(0, 0) + b == b;
    ParseCycleText(0, '+', b);
  }
}
