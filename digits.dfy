/**
 * Base-b digit decomposition, used by the base-OT layer to split a large
 * 1-of-n transfer into 1-of-b transfers, one per digit
 * (`logceil` and `inBaseN`, src/ext/oblivc/ot.c:400-423).
 */
module Digits {

  /** The assertion bound on the number of digits (`LOGMAX`). */
  const LOGMAX: nat := 60

  function Pow(b: nat, e: nat): nat
  {
    if e == 0 then 1 else b * Pow(b, e - 1)
  }

  /** The number of base-b digits of `x`; zero has none. */
  function NumDigits(x: nat, b: nat): nat
    requires b >= 2
  {
    if x == 0 then 0 else 1 + NumDigits(x / b, b)
  }

  /** The lowest `d` base-b digits of `x`, least significant first. */
  function DigitsOf(x: nat, b: nat, d: nat): (r: seq<int>)
    requires b >= 2
    ensures |r| == d
  {
    if d == 0 then [] else [x % b] + DigitsOf(x / b, b, d - 1)
  }

  /** The number a digit string stands for: the sum of ds[i] * b^i. */
  function Value(ds: seq<int>, b: nat): int
  {
    if ds == [] then 0 else ds[0] + b * Value(ds[1..], b)
  }

  lemma PowPositive(b: nat, e: nat)
    requires b >= 1
    ensures Pow(b, e) >= 1
  {
  }

  /** Euclidean division of a natural number by a positive one. */
  lemma DivMod(x: nat, b: nat)
    requires b >= 1
    ensures 0 <= x / b <= x && 0 <= x % b < b && x == b * (x / b) + x % b
  {
  }

  lemma DivShrinks(y: int, b: int)
    requires y > 0 && b >= 2
    ensures 0 <= y / b < y && 0 <= y % b < b
  {
  }

  /** x / b < p exactly when x < b * p. */
  lemma DivLess(x: nat, b: nat, p: nat)
    requires b >= 1
    ensures x / b < p <==> x < b * p
  {
    var q, r := x / b, x % b;
    assert x == b * q + r && 0 <= r < b;
    if q < p {
      assert b * q + b <= b * p by {
        assert q + 1 <= p;
        assert b * (q + 1) <= b * p;
      }
    } else {
      assert b * p <= b * q;
    }
  }

  /** `x` has at most `d` digits exactly when it is below b^d. */
  lemma {:induction false} NumDigitsFit(x: nat, b: nat, d: nat)
    requires b >= 2
    ensures NumDigits(x, b) <= d <==> x < Pow(b, d)
    decreases x
  {
    PowPositive(b, d);
    if x > 0 && d > 0 {
      DivMod(x, b);
      var p := Pow(b, d - 1);
      assert Pow(b, d) == b * p;
      assert NumDigits(x, b) == 1 + NumDigits(x / b, b);
      NumDigitsFit(x / b, b, d - 1);
      DivLess(x, b, p);
    } else if x > 0 {
      assert NumDigits(x, b) == 1 + NumDigits(x / b, b);
    }
  }

  /** The digits of `x` spell `x` back, when `d` digits are enough. */
  lemma {:induction false} DigitsValue(x: nat, b: nat, d: nat)
    requires b >= 2 && x < Pow(b, d)
    ensures Value(DigitsOf(x, b, d), b) == x
  {
    if d > 0 {
      DivMod(x, b);
      DivLess(x, b, Pow(b, d - 1));
      DigitsValue(x / b, b, d - 1);
      assert DigitsOf(x, b, d)[1..] == DigitsOf(x / b, b, d - 1);
    }
  }

  /** Every digit lies in [0, b). */
  lemma {:induction false} DigitsInRange(x: nat, b: nat, d: nat, i: nat)
    requires b >= 2 && i < d
    ensures 0 <= DigitsOf(x, b, d)[i] < b
  {
    DivMod(x, b);
    var ds := DigitsOf(x, b, d);
    assert ds == [x % b] + DigitsOf(x / b, b, d - 1);
    if i > 0 {
      DigitsInRange(x / b, b, d - 1, i - 1);
      assert ds[i] == DigitsOf(x / b, b, d - 1)[i - 1];
    }
  }

  /** Positions above the most significant digit hold 0. */
  lemma {:induction false} DigitsAboveTop(x: nat, b: nat, d: nat, i: nat)
    requires b >= 2 && NumDigits(x, b) <= i < d
    ensures DigitsOf(x, b, d)[i] == 0
  {
    DivMod(x, b);
    var ds := DigitsOf(x, b, d);
    assert ds == [x % b] + DigitsOf(x / b, b, d - 1);
    if x == 0 {
      assert x / b == 0 && x % b == 0;
    } else {
      assert NumDigits(x, b) == 1 + NumDigits(x / b, b);
    }
    if i > 0 {
      DigitsAboveTop(x / b, b, d - 1, i - 1);
      assert ds[i] == DigitsOf(x / b, b, d - 1)[i - 1];
    }
  }

  /** ceil(log_b x): the number of digits of x - 1, and 0 when x <= 1. */
  function LogCeilOf(x: int, b: nat): nat
    requires b >= 2
  {
    if x >= 1 then NumDigits(x - 1, b) else 0
  }

  /** `logceil(n, b)` digits suffice to write every x < n: this is why
      npotSendMany may ignore the result of `inBaseN`. */
  lemma LogCeilSuffices(n: int, b: nat, x: nat)
    requires b >= 2 && x < n
    ensures NumDigits(x, b) <= LogCeilOf(n, b)
    ensures n <= Pow(b, LogCeilOf(n, b))
  {
    NumDigitsFit(n - 1, b, LogCeilOf(n, b));
    NumDigitsFit(x, b, LogCeilOf(n, b));
  }

  /** ceil(log_b x) is the least e with x <= b^e. */
  lemma LogCeilLeast(x: int, b: nat)
    requires b >= 2
    ensures x <= Pow(b, LogCeilOf(x, b))
    ensures LogCeilOf(x, b) == 0 || Pow(b, LogCeilOf(x, b) - 1) < x
  {
    PowPositive(b, 0);
    var res := LogCeilOf(x, b);
    if x >= 1 {
      NumDigitsFit(x - 1, b, res);
      if res > 0 {
        NumDigitsFit(x - 1, b, res - 1);
      }
    }
  }

  /** `logceil(x, b)`: the number of times x - 1 can be divided by b before
      it reaches 0, which by `LogCeilLeast` is ceil(log_b x). */
  method LogCeil(x: int, b: int) returns (res: nat)
    requires b >= 2
    ensures res == LogCeilOf(x, b)
  {
    res := 0;
    var y := x - 1;
    while y > 0
      invariant y >= 0 ==> x >= 1 && res + NumDigits(y, b) == NumDigits(x - 1, b)
      invariant y < 0 ==> res == 0 && x <= 0
    {
      DivShrinks(y, b);
      assert NumDigits(y, b) == 1 + NumDigits(y / b, b);
      y := y / b;
      res := res + 1;
    }
  }

  /** Writing the lowest digit of `w` moves it from the digits still to
      write to the digits written. */
  lemma DigitsStep(written: seq<int>, w: nat, b: nat, r: nat)
    requires b >= 2 && r > 0
    ensures written + DigitsOf(w, b, r) == (written + [w % b]) + DigitsOf(w / b, b, r - 1)
    ensures w > 0 ==> NumDigits(w, b) == 1 + NumDigits(w / b, b)
  {
  }

  /** `inBaseN(dest, dlen, x, b)`: writes the `dlen` lowest base-b digits of
      `x` into dest[0..dlen), or reports that `x` has more than `dlen` digits.
      A non-positive `x` is written as all zeros, as the loop never runs. */
  method InBaseN(dest: array<int>, dlen: int, x: int, b: int) returns (ok: bool)
    requires b >= 2 && 0 <= dlen <= dest.Length
    modifies dest
    ensures var v: nat := if x > 0 then x else 0;
      && (ok <==> NumDigits(v, b) <= dlen)
      && (ok ==> dest[..dlen] == DigitsOf(v, b, dlen))
    ensures dest[dlen..] == old(dest[dlen..])
  {
    var i;
    ok, i := WriteDigits(dest, dlen, x, b);
    if ok {
      FillZeros(dest, dlen, b, i, DigitsOf(if x > 0 then x else 0, b, dlen));
    }
  }

  /** The first loop of `inBaseN`: digits of `x`, lowest first, while they
      fit; on success `i` digits are written and the rest are zeros. */
  method WriteDigits(dest: array<int>, dlen: int, x: int, b: int) returns (ok: bool, i: nat)
    requires b >= 2 && 0 <= dlen <= dest.Length
    modifies dest
    ensures var v: nat := if x > 0 then x else 0;
      && (ok <==> NumDigits(v, b) <= dlen)
      && (ok ==> i <= dlen && dest[..i] + DigitsOf(0, b, dlen - i) == DigitsOf(v, b, dlen))
    ensures dest[dlen..] == old(dest[dlen..])
  {
    ghost var v: nat := if x > 0 then x else 0;
    var y := x;
    i := 0;
    while y > 0
      invariant 0 <= i <= dlen
      invariant y < 0 ==> i == 0 && y == x
      invariant var w: nat := if y > 0 then y else 0;
        && NumDigits(v, b) == i + NumDigits(w, b)
        && dest[..i] + DigitsOf(w, b, dlen - i) == DigitsOf(v, b, dlen)
      invariant forall t | dlen <= t < dest.Length :: dest[t] == old(dest[t])
    {
      if i >= dlen {
        assert dest[dlen..] == old(dest[dlen..]);
        return false, i;
      }
      DivShrinks(y, b);
      ghost var before := dest[..i];
      DigitsStep(before, y, b, dlen - i);
      dest[i] := y % b;
      assert dest[..i + 1] == before + [y % b];
      y := y / b;
      i := i + 1;
    }
    assert dest[dlen..] == old(dest[dlen..]);
    ok := true;
  }

  /** The second loop of `inBaseN`: zeros from position i up to dlen. */
  method FillZeros(dest: array<int>, dlen: int, b: int, i: nat, ghost digits: seq<int>)
    requires b >= 2 && i <= dlen <= dest.Length
    requires dest[..i] + DigitsOf(0, b, dlen - i) == digits
    modifies dest
    ensures dest[..dlen] == digits
    ensures dest[dlen..] == old(dest[dlen..])
  {
    var j := i;
    while j < dlen
      invariant i <= j <= dlen
      invariant dest[..j] + DigitsOf(0, b, dlen - j) == digits
      invariant forall t | dlen <= t < dest.Length :: dest[t] == old(dest[t])
    {
      ghost var before := dest[..j];
      DigitsStep(before, 0, b, dlen - j);
      dest[j] := 0;
      assert dest[..j + 1] == before + [0];
      j := j + 1;
    }
    assert dest[dlen..] == old(dest[dlen..]);
  }

  /** What the digits `inBaseN` writes mean: on success dest[i] lies in
      [0, b), the sum of dest[i] * b^i is `v`, and the positions above the
      most significant digit are 0. */
  lemma DigitsFacts(v: nat, b: nat, dlen: nat)
    requires b >= 2 && NumDigits(v, b) <= dlen
    ensures Value(DigitsOf(v, b, dlen), b) == v
    ensures forall i | 0 <= i < dlen ::
      0 <= DigitsOf(v, b, dlen)[i] < b && (i >= NumDigits(v, b) ==> DigitsOf(v, b, dlen)[i] == 0)
  {
    NumDigitsFit(v, b, dlen);
    DigitsValue(v, b, dlen);
    forall j | 0 <= j < dlen
      ensures 0 <= DigitsOf(v, b, dlen)[j] < b && (j >= NumDigits(v, b) ==> DigitsOf(v, b, dlen)[j] == 0)
    {
      DigitsInRange(v, b, dlen, j);
      if j >= NumDigits(v, b) {
        DigitsAboveTop(v, b, dlen, j);
      }
    }
  }
}
