/** Saturating machine arithmetic and floor division. */
module Arith {

  const U64_MAX: nat := 0xFFFF_FFFF_FFFF_FFFF
  const U256_MAX: nat := 0xFFFF_FFFF_FFFF_FFFF_FFFF_FFFF_FFFF_FFFF_FFFF_FFFF_FFFF_FFFF_FFFF_FFFF_FFFF_FFFF

  function Min(a: nat, b: nat): nat {
    if a < b then a else b
  }

  function Max(a: nat, b: nat): nat {
    if a < b then b else a
  }

  /** Subtraction that stops at zero. */
  function SatSub(a: nat, b: nat): nat {
    if a < b then 0 else a - b
  }

  function SatAdd(a: nat, b: nat, max: nat): nat {
    Min(a + b, max)
  }

  function SatMul(a: nat, b: nat, max: nat): nat {
    Min(a * b, max)
  }

  lemma MulMono(c: nat, a: int, b: int)
    requires a <= b
    ensures c * a <= c * b && a * c <= b * c
  {
  }

  lemma DivMono(a: nat, b: nat, c: nat)
    requires a <= b && c > 0
    ensures a / c <= b / c
  {
    var x, y := a / c, b / c;
    assert a == c * x + a % c && b == c * y + b % c;
    if x > y {
      MulMono(c, y + 1, x);
      assert false;
    }
  }

  /** `q` is the quotient when `c * q` is the last multiple of `c` that is not above `a`. */
  lemma DivIs(a: nat, c: nat, q: nat)
    requires c > 0 && c * q <= a < c * q + c
    ensures a / c == q
  {
    var x := a / c;
    assert a == c * x + a % c;
    if x < q {
      MulMono(c, x + 1, q);
    } else if x > q {
      MulMono(c, q + 1, x);
    }
  }

  lemma DivAdd(a: nat, c: nat, k: nat)
    requires c > 0
    ensures (a + c * k) / c == a / c + k
  {
    assert c * (a / c + k) == c * (a / c) + c * k;
    DivIs(a + c * k, c, a / c + k);
  }

  lemma DivCancel(a: nat, c: nat)
    requires c > 0
    ensures a * c / c == a
  {
    DivIs(a * c, c, a);
  }

  /** Two floors one after the other are one floor of the product. */
  lemma DivDiv(a: nat, b: nat, c: nat)
    requires b > 0 && c > 0
    ensures b * c > 0 && a / b / c == a / (b * c)
  {
    MulMono(b, 1, c);
    var x := a / b;
    var q := x / c;
    assert a == b * x + a % b && x == c * q + x % c;
    assert b * x == b * (c * q) + b * (x % c);
    assert b * (c * q) == b * c * q;
    MulMono(b, x % c + 1, c);
    assert b * (x % c + 1) == b * (x % c) + b;
    DivIs(a, b * c, q);
  }
}
