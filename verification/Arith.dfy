/**
 Products, quotients and remainders by name, with the laws the limb arithmetic needs. Proofs that use
 them hide the definitions, so that no step outside this module rests on nonlinear arithmetic.
 */
module Arith {
  function Mul(x: int, y: int): int {
    x * y
  }

  function Div(a: int, d: int): int
    requires 0 < d
  {
    a / d
  }

  function Mod(a: int, m: int): (r: int)
    requires 0 < m
    ensures 0 <= r < m
  {
    a % m
  }

  lemma MulUnit(x: int)
    ensures Mul(x, 0) == 0 && Mul(0, x) == 0 && Mul(x, 1) == x && Mul(1, x) == x
  {
  }

  lemma MulComm(x: int, y: int)
    ensures Mul(x, y) == Mul(y, x)
  {
  }

  lemma MulAssoc(x: int, y: int, z: int)
    ensures Mul(Mul(x, y), z) == Mul(x, Mul(y, z))
  {
  }

  lemma MulSwap(x: int, y: int, z: int)
    ensures Mul(x, Mul(y, z)) == Mul(y, Mul(x, z))
  {
    MulAssoc(x, y, z);
    MulAssoc(y, x, z);
  }

  lemma Distrib(d: int, x: int, y: int)
    ensures Mul(d, x + y) == Mul(d, x) + Mul(d, y)
    ensures Mul(d, x - y) == Mul(d, x) - Mul(d, y)
    ensures Mul(x + y, d) == Mul(x, d) + Mul(y, d)
    ensures Mul(x - y, d) == Mul(x, d) - Mul(y, d)
  {
  }

  lemma MulNeg(x: int, y: int)
    ensures Mul(-x, y) == -Mul(x, y)
  {
  }

  lemma MulMono(d: int, x: int, y: int)
    requires 0 <= d && x <= y
    ensures Mul(d, x) <= Mul(d, y)
    ensures Mul(x, d) <= Mul(y, d)
  {
  }

  lemma MulGrows(d: int, x: int, y: int)
    requires 0 < d && x < y
    ensures Mul(d, x) < Mul(d, y)
    ensures Mul(x, d) < Mul(y, d)
  {
  }

  lemma MulCancel(d: int, x: int, y: int)
    requires 0 < d && Mul(d, x) < Mul(d, y)
    ensures x < y
  {
    if y <= x {
      MulMono(d, y, x);
    }
  }

  lemma MulSign(x: int, y: int)
    ensures 0 <= x && 0 <= y ==> 0 <= Mul(x, y)
    ensures 0 < x && 0 < y ==> 0 < Mul(x, y)
  {
  }

  lemma DivMod(a: int, d: int)
    requires 0 < d
    ensures a == Mul(d, Div(a, d)) + Mod(a, d)
    ensures 0 <= a ==> 0 <= Div(a, d) <= a
  {
    if 0 <= a {
      DivBounds(a, d, a / d);
    }
  }

  lemma DivBounds(a: int, d: int, q: int)
    requires 0 < d && 0 <= a && d * q <= a < d * q + d
    ensures 0 <= q <= a
  {
    MulCancel(d, -1, q);
    if 0 < q {
      MulMono(q, 1, d);
    }
  }

  /** Euclidean division is determined by its equation. */
  lemma DivModUnique(a: int, d: int, q: int, r: int)
    requires 0 <= r < d && a == Mul(d, q) + r
    ensures Div(a, d) == q && Mod(a, d) == r
  {
    hide Mul, Div, Mod;
    DivMod(a, d);
    QuotientsEqual(d, q, r, Div(a, d), Mod(a, d));
  }

  lemma QuotientsEqual(d: int, q: int, r: int, q': int, r': int)
    requires 0 <= r < d && 0 <= r' < d
    requires Mul(d, q) + r == Mul(d, q') + r'
    ensures q == q' && r == r'
  {
    hide Mul;
    MulUnit(d);
    Distrib(d, q, 1);
    Distrib(d, q', 1);
    if q < q' {
      MulMono(d, q + 1, q');
    } else if q' < q {
      MulMono(d, q' + 1, q);
    }
  }

  lemma ModSmall(a: int, m: int)
    requires 0 <= a < m
    ensures Mod(a, m) == a && Div(a, m) == 0
  {
    DivModUnique(a, m, 0, a);
  }

  /** Congruence modulo m. */
  predicate Cong(a: int, b: int, m: int)
    requires 0 < m
  {
    Mod(a, m) == Mod(b, m)
  }

  lemma CongByMultiple(a: int, b: int, k: int, m: int)
    requires 0 < m && a == b + Mul(m, k)
    ensures Cong(a, b, m)
  {
    hide Mul, Div, Mod;
    DivMod(b, m);
    Distrib(m, Div(b, m), k);
    DivModUnique(a, m, Div(b, m) + k, Mod(b, m));
  }

  lemma CongMultiple(a: int, b: int, m: int) returns (k: int)
    requires 0 < m && Cong(a, b, m)
    ensures a == b + Mul(m, k)
  {
    hide Mul, Div, Mod;
    k := Div(a, m) - Div(b, m);
    DivMod(a, m);
    DivMod(b, m);
    Distrib(m, Div(a, m), Div(b, m));
  }

  lemma CongAdd(a: int, a': int, b: int, b': int, m: int)
    requires 0 < m && Cong(a, a', m) && Cong(b, b', m)
    ensures Cong(a + b, a' + b', m)
    ensures Cong(a - b, a' - b', m)
  {
    hide Mul, Div, Mod;
    var k := CongMultiple(a, a', m);
    var l := CongMultiple(b, b', m);
    Distrib(m, k, l);
    CongByMultiple(a + b, a' + b', k + l, m);
    CongByMultiple(a - b, a' - b', k - l, m);
  }

  lemma CongScale(c: int, a: int, a': int, m: int)
    requires 0 < m && Cong(a, a', m)
    ensures Cong(Mul(c, a), Mul(c, a'), m)
  {
    hide Mul, Div, Mod;
    var k := CongMultiple(a, a', m);
    Distrib(c, a', Mul(m, k));
    MulSwap(c, m, k);
    CongByMultiple(Mul(c, a), Mul(c, a'), Mul(c, k), m);
  }

  lemma CongMul(a: int, a': int, b: int, b': int, m: int)
    requires 0 < m && Cong(a, a', m) && Cong(b, b', m)
    ensures Cong(Mul(a, b), Mul(a', b'), m)
  {
    hide Mul, Div, Mod;
    CongScale(a, b, b', m);
    CongScale(b', a, a', m);
    MulComm(a, b');
    MulComm(a', b');
  }

  lemma CongMod(a: int, m: int)
    requires 0 < m
    ensures Cong(Mod(a, m), a, m)
  {
    ModSmall(Mod(a, m), m);
  }

  lemma CongSmall(a: int, b: int, m: int)
    requires 0 <= a < m && Cong(a, b, m)
    ensures a == Mod(b, m)
  {
    ModSmall(a, m);
  }

  /** Scaling dividend and divisor scales the remainder. */
  lemma ModScale(a: int, m: int, c: int)
    requires 0 < m && 0 < c
    ensures 0 < Mul(m, c)
    ensures Mod(Mul(a, c), Mul(m, c)) == Mul(Mod(a, m), c)
  {
    hide Mul, Div, Mod;
    var q, r := Div(a, m), Mod(a, m);
    DivMod(a, m);
    MulSign(m, c);
    Distrib(c, Mul(m, q), r);
    MulAssoc(m, q, c);
    MulComm(q, c);
    MulAssoc(m, c, q);
    MulSign(r, c);
    MulGrows(c, r, m);
    DivModUnique(Mul(a, c), Mul(m, c), q, Mul(r, c));
  }

  /** Reading quotient and remainder off an equation. */
  lemma QuotientIs(x: int, d: int, q: int, r: int)
    requires 0 <= r < d && x == d * q + r
    ensures x / d == q && x % d == r
  {
    hide Div, Mod;
    DivModUnique(x, d, q, r);
    DivIs(x, d);
    ModIs(x, d);
  }

  lemma DivIs(x: int, d: int)
    requires 0 < d
    ensures Div(x, d) == x / d
  {
  }

  /** The remainder of -x gives that of x. */
  lemma NegativeRemainder(x: int, q: int)
    requires 0 < q
    ensures x % q == if (-x) % q == 0 then 0 else q - (-x) % q
  {
    hide Mul, Div, Mod;
    DivMod(-x, q);
    var d, r := Div(-x, q), Mod(-x, q);
    Distrib(q, -d, 1);
    MulNeg(d, q);
    MulComm(d, q);
    MulComm(-d, q);
    MulUnit(q);
    if r == 0 {
      DivModUnique(x, q, -d, 0);
    } else {
      DivModUnique(x, q, -d - 1, q - r);
    }
    ModIs(x, q);
    ModIs(-x, q);
  }

  lemma ModIs(x: int, q: int)
    requires 0 < q
    ensures Mod(x, q) == x % q
  {
  }

  /** Dividing twice is dividing by the product. */
  lemma DivDiv(x: nat, a: nat, b: nat)
    requires 0 < a && 0 < b
    ensures 0 < Mul(a, b) && 0 <= Div(x, a) && Div(x, Mul(a, b)) == Div(Div(x, a), b)
  {
    hide Mul, Div, Mod;
    MulSign(a, b);
    DivMod(x, a);
    var (y, r) := (Div(x, a), Mod(x, a));
    DivMod(y, b);
    var (q, t) := (Div(y, b), Mod(y, b));
    Distrib(a, Mul(b, q), t);
    MulAssoc(a, b, q);
    MulMono(a, t + 1, b);
    Distrib(a, t, 1);
    MulUnit(a);
    MulSign(a, t);
    DivModUnique(x, Mul(a, b), q, Mul(a, t) + r);
  }
}
