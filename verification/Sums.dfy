/** Finite sums of integer functions over a window [lo, lo + n). */
module Sums {
  import opened Arith

  function Sum(f: int -> int, lo: int, n: nat): int {
    if n == 0 then 0 else Sum(f, lo, n - 1) + f(lo + n - 1)
  }

  lemma {:induction false} SumEqual(f: int -> int, g: int -> int, lo: int, n: nat)
    requires forall i :: lo <= i < lo + n ==> f(i) == g(i)
    ensures Sum(f, lo, n) == Sum(g, lo, n)
  {
    if n != 0 {
      SumEqual(f, g, lo, n - 1);
    }
  }

  lemma {:induction false} SumZero(f: int -> int, lo: int, n: nat)
    requires forall i :: lo <= i < lo + n ==> f(i) == 0
    ensures Sum(f, lo, n) == 0
  {
    if n != 0 {
      SumZero(f, lo, n - 1);
    }
  }

  /** Only one term counts. */
  lemma {:induction false} SumOnly(f: int -> int, lo: int, n: nat, x: int)
    requires lo <= x < lo + n && forall i :: lo <= i < lo + n && i != x ==> f(i) == 0
    ensures Sum(f, lo, n) == f(x)
  {
    if x == lo + n - 1 {
      SumZero(f, lo, n - 1);
    } else {
      SumOnly(f, lo, n - 1, x);
    }
  }

  lemma {:induction false} SumAdd(f: int -> int, g: int -> int, h: int -> int, lo: int, n: nat)
    requires forall i :: lo <= i < lo + n ==> h(i) == f(i) + g(i)
    ensures Sum(h, lo, n) == Sum(f, lo, n) + Sum(g, lo, n)
  {
    if n != 0 {
      SumAdd(f, g, h, lo, n - 1);
    }
  }

  lemma {:induction false} SumNegate(f: int -> int, g: int -> int, lo: int, n: nat)
    requires forall i :: lo <= i < lo + n ==> g(i) == -f(i)
    ensures Sum(g, lo, n) == -Sum(f, lo, n)
  {
    if n != 0 {
      SumNegate(f, g, lo, n - 1);
    }
  }

  lemma {:induction false} SumScale(c: int, f: int -> int, g: int -> int, lo: int, n: nat)
    requires forall i :: lo <= i < lo + n ==> g(i) == Mul(c, f(i))
    ensures Sum(g, lo, n) == Mul(c, Sum(f, lo, n))
  {
    hide Mul;
    if n == 0 {
      MulUnit(c);
    } else {
      SumScale(c, f, g, lo, n - 1);
      Distrib(c, Sum(f, lo, n - 1), f(lo + n - 1));
    }
  }

  lemma {:induction false} SumCong(f: int -> int, g: int -> int, lo: int, n: nat, m: int)
    requires 0 < m && forall i :: lo <= i < lo + n ==> Cong(f(i), g(i), m)
    ensures Cong(Sum(f, lo, n), Sum(g, lo, n), m)
  {
    if n != 0 {
      SumCong(f, g, lo, n - 1, m);
      CongAdd(Sum(f, lo, n - 1), Sum(g, lo, n - 1), f(lo + n - 1), g(lo + n - 1), m);
    }
  }

  function Abs(x: int): nat {
    if x < 0 then -x else x
  }

  lemma {:induction false} SumBound(f: int -> int, lo: int, n: nat, c: nat)
    requires forall i :: lo <= i < lo + n ==> Abs(f(i)) <= c
    ensures Abs(Sum(f, lo, n)) <= Mul(c, n)
  {
    hide Mul;
    if n == 0 {
      MulUnit(c);
    } else {
      SumBound(f, lo, n - 1, c);
      Distrib(c, n - 1, 1);
      MulUnit(c);
    }
  }

  /** Reading a window backwards. */
  lemma {:induction false} SumReverse(f: int -> int, g: int -> int, k: int, n: nat)
    requires forall j :: 0 <= j < n ==> g(j) == f(k - j)
    ensures Sum(g, 0, n) == Sum(f, k - n + 1, n)
  {
    if n != 0 {
      SumReverse(f, g, k, n - 1);
      SumFront(f, k - n + 1, n);
    }
  }

  lemma {:induction false} SumFront(f: int -> int, lo: int, n: nat)
    requires 0 < n
    ensures Sum(f, lo, n) == f(lo) + Sum(f, lo + 1, n - 1)
  {
    if n > 1 {
      SumFront(f, lo, n - 1);
    }
  }

  /** Moving the index. */
  lemma {:induction false} SumShift(f: int -> int, g: int -> int, lo: int, d: int, n: nat)
    requires forall i :: lo <= i < lo + n ==> f(i) == g(i + d)
    ensures Sum(f, lo, n) == Sum(g, lo + d, n)
  {
    if n != 0 {
      SumShift(f, g, lo, d, n - 1);
    }
  }

  predicate PeriodAt(f: int -> int, n: nat, i: int) {
    f(i + n) == f(i)
  }

  ghost predicate Periodic(f: int -> int, n: nat) {
    forall i :: PeriodAt(f, n, i)
  }

  /** A full period sums to the same value wherever it starts. */
  lemma {:induction false} SumPeriod(f: int -> int, lo: int, n: nat)
    requires Periodic(f, n)
    ensures Sum(f, lo, n) == Sum(f, 0, n)
    decreases if lo < 0 then -lo else lo
  {
    if n != 0 {
      if lo < 0 {
        SumPeriod(f, lo + 1, n);
        SumFront(f, lo, n);
        assert PeriodAt(f, n, lo);
      } else if lo > 0 {
        SumPeriod(f, lo - 1, n);
        SumFront(f, lo - 1, n);
        assert PeriodAt(f, n, lo - 1);
      }
    }
  }

  function RowSum(f: (int, int) -> int, i: int, m: nat): int {
    Sum(j => f(i, j), 0, m)
  }

  function ColSum(f: (int, int) -> int, j: int, n: nat): int {
    Sum(i => f(i, j), 0, n)
  }

  /** Exchanging the order of summation. */
  lemma {:induction false} SumSwap(f: (int, int) -> int, n: nat, m: nat, rows: int -> int, cols: int -> int)
    requires forall i :: 0 <= i < n ==> rows(i) == RowSum(f, i, m)
    requires forall j :: 0 <= j < m ==> cols(j) == ColSum(f, j, n)
    ensures Sum(rows, 0, n) == Sum(cols, 0, m)
  {
    if n == 0 {
      SumZero(cols, 0, m);
    } else {
      var before := j => ColSum(f, j, n - 1);
      var last := j => f(n - 1, j);
      SumSwap(f, n - 1, m, rows, before);
      forall j | 0 <= j < m ensures cols(j) == before(j) + last(j) {
        ColSumStep(f, j, n);
      }
      SumAdd(before, last, cols, 0, m);
      SumEqual(last, j => f(n - 1, j), 0, m);
    }
  }

  lemma ColSumStep(f: (int, int) -> int, j: int, n: nat)
    requires 0 < n
    ensures ColSum(f, j, n) == ColSum(f, j, n - 1) + f(n - 1, j)
  {
  }
}
