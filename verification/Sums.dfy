/** Finite sums of reals over 0..n-1. */
module Sums {

  function Sum(n: nat, f: int -> real): real {
    if n == 0 then 0.0 else Sum(n - 1, f) + f(n - 1)
  }

  lemma SumLast(n: nat, f: int -> real)
    requires n > 0
    ensures Sum(n, f) == Sum(n - 1, f) + f(n - 1)
  {
  }

  lemma {:induction false} SumExt(n: nat, f: int -> real, g: int -> real)
    requires forall i :: 0 <= i < n ==> f(i) == g(i)
    ensures Sum(n, f) == Sum(n, g)
  {
    if n > 0 {
      SumExt(n - 1, f, g);
    }
  }

  lemma {:induction false} SumAdd(n: nat, f: int -> real, g: int -> real, h: int -> real)
    requires forall i :: 0 <= i < n ==> h(i) == f(i) + g(i)
    ensures Sum(n, h) == Sum(n, f) + Sum(n, g)
  {
    if n > 0 {
      SumAdd(n - 1, f, g, h);
    }
  }

  lemma {:induction false} SumScale(n: nat, c: real, f: int -> real, g: int -> real)
    requires forall i :: 0 <= i < n ==> g(i) == c * f(i)
    ensures Sum(n, g) == c * Sum(n, f)
  {
    if n > 0 {
      SumScale(n - 1, c, f, g);
    }
  }

  lemma {:induction false} SumMono(n: nat, f: int -> real, g: int -> real)
    requires forall i :: 0 <= i < n ==> f(i) <= g(i)
    ensures Sum(n, f) <= Sum(n, g)
  {
    if n > 0 {
      SumMono(n - 1, f, g);
    }
  }

  /** Where all terms of one sum are below the other's, the sums differ by no less than any one pair of terms. */
  lemma {:induction false} SumGap(n: nat, f: int -> real, g: int -> real, k: int)
    requires 0 <= k < n && forall i :: 0 <= i < n ==> f(i) <= g(i)
    ensures Sum(n, g) - Sum(n, f) >= g(k) - f(k)
  {
    if k == n - 1 {
      SumMono(n - 1, f, g);
    } else {
      SumGap(n - 1, f, g, k);
    }
  }

  lemma {:induction false} SumZero(n: nat, f: int -> real)
    requires forall i :: 0 <= i < n ==> f(i) == 0.0
    ensures Sum(n, f) == 0.0
  {
    if n > 0 {
      SumZero(n - 1, f);
    }
  }

  /** Only the term at `k` is nonzero. */
  lemma {:induction false} SumSingle(n: nat, f: int -> real, k: int)
    requires 0 <= k < n && forall i :: 0 <= i < n && i != k ==> f(i) == 0.0
    ensures Sum(n, f) == f(k)
  {
    if k == n - 1 {
      SumZero(n - 1, f);
    } else {
      SumSingle(n - 1, f, k);
    }
  }

  /** Changing the term at `k` changes the sum by the same amount. */
  lemma {:induction false} SumChange(n: nat, f: int -> real, g: int -> real, k: int)
    requires 0 <= k < n && forall i :: 0 <= i < n && i != k ==> f(i) == g(i)
    ensures Sum(n, g) == Sum(n, f) - f(k) + g(k)
  {
    if k == n - 1 {
      SumExt(n - 1, f, g);
    } else {
      SumChange(n - 1, f, g, k);
    }
  }

  function Inner(m: nat, f: (int, int) -> real): int -> real {
    i => Sum(m, j => f(i, j))
  }

  function Flip(f: (int, int) -> real): (int, int) -> real {
    (i, j) => f(j, i)
  }

  function Sum2(n: nat, m: nat, f: (int, int) -> real): real {
    Sum(n, Inner(m, f))
  }

  lemma {:induction false} SumSwap(n: nat, m: nat, f: (int, int) -> real)
    ensures Sum2(n, m, f) == Sum2(m, n, Flip(f))
  {
    if n == 0 {
      SumZero(m, Inner(0, Flip(f)));
    } else {
      SumSwap(n - 1, m, f);
      SumAdd(m, Inner(n - 1, Flip(f)), j => f(n - 1, j), Inner(n, Flip(f)));
    }
  }

  lemma {:induction false} Sum2Ext(n: nat, m: nat, f: (int, int) -> real, g: (int, int) -> real)
    requires forall i, j :: 0 <= i < n && 0 <= j < m ==> f(i, j) == g(i, j)
    ensures Sum2(n, m, f) == Sum2(n, m, g)
  {
    forall i | 0 <= i < n
      ensures Inner(m, f)(i) == Inner(m, g)(i)
    {
      SumExt(m, j => f(i, j), j => g(i, j));
    }
    SumExt(n, Inner(m, f), Inner(m, g));
  }

  lemma Sum2Add(n: nat, m: nat, f: (int, int) -> real, g: (int, int) -> real, h: (int, int) -> real)
    requires forall i, j :: 0 <= i < n && 0 <= j < m ==> h(i, j) == f(i, j) + g(i, j)
    ensures Sum2(n, m, h) == Sum2(n, m, f) + Sum2(n, m, g)
  {
    forall i | 0 <= i < n
      ensures Inner(m, h)(i) == Inner(m, f)(i) + Inner(m, g)(i)
    {
      SumAdd(m, j => f(i, j), j => g(i, j), j => h(i, j));
    }
    SumAdd(n, Inner(m, f), Inner(m, g), Inner(m, h));
  }

  lemma Sum2Mono(n: nat, m: nat, f: (int, int) -> real, g: (int, int) -> real)
    requires forall i, j :: 0 <= i < n && 0 <= j < m ==> f(i, j) <= g(i, j)
    ensures Sum2(n, m, f) <= Sum2(n, m, g)
  {
    forall i | 0 <= i < n
      ensures Inner(m, f)(i) <= Inner(m, g)(i)
    {
      SumMono(m, j => f(i, j), j => g(i, j));
    }
    SumMono(n, Inner(m, f), Inner(m, g));
  }

  lemma Sum2Gap(n: nat, m: nat, f: (int, int) -> real, g: (int, int) -> real, x: int, y: int)
    requires forall i, j :: 0 <= i < n && 0 <= j < m ==> f(i, j) <= g(i, j)
    requires 0 <= x < n && 0 <= y < m
    ensures Sum2(n, m, g) - Sum2(n, m, f) >= g(x, y) - f(x, y)
  {
    forall i | 0 <= i < n
      ensures Inner(m, f)(i) <= Inner(m, g)(i)
    {
      SumMono(m, j => f(i, j), j => g(i, j));
    }
    SumGap(n, Inner(m, f), Inner(m, g), x);
    SumGap(m, j => f(x, j), j => g(x, j), y);
  }

  /** A skew-symmetric square array sums to zero. */
  lemma SkewSum(n: nat, f: (int, int) -> real)
    requires forall i, j :: 0 <= i < n && 0 <= j < n ==> f(i, j) == -f(j, i)
    ensures Sum2(n, n, f) == 0.0
  {
    SumSwap(n, n, f);
    var zero := (i: int, j: int) => 0.0;
    Sum2Add(n, n, f, Flip(f), zero);
    Sum2Zero(n, n, zero);
  }

  lemma Sum2Zero(n: nat, m: nat, f: (int, int) -> real)
    requires forall i, j :: 0 <= i < n && 0 <= j < m ==> f(i, j) == 0.0
    ensures Sum2(n, m, f) == 0.0
  {
    forall i | 0 <= i < n
      ensures Inner(m, f)(i) == 0.0
    {
      SumZero(m, j => f(i, j));
    }
    SumZero(n, Inner(m, f));
  }
}
