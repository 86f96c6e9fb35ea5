/** Powers with integer exponents over the reals. */
module Reals {
  import opened Powers

  /** b^k, for a negative k as well. */
  function Exp(b: int, k: int): real
    requires b >= 1
    decreases if k < 0 then -k else k
  {
    if k == 0 then 1.0
    else if k > 0 then b as real * Exp(b, k - 1)
    else Exp(b, k + 1) / b as real
  }

  lemma RealProduct(x: int, y: int)
    ensures (x * y) as real == x as real * y as real
  {
  }

  lemma Associates(x: real, y: real, z: real)
    ensures (x * y) * z == x * (y * z)
  {
  }

  lemma Swap(x: real, y: real, z: real)
    ensures (x * y) * z == (x * z) * y
  {
    Associates(x, y, z);
    Associates(x, z, y);
  }

  lemma Grows(x: real, y: real, z: real)
    requires x <= y && z >= 0.0
    ensures x * z <= y * z
  {
  }

  lemma GrowsStrictly(x: real, y: real, z: real)
    requires x < y && z > 0.0
    ensures x * z < y * z
  {
  }

  lemma ExpStep(b: int, k: int)
    requires b >= 1
    ensures Exp(b, k + 1) == b as real * Exp(b, k)
  {
    if k < 0 { Cancel(Exp(b, k + 1), b as real); }
  }

  lemma Cancel(x: real, y: real)
    requires y > 0.0
    ensures y * (x / y) == x
  {
  }

  lemma CancelLeft(b: real, x: real, y: real)
    requires b > 0.0 && b * x == b * y
    ensures x == y
  {
    if x < y { GrowsStrictly(x, y, b); } else if y < x { GrowsStrictly(y, x, b); }
  }

  lemma {:induction false} ExpPositive(b: int, k: int)
    requires b >= 1
    ensures Exp(b, k) > 0.0
    decreases if k < 0 then -k else k
  {
    if k > 0 { ExpPositive(b, k - 1); } else if k < 0 { ExpPositive(b, k + 1); }
  }

  lemma {:induction false} ExpAdd(b: int, i: int, j: int)
    requires b >= 1
    ensures Exp(b, i + j) == Exp(b, i) * Exp(b, j)
    decreases if j < 0 then -j else j
  {
    hide Exp;
    if j > 0 {
      ExpAdd(b, i, j - 1);
      ExpStep(b, i + j - 1);
      ExpStep(b, j - 1);
      Associates(b as real, Exp(b, i), Exp(b, j - 1));
      Associates(Exp(b, i), b as real, Exp(b, j - 1));
    } else if j < 0 {
      ExpAdd(b, i, j + 1);
      ExpStep(b, i + j);
      ExpStep(b, j);
      Associates(b as real, Exp(b, i), Exp(b, j));
      Associates(Exp(b, i), b as real, Exp(b, j));
      CancelLeft(b as real, Exp(b, i + j), Exp(b, i) * Exp(b, j));
    } else {
      ExpZero(b);
    }
  }

  lemma ExpZero(b: int)
    requires b >= 1
    ensures Exp(b, 0) == 1.0
    ensures Exp(b, 1) == b as real
  {
  }

  lemma {:induction false} ExpIsPow(b: int, n: nat)
    requires b >= 1
    ensures Exp(b, n) == Pow(b, n) as real
  {
    if n > 0 {
      ExpIsPow(b, n - 1);
      RealProduct(b, Pow(b, n - 1));
    }
  }

  lemma ExpInverse(b: int, k: int)
    requires b >= 1
    ensures Exp(b, k) * Exp(b, -k) == 1.0
  {
    ExpAdd(b, k, -k);
    ExpZero(b);
  }

  lemma {:induction false} ExpOfProduct(a: int, b: int, k: int)
    requires a >= 1 && b >= 1
    ensures a * b >= 1
    ensures Exp(a * b, k) == Exp(a, k) * Exp(b, k)
    decreases if k < 0 then -k else k
  {
    hide Exp;
    MulPositive(a, b);
    RealProduct(a, b);
    ExpZero(a);
    ExpZero(b);
    ExpZero(a * b);
    if k > 0 {
      ExpOfProduct(a, b, k - 1);
      ExpStep(a, k - 1);
      ExpStep(b, k - 1);
      ExpStep(a * b, k - 1);
      Exchange(a as real, b as real, Exp(a, k - 1), Exp(b, k - 1));
    } else if k < 0 {
      ExpOfProduct(a, b, k + 1);
      ExpStep(a, k);
      ExpStep(b, k);
      ExpStep(a * b, k);
      Exchange(a as real, b as real, Exp(a, k), Exp(b, k));
      CancelLeft((a * b) as real, Exp(a * b, k), Exp(a, k) * Exp(b, k));
    }
  }

  lemma Exchange(a: real, b: real, x: real, y: real)
    ensures (a * b) * (x * y) == (a * x) * (b * y)
  {
    Associates(a, b, x * y);
    Associates(b, x, y);
    Associates(x, b, y);
    Associates(a, x, b * y);
  }

  lemma {:induction false} ExpMonotone(b: int, i: int, j: int)
    requires b >= 1 && i <= j
    ensures Exp(b, i) <= Exp(b, j)
    decreases j - i
  {
    hide Exp;
    if i < j {
      ExpMonotone(b, i, j - 1);
      ExpStep(b, j - 1);
      ExpPositive(b, j - 1);
      TimesGrows(b, Exp(b, j - 1), Exp(b, j));
    }
  }

  lemma TimesGrows(b: int, x: real, y: real)
    requires b >= 1 && x > 0.0 && y == b as real * x
    ensures x <= y
  {
    Grows(1.0, b as real, x);
    assert 1.0 * x == x;
  }

  lemma {:induction false} ExpOfPower(b: int, s: nat, k: int)
    requires b >= 1
    ensures Pow(b, s) >= 1
    ensures Exp(Pow(b, s), k) == Exp(b, s * k)
    decreases s
  {
    hide Exp;
    PowPositive(b, s);
    if s == 0 {
      ExpOfOne(k);
      ExpZero(b);
    } else {
      ExpOfPower(b, s - 1, k);
      ExpOfProduct(b, Pow(b, s - 1), k);
      ExpAdd(b, k, (s - 1) * k);
      Distribute(s - 1, 1, k);
    }
  }

  lemma {:induction false} ExpOfOne(k: int)
    ensures Exp(1, k) == 1.0
    decreases if k < 0 then -k else k
  {
    if k > 0 { ExpOfOne(k - 1); } else if k < 0 { ExpOfOne(k + 1); }
  }
}
