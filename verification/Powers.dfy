/** Powers with natural exponents, and integer arithmetic around them. */
module Powers {

  function Pow(b: int, n: nat): int {
    if n == 0 then 1 else b * Pow(b, n - 1)
  }

  lemma {:induction false} PowPositive(b: int, n: nat)
    requires b > 0
    ensures Pow(b, n) > 0
  {
    if n > 0 {
      PowPositive(b, n - 1);
      MulPositive(b, Pow(b, n - 1));
    }
  }

  lemma MulPositive(x: int, y: int)
    requires x > 0 && y > 0
    ensures x * y > 0
  {
  }

  lemma {:induction false} PowAdd(b: int, m: nat, n: nat)
    ensures Pow(b, m + n) == Pow(b, m) * Pow(b, n)
  {
    if m > 0 {
      PowAdd(b, m - 1, n);
      MulAssociates(b, Pow(b, m - 1), Pow(b, n));
    }
  }

  lemma MulAssociates(x: int, y: int, z: int)
    ensures (x * y) * z == x * (y * z)
  {
  }

  lemma {:induction false} PowOfProduct(a: int, b: int, n: nat)
    ensures Pow(a * b, n) == Pow(a, n) * Pow(b, n)
  {
    if n > 0 {
      PowOfProduct(a, b, n - 1);
      var x, y := Pow(a, n - 1), Pow(b, n - 1);
      MulSwap(a, b, x, y);
    }
  }

  lemma MulSwap(a: int, b: int, x: int, y: int)
    ensures (a * b) * (x * y) == (a * x) * (b * y)
  {
    MulAssociates(a, b, x * y);
    MulAssociates(b, x, y);
    MulAssociates(x, b, y);
    MulAssociates(a, x, b * y);
  }

  lemma {:induction false} PowMonotone(b: int, m: nat, n: nat)
    requires b >= 1 && m <= n
    ensures Pow(b, m) <= Pow(b, n)
    decreases n
  {
    if m < n {
      PowMonotone(b, m, n - 1);
      PowPositive(b, n - 1);
      MulGrows(b, Pow(b, n - 1));
    }
  }

  lemma MulGrows(b: int, x: int)
    requires b >= 1 && x >= 0
    ensures x <= b * x
  {
  }

  lemma {:induction false} PowBase(a: int, b: int, n: nat)
    requires 0 <= a <= b
    ensures 0 <= Pow(a, n) <= Pow(b, n)
  {
    if n > 0 {
      PowBase(a, b, n - 1);
      MulMonotone(a, b, Pow(a, n - 1), Pow(b, n - 1));
    }
  }

  lemma MulMonotone(a: int, b: int, x: int, y: int)
    requires 0 <= a <= b && 0 <= x <= y
    ensures 0 <= a * x <= b * y
  {
  }

  lemma DivideExactly(a: int, b: int)
    requires b > 0
    ensures a == b * (a / b) + a % b
    ensures 0 <= a % b < b
    ensures a >= 0 ==> a / b >= 0
  {
  }

  lemma QuotientBelow(a: int, b: int, c: int)
    requires b > 0 && 0 <= a < b * c
    ensures 0 <= a / b < c
  {
    DivideExactly(a, b);
    if a / b >= c { MulMonotoneLeft(b, c, a / b); }
  }

  lemma MulMonotoneLeft(b: int, x: int, y: int)
    requires b > 0 && x <= y
    ensures b * x <= b * y
  {
  }

  lemma Distribute(x: int, y: int, b: int)
    ensures (x + y) * b == x * b + y * b
  {
  }

  lemma Unique(v: int, c: int, q: int, r: int)
    requires c > 0 && v == c * q + r && 0 <= r < c
    ensures v / c == q && v % c == r
  {
    DivideExactly(v, c);
    var x := v / c;
    assert c * (x - q) == r - v % c;
    if x < q { MulMonotoneLeft(c, x - q, -1); }
    if x > q { MulMonotoneLeft(c, 1, x - q); }
  }

  lemma DivideTwice(v: nat, a: int, b: int, c: int)
    requires a > 0 && b > 0 && c == a * b
    ensures c > 0
    ensures v / c == v / a / b
    ensures v % c == v % a + a * (v / a % b)
  {
    DivideExactly(v, a);
    DivideExactly(v / a, b);
    var q, r := v / a / b, v % a + a * (v / a % b);
    MulAssociates(a, b, q);
    Distribute3(a, b, q, v / a % b);
    MulMonotoneLeft(a, v / a % b, b - 1);
    MulPositive(a, b);
    Unique(v, c, q, r);
  }

  lemma Distribute3(a: int, b: int, q: int, r: int)
    ensures a * (b * q + r) == a * (b * q) + a * r
    ensures a * (b - 1) == a * b - a
  {
  }

  lemma SmallDivision(v: nat, p: int)
    requires v < p
    ensures v / p == 0 && v % p == v
  {
  }
}
