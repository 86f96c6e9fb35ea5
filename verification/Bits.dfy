/** Bitwise operators on natural numbers. */
module Bits {
  import opened Powers

  /** The operator |, bit by bit. */
  function Or(x: nat, y: nat): (r: nat)
    ensures r >= x && r >= y
    ensures r == 0 <==> x == 0 && y == 0
    decreases x + y
  {
    if x == 0 then y
    else if y == 0 then x
    else (if x % 2 == 1 || y % 2 == 1 then 1 else 0) + 2 * Or(x / 2, y / 2)
  }

  lemma {:induction false} OrBelow(x: nat, y: nat, k: nat)
    requires x < Pow(2, k) && y < Pow(2, k)
    ensures Or(x, y) < Pow(2, k)
    decreases k
  {
    if x != 0 && y != 0 { OrBelow(x / 2, y / 2, k - 1); }
  }

  /** Numbers without a common bit: | is +. */
  lemma {:induction false} OrDisjoint(x: nat, y: nat, k: nat)
    requires y < Pow(2, k)
    ensures Or(x * Pow(2, k), y) == x * Pow(2, k) + y
    decreases k
  {
    if k > 0 && y != 0 {
      hide Or;
      OrDisjoint(x, y / 2, k - 1);
      var z := x * Pow(2, k - 1);
      MulAssociates(x, 2, Pow(2, k - 1));
      MulAssociates(2, x, Pow(2, k - 1));
      OrEven(z, y);
    }
  }

  lemma OrEven(z: nat, y: nat)
    ensures Or(2 * z, y) == y % 2 + 2 * Or(z, y / 2)
  {
  }

  lemma OrOne(x: nat)
    ensures Or(x, 1) == if x % 2 == 0 then x + 1 else x
  {
    assert Or(x / 2, 0) == x / 2;
  }

  lemma {:induction false} OrCommutes(x: nat, y: nat)
    ensures Or(x, y) == Or(y, x)
    decreases x + y
  {
    if x != 0 && y != 0 { OrCommutes(x / 2, y / 2); }
  }
}
