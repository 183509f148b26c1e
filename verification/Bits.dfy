/**
 Bitwise operations on natural numbers, as the unsigned words of the source use
 them, and the cases in which they are plain arithmetic.
*/
module Bits {
  import opened Arithmetic

  function Or(x: nat, y: nat): nat {
    if x == 0 then y
    else if y == 0 then x
    else (if x % 2 == 1 || y % 2 == 1 then 1 else 0) + 2 * Or(x / 2, y / 2)
  }

  function And(x: nat, y: nat): nat {
    if x == 0 || y == 0 then 0
    else (if x % 2 == 1 && y % 2 == 1 then 1 else 0) + 2 * And(x / 2, y / 2)
  }

  /** Or-ing a value into bits that are all clear adds it. */
  lemma {:induction false} OrDisjoint(high: nat, low: nat, k: nat)
    requires low < Pow(2, k)
    ensures Or(high * Pow(2, k), low) == high * Pow(2, k) + low
    ensures Or(low, high * Pow(2, k)) == high * Pow(2, k) + low
  {
    var x := high * Pow(2, k);
    if low == 0 || x == 0 {
    } else {
      var half := high * Pow(2, k - 1);
      assert x == 2 * half by { MulAssoc(high, 2, Pow(2, k - 1)); }
      OrDisjoint(high, low / 2, k - 1);
    }
  }

  /** Masking with 2^k - 1 keeps the low k bits. */
  lemma {:induction false} AndMask(x: nat, k: nat)
    ensures And(x, Pow(2, k) - 1) == x % Pow(2, k)
  {
    if k == 0 {
    } else if x == 0 {
    } else {
      var p := Pow(2, k - 1);
      AndMask(x / 2, k - 1);
      HalfRemainder(x, p);
      AllOnes(p);
    }
  }

  lemma AllOnes(p: nat)
    requires p > 0
    ensures (2 * p - 1) / 2 == p - 1 && (2 * p - 1) % 2 == 1
  {
  }

  lemma HalfRemainder(x: nat, p: nat)
    requires p > 0
    ensures x % (2 * p) == x % 2 + 2 * (x / 2 % p)
  {
    var q, r := x / 2 / p, x / 2 % p;
    assert x / 2 == p * q + r;
    MulAssoc(q, 2, p);
    DivUnique(x, 2 * p, q, 2 * r + x % 2);
  }
}
