/** Bitwise operations on naturals, bit by bit, and the two facts the repository relies on:
    masking with 2^e - 1 is a remainder, and xor undoes itself. */
module Bits {
  import opened Arith

  function And(a: nat, b: nat): (r: nat) {
    if a == 0 || b == 0 then 0
    else (if a % 2 == 1 && b % 2 == 1 then 1 else 0) + 2 * And(a / 2, b / 2)
  }

  function Xor(a: nat, b: nat): (r: nat)
    decreases a + b
  {
    if a == 0 then b
    else if b == 0 then a
    else (a + b) % 2 + 2 * Xor(a / 2, b / 2)
  }

  /** `h & (n - 1)` with n a power of two. */
  lemma {:induction false} MaskIsRemainder(h: nat, e: nat)
    ensures And(h, Pow2(e) - 1) == h % Pow2(e)
    decreases e
  {
    if e > 0 {
      var m := Pow2(e - 1);
      assert (Pow2(e) - 1) / 2 == m - 1 && (Pow2(e) - 1) % 2 == 1;
      MaskIsRemainder(h / 2, e - 1);
      HalfRemainder(h, m);
      if h == 0 { RemainderIs(0, Pow2(e), 0, 0); }
    }
  }

  lemma XorHalf(a: nat, b: nat)
    ensures Xor(a, b) % 2 == (a + b) % 2 && Xor(a, b) / 2 == Xor(a / 2, b / 2)
  {
    if a != 0 && b != 0 {
      var h := Xor(a / 2, b / 2);
      assert Xor(a, b) == 2 * h + (a + b) % 2;
      RemainderIs(Xor(a, b), 2, h, (a + b) % 2);
    }
  }

  /** A number is its lowest bit and the rest, and is zero only if both are. */
  lemma SameHalves(a: nat, b: nat)
    requires a % 2 == b % 2 && a / 2 == b / 2
    ensures a == b
  {
    DivisionOf(a, 2);
    DivisionOf(b, 2);
  }

  lemma ParityOfSums(x: nat, a: nat, b: nat)
    requires x % 2 == (a + b) % 2
    ensures (x + b) % 2 == a % 2
  {
    DivisionOf(x, 2);
    DivisionOf(a + b, 2);
    DivisionOf(a, 2);
    RemainderIs(x + b, 2, x / 2 + b + a / 2 - (a + b) / 2, a % 2);
  }

  lemma {:induction false} XorCancels(a: nat, b: nat)
    ensures Xor(Xor(a, b), b) == a
    decreases a + b
  {
    if a == 0 {
      XorSelf(b);
    } else if b != 0 {
      hide Xor;
      var x := Xor(a, b);
      XorHalf(a, b);
      XorHalf(x, b);
      XorCancels(a / 2, b / 2);
      ParityOfSums(x, a, b);
      SameHalves(Xor(x, b), a);
    }
  }

  lemma {:induction false} XorSelf(b: nat)
    ensures Xor(b, b) == 0
  {
    if b != 0 { XorSelf(b / 2); }
  }

  lemma XorZero(a: nat)
    ensures Xor(a, 0) == a && Xor(0, a) == a
  {
  }

  lemma {:induction false} XorCommutes(a: nat, b: nat)
    ensures Xor(a, b) == Xor(b, a)
    decreases a + b
  {
    if a != 0 && b != 0 { XorCommutes(a / 2, b / 2); }
  }

  lemma XorInjectiveLeft(a: nat, b: nat, c: nat)
    ensures a != b ==> Xor(a, c) != Xor(b, c)
  {
    XorCancels(a, c);
    XorCancels(b, c);
  }

  lemma XorInjective(a: nat, b: nat, c: nat)
    ensures b != c ==> Xor(a, b) != Xor(a, c)
  {
    XorCommutes(a, b);
    XorCommutes(a, c);
    XorInjectiveLeft(b, c, a);
  }

  /** a >> k. */
  function Shifted(a: nat, k: nat): nat {
    if k == 0 then a else Shifted(a / 2, k - 1)
  }

  lemma {:induction false} XorShifted(a: nat, b: nat, k: nat)
    ensures Shifted(Xor(a, b), k) == Xor(Shifted(a, k), Shifted(b, k))
    decreases k
  {
    if k > 0 {
      XorHalf(a, b);
      XorShifted(a / 2, b / 2, k - 1);
    }
  }
}
