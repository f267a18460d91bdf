/*
 * Bitwise AND and OR on non-negative integers, defined one bit at a time,
 * with the lemmas that let the rest of the model reason about individual
 * bits of a flag or permission word.
 */
module Bits {

  function Pow2(k: nat): (p: nat)
    ensures p >= 1
  {
    if k == 0 then 1 else 2 * Pow2(k - 1)
  }

  /** Bit k of w, counting from the least significant bit. */
  predicate TestBit(w: nat, k: nat)
  {
    if k == 0 then w % 2 == 1 else TestBit(w / 2, k - 1)
  }

  /** C's a | b. */
  function Or(a: nat, b: nat): nat
    decreases a + b
  {
    if a == 0 then b
    else if b == 0 then a
    else 2 * Or(a / 2, b / 2) + (if a % 2 == 1 || b % 2 == 1 then 1 else 0)
  }

  /** C's a & b. */
  function And(a: nat, b: nat): (r: nat)
    ensures r <= a && r <= b
    decreases a + b
  {
    if a == 0 || b == 0 then 0
    else 2 * And(a / 2, b / 2) + (if a % 2 == 1 && b % 2 == 1 then 1 else 0)
  }

  /** C's (w & m) != 0. */
  predicate HasBit(w: nat, m: nat)
  {
    And(w, m) != 0
  }

  lemma {:induction false} ZeroBit(k: nat)
    ensures !TestBit(0, k)
  {
    if k > 0 { ZeroBit(k - 1); }
  }

  lemma {:induction false} OrBit(a: nat, b: nat, k: nat)
    ensures TestBit(Or(a, b), k) <==> TestBit(a, k) || TestBit(b, k)
    decreases a + b
  {
    if a == 0 || b == 0 {
      ZeroBit(k);
    } else {
      var r := Or(a / 2, b / 2);
      var c := if a % 2 == 1 || b % 2 == 1 then 1 else 0;
      assert Or(a, b) == 2 * r + c;
      assert (2 * r + c) / 2 == r && (2 * r + c) % 2 == c;
      if k > 0 {
        OrBit(a / 2, b / 2, k - 1);
      }
    }
  }

  lemma {:induction false} AndBit(a: nat, b: nat, k: nat)
    ensures TestBit(And(a, b), k) <==> TestBit(a, k) && TestBit(b, k)
    decreases a + b
  {
    if a == 0 || b == 0 {
      ZeroBit(k);
    } else {
      var r := And(a / 2, b / 2);
      var c := if a % 2 == 1 && b % 2 == 1 then 1 else 0;
      assert And(a, b) == 2 * r + c;
      assert (2 * r + c) / 2 == r && (2 * r + c) % 2 == c;
      if k > 0 {
        AndBit(a / 2, b / 2, k - 1);
      }
    }
  }

  /** Two numbers with the same bits are equal. */
  lemma {:induction false} BitsEqual(a: nat, b: nat)
    requires forall k: nat :: TestBit(a, k) == TestBit(b, k)
    ensures a == b
    decreases a + b
  {
    if a != 0 || b != 0 {
      assert TestBit(a, 0) == TestBit(b, 0);
      forall k: nat ensures TestBit(a / 2, k) == TestBit(b / 2, k) {
        assert TestBit(a, k + 1) == TestBit(b, k + 1);
      }
      if a / 2 + b / 2 < a + b {
        BitsEqual(a / 2, b / 2);
      }
    }
  }

  /** A non-zero number has a bit set. */
  lemma {:induction false} SomeBit(a: nat) returns (k: nat)
    requires a != 0
    ensures TestBit(a, k)
  {
    if a % 2 == 1 {
      k := 0;
    } else {
      k := SomeBit(a / 2);
      k := k + 1;
    }
  }

  lemma {:induction false} Pow2Bit(j: nat, k: nat)
    ensures TestBit(Pow2(j), k) <==> j == k
  {
    if j == 0 {
      if k > 0 { ZeroBit(k - 1); }
    } else if k > 0 {
      Pow2Bit(j - 1, k - 1);
    }
  }

  /** Adding a power of two above a value sets that one bit and keeps the others. */
  lemma {:induction false} AddHighBit(a: nat, j: nat, k: nat)
    requires a < Pow2(j)
    ensures TestBit(a + Pow2(j), k) <==> TestBit(a, k) || k == j
  {
    if j == 0 {
      Pow2Bit(0, k);
      ZeroBit(k);
    } else if k > 0 {
      assert (a + Pow2(j)) / 2 == a / 2 + Pow2(j - 1);
      AddHighBit(a / 2, j - 1, k - 1);
    }
  }

  /** Testing a one-bit mask tests that bit. */
  lemma HasBitPow2(w: nat, j: nat)
    ensures HasBit(w, Pow2(j)) <==> TestBit(w, j)
  {
    Pow2Bit(j, j);
    AndBit(w, Pow2(j), j);
    if TestBit(w, j) {
      ZeroBit(j);
    } else if And(w, Pow2(j)) != 0 {
      var k := SomeBit(And(w, Pow2(j)));
      AndBit(w, Pow2(j), k);
      Pow2Bit(j, k);
    }
  }

  /** The powers of two up to the word size. */
  lemma Pow2Values()
    ensures Pow2(0) == 0x1
    ensures Pow2(1) == 0x2
    ensures Pow2(2) == 0x4
    ensures Pow2(3) == 0x8
    ensures Pow2(4) == 0x10
    ensures Pow2(5) == 0x20
    ensures Pow2(6) == 0x40
    ensures Pow2(7) == 0x80
    ensures Pow2(8) == 0x100
    ensures Pow2(9) == 0x200
    ensures Pow2(10) == 0x400
    ensures Pow2(11) == 0x800
    ensures Pow2(12) == 0x1000
    ensures Pow2(13) == 0x2000
    ensures Pow2(14) == 0x4000
    ensures Pow2(15) == 0x8000
    ensures Pow2(16) == 0x10000
    ensures Pow2(17) == 0x20000
    ensures Pow2(18) == 0x40000
    ensures Pow2(19) == 0x80000
    ensures Pow2(20) == 0x100000
    ensures Pow2(21) == 0x200000
    ensures Pow2(22) == 0x400000
    ensures Pow2(23) == 0x800000
    ensures Pow2(24) == 0x1000000
    ensures Pow2(25) == 0x2000000
    ensures Pow2(26) == 0x4000000
    ensures Pow2(27) == 0x8000000
    ensures Pow2(28) == 0x10000000
    ensures Pow2(29) == 0x20000000
    ensures Pow2(30) == 0x40000000
    ensures Pow2(31) == 0x80000000
    ensures Pow2(32) == 0x1_0000_0000
  {
    assert Pow2(1) == 2 * Pow2(0);
    assert Pow2(2) == 2 * Pow2(1);
    assert Pow2(3) == 2 * Pow2(2);
    assert Pow2(4) == 2 * Pow2(3);
    assert Pow2(5) == 2 * Pow2(4);
    assert Pow2(6) == 2 * Pow2(5);
    assert Pow2(7) == 2 * Pow2(6);
    assert Pow2(8) == 2 * Pow2(7);
    assert Pow2(9) == 2 * Pow2(8);
    assert Pow2(10) == 2 * Pow2(9);
    assert Pow2(11) == 2 * Pow2(10);
    assert Pow2(12) == 2 * Pow2(11);
    assert Pow2(13) == 2 * Pow2(12);
    assert Pow2(14) == 2 * Pow2(13);
    assert Pow2(15) == 2 * Pow2(14);
    assert Pow2(16) == 2 * Pow2(15);
    assert Pow2(17) == 2 * Pow2(16);
    assert Pow2(18) == 2 * Pow2(17);
    assert Pow2(19) == 2 * Pow2(18);
    assert Pow2(20) == 2 * Pow2(19);
    assert Pow2(21) == 2 * Pow2(20);
    assert Pow2(22) == 2 * Pow2(21);
    assert Pow2(23) == 2 * Pow2(22);
    assert Pow2(24) == 2 * Pow2(23);
    assert Pow2(25) == 2 * Pow2(24);
    assert Pow2(26) == 2 * Pow2(25);
    assert Pow2(27) == 2 * Pow2(26);
    assert Pow2(28) == 2 * Pow2(27);
    assert Pow2(29) == 2 * Pow2(28);
    assert Pow2(30) == 2 * Pow2(29);
    assert Pow2(31) == 2 * Pow2(30);
    assert Pow2(32) == 2 * Pow2(31);
  }

  lemma {:induction false} OrBelow(a: nat, b: nat, n: nat)
    requires a < Pow2(n) && b < Pow2(n)
    ensures Or(a, b) < Pow2(n)
    decreases a + b
  {
    if a != 0 && b != 0 {
      OrBelow(a / 2, b / 2, n - 1);
    }
  }

  /** An OR of two 32-bit words is a 32-bit word. */
  lemma OrWord(a: nat, b: nat)
    requires a < 0x1_0000_0000 && b < 0x1_0000_0000
    ensures Or(a, b) < 0x1_0000_0000
  {
    Pow2Values();
    OrBelow(a, b, 32);
  }

  lemma AndOrDistrib(a: nat, b: nat, m: nat)
    ensures And(Or(a, b), m) == Or(And(a, m), And(b, m))
  {
    forall k: nat ensures TestBit(And(Or(a, b), m), k) == TestBit(Or(And(a, m), And(b, m)), k) {
      AndBit(Or(a, b), m, k);
      OrBit(a, b, k);
      OrBit(And(a, m), And(b, m), k);
      AndBit(a, m, k);
      AndBit(b, m, k);
    }
    BitsEqual(And(Or(a, b), m), Or(And(a, m), And(b, m)));
  }

  lemma {:induction false} Pow2Mono(j: nat, k: nat)
    requires j <= k
    ensures Pow2(j) <= Pow2(k)
    decreases k
  {
    if j < k {
      Pow2Mono(j, k - 1);
    }
  }

  /** w shifted right by j places. */
  function Shr(w: nat, j: nat): nat
  {
    if j == 0 then w else Shr(w / 2, j - 1)
  }

  lemma {:induction false} ShiftBit(w: nat, j: nat, k: nat)
    ensures TestBit(w, j + k) == TestBit(Shr(w, j), k)
  {
    if j > 0 {
      ShiftBit(w / 2, j - 1, k);
    }
  }

  lemma {:induction false} ShrBelow(w: nat, n: nat)
    requires w < Pow2(n)
    ensures Shr(w, n) == 0
  {
    if n > 0 {
      ShrBelow(w / 2, n - 1);
    }
  }

  /** A number below 2^k has no bit k or higher. */
  lemma HighBitClear(w: nat, n: nat, k: nat)
    requires w < Pow2(n) && n <= k
    ensures !TestBit(w, k)
  {
    ShiftBit(w, n, k - n);
    ShrBelow(w, n);
    ZeroBit(k - n);
  }
}
