/** Bitwise operations on natural numbers of any width, and their meaning as arithmetic. */
module Bits {
  function Pow2(n: nat): (p: nat)
    ensures p > 0
  {
    if n == 0 then 1 else 2 * Pow2(n - 1)
  }

  function And(a: nat, b: nat): nat {
    if a == 0 || b == 0 then 0
    else (if a % 2 == 1 && b % 2 == 1 then 1 else 0) + 2 * And(a / 2, b / 2)
  }

  function Or(a: nat, b: nat): nat {
    if a == 0 then b else if b == 0 then a
    else (if a % 2 == 1 || b % 2 == 1 then 1 else 0) + 2 * Or(a / 2, b / 2)
  }

  function Xor(a: nat, b: nat): nat {
    if a == 0 then b else if b == 0 then a
    else (if a % 2 != b % 2 then 1 else 0) + 2 * Xor(a / 2, b / 2)
  }

  /** v << k, v >> k, and the low k bits of v. */
  function Shl(v: nat, k: nat): nat
    decreases k
  {
    if k == 0 then v else 2 * Shl(v, k - 1)
  }

  function Shr(v: nat, k: nat): nat
    decreases k
  {
    if k == 0 then v else Shr(v / 2, k - 1)
  }

  function Low(v: nat, k: nat): (r: nat)
    ensures r < Pow2(k)
    decreases k
  {
    if k == 0 then 0 else v % 2 + 2 * Low(v / 2, k - 1)
  }

  /** The number of bits that are set. */
  function PopCount(n: nat): nat {
    if n == 0 then 0 else n % 2 + PopCount(n / 2)
  }

  // ----- Shifts and low bits

  lemma {:induction false} SplitAt(v: nat, k: nat)
    ensures v == Shl(Shr(v, k), k) + Low(v, k)
    decreases k
  {
    if k > 0 {
      SplitAt(v / 2, k - 1);
    }
  }

  lemma ShlStep(v: nat, k: nat)
    ensures Shl(v, k + 1) == 2 * Shl(v, k)
  {
  }

  lemma {:induction false} ShlAdds(a: nat, b: nat, k: nat)
    ensures Shl(a + b, k) == Shl(a, k) + Shl(b, k)
    decreases k
  {
    if k > 0 {
      ShlAdds(a, b, k - 1);
    }
  }

  lemma ShlSum(a: nat, b: nat, c: nat, k: nat)
    requires c == a + b
    ensures Shl(c, k) == Shl(a, k) + Shl(b, k)
  {
    ShlAdds(a, b, k);
  }

  lemma {:induction false} ShlOfPow2(m: nat, k: nat)
    ensures Shl(Pow2(m), k) == Pow2(m + k)
    decreases k
  {
    if k > 0 {
      ShlOfPow2(m, k - 1);
    }
  }

  lemma {:induction false} ShlZero(k: nat)
    ensures Shl(0, k) == 0
  {
    if k > 0 {
      ShlZero(k - 1);
    }
  }

  /** What has m bits has m + k bits once shifted by k, with the low k of them free. */
  lemma ShlBound(v: nat, m: nat, k: nat)
    requires v < Pow2(m)
    ensures Shl(v, k) + Pow2(k) <= Pow2(m + k)
  {
    ShlOfPow2(m, k);
    ShlAdds(v, Pow2(m) - v, k);
    ShlAdds(1, Pow2(m) - v - 1, k);
    ShlOfPow2(0, k);
  }

  lemma {:induction false} ShrBound(v: nat, m: nat, k: nat)
    requires v < Pow2(m + k)
    ensures Shr(v, k) < Pow2(m)
    decreases k
  {
    if k > 0 {
      ShrBound(v / 2, m, k - 1);
    }
  }

  lemma {:induction false} LowOfSmall(v: nat, k: nat)
    requires v < Pow2(k)
    ensures Low(v, k) == v
    decreases k
  {
    if k > 0 {
      LowOfSmall(v / 2, k - 1);
    }
  }

  /** Bits from k up do not reach the low k bits. */
  lemma {:induction false} LowIgnoresHigh(a: nat, b: nat, k: nat)
    ensures Low(Shl(a, k) + b, k) == Low(b, k)
    decreases k
  {
    if k > 0 {
      assert (2 * Shl(a, k - 1) + b) / 2 == Shl(a, k - 1) + b / 2;
      LowIgnoresHigh(a, b / 2, k - 1);
    }
  }

  /** The next bit of v, above its low k bits. */
  lemma {:induction false} OneBitMore(v: nat, k: nat) returns (bit: bool)
    ensures Shr(v, k) == 2 * Shr(v, k + 1) + (if bit then 1 else 0)
    ensures Low(v, k + 1) == Low(v, k) + (if bit then Pow2(k) else 0)
    decreases k
  {
    if k > 0 {
      bit := OneBitMore(v / 2, k - 1);
    } else {
      bit := v % 2 == 1;
      assert Low(v, 1) == v % 2 + 2 * Low(v / 2, 0);
      assert Shr(v, 1) == Shr(v / 2, 0);
    }
  }

  /** Two numbers split at bit k are equal exactly when both parts are. */
  lemma SplitUnique(a: nat, b: nat, c: nat, d: nat, k: nat)
    requires b < Pow2(k) && d < Pow2(k)
    ensures Shl(a, k) + b == Shl(c, k) + d <==> a == c && b == d
  {
    hide Shl, Low;
    LowIgnoresHigh(a, b, k);
    LowIgnoresHigh(c, d, k);
    LowOfSmall(b, k);
    LowOfSmall(d, k);
    ShlInjective(a, c, k);
  }

  lemma {:induction false} ShlInjective(a: nat, c: nat, k: nat)
    ensures Shl(a, k) == Shl(c, k) <==> a == c
    decreases k
  {
    if k > 0 {
      ShlInjective(a, c, k - 1);
    }
  }

  /** Shifting as arithmetic. */
  lemma {:induction false} ShlMultiplies(v: nat, k: nat)
    ensures Shl(v, k) == v * Pow2(k)
    decreases k
  {
    if k > 0 {
      ShlMultiplies(v, k - 1);
      assert v * (2 * Pow2(k - 1)) == 2 * (v * Pow2(k - 1));
    }
  }

  lemma ShrDivides(v: nat, k: nat)
    ensures Shr(v, k) == v / Pow2(k) && Low(v, k) == v % Pow2(k)
  {
    hide Shl, Shr, Low, Pow2;
    SplitAt(v, k);
    ShlMultiplies(Shr(v, k), k);
    QuotientIs(v, Pow2(k), Shr(v, k), Low(v, k));
  }

  lemma QuotientIs(v: nat, d: nat, q: nat, r: nat)
    requires r < d && v == q * d + r
    ensures v / d == q && v % d == r
  {
    MultiplesApart(v / d, q, d);
    MultiplesApart(q, v / d, d);
  }

  lemma {:induction false} MultiplesApart(p: nat, q: nat, d: nat)
    ensures p < q ==> p * d + d <= q * d
    decreases q
  {
    if p < q {
      MultiplesApart(p, q - 1, d);
      assert q * d == (q - 1) * d + d;
    }
  }

  // ----- Single bits

  predicate Bit(v: nat, i: nat) {
    if i == 0 then v % 2 == 1 else Bit(v / 2, i - 1)
  }

  lemma {:induction false} NoBits(i: nat)
    ensures !Bit(0, i)
  {
    if i > 0 {
      NoBits(i - 1);
    }
  }

  lemma {:induction false} AndBits(a: nat, b: nat, i: nat)
    ensures Bit(And(a, b), i) <==> Bit(a, i) && Bit(b, i)
    decreases i
  {
    if a == 0 || b == 0 {
      NoBits(i);
    } else if i > 0 {
      AndBits(a / 2, b / 2, i - 1);
    }
  }

  lemma {:induction false} OrBits(a: nat, b: nat, i: nat)
    ensures Bit(Or(a, b), i) <==> Bit(a, i) || Bit(b, i)
    decreases i
  {
    if a == 0 || b == 0 {
      NoBits(i);
    } else if i > 0 {
      OrBits(a / 2, b / 2, i - 1);
    }
  }

  lemma {:induction false} XorBits(a: nat, b: nat, i: nat)
    ensures Bit(Xor(a, b), i) <==> Bit(a, i) != Bit(b, i)
    decreases i
  {
    if a == 0 || b == 0 {
      NoBits(i);
    } else if i > 0 {
      XorBits(a / 2, b / 2, i - 1);
    }
  }

  lemma {:induction false} ShlBits(v: nat, k: nat, i: nat)
    ensures Bit(Shl(v, k), i) <==> k <= i && Bit(v, i - k)
    decreases k
  {
    if 0 < k {
      if 0 < i {
        ShlBits(v, k - 1, i - 1);
      }
    }
  }

  lemma {:induction false} ShrBits(v: nat, k: nat, i: nat)
    ensures Bit(Shr(v, k), i) <==> Bit(v, i + k)
    decreases k
  {
    if k > 0 {
      ShrBits(v / 2, k - 1, i);
    }
  }

  lemma {:induction false} LowBits(v: nat, k: nat, i: nat)
    ensures Bit(Low(v, k), i) <==> i < k && Bit(v, i)
    decreases k
  {
    if k == 0 {
      NoBits(i);
    } else if i > 0 {
      LowBits(v / 2, k - 1, i - 1);
    }
  }

  /** The top bit of a number of k + 1 bits. */
  lemma {:induction false} TopBit(v: nat, k: nat)
    requires v < Pow2(k + 1)
    ensures Bit(v, k) <==> v >= Pow2(k)
    decreases k
  {
    if k > 0 {
      TopBit(v / 2, k - 1);
    }
  }

  // ----- Masks

  lemma {:induction false} AndLowMask(x: nat, k: nat)
    ensures And(x, Pow2(k) - 1) == Low(x, k)
    decreases k
  {
    if k > 0 {
      AndLowMask(x / 2, k - 1);
      assert (Pow2(k) - 1) / 2 == Pow2(k - 1) - 1;
      if x == 0 { LowOfSmall(0, k); }
    }
  }

  /** A mask of the j bits from bit k up tells whether a number of k + j bits reaches 2^k. */
  lemma {:induction false} HighMaskTest(x: nat, k: nat, j: nat)
    requires x < Pow2(k + j)
    ensures Pow2(k + j) >= Pow2(k)
    ensures And(x, Pow2(k + j) - Pow2(k)) != 0 <==> x >= Pow2(k)
    decreases k
  {
    if k == 0 {
      AndLowMask(x, j);
      LowOfSmall(x, j);
    } else {
      HighMaskTest(x / 2, k - 1, j);
      assert Pow2(k + j) - Pow2(k) == 2 * (Pow2(k - 1 + j) - Pow2(k - 1));
    }
  }

  lemma {:induction false} OrDisjoint(a: nat, k: nat, b: nat)
    requires b < Pow2(k)
    ensures Or(Shl(a, k), b) == Shl(a, k) + b
    ensures Or(b, Shl(a, k)) == Shl(a, k) + b
    decreases k
  {
    if k > 0 {
      OrDisjoint(a, k - 1, b / 2);
    }
  }

  lemma {:induction false} OrSelf(a: nat)
    ensures Or(a, a) == a
  {
    if a > 0 {
      OrSelf(a / 2);
    }
  }

  // ----- Counting bits

  lemma {:induction false} PopCountSplit(a: nat, k: nat, b: nat)
    requires b < Pow2(k)
    ensures PopCount(Shl(a, k) + b) == PopCount(a) + PopCount(b)
    decreases k
  {
    if k > 0 {
      assert (2 * Shl(a, k - 1) + b) / 2 == Shl(a, k - 1) + b / 2;
      PopCountSplit(a, k - 1, b / 2);
      assert PopCount(b) == b % 2 + PopCount(b / 2);
    }
  }

  lemma PopCountOfBit(bit: nat, rest: nat)
    requires bit <= 1
    ensures PopCount(bit + 2 * rest) == bit + PopCount(rest)
  {
    assert (bit + 2 * rest) % 2 == bit && (bit + 2 * rest) / 2 == rest;
  }

  lemma PopCountOfOne()
    ensures PopCount(1) == 1
  {
    assert PopCount(1) == 1 % 2 + PopCount(0);
  }

  lemma {:induction false} AndSelf(a: nat)
    ensures And(a, a) == a
  {
    if a > 0 {
      AndSelf(a / 2);
    }
  }

  /** n & (n - 1) is n without its lowest set bit. */
  lemma {:induction false} ClearsOneBit(n: nat)
    requires n > 0
    ensures And(n, n - 1) < n && PopCount(And(n, n - 1)) == PopCount(n) - 1
  {
    var h := n / 2;
    if n % 2 == 0 {
      assert (n - 1) / 2 == h - 1;
      ClearsOneBit(h);
      assert And(n, n - 1) == 2 * And(h, h - 1);
    } else {
      assert (n - 1) / 2 == h;
      AndSelf(h);
      assert And(n, n - 1) == 2 * h;
    }
  }

  /** The Kernighan loop: as many iterations as there are set bits. */
  method KernPopcount(n: nat) returns (c: nat)
    ensures c == PopCount(n)
  {
    var m := n;
    c := 0;
    while m != 0
      invariant c + PopCount(m) == PopCount(n)
    {
      ClearsOneBit(m);
      m := And(m, m - 1);
      c := c + 1;
    }
  }

  predicate EvenParity(v: nat) { PopCount(v) % 2 == 0 }

  lemma ParityOfBit(bit: nat, rest: nat)
    requires bit <= 1
    ensures EvenParity(bit + 2 * rest) <==> (bit == 0) == EvenParity(rest)
  {
    PopCountOfBit(bit, rest);
  }

  /** Exclusive-or takes equal parities to even parity. */
  lemma {:induction false} ParityOfXor(a: nat, b: nat)
    ensures EvenParity(Xor(a, b)) <==> EvenParity(a) == EvenParity(b)
  {
    if a == 0 || b == 0 {
      assert EvenParity(0);
    } else {
      hide EvenParity;
      ParityOfXor(a / 2, b / 2);
      ParityOfBit(a % 2, a / 2);
      ParityOfBit(b % 2, b / 2);
      ParityOfBit(if a % 2 != b % 2 then 1 else 0, Xor(a / 2, b / 2));
    }
  }

  lemma {:induction false} XorOfEqual(a: nat, b: nat)
    ensures Xor(a, b) == 0 <==> a == b
  {
    if a > 0 && b > 0 {
      XorOfEqual(a / 2, b / 2);
    }
  }

  lemma {:induction false} BitwiseBound(a: nat, b: nat, k: nat)
    requires a < Pow2(k) && b < Pow2(k)
    ensures Xor(a, b) < Pow2(k) && And(a, b) < Pow2(k) && Or(a, b) < Pow2(k)
    decreases k
  {
    if k > 0 {
      BitwiseBound(a / 2, b / 2, k - 1);
    }
  }
}
