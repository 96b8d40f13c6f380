/** Bit fields of machine words, as numbers: shifts, masks and bitwise or. */
module BitFields {

  function Pow2(n: nat): (r: nat)
    ensures r > 0
  {
    if n == 0 then 1 else 2 * Pow2(n - 1)
  }

  /** w << n */
  function Shl(w: nat, n: nat): nat {
    if n == 0 then w else 2 * Shl(w, n - 1)
  }

  /** w >> n */
  function Shr(w: nat, n: nat): nat {
    if n == 0 then w else Shr(w / 2, n - 1)
  }

  /** w & ((1 << n) - 1), also for negative numbers in two's complement. */
  function Low(w: int, n: nat): (r: nat)
    ensures r < Pow2(n)
    decreases n
  {
    if n == 0 then 0 else w % 2 + 2 * Low(w / 2, n - 1)
  }

  /** a | b */
  function Or(a: nat, b: nat): nat {
    if a == 0 && b == 0 then 0
    else (if a % 2 == 1 || b % 2 == 1 then 1 else 0) + 2 * Or(a / 2, b / 2)
  }

  /** a & b */
  function And(a: nat, b: nat): nat {
    if a == 0 || b == 0 then 0
    else (if a % 2 == 1 && b % 2 == 1 then 1 else 0) + 2 * And(a / 2, b / 2)
  }

  /** (w >> shift) & ((1 << bits) - 1) */
  function Field(w: nat, shift: nat, bits: nat): (r: nat)
    ensures r < Pow2(bits)
  {
    Low(Shr(w, shift), bits)
  }

  lemma OrBits(a: nat, b: nat)
    ensures Or(a, b) / 2 == Or(a / 2, b / 2)
    ensures Or(a, b) % 2 == if a % 2 == 1 || b % 2 == 1 then 1 else 0
    ensures Or(0, 0) == 0
  {
  }

  lemma {:induction false} OrZero(a: nat)
    ensures Or(a, 0) == a && Or(0, a) == a
  {
    if a > 0 {
      OrZero(a / 2);
    }
  }

  lemma {:induction false} OrBelow(a: nat, b: nat, n: nat)
    requires a < Pow2(n) && b < Pow2(n)
    ensures Or(a, b) < Pow2(n)
    decreases n
  {
    if n > 0 {
      OrBelow(a / 2, b / 2, n - 1);
    }
  }

  lemma {:induction false} ShrOr(a: nat, b: nat, n: nat)
    ensures Shr(Or(a, b), n) == Or(Shr(a, n), Shr(b, n))
    decreases n
  {
    hide Or;
    if n > 0 {
      OrBits(a, b);
      ShrOr(a / 2, b / 2, n - 1);
    }
  }

  lemma {:induction false} LowOr(a: nat, b: nat, n: nat)
    ensures Low(Or(a, b), n) == Or(Low(a, n), Low(b, n))
    decreases n
  {
    hide Or;
    OrBits(a, b);
    if n > 0 {
      LowOr(a / 2, b / 2, n - 1);
      var x, y := Low(a, n), Low(b, n);
      OrBits(x, y);
      assert x / 2 == Low(a / 2, n - 1) && y / 2 == Low(b / 2, n - 1) && x % 2 == a % 2 && y % 2 == b % 2;
    }
  }

  /** A field of two words that are or'ed together. */
  lemma FieldOr(a: nat, b: nat, shift: nat, bits: nat)
    ensures Field(Or(a, b), shift, bits) == Or(Field(a, shift, bits), Field(b, shift, bits))
  {
    hide Or;
    ShrOr(a, b, shift);
    LowOr(Shr(a, shift), Shr(b, shift), bits);
  }

  /** The upper bits, shifted back, and the lower ones make up the whole. */
  lemma {:induction false} UpperAndLower(a: nat, n: nat)
    ensures Shl(Shr(a, n), n) + Low(a, n) == a
    decreases n
  {
    if n > 0 {
      UpperAndLower(a / 2, n - 1);
    }
  }

  lemma {:induction false} ShrShl(v: nat, n: nat)
    ensures Shr(Shl(v, n), n) == v
  {
    if n > 0 {
      ShrShl(v, n - 1);
    }
  }

  lemma {:induction false} LowIsAll(v: nat, n: nat)
    requires v < Pow2(n)
    ensures Low(v, n) == v
    decreases n
  {
    if n > 0 {
      LowIsAll(v / 2, n - 1);
    }
  }

  /** A negative number in two's complement. */
  lemma {:induction false} LowOfNegative(v: int, n: nat)
    requires -(Pow2(n) as int) <= v < 0
    ensures Low(v, n) == v + Pow2(n)
    decreases n
  {
    if n > 0 {
      LowOfNegative(v / 2, n - 1);
    }
  }

  lemma {:induction false} ShrTooSmall(v: nat, n: nat, k: nat)
    requires v < Pow2(n) && n <= k
    ensures Shr(v, k) == 0
    decreases k
  {
    if n > 0 {
      ShrTooSmall(v / 2, n - 1, k - 1);
    } else if k > 0 {
      ShrTooSmall(0, 0, k - 1);
    }
  }

  lemma {:induction false} ShlBelow(v: nat, n: nat, k: nat)
    requires v < Pow2(n)
    ensures Shl(v, k) < Pow2(n + k)
  {
    if k > 0 {
      ShlBelow(v, n, k - 1);
    }
  }

  lemma {:induction false} ShrOfShl(v: nat, k: nat, n: nat)
    requires n <= k
    ensures Shr(Shl(v, k), n) == Shl(v, k - n)
    decreases n
  {
    if n > 0 {
      ShrOfShl(v, k - 1, n - 1);
    }
  }

  lemma ShlStep(v: nat, k: nat)
    requires k > 0
    ensures Shl(v, k) == 2 * Shl(v, k - 1)
  {
  }

  lemma {:induction false} LowOfShl(v: nat, k: nat, n: nat)
    requires n <= k
    ensures Low(Shl(v, k), n) == 0
    decreases n
  {
    hide Shl;
    if n > 0 {
      ShlStep(v, k);
      LowOfShl(v, k - 1, n - 1);
    }
  }

  /** A value that is shifted into a field is read back there, and nowhere else. */
  lemma FieldOfShl(v: nat, at: nat, n: nat, shift: nat, bits: nat)
    requires v < Pow2(n)
    ensures shift == at && bits == n ==> Field(Shl(v, at), shift, bits) == v
    ensures at + n <= shift || shift + bits <= at ==> Field(Shl(v, at), shift, bits) == 0
  {
    hide Shl, Shr, Low;
    if shift == at && bits == n {
      ShrShl(v, at);
      LowIsAll(v, n);
    }
    if at + n <= shift {
      ShlBelow(v, n, at);
      ShrTooSmall(Shl(v, at), n + at, shift);
      LowIsAll(0, bits);
    } else if shift + bits <= at {
      ShrOfShl(v, at, shift);
      LowOfShl(v, at - shift, bits);
    }
  }

  /** Shifts by eight places at once. */
  lemma ShlByte(v: nat, n: nat)
    ensures Shl(v, n + 8) == 0x100 * Shl(v, n)
  {
    assert Shl(v, n + 2) == 4 * Shl(v, n);
    assert Shl(v, n + 4) == 4 * Shl(v, n + 2);
    assert Shl(v, n + 6) == 4 * Shl(v, n + 4);
    assert Shl(v, n + 8) == 4 * Shl(v, n + 6);
  }

  lemma ShrByte(w: nat, n: nat)
    ensures Shr(w, n + 8) == Shr(w / 0x100, n)
  {
    assert Shr(w, n + 8) == Shr(w / 4, n + 6);
    assert Shr(w / 4, n + 6) == Shr(w / 16, n + 4);
    assert Shr(w / 16, n + 4) == Shr(w / 64, n + 2);
    assert Shr(w / 64, n + 2) == Shr(w / 256, n);
  }

  lemma ShrFew(w: nat)
    ensures Shr(w, 0) == w && Shr(w, 1) == w / 2 && Shr(w, 2) == w / 4 && Shr(w, 5) == w / 32
  {
    assert Shr(w, 2) == Shr(w / 4, 0);
    assert Shr(w, 5) == Shr(w / 4, 3);
    assert Shr(w / 4, 3) == Shr(w / 16, 1);
  }

  /** The low bits of a multiple of 256 or 65536 or 2^24 are zero. */
  lemma LowOfBytes(v: nat, n: nat)
    ensures n <= 8 ==> Low(0x100 * v, n) == 0
    ensures n <= 16 ==> Low(0x1_0000 * v, n) == 0
    ensures n <= 24 ==> Low(0x100_0000 * v, n) == 0
  {
    hide Low;
    ShlByte(v, 0);
    ShlByte(v, 8);
    ShlByte(v, 16);
    if n <= 8 {
      LowOfShl(v, 8, n);
    }
    if n <= 16 {
      LowOfShl(v, 16, n);
    }
    if n <= 24 {
      LowOfShl(v, 24, n);
    }
  }

  // ---- masks

  lemma AndBits(a: nat, b: nat)
    ensures And(a, b) / 2 == And(a / 2, b / 2)
    ensures And(a, b) % 2 == if a % 2 == 1 && b % 2 == 1 then 1 else 0
    ensures And(0, b) == 0
  {
  }

  lemma {:induction false} AndOr(a: nat, b: nat, m: nat)
    ensures And(Or(a, b), m) == Or(And(a, m), And(b, m))
  {
    hide And, Or;
    AndBits(a, m);
    AndBits(b, m);
    OrBits(a, b);
    if a > 0 || b > 0 {
      AndOr(a / 2, b / 2, m / 2);
      AndBits(Or(a, b), m);
      OrBits(And(a, m), And(b, m));
    }
  }

  lemma {:induction false} ShrAnd(a: nat, b: nat, n: nat)
    ensures Shr(And(a, b), n) == And(Shr(a, n), Shr(b, n))
    decreases n
  {
    hide And;
    if n > 0 {
      AndBits(a, b);
      ShrAnd(a / 2, b / 2, n - 1);
    }
  }

  /** All ones keep a number. */
  lemma {:induction false} AndOnes(v: nat, n: nat)
    requires v < Pow2(n)
    ensures And(v, Pow2(n) - 1) == v
    decreases n
  {
    hide And;
    AndBits(v, Pow2(n) - 1);
    if n > 0 {
      AndOnes(v / 2, n - 1);
    }
  }

  lemma {:induction false} AndLow(v: nat, n: nat, m: nat)
    requires v < Pow2(n) && Low(m, n) == 0
    ensures And(v, m) == 0
    decreases n
  {
    hide And;
    AndBits(v, m);
    if n > 0 {
      AndLow(v / 2, n - 1, m / 2);
    }
  }

  /** A mask without the bits of a field takes nothing of it. */
  lemma {:induction false} AndOfShl(v: nat, at: nat, n: nat, m: nat)
    requires v < Pow2(n) && Field(m, at, n) == 0
    ensures And(Shl(v, at), m) == 0
    decreases at
  {
    hide And, Low;
    if at == 0 {
      AndLow(v, n, m);
    } else {
      AndBits(Shl(v, at), m);
      AndOfShl(v, at - 1, n, m / 2);
    }
  }

  lemma {:induction false} AndBothShl(a: nat, b: nat, n: nat)
    ensures And(Shl(a, n), Shl(b, n)) == Shl(And(a, b), n)
  {
    hide And;
    if n > 0 {
      AndBits(Shl(a, n), Shl(b, n));
      AndBothShl(a, b, n - 1);
    }
  }

  lemma {:induction false} ShrMonotone(a: nat, b: nat, n: nat)
    ensures a <= b ==> Shr(a, n) <= Shr(b, n)
    decreases n
  {
    if n > 0 {
      ShrMonotone(a / 2, b / 2, n - 1);
    }
  }

  lemma {:induction false} ShrBelow(v: nat, n: nat, k: nat)
    requires v < Pow2(n + k)
    ensures Shr(v, k) < Pow2(n)
    decreases k
  {
    if k > 0 {
      ShrBelow(v / 2, n, k - 1);
    }
  }
}
