/** The power-of-two test and the address round-up of the support library.
    `uint32_t` and `size_t` (64-bit) are integers in range; unsigned
    arithmetic wraps modulo the word size and bitwise AND works on the
    binary digits, both written out here. */
module Utilities {

  const Word32: nat := 0x1_0000_0000
  const Word64: nat := 0x1_0000_0000_0000_0000

  /** A `uint32_t`. */
  type Uint32 = x: int | 0 <= x < 0x1_0000_0000

  /** A 64-bit `size_t`. */
  type Size = x: int | 0 <= x < 0x1_0000_0000_0000_0000

  /** Unsigned `size_t` arithmetic result. */
  function Wrap(x: int): Size {
    x % Word64
  }

  /** The conversion `(uint32_t)x`: the low 32 bits. */
  function Low32(x: Size): Uint32 {
    x % Word32
  }

  function Pow2(k: nat): (p: nat)
    ensures p >= 1
  {
    if k == 0 then 1 else 2 * Pow2(k - 1)
  }

  /** Bitwise AND of two naturals, one binary digit at a time. */
  function BitAnd(a: nat, b: nat): (r: nat)
    ensures r <= a && r <= b
    decreases a
  {
    if a == 0 || b == 0 then 0
    else 2 * BitAnd(a / 2, b / 2) + (if a % 2 == 1 && b % 2 == 1 then 1 else 0)
  }

  /** Bitwise complement `~x` of a `size_t`. */
  function Complement(x: Size): Size {
    Word64 - 1 - x
  }

  /** `isPowerOf2`: nonzero, and clearing the lowest set bit leaves nothing.
      (`v - 1` cannot wrap: it is only evaluated when `v` is nonzero.) */
  predicate IsPowerOf2(v: Uint32) {
    v != 0 && BitAnd(v, v - 1) == 0
  }

  /** `alignAddr` as the source writes it: the assertions become the
      precondition. The first of them tests the whole alignment for zero
      but only its low 32 bits for being a power of two. */
  function AlignAddrAsWritten(address: Size, alignment: Size): Size
    requires alignment != 0 && IsPowerOf2(Low32(alignment))
    requires Wrap(address + alignment - 1) >= address
  {
    BitAnd(Wrap(address + alignment - 1), Complement(Wrap(alignment - 1)))
  }

  /** `alignAddr` restricted to alignments that really are powers of two:
      it rounds `address` up to the nearest multiple of `alignment`. */
  function AlignAddr(address: Size, alignment: Size): (r: Size)
    requires alignment < Word32 && IsPowerOf2(alignment)
    requires Wrap(address + alignment - 1) >= address
    ensures r % alignment == 0
    ensures address <= r < address + alignment
    ensures address % alignment == 0 ==> r == address
  {
    AlignAddrRounds(address, alignment);
    AlignAddrAsWritten(address, alignment)
  }

  // ---------------------------------------------------------------------
  // Arithmetic facts

  lemma {:induction false} Pow2Split(a: nat, b: nat)
    ensures Pow2(a + b) == Pow2(a) * Pow2(b)
    decreases a
  {
    if a > 0 {
      Pow2Split(a - 1, b);
    }
  }

  lemma Pow2Byte()
    ensures Pow2(8) == 0x100
  {
    assert Pow2(4) == 16;
    Pow2Split(4, 4);
  }

  lemma Pow2Word32()
    ensures Pow2(32) == Word32
  {
    Pow2Byte();
    Pow2Split(8, 8);
    Pow2Split(16, 16);
  }

  lemma Pow2Word64()
    ensures Pow2(32) == Word32 && Pow2(64) == Word64
  {
    Pow2Word32();
    Pow2Split(32, 32);
  }

  lemma {:induction false} Pow2Monotonic(j: nat, k: nat)
    requires j <= k
    ensures Pow2(j) <= Pow2(k)
    decreases k
  {
    if j < k {
      Pow2Monotonic(j, k - 1);
    }
  }

  lemma MulAtLeast(d: int, z: int)
    requires d > 0 && z >= 1
    ensures d * z >= d
  {
  }

  lemma MulZero(q: nat, p: nat)
    requires p >= 1 && q * p == 0
    ensures q == 0
  {
    if q > 0 {
      MulAtLeast(p, q);
    }
  }

  lemma MulTwice(h: int, m: int, p: int)
    requires p == 2 * m
    ensures 2 * (h * m) == h * p
  {
  }

  /** Quotient and remainder are determined by the division equation. */
  lemma DivModUnique(x: int, d: int, q: int, r: int)
    requires d > 0 && 0 <= r < d && x == d * q + r
    ensures x / d == q && x % d == r
  {
    var q', r' := x / d, x % d;
    assert x == d * q' + r';
    assert d * q - d * q' == r' - r;
    assert d * (q - q') == d * q - d * q';
    if q > q' {
      MulAtLeast(d, q - q');
    } else if q < q' {
      MulAtLeast(d, q' - q);
    }
  }

  /** A value below `p * n` has a quotient by `p` below `n`. */
  lemma QuotientBelow(s: nat, p: nat, n: nat)
    requires p > 0 && s < p * n
    ensures s / p < n
  {
  }

  lemma DivisionEquation(s: nat, p: nat)
    requires p > 0
    ensures s == (s / p) * p + s % p && 0 <= s % p < p
  {
  }

  lemma DropOneFactor(p: int, n: int)
    ensures p * n - p == (n - 1) * p
  {
  }

  // ---------------------------------------------------------------------
  // Bitwise AND

  lemma {:induction false} BitAndSelf(a: nat)
    ensures BitAnd(a, a) == a
    decreases a
  {
    if a != 0 {
      BitAndSelf(a / 2);
    }
  }

  /** AND with a block of `w` one-bits keeps a `w`-bit value. */
  lemma {:induction false} BitAndAllOnes(s: nat, w: nat)
    requires s < Pow2(w)
    ensures BitAnd(s, Pow2(w) - 1) == s
    decreases w
  {
    if s != 0 {
      BitAndAllOnes(s / 2, w - 1);
    }
  }

  /** AND works separately on the bits above and below position `k`: for
      `a = qa * 2^k + ra` and `b = qb * 2^k + rb` with both remainders
      below `2^k`. */
  lemma {:induction false} BitAndSplit(a: nat, b: nat, k: nat, qa: nat, ra: nat, qb: nat, rb: nat)
    requires ra < Pow2(k) && rb < Pow2(k)
    requires a == qa * Pow2(k) + ra && b == qb * Pow2(k) + rb
    ensures BitAnd(a, b) == BitAnd(qa, qb) * Pow2(k) + BitAnd(ra, rb)
    decreases k, 1
  {
    if k == 0 {
      SplitBelowOne(a, b, qa, ra, qb, rb);
    } else if a == 0 || b == 0 {
      SplitZero(a, b, Pow2(k), qa, ra, qb, rb);
    } else {
      SplitNonzero(a, b, k, qa, ra, qb, rb);
    }
  }

  lemma {:induction false} SplitNonzero(a: nat, b: nat, k: nat, qa: nat, ra: nat, qb: nat, rb: nat)
    requires k > 0 && a != 0 && b != 0
    requires ra < Pow2(k) && rb < Pow2(k)
    requires a == qa * Pow2(k) + ra && b == qb * Pow2(k) + rb
    ensures BitAnd(a, b) == BitAnd(qa, qb) * Pow2(k) + BitAnd(ra, rb)
    decreases k, 0
  {
    var m, p := Pow2(k - 1), Pow2(k);
    Halve(a, qa, ra, m, p);
    Halve(b, qb, rb, m, p);
    BitAndSplit(a / 2, b / 2, k - 1, qa, ra / 2, qb, rb / 2);
    SplitCombine(a, b, ra, rb, qa, qb, BitAnd(qa, qb), m, p);
  }

  lemma SplitBelowOne(a: nat, b: nat, qa: nat, ra: nat, qb: nat, rb: nat)
    requires ra < 1 && rb < 1 && a == qa * 1 + ra && b == qb * 1 + rb
    ensures BitAnd(a, b) == BitAnd(qa, qb) * 1 + BitAnd(ra, rb)
  {
  }

  lemma SplitZero(a: nat, b: nat, p: nat, qa: nat, ra: nat, qb: nat, rb: nat)
    requires p >= 1 && (a == 0 || b == 0)
    requires a == qa * p + ra && b == qb * p + rb
    ensures BitAnd(a, b) == BitAnd(qa, qb) * p + BitAnd(ra, rb)
  {
    if a == 0 {
      MulZero(qa, p);
    } else {
      MulZero(qb, p);
    }
  }

  /** Halving `q * p + r` with `p == 2 * m`. */
  lemma Halve(a: nat, q: nat, r: nat, m: nat, p: nat)
    requires p == 2 * m && a == q * p + r
    ensures a == 2 * (q * m) + r && a / 2 == q * m + r / 2
  {
    MulTwice(q, m, p);
  }

  /** The inductive step of the split, from the split of the halves. */
  lemma SplitCombine(a: nat, b: nat, ra: nat, rb: nat, qa: nat, qb: nat, h: nat, m: nat, p: nat)
    requires p == 2 * m && a != 0 && b != 0
    requires a == qa * p + ra && b == qb * p + rb
    requires BitAnd(a / 2, b / 2) == h * m + BitAnd(ra / 2, rb / 2)
    ensures BitAnd(a, b) == h * p + BitAnd(ra, rb)
  {
    Halve(a, qa, ra, m, p);
    Halve(b, qb, rb, m, p);
    MulTwice(h, m, p);
    SplitLowBit(a, b, ra, rb, qa * m, qb * m, h * m);
  }

  /** One application of the definition, on `a = 2 * xa + ra` and
      `b = 2 * xb + rb`. */
  lemma SplitLowBit(a: nat, b: nat, ra: nat, rb: nat, xa: int, xb: int, hm: int)
    requires a != 0 && b != 0 && a == 2 * xa + ra && b == 2 * xb + rb
    requires BitAnd(a / 2, b / 2) == hm + BitAnd(ra / 2, rb / 2)
    ensures BitAnd(a, b) == 2 * hm + BitAnd(ra, rb)
  {
    assert a / 2 == xa + ra / 2 && a % 2 == ra % 2;
    assert b / 2 == xb + rb / 2 && b % 2 == rb % 2;
    var bit := if a % 2 == 1 && b % 2 == 1 then 1 else 0;
    assert BitAnd(a, b) == 2 * BitAnd(a / 2, b / 2) + bit;
    if ra == 0 || rb == 0 {
      assert bit == 0;
    } else {
      assert BitAnd(ra, rb) == 2 * BitAnd(ra / 2, rb / 2) + bit;
    }
  }

  /** AND with the mask that clears the low `k` of `w` bits rounds down to
      a multiple of `2^k`. */
  lemma MaskLow(s: nat, w: nat, k: nat)
    requires k <= w && s < Pow2(w)
    ensures Pow2(k) <= Pow2(w)
    ensures BitAnd(s, Pow2(w) - Pow2(k)) == s - s % Pow2(k)
  {
    Pow2Monotonic(k, w);
    Pow2Split(k, w - k);
    MaskLowParts(s, Pow2(k), Pow2(w - k), k, w - k, Pow2(w), Pow2(w) - Pow2(k));
  }

  lemma MaskLowParts(s: nat, p: nat, n: nat, k: nat, j: nat, big: nat, mask: nat)
    requires p == Pow2(k) && n == Pow2(j) && big == p * n
    requires s < big && mask == big - p
    ensures BitAnd(s, mask) == s - s % p
  {
    var q, r := MaskArith(s, p, n, big, mask);
    MaskQuotient(s, mask, p, n, k, j, q, r);
  }

  /** The division facts behind `MaskLow`, for `big == p * n`. */
  lemma MaskArith(s: nat, p: nat, n: nat, big: nat, mask: int) returns (q: nat, r: nat)
    requires p > 0 && big == p * n && s < big && mask == big - p
    ensures mask == (n - 1) * p + 0
    ensures s == q * p + r && q < n && r < p && r == s % p
  {
    DropOneFactor(p, n);
    DivisionEquation(s, p);
    QuotientBelow(s, p, n);
    q, r := s / p, s % p;
  }

  lemma MaskQuotient(s: nat, mask: nat, p: nat, n: nat, k: nat, j: nat, q: nat, r: nat)
    requires p == Pow2(k) && n == Pow2(j) && q < n && r < p
    requires s == q * p + r && mask == (n - 1) * p + 0
    ensures BitAnd(s, mask) == s - r
  {
    BitAndSplit(s, mask, k, q, r, n - 1, 0);
    BitAndAllOnes(q, j);
  }

  // ---------------------------------------------------------------------
  // The power-of-two test

  /** A power of two has no bit in common with its predecessor. */
  lemma {:induction false} Pow2SingleBit(k: nat)
    ensures BitAnd(Pow2(k), Pow2(k) - 1) == 0
    decreases k
  {
    if k > 0 {
      Pow2SingleBit(k - 1);
      var u := Pow2(k - 1);
      assert (Pow2(k) - 1) / 2 == u - 1 && (Pow2(k) - 1) % 2 == 1;
    }
  }

  /** A nonzero value with no bit in common with its predecessor is a power
      of two. */
  lemma {:induction false} SingleBitPow2(v: nat) returns (k: nat)
    requires v != 0 && BitAnd(v, v - 1) == 0
    ensures v == Pow2(k)
    decreases v
  {
    if v == 1 {
      k := 0;
    } else if v % 2 == 1 {
      OddHasLowBits(v);
      assert false;
    } else {
      EvenStep(v);
      var j := SingleBitPow2(v / 2);
      k := j + 1;
    }
  }

  lemma OddHasLowBits(v: nat)
    requires v > 1 && v % 2 == 1
    ensures BitAnd(v, v - 1) != 0
  {
    BitAndSelf(v / 2);
    assert (v - 1) / 2 == v / 2 && (v - 1) % 2 == 0;
  }

  lemma EvenStep(v: nat)
    requires v > 0 && v % 2 == 0
    ensures v / 2 > 0 && BitAnd(v, v - 1) == 2 * BitAnd(v / 2, v / 2 - 1)
  {
    assert (v - 1) / 2 == v / 2 - 1 && (v - 1) % 2 == 1;
    assert v - 1 != 0;
    assert BitAnd(v, v - 1) == 2 * BitAnd(v / 2, (v - 1) / 2) + 0;
  }

  lemma PowerOf2Exponent(v: Uint32) returns (k: nat)
    requires IsPowerOf2(v)
    ensures k < 32 && v == Pow2(k)
  {
    k := SingleBitPow2(v);
    Pow2Word64();
    if k >= 32 {
      Pow2Monotonic(32, k);
    }
  }

  /** `isPowerOf2(v)` holds exactly for the 32 values `2^k`, `k < 32`; in
      particular it fails on 0. */
  lemma IsPowerOf2Exactly(v: Uint32)
    ensures IsPowerOf2(v) <==> exists k :: 0 <= k < 32 && v == Pow2(k)
    ensures !IsPowerOf2(0)
  {
    if IsPowerOf2(v) {
      var k := PowerOf2Exponent(v);
    }
    if k :| 0 <= k < 32 && v == Pow2(k) {
      Pow2SingleBit(k);
    }
  }

  // ---------------------------------------------------------------------
  // alignAddr

  /** The second assertion holds exactly when `address + alignment - 1`
      does not exceed the range of `size_t`. */
  lemma NoOverflow(address: Size, alignment: Size)
    requires alignment != 0
    ensures Wrap(address + alignment - 1) >= address <==> address + alignment - 1 < Word64
  {
  }

  /** On a power-of-two alignment below 2^32 the computation clears the
      low bits of `s = address + alignment - 1`, which without overflow is
      the least multiple of `alignment` at or above `address`. */
  lemma AlignAddrRounds(address: Size, alignment: Size)
    requires alignment < Word32 && IsPowerOf2(alignment)
    requires Wrap(address + alignment - 1) >= address
    ensures Low32(alignment) == alignment
    ensures AlignAddrAsWritten(address, alignment) % alignment == 0
    ensures address <= AlignAddrAsWritten(address, alignment) < address + alignment
    ensures address % alignment == 0 ==> AlignAddrAsWritten(address, alignment) == address
  {
    var s := ClearsLowBits(address, alignment);
    RoundedUp(address, alignment, s, AlignAddrAsWritten(address, alignment));
  }

  /** The AND clears the low bits of `s == address + alignment - 1`. */
  lemma ClearsLowBits(address: Size, alignment: Size) returns (s: nat)
    requires alignment < Word32 && IsPowerOf2(alignment)
    requires Wrap(address + alignment - 1) >= address
    ensures Low32(alignment) == alignment
    ensures s == address + alignment - 1
    ensures AlignAddrAsWritten(address, alignment) == s - s % alignment
  {
    assert Low32(alignment) == alignment;
    Operands(address, alignment);
    s := Wrap(address + alignment - 1);
    var mask := Complement(Wrap(alignment - 1));
    ClearLow(s, mask, alignment, AlignAddrAsWritten(address, alignment));
  }

  /** The operands of the AND, once the overflow check has passed. */
  lemma Operands(address: Size, alignment: Size)
    requires alignment != 0 && Wrap(address + alignment - 1) >= address
    ensures Wrap(address + alignment - 1) == address + alignment - 1
    ensures Complement(Wrap(alignment - 1)) == Word64 - alignment
  {
    NoOverflow(address, alignment);
  }

  /** Clearing the low `k` bits of a `size_t`. */
  lemma ClearLow(s: nat, mask: nat, d: Uint32, r: nat)
    requires IsPowerOf2(d) && s < Word64 && mask == Word64 - d
    requires r == BitAnd(s, mask)
    ensures r == s - s % d
  {
    var k := PowerOf2Exponent(d);
    Pow2Word64();
    MaskLow(s, 64, k);
  }

  /** Rounding `s = address + d - 1` down to a multiple of `d` gives the
      least multiple of `d` at or above `address`. */
  lemma RoundedUp(address: nat, d: nat, s: nat, r: int)
    requires d > 0 && s == address + d - 1 && r == s - s % d
    ensures r % d == 0
    ensures address <= r < address + d
    ensures address % d == 0 ==> r == address
  {
    DivisionEquation(s, d);
    DivModUnique(r, d, s / d, 0);
    if address % d == 0 {
      DivisionEquation(address, d);
      DivModUnique(s, d, address / d, d - 1);
    }
  }

  /** Two different multiples of `d` are at least `d` apart. */
  lemma MultiplesApart(x: nat, y: nat, d: nat)
    requires d > 0 && x % d == 0 && y % d == 0 && y < x
    ensures x - y >= d
  {
    DivisionEquation(x, d);
    DivisionEquation(y, d);
    var qx, qy := x / d, y / d;
    FactorOut(d, qx, qy);
    if qx - qy >= 1 {
      MulAtLeast(d, qx - qy);
    } else {
      MulAtMost(d, qx - qy);
    }
  }

  lemma MulAtMost(d: int, z: int)
    requires d > 0 && z <= 0
    ensures d * z <= 0
  {
  }

  lemma FactorOut(d: int, a: int, b: int)
    ensures a * d - b * d == d * (a - b)
  {
  }

  /** Rounding up is the least multiple of `alignment` at or above
      `address`. */
  lemma AlignAddrIsLeast(address: Size, alignment: Size, m: int)
    requires alignment < Word32 && IsPowerOf2(alignment)
    requires Wrap(address + alignment - 1) >= address
    requires address <= m && m % alignment == 0
    ensures AlignAddr(address, alignment) <= m
  {
    var r := AlignAddr(address, alignment);
    if r > m {
      MultiplesApart(r, m, alignment);
    }
  }

  /** With alignment 1 every address is already aligned. */
  lemma AlignAddrByOne(address: Size)
    ensures Wrap(address + 1 - 1) >= address && IsPowerOf2(1)
    ensures AlignAddr(address, 1) == address
  {
    assert BitAnd(1, 0) == 0;
  }

  /** Only `2^0` among the powers of two is odd. */
  lemma Pow2Odd(k: nat)
    ensures Pow2(k) % 2 == 1 <==> k == 0
  {
  }

  /** The guard as written lets through an alignment that is not a power of
      two, 2^32 + 1, whose low 32 bits are 1; address 1 then comes back as
      1, which is not a multiple of it. */
  lemma AsWrittenAcceptsNonPowerOfTwo()
    ensures Low32(0x1_0000_0001) == 1 && IsPowerOf2(1)
    ensures Wrap(1 + 0x1_0000_0001 - 1) >= 1
    ensures forall k: nat :: Pow2(k) != 0x1_0000_0001
    ensures AlignAddrAsWritten(1, 0x1_0000_0001) == 1
    ensures 1 % 0x1_0000_0001 != 0
  {
    assert BitAnd(1, 0) == 0;
    forall k: nat
      ensures Pow2(k) != 0x1_0000_0001
    {
      Pow2Odd(k);
    }
    AsWrittenResult(Wrap(0x1_0000_0001), Complement(Wrap(0x1_0000_0000)));
  }

  lemma AsWrittenResult(s: nat, mask: nat)
    requires s == Word32 + 1 && mask == Word64 - 1 - Word32
    ensures BitAnd(s, mask) == 1
  {
    SplitAtWord32(s, mask, 1, 1, Word32 - 2, Word32 - 1);
    BitAndOne(Word32 - 2);
    BitAndOne(Word32 - 1);
  }

  lemma SplitAtWord32(a: nat, b: nat, qa: nat, ra: nat, qb: nat, rb: nat)
    requires ra < Word32 && rb < Word32
    requires a == qa * Word32 + ra && b == qb * Word32 + rb
    ensures BitAnd(a, b) == BitAnd(qa, qb) * Word32 + BitAnd(ra, rb)
  {
    Pow2Word32();
    BitAndSplit(a, b, 32, qa, ra, qb, rb);
  }

  lemma BitAndOne(b: nat)
    requires b != 0
    ensures BitAnd(1, b) == b % 2
  {
  }
}
