/** The unsigned machine integers the repository uses, and the power-of-two
    masking that stands in for a modulus. */
module Numbers {
  const U16 := 0x1_0000
  const U32 := 0x1_0000_0000
  const U64 := 0x1_0000_0000_0000_0000

  // The index that stands for "no order" in links, level ends and lookups.
  const NULL_IDX: uint32 := 0xFFFF_FFFF

  type uint16 = x: int | 0 <= x < 0x1_0000
  type uint32 = x: int | 0 <= x < 0x1_0000_0000
  type uint64 = x: int | 0 <= x < 0x1_0000_0000_0000_0000

  datatype Option<+T> = None | Some(value: T)

  // Arithmetic in 32 unsigned bits: the exact result modulo 2^32.
  function Wrap32(x: int): (r: uint32) {
    x % U32
  }

  // A 32-bit running total follows the exact total.
  lemma WrapStep(total: int, exact: int, d: int)
    requires total == Wrap32(exact)
    ensures Wrap32(total + d) == Wrap32(exact + d)
  {
    var m := exact / U32;
    assert exact + d == (total + d) + m * U32;
    DivModUnique(exact + d, U32, (total + d) / U32 + m, (total + d) % U32);
  }

  function Pow2(k: nat): (p: nat)
    ensures p >= 1
  {
    if k == 0 then 1 else 2 * Pow2(k - 1)
  }

  lemma {:induction false} PowersMultiply(j: nat, k: nat)
    ensures Pow2(j + k) == Pow2(j) * Pow2(k)
  {
    if j > 0 {
      PowersMultiply(j - 1, k);
    }
  }

  // The limits are those of 16, 32 and 64 bits; no order has the highest index.
  lemma Widths()
    ensures U16 == Pow2(16) && U32 == Pow2(32) && U64 == Pow2(64) && NULL_IDX == Pow2(32) - 1
  {
    assert Pow2(8) == 256;
    PowersMultiply(8, 8);
    PowersMultiply(16, 16);
    PowersMultiply(32, 32);
  }

  lemma PowerIsEven(k: nat)
    requires k >= 1
    ensures Pow2(k) % 2 == 0
  {
  }

  // Bitwise conjunction of two unsigned numbers, bit by bit.
  function BitAnd(x: nat, y: nat): nat {
    if x == 0 || y == 0 then 0
    else BitAnd(x / 2, y / 2) * 2 + (if x % 2 == 1 && y % 2 == 1 then 1 else 0)
  }

  // `h & mask` with mask one less than a power of two is `h` modulo that power.
  lemma {:induction false} MaskIsModulo(x: nat, k: nat)
    ensures BitAnd(x, Pow2(k) - 1) == x % Pow2(k)
    decreases k
  {
    if k == 0 {
    } else if x == 0 {
    } else {
      var p := Pow2(k - 1);
      MaskIsModulo(x / 2, k - 1);
      assert (2 * p - 1) / 2 == p - 1 && (2 * p - 1) % 2 == 1;
      HalfModulo(x, p);
    }
  }

  lemma MaskedIndex(x: nat, mask: nat, k: nat)
    requires mask + 1 == Pow2(k)
    ensures BitAnd(x, mask) == x % (mask + 1) <= mask
  {
    MaskIsModulo(x, k);
  }

  // Adding one under the mask is the cyclic successor.
  lemma MaskedSuccessor(i: nat, mask: nat, k: nat)
    requires i <= mask && mask + 1 == Pow2(k)
    ensures BitAnd(i + 1, mask) == if i == mask then 0 else i + 1
  {
    MaskIsModulo(i + 1, k);
    if i == mask {
      DivModUnique(i + 1, mask + 1, 1, 0);
    } else {
      DivModUnique(i + 1, mask + 1, 0, i + 1);
    }
  }

  lemma HalfModulo(x: nat, p: nat)
    requires p >= 1
    ensures x % (2 * p) == (x / 2 % p) * 2 + x % 2
  {
    var q, r := x / 2 / p, x / 2 % p;
    assert x == (q * p + r) * 2 + x % 2;
    assert x == q * (2 * p) + (2 * r + x % 2);
    DivModUnique(x, 2 * p, q, 2 * r + x % 2);
  }

  lemma DivModUnique(x: int, d: int, q: int, r: int)
    requires 0 <= r < d && x == q * d + r
    ensures x / d == q && x % d == r
  {
    var e := x / d - q;
    assert e * d == r - x % d;
    assert e > 0 ==> e * d >= d;
    assert e < 0 ==> e * d <= -d;
  }
}
