/** The flag test: whether two integers differ in exactly one bit. */
module Bits {
  import opened Memory
  import opened Bytes

  function Xor(a: nat, b: nat): nat
    decreases a + b
  {
    if a == 0 && b == 0 then 0 else (if a % 2 != b % 2 then 1 else 0) + 2 * Xor(a / 2, b / 2)
  }

  function And(a: nat, b: nat): nat
    decreases a + b
  {
    if a == 0 && b == 0 then 0 else (if a % 2 == 1 && b % 2 == 1 then 1 else 0) + 2 * And(a / 2, b / 2)
  }

  /** The test the code applies to the exclusive or of its operands. */
  predicate FlagTest(x: nat) {
    x != 0 && And(x, x - 1) == 0
  }

  /** The number of bit positions in which `a` and `b` differ. */
  function DifferingBits(a: nat, b: nat): nat
    decreases a + b
  {
    if a == 0 && b == 0 then 0 else (if a % 2 != b % 2 then 1 else 0) + DifferingBits(a / 2, b / 2)
  }

  lemma {:induction false} XorCountsDifferences(a: nat, b: nat)
    ensures DifferingBits(Xor(a, b), 0) == DifferingBits(a, b)
    decreases a + b
  {
    if a != 0 || b != 0 {
      XorCountsDifferences(a / 2, b / 2);
      assert Xor(a, b) / 2 == Xor(a / 2, b / 2);
    }
  }

  lemma {:induction false} AndSelf(a: nat)
    ensures And(a, a) == a
  {
    if a != 0 {
      AndSelf(a / 2);
    }
  }

  lemma {:induction false} NoBitsIsZero(x: nat)
    ensures DifferingBits(x, 0) == 0 <==> x == 0
  {
    if x != 0 {
      NoBitsIsZero(x / 2);
    }
  }

  /** Clearing the lowest set bit leaves nothing, exactly if there was one bit. */
  lemma {:induction false} FlagTestIsOneBit(x: nat)
    ensures FlagTest(x) <==> DifferingBits(x, 0) == 1
  {
    if x != 0 {
      var h := x / 2;
      if x % 2 == 0 {
        FlagTestIsOneBit(h);
        assert (x - 1) / 2 == h - 1 && (x - 1) % 2 == 1;
        assert And(x, x - 1) == 2 * And(h, h - 1);
      } else {
        AndSelf(h);
        NoBitsIsZero(h);
        assert (x - 1) / 2 == h && (x - 1) % 2 == 0;
        assert And(x, x - 1) == 2 * And(h, h);
      }
    }
  }

  // ---------- differences byte by byte ----------

  function Pow2(k: nat): (p: nat)
    ensures p > 0
  {
    if k == 0 then 1 else 2 * Pow2(k - 1)
  }

  lemma HalveSum(r: nat, p: nat, q: nat)
    ensures (r + 2 * p * q) % 2 == r % 2
    ensures (r + 2 * p * q) / 2 == r / 2 + p * q
  {
    assert r + 2 * p * q == r + 2 * (p * q);
  }

  /** Differences in the low `k` bits and in the rest add up. */
  lemma {:induction false} DifferencesSplit(k: nat, r1: nat, q1: nat, r2: nat, q2: nat)
    requires r1 < Pow2(k) && r2 < Pow2(k)
    ensures DifferingBits(r1 + Pow2(k) * q1, r2 + Pow2(k) * q2) == DifferingBits(r1, r2) + DifferingBits(q1, q2)
  {
    if k > 0 {
      var p := Pow2(k - 1);
      HalveSum(r1, p, q1);
      HalveSum(r2, p, q2);
      DifferencesSplit(k - 1, r1 / 2, q1, r2 / 2, q2);
    }
  }

  function BytewiseDifferences(a: seq<byte>, b: seq<byte>): nat
    requires |a| == |b|
  {
    if a == [] then 0 else DifferingBits(a[0], b[0]) + BytewiseDifferences(a[1..], b[1..])
  }

  lemma {:induction false} DifferencesAreBytewise(a: seq<byte>, b: seq<byte>)
    requires |a| == |b|
    ensures DifferingBits(LittleEndian(a), LittleEndian(b)) == BytewiseDifferences(a, b)
  {
    if a != [] {
      DifferencesAreBytewise(a[1..], b[1..]);
      assert Pow2(8) == 256 by {
        assert Pow2(4) == 16;
      }
      DifferencesSplit(8, a[0], LittleEndian(a[1..]), b[0], LittleEndian(b[1..]));
    }
  }

  lemma {:induction false} BytewiseAppend(a: seq<byte>, b: seq<byte>, x: byte, y: byte)
    requires |a| == |b|
    ensures BytewiseDifferences(a + [x], b + [y]) == BytewiseDifferences(a, b) + DifferingBits(x, y)
  {
    if a != [] {
      assert (a + [x])[1..] == a[1..] + [x] && (b + [y])[1..] == b[1..] + [y];
      BytewiseAppend(a[1..], b[1..], x, y);
    }
  }

  lemma {:induction false} BytewiseReverse(a: seq<byte>, b: seq<byte>)
    requires |a| == |b|
    ensures BytewiseDifferences(Reverse(a), Reverse(b)) == BytewiseDifferences(a, b)
  {
    if a != [] {
      BytewiseReverse(a[1..], b[1..]);
      assert Reverse(a) == Reverse(a[1..]) + [a[0]] && Reverse(b) == Reverse(b[1..]) + [b[0]];
      BytewiseAppend(Reverse(a[1..]), Reverse(b[1..]), a[0], b[0]);
    }
  }

  /** Byte order does not matter for the number of differing bits. */
  lemma DifferencesIgnoreByteOrder(a: seq<byte>, b: seq<byte>)
    requires |a| == |b|
    ensures DifferingBits(BigEndian(a), BigEndian(b)) == DifferingBits(LittleEndian(a), LittleEndian(b))
  {
    BigEndianIsReversed(a);
    BigEndianIsReversed(b);
    DifferencesAreBytewise(a, b);
    DifferencesAreBytewise(Reverse(a), Reverse(b));
    BytewiseReverse(a, b);
  }

  // ---------- signed operands ----------

  /** A `bits`-wide pattern as the 32-bit pattern that integer promotion of a signed value gives. */
  function SignExtended(x: nat, bits: nat): nat
    requires 0 < bits <= 32 && x < Pow2(bits)
  {
    if x < Pow2(bits - 1) then x else x + Pow2(bits) * (Pow2(32 - bits) - 1)
  }

  lemma {:induction false} AllOnes(k: nat)
    ensures DifferingBits(Pow2(k) - 1, 0) == k
  {
    if k > 0 {
      AllOnes(k - 1);
      assert (Pow2(k) - 1) % 2 == 1 && (Pow2(k) - 1) / 2 == Pow2(k - 1) - 1;
    }
  }

  /** For signed 8-bit and 16-bit operands the test works on the promoted difference: it holds exactly
      if the operands differ in one bit and that bit is not the sign bit. */
  lemma SignedFlagTest(x: nat, bits: nat)
    requires 0 < bits < 31 && x < Pow2(bits)
    ensures FlagTest(SignExtended(x, bits)) <==> DifferingBits(x, 0) == 1 && x < Pow2(bits - 1)
  {
    FlagTestIsOneBit(SignExtended(x, bits));
    if Pow2(bits - 1) <= x {
      DifferencesSplit(bits, x, Pow2(32 - bits) - 1, 0, 0);
      AllOnes(32 - bits);
    }
  }

  /** The exclusive or of two `k`-bit patterns has `k` bits, and its top bit tells whether theirs differ. */
  lemma {:induction false} XorTopBit(k: nat, x: nat, y: nat)
    requires k > 0 && x < Pow2(k) && y < Pow2(k)
    ensures Xor(x, y) < Pow2(k)
    ensures Xor(x, y) < Pow2(k - 1) <==> (x < Pow2(k - 1) <==> y < Pow2(k - 1))
    decreases k
  {
    if k > 1 {
      XorTopBit(k - 1, x / 2, y / 2);
      assert Xor(x, y) / 2 == Xor(x / 2, y / 2);
    } else {
      assert Pow2(1) == 2 && Pow2(0) == 1;
      assert Xor(0, 0) == 0;
    }
  }

  lemma {:induction false} SingleBit(k: nat)
    ensures Xor(0, Pow2(k)) == Pow2(k) && DifferingBits(0, Pow2(k)) == 1
  {
    if k > 0 {
      SingleBit(k - 1);
      var p := Pow2(k - 1);
      assert Pow2(k) == 2 * p && (2 * p) % 2 == 0 && (2 * p) / 2 == p;
      assert Xor(0, 2 * p) == 2 * Xor(0, p) && DifferingBits(0, 2 * p) == DifferingBits(0, p);
    }
  }

  /** 0 and the lowest value of a signed 8-bit or 16-bit type differ in one bit, but not for the flag
      search of that type. */
  lemma SignedFlagExample(bits: nat)
    requires 0 < bits < 31
    ensures var lowest := Pow2(bits - 1);
            && Xor(0, lowest) == lowest && DifferingBits(0, lowest) == 1
            && lowest < Pow2(bits) && !FlagTest(SignExtended(lowest, bits))
  {
    SingleBit(bits - 1);
    XorCountsDifferences(0, Pow2(bits - 1));
    SignedFlagTest(Pow2(bits - 1), bits);
  }

  lemma {:induction false} OneBitIsPower(x: nat) returns (k: nat)
    requires DifferingBits(x, 0) == 1
    ensures x == Pow2(k)
  {
    if x % 2 == 1 {
      NoBitsIsZero(x / 2);
      k := 0;
    } else {
      var h := OneBitIsPower(x / 2);
      k := h + 1;
    }
  }

  /** The flag expression tells whether its operand is a power of two. */
  lemma FlagTestIsPower(x: nat)
    ensures FlagTest(x) <==> exists k: nat :: x == Pow2(k)
  {
    FlagTestIsOneBit(x);
    if FlagTest(x) {
      var k := OneBitIsPower(x);
    }
    if k: nat :| x == Pow2(k) {
      SingleBit(k);
      XorCountsDifferences(0, x);
    }
  }
}
