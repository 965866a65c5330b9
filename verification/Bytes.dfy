/** Integers as byte strings: the encodings that typed searches rely on. */
module Bytes {
  import opened Memory

  function Pow256(n: nat): (p: nat)
    ensures p > 0
    ensures n > 0 ==> p % 2 == 0
  {
    if n == 0 then 1 else 256 * Pow256(n - 1)
  }

  /** The value of a byte string with the least significant byte first: a load on the host. */
  function LittleEndian(b: seq<byte>): nat {
    if b == [] then 0 else b[0] + 256 * LittleEndian(b[1..])
  }

  /** The value of a byte string with the most significant byte first. */
  function BigEndian(b: seq<byte>): nat {
    if b == [] then 0 else 256 * BigEndian(b[..|b| - 1]) + b[|b| - 1]
  }

  /** The `n` low bytes of `v`, least significant first: a store on the host. */
  function ToBytes(v: nat, n: nat): (b: seq<byte>)
    ensures |b| == n
  {
    if n == 0 then [] else [v % 256] + ToBytes(v / 256, n - 1)
  }

  function Reverse<T>(s: seq<T>): (r: seq<T>)
    ensures |r| == |s|
    ensures forall i :: 0 <= i < |s| ==> r[i] == s[|s| - 1 - i]
  {
    seq(|s|, i requires 0 <= i < |s| => s[|s| - 1 - i])
  }

  /** The value of `width` bytes after exchanging the byte order. */
  function ByteSwap(v: nat, width: nat): nat {
    LittleEndian(Reverse(ToBytes(v, width)))
  }

  lemma ReverseTwice<T>(s: seq<T>)
    ensures Reverse(Reverse(s)) == s
  {
  }

  lemma {:induction false} BigEndianIsReversed(b: seq<byte>)
    ensures LittleEndian(Reverse(b)) == BigEndian(b)
  {
    if b != [] {
      BigEndianIsReversed(b[..|b| - 1]);
      assert Reverse(b)[1..] == Reverse(b[..|b| - 1]);
    }
  }

  lemma {:induction false} LittleEndianBound(b: seq<byte>)
    ensures LittleEndian(b) < Pow256(|b|)
  {
    if b != [] {
      LittleEndianBound(b[1..]);
    }
  }

  lemma {:induction false} ToBytesOfLittleEndian(b: seq<byte>)
    ensures ToBytes(LittleEndian(b), |b|) == b
  {
    if b != [] {
      ToBytesOfLittleEndian(b[1..]);
      var rest := LittleEndian(b[1..]);
      assert LittleEndian(b) / 256 == rest && LittleEndian(b) % 256 == b[0];
    }
  }

  lemma RemainderUnique(v: int, d: int, k: int, r: int)
    requires d > 0 && v == d * k + r && 0 <= r < d
    ensures v % d == r
  {
    var q := v / d;
    assert v == d * q + v % d;
    assert d * (k - q) == v % d - r;
    if k > q {
      MulAtLeast(d, k - q);
    } else if k < q {
      MulAtLeast(d, q - k);
    }
  }

  lemma MulAtLeast(d: int, n: int)
    requires d > 0 && n >= 1
    ensures d * n >= d
  {
  }

  /** Storing `n` bytes and loading them back reduces the value modulo 2 to the power `8 n`. */
  lemma {:induction false} StoreLoad(v: nat, n: nat)
    ensures LittleEndian(ToBytes(v, n)) == v % Pow256(n)
  {
    if n > 0 {
      StoreLoad(v / 256, n - 1);
      SplitRemainder(v, Pow256(n - 1));
      assert ToBytes(v, n)[1..] == ToBytes(v / 256, n - 1);
    }
  }

  lemma SplitRemainder(v: nat, p: nat)
    requires p > 0
    ensures v % (256 * p) == v % 256 + 256 * ((v / 256) % p)
  {
    var q := v / 256;
    var k, s := q / p, q % p;
    Regroup(p, k, s);
    RemainderUnique(v, 256 * p, k, 256 * s + v % 256);
  }

  lemma Regroup(p: int, k: int, s: int)
    ensures 256 * (p * k + s) == (256 * p) * k + 256 * s
  {
  }

  /** Cutting a stored value short keeps its low bytes. */
  lemma {:induction false} ToBytesPrefix(v: nat, n: nat, m: nat)
    requires m <= n
    ensures ToBytes(v, n)[..m] == ToBytes(v, m)
  {
    if m > 0 {
      ToBytesPrefix(v / 256, n - 1, m - 1);
      assert ToBytes(v, n)[..m] == [v % 256] + ToBytes(v / 256, n - 1)[..m - 1];
    }
  }

  lemma SwapOfLoaded(b: seq<byte>)
    ensures ByteSwap(LittleEndian(b), |b|) == BigEndian(b)
  {
    ToBytesOfLittleEndian(b);
    BigEndianIsReversed(b);
  }

  /** Two's complement reading of a `width`-byte value. */
  function ToSigned(v: nat, width: nat): int {
    if 2 * v < Pow256(width) then v else v - Pow256(width)
  }

  predicate SignBit(v: nat, width: nat) {
    Pow256(width) <= 2 * v
  }
}
