/** The integer rows of the search-type table, and reading the value to search for. The host is
    little-endian. */
module Comparators {
  import opened Memory
  import opened SearchSpec
  import opened Bytes
  import opened Bits

  datatype IntType = IntType(width: nat, signed: bool, reversed: bool)

  predicate ValidType(t: IntType) {
    IsFieldSize(t.width) && (t.reversed ==> t.width > 1)
  }

  predicate IsOrder(p: Predicate) {
    p != Flag && p != All
  }

  /** The six order operators on integers. */
  predicate Holds(p: Predicate, x: int, y: int)
    requires IsOrder(p)
  {
    match p
    case Less => x < y
    case Greater => x > y
    case LessOrEqual => x <= y
    case GreaterOrEqual => x >= y
    case Equal => x == y
    case NotEqual => x != y
  }

  /** What the comparators see of a cell: the loaded integer, byte-swapped for a reversed type. Whether
      swapping a signed integer gives a signed integer again depends on the swap function's type, so
      both readings are modelled: `signedSwap` says that it does. */
  function Operand(t: IntType, signedSwap: bool, cell: seq<byte>): int {
    var raw := LittleEndian(cell);
    if !t.reversed then (if t.signed then ToSigned(raw, t.width) else raw)
    else
      var swapped := ByteSwap(raw, t.width);
      if t.signed && signedSwap then ToSigned(swapped, t.width) else swapped
  }

  /** The flag comparator ignores the byte order. Signed operands of 8 and 16 bits are promoted. */
  predicate FlagOperands(t: IntType, a: seq<byte>, b: seq<byte>) {
    var x := Xor(LittleEndian(a), LittleEndian(b));
    if t.signed && t.width <= 2 && 0 < t.width && x < Pow2(8 * t.width) then FlagTest(SignExtended(x, 8 * t.width))
    else FlagTest(x)
  }

  function IntEvaluator(t: IntType, signedSwap: bool, p: Predicate): Evaluator {
    match p
    case All => (a: seq<byte>, b: seq<byte>) => true
    case Flag => (a: seq<byte>, b: seq<byte>) => FlagOperands(t, a, b)
    case _ => (a: seq<byte>, b: seq<byte>) => Holds(p, Operand(t, signedSwap, a), Operand(t, signedSwap, b))
  }

  function IntConfig(t: IntType, signedSwap: bool): TypeConfig {
    TypeConfig(map p | p in {Less, Greater, LessOrEqual, GreaterOrEqual, Equal, NotEqual, Flag, All}
                 :: IntEvaluator(t, signedSwap, p), t.width, false)
  }

  lemma IntConfigValid(t: IntType, signedSwap: bool)
    requires ValidType(t)
    ensures ValidConfig(IntConfig(t, signedSwap))
    ensures forall p :: p in IntConfig(t, signedSwap).evaluators
                     && IntConfig(t, signedSwap).evaluators[p] == IntEvaluator(t, signedSwap, p)
  {
    forall p: Predicate
      ensures p in IntConfig(t, signedSwap).evaluators
    {
      match p
      case Less =>
      case _ =>
    }
  }

  // ---------- what cells and typed values mean ----------

  /** The number stored in a cell of type `t`: byte order and sign according to the type. */
  function Decode(t: IntType, cell: seq<byte>): int {
    var v := if t.reversed then BigEndian(cell) else LittleEndian(cell);
    if t.signed then ToSigned(v, t.width) else v
  }

  /** A typed 64-bit number, reduced to the width and sign of the type. */
  function Reduce(t: IntType, v: nat): int {
    var r := v % Pow256(t.width);
    if t.signed then ToSigned(r, t.width) else r
  }

  /** Writes the number into an eight-byte buffer, swaps its low bytes for a reversed type and cuts the
      buffer to the size of the type. */
  method ReadTypedValue(t: IntType, v: nat) returns (buffer: seq<byte>)
    requires ValidType(t) && v < WORD
    ensures |buffer| == t.width
    ensures buffer == Encode(t, v)
  {
    buffer := ToBytes(v, 8);
    if t.reversed {
      if t.width == 2 {
        buffer := Reverse(buffer[..2]) + buffer[2..];
      } else if t.width == 4 {
        buffer := Reverse(buffer[..4]) + buffer[4..];
      } else if t.width == 8 {
        buffer := Reverse(buffer);
      }
    }
    buffer := buffer[..t.width];
    ToBytesPrefix(v, 8, t.width);
    if t.width == 8 {
      assert ToBytes(v, 8)[..8] == ToBytes(v, 8);
    }
  }

  function Encode(t: IntType, v: nat): (b: seq<byte>)
    ensures |b| == t.width
  {
    if t.reversed then Reverse(ToBytes(v, t.width)) else ToBytes(v, t.width)
  }

  /** Decoding the buffer gives back the number that was typed, reduced to the type. */
  lemma TypedValueRoundTrip(t: IntType, v: nat)
    ensures Decode(t, Encode(t, v)) == Reduce(t, v)
  {
    StoreLoad(v, t.width);
    if t.reversed {
      BigEndianIsReversed(Encode(t, v));
      ReverseTwice(ToBytes(v, t.width));
    }
  }

  /** A negative number is typed as its 64-bit two's complement; a signed type gives it back. */
  lemma NegativeValueReduces(t: IntType, n: int)
    requires ValidType(t) && t.signed && n < 0 && 0 <= 2 * n + Pow256(t.width)
    ensures 0 <= WORD + n && Reduce(t, WORD + n) == n
  {
    var p := Pow256(t.width);
    assert Pow256(1) == 256 && Pow256(2) == 0x1_0000;
    assert Pow256(4) == 0x1_0000_0000 by {
      assert Pow256(3) == 0x100_0000;
    }
    assert Pow256(8) == WORD by {
      assert Pow256(6) == 0x1_0000_0000_0000;
    }
    var k := WORD / p;
    assert WORD == p * k;
    RemainderUnique(WORD + n, p, k - 1, p + n);
  }

  /** What a comparator's operand is, in terms of the number stored in the cell. */
  lemma OperandMeaning(t: IntType, signedSwap: bool, cell: seq<byte>)
    requires |cell| == t.width
    ensures Operand(t, signedSwap, cell) ==
            if t.reversed && t.signed && !signedSwap then BigEndian(cell) else Decode(t, cell)
  {
    SwapOfLoaded(cell);
  }

  /** What the six operators do to two cells, for every integer type whose comparators keep the sign. */
  lemma ComparisonMeaning(t: IntType, signedSwap: bool, a: seq<byte>, b: seq<byte>)
    requires |a| == t.width && |b| == t.width && (signedSwap || !t.signed || !t.reversed)
    ensures IntEvaluator(t, signedSwap, Less)(a, b) <==> Decode(t, a) < Decode(t, b)
    ensures IntEvaluator(t, signedSwap, Greater)(a, b) <==> Decode(t, a) > Decode(t, b)
    ensures IntEvaluator(t, signedSwap, LessOrEqual)(a, b) <==> Decode(t, a) <= Decode(t, b)
    ensures IntEvaluator(t, signedSwap, GreaterOrEqual)(a, b) <==> Decode(t, a) >= Decode(t, b)
    ensures IntEvaluator(t, signedSwap, Equal)(a, b) <==> Decode(t, a) == Decode(t, b)
    ensures IntEvaluator(t, signedSwap, NotEqual)(a, b) <==> Decode(t, a) != Decode(t, b)
  {
    OperandMeaning(t, signedSwap, a);
    OperandMeaning(t, signedSwap, b);
  }

  /** Main result for one comparison. For every integer type whose comparators keep the sign, comparing
      a memory cell with a typed value compares the number in the cell with the number typed. */
  lemma ComparisonWithValue(t: IntType, signedSwap: bool, p: Predicate, cell: seq<byte>, v: nat)
    requires IsOrder(p) && |cell| == t.width
    requires signedSwap || !t.signed || !t.reversed
    ensures var x, y := Decode(t, cell), Reduce(t, v);
            IntEvaluator(t, signedSwap, p)(cell, Encode(t, v)) <==>
              match p
              case Less => x < y
              case Greater => x > y
              case LessOrEqual => x <= y
              case GreaterOrEqual => x >= y
              case Equal => x == y
              case _ => x != y
  {
    OperandMeaning(t, signedSwap, cell);
    OperandMeaning(t, signedSwap, Encode(t, v));
    TypedValueRoundTrip(t, v);
  }

  /** If the swap function returns an unsigned integer, a reversed signed comparison is right exactly
      if it only tests equality or the two numbers have the same sign. */
  lemma UnsignedSwapComparison(t: IntType, p: Predicate, a: seq<byte>, b: seq<byte>)
    requires IsOrder(p) && |a| == t.width && |b| == t.width && t.signed && t.reversed
    ensures (IntEvaluator(t, false, p)(a, b) <==> Holds(p, Decode(t, a), Decode(t, b)))
       <==> (p == Equal || p == NotEqual || (Decode(t, a) < 0 <==> Decode(t, b) < 0))
  {
    OperandMeaning(t, false, a);
    OperandMeaning(t, false, b);
    BigEndianIsReversed(a);
    BigEndianIsReversed(b);
    LittleEndianBound(Reverse(a));
    LittleEndianBound(Reverse(b));
  }

  /** With such a swap, a cell holding -1 is not below 1. */
  lemma UnsignedSwapExample()
    ensures var t := IntType(2, true, true);
            && Decode(t, [0xFF, 0xFF]) == -1 && Decode(t, [0, 1]) == 1
            && !IntEvaluator(t, false, Less)([0xFF, 0xFF], [0, 1])
  {
    var t := IntType(2, true, true);
    var a: seq<byte>, b: seq<byte> := [0xFF, 0xFF], [0, 1];
    assert Pow256(2) == 0x1_0000 by {
      assert Pow256(1) == 256;
    }
    assert BigEndian(a[..1]) == 0xFF && BigEndian(b[..1]) == 0 by {
      assert BigEndian(a[..1][..0]) == 0 && BigEndian(b[..1][..0]) == 0;
    }
    OperandMeaning(t, false, a);
    OperandMeaning(t, false, b);
  }

  /** The bits of the number stored in a cell, whatever its sign. */
  function Pattern(t: IntType, cell: seq<byte>): nat {
    if t.reversed then BigEndian(cell) else LittleEndian(cell)
  }

  lemma PatternDifferences(t: IntType, a: seq<byte>, b: seq<byte>)
    requires |a| == |b|
    ensures DifferingBits(Pattern(t, a), Pattern(t, b)) == DifferingBits(Xor(LittleEndian(a), LittleEndian(b)), 0)
  {
    XorCountsDifferences(LittleEndian(a), LittleEndian(b));
    DifferencesIgnoreByteOrder(a, b);
  }

  /** Main result on flag searches. The flag comparator of an integer type, reversed or not, finds exactly
      the one-bit changes, if the type is unsigned or wider than 16 bits. */
  lemma FlagMeaning(t: IntType, signedSwap: bool, a: seq<byte>, b: seq<byte>)
    requires |a| == t.width && |b| == t.width && (!t.signed || t.width > 2)
    ensures IntEvaluator(t, signedSwap, Flag)(a, b) <==> DifferingBits(Pattern(t, a), Pattern(t, b)) == 1
  {
    FlagTestIsOneBit(Xor(LittleEndian(a), LittleEndian(b)));
    PatternDifferences(t, a, b);
  }

  /** The bit that the signed comparators of 8 and 16 bits overlook, as a bit of the stored number: the top
      bit of the byte loaded last. That is the sign bit or, in a reversed type, bit 7 of the number. */
  predicate OverlookedBit(t: IntType, cell: seq<byte>) {
    if t.reversed then Pattern(t, cell) % 256 >= 128 else SignBit(Pattern(t, cell), t.width)
  }

  /** For the signed types of 8 and 16 bits, the flag comparator finds exactly the one-bit changes of all
      bits but one. */
  lemma SignedFlagMeaning(t: IntType, signedSwap: bool, a: seq<byte>, b: seq<byte>)
    requires t.signed && (t.width == 1 || t.width == 2) && |a| == t.width && |b| == t.width
    ensures IntEvaluator(t, signedSwap, Flag)(a, b) <==>
      DifferingBits(Pattern(t, a), Pattern(t, b)) == 1 && (OverlookedBit(t, a) <==> OverlookedBit(t, b))
  {
    var bits, x, y := 8 * t.width, LittleEndian(a), LittleEndian(b);
    LoadedTopBit(t, a);
    LoadedTopBit(t, b);
    XorTopBit(bits, x, y);
    SignedFlagTest(Xor(x, y), bits);
    PatternDifferences(t, a, b);
  }

  lemma BytePowers()
    ensures Pow2(7) == 128 && Pow2(8) == 256 && Pow2(15) == 0x8000 && Pow2(16) == 0x1_0000
    ensures Pow256(1) == 256 && Pow256(2) == 0x1_0000
  {
    assert Pow2(4) == 16;
    assert Pow2(7) == 128;
    assert Pow2(11) == 2048;
    assert Pow2(15) == 0x8000;
  }

  lemma LowByte(high: int, low: byte)
    ensures (256 * high + low) % 256 == low
  {
  }

  /** The top bit of the loaded value, as a bit of the stored number. */
  lemma LoadedTopBit(t: IntType, cell: seq<byte>)
    requires (t.width == 1 || t.width == 2) && |cell| == t.width
    ensures LittleEndian(cell) < Pow2(8 * t.width)
    ensures Pow2(8 * t.width - 1) <= LittleEndian(cell) <==> OverlookedBit(t, cell)
  {
    BytePowers();
    if t.width == 1 {
      assert LittleEndian(cell) == cell[0] && BigEndian(cell) == cell[0] by {
        assert cell[1..] == [] && cell[..0] == [];
      }
    } else {
      TwoBytes(cell);
      LowByte(cell[0], cell[1]);
    }
  }

  /** One changed bit that is not found, in either byte order: the sign bit of 0, and bit 7 of 0. */
  lemma SignedFlagExamples()
    ensures var t, zero, lowest := IntType(2, true, false), [0, 0], [0, 0x80];
            && Decode(t, zero) == 0 && Decode(t, lowest) == -0x8000
            && DifferingBits(Pattern(t, zero), Pattern(t, lowest)) == 1
            && !IntEvaluator(t, true, Flag)(zero, lowest)
    ensures var t, zero, changed := IntType(2, true, true), [0, 0], [0, 0x80];
            && Decode(t, zero) == 0 && Decode(t, changed) == 128
            && DifferingBits(Pattern(t, zero), Pattern(t, changed)) == 1
            && !IntEvaluator(t, true, Flag)(zero, changed)
  {
    var zero: seq<byte>, cell: seq<byte> := [0, 0], [0, 0x80];
    var t, r := IntType(2, true, false), IntType(2, true, true);
    BytePowers();
    TwoBytes(zero);
    TwoBytes(cell);
    SingleBit(15);
    SingleBit(7);
    SignedFlagMeaning(t, true, zero, cell);
    SignedFlagMeaning(r, true, zero, cell);
  }

  lemma TwoBytes(cell: seq<byte>)
    requires |cell| == 2
    ensures LittleEndian(cell) == cell[0] + 256 * (cell[1] as int)
    ensures BigEndian(cell) == 256 * (cell[0] as int) + cell[1]
  {
    assert LittleEndian(cell[1..]) == cell[1] by {
      assert LittleEndian(cell[1..][1..]) == 0;
    }
    assert BigEndian(cell[..1]) == cell[0] by {
      assert BigEndian(cell[..1][..0]) == 0;
    }
  }

  /** A reversed type does find a change of the sign bit alone. */
  lemma ReversedSignExample()
    ensures var t, zero, lowest := IntType(2, true, true), [0, 0], [0x80, 0];
            && Decode(t, zero) == 0 && Decode(t, lowest) == -0x8000
            && IntEvaluator(t, true, Flag)(zero, lowest)
  {
    var zero: seq<byte>, cell: seq<byte> := [0, 0], [0x80, 0];
    var r := IntType(2, true, true);
    BytePowers();
    TwoBytes(zero);
    TwoBytes(cell);
    SingleBit(15);
    SignedFlagMeaning(r, true, zero, cell);
  }

  // ---------- typed searches ----------

  lemma CellWidth(m: seq<Region>, a: int, w: nat)
    requires ValidMap(m) && Lookup(m, a).Some? && CellFits(m, a, w)
    ensures |CellIn(m, a, w)| == w
  {
    LookupCases(m, a);
    var i :| IsReadableAt(m, a, i) && Lookup(m, a).value == m[i];
    assert WellFormed(m[i]);
  }

  /** A first search for a typed number: the results are the scanned cells that hold a number standing
      in the given relation to it. */
  lemma TypedFirstSearch(t: IntType, signedSwap: bool, m: seq<Region>, p: Predicate, v: nat,
          cap: nat, s: SearchState)
    requires ValidType(t) && IsOrder(p) && (signedSwap || !t.signed || !t.reversed)
    requires Step(IntConfig(t, signedSwap), FRESH, Search(m, p, Encode(t, v), cap), s) && |s.results| < cap
    ensures s.valid
    ensures forall a: nat :: a in s.results <==>
      && Lookup(m, a).Some? && Aligned(a, t.width) && a + t.width < Lookup(m, a).value.End()
      && var x, y := Decode(t, CellIn(m, a, t.width)), Reduce(t, v);
         match p
         case Less => x < y
         case Greater => x > y
         case LessOrEqual => x <= y
         case GreaterOrEqual => x >= y
         case Equal => x == y
         case _ => x != y
  {
    IntConfigValid(t, signedSwap);
    forall a: nat | Lookup(m, a).Some? && a + t.width < Lookup(m, a).value.End()
      ensures IntEvaluator(t, signedSwap, p)(CellIn(m, a, t.width), Encode(t, v))
         <==> Holds(p, Decode(t, CellIn(m, a, t.width)), Reduce(t, v))
    {
      CellWidth(m, a, t.width);
      ComparisonWithValue(t, signedSwap, p, CellIn(m, a, t.width), v);
    }
  }

  /** The number that cells are compared with: the one typed, or the one at the address before. */
  ghost function TypedTarget(t: IntType, prev: seq<Region>, v: Option<nat>, a: nat): int {
    if v.Some? then Reduce(t, v.value) else Decode(t, CellIn(prev, a, t.width))
  }

  function TypedData(t: IntType, v: Option<nat>): seq<byte> {
    if v.Some? then Encode(t, v.value) else []
  }

  /** Comparing a cell that is readable now and was before compares the numbers. */
  lemma TypedComparison(t: IntType, signedSwap: bool, m: seq<Region>, prev: seq<Region>,
          p: Predicate, v: Option<nat>, a: nat)
    requires ValidType(t) && IsOrder(p) && (signedSwap || !t.signed || !t.reversed)
    requires ValidMap(m) && ValidMap(prev) && Aligned(a, t.width)
    requires Lookup(m, a).Some? && Lookup(prev, a).Some?
    ensures IntEvaluator(t, signedSwap, p)(CellIn(m, a, t.width), Target(prev, TypedData(t, v), a, t.width))
       <==> Holds(p, Decode(t, CellIn(m, a, t.width)), TypedTarget(t, prev, v, a))
  {
    AlignedCellFits(m, a, t.width);
    AlignedCellFits(prev, a, t.width);
    CellWidth(m, a, t.width);
    CellWidth(prev, a, t.width);
    if v.Some? {
      ComparisonWithValue(t, signedSwap, p, CellIn(m, a, t.width), v.value);
    } else {
      OperandMeaning(t, signedSwap, CellIn(m, a, t.width));
      OperandMeaning(t, signedSwap, CellIn(prev, a, t.width));
    }
  }

  /** The search after an unknown-value search, with a typed number or without: the results are the aligned
      cells, readable both times, whose number stands in the given relation to the number typed or to the
      number at the same address before. */
  lemma TypedSecondSearch(t: IntType, signedSwap: bool, s: SearchState, m: seq<Region>,
          p: Predicate, v: Option<nat>, cap: nat, s': SearchState)
    requires ValidType(t) && IsOrder(p) && (signedSwap || !t.signed || !t.reversed)
    requires Inv(IntConfig(t, signedSwap), s) && s.memory.Some? && !s.valid
    requires Step(IntConfig(t, signedSwap), s, Search(m, p, TypedData(t, v), cap), s')
    ensures s'.valid
    ensures forall a: nat :: a in s'.results <==>
      && Lookup(m, a).Some? && Lookup(s.memory.value, a).Some? && Aligned(a, t.width)
      && var x := Decode(t, CellIn(m, a, t.width));
         var y := if v.Some? then Reduce(t, v.value) else Decode(t, CellIn(s.memory.value, a, t.width));
         match p
         case Less => x < y
         case Greater => x > y
         case LessOrEqual => x <= y
         case GreaterOrEqual => x >= y
         case Equal => x == y
         case _ => x != y
  {
    IntConfigValid(t, signedSwap);
    forall a: nat | Lookup(m, a).Some? && Lookup(s.memory.value, a).Some? && Aligned(a, t.width)
      ensures IntEvaluator(t, signedSwap, p)(CellIn(m, a, t.width),
                                             Target(s.memory.value, TypedData(t, v), a, t.width))
         <==> Holds(p, Decode(t, CellIn(m, a, t.width)), TypedTarget(t, s.memory.value, v, a))
    {
      TypedComparison(t, signedSwap, m, s.memory.value, p, v, a);
    }
  }

  /** A later search, with a typed number or without, keeps the results whose number now stands in the given
      relation to the number typed or to the number at the same address in the previous snapshot. */
  lemma TypedLaterSearch(t: IntType, signedSwap: bool, s: SearchState, m: seq<Region>,
          p: Predicate, v: Option<nat>, cap: nat, s': SearchState)
    requires ValidType(t) && IsOrder(p) && (signedSwap || !t.signed || !t.reversed)
    requires Inv(IntConfig(t, signedSwap), s) && s.valid
    requires Step(IntConfig(t, signedSwap), s, Search(m, p, TypedData(t, v), cap), s')
    ensures forall a: nat :: a in s'.results <==>
      && a in s.results && a != 0 && Lookup(m, a).Some?
      && var x := Decode(t, CellIn(m, a, t.width));
         var y := if v.Some? then Reduce(t, v.value) else Decode(t, CellIn(s.memory.value, a, t.width));
         match p
         case Less => x < y
         case Greater => x > y
         case LessOrEqual => x <= y
         case GreaterOrEqual => x >= y
         case Equal => x == y
         case _ => x != y
  {
    IntConfigValid(t, signedSwap);
    forall a: nat | a in s.results && Lookup(m, a).Some?
      ensures IntEvaluator(t, signedSwap, p)(CellIn(m, a, t.width),
                                             Target(s.memory.value, TypedData(t, v), a, t.width))
         <==> Holds(p, Decode(t, CellIn(m, a, t.width)), TypedTarget(t, s.memory.value, v, a))
    {
      TypedComparison(t, signedSwap, m, s.memory.value, p, v, a);
    }
  }
}
