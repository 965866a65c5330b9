/** When string searches read past the end of a region. A search compares as many bytes as its value has,
    wherever it looks, and checks the room only in its first scan. */
module ReadBounds {
  import opened Memory
  import opened SearchSpec
  import opened Sessions

  // ---------- the first search ----------

  /** The first scan compares `n` bytes at every offset below `size - n`, computed without sign: it runs
      past the end exactly if the value is longer than the region. */
  lemma FirstScanOverrunIff(size: nat, n: nat)
    requires size < WORD && n < WORD
    ensures (exists y: nat :: y < UnsignedMinus(size, n) && RunsPast(size, n, y)) <==> n > size
  {
    UnsignedMinusIff(size, n);
    if n > size {
      assert RunsPast(size, n, 0);
    }
  }

  // ---------- the search after an unknown-value search ----------

  predicate Overlap(r: Region, q: Region) {
    r.addr < q.End() && q.addr < r.End()
  }

  /** Wherever a region with data now overlaps one with data before, the end of the latter leaves room for
      all but one of the `n` bytes. */
  predicate OverlapsFit(m: seq<Region>, prev: seq<Region>, n: nat) {
    forall i, j ::
      (0 <= i < |m| && 0 <= j < |prev| && m[i].HasData() && prev[j].HasData() && Overlap(m[i], prev[j])) ==>
        prev[j].End() + n <= m[i].End() + 1
  }

  /** The second search with a value reads inside regions exactly if the value is one byte long, or all
      overlaps leave room. */
  lemma SecondFitsIff(m: seq<Region>, prev: seq<Region>, data: seq<byte>)
    requires ValidMap(m) && ValidMap(prev) && data != []
    ensures SecondFits(1, m, prev, data, |data|) <==> |data| == 1 || OverlapsFit(m, prev, |data|)
  {
    if SecondFits(1, m, prev, data, |data|) && |data| > 1 {
      forall i, j | 0 <= i < |m| && 0 <= j < |prev| && m[i].HasData() && prev[j].HasData() && Overlap(m[i], prev[j])
        ensures prev[j].End() + |data| <= m[i].End() + 1
      {
        LastShared(m, prev, data, i, j);
      }
    }
    if |data| == 1 || OverlapsFit(m, prev, |data|) {
      forall a | Lookup(m, a).Some? && Lookup(prev, a).Some?
        ensures CellFits(m, a, |data|)
      {
        LookupCases(m, a);
        LookupCases(prev, a);
        var i :| IsReadableAt(m, a, i) && Lookup(m, a).value == m[i];
        var j :| IsReadableAt(prev, a, j) && Lookup(prev, a).value == prev[j];
        assert Overlap(m[i], prev[j]);
      }
    }
  }

  /** The last address that two overlapping regions share must leave room for the whole value. */
  lemma LastShared(m: seq<Region>, prev: seq<Region>, data: seq<byte>, i: nat, j: nat)
    requires ValidMap(m) && ValidMap(prev) && |data| > 1 && SecondFits(1, m, prev, data, |data|)
    requires i < |m| && j < |prev| && m[i].HasData() && prev[j].HasData() && Overlap(m[i], prev[j])
    ensures prev[j].End() + |data| <= m[i].End() + 1
  {
    assert WellFormed(m[i]) && WellFormed(prev[j]);
    var a := (if m[i].End() < prev[j].End() then m[i].End() else prev[j].End()) - 1;
    assert IsReadableAt(m, a, i) && IsReadableAt(prev, a, j);
    LookupAt(m, a, i);
    LookupAt(prev, a, j);
    assert Aligned(a, 1) && CellFits(m, a, |data|);
  }

  /** In particular, a value of two bytes or more overruns as soon as one region is readable both times. */
  lemma SharedRegionOverruns(m: seq<Region>, prev: seq<Region>, data: seq<byte>, r: Region)
    requires ValidMap(m) && ValidMap(prev) && |data| >= 2
    requires r in m && r in prev && r.HasData()
    ensures !SecondFits(1, m, prev, data, |data|)
  {
    var i :| 0 <= i < |m| && m[i] == r;
    var j :| 0 <= j < |prev| && prev[j] == r;
    assert WellFormed(r) && Overlap(m[i], prev[j]);
    SecondFitsIff(m, prev, data);
  }

  /** Without a value, the second search compares no bytes, so nothing can overrun. */
  lemma ValuelessSecondFits(c: TypeConfig, ops: seq<Op>, states: seq<SearchState>, m: seq<Region>)
    requires ValidConfig(c) && c.isData && Run(c, ops, states)
    requires states[|ops|].memory.Some? && !states[|ops|].valid
    ensures states[|ops|].prevSize == 0 && ReadsFit(c, states[|ops|], m, [])
  {
    SessionResults(c, ops, states);
    UnsearchedSize(c, ops);
    ShortCellFits(m);
    ShortCellFits(states[|ops|].memory.value);
  }

  lemma {:induction false} UnsearchedSize(c: TypeConfig, ops: seq<Op>)
    requires !ModeAfter(c, ops).valid
    ensures ModeAfter(c, ops).prevSize == 0
  {
    if ops != [] {
      UnsearchedSize(c, ops[..|ops| - 1]);
    }
  }

  lemma ShortCellFits(m: seq<Region>)
    ensures forall a: int :: CellFits(m, a, 0)
  {
    forall a: int
      ensures CellFits(m, a, 0)
    {
      LookupCases(m, a);
    }
  }

  // ---------- later searches ----------

  /** Wherever a result is, as many bytes as the value saved last lie in the saved snapshot. */
  ghost predicate SavedFits(s: SearchState) {
    s.valid && s.memory.Some? ==> forall a :: a in s.results ==> CellFits(s.memory.value, a, s.prevSize)
  }

  /** The search is refused, or reads only inside regions. */
  ghost predicate StepFits(c: TypeConfig, s: SearchState, op: Op) {
    op.Search? && Refusal(c, s.memory.Some?, op.pred, op.data).None? ==> ReadsFit(c, s, op.snapshot, op.data)
  }

  lemma StepKeepsSavedFits(c: TypeConfig, s: SearchState, op: Op, s': SearchState)
    requires ValidConfig(c) && Inv(c, s) && Step(c, s, op, s') && StepFits(c, s, op) && SavedFits(s)
    ensures SavedFits(s')
  {
    StepKeepsInv(c, s, op, s');
    if op.Search? && Refusal(c, s.memory.Some?, op.pred, op.data).None? {
      ShortCellFits(op.snapshot);
    }
  }

  lemma {:induction false} RunKeepsSavedFits(c: TypeConfig, ops: seq<Op>, states: seq<SearchState>, i: nat)
    requires ValidConfig(c) && Run(c, ops, states) && i <= |ops|
    requires forall k :: 0 <= k < i ==> StepFits(c, states[k], ops[k])
    ensures SavedFits(states[i])
  {
    if i > 0 {
      RunKeepsSavedFits(c, ops, states, i - 1);
      RunKeepsInv(c, ops, states, i - 1);
      StepKeepsSavedFits(c, states[i - 1], ops[i - 1], states[i]);
    }
  }

  /** As long as no search has overrun before, a later search, with a value or without, reads inside
      regions exactly if every result that is readable now has room for the value in its region. */
  lemma LaterFitsIff(c: TypeConfig, ops: seq<Op>, states: seq<SearchState>, m: seq<Region>,
          data: seq<byte>)
    requires ValidConfig(c) && c.isData && Run(c, ops, states) && states[|ops|].valid
    requires forall k :: 0 <= k < |ops| ==> StepFits(c, states[k], ops[k])
    ensures var s := states[|ops|];
            var n := if data == [] then s.prevSize else |data|;
            s.memory.Some? && (ReadsFit(c, s, m, data) <==>
              forall a :: a in s.results && Lookup(m, a).Some? ==> a + n <= Lookup(m, a).value.End())
  {
    RunKeepsInv(c, ops, states, |ops|);
    RunKeepsSavedFits(c, ops, states, |ops|);
  }
}
