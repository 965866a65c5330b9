/** What the steps of a search say, written out on the regions and bytes of the snapshots. */
module SearchMeaning {
  import opened Memory
  import opened SearchSpec

  /** The cell at `a`, as long as the value, lies in a region of `m` that has data, and does not end where the
      region ends; comparing its bytes with the value satisfies the predicate. */
  ghost predicate FoundFirst(c: TypeConfig, p: Predicate, m: seq<Region>, data: seq<byte>, a: nat) {
    && p in c.evaluators && Aligned(a, c.fieldSize)
    && exists r ::
         && r in m && r.data != [] && r.addr <= a && a + |data| < r.addr + r.size
         && c.evaluators[p](r.Cell(a, |data|), data)
  }

  /** Address `a` lies in regions with data of both snapshots; comparing the bytes there now with the value or,
      without one, with the bytes there before satisfies the predicate. The comparison is `w` bytes wide. */
  ghost predicate FoundAgain(c: TypeConfig, p: Predicate, m: seq<Region>, prev: seq<Region>, data: seq<byte>, w: nat,
          a: nat)
  {
    && p in c.evaluators
    && exists r, q ::
         && r in m && r.data != [] && r.addr <= a < r.addr + r.size
         && q in prev && q.data != [] && q.addr <= a < q.addr + q.size
         && c.evaluators[p](r.Cell(a, w), if data == [] then q.Cell(a, w) else data)
  }

  /** How many bytes are compared: a field or, for strings, the value given now or else given last time. */
  function Compared(c: TypeConfig, data: seq<byte>, given: nat): nat {
    if !c.isData then c.fieldSize else if data != [] then |data| else given
  }

  /** A search is accepted if its type has the predicate, a value of fixed size has that size, and there is a
      value or something to compare with or, for types of fixed size, anything is searched for. */
  lemma AcceptedMeaning(c: TypeConfig, hasMemory: bool, p: Predicate, data: seq<byte>)
    ensures Refusal(c, hasMemory, p, data).None? <==>
      && p in c.evaluators
      && (c.isData || data == [] || |data| == c.fieldSize)
      && (hasMemory || data != [] || (p == All && !c.isData))
  {
  }

  /** What an accepted search does, in each of the three phases. The initial search for anything saves the
      snapshot. Any other first search finds the first `cap` matches. The search after an initial search finds
      the matches among all aligned addresses, and a later one those among the results before, but not 0. */
  lemma StepMeaning(c: TypeConfig, s: SearchState, m: seq<Region>, p: Predicate, data: seq<byte>, cap: nat,
          s': SearchState)
    requires ValidConfig(c) && Inv(c, s) && Refusal(c, s.memory.Some?, p, data).None?
    requires Step(c, s, Search(m, p, data, cap), s')
    ensures s'.memory == Some(m)
    ensures forall i, j :: 0 <= i < j < |s'.results| ==> s'.results[i] < s'.results[j]
    ensures s.memory.None? && p == All ==> !s'.valid && s'.results == [] && s'.prevSize == s.prevSize
    ensures s.memory.Some? || p != All ==> s'.valid && s'.prevSize == |data|
    ensures s.memory.None? && p != All ==>
      && |s'.results| <= cap
      && (forall a :: a in s'.results ==> FoundFirst(c, p, m, data, a))
      && (forall a: nat :: FoundFirst(c, p, m, data, a) && a !in s'.results ==>
            |s'.results| == cap && forall b :: b in s'.results ==> b < a)
    ensures s.memory.Some? && !s.valid ==>
      forall a: nat :: a in s'.results <==>
        Aligned(a, c.fieldSize) && FoundAgain(c, p, m, s.memory.value, data, Compared(c, data, s.prevSize), a)
    ensures s.valid ==>
      forall a: nat :: a in s'.results <==>
        && a in s.results && a != 0
        && FoundAgain(c, p, m, s.memory.value, data, Compared(c, data, s.prevSize), a)
  {
    if s.memory.None? && p != All {
      FirstMeaning(c, m, p, data, cap, s'.results);
    } else if s.memory.Some? {
      AgainMeaning(c, p, m, s.memory.value, data, Compared(c, data, s.prevSize));
    }
  }

  lemma FirstMeaning(c: TypeConfig, m: seq<Region>, p: Predicate, data: seq<byte>, cap: nat, res: seq<nat>)
    requires ValidConfig(c) && ValidMap(m) && p in c.evaluators
    requires FirstResults(c.evaluators[p], c.fieldSize, m, data, cap, res)
    ensures forall a :: a in res ==> FoundFirst(c, p, m, data, a)
    ensures forall a: nat :: FoundFirst(c, p, m, data, a) && a !in res ==>
      |res| == cap && forall b :: b in res ==> b < a
  {
    forall a: nat
      ensures FoundFirst(c, p, m, data, a) <==> FirstMatch(c.evaluators[p], c.fieldSize, m, data, a)
    {
      LookupMeaning(m, a);
    }
  }

  lemma AgainMeaning(c: TypeConfig, p: Predicate, m: seq<Region>, prev: seq<Region>, data: seq<byte>, w: nat)
    requires ValidMap(m) && ValidMap(prev) && p in c.evaluators
    ensures forall a: nat :: FoundAgain(c, p, m, prev, data, w, a) <==>
      && Lookup(m, a).Some? && Lookup(prev, a).Some?
      && c.evaluators[p](CellIn(m, a, w), Target(prev, data, a, w))
  {
    forall a: nat
      ensures FoundAgain(c, p, m, prev, data, w, a) <==>
        && Lookup(m, a).Some? && Lookup(prev, a).Some?
        && c.evaluators[p](CellIn(m, a, w), Target(prev, data, a, w))
    {
      LookupMeaning(m, a);
      LookupMeaning(prev, a);
    }
  }

  /** What a deletion does: the results in the range go, unless it ends at the last address. */
  lemma DeleteMeaning(c: TypeConfig, s: SearchState, start: nat, end: nat, s': SearchState)
    requires Step(c, s, Delete(start, end), s')
    ensures s'.memory == s.memory && s'.valid == s.valid && s'.prevSize == s.prevSize
    ensures forall i, j :: 0 <= i < j < |s'.results| ==> s'.results[i] < s'.results[j]
    ensures forall a: nat :: a in s'.results <==>
      a in s.results && (end == 0xFFFF_FFFF_FFFF_FFFF || a < start || end < a)
  {
  }
}
