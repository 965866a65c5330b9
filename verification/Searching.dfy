/** The narrowing search engine: the class that holds one search iteration, with its three scans. */
module Searching {
  import opened Memory
  import opened SearchSpec

  // ---------- arithmetic of aligned offsets ----------

  lemma AlignedSum(base: int, y: int, f: nat)
    requires IsFieldSize(f) && base % 8 == 0
    ensures Aligned(base + y, f) <==> Aligned(y, f)
  {
    if f == 2 {
      Sum2(base / 8 * 4, y);
    } else if f == 4 {
      Sum4(base / 8 * 2, y);
    } else if f == 8 {
      Sum8(base / 8, y);
    }
  }

  lemma Sum2(k: int, y: int)
    ensures (2 * k + y) % 2 == y % 2
  {
  }

  lemma Sum4(k: int, y: int)
    ensures (4 * k + y) % 4 == y % 4
  {
  }

  lemma Sum8(k: int, y: int)
    ensures (8 * k + y) % 8 == y % 8
  {
  }

  lemma AlignedNext(y: int, f: nat)
    requires IsFieldSize(f) && Aligned(y, f)
    ensures Aligned(y + f, f)
    ensures forall z :: y < z < y + f ==> !Aligned(z, f)
  {
    AlignedPlus(y, f, f);
    forall z | y < z < y + f
      ensures !Aligned(z, f)
    {
      AlignedPlus(y, z - y, f);
    }
  }

  /** Aligned addresses are apart by aligned distances. */
  lemma AlignedPlus(y: int, d: int, f: nat)
    requires IsFieldSize(f) && Aligned(y, f)
    ensures Aligned(y + d, f) <==> Aligned(d, f)
  {
    if f == 2 {
      assert y == 2 * (y / 2);
      Sum2(y / 2, d);
    } else if f == 4 {
      assert y == 4 * (y / 4);
      Sum4(y / 4, d);
    } else if f == 8 {
      assert y == 8 * (y / 8);
      Sum8(y / 8, d);
    }
  }

  lemma AlignedDistance(y: int, z: int, f: nat)
    requires IsFieldSize(f) && Aligned(y, f) && Aligned(z, f) && y < z
    ensures y + f <= z && Aligned(z - y, f)
  {
    AlignedPlus(y, z - y, f);
    AlignedNext(y, f);
  }

  /** Skipping ahead to the start of a region of the previous snapshot keeps offsets aligned, and the
      subtraction in the skip does not wrap. */
  lemma SkipAligned(region: Region, oldRegion: Region, y: nat, f: nat)
    requires IsFieldSize(f) && WellFormed(region) && WellFormed(oldRegion) && Aligned(y, f)
    requires region.addr + y < oldRegion.addr
    ensures 0 <= oldRegion.addr - region.addr - f && y < oldRegion.addr - region.addr
    ensures Aligned(oldRegion.addr - region.addr, f)
  {
    AlignedSum(oldRegion.addr, 0, f);
    AlignedSum(region.addr, y, f);
    AlignedSum(region.addr, oldRegion.addr - region.addr, f);
    AlignedDistance(region.addr + y, oldRegion.addr, f);
  }

  // ---------- which region decides about an address ----------

  lemma LookupInStretch(m: seq<Region>, i: nat, a: int)
    requires ValidMap(m) && i < |m| && EndBefore(m, i) <= a < m[i].End()
    ensures Lookup(m, a) == if m[i].HasData() && m[i].addr <= a then Some(m[i]) else None
  {
    forall j | 0 <= j < |m| && j != i
      ensures !IsReadableAt(m, a, j)
    {
      if j < i {
        assert j < i - 1 ==> m[j].End() <= m[i - 1].addr;
      } else {
        assert m[i].End() <= m[j].addr;
      }
    }
    if IsReadableAt(m, a, i) {
      LookupAt(m, a, i);
    }
  }

  lemma StretchStart(m: seq<Region>, i: nat)
    requires ValidMap(m) && i < |m|
    ensures EndBefore(m, i) <= m[i].addr && WellFormed(m[i])
  {
  }

  lemma LookupPastEnd(m: seq<Region>, a: int)
    requires ValidMap(m) && EndBefore(m, |m|) <= a
    ensures Lookup(m, a) == None
  {
    forall j | 0 <= j < |m|
      ensures !IsReadableAt(m, a, j)
    {
      assert j < |m| - 1 ==> m[j].End() <= m[|m| - 1].addr;
    }
  }

  // ---------- first scan ----------

  /** `res` is what a first search has found once it has dealt with every address below `frontier`. */
  ghost predicate ScannedBelow(ev: Evaluator, f: nat, m: seq<Region>, data: seq<byte>, cap: nat, res: seq<nat>,
          frontier: int)
  {
    && Ascending(res)
    && |res| <= cap
    && (forall a :: a in res ==> FirstMatch(ev, f, m, data, a) && a < frontier)
    && (forall a: nat :: FirstMatch(ev, f, m, data, a) && a < frontier ==> a in res || (|res| == cap && Above(a, res)))
  }

  lemma ScanMatch(ev: Evaluator, f: nat, m: seq<Region>, data: seq<byte>, cap: nat, res: seq<nat>,
          frontier: nat)
    requires ScannedBelow(ev, f, m, data, cap, res, frontier)
    requires FirstMatch(ev, f, m, data, frontier) && |res| < cap
    ensures ScannedBelow(ev, f, m, data, cap, res + [frontier], frontier + 1)
  {
    var res' := res + [frontier];
    assert forall i :: 0 <= i < |res| ==> res[i] in res;
    assert forall a :: a in res' <==> a in res || a == frontier;
  }

  lemma ScanSkip(ev: Evaluator, f: nat, m: seq<Region>, data: seq<byte>, cap: nat, res: seq<nat>,
          frontier: int, next: int)
    requires ScannedBelow(ev, f, m, data, cap, res, frontier) && frontier <= next
    requires |res| == cap || forall a: nat :: frontier <= a < next ==> !FirstMatch(ev, f, m, data, a)
    ensures ScannedBelow(ev, f, m, data, cap, res, next)
  {
  }

  /** No address of the stretch leading up to region `i` matches, nor any in a region without data. */
  lemma ScanStretch(ev: Evaluator, f: nat, m: seq<Region>, i: nat, data: seq<byte>, cap: nat,
          res: seq<nat>, next: nat)
    requires ValidMap(m) && i < |m| && EndBefore(m, i) <= next <= m[i].End()
    requires m[i].HasData() ==> next <= m[i].addr
    requires ScannedBelow(ev, f, m, data, cap, res, EndBefore(m, i))
    ensures ScannedBelow(ev, f, m, data, cap, res, next)
  {
    forall a: nat | EndBefore(m, i) <= a < next
      ensures !FirstMatch(ev, f, m, data, a)
    {
      LookupInStretch(m, i, a);
    }
    ScanSkip(ev, f, m, data, cap, res, EndBefore(m, i), next);
  }

  /** The rest of a region is not scanned once the limit is reached or too few bytes are left. */
  lemma ScanRest(ev: Evaluator, f: nat, m: seq<Region>, i: nat, data: seq<byte>, cap: nat,
          res: seq<nat>, y: nat)
    requires ValidMap(m) && i < |m| && y <= m[i].size
    requires m[i].size - |data| <= y || cap <= |res|
    requires ScannedBelow(ev, f, m, data, cap, res, m[i].addr + y)
    ensures ScannedBelow(ev, f, m, data, cap, res, m[i].End())
  {
    if |res| < cap {
      forall a: nat | m[i].addr + y <= a < m[i].End()
        ensures !FirstMatch(ev, f, m, data, a)
      {
        StretchStart(m, i);
        LookupInStretch(m, i, a);
      }
    }
    ScanSkip(ev, f, m, data, cap, res, m[i].addr + y, m[i].End());
  }

  /** A cell of a region with data matches exactly if the evaluator says so. */
  lemma FirstMatchAt(ev: Evaluator, f: nat, m: seq<Region>, i: nat, data: seq<byte>, y: nat)
    requires IsFieldSize(f) && ValidMap(m) && i < |m| && m[i].HasData()
    requires Aligned(y, f) && y + |data| < m[i].size
    ensures y + |data| <= |m[i].data|
    ensures Aligned(m[i].addr + y, f)
    ensures FirstMatch(ev, f, m, data, m[i].addr + y) <==> ev(m[i].data[y..y + |data|], data)
  {
    assert WellFormed(m[i]);
    AlignedSum(m[i].addr, y, f);
    LookupAt(m, m[i].addr + y, i);
  }

  /** One cell of a region with data: what the frontier becomes, given whether the cell matched. */
  lemma ScanCell(ev: Evaluator, f: nat, m: seq<Region>, i: nat, data: seq<byte>, cap: nat,
          res: seq<nat>, y: nat)
    requires IsFieldSize(f) && ValidMap(m) && i < |m| && m[i].HasData()
    requires Aligned(y, f) && y + |data| < m[i].size && |res| < cap
    requires ScannedBelow(ev, f, m, data, cap, res, m[i].addr + y)
    ensures Aligned(y + f, f) && y + f <= m[i].size && y + |data| <= |m[i].data|
    ensures var here := m[i].addr + y;
            ScannedBelow(ev, f, m, data, cap, if ev(m[i].data[y..y + |data|], data) then res + [here] else res,
                         m[i].addr + (y + f))
  {
    var here := m[i].addr + y;
    FirstMatchAt(ev, f, m, i, data, y);
    AlignedNext(y, f);
    AlignedNext(here, f);
    AlignedBelow(y, m[i].size, f);
    if ev(m[i].data[y..y + |data|], data) {
      ScanMatch(ev, f, m, data, cap, res, here);
      ScanSkip(ev, f, m, data, cap, res + [here], here + 1, here + f);
    } else {
      ScanSkip(ev, f, m, data, cap, res, here, here + f);
    }
  }

  // ---------- second scan ----------

  ghost predicate SweptBelow(ev: Evaluator, f: nat, m: seq<Region>, prev: seq<Region>, data: seq<byte>, w: nat,
          res: seq<nat>, frontier: int)
  {
    && Ascending(res)
    && forall a: nat :: a in res <==> a < frontier && SecondMatch(ev, f, m, prev, data, w, a)
  }

  lemma SweepMatch(ev: Evaluator, f: nat, m: seq<Region>, prev: seq<Region>, data: seq<byte>,
          w: nat, res: seq<nat>, frontier: nat)
    requires SweptBelow(ev, f, m, prev, data, w, res, frontier)
    requires SecondMatch(ev, f, m, prev, data, w, frontier)
    ensures SweptBelow(ev, f, m, prev, data, w, res + [frontier], frontier + 1)
  {
    var res' := res + [frontier];
    assert forall i :: 0 <= i < |res| ==> res[i] in res;
    assert forall a :: a in res' <==> a in res || a == frontier;
  }

  lemma SweepSkip(ev: Evaluator, f: nat, m: seq<Region>, prev: seq<Region>, data: seq<byte>, w: nat,
          res: seq<nat>, frontier: int, next: int)
    requires SweptBelow(ev, f, m, prev, data, w, res, frontier) && frontier <= next
    requires forall a: nat :: frontier <= a < next ==> !SecondMatch(ev, f, m, prev, data, w, a)
    ensures SweptBelow(ev, f, m, prev, data, w, res, next)
  {
  }

  lemma NoneBetween(ev: Evaluator, f: nat, m: seq<Region>, prev: seq<Region>, data: seq<byte>,
          w: nat, here: nat)
    requires IsFieldSize(f) && Aligned(here, f)
    ensures forall a: nat :: here < a < here + f ==> !SecondMatch(ev, f, m, prev, data, w, a)
  {
    AlignedNext(here, f);
  }

  /** One cell present in both snapshots: what the frontier becomes, given whether it matched. */
  lemma SweepCell(ev: Evaluator, f: nat, m: seq<Region>, prev: seq<Region>, data: seq<byte>, w: nat,
          res: seq<nat>, here: nat)
    requires IsFieldSize(f) && Aligned(here, f) && Lookup(m, here).Some? && Lookup(prev, here).Some?
    requires SweptBelow(ev, f, m, prev, data, w, res, here)
    ensures SweptBelow(ev, f, m, prev, data, w, if LaterMatch(ev, m, prev, data, w, here) then res + [here] else res,
                       here + f)
  {
    NoneBetween(ev, f, m, prev, data, w, here);
    if LaterMatch(ev, m, prev, data, w, here) {
      SweepMatch(ev, f, m, prev, data, w, res, here);
      SweepSkip(ev, f, m, prev, data, w, res + [here], here + 1, here + f);
    } else {
      SweepSkip(ev, f, m, prev, data, w, res, here, here + f);
    }
  }

  lemma SweptNothing(ev: Evaluator, f: nat, m: seq<Region>, prev: seq<Region>, data: seq<byte>,
          w: nat)
    ensures SweptBelow(ev, f, m, prev, data, w, [], EndBefore(m, 0)) && Behind(prev, 0, EndBefore(m, 0))
  {
  }

  /** Once every region has been dealt with, the results are complete. */
  lemma SweptAll(ev: Evaluator, f: nat, m: seq<Region>, prev: seq<Region>, data: seq<byte>, w: nat,
          res: seq<nat>)
    requires ValidMap(m) && SweptBelow(ev, f, m, prev, data, w, res, EndBefore(m, |m|))
    ensures SecondResults(ev, f, m, prev, data, w, res)
  {
    forall a: nat | EndBefore(m, |m|) <= a
      ensures !SecondMatch(ev, f, m, prev, data, w, a)
    {
      LookupPastEnd(m, a);
    }
  }

  /** Offset `y` of a region as an address; the skip-ahead may leave the region. */
  function Frontier(region: Region, y: nat): nat {
    if y <= region.size then region.addr + y else region.End()
  }

  /** The regions of `prev` before `oi` cannot match anything at or above `frontier`. */
  ghost predicate Behind(prev: seq<Region>, oi: nat, frontier: int) {
    oi <= |prev| && forall k :: 0 <= k < oi ==> !prev[k].HasData() || prev[k].End() <= frontier
  }

  lemma NothingBefore(prev: seq<Region>, oi: nat, frontier: int, a: int)
    requires ValidMap(prev) && Behind(prev, oi, frontier) && frontier <= a
    requires oi < |prev| ==> a < prev[oi].addr
    ensures Lookup(prev, a) == None
  {
    forall k | 0 <= k < |prev|
      ensures !IsReadableAt(prev, a, k)
    {
      assert oi < k ==> prev[oi].End() <= prev[k].addr;
    }
  }

  /** No address of the stretch leading up to and through region `i` matches if it is outside the
      region or the region has no data. */
  lemma SweepStretch(ev: Evaluator, f: nat, m: seq<Region>, i: nat, prev: seq<Region>,
          data: seq<byte>, w: nat, res: seq<nat>, frontier: nat, next: nat)
    requires ValidMap(m) && i < |m| && EndBefore(m, i) <= frontier <= next <= m[i].End()
    requires m[i].HasData() ==> next <= m[i].addr
    requires SweptBelow(ev, f, m, prev, data, w, res, frontier)
    ensures SweptBelow(ev, f, m, prev, data, w, res, next)
  {
    forall a: nat | frontier <= a < next
      ensures !SecondMatch(ev, f, m, prev, data, w, a)
    {
      LookupInStretch(m, i, a);
    }
    SweepSkip(ev, f, m, prev, data, w, res, frontier, next);
  }

  /** Nothing matches from `frontier` up to the next previous region with data. */
  lemma SweepToOldRegion(ev: Evaluator, f: nat, m: seq<Region>, prev: seq<Region>, oi: nat,
          data: seq<byte>, w: nat, res: seq<nat>, frontier: nat, next: nat)
    requires ValidMap(prev) && Behind(prev, oi, frontier) && frontier <= next
    requires oi < |prev| ==> next <= prev[oi].addr
    requires SweptBelow(ev, f, m, prev, data, w, res, frontier)
    ensures SweptBelow(ev, f, m, prev, data, w, res, next)
  {
    forall a: nat | frontier <= a < next
      ensures !SecondMatch(ev, f, m, prev, data, w, a)
    {
      NothingBefore(prev, oi, frontier, a);
    }
    SweepSkip(ev, f, m, prev, data, w, res, frontier, next);
  }

  // ---------- later scan ----------

  /** Deleted results are marked by address 0; this drops them and keeps the order. */
  function NonZero(s: seq<nat>): (r: seq<nat>)
    ensures |r| <= |s|
    ensures forall a :: a in r <==> a in s && a != 0
  {
    if s == [] then []
    else
      var n := |s| - 1;
      assert s == s[..n] + [s[n]];
      NonZero(s[..n]) + (if s[n] == 0 then [] else [s[n]])
  }

  lemma CutTail(s: seq<nat>, t: seq<nat>, x: nat)
    requires x < |s| == |t| && s[x..] == t[x..]
    ensures s[x] == t[x] && s[x + 1..] == t[x + 1..]
  {
    assert s[x..][0] == t[x..][0];
    assert s[x + 1..] == s[x..][1..] && t[x + 1..] == t[x..][1..];
  }

  /** `marked` is the ascending list `s` with some entries replaced by 0. */
  ghost predicate Marked(s: seq<nat>, marked: seq<nat>) {
    |marked| == |s| && forall i :: 0 <= i < |s| ==> marked[i] == s[i] || marked[i] == 0
  }

  lemma {:induction false} NonZeroAscending(s: seq<nat>, marked: seq<nat>)
    requires Ascending(s) && Marked(s, marked)
    ensures Ascending(NonZero(marked))
  {
    if s != [] {
      var n := |s| - 1;
      NonZeroAscending(s[..n], marked[..n]);
      var front := NonZero(marked[..n]);
      forall i | 0 <= i < |front|
        ensures front[i] < s[n]
      {
        assert front[i] in front;
        var j :| 0 <= j < n && marked[..n][j] == front[i];
        assert marked[j] == front[i];
      }
    }
  }

  lemma Element(s: seq<nat>, i: nat)
    ensures i < |s| ==> s[i] in s
  {
  }

  /** `k` splits an ascending list into the part below `a` and the rest. */
  ghost predicate SplitsAt(s: seq<nat>, k: nat, a: nat) {
    && k <= |s|
    && (forall i :: 0 <= i < k ==> s[i] < a)
    && (forall i :: k <= i < |s| ==> a <= s[i])
  }

  lemma SplitsInOrder(s: seq<nat>, first: nat, start: nat, last: nat, end: nat)
    requires SplitsAt(s, first, start) && SplitsAt(s, last, end)
    requires start <= end || forall a :: a in s ==> start <= a
    ensures first <= last
  {
    Element(s, first);
    Element(s, last);
    Element(s, 0);
  }

  /** The range to erase is in order exactly if the deletion is defined: its end does not wrap, or no
      result lies below its start. */
  lemma EraseInOrderIff(s: SearchState, first: nat, start: nat, last: nat, end: nat)
    requires start <= end < WORD
    requires SplitsAt(s.results, first, start) && SplitsAt(s.results, last, (end + 1) % WORD)
    ensures first <= last <==> DeleteDefined(s, start, end)
  {
    if DeleteDefined(s, start, end) {
      SplitsInOrder(s.results, first, start, last, (end + 1) % WORD);
    } else {
      var a :| a in s.results && a < start;
      var i :| 0 <= i < |s.results| && s.results[i] == a;
      Element(s.results, 0);
    }
  }

  lemma CutMembers(s: seq<nat>, first: nat, start: nat, last: nat, end: nat)
    requires SplitsAt(s, first, start) && SplitsAt(s, last, end) && first <= last
    ensures forall a :: a in s[..first] + s[last..] <==> a in s && !(start <= a < end)
  {
    forall a | a in s && !(start <= a < end)
      ensures a in s[..first] + s[last..]
    {
      var i :| 0 <= i < |s| && s[i] == a;
      assert i < first || last <= i;
      assert s == s[..first] + s[first..last] + s[last..];
    }
    forall a | a in s[..first] + s[last..]
      ensures a in s && !(start <= a < end)
    {
      var i :| 0 <= i < |s[..first] + s[last..]| && (s[..first] + s[last..])[i] == a;
      assert a == if i < first then s[i] else s[i - first + last];
    }
  }

  /** The regions of `m` before `index` end at or before address `a`. */
  ghost predicate Passed(m: seq<Region>, index: nat, a: nat) {
    index <= |m| && forall k :: 0 <= k < index ==> m[k].End() <= a
  }

  /** Once the cursor has stopped, it alone decides whether `a` lies in a region with data. */
  lemma LookupPassed(m: seq<Region>, index: nat, a: nat)
    requires ValidMap(m) && Passed(m, index, a) && (index < |m| ==> a < m[index].End())
    ensures Lookup(m, a) ==
      if index < |m| && m[index].addr <= a && m[index].HasData() then Some(m[index]) else None
  {
    forall k | 0 <= k < |m| && k != index
      ensures !IsReadableAt(m, a, k)
    {
      assert index < k ==> m[index].End() <= m[k].addr;
    }
    if index < |m| && IsReadableAt(m, a, index) {
      LookupAt(m, a, index);
    }
  }

  /** Erasing between the two split positions is the deletion step. */
  lemma EraseIsDelete(c: TypeConfig, s: SearchState, start: nat, end: nat, first: nat, last: nat)
    requires ValidConfig(c) && Inv(c, s) && DeleteDefined(s, start, end)
    requires SplitsAt(s.results, first, start) && SplitsAt(s.results, last, (end + 1) % WORD)
    ensures first <= last
    ensures var s' := s.(results := s.results[..first] + s.results[last..]);
            Step(c, s, Delete(start, end), s') && Inv(c, s')
  {
    var next := (end + 1) % WORD;
    SplitsInOrder(s.results, first, start, last, next);
    CutMembers(s.results, first, start, last, next);
    var s' := s.(results := s.results[..first] + s.results[last..]);
    assert next == if end == WORD - 1 then 0 else end + 1;
    StepKeepsInv(c, s, Delete(start, end), s');
  }

  class MemorySearch {
    const config: TypeConfig
    const allMemory: bool
    var resultsValid: bool
    var memory: Option<seq<Region>>
    var prevSize: nat
    var results: seq<nat>

    ghost function State(): SearchState
      reads this
    {
      SearchState(memory, resultsValid, prevSize, results)
    }

    ghost predicate Valid()
      reads this
    {
      ValidConfig(config) && Inv(config, State())
    }

    constructor (config: TypeConfig, allMemory: bool)
      requires ValidConfig(config)
      ensures Valid() && State() == FRESH && this.config == config && this.allMemory == allMemory
    {
      this.config := config;
      this.allMemory := allMemory;
      resultsValid := false;
      memory := None;
      prevSize := 0;
      results := [];
    }

    /** Copying a search copies its state; the snapshot itself is shared and never modified. */
    constructor Copy(config: TypeConfig, allMemory: bool, s: SearchState)
      requires ValidConfig(config) && Inv(config, s)
      ensures Valid() && State() == s && this.config == config && this.allMemory == allMemory
    {
      this.config := config;
      this.allMemory := allMemory;
      resultsValid := s.valid;
      memory := s.memory;
      prevSize := s.prevSize;
      results := s.results;
    }

    method CheckCanUpdate(p: Predicate, data: seq<byte>) returns (error: Option<SearchError>)
      ensures error == Refusal(config, memory.Some?, p, data)
      ensures error.None? <==>
        && p in config.evaluators
        && (config.isData || data == [] || |data| == config.fieldSize)
        && (memory.Some? || data != [] || (p == All && !config.isData))
      ensures error == Some(PredicateNotValid) <==> p !in config.evaluators
      ensures error == Some(WrongDataSize) <==>
        p in config.evaluators && !config.isData && data != [] && |data| != config.fieldSize
      ensures error == Some(NeedsValue) <==> p in config.evaluators && memory.None? && data == [] && p != All
      ensures error == Some(EmptyData) <==>
        p in config.evaluators && memory.None? && data == [] && p == All && config.isData
    {
      if p !in config.evaluators {
        return Some(PredicateNotValid);
      }
      if !config.isData && data != [] && |data| != config.fieldSize {
        return Some(WrongDataSize);
      }
      if memory.None? {
        if data == [] && p != All {
          return Some(NeedsValue);
        }
        if config.isData && data == [] {
          return Some(EmptyData);
        }
      }
      return None;
    }

    method Update(newMemory: seq<Region>, p: Predicate, data: seq<byte>,
            maxResults: nat) returns (error: Option<SearchError>)
      requires Valid() && ValidMap(newMemory)
      requires Refusal(config, memory.Some?, p, data).None? ==> ReadsFit(config, State(), newMemory, data)
      modifies this
      ensures error == Refusal(config, old(memory).Some?, p, data)
      ensures Step(config, old(State()), Search(newMemory, p, data, maxResults), State())
      ensures Valid()
    {
      ghost var before := State();
      error := CheckCanUpdate(p, data);
      if error.Some? {
        return;
      }
      var ev := config.evaluators[p];
      if memory.None? && p == All {
        memory := Some(newMemory);
        HasMember(results);
        return;
      } else if memory.None? {
        FirstScan(newMemory, ev, data, maxResults);
        resultsValid := true;
      } else if !resultsValid {
        SecondScan(newMemory, memory.value, ev, data);
        resultsValid := true;
      } else {
        LaterScan(newMemory, memory.value, ev, data);
      }
      prevSize := |data|;
      memory := Some(newMemory);
      StepKeepsInv(config, before, Search(newMemory, p, data, maxResults), State());
    }

    /** Evaluates the predicate on every scanned cell of every region, up to the result limit. */
    method FirstScan(newMemory: seq<Region>, ev: Evaluator, data: seq<byte>, maxResults: nat)
      requires ValidConfig(config) && ValidMap(newMemory) && results == []
      requires forall r :: r in newMemory && r.HasData() ==> |data| <= r.size
      modifies this`results
      ensures FirstResults(ev, config.fieldSize, newMemory, data, maxResults, results)
    {
      var f := config.fieldSize;
      for i := 0 to |newMemory|
        invariant ScannedBelow(ev, f, newMemory, data, maxResults, results, EndBefore(newMemory, i))
      {
        StretchStart(newMemory, i);
        if newMemory[i].data == [] {
          ScanStretch(ev, f, newMemory, i, data, maxResults, results, newMemory[i].End());
          continue;
        }
        ScanStretch(ev, f, newMemory, i, data, maxResults, results, newMemory[i].addr);
        assert newMemory[i] in newMemory;
        ScanRegion(newMemory, i, ev, data, maxResults);
      }
      forall a: nat | EndBefore(newMemory, |newMemory|) <= a
        ensures !FirstMatch(ev, f, newMemory, data, a)
      {
        LookupPastEnd(newMemory, a);
      }
    }

    /** The first scan of one region with data. */
    method ScanRegion(newMemory: seq<Region>, i: nat, ev: Evaluator, data: seq<byte>, maxResults: nat)
      requires ValidConfig(config) && ValidMap(newMemory) && i < |newMemory|
      requires newMemory[i].HasData() && |data| <= newMemory[i].size
      requires ScannedBelow(ev, config.fieldSize, newMemory, data, maxResults, results, newMemory[i].addr)
      modifies this`results
      ensures ScannedBelow(ev, config.fieldSize, newMemory, data, maxResults, results, newMemory[i].End())
    {
      var f, region := config.fieldSize, newMemory[i];
      assert WellFormed(region);
      UnsignedMinusIff(region.size, |data|);
      var bound := UnsignedMinus(region.size, |data|);
      var y := 0;
      while y < bound && |results| < maxResults
        invariant Aligned(y, f) && y <= region.size
        invariant ScannedBelow(ev, f, newMemory, data, maxResults, results, region.addr + y)
      {
        ScanCellAt(newMemory, i, ev, data, maxResults, y);
        y := y + f;
      }
      ScanRest(ev, f, newMemory, i, data, maxResults, results, y);
    }

    /** The first scan of one cell. */
    method ScanCellAt(newMemory: seq<Region>, i: nat, ev: Evaluator, data: seq<byte>, maxResults: nat, y: nat)
      requires ValidConfig(config) && ValidMap(newMemory) && i < |newMemory| && newMemory[i].HasData()
      requires Aligned(y, config.fieldSize) && y + |data| < newMemory[i].size && |results| < maxResults
      requires ScannedBelow(ev, config.fieldSize, newMemory, data, maxResults, results, newMemory[i].addr + y)
      modifies this`results
      ensures Aligned(y + config.fieldSize, config.fieldSize) && y + config.fieldSize <= newMemory[i].size
      ensures ScannedBelow(ev, config.fieldSize, newMemory, data, maxResults, results,
                           newMemory[i].addr + (y + config.fieldSize))
    {
      ScanCell(ev, config.fieldSize, newMemory, i, data, maxResults, results, y);
      var matches := ev(newMemory[i].data[y..y + |data|], data);
      results := if matches then results + [newMemory[i].addr + y] else results;
    }

    /** Compares the new snapshot with the previous one, region by region. One index into the previous
        regions serves all new regions: it never moves back. */
    method SecondScan(newMemory: seq<Region>, prev: seq<Region>, ev: Evaluator, data: seq<byte>)
      requires ValidConfig(config) && ValidMap(newMemory) && ValidMap(prev) && results == []
      requires SecondFits(config.fieldSize, newMemory, prev, data, Width(config, data, prevSize))
      modifies this`results
      ensures SecondResults(ev, config.fieldSize, newMemory, prev, data, Width(config, data, prevSize), results)
    {
      var f := config.fieldSize;
      ghost var w := Width(config, data, prevSize);
      var oldIndex := 0;
      SweptNothing(ev, f, newMemory, prev, data, w);
      for i := 0 to |newMemory|
        invariant SweptBelow(ev, f, newMemory, prev, data, w, results, EndBefore(newMemory, i))
        invariant Behind(prev, oldIndex, EndBefore(newMemory, i))
      {
        oldIndex := SweepNext(newMemory, i, prev, ev, data, w, oldIndex);
      }
      SweptAll(ev, f, newMemory, prev, data, w, results);
    }

    /** The second scan from the end of one new region to the end of the next. */
    method SweepNext(newMemory: seq<Region>, i: nat, prev: seq<Region>, ev: Evaluator, data: seq<byte>, ghost w: nat,
            oldStart: nat)
      returns (oldIndex: nat)
      requires ValidConfig(config) && ValidMap(newMemory) && ValidMap(prev) && i < |newMemory|
      requires w == Width(config, data, prevSize)
      requires SecondFits(config.fieldSize, newMemory, prev, data, w)
      requires Behind(prev, oldStart, EndBefore(newMemory, i))
      requires SweptBelow(ev, config.fieldSize, newMemory, prev, data, w, results,
                          EndBefore(newMemory, i))
      modifies this`results
      ensures oldStart <= oldIndex && Behind(prev, oldIndex, EndBefore(newMemory, i + 1))
      ensures SweptBelow(ev, config.fieldSize, newMemory, prev, data, w, results,
                         EndBefore(newMemory, i + 1))
    {
      StretchStart(newMemory, i);
      SweepStretch(ev, config.fieldSize, newMemory, i, prev, data, w, results, EndBefore(newMemory, i),
                   newMemory[i].addr);
      oldIndex := SweepRegion(newMemory, i, prev, ev, data, w, oldStart);
    }

    /** The second scan of one new region. `oldStart` is where the previous region left the index into
        the previous snapshot. */
    method SweepRegion(newMemory: seq<Region>, i: nat, prev: seq<Region>, ev: Evaluator, data: seq<byte>,
            ghost w: nat, oldStart: nat)
      returns (oldIndex: nat)
      requires ValidConfig(config) && ValidMap(newMemory) && ValidMap(prev) && i < |newMemory|
      requires w == Width(config, data, prevSize)
      requires SecondFits(config.fieldSize, newMemory, prev, data, w)
      requires Behind(prev, oldStart, newMemory[i].addr)
      requires SweptBelow(ev, config.fieldSize, newMemory, prev, data, w,
                          results, newMemory[i].addr)
      modifies this`results
      ensures oldStart <= oldIndex && Behind(prev, oldIndex, newMemory[i].End())
      ensures SweptBelow(ev, config.fieldSize, newMemory, prev, data, w,
                         results, newMemory[i].End())
    {
      var f, region := config.fieldSize, newMemory[i];
      StretchStart(newMemory, i);
      oldIndex := oldStart;
      var y := 0;
      while y < region.size
        invariant Aligned(y, f) && oldStart <= oldIndex
        invariant SweptBelow(ev, f, newMemory, prev, data, w, results, Frontier(region, y))
        invariant Behind(prev, oldIndex, Frontier(region, y))
      {
        AlignedNext(y, f);
        AlignedBelow(y, region.size, f);
        var here := region.addr + y;
        if region.data == [] {
          SweepStretch(ev, f, newMemory, i, prev, data, w, results, here, here + f);
          y := y + f;
          continue;
        }
        oldIndex := NextOldRegion(prev, oldIndex, here);
        if oldIndex >= |prev| {
          SweepToOldRegion(ev, f, newMemory, prev, oldIndex, data, w, results, here, region.End());
          break;
        }
        var oldRegion := prev[oldIndex];
        if here < oldRegion.addr {
          SkipAligned(region, oldRegion, y, f);
          SweepToOldRegion(ev, f, newMemory, prev, oldIndex, data, w, results, here,
                           Frontier(region, oldRegion.addr - region.addr));
          y := oldRegion.addr - region.addr - f;
          y := y + f;
          continue;
        }
        SweepCellAt(newMemory, i, prev, oldIndex, ev, data, w, here);
        y := y + f;
      }
    }

    /** Moves the index into the previous regions forward to the first one with data that ends after `here`. */
    method NextOldRegion(prev: seq<Region>, start: nat, here: nat) returns (oldIndex: nat)
      requires Behind(prev, start, here)
      ensures start <= oldIndex && Behind(prev, oldIndex, here)
      ensures oldIndex < |prev| ==> prev[oldIndex].HasData() && here < prev[oldIndex].End()
    {
      oldIndex := start;
      while oldIndex < |prev| && (prev[oldIndex].data == [] || prev[oldIndex].End() <= here)
        invariant start <= oldIndex && Behind(prev, oldIndex, here)
      {
        oldIndex := oldIndex + 1;
      }
    }

    /** The second scan of one cell that lies in both snapshots. */
    method SweepCellAt(newMemory: seq<Region>, i: nat, prev: seq<Region>, oldIndex: nat, ev: Evaluator,
            data: seq<byte>, ghost w: nat, here: nat)
      requires w == Width(config, data, prevSize)
      requires ValidConfig(config) && ValidMap(newMemory) && ValidMap(prev)
      requires IsReadableAt(newMemory, here, i) && IsReadableAt(prev, here, oldIndex)
      requires Aligned(here - newMemory[i].addr, config.fieldSize)
      requires SecondFits(config.fieldSize, newMemory, prev, data, w)
      requires SweptBelow(ev, config.fieldSize, newMemory, prev, data, w, results, here)
      modifies this`results
      ensures SweptBelow(ev, config.fieldSize, newMemory, prev, data, w,
                         results, here + config.fieldSize)
    {
      StretchStart(newMemory, i);
      AlignedSum(newMemory[i].addr, here - newMemory[i].addr, config.fieldSize);
      LookupAt(newMemory, here, i);
      LookupAt(prev, here, oldIndex);
      SweepCell(ev, config.fieldSize, newMemory, prev, data, w, results, here);
      var matches := Compare(newMemory, i, prev, oldIndex, ev, data, here);
      if matches {
        results := results + [here];
      }
    }

    /** Applies the evaluator to the bytes at `a` in the new snapshot and to the given value or, without
        one, to the bytes at `a` in the previous snapshot. */
    method Compare(newMemory: seq<Region>, i: nat, prev: seq<Region>, oldIndex: nat, ev: Evaluator, data: seq<byte>,
            a: nat)
      returns (matches: bool)
      requires ValidMap(newMemory) && ValidMap(prev)
      requires IsReadableAt(newMemory, a, i) && IsReadableAt(prev, a, oldIndex)
      requires CellFits(newMemory, a, Width(config, data, prevSize))
      requires data == [] ==> CellFits(prev, a, Width(config, data, prevSize))
      ensures matches == LaterMatch(ev, newMemory, prev, data, Width(config, data, prevSize), a)
    {
      var region, oldRegion := newMemory[i], prev[oldIndex];
      var w := Width(config, data, prevSize);
      LookupAt(newMemory, a, i);
      LookupAt(prev, a, oldIndex);
      var current := region.data[a - region.addr..a - region.addr + w];
      var target := if data == [] then oldRegion.data[a - oldRegion.addr..a - oldRegion.addr + w] else data;
      assert current == CellIn(newMemory, a, w) && target == Target(prev, data, a, w);
      matches := ev(current, target);
    }

    /** Marks every earlier result that no longer matches with address 0, moving one index forward
        through each snapshot, then closes the gaps in place. */
    method LaterScan(newMemory: seq<Region>, prev: seq<Region>, ev: Evaluator, data: seq<byte>)
      requires Valid() && ValidMap(newMemory)
      requires memory == Some(prev) && resultsValid && ReadsFit(config, State(), newMemory, data)
      modifies this`results
      ensures LaterResults(ev, newMemory, prev, data, Width(config, data, prevSize), old(results), results)
    {
      var w := Width(config, data, prevSize);
      ghost var before := results;
      var newIndex, oldIndex := 0, 0;
      for x := 0 to |results|
        invariant |results| == |before|
        invariant forall j :: 0 <= j < x ==>
          results[j] == if LaterMatch(ev, newMemory, prev, data, w, before[j]) then before[j] else 0
        invariant forall j :: x <= j < |before| ==> results[j] == before[j]
        invariant x < |before| ==> Passed(newMemory, newIndex, before[x]) && Passed(prev, oldIndex, before[x])
      {
        var result := results[x];
        assert result == before[x] && result in before;
        assert Lookup(newMemory, result).Some? ==> CellFits(newMemory, result, w);
        while newIndex < |newMemory| && newMemory[newIndex].End() <= result
          invariant Passed(newMemory, newIndex, result)
        {
          newIndex := newIndex + 1;
        }
        while oldIndex < |prev| && prev[oldIndex].End() <= result
          invariant Passed(prev, oldIndex, result)
        {
          oldIndex := oldIndex + 1;
        }
        var keep := StillMatches(newMemory, newIndex, prev, oldIndex, ev, data, result);
        if !keep {
          results := results[x := 0];
        }
      }
      ghost var marked := results;
      assert Marked(before, marked);
      Compact();
      NonZeroAscending(before, marked);
      forall a: nat
        ensures a in results <==> a in before && LaterKeeps(ev, newMemory, prev, data, w, a)
      {
        if a in results {
          var j :| 0 <= j < |marked| && marked[j] == a;
        }
        if a in before && LaterKeeps(ev, newMemory, prev, data, w, a) {
          var j :| 0 <= j < |before| && before[j] == a;
          assert marked[j] == a;
        }
      }
    }

    /** The body of the later scan, once both cursors have been moved up to a result. */
    method StillMatches(newMemory: seq<Region>, newIndex: nat, prev: seq<Region>, oldIndex: nat, ev: Evaluator,
            data: seq<byte>, result: nat)
      returns (keep: bool)
      requires ValidMap(newMemory) && Passed(newMemory, newIndex, result)
      requires newIndex < |newMemory| ==> result < newMemory[newIndex].End()
      requires ValidMap(prev) && Passed(prev, oldIndex, result)
      requires oldIndex < |prev| ==> result < prev[oldIndex].End()
      requires Lookup(prev, result).Some?
      requires CellFits(newMemory, result, Width(config, data, prevSize))
      requires data == [] && Lookup(newMemory, result).Some? ==> CellFits(prev, result, Width(config, data, prevSize))
      ensures keep == LaterMatch(ev, newMemory, prev, data, Width(config, data, prevSize), result)
    {
      LookupPassed(newMemory, newIndex, result);
      LookupPassed(prev, oldIndex, result);
      // no regions left in one of the maps
      if newIndex >= |newMemory| || oldIndex >= |prev| {
        return false;
      }
      // the result lies between regions
      if newMemory[newIndex].addr > result || prev[oldIndex].addr > result {
        return false;
      }
      // the region could not be read
      if newMemory[newIndex].data == [] {
        return false;
      }
      keep := Compare(newMemory, newIndex, prev, oldIndex, ev, data, result);
    }

    /** Drops the marked entries by moving the others down and shortening the list. */
    method Compact()
      modifies this`results
      ensures results == NonZero(old(results))
    {
      ghost var before := results;
      var count := 0;
      for x := 0 to |results|
        invariant |results| == |before| && count <= x
        invariant results[..count] == NonZero(before[..x])
        invariant results[x..] == before[x..]
      {
        assert before[..x + 1][..x] == before[..x];
        CutTail(results, before, x);
        if results[x] != 0 {
          assert results[count := results[x]][x + 1..] == results[x + 1..];
          results := results[count := results[x]];
          count := count + 1;
        }
      }
      assert before[..|before|] == before;
      results := results[..count];
    }

    /** The position of the first result that is not below `address`. */
    method LowerBound(address: nat) returns (k: nat)
      requires Ascending(results)
      ensures SplitsAt(results, k, address)
    {
      var low, high := 0, |results|;
      while low < high
        invariant low <= high <= |results|
        invariant forall i :: 0 <= i < low ==> results[i] < address
        invariant forall i :: high <= i < |results| ==> address <= results[i]
      {
        var mid := (low + high) / 2;
        if results[mid] < address {
          low := mid + 1;
        } else {
          high := mid;
        }
      }
      k := low;
    }

    method DeleteResults(start: nat, end: nat)
      requires Valid() && DeleteDefined(State(), start, end)
      modifies this`results
      ensures Step(config, old(State()), Delete(start, end), State())
      ensures Valid()
    {
      var first := LowerBound(start);
      var last := LowerBound((end + 1) % WORD);
      EraseIsDelete(config, State(), start, end, first, last);
      results := results[..first] + results[last..];
    }
  }
}
