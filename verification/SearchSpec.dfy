/** What each kind of search means, as conditions on single addresses. Nothing here iterates:
    the loops of `MemorySearch` are proved to produce exactly the addresses described here. */
module SearchSpec {
  import opened Memory

  datatype Predicate = Less | Greater | LessOrEqual | GreaterOrEqual | Equal | NotEqual | Flag | All

  /** Compares the bytes now in memory (first) with the target bytes (second). */
  type Evaluator = (seq<byte>, seq<byte>) -> bool

  /** One row of the search-type table. A predicate that the type does not support has no entry. */
  datatype TypeConfig = TypeConfig(evaluators: map<Predicate, Evaluator>, fieldSize: nat, isData: bool)

  ghost predicate ValidConfig(c: TypeConfig) {
    && IsFieldSize(c.fieldSize)
    && (c.isData ==> c.fieldSize == 1)
    && All in c.evaluators
    && forall x, y :: c.evaluators[All](x, y)
  }

  datatype SearchError = PredicateNotValid | WrongDataSize | NeedsValue | EmptyData

  /** Why a search is refused, if it is. */
  function Refusal(c: TypeConfig, hasMemory: bool, p: Predicate, data: seq<byte>): Option<SearchError> {
    if p !in c.evaluators then Some(PredicateNotValid)
    else if !c.isData && data != [] && |data| != c.fieldSize then Some(WrongDataSize)
    else if !hasMemory && data == [] && p != All then Some(NeedsValue)
    else if !hasMemory && data == [] && c.isData then Some(EmptyData)
    else None
  }

  /** The number of bytes an evaluator looks at: fixed-size types always compare one field; string
      searches compare as many bytes as the value given now, or else the value given last time. */
  function Width(c: TypeConfig, data: seq<byte>, prevSize: nat): nat {
    if !c.isData then c.fieldSize else if data == [] then prevSize else |data|
  }

  ghost function CellIn(m: seq<Region>, a: int, width: nat): seq<byte> {
    var r := Lookup(m, a);
    if r.Some? then r.value.Cell(a, width) else []
  }

  /** What the bytes at `a` are compared with: the given value, or the previous snapshot's bytes. */
  ghost function Target(prev: seq<Region>, data: seq<byte>, a: int, width: nat): seq<byte> {
    if data == [] then CellIn(prev, a, width) else data
  }

  /** First search with a value: aligned offsets of regions with data, strictly below
      `size - |data|`, whose bytes satisfy the predicate against the value. */
  ghost predicate FirstMatch(ev: Evaluator, f: nat, m: seq<Region>, data: seq<byte>, a: int) {
    && Lookup(m, a).Some?
    && Aligned(a, f)
    && a + |data| < Lookup(m, a).value.End()
    && ev(CellIn(m, a, |data|), data)
  }

  /** Second search after an unknown-value search: aligned addresses that lie in a region with data
      in both snapshots and satisfy the predicate. */
  ghost predicate SecondMatch(ev: Evaluator, f: nat, m: seq<Region>, prev: seq<Region>, data: seq<byte>, w: nat,
          a: int)
  {
    && Lookup(m, a).Some?
    && Lookup(prev, a).Some?
    && Aligned(a, f)
    && ev(CellIn(m, a, w), Target(prev, data, a, w))
  }

  /** Later searches keep an earlier result that still lies in a region with data and satisfies the
      predicate. This is the intended condition; see `LaterKeeps`. */
  ghost predicate LaterMatch(ev: Evaluator, m: seq<Region>, prev: seq<Region>, data: seq<byte>, w: nat, a: int) {
    && Lookup(m, a).Some?
    && ev(CellIn(m, a, w), Target(prev, data, a, w))
  }

  /** What the sweep keeps: address 0 marks deleted results, so a result at 0 never survives. */
  ghost predicate LaterKeeps(ev: Evaluator, m: seq<Region>, prev: seq<Region>, data: seq<byte>, w: nat, a: int) {
    a != 0 && LaterMatch(ev, m, prev, data, w, a)
  }

  /** `res` holds the first `cap` first-search matches in address order. */
  ghost predicate FirstResults(ev: Evaluator, f: nat, m: seq<Region>, data: seq<byte>, cap: nat, res: seq<nat>) {
    && Ascending(res)
    && |res| <= cap
    && (forall a :: a in res ==> FirstMatch(ev, f, m, data, a))
    && (forall a: nat :: FirstMatch(ev, f, m, data, a) ==> a in res || (|res| == cap && Above(a, res)))
  }

  predicate Above(a: nat, s: seq<nat>) {
    forall b :: b in s ==> b < a
  }

  /** A capped first search is a prefix of the full list of matches. */
  lemma FirstResultsArePrefix(ev: Evaluator, f: nat, m: seq<Region>, data: seq<byte>, cap: nat,
          res: seq<nat>, full: seq<nat>)
    requires FirstResults(ev, f, m, data, cap, res)
    requires Ascending(full) && forall a :: a in full <==> FirstMatch(ev, f, m, data, a)
    ensures res == full[..if |full| <= cap then |full| else cap]
  {
    PrefixByMembership(res, full);
    assert |res| < cap ==> forall a :: a in full ==> a in res;
    if |res| < cap {
      AscendingUnique(res, full);
    }
  }

  /** An ascending list that takes from `full` only elements below all those it leaves out. */
  lemma PrefixByMembership(res: seq<nat>, full: seq<nat>)
    requires Ascending(res) && Ascending(full)
    requires forall a :: a in res ==> a in full
    requires forall a :: a in full ==> a in res || Above(a, res)
    ensures |res| <= |full| && res == full[..|res|]
  {
    if res != [] {
      var last := res[|res| - 1];
      assert last in res;
      var k :| 0 <= k < |full| && full[k] == last;
      var head := full[..k + 1];
      forall a
        ensures a in res <==> a in head
      {
        if a in res {
          var i :| 0 <= i < |res| && res[i] == a;
          var j :| 0 <= j < |full| && full[j] == a;
          assert a <= last;
          assert j <= k;
          assert head[j] == a;
        }
        if a in head {
          assert a in full && a <= last;
        }
      }
      AscendingUnique(res, head);
    }
  }

  /** The state of one search: the three states are no snapshot, snapshot only, and valid results. */
  datatype SearchState = SearchState(memory: Option<seq<Region>>, valid: bool, prevSize: nat, results: seq<nat>)

  const FRESH := SearchState(None, false, 0, [])

  ghost predicate Covered(m: seq<Region>, f: nat, s: seq<nat>) {
    forall a :: a in s ==> Lookup(m, a).Some? && Aligned(a, f)
  }

  /** What every reachable state satisfies. In particular a state with results has a snapshot, and
      every result is an aligned address in a snapshot region that has data. */
  ghost predicate Inv(c: TypeConfig, s: SearchState) {
    && (s.valid ==> s.memory.Some?)
    && (!s.valid ==> s.results == [])
    && Ascending(s.results)
    && (s.memory.Some? ==> ValidMap(s.memory.value) && Covered(s.memory.value, c.fieldSize, s.results))
  }

  /** The cell at `a` lies inside its region of `m`. */
  ghost predicate CellFits(m: seq<Region>, a: int, w: nat) {
    Lookup(m, a).Some? ==> a + w <= Lookup(m, a).value.End()
  }

  /** Every byte range that a search would compare lies inside its region. Fixed-size searches always
      meet this (`FixedSizeReadsFit`); `ReadBounds` says exactly when string searches do. */
  ghost predicate ReadsFit(c: TypeConfig, s: SearchState, m: seq<Region>, data: seq<byte>) {
    var w := Width(c, data, s.prevSize);
    if s.memory.None? then
      forall r :: r in m && r.HasData() ==> |data| <= r.size
    else if !s.valid then SecondFits(c.fieldSize, m, s.memory.value, data, w)
    else
      forall a :: a in s.results && Lookup(m, a).Some? ==>
        CellFits(m, a, w) && (data == [] ==> CellFits(s.memory.value, a, w))
  }

  ghost predicate SecondFits(f: nat, m: seq<Region>, prev: seq<Region>, data: seq<byte>, w: nat) {
    forall a :: Lookup(m, a).Some? && Lookup(prev, a).Some? && Aligned(a, f)
      ==> CellFits(m, a, w) && (data == [] ==> CellFits(prev, a, w))
  }

  lemma AlignedBelow(a: int, end: int, f: nat)
    requires IsFieldSize(f) && Aligned(a, f) && end % 8 == 0 && a < end
    ensures a + f <= end
  {
    var q := end / 8;
    assert end == 8 * q;
    if f == 2 {
      var j := a / 2;
      assert a == 2 * j && end == 2 * (4 * q);
      assert j + 1 <= 4 * q;
    } else if f == 4 {
      var j := a / 4;
      assert a == 4 * j && end == 4 * (2 * q);
      assert j + 1 <= 2 * q;
    } else if f == 8 {
      var j := a / 8;
      assert a == 8 * j;
      assert j + 1 <= q;
    }
  }

  /** In a region, an aligned address leaves room for a whole field. */
  lemma AlignedCellFits(m: seq<Region>, a: int, f: nat)
    requires ValidMap(m) && IsFieldSize(f) && Aligned(a, f)
    ensures CellFits(m, a, f)
  {
    if Lookup(m, a).Some? {
      LookupCases(m, a);
      var i :| IsReadableAt(m, a, i) && Lookup(m, a).value == m[i];
      assert WellFormed(m[i]);
      AlignedBelow(a, m[i].End(), f);
    }
  }

  /** In every state satisfying the invariant, a fixed-size search reads only inside regions: no
      comparison of new or of old data runs past the end of either snapshot. */
  lemma FixedSizeReadsFit(c: TypeConfig, s: SearchState, m: seq<Region>, p: Predicate,
          data: seq<byte>)
    requires ValidConfig(c) && Inv(c, s) && ValidMap(m)
    requires !c.isData && Refusal(c, s.memory.Some?, p, data).None?
    ensures ReadsFit(c, s, m, data)
  {
    forall a | Aligned(a, c.fieldSize)
      ensures CellFits(m, a, c.fieldSize)
      ensures s.memory.Some? ==> CellFits(s.memory.value, a, c.fieldSize)
    {
      AlignedCellFits(m, a, c.fieldSize);
      if s.memory.Some? {
        AlignedCellFits(s.memory.value, a, c.fieldSize);
      }
    }
    forall r | r in m && r.HasData()
      ensures |data| <= r.size
    {
      var i :| 0 <= i < |m| && m[i] == r;
      assert WellFormed(m[i]);
    }
  }

  /** `res` is the ascending list of the addresses that satisfy the condition of the current phase. */
  ghost predicate SecondResults(ev: Evaluator, f: nat, m: seq<Region>, prev: seq<Region>, data: seq<byte>, w: nat,
          res: seq<nat>)
  {
    Ascending(res) && forall a: nat :: a in res <==> SecondMatch(ev, f, m, prev, data, w, a)
  }

  ghost predicate LaterResults(ev: Evaluator, m: seq<Region>, prev: seq<Region>, data: seq<byte>, w: nat,
          before: seq<nat>, res: seq<nat>)
  {
    Ascending(res) && forall a: nat :: a in res <==> a in before && LaterKeeps(ev, m, prev, data, w, a)
  }

  datatype Op =
    | Search(snapshot: seq<Region>, pred: Predicate, data: seq<byte>, cap: nat)
    | Delete(start: nat, end: nat)

  /** The state after an accepted or refused search. */
  ghost predicate Searched(c: TypeConfig, s: SearchState, m: seq<Region>, p: Predicate, data: seq<byte>, cap: nat,
          s': SearchState)
  {
    if Refusal(c, s.memory.Some?, p, data).Some? then s' == s
    else if s.memory.None? && p == All then s' == s.(memory := Some(m))
    else
      var ev := c.evaluators[p];
      var w := Width(c, data, s.prevSize);
      && s'.memory == Some(m)
      && s'.valid
      && s'.prevSize == |data|
      && (if s.memory.None? then FirstResults(ev, c.fieldSize, m, data, cap, s'.results)
          else if !s.valid then SecondResults(ev, c.fieldSize, m, s.memory.value, data, w, s'.results)
          else LaterResults(ev, m, s.memory.value, data, w, s.results, s'.results))
  }

  /** Deleting removes an inclusive range. With the largest address as upper end, the code's `end + 1`
      wraps to 0 and nothing is removed. */
  ghost predicate Deleted(s: SearchState, start: nat, end: nat, s': SearchState) {
    && s' == s.(results := s'.results)
    && Ascending(s'.results)
    && forall a: nat :: a in s'.results <==> a in s.results && (end == WORD - 1 || !(start <= a <= end))
  }

  /** A deletion that the code handles: an increasing range of addresses. When `end + 1` wraps, the
      erased iterator range is only well formed if no result lies below `start`. */
  ghost predicate DeleteDefined(s: SearchState, start: nat, end: nat) {
    && start <= end < WORD
    && (end == WORD - 1 ==> forall a :: a in s.results ==> start <= a)
  }

  ghost predicate Step(c: TypeConfig, s: SearchState, op: Op, s': SearchState) {
    match op
    case Search(m, p, data, cap) => ValidMap(m) && Searched(c, s, m, p, data, cap, s')
    case Delete(start, end) => DeleteDefined(s, start, end) && Deleted(s, start, end, s')
  }

  /** Every step keeps the invariant. */
  lemma StepKeepsInv(c: TypeConfig, s: SearchState, op: Op, s': SearchState)
    requires ValidConfig(c) && Inv(c, s) && Step(c, s, op, s')
    ensures Inv(c, s')
  {
    HasMember(s'.results);
  }

  /** A step determines the next state completely. */
  lemma StepDeterministic(c: TypeConfig, s: SearchState, op: Op, s1: SearchState, s2: SearchState)
    requires ValidConfig(c) && Inv(c, s)
    requires Step(c, s, op, s1) && Step(c, s, op, s2)
    ensures s1 == s2
  {
    if op.Search? && Refusal(c, s.memory.Some?, op.pred, op.data).None? && s.memory.None? && op.pred != All {
      FirstResultsUnique(c.evaluators[op.pred], c.fieldSize, op.snapshot, op.data, op.cap, s1.results, s2.results);
    } else if op.Search? && (Refusal(c, s.memory.Some?, op.pred, op.data).Some? || s.memory.None?) {
    } else {
      assert forall a :: a in s1.results <==> a in s2.results;
      AscendingUnique(s1.results, s2.results);
    }
  }

  lemma FirstResultsUnique(ev: Evaluator, f: nat, m: seq<Region>, data: seq<byte>, cap: nat,
          r1: seq<nat>, r2: seq<nat>)
    requires FirstResults(ev, f, m, data, cap, r1) && FirstResults(ev, f, m, data, cap, r2)
    ensures r1 == r2
  {
    var n := if |r1| <= |r2| then |r1| else |r2|;
    FirstResultsAgree(ev, f, m, data, cap, r1, r2, n);
    if n < |r1| {
      NotInPrefix(r1, n);
    } else if n < |r2| {
      NotInPrefix(r2, n);
    }
  }

  lemma NotInPrefix(s: seq<nat>, n: nat)
    requires Ascending(s) && n < |s|
    ensures s[n] in s && s[n] !in s[..n]
    ensures forall a :: a in s && a !in s[..n] ==> s[n] <= a
  {
    assert s == s[..n] + s[n..];
  }

  lemma {:induction false} FirstResultsAgree(ev: Evaluator, f: nat, m: seq<Region>, data: seq<byte>, cap: nat,
          r1: seq<nat>, r2: seq<nat>, n: nat)
    requires FirstResults(ev, f, m, data, cap, r1) && FirstResults(ev, f, m, data, cap, r2)
    requires n <= |r1| && n <= |r2|
    ensures r1[..n] == r2[..n]
  {
    if n > 0 {
      FirstResultsAgree(ev, f, m, data, cap, r1, r2, n - 1);
      NotLess(ev, f, m, data, cap, r1, r2, n - 1);
      NotLess(ev, f, m, data, cap, r2, r1, n - 1);
      assert r1[..n] == r1[..n - 1] + [r1[n - 1]];
      assert r2[..n] == r2[..n - 1] + [r2[n - 1]];
    }
  }

  lemma NotLess(ev: Evaluator, f: nat, m: seq<Region>, data: seq<byte>, cap: nat, r1: seq<nat>,
          r2: seq<nat>, k: nat)
    requires FirstResults(ev, f, m, data, cap, r1) && FirstResults(ev, f, m, data, cap, r2)
    requires k < |r1| && k < |r2| && r1[..k] == r2[..k]
    ensures r2[k] <= r1[k]
  {
    NotInPrefix(r1, k);
    NotInPrefix(r2, k);
  }
}
