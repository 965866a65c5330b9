/** Properties of whole search sessions: any sequence of searches and deletions. */
module Sessions {
  import opened Memory
  import opened SearchSpec
  import opened Adapter

  /** `states` is a run of `ops` from a fresh search. */
  ghost predicate Run(c: TypeConfig, ops: seq<Op>, states: seq<SearchState>) {
    && |states| == |ops| + 1
    && states[0] == FRESH
    && forall i :: 0 <= i < |ops| ==> Step(c, states[i], ops[i], states[i + 1])
  }

  lemma {:induction false} RunKeepsInv(c: TypeConfig, ops: seq<Op>, states: seq<SearchState>, i: nat)
    requires ValidConfig(c) && Run(c, ops, states) && i <= |ops|
    ensures Inv(c, states[i])
  {
    if i > 0 {
      RunKeepsInv(c, ops, states, i - 1);
      StepKeepsInv(c, states[i - 1], ops[i - 1], states[i]);
    }
  }

  // ---------- what a session means, without results lists ----------

  /** The part of a search's state that does not depend on what matched. */
  datatype Mode = Mode(memory: Option<seq<Region>>, valid: bool, prevSize: nat)

  function NextMode(c: TypeConfig, mode: Mode, op: Op): Mode {
    match op
    case Delete(_, _) => mode
    case Search(m, p, data, _) =>
      if Refusal(c, mode.memory.Some?, p, data).Some? then mode
      else if mode.memory.None? && p == All then Mode(Some(m), false, mode.prevSize)
      else Mode(Some(m), true, |data|)
  }

  function ModeAfter(c: TypeConfig, ops: seq<Op>): (mode: Mode)
    ensures mode.valid ==> mode.memory.Some?
  {
    if ops == [] then Mode(None, false, 0)
    else NextMode(c, ModeAfter(c, ops[..|ops| - 1]), ops[|ops| - 1])
  }

  /** Address `a` meets the condition that `op` imposes when issued in `mode`. */
  ghost predicate Passes(c: TypeConfig, mode: Mode, op: Op, a: nat) {
    match op
    case Delete(start, end) => mode.valid && end != WORD - 1 ==> !(start <= a <= end)
    case Search(m, p, data, _) =>
      if Refusal(c, mode.memory.Some?, p, data).Some? then true
      else
        var ev := c.evaluators[p];
        var w := Width(c, data, mode.prevSize);
        if mode.memory.None? then p == All || FirstMatch(ev, c.fieldSize, m, data, a)
        else if !mode.valid then SecondMatch(ev, c.fieldSize, m, mode.memory.value, data, w, a)
        else LaterKeeps(ev, m, mode.memory.value, data, w, a)
  }

  /** Address `a` meets the conditions of all operations from `first` on. */
  ghost predicate SurvivesFrom(c: TypeConfig, ops: seq<Op>, first: nat, a: nat) {
    forall i :: first <= i < |ops| ==> Passes(c, ModeAfter(c, ops[..i]), ops[i], a)
  }

  ghost predicate Survives(c: TypeConfig, ops: seq<Op>, a: nat) {
    SurvivesFrom(c, ops, 0, a)
  }

  lemma SurvivesFromStep(c: TypeConfig, ops: seq<Op>, first: nat, a: nat)
    requires first < |ops|
    ensures var n := |ops| - 1;
            SurvivesFrom(c, ops, first, a) <==>
              SurvivesFrom(c, ops[..n], first, a) && Passes(c, ModeAfter(c, ops[..n]), ops[n], a)
  {
    var n := |ops| - 1;
    forall i | first <= i < n
      ensures ops[..n][..i] == ops[..i] && ops[..n][i] == ops[i]
    {
    }
    if SurvivesFrom(c, ops[..n], first, a) && Passes(c, ModeAfter(c, ops[..n]), ops[n], a) {
      forall i | first <= i < |ops|
        ensures Passes(c, ModeAfter(c, ops[..i]), ops[i], a)
      {
        if i < n {
          assert Passes(c, ModeAfter(c, ops[..n][..i]), ops[..n][i], a);
        }
      }
    }
    if SurvivesFrom(c, ops, first, a) {
      forall i | first <= i < n
        ensures Passes(c, ModeAfter(c, ops[..n][..i]), ops[..n][i], a)
      {
        assert Passes(c, ModeAfter(c, ops[..i]), ops[i], a);
      }
    }
  }

  /** The result limit cut nothing off: it only ever applies to a first search with a value. */
  ghost predicate Uncapped(c: TypeConfig, ops: seq<Op>, states: seq<SearchState>)
    requires |states| == |ops| + 1
  {
    forall i :: 0 <= i < |ops| && ops[i].Search? && states[i].memory.None? && states[i + 1].valid
      ==> |states[i + 1].results| < ops[i].cap
  }

  ghost function ModeOf(s: SearchState): Mode {
    Mode(s.memory, s.valid, s.prevSize)
  }

  /** Before there are valid results, no operation restricts what a later search may find. */
  lemma {:induction false} NothingRuledOutYet(c: TypeConfig, ops: seq<Op>, a: nat)
    requires !ModeAfter(c, ops).valid
    ensures Survives(c, ops, a)
  {
    if ops != [] {
      var n := |ops| - 1;
      NothingRuledOutYet(c, ops[..n], a);
      SurvivesFromStep(c, ops, 0, a);
    }
  }

  /** Main result. After any run the results are in ascending order, and every one of them met the
      condition of every operation of the run, each against the snapshots of its own time. Unless the
      result limit was hit, they are exactly the addresses that did. */
  lemma {:induction false} SessionResults(c: TypeConfig, ops: seq<Op>, states: seq<SearchState>)
    requires ValidConfig(c) && Run(c, ops, states)
    ensures var s := states[|ops|];
            && Ascending(s.results)
            && ModeOf(s) == ModeAfter(c, ops)
            && (forall a :: a in s.results ==> s.valid && Survives(c, ops, a))
            && (Uncapped(c, ops, states) ==> forall a: nat :: a in s.results <==> s.valid && Survives(c, ops, a))
  {
    RunKeepsInv(c, ops, states, |ops|);
    if ops != [] {
      var n := |ops| - 1;
      var before, op, after := states[n], ops[n], states[n + 1];
      SessionResults(c, ops[..n], states[..n + 1]);
      RunKeepsInv(c, ops, states, n);
      forall a: nat
        ensures a in after.results ==> after.valid && Survives(c, ops, a)
        ensures Uncapped(c, ops, states) && after.valid && Survives(c, ops, a) ==> a in after.results
      {
        SurvivesFromStep(c, ops, 0, a);
        if !before.valid {
          NothingRuledOutYet(c, ops[..n], a);
        }
        StepPasses(c, before, op, after, a);
      }
    }
  }

  /** From any state with results on, the results are exactly those that pass every later operation. */
  lemma {:induction false} LaterResultsExact(c: TypeConfig, ops: seq<Op>, states: seq<SearchState>, first: nat)
    requires ValidConfig(c) && Run(c, ops, states) && first <= |ops| && states[first].valid
    ensures states[|ops|].valid
    ensures forall a: nat :: a in states[|ops|].results <==>
      a in states[first].results && SurvivesFrom(c, ops, first, a)
  {
    if first < |ops| {
      var n := |ops| - 1;
      var before, after := states[n], states[n + 1];
      LaterResultsExact(c, ops[..n], states[..n + 1], first);
      RunKeepsInv(c, ops, states, n);
      SessionResults(c, ops[..n], states[..n + 1]);
      LaterStep(c, ops, first, states[first].results, before, after);
    }
  }

  lemma LaterStep(c: TypeConfig, ops: seq<Op>, first: nat, found: seq<nat>, s: SearchState, s': SearchState)
    requires ValidConfig(c) && Inv(c, s) && s.valid && first < |ops|
    requires var n := |ops| - 1;
             && Step(c, s, ops[n], s') && ModeOf(s) == ModeAfter(c, ops[..n])
             && forall a: nat :: a in s.results <==> a in found && SurvivesFrom(c, ops[..n], first, a)
    ensures s'.valid && forall a: nat :: a in s'.results <==> a in found && SurvivesFrom(c, ops, first, a)
  {
    forall a: nat
      ensures s'.valid && (a in s'.results <==> a in found && SurvivesFrom(c, ops, first, a))
    {
      SurvivesFromStep(c, ops, first, a);
      StepPasses(c, s, ops[|ops| - 1], s', a);
    }
  }

  /** Main result for sessions that begin with a known value, whether or not the limit is hit: the results
      are exactly the first `cap` matches of the first search that pass every later operation. */
  lemma CappedSessionResults(c: TypeConfig, ops: seq<Op>, states: seq<SearchState>, first: nat,
          full: seq<nat>)
    requires ValidConfig(c) && Run(c, ops, states) && first < |ops|
    requires states[first].memory.None? && Accepts(c, ModeOf(states[first]), ops[first]) && ops[first].pred != All
    requires Ascending(full)
    requires var op := ops[first];
             forall a :: a in full <==> FirstMatch(c.evaluators[op.pred], c.fieldSize, op.snapshot, op.data, a)
    ensures var cap := ops[first].cap;
            forall a: nat :: a in states[|ops|].results <==>
              a in full[..if |full| <= cap then |full| else cap] && SurvivesFrom(c, ops, first + 1, a)
  {
    var op := ops[first];
    RunKeepsInv(c, ops, states, first);
    assert Step(c, states[first], op, states[first + 1]);
    FirstResultsArePrefix(c.evaluators[op.pred], c.fieldSize, op.snapshot, op.data, op.cap,
                          states[first + 1].results, full);
    LaterResultsExact(c, ops, states, first + 1);
  }

  /** One step: the new results are the old ones (or, before there are any, all addresses) that pass. */
  lemma StepPasses(c: TypeConfig, s: SearchState, op: Op, s': SearchState, a: nat)
    requires ValidConfig(c) && Inv(c, s) && Step(c, s, op, s')
    ensures ModeOf(s') == NextMode(c, ModeOf(s), op)
    ensures a in s'.results ==> s'.valid && Passes(c, ModeOf(s), op, a) && (s.valid ==> a in s.results)
    ensures s'.valid && Passes(c, ModeOf(s), op, a) && (s.valid ==> a in s.results)
              && !(op.Search? && s.memory.None? && op.cap <= |s'.results|)
            ==> a in s'.results
  {
    StepKeepsInv(c, s, op, s');
  }

  // ---------- reading only the regions that hold results ----------

  /** The same command, up to which regions were read for it. */
  predicate SameCommand(op1: Op, op2: Op) {
    match (op1, op2)
    case (Delete(s1, e1), Delete(s2, e2)) => s1 == s2 && e1 == e2
    case (Search(_, p1, d1, c1), Search(_, p2, d2, c2)) => p1 == p2 && d1 == d2 && c1 == c2
    case _ => false
  }

  /** The same commands were issued in both sessions, but the second read only part of memory for a
      search with valid results: a part that includes every region holding one of those results. */
  ghost predicate ReadsLess(full: seq<Op>, part: seq<Op>, states: seq<SearchState>)
    requires |part| <= |states|
  {
    && |full| == |part|
    && forall i :: 0 <= i < |part| ==>
         && SameCommand(full[i], part[i])
         && (part[i].Search? ==>
               if states[i].valid then Narrowed(part[i].snapshot, full[i].snapshot, states[i].results)
               else part[i].snapshot == full[i].snapshot)
  }

  /** Equal up to the extent of the saved snapshot, which still covers the results. */
  ghost predicate Mirrors(s: SearchState, t: SearchState) {
    && s.results == t.results
    && s.valid == t.valid
    && s.prevSize == t.prevSize
    && s.memory.Some? == t.memory.Some?
    && (s.memory.Some? ==>
          if t.valid then Narrowed(t.memory.value, s.memory.value, t.results) else s.memory == t.memory)
  }

  /** Main result. Reading only the regions that hold results gives, at every point of every session,
      the same results as reading all of memory, although the saved snapshots differ. */
  lemma {:induction false} NarrowReadsSuffice(c: TypeConfig, full: seq<Op>, part: seq<Op>, s: seq<SearchState>,
          t: seq<SearchState>, i: nat)
    requires ValidConfig(c) && Run(c, full, s) && Run(c, part, t) && ReadsLess(full, part, t)
    requires i <= |full|
    ensures s[i].results == t[i].results && Mirrors(s[i], t[i])
  {
    if i > 0 {
      NarrowReadsSuffice(c, full, part, s, t, i - 1);
      RunKeepsInv(c, full, s, i - 1);
      RunKeepsInv(c, part, t, i - 1);
      RunKeepsInv(c, full, s, i);
      RunKeepsInv(c, part, t, i);
      MirrorStep(c, s[i - 1], full[i - 1], s[i], t[i - 1], part[i - 1], t[i]);
    }
  }

  /** In particular, if each search with valid results reads what listing the regions of those results gives,
      and every other search reads all of memory, the results are those of the session that always does. */
  lemma TargetReadsSuffice(c: TypeConfig, full: seq<Op>, part: seq<Op>, s: seq<SearchState>, t: seq<SearchState>,
          beyond: seq<nat>, i: nat)
    requires ValidConfig(c) && Run(c, full, s) && Run(c, part, t) && |full| == |part| == |beyond| && i <= |full|
    requires forall j :: 0 <= j < |part| ==>
      match full[j]
      case Delete(start, end) => part[j] == Delete(start, end)
      case Search(os, p, data, cap) =>
        var targets := t[j].results;
        part[j] ==
          Search(if t[j].valid then Touched(os, targets) + Overrun(os, targets, beyond[j]) else os, p, data, cap)
    ensures s[i].results == t[i].results
  {
    forall j | 0 <= j < |part| && full[j].Search? && t[j].valid
      ensures Narrowed(part[j].snapshot, full[j].snapshot, t[j].results)
    {
      assert Step(c, s[j], full[j], s[j + 1]);
      RunKeepsInv(c, part, t, j);
      TargetRegionsSuffice(full[j].snapshot, t[j].results, beyond[j]);
    }
    NarrowReadsSuffice(c, full, part, s, t, i);
  }

  lemma MirrorStep(c: TypeConfig, s: SearchState, op1: Op, s': SearchState, t: SearchState, op2: Op,
          t': SearchState)
    requires ValidConfig(c) && Inv(c, s) && Inv(c, t) && Inv(c, s') && Inv(c, t')
    requires Step(c, s, op1, s') && Step(c, t, op2, t') && Mirrors(s, t) && SameCommand(op1, op2)
    requires op2.Search? ==>
      if t.valid then Narrowed(op2.snapshot, op1.snapshot, t.results) else op2.snapshot == op1.snapshot
    ensures Mirrors(s', t')
  {
    if op1.Search? && !t.valid {
      StepDeterministic(c, s, op1, s', t');
    } else if op1.Search? && Refusal(c, s.memory.Some?, op1.pred, op1.data).None? {
      MirrorLater(c, s, op1, s', t, op2, t');
    } else if op1.Delete? {
      assert forall a :: a in s'.results <==> a in t'.results;
      AscendingUnique(s'.results, t'.results);
      NarrowedFewer(t'.memory, s'.memory, t.results, t'.results);
    }
  }

  lemma NarrowedFewer(n: Option<seq<Region>>, m: Option<seq<Region>>, before: seq<nat>,
          after: seq<nat>)
    requires forall a :: a in after ==> a in before
    ensures n.Some? && m.Some? && Narrowed(n.value, m.value, before) ==> Narrowed(n.value, m.value, after)
  {
  }

  lemma MirrorLater(c: TypeConfig, s: SearchState, op1: Op, s': SearchState, t: SearchState,
          op2: Op, t': SearchState)
    requires ValidConfig(c) && Inv(c, s) && Inv(c, t) && Inv(c, s') && Inv(c, t')
    requires Step(c, s, op1, s') && Step(c, t, op2, t') && Mirrors(s, t) && SameCommand(op1, op2)
    requires op1.Search? && Refusal(c, s.memory.Some?, op1.pred, op1.data).None? && t.valid
    requires Narrowed(op2.snapshot, op1.snapshot, t.results)
    ensures Mirrors(s', t')
  {
    var ev := c.evaluators[op1.pred];
    var w := Width(c, op1.data, s.prevSize);
    forall a: nat | a in t.results
      ensures LaterKeeps(ev, op1.snapshot, s.memory.value, op1.data, w, a)
         <==> LaterKeeps(ev, op2.snapshot, t.memory.value, op1.data, w, a)
    {
      NarrowedLookup(op2.snapshot, op1.snapshot, t.results, a);
      NarrowedLookup(t.memory.value, s.memory.value, t.results, a);
    }
    assert forall a :: a in s'.results <==> a in t'.results;
    AscendingUnique(s'.results, t'.results);
    NarrowedFewer(Some(op2.snapshot), Some(op1.snapshot), t.results, t'.results);
  }

  lemma NarrowedLookup(n: seq<Region>, m: seq<Region>, targets: seq<nat>, a: nat)
    requires Narrowed(n, m, targets) && ValidMap(m) && a in targets
    ensures Lookup(m, a) == Lookup(n, a)
  {
    forall r | r in m && r.Contains(a)
      ensures r in n
    {
      assert Touches(r, targets);
    }
    LookupAgrees(m, n, a);
  }

  // ---------- where the code departs from its own description ----------

  /** The first search is described as evaluating every cell of every region: a cell that starts in a
      region with data and fits in it. */
  ghost predicate AnyCellMatch(ev: Evaluator, f: nat, m: seq<Region>, data: seq<byte>, a: int) {
    && Lookup(m, a).Some?
    && Aligned(a, f)
    && a + |data| <= Lookup(m, a).value.End()
    && ev(CellIn(m, a, |data|), data)
  }

  /** A matching cell is found, exactly if it does not end where its region ends. */
  lemma LastCellIsMissed(ev: Evaluator, f: nat, m: seq<Region>, data: seq<byte>, full: seq<nat>,
          a: nat)
    requires Ascending(full) && forall b :: b in full <==> FirstMatch(ev, f, m, data, b)
    requires AnyCellMatch(ev, f, m, data, a)
    ensures a in full <==> a + |data| != Lookup(m, a).value.End()
  {
  }

  /** A region of eight bytes whose last byte is the value searched for: the match is not found. */
  lemma LastCellExample()
    ensures var m := [Region(8, 8, 3, [0, 0, 0, 0, 0, 0, 0, 7])];
            var ev := (x: seq<byte>, y: seq<byte>) => x == y;
            ValidMap(m) && AnyCellMatch(ev, 1, m, [7], 15) && !FirstMatch(ev, 1, m, [7], 15)
  {
    var m := [Region(8, 8, 3, [0, 0, 0, 0, 0, 0, 0, 7])];
    assert IsReadableAt(m, 15, 0);
    LookupAt(m, 15, 0);
    assert m[0].data[7..8] == [7];
  }

  /** The later scan is the intended filter, exactly if it has no matching result at address 0. */
  lemma LaterScanExactIff(ev: Evaluator, m: seq<Region>, prev: seq<Region>, data: seq<byte>, w: nat,
          before: seq<nat>, res: seq<nat>)
    requires LaterResults(ev, m, prev, data, w, before, res)
    ensures (forall a: nat :: a in res <==> a in before && LaterMatch(ev, m, prev, data, w, a))
       <==> !(0 in before && LaterMatch(ev, m, prev, data, w, 0))
  {
    assert 0 !in res;
  }

  /** A deletion removes exactly the inclusive range, exactly if `end + 1` does not wrap or there is
      nothing to delete. */
  lemma DeletionExactIff(c: TypeConfig, s: SearchState, start: nat, end: nat, s': SearchState)
    requires Inv(c, s) && DeleteDefined(s, start, end) && Deleted(s, start, end, s')
    ensures (forall a: nat :: a in s'.results <==> a in s.results && !(start <= a <= end))
       <==> (end != WORD - 1 || s.results == [])
  {
    HasMember(s.results);
    forall a | a in s.results
      ensures a <= WORD - 1
    {
      var m := s.memory.value;
      LookupCases(m, a);
      var i :| IsReadableAt(m, a, i) && Lookup(m, a).value == m[i];
      assert WellFormed(m[i]);
    }
  }

  // ---------- the result limit ----------

  /** What a search after the first one looks for. */
  ghost predicate Sought(c: TypeConfig, s: SearchState, m: seq<Region>, p: Predicate, data: seq<byte>, a: nat)
    requires s.memory.Some? && p in c.evaluators
  {
    var ev, w := c.evaluators[p], Width(c, data, s.prevSize);
    if s.valid then a in s.results && LaterKeeps(ev, m, s.memory.value, data, w, a)
    else SecondMatch(ev, c.fieldSize, m, s.memory.value, data, w, a)
  }

  /** A first search keeps to the result limit. Searches after it ignore the limit: they keep to it exactly
      if there is no more to be found than that. */
  lemma LimitKeptIff(c: TypeConfig, s: SearchState, m: seq<Region>, p: Predicate, data: seq<byte>,
          cap: nat, s': SearchState, full: seq<nat>)
    requires ValidConfig(c) && Inv(c, s) && Step(c, s, Search(m, p, data, cap), s')
    requires Refusal(c, s.memory.Some?, p, data).None?
    requires Ascending(full) && (s.memory.Some? ==> forall a :: a in full <==> Sought(c, s, m, p, data, a))
    ensures |s'.results| <= cap <==> s.memory.None? || |full| <= cap
  {
    if s.memory.Some? {
      assert forall a :: a in s'.results <==> a in full;
      AscendingUnique(s'.results, full);
    }
  }

  // ---------- searches of writable memory ----------

  const WRITABLE := 2

  predicate IsWritable(r: Region) {
    (r.protection / WRITABLE) % 2 == 1
  }

  function WritableOnly(m: seq<Region>): (w: seq<Region>)
    ensures forall r :: r in w <==> r in m && IsWritable(r)
  {
    if m == [] then []
    else
      var n := |m| - 1;
      assert m == m[..n] + [m[n]];
      WritableOnly(m[..n]) + (if IsWritable(m[n]) then [m[n]] else [])
  }

  lemma {:induction false} WritableValid(m: seq<Region>)
    requires ValidMap(m)
    ensures ValidMap(WritableOnly(m))
  {
    if m != [] {
      var n := |m| - 1;
      WritableValid(m[..n]);
      var front := WritableOnly(m[..n]);
      forall i | 0 <= i < |front|
        ensures front[i].End() <= m[n].addr
      {
        assert front[i] in front;
        var j :| 0 <= j < n && m[j] == front[i];
      }
    }
  }

  lemma WritableLookup(m: seq<Region>, a: int)
    requires ValidMap(m)
    ensures Lookup(WritableOnly(m), a) ==
      if Lookup(m, a).Some? && IsWritable(Lookup(m, a).value) then Lookup(m, a) else None
  {
    var w := WritableOnly(m);
    WritableValid(m);
    LookupCases(m, a);
    if i :| IsReadableAt(w, a, i) {
      assert w[i] in w;
      var j :| 0 <= j < |m| && m[j] == w[i];
      LookupAt(w, a, i);
      LookupAt(m, a, j);
    } else {
      LookupCases(w, a);
      if Lookup(m, a).Some? && IsWritable(Lookup(m, a).value) {
        var r := Lookup(m, a).value;
        assert r in w;
        var i :| 0 <= i < |w| && w[i] == r;
        assert IsReadableAt(w, a, i);
      }
    }
  }

  /** The manual promises that a search opened without the all-memory flag looks in writable memory only;
      the code never consults the flag. A first search finds what is promised exactly if it finds nothing
      in memory that cannot be written. */
  lemma WritablePromiseIff(ev: Evaluator, f: nat, m: seq<Region>, data: seq<byte>, full: seq<nat>)
    requires ValidMap(m) && forall a :: a in full <==> FirstMatch(ev, f, m, data, a)
    ensures (forall a: nat :: a in full <==> FirstMatch(ev, f, WritableOnly(m), data, a))
       <==> (forall a :: a in full && Lookup(m, a).Some? ==> IsWritable(Lookup(m, a).value))
  {
    forall a: nat
      ensures FirstMatch(ev, f, WritableOnly(m), data, a) <==>
        FirstMatch(ev, f, m, data, a) && IsWritable(Lookup(m, a).value)
    {
      WritableLookup(m, a);
    }
  }

  // ---------- string searches without a value ----------

  predicate Accepts(c: TypeConfig, mode: Mode, op: Op) {
    op.Search? && Refusal(c, mode.memory.Some?, op.pred, op.data).None?
  }

  /** The length of the value given last. */
  function LastGiven(c: TypeConfig, ops: seq<Op>): nat {
    if ops == [] then 0
    else
      var n := |ops| - 1;
      if Accepts(c, ModeAfter(c, ops[..n]), ops[n]) && ops[n].data != [] then |ops[n].data| else LastGiven(c, ops[..n])
  }

  /** The last search that was accepted gave a value, and was not the initial search for anything. */
  predicate Remembers(c: TypeConfig, ops: seq<Op>) {
    ops != [] &&
    var n := |ops| - 1;
    var mode := ModeAfter(c, ops[..n]);
    if Accepts(c, mode, ops[n]) then ops[n].data != [] && !(mode.memory.None? && ops[n].pred == All)
    else Remembers(c, ops[..n])
  }

  lemma {:induction false} SavedLength(c: TypeConfig, ops: seq<Op>)
    requires c.isData
    ensures var mode := ModeAfter(c, ops);
            && mode.prevSize == (if Remembers(c, ops) then LastGiven(c, ops) else 0)
            && (mode.memory.None? ==> mode.prevSize == 0)
            && (mode.memory.Some? ==> LastGiven(c, ops) > 0)
  {
    if ops != [] {
      SavedLength(c, ops[..|ops| - 1]);
    }
  }

  /** A string search without a value is meant to compare as many bytes as the value given last. It does,
      exactly if the search before it gave that value and was not an initial search for anything;
      otherwise it compares no bytes at all. */
  lemma ValuelessWidthIff(c: TypeConfig, ops: seq<Op>)
    requires c.isData && ModeAfter(c, ops).memory.Some?
    ensures Width(c, [], ModeAfter(c, ops).prevSize) == LastGiven(c, ops) <==> Remembers(c, ops)
    ensures !Remembers(c, ops) ==> Width(c, [], ModeAfter(c, ops).prevSize) == 0
  {
    SavedLength(c, ops);
  }

  /** A search that compares no bytes keeps everything readable or nothing, whatever memory holds. */
  lemma NothingCompared(c: TypeConfig, s: SearchState, m: seq<Region>, p: Predicate, cap: nat,
          s': SearchState)
    requires ValidConfig(c) && c.isData && Inv(c, s) && s.memory.Some? && s.prevSize == 0
    requires p in c.evaluators && Step(c, s, Search(m, p, [], cap), s')
    ensures !c.evaluators[p]([], []) ==> s'.results == []
    ensures c.evaluators[p]([], []) && s.valid ==>
      forall a: nat :: a in s'.results <==> a in s.results && a != 0 && Lookup(m, a).Some?
    ensures c.evaluators[p]([], []) && !s.valid ==>
      forall a: nat :: a in s'.results <==> Lookup(m, a).Some? && Lookup(s.memory.value, a).Some?
  {
    HasMember(s'.results);
  }
}
