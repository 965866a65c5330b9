/** The iterations of a search: a bounded undo stack. Each iteration is a copy of the search's state. */
module History {
  import opened Memory
  import opened SearchSpec
  import opened Adapter
  import opened Sessions

  // ---------- the stack ----------

  const SIGN_BIT := 0x8000_0000_0000_0000

  /** How many iterations are too many: an unsigned subtraction whose result is read as signed. */
  function NumToDelete(size: nat, retain: nat): int {
    var d := (size - retain) % WORD;
    if d < SIGN_BIT then d else d - WORD
  }

  /** The limit does not exceed the size by more than half the range. */
  predicate LimitDefined(size: nat, retain: nat) {
    size < SIGN_BIT && retain < WORD && retain - size <= SIGN_BIT
  }

  /** That is the true difference exactly if the limit is not too large; otherwise more iterations would
      be deleted than there are. */
  lemma NumToDeleteIff(size: nat, retain: nat)
    requires size < SIGN_BIT && retain < WORD
    ensures NumToDelete(size, retain) == size - retain <==> LimitDefined(size, retain)
    ensures !LimitDefined(size, retain) ==> NumToDelete(size, retain) > size
  {
    if size < retain {
      assert (size - retain) % WORD == size - retain + WORD;
    }
  }

  /** The last `n` elements. */
  function Newest<T>(h: seq<T>, n: nat): seq<T> {
    if |h| <= n then h else h[|h| - n..]
  }

  function Undone<T>(h: seq<T>): seq<T> {
    if |h| <= 1 then h else h[..|h| - 1]
  }

  /** The history after pushing every element of `xs`, with the limit applied each time. */
  function SearchAll<T>(h: seq<T>, xs: seq<T>, max: nat): seq<T> {
    if xs == [] then h else Newest(SearchAll(h, xs[..|xs| - 1], max) + [xs[|xs| - 1]], max)
  }

  function UndoAll<T>(h: seq<T>, n: nat): seq<T> {
    if n == 0 then h else Undone(UndoAll(h, n - 1))
  }

  lemma NewestAgain<T>(h: seq<T>, x: T, max: nat)
    ensures Newest(Newest(h, max) + [x], max) == Newest(h + [x], max)
  {
  }

  lemma {:induction false} SearchAllNewest<T>(h: seq<T>, xs: seq<T>, max: nat)
    requires |h| <= max
    ensures SearchAll(h, xs, max) == Newest(h + xs, max)
  {
    if xs != [] {
      var n := |xs| - 1;
      SearchAllNewest(h, xs[..n], max);
      NewestAgain(h + xs[..n], xs[n], max);
      assert h + xs == h + xs[..n] + [xs[n]];
    } else {
      assert h + xs == h;
    }
  }

  lemma {:induction false} UndoAllTakes<T>(h: seq<T>, n: nat)
    requires h != []
    ensures UndoAll(h, n) == h[..if n < |h| then |h| - n else 1]
  {
    if n > 0 {
      UndoAllTakes(h, n - 1);
    }
  }

  /** Main result on undoing. From a history within the limit, some searches followed by as many undos
      leave exactly the newest original iterations that the limit did not push out; with as many
      searches as the limit allows, or more, no original is left. */
  lemma SearchesThenUndos<T>(h: seq<T>, xs: seq<T>, max: nat)
    requires 1 <= |h| <= max
    ensures |xs| < max ==> UndoAll(SearchAll(h, xs, max), |xs|) == Newest(h, max - |xs|)
    ensures |xs| >= max ==> UndoAll(SearchAll(h, xs, max), |xs|) == [xs[|xs| - max]]
  {
    SearchAllNewest(h, xs, max);
    var all := Newest(h + xs, max);
    UndoAllTakes(all, |xs|);
    if |xs| >= max {
      assert all[0] == xs[|xs| - max];
    }
  }

  /** Undoing restores the history, exactly if the limit was never reached in between. */
  lemma UndoRestoresIff<T>(h: seq<T>, xs: seq<T>, max: nat)
    requires 1 <= |h| <= max && |xs| < max
    ensures UndoAll(SearchAll(h, xs, max), |xs|) == h <==> |h| + |xs| <= max
  {
    SearchesThenUndos(h, xs, max);
  }

  // ---------- what an iteration holds ----------

  /** A search at one point of its history. `log` is a history variable: the commands that led there,
      of which the shell itself keeps only a line of text. */
  datatype Iteration = Iteration(config: TypeConfig, allMemory: bool, state: SearchState, log: seq<Op>)

  function Initial(config: TypeConfig, allMemory: bool): Iteration {
    Iteration(config, allMemory, FRESH, [])
  }

  /** The regions read for the next search: all of them, until there are results to look at. */
  ghost function ReadFor(it: Iteration, os: seq<Region>, beyond: nat): seq<Region> {
    if it.state.valid then Touched(os, it.state.results) + Overrun(os, it.state.results, beyond) else os
  }

  /** The state is that of a session which issued the logged commands and read all of memory for each
      of them, up to the extent of the saved snapshot. */
  ghost predicate Faithful(c: TypeConfig, log: seq<Op>, s: SearchState) {
    exists states: seq<SearchState> :: Run(c, log, states) && Mirrors(states[|log|], s)
  }

  ghost predicate IterationValid(it: Iteration) {
    ValidConfig(it.config) && Inv(it.config, it.state) && Faithful(it.config, it.log, it.state)
  }

  lemma InitialValid(config: TypeConfig, allMemory: bool)
    requires ValidConfig(config)
    ensures IterationValid(Initial(config, allMemory))
  {
    var states := [FRESH];
    assert Run(config, [], states) && Mirrors(states[0], FRESH);
  }

  /** `it'` follows from `it` by one command, whose full form, with all of memory read, it logs. */
  ghost predicate Follows(it: Iteration, part: Op, full: Op, it': Iteration) {
    && it' == it.(state := it'.state, log := it.log + [full])
    && Step(it.config, it.state, part, it'.state)
  }

  /** The all-memory flag is carried along and never consulted: what follows from an iteration does not
      depend on it. */
  lemma FlagIgnored(it: Iteration, p: Predicate, data: seq<byte>, os: seq<Region>, beyond: nat,
          cap: nat, it': Iteration, flag: bool)
    ensures SearchFollows(it, p, data, os, beyond, cap, it') <==>
      it'.allMemory == it.allMemory
        && SearchFollows(it.(allMemory := flag), p, data, os, beyond, cap, it'.(allMemory := flag))
  {
    var other, other' := it.(allMemory := flag), it'.(allMemory := flag);
    assert ReadFor(other, os, beyond) == ReadFor(it, os, beyond);
    assert it'.allMemory == it.allMemory ==> other'.(allMemory := it.allMemory) == it';
  }

  /** A search that reads only the regions that may matter. */
  ghost predicate SearchFollows(it: Iteration, p: Predicate, data: seq<byte>, os: seq<Region>, beyond: nat, cap: nat,
          it': Iteration)
  {
    Follows(it, Search(ReadFor(it, os, beyond), p, data, cap), Search(os, p, data, cap), it')
  }

  lemma SearchKeepsValid(it: Iteration, p: Predicate, data: seq<byte>, os: seq<Region>, beyond: nat,
          cap: nat, it': Iteration)
    requires IterationValid(it) && ValidMap(os) && SearchFollows(it, p, data, os, beyond, cap, it')
    ensures IterationValid(it')
  {
    if it.state.valid {
      TargetRegionsSuffice(os, it.state.results, beyond);
    }
    FollowsKeepsValid(it, Search(ReadFor(it, os, beyond), p, data, cap), Search(os, p, data, cap), it');
  }

  lemma FollowsKeepsValid(it: Iteration, part: Op, full: Op, it': Iteration)
    requires IterationValid(it) && Follows(it, part, full, it') && SameCommand(full, part)
    requires full.Search? ==> ValidMap(full.snapshot)
    requires part.Search? ==>
      if it.state.valid then Narrowed(part.snapshot, full.snapshot, it.state.results)
      else part.snapshot == full.snapshot
    ensures IterationValid(it')
  {
    var c, s, log := it.config, it.state, it.log;
    var states :| Run(c, log, states) && Mirrors(states[|log|], s);
    RunKeepsInv(c, log, states, |log|);
    StepKeepsInv(c, s, part, it'.state);
    var after := FullStep(c, states[|log|], full, s, part, it'.state);
    Append(c, log, states, full, after, it'.state);
  }

  lemma Append(c: TypeConfig, log: seq<Op>, states: seq<SearchState>, op: Op, after: SearchState,
          s': SearchState)
    requires Run(c, log, states) && Step(c, states[|log|], op, after) && Mirrors(after, s')
    ensures Faithful(c, log + [op], s')
  {
    var states' := states + [after];
    assert Run(c, log + [op], states') && Mirrors(states'[|log + [op]|], s');
  }

  /** A step of the session that reads less can be matched by the session that reads everything. */
  lemma FullStep(c: TypeConfig, s: SearchState, op1: Op, t: SearchState, op2: Op, t': SearchState)
    returns (s': SearchState)
    requires ValidConfig(c) && Inv(c, s) && Inv(c, t) && Inv(c, t')
    requires Step(c, t, op2, t') && Mirrors(s, t) && SameCommand(op1, op2)
    requires op1.Search? ==> ValidMap(op1.snapshot)
    requires op2.Search? ==>
      if t.valid then Narrowed(op2.snapshot, op1.snapshot, t.results) else op2.snapshot == op1.snapshot
    ensures Step(c, s, op1, s') && Mirrors(s', t')
  {
    if op1.Delete? {
      s' := s.(results := t'.results);
    } else if Refusal(c, s.memory.Some?, op1.pred, op1.data).Some? {
      s' := s;
    } else if !t.valid {
      s' := t';
    } else {
      s' := SearchState(Some(op1.snapshot), true, |op1.data|, t'.results);
      KeepsAlike(c, s, op1, t, op2);
    }
    StepKeepsInv(c, s, op1, s');
    MirrorStep(c, s, op1, s', t, op2, t');
  }

  lemma KeepsAlike(c: TypeConfig, s: SearchState, op1: Op, t: SearchState, op2: Op)
    requires Inv(c, s) && Inv(c, t) && Mirrors(s, t) && t.valid
    requires op1.Search? && op2.Search? && ValidMap(op1.snapshot) && Narrowed(op2.snapshot, op1.snapshot, t.results)
    ensures forall ev, data, w, a: nat :: a in t.results ==>
      (LaterKeeps(ev, op1.snapshot, s.memory.value, data, w, a)
       <==> LaterKeeps(ev, op2.snapshot, t.memory.value, data, w, a))
  {
    forall a: nat | a in t.results
      ensures Lookup(op1.snapshot, a) == Lookup(op2.snapshot, a)
      ensures Lookup(s.memory.value, a) == Lookup(t.memory.value, a)
    {
      NarrowedLookup(op2.snapshot, op1.snapshot, t.results, a);
      NarrowedLookup(t.memory.value, s.memory.value, t.results, a);
    }
  }

  /** Main result on iterations. Whatever was undone, forked, truncated or read in part on the way, an
      iteration's results are those of the session that issued the commands of its log, read all of
      memory for each, and did nothing else. */
  lemma IterationMeaning(it: Iteration, states: seq<SearchState>)
    requires IterationValid(it) && Run(it.config, it.log, states)
    ensures it.state.results == states[|it.log|].results && it.state.valid == states[|it.log|].valid
    ensures Ascending(it.state.results)
    ensures forall a :: a in it.state.results ==> it.state.valid && Survives(it.config, it.log, a)
    ensures Uncapped(it.config, it.log, states) ==>
      forall a: nat :: a in it.state.results <==> it.state.valid && Survives(it.config, it.log, a)
  {
    var states' :| Run(it.config, it.log, states') && Mirrors(states'[|it.log|], it.state);
    RunsAgree(it.config, it.log, states, states', |it.log|);
    SessionResults(it.config, it.log, states);
  }

  lemma {:induction false} RunsAgree(c: TypeConfig, log: seq<Op>, r: seq<SearchState>, r': seq<SearchState>, i: nat)
    requires ValidConfig(c) && Run(c, log, r) && Run(c, log, r') && i <= |log|
    ensures r[i] == r'[i]
  {
    if i > 0 {
      RunsAgree(c, log, r, r', i - 1);
      RunKeepsInv(c, log, r, i - 1);
      StepDeterministic(c, r[i - 1], log[i - 1], r[i], r'[i]);
    }
  }

  // ---------- a whole history ----------

  predicate Extends(longer: seq<Op>, log: seq<Op>) {
    |log| < |longer| && longer[..|log|] == log
  }

  /** Every iteration is faithful to its log, and each log continues the one before it. */
  ghost predicate HistoryValid(h: seq<Iteration>) {
    && (forall it :: it in h ==> IterationValid(it))
    && (forall i, j :: 0 <= i < j < |h| ==> h[i].config == h[j].config && Extends(h[j].log, h[i].log))
  }

  lemma HistoryPush(h: seq<Iteration>, it: Iteration)
    requires HistoryValid(h) && IterationValid(it)
    requires h != [] ==> it.config == h[|h| - 1].config && Extends(it.log, h[|h| - 1].log)
    ensures HistoryValid(h + [it])
  {
    forall i | 0 <= i < |h|
      ensures h[i].config == it.config && Extends(it.log, h[i].log)
    {
      assert i < |h| - 1 ==> h[i].config == h[|h| - 1].config && Extends(h[|h| - 1].log, h[i].log);
      assert it.log[..|h[|h| - 1].log|][..|h[i].log|] == it.log[..|h[i].log|];
    }
  }

  lemma HistorySlice(h: seq<Iteration>, from: nat, to: nat)
    requires HistoryValid(h) && from <= to <= |h|
    ensures HistoryValid(h[from..to])
  {
  }

  /** Once a search has results, every later iteration of its history has a subset of them. */
  lemma HistoryNarrows(h: seq<Iteration>, i: nat, j: nat, a: nat)
    requires HistoryValid(h) && i < j < |h|
    requires h[i].state.valid && a in h[j].state.results
    ensures h[j].state.valid && a in h[i].state.results
  {
    var c, log, log' := h[i].config, h[i].log, h[j].log;
    assert IterationValid(h[i]) && IterationValid(h[j]);
    var r :| Run(c, log, r) && Mirrors(r[|log|], h[i].state);
    var r' :| Run(c, log', r') && Mirrors(r'[|log'|], h[j].state);
    var k := |log|;
    assert Run(c, log, r'[..k + 1]) by {
      assert forall n :: 0 <= n < k ==> log[n] == log'[..k][n];
    }
    RunsAgree(c, log, r, r'[..k + 1], k);
    Narrows(c, log', r', k, |log'|, a);
  }

  lemma {:induction false} Narrows(c: TypeConfig, log: seq<Op>, r: seq<SearchState>, i: nat, j: nat, a: nat)
    requires ValidConfig(c) && Run(c, log, r) && i <= j <= |log|
    requires r[i].valid
    ensures r[j].valid && (a in r[j].results ==> a in r[i].results)
  {
    if i < j {
      Narrows(c, log, r, i, j - 1, a);
      RunKeepsInv(c, log, r, j - 1);
      StepPasses(c, r[j - 1], log[j - 1], r[j], a);
    }
  }
}
