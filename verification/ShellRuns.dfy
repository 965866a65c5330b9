/** The shell's search commands as steps on the open searches, and what holds over any run of them. */
module ShellRuns {
  import opened Memory
  import opened SearchSpec
  import opened Adapter
  import opened Sessions
  import opened History

  type Searches = map<string, seq<Iteration>>

  /** The open searches by name, each with its history, and the name of the current one. */
  datatype ShellState = ShellState(searches: Searches, current: string)

  const CLOSED := ShellState(map[], "")

  datatype ShellError =
    | NoSuchSearch | NoIterations | Refused(reason: SearchError)
    | InitialSearch | NotPositive | IntoItself | DecreasingRange

  datatype Outcome = Outcome(state: ShellState, error: Option<ShellError>)

  /** A command without a search name means the current search. */
  datatype Command =
    | Open(config: TypeConfig, allMemory: bool, openedAs: string)
    | SwitchTo(target: string)
    | Close(name: Option<string>)
    | SearchFor(name: Option<string>, pred: Predicate, data: seq<byte>, os: seq<Region>,
            beyond: nat, cap: nat, max: nat)
    | Undo(name: Option<string>)
    | Truncate(name: Option<string>, count: int)
    | Fork(target: string)
    | ForkNamed(source: string, target: string)
    | DeleteRanges(ranges: seq<(nat, nat)>)

  function Named(s: ShellState, name: Option<string>): string {
    if name.Some? then name.value else s.current
  }

  /** Naming a search closes the unnamed one. */
  function WithoutUnnamed(searches: Searches, name: string): Searches {
    if name != "" then searches - {""} else searches
  }

  function Replaced(s: ShellState, name: string, h: seq<Iteration>): ShellState {
    s.(searches := s.searches[name := h])
  }

  function Opened(s: ShellState, config: TypeConfig, allMemory: bool, name: string): ShellState {
    ShellState(WithoutUnnamed(s.searches[name := [Initial(config, allMemory)]], name), name)
  }

  function Switched(s: ShellState, name: string): Outcome {
    if name !in s.searches then Outcome(s, Some(NoSuchSearch))
    else Outcome(ShellState(WithoutUnnamed(s.searches, name), name), None)
  }

  function AfterClose(s: ShellState, name: string): Outcome {
    if name !in s.searches then Outcome(s, Some(NoSuchSearch))
    else Outcome(ShellState(s.searches - {name}, if s.current == name then "" else s.current), None)
  }

  function AfterUndo(s: ShellState, name: string): Outcome {
    if name !in s.searches then Outcome(s, Some(NoSuchSearch))
    else if |s.searches[name]| <= 1 then Outcome(s, Some(InitialSearch))
    else Outcome(Replaced(s, name, Undone(s.searches[name])), None)
  }

  function AfterTruncate(s: ShellState, name: string, count: int): Outcome {
    if name !in s.searches then Outcome(s, Some(NoSuchSearch))
    else if count <= 0 then Outcome(s, Some(NotPositive))
    else Outcome(Replaced(s, name, Newest(s.searches[name], count)), None)
  }

  /** Forking the current search checks first and switches to the copy. */
  function AfterFork(s: ShellState, target: string): Outcome {
    if target == s.current then Outcome(s, Some(IntoItself))
    else if s.current !in s.searches then Outcome(s, Some(NoSuchSearch))
    else Outcome(ShellState(s.searches[target := s.searches[s.current]], target), None)
  }

  /** Forking a named search erases the target before it looks for the source. */
  function AfterForkNamed(s: ShellState, source: string, target: string): Outcome {
    var erased := s.(searches := s.searches - {target});
    if source !in erased.searches then Outcome(erased, Some(NoSuchSearch))
    else Outcome(Replaced(erased, target, erased.searches[source]), None)
  }

  /** The same searches are open with the same histories, apart from the named ones. */
  ghost predicate SameExcept(searches: Searches, searches': Searches, names: set<string>) {
    forall n :: n !in names ==>
      (n in searches' <==> n in searches) && (n in searches ==> searches'[n] == searches[n])
  }

  ghost predicate SearchOutcome(s: ShellState, name: string, cmd: Command, o: Outcome)
    requires cmd.SearchFor?
  {
    if name !in s.searches then o == Outcome(s, Some(NoSuchSearch))
    else if s.searches[name] == [] then o == Outcome(s, Some(NoIterations))
    else
      var h := s.searches[name];
      var last := h[|h| - 1];
      match Refusal(last.config, last.state.memory.Some?, cmd.pred, cmd.data)
      case Some(e) => o == Outcome(s, Some(Refused(e)))
      case None => exists it :: Pushes(s, name, cmd, o, it)
  }

  /** The search succeeds and adds the iteration `it`, dropping the oldest ones beyond the limit. */
  ghost predicate Pushes(s: ShellState, name: string, cmd: Command, o: Outcome, it: Iteration)
    requires cmd.SearchFor? && name in s.searches && s.searches[name] != []
  {
    var h := s.searches[name];
    && SearchFollows(h[|h| - 1], cmd.pred, cmd.data, cmd.os, cmd.beyond, cmd.cap, it)
    && o == Outcome(Replaced(s, name, Newest(h + [it], cmd.max)), None)
  }

  /** Deleting the ranges one after the other. */
  ghost predicate DeletesFollow(it: Iteration, ranges: seq<(nat, nat)>, it': Iteration) {
    if ranges == [] then it' == it
    else
      var r := ranges[|ranges| - 1];
      exists mid :: DeletesFollow(it, ranges[..|ranges| - 1], mid)
        && Follows(mid, Delete(r.0, r.1), Delete(r.0, r.1), it')
  }

  ghost predicate DeleteOutcome(s: ShellState, ranges: seq<(nat, nat)>, o: Outcome) {
    if s.current !in s.searches then o == Outcome(s, Some(NoSuchSearch))
    else if s.searches[s.current] == [] then o == Outcome(s, Some(NoIterations))
    else if exists r :: r in ranges && r.0 > r.1 then o == Outcome(s, Some(DecreasingRange))
    else exists it :: Deletes(s, ranges, o, it)
  }

  ghost predicate Deletes(s: ShellState, ranges: seq<(nat, nat)>, o: Outcome, it: Iteration)
    requires s.current in s.searches && s.searches[s.current] != []
  {
    var h := s.searches[s.current];
    DeletesFollow(h[|h| - 1], ranges, it) && o == Outcome(Replaced(s, s.current, h[|h| - 1 := it]), None)
  }

  ghost predicate Next(s: ShellState, cmd: Command, o: Outcome) {
    match cmd
    case Open(config, allMemory, name) => o == Outcome(Opened(s, config, allMemory, name), None)
    case SwitchTo(target) => o == Switched(s, target)
    case Close(name) => o == AfterClose(s, Named(s, name))
    case SearchFor(name, _, _, _, _, _, _) => SearchOutcome(s, Named(s, name), cmd, o)
    case Undo(name) => o == AfterUndo(s, Named(s, name))
    case Truncate(name, count) => o == AfterTruncate(s, Named(s, name), count)
    case Fork(target) => o == AfterFork(s, target)
    case ForkNamed(source, target) => o == AfterForkNamed(s, source, target)
    case DeleteRanges(ranges) => DeleteOutcome(s, ranges, o)
  }

  lemma OpenedMeans(s: ShellState, config: TypeConfig, allMemory: bool, name: string)
    ensures var s' := Opened(s, config, allMemory, name);
            && s'.current == name && name in s'.searches && s'.searches[name] == [Initial(config, allMemory)]
            && SameExcept(s.searches, s'.searches, {name, ""})
            && (name != "" ==> "" !in s'.searches)
  {
  }

  /** An accepted search that adds an iteration is a step. */
  lemma PushIsNext(s: ShellState, cmd: Command, o: Outcome, it: Iteration)
    requires Accepted(s, cmd)
    requires Pushes(s, Named(s, cmd.name), cmd, o, it)
    ensures Next(s, cmd, o)
  {
  }

  // ---------- every reachable history is valid ----------

  ghost predicate ShellValid(s: ShellState) {
    forall n :: n in s.searches ==> HistoryValid(s.searches[n])
  }

  /** What commands are made from: rows of the search-type table and maps of the target's memory. */
  ghost predicate ValidCommand(cmd: Command) {
    && (cmd.Open? ==> ValidConfig(cmd.config))
    && (cmd.SearchFor? ==> ValidMap(cmd.os))
  }

  ghost predicate StepsTo(s: ShellState, cmd: Command, s': ShellState) {
    exists o :: Next(s, cmd, o) && o.state == s'
  }

  ghost predicate ShellRun(cmds: seq<Command>, states: seq<ShellState>) {
    && |states| == |cmds| + 1
    && states[0] == CLOSED
    && forall i :: 0 <= i < |cmds| ==> ValidCommand(cmds[i]) && StepsTo(states[i], cmds[i], states[i + 1])
  }

  lemma ReplacedValid(s: ShellState, name: string, h: seq<Iteration>)
    requires ShellValid(s) && HistoryValid(h)
    ensures ShellValid(Replaced(s, name, h))
  {
  }

  lemma PushKeepsValid(s: ShellState, name: string, cmd: Command, o: Outcome, it: Iteration)
    requires ShellValid(s) && cmd.SearchFor? && ValidMap(cmd.os) && name in s.searches && s.searches[name] != []
    requires Pushes(s, name, cmd, o, it)
    ensures ShellValid(o.state)
  {
    var h := s.searches[name];
    var last, h' := h[|h| - 1], h + [it];
    assert IterationValid(last);
    SearchKeepsValid(last, cmd.pred, cmd.data, cmd.os, cmd.beyond, cmd.cap, it);
    assert it.log[..|last.log|] == last.log;
    HistoryPush(h, it);
    if |h'| > cmd.max {
      HistorySlice(h', |h'| - cmd.max, |h'|);
    }
    ReplacedValid(s, name, Newest(h', cmd.max));
  }

  lemma {:induction false} DeletesKeepValid(it: Iteration, ranges: seq<(nat, nat)>, it': Iteration)
    requires IterationValid(it) && DeletesFollow(it, ranges, it')
    ensures IterationValid(it') && it'.config == it.config
    ensures |it.log| <= |it'.log| && it'.log[..|it.log|] == it.log
  {
    if ranges != [] {
      var r := ranges[|ranges| - 1];
      var mid :| DeletesFollow(it, ranges[..|ranges| - 1], mid)
        && Follows(mid, Delete(r.0, r.1), Delete(r.0, r.1), it');
      DeletesKeepValid(it, ranges[..|ranges| - 1], mid);
      FollowsKeepsValid(mid, Delete(r.0, r.1), Delete(r.0, r.1), it');
    }
  }

  lemma LastReplacedValid(h: seq<Iteration>, it: Iteration)
    requires HistoryValid(h) && h != [] && IterationValid(it)
    requires var last := h[|h| - 1];
             it.config == last.config && |last.log| <= |it.log| && it.log[..|last.log|] == last.log
    ensures HistoryValid(h[|h| - 1 := it])
  {
    var n := |h| - 1;
    HistorySlice(h, 0, n);
    if n > 0 {
      assert Extends(h[n].log, h[n - 1].log);
      assert it.log[..|h[n].log|][..|h[n - 1].log|] == it.log[..|h[n - 1].log|];
    }
    HistoryPush(h[0..n], it);
    assert h[n := it] == h[0..n] + [it];
  }

  lemma DeleteKeepsValid(s: ShellState, ranges: seq<(nat, nat)>, o: Outcome)
    requires ShellValid(s) && DeleteOutcome(s, ranges, o)
    ensures ShellValid(o.state)
  {
    if o.error.None? {
      var h := s.searches[s.current];
      var it :| Deletes(s, ranges, o, it);
      assert IterationValid(h[|h| - 1]);
      DeletesKeepValid(h[|h| - 1], ranges, it);
      LastReplacedValid(h, it);
      ReplacedValid(s, s.current, h[|h| - 1 := it]);
    }
  }

  lemma NextKeepsValid(s: ShellState, cmd: Command, o: Outcome)
    requires ShellValid(s) && ValidCommand(cmd) && Next(s, cmd, o)
    ensures ShellValid(o.state)
  {
    match cmd
    case Open(config, allMemory, name) =>
      InitialValid(config, allMemory);
      ReplacedValid(s, name, [Initial(config, allMemory)]);
    case SearchFor(name, _, _, _, _, _, _) =>
      var n := Named(s, name);
      if o.error.None? {
        var it :| Pushes(s, n, cmd, o, it);
        PushKeepsValid(s, n, cmd, o, it);
      }
    case Undo(name) =>
      if o.error.None? {
        HistorySlice(s.searches[Named(s, name)], 0, |s.searches[Named(s, name)]| - 1);
      }
    case Truncate(name, count) =>
      if o.error.None? && |s.searches[Named(s, name)]| > count {
        HistorySlice(s.searches[Named(s, name)], |s.searches[Named(s, name)]| - count, |s.searches[Named(s, name)]|);
      }
    case DeleteRanges(ranges) =>
      DeleteKeepsValid(s, ranges, o);
    case _ =>
  }

  /** Main result on the shell. After any run of commands, every iteration of every open search means
      what its log says (`IterationMeaning`), and later iterations narrow earlier ones (`HistoryNarrows`). */
  lemma {:induction false} ShellRunValid(cmds: seq<Command>, states: seq<ShellState>, i: nat)
    requires ShellRun(cmds, states) && i <= |cmds|
    ensures ShellValid(states[i])
  {
    if i > 0 {
      ShellRunValid(cmds, states, i - 1);
      var o :| Next(states[i - 1], cmds[i - 1], o) && o.state == states[i];
      NextKeepsValid(states[i - 1], cmds[i - 1], o);
    }
  }

  // ---------- no history is ever empty ----------

  predicate NonEmpty(s: ShellState) {
    forall n :: n in s.searches ==> s.searches[n] != []
  }

  /** The command is a search that will be accepted. */
  predicate Accepted(s: ShellState, cmd: Command) {
    && cmd.SearchFor?
    && Named(s, cmd.name) in s.searches
    && s.searches[Named(s, cmd.name)] != []
    && var h := s.searches[Named(s, cmd.name)];
       Refusal(h[|h| - 1].config, h[|h| - 1].state.memory.Some?, cmd.pred, cmd.data).None?
  }

  /** A command leaves some search without iterations, exactly if it is a search that will be accepted while
      the limit on iterations is zero. */
  lemma NonEmptyIff(s: ShellState, cmd: Command, o: Outcome)
    requires NonEmpty(s) && Next(s, cmd, o)
    ensures NonEmpty(o.state) <==> !(Accepted(s, cmd) && cmd.max == 0)
  {
    if Accepted(s, cmd) {
      var n := Named(s, cmd.name);
      var it :| Pushes(s, n, cmd, o, it);
      assert n in o.state.searches;
      assert o.state.searches[n] == [] <==> cmd.max == 0;
    }
  }

  /** An accepted search leaves at most as many iterations as the limit, ending with the new one. */
  lemma SearchBounds(s: ShellState, cmd: Command, o: Outcome)
    requires cmd.SearchFor? && Next(s, cmd, o) && o.error.None?
    ensures var n := Named(s, cmd.name);
            && n in s.searches && s.searches[n] != [] && n in o.state.searches
            && |o.state.searches[n]| == (if |s.searches[n]| < cmd.max then |s.searches[n]| + 1 else cmd.max)
            && (cmd.max > 0 ==>
                  var h, h' := s.searches[n], o.state.searches[n];
                  h'[|h'| - 1].log != [] && h'[..|h'| - 1] == h[|h| + 1 - |h'|..])
  {
    var n := Named(s, cmd.name);
    var it :| Pushes(s, n, cmd, o, it);
  }

  // ---------- undoing ----------

  /** Undoing a search restores the shell exactly, if and only if the search dropped no iteration. */
  lemma UndoSearchIff(s: ShellState, cmd: Command, o: Outcome)
    requires cmd.SearchFor? && Next(s, cmd, o) && o.error.None?
    ensures var n := Named(s, cmd.name);
            && n in s.searches
            && (AfterUndo(o.state, n).state == s <==> |s.searches[n]| < cmd.max)
  {
    var n := Named(s, cmd.name);
    var it :| Pushes(s, n, cmd, o, it);
    var h, h' := s.searches[n], o.state.searches[n];
    var undone := AfterUndo(o.state, n).state;
    assert undone.searches[n] == Undone(h');
    if |h| < cmd.max {
      assert Undone(h') == h;
      assert undone.searches == s.searches;
    } else {
      assert |h'| == cmd.max;
      if |h'| == 1 && |h| == 1 {
        assert h'[0].log != h[0].log;
      }
    }
  }

  /** `n` accepted searches in one search with the same limit, then `n` undos. */
  ghost predicate SearchedThenUndone(states: seq<ShellState>, cmds: seq<Command>, n: nat, name: Option<string>,
          max: nat)
  {
    && |states| == 2 * n + 1 && |cmds| == n
    && (forall i :: 0 <= i < n ==>
          && cmds[i].SearchFor? && cmds[i].name == name && cmds[i].max == max
          && Next(states[i], cmds[i], Outcome(states[i + 1], None)))
    && (forall i :: n <= i < 2 * n ==> states[i + 1] == AfterUndo(states[i], Named(states[i], name)).state)
  }

  lemma {:induction false} SearchesPush(states: seq<ShellState>, cmds: seq<Command>, n: nat, name: Option<string>,
          max: nat, i: nat)
    returns (xs: seq<Iteration>)
    requires SearchedThenUndone(states, cmds, n, name, max) && i <= n
    requires Named(states[0], name) in states[0].searches
    ensures states[i].current == states[0].current && Named(states[0], name) in states[i].searches
    ensures |xs| == i
    ensures states[i].searches[Named(states[0], name)] == SearchAll(states[0].searches[Named(states[0], name)], xs, max)
  {
    xs := [];
    if i > 0 {
      var key := Named(states[0], name);
      var before := SearchesPush(states, cmds, n, name, max, i - 1);
      var o := Outcome(states[i], None);
      var it :| Pushes(states[i - 1], key, cmds[i - 1], o, it);
      xs := before + [it];
      assert xs[..i - 1] == before;
    }
  }

  lemma {:induction false} UndosTake(states: seq<ShellState>, cmds: seq<Command>, n: nat, name: Option<string>,
          max: nat, i: nat)
    requires SearchedThenUndone(states, cmds, n, name, max) && i <= n
    requires Named(states[n], name) in states[n].searches
    ensures states[n + i].current == states[n].current && Named(states[n], name) in states[n + i].searches
    ensures states[n + i].searches[Named(states[n], name)] == UndoAll(states[n].searches[Named(states[n], name)], i)
  {
    if i > 0 {
      UndosTake(states, cmds, n, name, max, i - 1);
    }
  }

  /** Main result on undoing, in the shell: searches followed by as many undos leave the newest original
      iterations that the limit had not pushed out. */
  lemma UndosAfterSearches(states: seq<ShellState>, cmds: seq<Command>, n: nat,
          name: Option<string>, max: nat)
    requires SearchedThenUndone(states, cmds, n, name, max) && n < max
    requires Named(states[0], name) in states[0].searches
    requires 1 <= |states[0].searches[Named(states[0], name)]| <= max
    ensures var key := Named(states[0], name);
            && key in states[2 * n].searches
            && states[2 * n].searches[key] == Newest(states[0].searches[key], max - n)
  {
    var xs := SearchesPush(states, cmds, n, name, max, n);
    UndosTake(states, cmds, n, name, max, n);
    SearchesThenUndos(states[0].searches[Named(states[0], name)], xs, max);
  }

  // ---------- what a command leaves alone ----------

  /** The searches whose histories a command may change. */
  function Concerns(s: ShellState, cmd: Command): set<string> {
    match cmd
    case Open(_, _, name) => {name, ""}
    case SwitchTo(_) => {""}
    case Close(name) => {Named(s, name)}
    case SearchFor(name, _, _, _, _, _, _) => {Named(s, name)}
    case Undo(name) => {Named(s, name)}
    case Truncate(name, _) => {Named(s, name)}
    case Fork(target) => {target}
    case ForkNamed(_, target) => {target}
    case DeleteRanges(_) => {s.current}
  }

  /** A fork shares nothing that changes: no command touches the history of a search it does not concern. */
  lemma OthersUntouched(s: ShellState, cmd: Command, o: Outcome, n: string)
    requires Next(s, cmd, o) && n !in Concerns(s, cmd)
    ensures n in o.state.searches <==> n in s.searches
    ensures n in s.searches ==> o.state.searches[n] == s.searches[n]
  {
    if cmd.SearchFor? && o.error.None? {
      var it :| Pushes(s, Named(s, cmd.name), cmd, o, it);
    }
  }

  /** A command that fails changes nothing, except that forking a named search that is missing, or is
      the target itself, has by then erased the target: it fails without loss exactly if the target was
      not open. */
  lemma FailureLosesIff(s: ShellState, cmd: Command, o: Outcome)
    requires Next(s, cmd, o) && o.error.Some?
    ensures o.state == s <==> !(cmd.ForkNamed? && cmd.target in s.searches)
    ensures cmd.ForkNamed? ==>
      (cmd.source !in s.searches || cmd.source == cmd.target) && o.state.searches == s.searches - {cmd.target}
  {
    if cmd.ForkNamed? && cmd.target !in s.searches {
      assert s.searches - {cmd.target} == s.searches;
    }
  }
}
