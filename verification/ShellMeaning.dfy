/** What the shell's commands do to the iterations of a search, written out in terms of the command. */
module ShellMeaning {
  import opened Memory
  import opened SearchSpec
  import opened SearchMeaning
  import opened Adapter
  import opened Sessions
  import opened History
  import opened ShellRuns

  function Last<T>(h: seq<T>): T
    requires h != []
  {
    h[|h| - 1]
  }

  /** The search that a command without a name concerns is the current one. */
  function Subject(s: ShellState, cmd: Command): string {
    if cmd.SearchFor? && cmd.name.Some? then cmd.name.value else s.current
  }

  // ---------- searching ----------

  /** A search command succeeds exactly if the search is open, has an iteration, supports the predicate and is
      given a value of its size, or something to compare with; if not, nothing changes. */
  lemma SearchSucceedsIff(s: ShellState, cmd: Command, o: Outcome)
    requires cmd.SearchFor? && Next(s, cmd, o)
    ensures o.error.None? <==> Accepted(s, cmd)
    ensures o.error.Some? ==> o.state == s
    ensures var n := Subject(s, cmd);
            Accepted(s, cmd) <==>
              && n in s.searches && s.searches[n] != []
              && var last := Last(s.searches[n]);
                 && cmd.pred in last.config.evaluators
                 && (last.config.isData || cmd.data == [] || |cmd.data| == last.config.fieldSize)
                 && (last.state.memory.Some? || cmd.data != [] || (cmd.pred == All && !last.config.isData))
  {
    var n := Subject(s, cmd);
    if n in s.searches && s.searches[n] != [] {
      var last := Last(s.searches[n]);
      AcceptedMeaning(last.config, last.state.memory.Some?, cmd.pred, cmd.data);
    }
  }

  /** Iteration `it` follows from `last` by one search of all the target's memory `os` with this predicate, value
      and limit, in each of the three phases, and its log says so. */
  ghost predicate Finds(last: Iteration, p: Predicate, data: seq<byte>, os: seq<Region>, cap: nat, it: Iteration) {
    && it.config == last.config && it.allMemory == last.allMemory
    && it.log == last.log + [Search(os, p, data, cap)]
    && if last.state.memory.None? && p == All then it.state == last.state.(memory := Some(os))
       else it.state.valid && it.state.prevSize == |data| && FindsResults(last, p, data, os, cap, it.state)
  }

  /** A first search finds the first `cap` matches in address order, the search after an initial search for
      anything all aligned matches, and a later search those among the results before, but not 0. */
  ghost predicate FindsResults(last: Iteration, p: Predicate, data: seq<byte>, os: seq<Region>, cap: nat,
          s: SearchState)
  {
    && (forall i, j :: 0 <= i < j < |s.results| ==> s.results[i] < s.results[j])
    && if last.state.memory.None? then
         && s.memory == Some(os) && |s.results| <= cap
         && (forall a :: a in s.results ==> FoundFirst(last.config, p, os, data, a))
         && (forall a: nat :: FoundFirst(last.config, p, os, data, a) && a !in s.results ==>
               |s.results| == cap && forall b :: b in s.results ==> b < a)
       else
         var w := Compared(last.config, data, last.state.prevSize);
         && (!last.state.valid ==> s.memory == Some(os))
         && forall a: nat :: a in s.results <==>
              && (if last.state.valid then a in last.state.results && a != 0 else Aligned(a, last.config.fieldSize))
              && FoundAgain(last.config, p, os, last.state.memory.value, data, w, a)
  }

  /** History `h'` is `h` with one more iteration, found by this search, without the oldest ones beyond `max`. */
  ghost predicate Adds(h: seq<Iteration>, p: Predicate, data: seq<byte>, os: seq<Region>, cap: nat, max: nat,
          h': seq<Iteration>)
    requires h != []
  {
    exists it ::
      && Finds(Last(h), p, data, os, cap, it)
      && var all := h + [it];
         h' == all[if |all| <= max then 0 else |all| - max..]
  }

  lemma AddsOne(h: seq<Iteration>, p: Predicate, data: seq<byte>, os: seq<Region>, cap: nat, max: nat,
          it: Iteration)
    requires h != [] && Finds(h[|h| - 1], p, data, os, cap, it)
    ensures Adds(h, p, data, os, cap, max, Newest(h + [it], max))
  {
    assert Finds(Last(h), p, data, os, cap, it);
  }

  /** Main result on the search command. It searches with the predicate, value and limit that it was given, and
      what it finds becomes the newest iteration. */
  lemma SearchCommandMeaning(s: ShellState, cmd: Command, o: Outcome, n: string)
    requires ShellValid(s) && ValidCommand(cmd) && Next(s, cmd, o) && Accepted(s, cmd) && n == Subject(s, cmd)
    ensures o.error.None? && o.state.current == s.current && n in o.state.searches
    ensures Adds(s.searches[n], cmd.pred, cmd.data, cmd.os, cmd.cap, cmd.max, o.state.searches[n])
    ensures cmd.max > 0 ==>
      && o.state.searches[n] != []
      && Finds(Last(s.searches[n]), cmd.pred, cmd.data, cmd.os, cmd.cap, Last(o.state.searches[n]))
  {
    var it :| Pushes(s, n, cmd, o, it);
    assert IterationValid(s.searches[n][|s.searches[n]| - 1]);
    PushMeans(s, cmd, n, it, o.state);
    if cmd.max > 0 {
      NewestFinds(s.searches[n], cmd, it, o.state.searches[n]);
    }
  }

  lemma NewestFinds(h: seq<Iteration>, cmd: Command, it: Iteration, h': seq<Iteration>)
    requires cmd.SearchFor? && h != [] && ValidMap(cmd.os) && cmd.max > 0 && h' == Newest(h + [it], cmd.max)
    requires var last := h[|h| - 1];
             && ValidConfig(last.config) && Inv(last.config, last.state)
             && Refusal(last.config, last.state.memory.Some?, cmd.pred, cmd.data).None?
             && SearchFollows(last, cmd.pred, cmd.data, cmd.os, cmd.beyond, cmd.cap, it)
    ensures h' != [] && Finds(Last(h), cmd.pred, cmd.data, cmd.os, cmd.cap, Last(h'))
  {
    FollowsFinds(Last(h), cmd.pred, cmd.data, cmd.os, cmd.beyond, cmd.cap, it);
    assert Last(h') == it;
  }

  lemma PushMeans(s: ShellState, cmd: Command, n: string, it: Iteration, s': ShellState)
    requires Accepted(s, cmd) && n == Named(s, cmd.name)
    requires var h := s.searches[n];
             && ValidConfig(h[|h| - 1].config) && Inv(h[|h| - 1].config, h[|h| - 1].state) && ValidMap(cmd.os)
             && SearchFollows(h[|h| - 1], cmd.pred, cmd.data, cmd.os, cmd.beyond, cmd.cap, it)
             && s' == Replaced(s, n, Newest(h + [it], cmd.max))
    ensures Next(s, cmd, Outcome(s', None))
    ensures n in s'.searches && SameExcept(s.searches, s'.searches, {n})
    ensures Adds(s.searches[n], cmd.pred, cmd.data, cmd.os, cmd.cap, cmd.max, s'.searches[n])
  {
    PushIsNext(s, cmd, Outcome(s', None), it);
    FollowsFinds(s.searches[n][|s.searches[n]| - 1], cmd.pred, cmd.data, cmd.os, cmd.beyond, cmd.cap, it);
    AddsOne(s.searches[n], cmd.pred, cmd.data, cmd.os, cmd.cap, cmd.max, it);
  }

  lemma FollowsFinds(last: Iteration, p: Predicate, data: seq<byte>, os: seq<Region>, beyond: nat, cap: nat,
          it: Iteration)
    requires ValidConfig(last.config) && Inv(last.config, last.state)
    requires ValidMap(os) && SearchFollows(last, p, data, os, beyond, cap, it)
    requires Refusal(last.config, last.state.memory.Some?, p, data).None?
    ensures Finds(last, p, data, os, cap, it)
  {
    var c, s, part := last.config, last.state, ReadFor(last, os, beyond);
    StepMeaning(c, s, part, p, data, cap, it.state);
    if s.valid {
      TargetRegionsSuffice(os, s.results, beyond);
      forall a: nat | a in s.results
        ensures FoundAgain(c, p, part, s.memory.value, data, Compared(c, data, s.prevSize), a)
           <==> FoundAgain(c, p, os, s.memory.value, data, Compared(c, data, s.prevSize), a)
      {
        PartAgain(c, p, part, os, s.memory.value, data, Compared(c, data, s.prevSize), s.results, a);
      }
    }
  }

  lemma PartAgain(c: TypeConfig, p: Predicate, part: seq<Region>, os: seq<Region>, prev: seq<Region>, data: seq<byte>,
          w: nat, targets: seq<nat>, a: nat)
    requires Narrowed(part, os, targets) && a in targets
    ensures FoundAgain(c, p, part, prev, data, w, a) <==> FoundAgain(c, p, os, prev, data, w, a)
  {
    forall r | r in os && r.addr <= a < r.addr + r.size
      ensures r in part
    {
      assert r.Contains(a) && Touches(r, targets);
    }
  }

  // ---------- deleting ----------

  /** The commands that a delete command logs. */
  function Deletions(ranges: seq<(nat, nat)>): seq<Op> {
    seq(|ranges|, i requires 0 <= i < |ranges| => Delete(ranges[i].0, ranges[i].1))
  }

  /** Iteration `it` is `last` without the results in the ranges, except that a range ending at the last address
      removes nothing; its log says so. */
  ghost predicate Removes(last: Iteration, ranges: seq<(nat, nat)>, it: Iteration) {
    && it.config == last.config && it.allMemory == last.allMemory && it.log == last.log + Deletions(ranges)
    && it.state == last.state.(results := it.state.results)
    && (forall i, j :: 0 <= i < j < |it.state.results| ==> it.state.results[i] < it.state.results[j])
    && forall a: nat :: a in it.state.results <==>
         a in last.state.results
           && forall r :: r in ranges ==> r.1 == 0xFFFF_FFFF_FFFF_FFFF || a < r.0 || r.1 < a
  }

  lemma DeletesOne(it: Iteration, ranges: seq<(nat, nat)>, i: nat, mid: Iteration, it': Iteration)
    requires i < |ranges| && DeletesFollow(it, ranges[..i], mid)
    requires Follows(mid, Delete(ranges[i].0, ranges[i].1), Delete(ranges[i].0, ranges[i].1), it')
    ensures DeletesFollow(it, ranges[..i + 1], it')
  {
    assert ranges[..i + 1][..i] == ranges[..i];
  }

  lemma {:induction false} DeletesRemove(it: Iteration, ranges: seq<(nat, nat)>, it': Iteration)
    requires Ascending(it.state.results) && DeletesFollow(it, ranges, it')
    ensures Removes(it, ranges, it')
  {
    if ranges != [] {
      var n := |ranges| - 1;
      var r := ranges[n];
      var mid :| DeletesFollow(it, ranges[..n], mid) && Follows(mid, Delete(r.0, r.1), Delete(r.0, r.1), it');
      DeletesRemove(it, ranges[..n], mid);
      DeleteMeaning(it.config, mid.state, r.0, r.1, it'.state);
      assert ranges == ranges[..n] + [r];
      assert Deletions(ranges) == Deletions(ranges[..n]) + [Delete(r.0, r.1)];
      assert it.log + Deletions(ranges) == mid.log + [Delete(r.0, r.1)];
    } else {
      assert it.log + Deletions(ranges) == it.log;
    }
  }

  /** Main result on the delete command. It needs a current search with an iteration and no decreasing range;
      then it removes the ranges from the newest iteration. Nothing else changes. */
  lemma DeleteCommandMeaning(s: ShellState, ranges: seq<(nat, nat)>, o: Outcome)
    requires ShellValid(s) && Next(s, DeleteRanges(ranges), o)
    ensures o.error.None? <==>
      s.current in s.searches && s.searches[s.current] != [] && forall r :: r in ranges ==> r.0 <= r.1
    ensures o.error.Some? ==> o.state == s
    ensures o.error.None? ==>
      && o.state.current == s.current && s.current in o.state.searches
      && var h, h' := s.searches[s.current], o.state.searches[s.current];
         |h'| == |h| && h'[..|h| - 1] == h[..|h| - 1] && Removes(Last(h), ranges, Last(h'))
  {
    if o.error.None? {
      var h := s.searches[s.current];
      var it :| Deletes(s, ranges, o, it);
      assert IterationValid(Last(h));
      DeletesRemove(Last(h), ranges, it);
    }
  }

  // ---------- logs ----------

  /** What a command adds to a log. */
  function Logged(cmd: Command): seq<Op> {
    match cmd
    case SearchFor(_, p, data, os, _, cap, _) => [Search(os, p, data, cap)]
    case DeleteRanges(ranges) => Deletions(ranges)
    case _ => []
  }

  /** The command was carried out on a search whose newest log it extended to `log`. */
  ghost predicate Logs(s: ShellState, cmd: Command, log: seq<Op>) {
    && (cmd.SearchFor? || cmd.DeleteRanges?)
    && Subject(s, cmd) in s.searches && s.searches[Subject(s, cmd)] != []
    && (if cmd.SearchFor? then Accepted(s, cmd) else forall r :: r in cmd.ranges ==> r.0 <= r.1)
    && log == Last(s.searches[Subject(s, cmd)]).log + Logged(cmd)
  }

  /** Some open search has an iteration with this log. */
  ghost predicate HasLog(s: ShellState, log: seq<Op>) {
    exists n, it :: n in s.searches && it in s.searches[n] && it.log == log
  }

  lemma KeptLog(s: ShellState, n: string, it: Iteration)
    requires n in s.searches && it in s.searches[n]
    ensures HasLog(s, it.log)
  {
  }

  lemma SearchLog(s: ShellState, cmd: Command, o: Outcome, n: string, it: Iteration)
    requires cmd.SearchFor? && Next(s, cmd, o) && n in o.state.searches && it in o.state.searches[n]
    ensures HasLog(s, it.log) || Logs(s, cmd, it.log)
  {
    SearchSucceedsIff(s, cmd, o);
    if n in s.searches && it in s.searches[n] {
      KeptLog(s, n, it);
    } else {
      var next :| Pushes(s, Subject(s, cmd), cmd, o, next);
      assert it == next;
      AddedLog(s, cmd, o, it);
    }
  }

  lemma AddedLog(s: ShellState, cmd: Command, o: Outcome, it: Iteration)
    requires Accepted(s, cmd) && Pushes(s, Subject(s, cmd), cmd, o, it)
    ensures Logs(s, cmd, it.log)
  {
  }

  lemma DeleteLog(s: ShellState, ranges: seq<(nat, nat)>, o: Outcome, n: string, it: Iteration)
    requires ShellValid(s) && Next(s, DeleteRanges(ranges), o) && n in o.state.searches && it in o.state.searches[n]
    ensures HasLog(s, it.log) || Logs(s, DeleteRanges(ranges), it.log)
  {
    DeleteCommandMeaning(s, ranges, o);
    if o.error.None? && n == s.current {
      var h, h' := s.searches[n], o.state.searches[n];
      assert h' == h'[..|h'| - 1] + [Last(h')];
      if it in h'[..|h'| - 1] {
        KeptLog(s, n, it);
      }
    } else {
      KeptLog(s, n, it);
    }
  }

  lemma OtherLog(s: ShellState, cmd: Command, o: Outcome, n: string, it: Iteration)
    requires !cmd.SearchFor? && !cmd.DeleteRanges?
    requires Next(s, cmd, o) && n in o.state.searches && it in o.state.searches[n]
    ensures HasLog(s, it.log) || it.log == []
  {
    if n in s.searches && it in s.searches[n] {
      KeptLog(s, n, it);
    } else if cmd.Fork? {
      KeptLog(s, s.current, it);
    } else if cmd.ForkNamed? {
      KeptLog(s, cmd.source, it);
    }
  }

  /** The logs after a command: those that were there before, the empty log of a search just opened, and the
      one that the command extends. */
  lemma LogStep(s: ShellState, cmd: Command, o: Outcome, log: seq<Op>)
    requires ShellValid(s) && Next(s, cmd, o) && HasLog(o.state, log)
    ensures HasLog(s, log) || log == [] || Logs(s, cmd, log)
  {
    var n, it :| n in o.state.searches && it in o.state.searches[n] && it.log == log;
    match cmd
    case SearchFor(_, _, _, _, _, _, _) => SearchLog(s, cmd, o, n, it);
    case DeleteRanges(ranges) => DeleteLog(s, ranges, o, n, it);
    case _ => OtherLog(s, cmd, o, n, it);
  }

  function LoggedAll(cmds: seq<Command>): seq<Op> {
    if cmds == [] then [] else LoggedAll(cmds[..|cmds| - 1]) + Logged(cmds[|cmds| - 1])
  }

  /** `issued` are commands from among the first `i`, those with the ascending numbers `at`. */
  ghost predicate Picks(cmds: seq<Command>, i: nat, at: seq<nat>, issued: seq<Command>) {
    && |at| == |issued| && Ascending(at)
    && forall k :: 0 <= k < |at| ==> at[k] < i && at[k] < |cmds| && issued[k] == cmds[at[k]]
  }

  lemma PicksNext(cmds: seq<Command>, i: nat, at: seq<nat>, issued: seq<Command>)
    requires 0 < i <= |cmds| && Picks(cmds, i - 1, at, issued)
    ensures Picks(cmds, i, at + [i - 1], issued + [cmds[i - 1]])
  {
  }

  /** Main result on logs. After any run of commands, each log is the sequence of some search and delete
      commands of the run, those with the numbers `at`, in the order in which they were given. */
  lemma LogIsCommands(cmds: seq<Command>, states: seq<ShellState>, i: nat, log: seq<Op>)
    returns (issued: seq<Command>, at: seq<nat>)
    requires ShellRun(cmds, states) && i <= |cmds| && HasLog(states[i], log)
    ensures Picks(cmds, i, at, issued)
    ensures log == LoggedAll(issued)
  {
    LogsCome(cmds, states);
    issued, at := LogPicked(cmds, states, i, log);
  }

  /** In any run, each log that is not empty was made by some command that extended the newest log of the search
      it was given to. */
  lemma LogOrigin(cmds: seq<Command>, states: seq<ShellState>, i: nat, log: seq<Op>)
    requires ShellRun(cmds, states) && i <= |cmds| && HasLog(states[i], log)
    ensures log == [] || exists j :: 0 <= j < i && Logs(states[j], cmds[j], log)
  {
    LogsCome(cmds, states);
    OriginBelow(cmds, states, i, log);
  }

  lemma {:induction false} OriginBelow(cmds: seq<Command>, states: seq<ShellState>, i: nat, log: seq<Op>)
    requires |states| == |cmds| + 1 && states[0] == CLOSED
    requires forall j, l :: 0 <= j < |cmds| && Appears(states, j + 1, l) ==> Comes(cmds, states, j, l)
    requires i <= |cmds| && Appears(states, i, log)
    ensures log == [] || exists j :: 0 <= j < i && Logs(states[j], cmds[j], log)
  {
    if i > 0 {
      assert Comes(cmds, states, i - 1, log);
      if Appears(states, i - 1, log) {
        OriginBelow(cmds, states, i - 1, log);
      }
    }
  }

  lemma LogsCome(cmds: seq<Command>, states: seq<ShellState>)
    requires ShellRun(cmds, states)
    ensures forall j, l :: 0 <= j < |cmds| && Appears(states, j + 1, l) ==> Comes(cmds, states, j, l)
  {
    forall j, l | 0 <= j < |cmds| && Appears(states, j + 1, l)
      ensures Comes(cmds, states, j, l)
    {
      LogInRun(cmds, states, j, l);
    }
  }

  ghost predicate Appears(states: seq<ShellState>, i: nat, log: seq<Op>)
    requires i < |states|
  {
    HasLog(states[i], log)
  }

  /** The log was there before command `i`, or is empty, or is extended by the command. */
  ghost predicate Comes(cmds: seq<Command>, states: seq<ShellState>, i: nat, log: seq<Op>)
    requires i < |cmds| && i < |states|
  {
    Appears(states, i, log) || log == [] || Logs(states[i], cmds[i], log)
  }

  lemma {:induction false} LogPicked(cmds: seq<Command>, states: seq<ShellState>, i: nat, log: seq<Op>)
    returns (issued: seq<Command>, at: seq<nat>)
    requires |states| == |cmds| + 1 && states[0] == CLOSED
    requires forall j, l :: 0 <= j < |cmds| && Appears(states, j + 1, l) ==> Comes(cmds, states, j, l)
    requires i <= |cmds| && Appears(states, i, log)
    ensures Picks(cmds, i, at, issued) && log == LoggedAll(issued)
  {
    issued, at := [], [];
    if i > 0 {
      assert Comes(cmds, states, i - 1, log);
      if Appears(states, i - 1, log) {
        issued, at := LogPicked(cmds, states, i - 1, log);
      } else if log != [] {
        var before := LogBefore(states[i - 1], cmds[i - 1], log);
        issued, at := LogPicked(cmds, states, i - 1, before);
        issued, at := LogExtended(cmds, i, issued, at);
      }
    }
  }

  /** One more command at the end. */
  lemma LogExtended(cmds: seq<Command>, i: nat, issued: seq<Command>, at: seq<nat>)
    returns (issued': seq<Command>, at': seq<nat>)
    requires 0 < i <= |cmds| && Picks(cmds, i - 1, at, issued)
    ensures Picks(cmds, i, at', issued') && at' != [] && at'[|at'| - 1] == i - 1
    ensures LoggedAll(issued') == LoggedAll(issued) + Logged(cmds[i - 1])
  {
    Appended(issued, cmds[i - 1]);
    PicksNext(cmds, i, at, issued);
    issued', at' := issued + [cmds[i - 1]], at + [i - 1];
  }

  lemma LogInRun(cmds: seq<Command>, states: seq<ShellState>, i: nat, log: seq<Op>)
    requires ShellRun(cmds, states) && i < |cmds| && HasLog(states[i + 1], log)
    ensures HasLog(states[i], log) || log == [] || Logs(states[i], cmds[i], log)
  {
    assert StepsTo(states[i], cmds[i], states[i + 1]);
    var o :| Next(states[i], cmds[i], o) && o.state == states[i + 1];
    ShellRunValid(cmds, states, i);
    LogStep(states[i], cmds[i], o, log);
  }

  lemma Appended(cmds: seq<Command>, cmd: Command)
    ensures LoggedAll(cmds + [cmd]) == LoggedAll(cmds) + Logged(cmd)
  {
    assert (cmds + [cmd])[..|cmds|] == cmds;
  }

  lemma LogBefore(s: ShellState, cmd: Command, log: seq<Op>) returns (before: seq<Op>)
    requires Logs(s, cmd, log)
    ensures HasLog(s, before) && log == before + Logged(cmd)
  {
    var last := Last(s.searches[Subject(s, cmd)]);
    KeptLog(s, Subject(s, cmd), last);
    before := last.log;
  }
}
