/** The shell's search commands as they run: each changes the open searches in place. */
module Shell {
  import opened Memory
  import opened SearchSpec
  import opened Searching
  import opened Adapter
  import opened History
  import opened ShellRuns
  import opened ShellMeaning

  /** What searching again needs of an iteration; `ShellRunValid` shows that every reachable one has it. */
  ghost predicate Ready(it: Iteration) {
    ValidConfig(it.config) && Inv(it.config, it.state)
  }

  ghost predicate LatestReady(searches: Searches, name: string) {
    name in searches && searches[name] != [] ==> Ready(searches[name][|searches[name]| - 1])
  }

  /** The search will be accepted. */
  ghost predicate Proceeds(searches: Searches, name: string, p: Predicate, data: seq<byte>) {
    && name in searches && searches[name] != []
    && Accepts(searches[name][|searches[name]| - 1], p, data)
  }

  ghost predicate Accepts(it: Iteration, p: Predicate, data: seq<byte>) {
    Refusal(it.config, it.state.memory.Some?, p, data).None?
  }

  /** The value to search for does not run past the end of a region that will be read. Fixed-size values
      never do (`FixedSizeReadsFit`). */
  ghost predicate Fits(it: Iteration, os: seq<Region>, beyond: nat, data: seq<byte>) {
    ReadsFit(it.config, it.state, ReadFor(it, os, beyond), data)
  }

  /** The ranges are addresses, and none reaches the last one while a result lies below its start. */
  ghost predicate RangesDefined(results: seq<nat>, ranges: seq<(nat, nat)>) {
    forall r :: r in ranges ==>
      && r.0 < WORD && r.1 < WORD
      && (r.1 == WORD - 1 ==> forall a :: a in results ==> r.0 <= a)
  }

  datatype SearchResult = Failed(reason: SearchError) | Found(it: Iteration)

  /** Searches again from a copy of an iteration. */
  method SearchFrom(last: Iteration, p: Predicate, data: seq<byte>, os: seq<Region>, beyond: nat,
          maxResults: nat) returns (r: SearchResult)
    requires Ready(last) && ValidMap(os) && (Accepts(last, p, data) ==> Fits(last, os, beyond, data))
    ensures match Refusal(last.config, last.state.memory.Some?, p, data)
            case Some(e) => r == Failed(e)
            case None =>
              && r.Found? && SearchFollows(last, p, data, os, beyond, maxResults, r.it)
              && Finds(last, p, data, os, maxResults, r.it)
  {
    var search := new MemorySearch.Copy(last.config, last.allMemory, last.state);
    var refusal := search.CheckCanUpdate(p, data);
    if refusal.Some? {
      return Failed(refusal.value);
    }
    var regions;
    if search.resultsValid {
      regions := GetTargetRegions(os, search.results, beyond);
      TargetRegionsSuffice(os, search.results, beyond);
    } else {
      regions := GetAllRegions(os, true);
      assert regions == os;
    }
    refusal := search.Update(regions, p, data, maxResults);
    var state := SearchState(search.memory, search.resultsValid, search.prevSize, search.results);
    r := Found(last.(state := state, log := last.log + [Search(os, p, data, maxResults)]));
    FollowsFinds(last, p, data, os, beyond, maxResults, r.it);
  }

  /** Deletes the ranges one after the other from the results of an iteration. */
  method DeleteFrom(last: Iteration, ranges: seq<(nat, nat)>) returns (it: Iteration)
    requires Ready(last) && RangesDefined(last.state.results, ranges)
    requires forall r :: r in ranges ==> r.0 <= r.1
    ensures DeletesFollow(last, ranges, it) && Removes(last, ranges, it)
  {
    it := last;
    for i := 0 to |ranges|
      invariant Ready(it) && it.config == last.config && DeletesFollow(last, ranges[..i], it)
      invariant forall a :: a in it.state.results ==> a in last.state.results
    {
      var r := ranges[i];
      var search := new MemorySearch.Copy(it.config, it.allMemory, it.state);
      assert r in ranges;
      search.DeleteResults(r.0, r.1);
      var state := SearchState(search.memory, search.resultsValid, search.prevSize, search.results);
      ghost var before := it;
      it := it.(state := state, log := it.log + [Delete(r.0, r.1)]);
      DeletesOne(last, ranges, i, before, it);
    }
    assert ranges[..|ranges|] == ranges;
    DeletesRemove(last, ranges, it);
  }

  class MemwatchShell {
    var searches: Searches
    var current: string
    var maxResults: nat
    var maxIterations: nat

    ghost function State(): ShellState
      reads this
    {
      ShellState(searches, current)
    }

    constructor (maxResults: nat, maxIterations: nat)
      ensures State() == CLOSED && this.maxResults == maxResults && this.maxIterations == maxIterations
    {
      searches, current := map[], "";
      this.maxResults, this.maxIterations := maxResults, maxIterations;
    }

    function NameOr(name: Option<string>): string
      reads this
    {
      if name.Some? then name.value else current
    }

    method OpenSearch(config: TypeConfig, allMemory: bool, name: string)
      modifies this`searches, this`current
      ensures Next(old(State()), Open(config, allMemory, name), Outcome(State(), None))
      ensures current == name && name in searches && |searches[name]| == 1 && searches[name][0].state == FRESH
      ensures SameExcept(old(searches), searches, {name, ""}) && (name != "" ==> "" !in searches)
    {
      ghost var after := Opened(State(), config, allMemory, name);
      OpenedMeans(State(), config, allMemory, name);
      searches := searches - {name};
      searches := searches[name := [Initial(config, allMemory)]];
      current := name;
      if current != "" {
        searches := searches - {""};
      }
      assert State() == after;
    }

    method SwitchSearch(name: string) returns (error: Option<ShellError>)
      modifies this`searches, this`current
      ensures Next(old(State()), SwitchTo(name), Outcome(State(), error))
      ensures error.None? <==> name in old(searches)
      ensures if error.None? then current == name &&
              SameExcept(old(searches), searches, if name == "" then {} else {""})
              else State() == old(State())
    {
      if name !in searches {
        return Some(NoSuchSearch);
      }
      current := name;
      if current != "" {
        searches := searches - {""};
      }
      return None;
    }

    method CloseSearch(name: Option<string>) returns (error: Option<ShellError>)
      modifies this`searches, this`current
      ensures Next(old(State()), Close(name), Outcome(State(), error))
      ensures var n := old(NameOr(name));
              && (error.None? <==> n in old(searches))
              && n !in searches && SameExcept(old(searches), searches, {n})
              && current == if error.None? && old(current) == n then "" else old(current)
    {
      var n := NameOr(name);
      if n !in searches {
        return Some(NoSuchSearch);
      }
      searches := searches - {n};
      if current == n {
        current := "";
      }
      return None;
    }

    /** Searches again: pushes a new iteration and drops the oldest ones beyond the limit. */
    method CommandSearch(name: Option<string>, p: Predicate, data: seq<byte>, os: seq<Region>, beyond: nat)
      returns (error: Option<ShellError>)
      requires ValidMap(os) && LatestReady(searches, NameOr(name))
      requires Proceeds(searches, NameOr(name), p, data) ==>
        var h := searches[NameOr(name)];
        Fits(h[|h| - 1], os, beyond, data) && LimitDefined(|h| + 1, maxIterations)
      modifies this`searches
      ensures Next(old(State()), SearchFor(name, p, data, os, beyond, maxResults, maxIterations),
                   Outcome(State(), error))
      ensures var n := NameOr(name);
              && (error == Some(NoSuchSearch) <==> n !in old(searches))
              && (error == Some(NoIterations) <==> n in old(searches) && old(searches)[n] == [])
              && (error.None? <==> Proceeds(old(searches), n, p, data))
              && (error.None? ==>
                    && n in searches
                    && Adds(old(searches)[n], p, data, os, maxResults, maxIterations, searches[n]))
              && SameExcept(old(searches), searches, if error.None? then {n} else {})
    {
      var n := NameOr(name);
      if n !in searches {
        return Some(NoSuchSearch);
      }
      var h := searches[n];
      if h == [] {
        return Some(NoIterations);
      }
      ghost var cmd := SearchFor(name, p, data, os, beyond, maxResults, maxIterations);
      assert Accepts(h[|h| - 1], p, data) ==> Accepted(State(), cmd) && LimitDefined(|h| + 1, maxIterations);
      var r := SearchFrom(h[|h| - 1], p, data, os, beyond, maxResults);
      if r.Failed? {
        return Some(Refused(r.reason));
      }
      AddFound(n, r.it, cmd);
      return None;
    }

    /** Adds the iteration that a search found. */
    method AddFound(name: string, it: Iteration, ghost cmd: Command)
      requires Accepted(State(), cmd) && name == Named(State(), cmd.name) && cmd.max == maxIterations
      requires LimitDefined(|searches[name]| + 1, maxIterations)
      requires var last := searches[name][|searches[name]| - 1];
               && Ready(last) && ValidMap(cmd.os)
               && SearchFollows(last, cmd.pred, cmd.data, cmd.os, cmd.beyond, cmd.cap, it)
      modifies this`searches
      ensures Next(old(State()), cmd, Outcome(State(), None))
      ensures name in searches && SameExcept(old(searches), searches, {name})
      ensures Adds(old(searches)[name], cmd.pred, cmd.data, cmd.os, cmd.cap, maxIterations, searches[name])
    {
      ghost var before := State();
      ghost var after := Replaced(before, name, Newest(searches[name] + [it], maxIterations));
      PushMeans(before, cmd, name, it, after);
      PushIteration(name, it);
      assert State() == after;
    }

    /** Adds an iteration and drops the oldest ones beyond the limit. */
    method PushIteration(name: string, it: Iteration)
      requires name in searches && LimitDefined(|searches[name]| + 1, maxIterations)
      modifies this`searches
      ensures searches == old(searches)[name := Newest(old(searches)[name] + [it], maxIterations)]
    {
      var h := searches[name] + [it];
      var tooMany := NumToDelete(|h|, maxIterations);
      NumToDeleteIff(|h|, maxIterations);
      if tooMany > 0 {
        h := h[tooMany..];
      }
      searches := searches[name := h];
    }

    method CommandUndo(name: Option<string>) returns (error: Option<ShellError>)
      modifies this`searches
      ensures Next(old(State()), Undo(name), Outcome(State(), error))
      ensures var n := NameOr(name);
              && (error.None? <==> n in old(searches) && |old(searches)[n]| > 1)
              && (error.None? ==> n in searches && searches[n] != [] && searches[n] < old(searches)[n]
                                  && |searches[n]| + 1 == |old(searches)[n]|)
              && SameExcept(old(searches), searches, if error.None? then {n} else {})
    {
      var n := NameOr(name);
      if n !in searches {
        return Some(NoSuchSearch);
      }
      var h := searches[n];
      if |h| <= 1 {
        return Some(InitialSearch);
      }
      searches := searches[n := h[..|h| - 1]];
      return None;
    }

    method CommandTruncate(name: Option<string>, count: int) returns (error: Option<ShellError>)
      requires NameOr(name) in searches && 0 < count ==> LimitDefined(|searches[NameOr(name)]|, count)
      modifies this`searches
      ensures Next(old(State()), Truncate(name, count), Outcome(State(), error))
      ensures var n := NameOr(name);
              && (error == Some(NoSuchSearch) <==> n !in old(searches))
              && (error == Some(NotPositive) <==> n in old(searches) && count <= 0)
              && (error.None? <==> n in old(searches) && 0 < count)
              && (error.None? ==>
                    && n in searches
                    && var h, h' := old(searches)[n], searches[n];
                       |h'| == (if |h| <= count then |h| else count) && h' == h[|h| - |h'|..])
              && SameExcept(old(searches), searches, if error.None? then {n} else {})
    {
      var n := NameOr(name);
      if n !in searches {
        return Some(NoSuchSearch);
      }
      if count <= 0 {
        return Some(NotPositive);
      }
      var h := searches[n];
      var tooMany := NumToDelete(|h|, count);
      NumToDeleteIff(|h|, count);
      if tooMany > 0 {
        h := h[tooMany..];
      }
      searches := searches[n := h];
      return None;
    }

    method CommandFork(target: string) returns (error: Option<ShellError>)
      modifies this`searches, this`current
      ensures Next(old(State()), Fork(target), Outcome(State(), error))
      ensures error.None? <==> target != old(current) && old(current) in old(searches)
      ensures error.None? ==> current == target && target in searches && searches[target] == old(searches)[old(current)]
      ensures error.Some? ==> current == old(current)
      ensures SameExcept(old(searches), searches, if error.None? then {target} else {})
    {
      if target == current {
        return Some(IntoItself);
      }
      if current !in searches {
        return Some(NoSuchSearch);
      }
      var h := searches[current];
      searches := searches - {target};
      searches := searches[target := h];
      current := target;
      assert searches == old(searches)[target := h];
      return None;
    }

    method CommandForkNamed(source: string, target: string) returns (error: Option<ShellError>)
      modifies this`searches
      ensures Next(old(State()), ForkNamed(source, target), Outcome(State(), error))
      ensures error.None? <==> source in old(searches) && source != target
      ensures if error.None? then target in searches && searches[target] == old(searches)[source]
              else target !in searches
      ensures SameExcept(old(searches), searches, {target})
    {
      searches := searches - {target};
      if source !in searches {
        return Some(NoSuchSearch);
      }
      searches := searches[target := searches[source]];
      return None;
    }

    method CommandDelete(ranges: seq<(nat, nat)>) returns (error: Option<ShellError>)
      requires LatestReady(searches, current)
      requires current in searches && searches[current] != [] ==>
        RangesDefined(searches[current][|searches[current]| - 1].state.results, ranges)
      modifies this`searches
      ensures Next(old(State()), DeleteRanges(ranges), Outcome(State(), error))
      ensures error.None? <==>
        current in old(searches) && old(searches)[current] != [] && forall r :: r in ranges ==> r.0 <= r.1
      ensures error.None? ==>
        && current in searches
        && var h, h' := old(searches)[current], searches[current];
           |h'| == |h| && h'[..|h| - 1] == h[..|h| - 1] && Removes(Last(h), ranges, Last(h'))
      ensures SameExcept(old(searches), searches, if error.None? then {current} else {})
    {
      if current !in searches {
        return Some(NoSuchSearch);
      }
      var h := searches[current];
      if h == [] {
        return Some(NoIterations);
      }
      for i := 0 to |ranges|
        invariant forall j :: 0 <= j < i ==> ranges[j].0 <= ranges[j].1
      {
        if ranges[i].0 > ranges[i].1 {
          assert ranges[i] in ranges;
          return Some(DecreasingRange);
        }
      }
      var it := DeleteFrom(h[|h| - 1], ranges);
      searches := searches[current := h[|h| - 1 := it]];
      assert Deletes(old(State()), ranges, Outcome(State(), None), it);
      return None;
    }
  }
}
