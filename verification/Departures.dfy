/** Inputs at which sessions and shell commands depart from what they promise: whole runs from the start. */
module Departures {
  import opened Memory
  import opened SearchSpec
  import opened Searching
  import opened Sessions
  import opened History
  import opened ShellRuns

  /** A string type, with equality and the predicate that always holds. */
  const STRING := TypeConfig(map[Equal := (x: seq<byte>, y: seq<byte>) => x == y,
                                 All := (x: seq<byte>, y: seq<byte>) => true], 1, true)

  lemma StringValid()
    ensures ValidConfig(STRING)
    ensures Equal in STRING.evaluators && All in STRING.evaluators
    ensures forall x: seq<byte>, y: seq<byte> :: STRING.evaluators[Equal](x, y) <==> x == y
  {
  }

  /** Eight bytes of memory at `addr`, the first of which is `b`. */
  function Cells(addr: nat, b: byte): Region {
    Region(addr, 8, 3, [b, 0, 0, 0, 0, 0, 0, 0])
  }

  lemma CellsLookup(addr: nat, b: byte, a: int)
    requires addr % 8 == 0 && addr + 8 < WORD
    ensures ValidMap([Cells(addr, b)])
    ensures Lookup([Cells(addr, b)], a) == if addr <= a < addr + 8 then Some(Cells(addr, b)) else None
  {
    var m := [Cells(addr, b)];
    LookupCases(m, a);
    if addr <= a < addr + 8 {
      assert IsReadableAt(m, a, 0);
      LookupAt(m, a, 0);
    }
  }

  lemma CellsByte(addr: nat, b: byte, a: nat)
    requires addr % 8 == 0 && addr + 8 < WORD && addr <= a < addr + 8
    ensures CellIn([Cells(addr, b)], a, 1) == if a == addr then [b] else [0]
    ensures CellIn([Cells(addr, b)], a, 0) == []
  {
    CellsLookup(addr, b, a);
    assert Cells(addr, b).data[a - addr..a - addr + 1] == [Cells(addr, b).data[a - addr]];
  }

  /** The state of a search of `Cells(addr, b)` with the single result `addr`. */
  function OneResult(addr: nat, b: byte, size: nat): SearchState {
    SearchState(Some([Cells(addr, b)]), true, size, [addr])
  }

  /** Searching for the byte 7 finds it at the first address. */
  lemma FindsSeven(addr: nat)
    requires addr % 8 == 0 && addr + 8 < WORD
    ensures Step(STRING, FRESH, Search([Cells(addr, 7)], Equal, [7], 100), OneResult(addr, 7, 1))
  {
    StringValid();
    var m, ev := [Cells(addr, 7)], STRING.evaluators[Equal];
    CellsLookup(addr, 7, addr);
    forall a: nat
      ensures FirstMatch(ev, 1, m, [7], a) <==> a == addr
    {
      CellsLookup(addr, 7, a);
      if addr <= a < addr + 8 {
        CellsByte(addr, 7, a);
      }
    }
    assert FirstResults(ev, 1, m, [7], 100, [addr]);
  }

  /** A later search finds an earlier result again, or drops it as address 0. */
  lemma SearchAgain(addr: nat, b: byte, size: nat, b': byte, data: seq<byte>)
    requires addr % 8 == 0 && addr + 8 < WORD && (data == [] || data == [b'])
    requires data == [] ==> size == 0 || (size == 1 && b == b')
    ensures Step(STRING, OneResult(addr, b, size), Search([Cells(addr, b')], Equal, data, 100),
                 SearchState(Some([Cells(addr, b')]), true, |data|, if addr == 0 then [] else [addr]))
    ensures LaterMatch(STRING.evaluators[Equal], [Cells(addr, b')], [Cells(addr, b)], data,
                       Width(STRING, data, size), addr)
  {
    StringValid();
    CellsLookup(addr, b, addr);
    CellsLookup(addr, b', addr);
    CellsByte(addr, b, addr);
    CellsByte(addr, b', addr);
  }

  lemma TwoSteps(c: TypeConfig, op1: Op, s1: SearchState, op2: Op, s2: SearchState)
    requires Step(c, FRESH, op1, s1) && Step(c, s1, op2, s2)
    ensures Run(c, [op1, op2], [FRESH, s1, s2])
  {
  }

  lemma ThreeSteps(c: TypeConfig, op1: Op, s1: SearchState, op2: Op, s2: SearchState, op3: Op,
          s3: SearchState)
    requires Step(c, FRESH, op1, s1) && Step(c, s1, op2, s2) && Step(c, s2, op3, s3)
    ensures Run(c, [op1, op2, op3], [FRESH, s1, s2, s3])
  {
  }

  // ---------- sessions ----------

  /** A match at address 0 is found by the first search and dropped by the second, although it still
      matches (`LaterScanExactIff`). */
  lemma AddressZeroExample()
    ensures var op := Search([Cells(0, 7)], Equal, [7], 100);
            var last := OneResult(0, 7, 1).(results := []);
            && Run(STRING, [op, op], [FRESH, OneResult(0, 7, 1), last])
            && LaterMatch(STRING.evaluators[Equal], [Cells(0, 7)], [Cells(0, 7)], [7], 1, 0)
  {
    var op := Search([Cells(0, 7)], Equal, [7], 100);
    FindsSeven(0);
    SearchAgain(0, 7, 1, 7, [7]);
    TwoSteps(STRING, op, OneResult(0, 7, 1), op, OneResult(0, 7, 1).(results := []));
  }

  /** Deleting all addresses deletes nothing (`DeletionExactIff`). */
  lemma DeleteAllExample()
    ensures var ops := [Search([Cells(8, 7)], Equal, [7], 100), Delete(0, WORD - 1)];
            Run(STRING, ops, [FRESH, OneResult(8, 7, 1), OneResult(8, 7, 1)])
  {
    FindsSeven(8);
  }

  /** The second of two string searches without a value keeps a result whose byte has changed from 7 to 9
      (`ValuelessWidthIff`). */
  lemma SecondValuelessExample()
    ensures var ops := [Search([Cells(8, 7)], Equal, [7], 100), Search([Cells(8, 7)], Equal, [], 100),
                        Search([Cells(8, 9)], Equal, [], 100)];
            Run(STRING, ops, [FRESH, OneResult(8, 7, 1), OneResult(8, 7, 0), OneResult(8, 9, 0)])
    ensures !LaterMatch(STRING.evaluators[Equal], [Cells(8, 9)], [Cells(8, 7)], [], 1, 8)
  {
    FindsSeven(8);
    SearchAgain(8, 7, 1, 7, []);
    SearchAgain(8, 7, 0, 9, []);
    ThreeSteps(STRING, Search([Cells(8, 7)], Equal, [7], 100), OneResult(8, 7, 1),
               Search([Cells(8, 7)], Equal, [], 100), OneResult(8, 7, 0),
               Search([Cells(8, 9)], Equal, [], 100), OneResult(8, 9, 0));
    Differ();
  }

  /** After a value and a search without one, the length of the value is forgotten. */
  lemma ForgottenExample()
    ensures var ops := [Search([Cells(8, 7)], Equal, [7], 100), Search([Cells(8, 7)], Equal, [], 100)];
            !Remembers(STRING, ops) && LastGiven(STRING, ops) == 1
  {
    var first, second := Search([Cells(8, 7)], Equal, [7], 100), Search([Cells(8, 7)], Equal, [], 100);
    FirstGiven(first);
    StringValid();
    assert [first, second][..1] == [first];
  }

  lemma FirstGiven(op: Op)
    requires op.Search? && op.pred == Equal && op.data != []
    ensures ModeAfter(STRING, [op]) == Mode(Some(op.snapshot), true, |op.data|)
    ensures LastGiven(STRING, [op]) == |op.data|
  {
    StringValid();
    assert [op][..0] == [];
    assert ModeAfter(STRING, []) == Mode(None, false, 0);
  }

  lemma Differ()
    ensures !LaterMatch(STRING.evaluators[Equal], [Cells(8, 9)], [Cells(8, 7)], [], 1, 8)
  {
    StringValid();
    CellsByte(8, 7, 8);
    CellsByte(8, 9, 8);
  }

  function Eight(): seq<nat> {
    seq(8, i requires 0 <= i < 8 => 8 + i)
  }

  lemma EightMembers(a: nat)
    ensures a in Eight() <==> 8 <= a < 16
  {
    assert 8 <= a < 16 ==> Eight()[a - 8] == a;
  }

  /** The state after an initial search for anything: only the snapshot is saved. */
  function Saved(): SearchState {
    SearchState(Some([Cells(8, 7)]), false, 0, [])
  }

  /** The state after a search that has found all of memory. */
  function AllFound(): SearchState {
    SearchState(Some([Cells(8, 9)]), true, 0, Eight())
  }

  lemma SavesMemory()
    ensures Step(STRING, FRESH, Search([Cells(8, 7)], All, [7], 100), Saved())
    ensures !Remembers(STRING, [Search([Cells(8, 7)], All, [7], 100)])
    ensures LastGiven(STRING, [Search([Cells(8, 7)], All, [7], 100)]) == 1
  {
    var op := Search([Cells(8, 7)], All, [7], 100);
    StringValid();
    CellsLookup(8, 7, 8);
    assert [op][..0] == [];
    assert ModeAfter(STRING, []) == Mode(None, false, 0);
  }

  /** A search that compares no bytes finds all of memory. */
  lemma FindsEverything(cap: nat)
    ensures Step(STRING, Saved(), Search([Cells(8, 9)], Equal, [], cap), AllFound())
  {
    StringValid();
    CellsLookup(8, 9, 8);
    forall a: nat
      ensures a in Eight() <==> SecondMatch(STRING.evaluators[Equal], 1, [Cells(8, 9)], [Cells(8, 7)], [], 0, a)
    {
      CellsLookup(8, 7, a);
      CellsLookup(8, 9, a);
      EightMembers(a);
    }
    assert SecondResults(STRING.evaluators[Equal], 1, [Cells(8, 9)], [Cells(8, 7)], [], 0, Eight());
  }

  /** An initial search for anything, but with a value, forgets the value's length (`SavesMemory`): the
      search after it finds the byte at address 8 equal, although it has changed from 7 to 9. */
  lemma InitialAllExample()
    ensures Run(STRING, [Search([Cells(8, 7)], All, [7], 100), Search([Cells(8, 9)], Equal, [], 100)],
                [FRESH, Saved(), AllFound()])
    ensures 8 in AllFound().results
    ensures !SecondMatch(STRING.evaluators[Equal], 1, [Cells(8, 9)], [Cells(8, 7)], [], 1, 8)
  {
    SavesMemory();
    FindsEverything(100);
    EightMembers(8);
    Differ();
    TwoSteps(STRING, Search([Cells(8, 7)], All, [7], 100), Saved(), Search([Cells(8, 9)], Equal, [], 100), AllFound());
  }

  /** With the limit at one result, the second search still finds eight (`LimitKeptIff`). */
  lemma LimitIgnoredExample()
    ensures Run(STRING, [Search([Cells(8, 7)], All, [7], 100), Search([Cells(8, 9)], Equal, [], 1)],
                [FRESH, Saved(), AllFound()])
    ensures |AllFound().results| == 8
  {
    SavesMemory();
    FindsEverything(1);
    TwoSteps(STRING, Search([Cells(8, 7)], All, [7], 100), Saved(), Search([Cells(8, 9)], Equal, [], 1), AllFound());
  }

  /** A search opened without the all-memory flag finds a byte in a region that can only be read
      (`WritablePromiseIff`). */
  lemma ReadOnlyExample()
    ensures var m := [Region(8, 8, 1, [7, 0, 0, 0, 0, 0, 0, 0])];
            && ValidMap(m) && WritableOnly(m) == []
            && FirstMatch(STRING.evaluators[Equal], 1, m, [7], 8)
  {
    var m := [Region(8, 8, 1, [7, 0, 0, 0, 0, 0, 0, 0])];
    StringValid();
    assert IsReadableAt(m, 8, 0);
    LookupAt(m, 8, 0);
    assert m[0].data[0..1] == [7];
    assert m[..0] == [] && WritableOnly([]) == [];
  }

  // ---------- reads past the end, and other undefined steps ----------

  /** A first search for nine bytes in a region of eight (`FirstScanOverrunIff`). */
  lemma FirstOverrunExample()
    ensures var nine: seq<byte> := [7, 0, 0, 0, 0, 0, 0, 0, 0];
            && Refusal(STRING, false, Equal, nine).None?
            && !ReadsFit(STRING, FRESH, [Cells(8, 7)], nine)
            && UnsignedMinus(8, |nine|) == WORD - 1
  {
    StringValid();
    assert Cells(8, 7) in [Cells(8, 7)] && Cells(8, 7).HasData();
  }

  /** After an initial search for anything, a search for two bytes in the same memory (`SecondFitsIff`). */
  lemma SecondOverrunExample()
    ensures Run(STRING, [Search([Cells(8, 7)], All, [7], 100)], [FRESH, Saved()])
    ensures Refusal(STRING, true, Equal, [7, 0]).None?
    ensures !ReadsFit(STRING, Saved(), [Cells(8, 7)], [7, 0])
  {
    SavesMemory();
    StringValid();
    CellsLookup(8, 7, 15);
    assert Aligned(15, 1) && !CellFits([Cells(8, 7)], 15, 2);
  }

  /** A later search for two bytes, with a result in the last byte of its region (`LaterFitsIff`). */
  lemma LaterOverrunExample()
    ensures Run(STRING, [Search([Cells(8, 7)], All, [7], 100), Search([Cells(8, 9)], Equal, [], 100)],
                [FRESH, Saved(), AllFound()])
    ensures Refusal(STRING, true, Equal, [0, 0]).None?
    ensures !ReadsFit(STRING, AllFound(), [Cells(8, 9)], [0, 0])
  {
    InitialAllExample();
    StringValid();
    EightMembers(15);
    CellsLookup(8, 9, 15);
    assert 15 in AllFound().results && !CellFits([Cells(8, 9)], 15, 2);
  }

  /** Deleting from 9 to the largest address, with a result at 8: the range to erase ends before it begins
      (`EraseInOrderIff`). */
  lemma UndefinedDeleteExample()
    ensures Run(STRING, [Search([Cells(8, 7)], Equal, [7], 100)], [FRESH, OneResult(8, 7, 1)])
    ensures !DeleteDefined(OneResult(8, 7, 1), 9, WORD - 1)
    ensures SplitsAt([8], 1, 9) && SplitsAt([8], 0, (WORD - 1 + 1) % WORD)
  {
    FindsSeven(8);
    assert 8 in OneResult(8, 7, 1).results;
  }

  // ---------- the shell ----------

  /** With the greatest limit there is, the first search of a newly opened one makes two iterations, of
      which three would be deleted (`NumToDeleteIff`). */
  lemma GreatestLimitExample()
    ensures var begun := ShellState(map["" := [Initial(STRING, false)]], "");
            var search := SearchFor(None, Equal, [7], [Cells(8, 7)], 0, 100, WORD - 1);
            && ShellRun([Open(STRING, false, "")], [CLOSED, begun])
            && ValidCommand(search) && Accepted(begun, search)
            && |begun.searches[""]| + 1 == 2
            && !LimitDefined(2, search.max) && NumToDelete(2, search.max) == 3
  {
    var begun := ShellState(map["" := [Initial(STRING, false)]], "");
    StringValid();
    CellsLookup(8, 7, 8);
    assert Next(CLOSED, Open(STRING, false, ""), Outcome(begun, None));
    assert StepsTo(CLOSED, Open(STRING, false, ""), begun);
    assert (2 - (WORD - 1)) % WORD == 3;
  }

  /** With the iteration limit at zero, the first search leaves an open search without iterations
      (`NonEmptyIff`). */
  lemma ZeroLimitExample()
    ensures var cmds := [Open(STRING, false, ""), SearchFor(None, Equal, [7], [Cells(8, 7)], 0, 100, 0)];
            var begun := ShellState(map["" := [Initial(STRING, false)]], "");
            ShellRun(cmds, [CLOSED, begun, ShellState(map["" := []], "")])
  {
    var search := SearchFor(None, Equal, [7], [Cells(8, 7)], 0, 100, 0);
    var begun := ShellState(map["" := [Initial(STRING, false)]], "");
    var emptied := Outcome(ShellState(map["" := []], ""), None);
    StringValid();
    assert Next(CLOSED, Open(STRING, false, ""), Outcome(begun, None));
    FindsSeven(8);
    CellsLookup(8, 7, 8);
    var it := Iteration(STRING, false, OneResult(8, 7, 1), [Search([Cells(8, 7)], Equal, [7], 100)]);
    assert Pushes(begun, "", search, emptied, it);
    assert Next(begun, search, emptied);
    assert StepsTo(CLOSED, Open(STRING, false, ""), begun);
    assert StepsTo(begun, search, emptied.state);
  }

  /** Forking a search that is not open into one that is: the command fails and the target is gone
      (`FailureLosesIff`). */
  lemma LostTargetExample()
    ensures var cmds := [Open(STRING, false, "kept"), ForkNamed("missing", "kept")];
            var begun := ShellState(map["kept" := [Initial(STRING, false)]], "kept");
            && ShellRun(cmds, [CLOSED, begun, ShellState(map[], "kept")])
            && Next(begun, cmds[1], Outcome(ShellState(map[], "kept"), Some(NoSuchSearch)))
  {
    var begun := ShellState(map["kept" := [Initial(STRING, false)]], "kept");
    var lost := Outcome(ShellState(map[], "kept"), Some(NoSuchSearch));
    StringValid();
    assert begun == Opened(CLOSED, STRING, false, "kept") by {
      assert "kept" != "";
    }
    assert Next(CLOSED, Open(STRING, false, "kept"), Outcome(begun, None));
    assert begun.searches - {"kept"} == map[];
    assert Next(begun, ForkNamed("missing", "kept"), lost);
    assert StepsTo(CLOSED, Open(STRING, false, "kept"), begun);
    assert StepsTo(begun, ForkNamed("missing", "kept"), lost.state);
  }
}
