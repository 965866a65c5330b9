/** The freezer over time: which regions are frozen after any sequence of operations, and what the
    writer's passes over them do to memory. */
module FreezerRuns {
  import opened Memory
  import opened FrozenRegions

  /** The frozen regions by index, the addresses still listed in the address view by index, and the
      next index to hand out. */
  datatype Ledger = Ledger(live: map<nat, Frozen>, listed: map<nat, nat>, next: nat)

  const EMPTY := Ledger(map[], map[], 0)

  /** Indexes are below the next one, and the address view lists every frozen region at its address. */
  predicate LedgerInv(l: Ledger) {
    && (forall i :: i in l.listed ==> i < l.next)
    && (forall i :: i in l.live ==> i in l.listed && l.listed[i] == l.live[i].addr && ValidFrozen(l.live[i]))
  }

  /** The address view lists nothing but frozen regions. */
  predicate ViewsAgree(l: Ledger) {
    l.listed.Keys == l.live.Keys
  }

  function WithName(l: Ledger, name: string): set<nat> {
    set i | i in l.live && l.live[i].name == name
  }

  function LiveAt(l: Ledger, addr: nat): set<nat> {
    set i | i in l.live && l.live[i].addr == addr
  }

  function ListedAt(l: Ledger, addr: nat): set<nat> {
    set i | i in l.listed && l.listed[i] == addr
  }

  function Freeze(l: Ledger, v: Frozen): Ledger {
    Ledger(l.live[l.next := v], l.listed[l.next := v.addr], l.next + 1)
  }

  function Without(l: Ledger, gone: set<nat>): Ledger {
    Ledger(l.live - gone, l.listed - gone, l.next)
  }

  /** Unfreezing everything empties the name and index views only. */
  function WithoutAll(l: Ledger): Ledger {
    Ledger(map[], l.listed, l.next)
  }

  function Enabled(l: Ledger, which: set<nat>, enable: bool): Ledger {
    l.(live := map i | i in l.live :: if i in which then l.live[i].(enable := enable) else l.live[i])
  }

  // ---------- one pass of the writer ----------

  /** Writes the enabled regions with index below `n`, in ascending order of index. */
  function Pass(live: map<nat, Frozen>, n: nat, m: Mem): (m': Mem)
    requires forall i :: i in live ==> ValidFrozen(live[i])
    ensures m'.writable == m.writable && m'.bytes.Keys == m.bytes.Keys
  {
    if n == 0 then m
    else
      var before := Pass(live, n - 1, m);
      if n - 1 in live && live[n - 1].enable then AfterWrite(live[n - 1], before) else before
  }

  /** What region `i` puts into byte `a` during a pass that starts from `m`. */
  function PutInPass(live: map<nat, Frozen>, m: Mem, i: nat, a: nat): Option<byte>
    requires forall j :: j in live ==> ValidFrozen(live[j])
  {
    if i in live && live[i].enable then Put(live[i], Pass(live, i, m), a) else None
  }

  function OrElse(put: Option<byte>, before: byte): byte {
    if put.Some? then put.value else before
  }

  /** The last byte put, or the byte there was before. */
  function Last(before: byte, puts: seq<Option<byte>>): byte {
    if puts == [] then before else OrElse(puts[|puts| - 1], Last(before, puts[..|puts| - 1]))
  }

  lemma {:induction false} LastOfTrace(trace: seq<byte>, puts: seq<Option<byte>>)
    requires |trace| == |puts| + 1
    requires forall i :: 0 <= i < |puts| ==> trace[i + 1] == OrElse(puts[i], trace[i])
    ensures trace[|puts|] == Last(trace[0], puts)
  {
    if puts != [] {
      LastOfTrace(trace[..|puts|], puts[..|puts| - 1]);
    }
  }

  lemma PassStep(live: map<nat, Frozen>, i: nat, m: Mem, a: nat)
    requires (forall j :: j in live ==> ValidFrozen(live[j])) && a in m.bytes
    ensures Pass(live, i + 1, m).bytes[a] == OrElse(PutInPass(live, m, i, a), Pass(live, i, m).bytes[a])
  {
    if i in live && live[i].enable {
      WriteByte(live[i], Pass(live, i, m), a);
    }
  }

  /** What the regions put into byte `a` during a pass, in the order of the pass. */
  function PutsInPass(live: map<nat, Frozen>, m: Mem, n: nat, a: nat): seq<Option<byte>>
    requires forall j :: j in live ==> ValidFrozen(live[j])
  {
    seq(n, i requires 0 <= i < n => PutInPass(live, m, i, a))
  }

  /** Main result on passes. After a pass, a byte holds what the region of highest index that wrote it put
      there, and is unchanged if no region wrote it. */
  lemma {:induction false} PassByte(live: map<nat, Frozen>, n: nat, m: Mem, a: nat)
    requires (forall j :: j in live ==> ValidFrozen(live[j])) && a in m.bytes
    ensures Pass(live, n, m).bytes[a] == Last(m.bytes[a], PutsInPass(live, m, n, a))
  {
    var trace := seq(n + 1, i requires 0 <= i <= n => Pass(live, i, m).bytes[a]);
    var puts := PutsInPass(live, m, n, a);
    forall i | 0 <= i < n
      ensures trace[i + 1] == OrElse(puts[i], trace[i])
    {
      PassStep(live, i, m, a);
    }
    LastOfTrace(trace, puts);
  }

  predicate CoveredFrom(live: map<nat, Frozen>, first: nat, n: nat, a: nat) {
    exists i :: first <= i < n && i in live && live[i].enable && live[i].Covers(a)
  }

  /** A byte outside all enabled regions with index from `first` on keeps the value it had before them. */
  lemma {:induction false} PassUncovered(live: map<nat, Frozen>, first: nat, n: nat, m: Mem, a: nat)
    requires forall i :: i in live ==> ValidFrozen(live[i])
    requires first <= n && a in m.bytes && !CoveredFrom(live, first, n, a)
    ensures Pass(live, n, m).bytes[a] == Pass(live, first, m).bytes[a]
  {
    if first < n {
      PassUncovered(live, first, n - 1, m, a);
      if n - 1 in live && live[n - 1].enable {
        OutsideUnchanged(live[n - 1], Pass(live, n - 1, m), a);
      }
    }
  }

  /** In particular, a byte of a writable plain region that no enabled region of higher index covers holds
      that region's byte. */
  lemma PassPlainByte(live: map<nat, Frozen>, n: nat, m: Mem, a: nat, i: nat)
    requires forall j :: j in live ==> ValidFrozen(live[j])
    requires a in m.bytes && i < n && i in live && live[i].enable && live[i].layout.None? && live[i].Covers(a)
    requires Writable(m, live[i].addr, |live[i].data|) && !CoveredFrom(live, i + 1, n, a)
    ensures Pass(live, n, m).bytes[a] == live[i].data[a - live[i].addr]
  {
    PassUncovered(live, i + 1, n, m, a);
  }

  /** A region that is not frozen, or disabled. */
  predicate Off(l: Ledger, i: nat) {
    i in l.live ==> !l.live[i].enable
  }

  /** A pass does to memory what it would do if a disabled region were not there at all. */
  lemma {:induction false} PassWithout(live: map<nat, Frozen>, n: nat, m: Mem, i: nat)
    requires forall j :: j in live ==> ValidFrozen(live[j])
    requires i in live ==> !live[i].enable
    ensures Pass(live, n, m) == Pass(live - {i}, n, m)
  {
    if n > 0 {
      PassWithout(live, n - 1, m, i);
    }
  }

  // ---------- when passes settle ----------

  predicate Apart(v: Frozen, w: Frozen) {
    v.addr + v.Extent() <= w.addr || w.addr + w.Extent() <= v.addr
  }

  /** Enabled arrays share no byte with other enabled regions. Plain regions may overlap each other. */
  predicate ArraysApart(live: map<nat, Frozen>) {
    forall i, j ::
      (i in live && j in live && i != j && live[i].enable && live[j].enable && live[i].layout.Some?) ==>
        Apart(live[i], live[j])
  }

  /** Within an enabled array that is apart from other regions, a pass does what that array alone does. */
  lemma {:induction false} PassOnArray(live: map<nat, Frozen>, n: nat, m: Mem, i: nat)
    requires (forall j :: j in live ==> ValidFrozen(live[j])) && ArraysApart(live)
    requires i in live && live[i].enable && live[i].layout.Some?
    ensures SameOn(live[i], Pass(live, n, m), if i < n then AfterWrite(live[i], m) else m)
  {
    if n > 0 {
      PassOnArray(live, n - 1, m, i);
      var before := Pass(live, n - 1, m);
      if n - 1 == i {
        WriteKeepsSame(live[i], before, m);
      } else if n - 1 in live && live[n - 1].enable {
        assert Apart(live[i], live[n - 1]);
        forall a | a in before.bytes && live[i].Covers(a)
          ensures Pass(live, n, m).bytes[a] == before.bytes[a]
        {
          OutsideUnchanged(live[n - 1], before, a);
        }
      }
    }
  }

  /** Byte `a` lies in no enabled array. */
  predicate OutsideArrays(live: map<nat, Frozen>, a: nat) {
    forall i :: i in live && live[i].enable && live[i].layout.Some? ==> !live[i].Covers(a)
  }

  /** Whatever two memories held before, a pass leaves the same byte in both or touches neither, outside
      arrays. */
  lemma {:induction false} PassEffect(live: map<nat, Frozen>, n: nat, m1: Mem, m2: Mem, a: nat)
    requires (forall i :: i in live ==> ValidFrozen(live[i])) && OutsideArrays(live, a)
    requires m1.writable == m2.writable && m1.bytes.Keys == m2.bytes.Keys && a in m1.bytes
    ensures var b1, b2 := Pass(live, n, m1).bytes[a], Pass(live, n, m2).bytes[a];
            b1 == b2 || (b1 == m1.bytes[a] && b2 == m2.bytes[a])
  {
    if n > 0 {
      PassEffect(live, n - 1, m1, m2, a);
      if n - 1 in live && live[n - 1].enable {
        var v, before1, before2 := live[n - 1], Pass(live, n - 1, m1), Pass(live, n - 1, m2);
        if v.layout.None? {
          assert Writable(before1, v.addr, |v.data|) <==> Writable(before2, v.addr, |v.data|);
        } else {
          OutsideUnchanged(v, before1, a);
          OutsideUnchanged(v, before2, a);
        }
      }
    }
  }

  /** Main result on steady states. With the target at rest, the pass after a pass changes nothing,
      provided that enabled arrays are apart from the other enabled regions. */
  lemma PassTwice(live: map<nat, Frozen>, n: nat, m: Mem)
    requires (forall i :: i in live ==> ValidFrozen(live[i]) && (live[i].enable ==> i < n)) && ArraysApart(live)
    ensures Pass(live, n, Pass(live, n, m)) == Pass(live, n, m)
  {
    var once := Pass(live, n, m);
    var twice := Pass(live, n, once);
    forall a | a in m.bytes
      ensures twice.bytes[a] == once.bytes[a]
    {
      if OutsideArrays(live, a) {
        PassEffect(live, n, m, once, a);
      } else {
        var i :| i in live && live[i].enable && live[i].layout.Some? && live[i].Covers(a);
        SettledArray(live, n, m, i, a);
      }
    }
    assert twice.bytes == once.bytes;
  }

  lemma SettledArray(live: map<nat, Frozen>, n: nat, m: Mem, i: nat, a: nat)
    requires (forall j :: j in live ==> ValidFrozen(live[j])) && ArraysApart(live) && i < n
    requires i in live && live[i].enable && live[i].layout.Some? && live[i].Covers(a) && a in m.bytes
    ensures Pass(live, n, Pass(live, n, m)).bytes[a] == Pass(live, n, m).bytes[a]
  {
    var once := Pass(live, n, m);
    PassOnArray(live, n, m, i);
    PassOnArray(live, n, once, i);
    WriteKeepsSame(live[i], once, AfterWrite(live[i], m));
    WriteTwice(live[i], m);
  }

  /** An array of three one-byte items, the first of which a plain region overwrites: the second pass
      fills another item, and only then nothing changes any more. */
  lemma OverlapExample()
    ensures var v := Frozen("", 8, [7], Some(ArrayInfo(3, [0xFF], [], [])), true);
            var w := Frozen("", 8, [5], None, true);
            var live, all := map[0 := v, 1 := w], {8, 9, 10};
            && ValidFrozen(v) && ValidFrozen(w)
            && Pass(live, 2, Mem(map[8 := 0, 9 := 0, 10 := 0], all)) == Mem(map[8 := 5, 9 := 0, 10 := 0], all)
            && Pass(live, 2, Mem(map[8 := 5, 9 := 0, 10 := 0], all)) == Mem(map[8 := 5, 9 := 7, 10 := 0], all)
            && Pass(live, 2, Mem(map[8 := 5, 9 := 7, 10 := 0], all)) == Mem(map[8 := 5, 9 := 7, 10 := 0], all)
  {
    OverlapPass([0, 0, 0], 0);
    OverlapPass([5, 0, 0], 1);
    OverlapPass([5, 7, 0], 1);
  }

  lemma WriteOne(b: seq<byte>, k: nat, d: byte)
    requires |b| == 3 && k < 3
    ensures Writable(Bytes3(b), 8 + k, 1)
    ensures Written(Bytes3(b), 8 + k, [d]) == Bytes3(b[k := d])
  {
    assert Writable(Bytes3(b), 8 + k, |[d]|);
    assert Written(Bytes3(b), 8 + k, [d]).bytes == Bytes3(b[k := d]).bytes;
  }

  /** Writing the array of the example, whose first candidate is item `x`. */
  lemma OverlapWrite(b: seq<byte>, x: nat)
    requires |b| == 3 && x < 3
    requires (b[x] == 0 || b[x] == 7) && forall y :: 0 <= y < x ==> b[y] != 0 && b[y] != 7
    ensures var v := Frozen("", 8, [7], Some(ArrayInfo(3, [0xFF], [], [])), true);
            ValidFrozen(v) && AfterWrite(v, Bytes3(b)) == Bytes3(b[x := 7])
  {
    var v, m := Frozen("", 8, [7], Some(ArrayInfo(3, [0xFF], [], [])), true), Bytes3(b);
    assert v.Extent() == 3 && Readable(m, 8, 3);
    assert Item(v, m, x) == [b[x]];
    assert Candidate(v, Item(v, m, x));
    forall y | 0 <= y < x
      ensures !Candidate(v, Item(v, m, y))
    {
      assert Item(v, m, y) == [b[y]];
      assert Item(v, m, y)[0] != 7 && Item(v, m, y)[0] != 0;
    }
    CandidateUnique(v, m, x);
    WriteOne(b, x, 7);
  }

  /** One pass of the example. */
  lemma OverlapPass(b: seq<byte>, x: nat)
    requires |b| == 3 && x < 3
    requires (b[x] == 0 || b[x] == 7) && forall y :: 0 <= y < x ==> b[y] != 0 && b[y] != 7
    ensures var v := Frozen("", 8, [7], Some(ArrayInfo(3, [0xFF], [], [])), true);
            var w := Frozen("", 8, [5], None, true);
            var after := b[x := 7][0 := 5];
            ValidFrozen(v) && ValidFrozen(w)
            && Pass(map[0 := v, 1 := w], 2, Bytes3(b)) == Bytes3(after)
  {
    var v := Frozen("", 8, [7], Some(ArrayInfo(3, [0xFF], [], [])), true);
    var w := Frozen("", 8, [5], None, true);
    var live, m := map[0 := v, 1 := w], Bytes3(b);
    OverlapWrite(b, x);
    var m1 := Bytes3(b[x := 7]);
    assert Pass(live, 0, m) == m;
    assert Pass(live, 1, m) == m1;
    WriteOne(b[x := 7], 0, 5);
  }

  function Bytes3(b: seq<byte>): Mem
    requires |b| == 3
  {
    Mem(map[8 := b[0], 9 := b[1], 10 := b[2]], {8, 9, 10})
  }

  // ---------- runs ----------

  /** The shell's operations, a pass of the writer, and the target changing its own memory. */
  datatype Event =
    | FreezeEvent(v: Frozen)
    | UnfreezeName(name: string)
    | UnfreezeAddr(addr: nat)
    | UnfreezeIndex(index: nat)
    | UnfreezeAll
    | EnableName(name: string, enable: bool)
    | EnableAddr(addr: nat, enable: bool)
    | EnableIndex(index: nat, enable: bool)
    | EnableAll(enable: bool)
    | PassEvent
    | TargetRuns(m: Mem)

  datatype System = System(ledger: Ledger, mem: Mem)

  predicate ValidEvent(e: Event) {
    e.FreezeEvent? ==> ValidFrozen(e.v)
  }

  function NextLedger(l: Ledger, e: Event): Ledger {
    match e
    case FreezeEvent(v) => Freeze(l, v)
    case UnfreezeName(name) => Without(l, WithName(l, name))
    case UnfreezeAddr(addr) => Without(l, ListedAt(l, addr))
    case UnfreezeIndex(index) => if index in l.live then Without(l, {index}) else l
    case UnfreezeAll => WithoutAll(l)
    case EnableName(name, enable) => Enabled(l, WithName(l, name), enable)
    case EnableAddr(addr, enable) => Enabled(l, ListedAt(l, addr), enable)
    case EnableIndex(index, enable) => Enabled(l, {index}, enable)
    case EnableAll(enable) => Enabled(l, l.live.Keys, enable)
    case PassEvent => l
    case TargetRuns(_) => l
  }

  /** Unfreezing takes out exactly the frozen regions of the name, at the address or with the index given,
      or all of them; the others stay as they are. The address view keeps what was frozen elsewhere and, when
      all regions are unfrozen, everything. */
  lemma UnfreezeMeaning(l: Ledger, e: Event, l': Ledger)
    requires LedgerInv(l) && l' == NextLedger(l, e)
    requires e.UnfreezeName? || e.UnfreezeAddr? || e.UnfreezeIndex? || e.UnfreezeAll?
    ensures l'.next == l.next
    ensures forall i :: i in l'.live ==> i in l.live && l'.live[i] == l.live[i]
    ensures forall i :: i in l.live ==>
      (i in l'.live <==>
        match e
        case UnfreezeName(name) => l.live[i].name != name
        case UnfreezeAddr(addr) => l.live[i].addr != addr
        case UnfreezeIndex(index) => i != index
        case _ => false)
    ensures forall i :: i in l'.listed ==> i in l.listed && l'.listed[i] == l.listed[i]
    ensures forall i :: i in l.listed ==>
      (i in l'.listed <==>
        match e
        case UnfreezeName(name) => !(i in l.live && l.live[i].name == name)
        case UnfreezeAddr(addr) => l.listed[i] != addr
        case UnfreezeIndex(index) => !(i in l.live && i == index)
        case _ => true)
  {
  }

  /** Enabling and disabling sets the flag of exactly the frozen regions of the name, at the address or with
      the index given, or of all of them, and changes nothing else. */
  lemma EnableMeaning(l: Ledger, e: Event, l': Ledger)
    requires LedgerInv(l) && l' == NextLedger(l, e)
    requires e.EnableName? || e.EnableAddr? || e.EnableIndex? || e.EnableAll?
    ensures l'.next == l.next && l'.listed == l.listed && l'.live.Keys == l.live.Keys
    ensures forall i :: i in l.live ==>
      && l'.live[i].name == l.live[i].name && l'.live[i].addr == l.live[i].addr
      && l'.live[i].data == l.live[i].data && l'.live[i].layout == l.live[i].layout
      && l'.live[i].enable ==
           match e
           case EnableName(name, flag) => if l.live[i].name == name then flag else l.live[i].enable
           case EnableAddr(addr, flag) => if l.live[i].addr == addr then flag else l.live[i].enable
           case EnableIndex(index, flag) => if i == index then flag else l.live[i].enable
           case _ => e.enable
  {
  }

  /** Freezing adds one region under a new index; passes and the target change no region. */
  lemma FreezeMeaning(l: Ledger, e: Event, l': Ledger)
    requires LedgerInv(l) && l' == NextLedger(l, e)
    requires e.FreezeEvent? || e.PassEvent? || e.TargetRuns?
    ensures e.FreezeEvent? ==>
      && l'.next == l.next + 1 && l.next !in l.live && l.next !in l.listed
      && (forall i :: i in l'.live <==> i in l.live || i == l.next)
      && (forall i :: i in l'.live ==> l'.live[i] == if i == l.next then e.v else l.live[i])
      && (forall i :: i in l'.listed <==> i in l.listed || i == l.next)
      && (forall i :: i in l'.listed ==> l'.listed[i] == if i == l.next then e.v.addr else l.listed[i])
    ensures !e.FreezeEvent? ==> l' == l
  {
  }

  function Next(s: System, e: Event): System
    requires LedgerInv(s.ledger)
  {
    System(NextLedger(s.ledger, e),
           match e
           case PassEvent => Pass(s.ledger.live, s.ledger.next, s.mem)
           case TargetRuns(m) => m
           case _ => s.mem)
  }

  lemma NextKeepsInv(l: Ledger, e: Event)
    requires LedgerInv(l) && ValidEvent(e)
    ensures LedgerInv(NextLedger(l, e))
  {
    match e
    case UnfreezeAddr(addr) =>
      var l' := NextLedger(l, e);
      forall i | i in l'.live
        ensures i in l'.listed
      {
        assert i !in ListedAt(l, addr);
      }
    case _ =>
  }

  function Run(s: System, events: seq<Event>): (s': System)
    requires LedgerInv(s.ledger) && forall e :: e in events ==> ValidEvent(e)
    ensures LedgerInv(s'.ledger)
  {
    if events == [] then s
    else
      var n := |events| - 1;
      assert forall e :: e in events[..n] ==> e in events;
      var before := Run(s, events[..n]);
      NextKeepsInv(before.ledger, events[n]);
      Next(before, events[n])
  }

  /** Without `unfreeze_all`, the address view agrees with the other two after every run. */
  lemma {:induction false} ViewsAgreeUnlessAllUnfrozen(s: System, events: seq<Event>)
    requires LedgerInv(s.ledger) && forall e :: e in events ==> ValidEvent(e)
    requires ViewsAgree(s.ledger) && UnfreezeAll !in events
    ensures ViewsAgree(Run(s, events).ledger)
  {
    if events != [] {
      var n := |events| - 1;
      assert events == events[..n] + [events[n]];
      ViewsAgreeUnlessAllUnfrozen(s, events[..n]);
      ViewsAgreeStep(Run(s, events[..n]).ledger, events[n]);
    }
  }

  lemma ViewsAgreeStep(l: Ledger, e: Event)
    requires LedgerInv(l) && ValidEvent(e) && ViewsAgree(l) && !e.UnfreezeAll?
    ensures ViewsAgree(NextLedger(l, e))
  {
    assert forall i :: i in l.listed <==> i in l.live;
    var l' := NextLedger(l, e);
    assert forall i :: i in l'.listed <==> i in l'.live;
  }

  /** `unfreeze_all` leaves the views in agreement exactly if the address view was empty already. */
  lemma UnfreezeAllAgreesIff(l: Ledger)
    ensures ViewsAgree(NextLedger(l, UnfreezeAll)) <==> l.listed == map[]
  {
    if l.listed.Keys == {} {
      assert l.listed == map[];
    }
  }

  /** Unfreezing by address counts the address view's entries. That is the number of regions unfrozen,
      exactly if no region unfrozen by `unfreeze_all` is still listed at the address. */
  lemma UnfreezeAddrCountIff(l: Ledger, addr: nat)
    requires LedgerInv(l)
    ensures l.live.Keys - NextLedger(l, UnfreezeAddr(addr)).live.Keys == LiveAt(l, addr)
    ensures |ListedAt(l, addr)| == |LiveAt(l, addr)| <==>
      forall i :: i in l.listed && l.listed[i] == addr ==> i in l.live
  {
    var live, listed := LiveAt(l, addr), ListedAt(l, addr);
    assert live <= listed;
    assert |listed| == |live| + |listed - live| by {
      assert listed == live + (listed - live);
    }
    if |listed| == |live| {
      assert listed - live == {};
      forall i | i in l.listed && l.listed[i] == addr
        ensures i in l.live
      {
        assert i in listed;
      }
    } else {
      var i :| i in listed - live;
    }
  }

  /** A region frozen, unfrozen with all others, and counted again when its address is unfrozen. */
  lemma StaleAddressExample(v: Frozen)
    requires ValidFrozen(v)
    ensures var l := NextLedger(Freeze(EMPTY, v), UnfreezeAll);
            l.live == map[] && |ListedAt(l, v.addr)| == 1
  {
    var l := NextLedger(Freeze(EMPTY, v), UnfreezeAll);
    assert ListedAt(l, v.addr) == {0};
  }

  /** An index once handed out and unfrozen is never frozen again, whatever happens later. */
  lemma {:induction false} GoneForever(s: System, events: seq<Event>, i: nat)
    requires LedgerInv(s.ledger) && forall e :: e in events ==> ValidEvent(e)
    requires i < s.ledger.next && i !in s.ledger.live
    ensures i < Run(s, events).ledger.next && i !in Run(s, events).ledger.live
  {
    if events != [] {
      var n := |events| - 1;
      assert forall e :: e in events[..n] ==> e in events;
      GoneForever(s, events[..n], i);
    }
  }

  // ---------- what no pass writes ----------

  /** The event enables region `i`. */
  predicate Enables(l: Ledger, e: Event, i: nat) {
    match e
    case EnableName(name, enable) => enable && i in WithName(l, name)
    case EnableAddr(addr, enable) => enable && i in ListedAt(l, addr) && i in l.live
    case EnableIndex(index, enable) => enable && i == index && i in l.live
    case EnableAll(enable) => enable && i in l.live
    case _ => false
  }

  /** The event unfreezes or disables region `i`. */
  predicate TurnsOff(l: Ledger, e: Event, i: nat) {
    match e
    case UnfreezeName(name) => i in WithName(l, name)
    case UnfreezeAddr(addr) => i in ListedAt(l, addr)
    case UnfreezeIndex(index) => i == index
    case UnfreezeAll => true
    case EnableName(name, enable) => !enable && i in WithName(l, name)
    case EnableAddr(addr, enable) => !enable && i in ListedAt(l, addr)
    case EnableIndex(index, enable) => !enable && i == index
    case EnableAll(enable) => !enable
    case _ => false
  }

  /** A region is off after an event that turns it off, is turned off by no other, and stays off until an event
      enables it. */
  lemma OffStep(l: Ledger, e: Event, i: nat)
    requires LedgerInv(l) && ValidEvent(e) && i < l.next
    ensures TurnsOff(l, e, i) ==> Off(NextLedger(l, e), i)
    ensures !Off(l, i) && Off(NextLedger(l, e), i) ==> TurnsOff(l, e, i)
    ensures Off(l, i) ==> (Off(NextLedger(l, e), i) <==> !Enables(l, e, i))
    ensures i < NextLedger(l, e).next
  {
  }

  lemma {:induction false} StaysOff(s: System, events: seq<Event>, i: nat)
    requires LedgerInv(s.ledger) && forall e :: e in events ==> ValidEvent(e)
    requires i < s.ledger.next && Off(s.ledger, i)
    requires forall k :: 0 <= k < |events| ==> !EnablesAt(s, events, k, i)
    ensures i < Run(s, events).ledger.next && Off(Run(s, events).ledger, i)
  {
    if events != [] {
      var n := |events| - 1;
      PrefixEvents(events, n);
      forall k | 0 <= k < n
        ensures !EnablesAt(s, events[..n], k, i)
      {
        assert events[..n][..k] == events[..k] && !EnablesAt(s, events, k, i);
      }
      StaysOff(s, events[..n], i);
      assert !EnablesAt(s, events, n, i);
      OffStep(Run(s, events[..n]).ledger, events[n], i);
    }
  }

  lemma PrefixEvents(events: seq<Event>, k: nat)
    requires k <= |events|
    ensures forall e :: e in events[..k] ==> e in events
  {
  }

  /** Event `k` of the run enables region `i`. */
  predicate EnablesAt(s: System, events: seq<Event>, k: nat, i: nat)
    requires LedgerInv(s.ledger) && (forall e :: e in events ==> ValidEvent(e)) && k < |events|
  {
    PrefixEvents(events, k);
    Enables(Run(s, events[..k]).ledger, events[k], i)
  }

  /** Main result on disabling and unfreezing, region by region. After any run that does not enable region
      `i` again, whatever else the shell and the target do in between, a pass of the writer does exactly
      what it would do if the region did not exist. */
  lemma NoPassWritesOff(s: System, events: seq<Event>, i: nat)
    requires LedgerInv(s.ledger) && forall e :: e in events ==> ValidEvent(e)
    requires i < s.ledger.next && Off(s.ledger, i)
    requires forall k :: 0 <= k < |events| ==> !EnablesAt(s, events, k, i)
    ensures var before := Run(s, events);
            Next(before, PassEvent).mem == Pass(before.ledger.live - {i}, before.ledger.next, before.mem)
  {
    StaysOff(s, events, i);
    var before := Run(s, events);
    PassWithout(before.ledger.live, before.ledger.next, before.mem, i);
  }

  /** Event `k` of the run unfreezes or disables region `i`. */
  predicate TurnsOffAt(s: System, events: seq<Event>, k: nat, i: nat)
    requires LedgerInv(s.ledger) && (forall e :: e in events ==> ValidEvent(e)) && k < |events|
  {
    PrefixEvents(events, k);
    i < Run(s, events[..k]).ledger.next && TurnsOff(Run(s, events[..k]).ledger, events[k], i)
  }

  lemma {:induction false} OffSince(s: System, events: seq<Event>, i: nat, j: nat)
    requires LedgerInv(s.ledger) && forall e :: e in events ==> ValidEvent(e)
    requires j < |events| && TurnsOffAt(s, events, j, i)
    requires forall k :: j < k < |events| ==> !EnablesAt(s, events, k, i)
    ensures i < Run(s, events).ledger.next && Off(Run(s, events).ledger, i)
  {
    var n := |events| - 1;
    PrefixEvents(events, n);
    if j < n {
      forall k | j < k < n
        ensures !EnablesAt(s, events[..n], k, i)
      {
        assert events[..n][..k] == events[..k] && !EnablesAt(s, events, k, i);
      }
      assert events[..n][..j] == events[..j];
      OffSince(s, events[..n], i, j);
      assert !EnablesAt(s, events, n, i);
    }
    OffStep(Run(s, events[..n]).ledger, events[n], i);
  }

  /** In particular, no pass writes a region between an unfreeze or disable and the event that enables it. */
  lemma NoPassAfterTurningOff(s: System, events: seq<Event>, i: nat, j: nat)
    requires LedgerInv(s.ledger) && forall e :: e in events ==> ValidEvent(e)
    requires j < |events| && TurnsOffAt(s, events, j, i)
    requires forall k :: j < k < |events| ==> !EnablesAt(s, events, k, i)
    ensures var before := Run(s, events);
            Next(before, PassEvent).mem == Pass(before.ledger.live - {i}, before.ledger.next, before.mem)
  {
    OffSince(s, events, i, j);
    var before := Run(s, events);
    PassWithout(before.ledger.live, before.ledger.next, before.mem, i);
  }

  /** An unfrozen region is written by no pass of any later run, without exception. */
  lemma NoPassWritesUnfrozen(s: System, events: seq<Event>, i: nat)
    requires LedgerInv(s.ledger) && forall e :: e in events ==> ValidEvent(e)
    requires i < s.ledger.next && i !in s.ledger.live
    ensures var before := Run(s, events);
            && i !in before.ledger.live
            && Next(before, PassEvent).mem == Pass(before.ledger.live - {i}, before.ledger.next, before.mem)
  {
    GoneForever(s, events, i);
    var before := Run(s, events);
    PassWithout(before.ledger.live, before.ledger.next, before.mem, i);
  }

  /** No enabled region covers the byte. */
  predicate NothingEnabledCovers(l: Ledger, a: nat) {
    forall i :: i in l.live && l.live[i].enable ==> !l.live[i].Covers(a)
  }

  /** The event freezes a region covering the byte, or enables one. */
  predicate Engages(l: Ledger, e: Event, a: nat) {
    || (e.FreezeEvent? && e.v.enable && e.v.Covers(a))
    || exists i :: i in l.live && l.live[i].Covers(a) && Enables(l, e, i)
  }

  predicate EngagesAt(s: System, events: seq<Event>, k: nat, a: nat)
    requires LedgerInv(s.ledger) && (forall e :: e in events ==> ValidEvent(e)) && k < |events|
  {
    PrefixEvents(events, k);
    Engages(Run(s, events[..k]).ledger, events[k], a)
  }

  lemma UncoveredStep(l: Ledger, e: Event, a: nat)
    requires LedgerInv(l) && NothingEnabledCovers(l, a)
    ensures NothingEnabledCovers(NextLedger(l, e), a) <==> !Engages(l, e, a)
  {
    var l' := NextLedger(l, e);
    if Engages(l, e, a) {
      if e.FreezeEvent? {
        assert l.next in l'.live;
      } else {
        var i :| i in l.live && l.live[i].Covers(a) && Enables(l, e, i);
        assert i in l'.live && l'.live[i].enable && l'.live[i].Covers(a);
      }
    } else {
      forall i | i in l'.live && l'.live[i].enable
        ensures !l'.live[i].Covers(a)
      {
        assert i in l.live && l.live[i].Covers(a) ==> !Enables(l, e, i);
      }
    }
  }

  lemma {:induction false} StaysUncovered(s: System, events: seq<Event>, a: nat)
    requires LedgerInv(s.ledger) && forall e :: e in events ==> ValidEvent(e)
    requires NothingEnabledCovers(s.ledger, a)
    requires forall k :: 0 <= k < |events| ==> !EngagesAt(s, events, k, a)
    ensures NothingEnabledCovers(Run(s, events).ledger, a)
  {
    if events != [] {
      var n := |events| - 1;
      PrefixEvents(events, n);
      forall k | 0 <= k < n
        ensures !EngagesAt(s, events[..n], k, a)
      {
        assert events[..n][..k] == events[..k] && !EngagesAt(s, events, k, a);
      }
      StaysUncovered(s, events[..n], a);
      assert !EngagesAt(s, events, n, a);
      UncoveredStep(Run(s, events[..n]).ledger, events[n], a);
    }
  }

  lemma UncoveredPass(l: Ledger, m: Mem, a: nat)
    requires LedgerInv(l) && NothingEnabledCovers(l, a) && a in m.bytes
    ensures Pass(l.live, l.next, m).bytes[a] == m.bytes[a]
  {
    PassUncovered(l.live, 0, l.next, m, a);
  }

  /** Main result on disabling, byte by byte. After any run in which no event puts an enabled region over
      the byte, whatever the target itself does to it, a pass of the writer leaves the byte as it finds it. */
  lemma DisabledByte(s: System, events: seq<Event>, a: nat)
    requires LedgerInv(s.ledger) && forall e :: e in events ==> ValidEvent(e)
    requires NothingEnabledCovers(s.ledger, a)
    requires forall k :: 0 <= k < |events| ==> !EngagesAt(s, events, k, a)
    ensures var before := Run(s, events);
            a in before.mem.bytes ==> Next(before, PassEvent).mem.bytes[a] == before.mem.bytes[a]
  {
    StaysUncovered(s, events, a);
    var before := Run(s, events);
    if a in before.mem.bytes {
      UncoveredPass(before.ledger, before.mem, a);
    }
  }

  predicate NothingCovers(l: Ledger, a: nat) {
    forall i :: i in l.live ==> !l.live[i].Covers(a)
  }

  lemma {:induction false} StaysReleased(s: System, events: seq<Event>, a: nat)
    requires LedgerInv(s.ledger) && forall e :: e in events ==> ValidEvent(e)
    requires NothingCovers(s.ledger, a)
    requires forall e :: e in events && e.FreezeEvent? ==> !e.v.Covers(a)
    ensures NothingCovers(Run(s, events).ledger, a)
  {
    if events != [] {
      var n := |events| - 1;
      PrefixEvents(events, n);
      StaysReleased(s, events[..n], a);
      assert events[n] in events;
    }
  }

  /** Main result on release. Once no frozen region covers a byte, because they were all unfrozen, every
      pass of every later run leaves the byte as it finds it, until a region covering it is frozen anew. */
  lemma ReleasedByte(s: System, events: seq<Event>, a: nat)
    requires LedgerInv(s.ledger) && forall e :: e in events ==> ValidEvent(e)
    requires NothingCovers(s.ledger, a)
    requires forall e :: e in events && e.FreezeEvent? ==> !e.v.Covers(a)
    ensures var before := Run(s, events);
            && NothingCovers(before.ledger, a)
            && (a in before.mem.bytes ==> Next(before, PassEvent).mem.bytes[a] == before.mem.bytes[a])
  {
    StaysReleased(s, events, a);
    var before := Run(s, events);
    if a in before.mem.bytes {
      UncoveredPass(before.ledger, before.mem, a);
    }
  }
}
