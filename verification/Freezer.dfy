/** The region freezer: three views of the same region objects, changed together under the lock. The
    views by name and by address map keys to several regions; since each region is entered once, they
    are sets of key-region pairs. */
module Freezer {
  import opened Memory
  import opened FrozenRegions
  import Runs = FreezerRuns

  type NameView = set<(string, FrozenRegion)>
  type AddrView = set<(nat, FrozenRegion)>
  type IndexView = map<nat, FrozenRegion>

  /** The name and index views hold the same regions, each under its own keys, and the address view
      holds them all. `l` is the abstract state; `listed` gives the regions of the address view by index. */
  ghost predicate Consistent(byName: NameView, byAddr: AddrView, byIndex: IndexView, listed: IndexView,
          l: Runs.Ledger)
  {
    && (forall i :: i in byIndex <==> i in l.live)
    && (forall i :: i in byIndex ==>
          && i in listed && listed[i] == byIndex[i] && (byIndex[i].name, byIndex[i]) in byName
          && i in l.live && Holds(byIndex[i], l.live[i]))
    && (forall e :: e in byName ==> e.0 == e.1.name && e.1.index in byIndex && byIndex[e.1.index] == e.1)
    && AddressesConsistent(byAddr, listed, l)
  }

  ghost predicate AddressesConsistent(byAddr: AddrView, listed: IndexView, l: Runs.Ledger) {
    && (forall i :: i in listed <==> i in l.listed)
    && (forall i :: i in listed ==>
          && i < l.next && listed[i].index == i && listed[i].Valid() && l.listed[i] == listed[i].addr
          && (listed[i].addr, listed[i]) in byAddr)
    && (forall e :: e in byAddr ==> e.0 == e.1.addr && e.1.index in listed && listed[e.1.index] == e.1)
  }

  /** The fields of a region that never change are those of the frozen value. */
  ghost predicate Holds(r: FrozenRegion, v: Frozen) {
    v == Frozen(r.name, r.addr, r.data, r.layout, v.enable)
  }

  ghost predicate EnablesMatch(byIndex: IndexView, live: map<nat, Frozen>)
    reads byIndex.Values
  {
    forall i :: i in byIndex && i in live ==> byIndex[i].enable == live[i].enable
  }

  /** Entering a new region into all views. */
  lemma EnterRegion(byName: NameView, byAddr: AddrView, byIndex: IndexView, listed: IndexView,
          l: Runs.Ledger, r: FrozenRegion, v: Frozen)
    requires Consistent(byName, byAddr, byIndex, listed, l) && r.index == l.next && r.Valid() && Holds(r, v)
    ensures Consistent(byName + {(r.name, r)}, byAddr + {(r.addr, r)}, byIndex[r.index := r], listed[r.index := r],
                       Runs.Freeze(l, v))
  {
    EnterAddress(byAddr, listed, l, r, v);
  }

  lemma EnterAddress(byAddr: AddrView, listed: IndexView, l: Runs.Ledger, r: FrozenRegion, v: Frozen)
    requires AddressesConsistent(byAddr, listed, l) && r.index == l.next && r.Valid() && Holds(r, v)
    ensures AddressesConsistent(byAddr + {(r.addr, r)}, listed[r.index := r], Runs.Freeze(l, v))
  {
  }

  lemma EnterEnable(byIndex: IndexView, l: Runs.Ledger, r: FrozenRegion, v: Frozen)
    requires EnablesMatch(byIndex, l.live) && r.index == l.next && r.enable == v.enable && l.next !in byIndex
    ensures EnablesMatch(byIndex[r.index := r], Runs.Freeze(l, v).live)
  {
  }

  lemma Enter(byName: NameView, byAddr: AddrView, byIndex: IndexView, listed: IndexView,
          l: Runs.Ledger, r: FrozenRegion, v: Frozen, byName': NameView, byAddr': AddrView, byIndex': IndexView)
    requires Consistent(byName, byAddr, byIndex, listed, l) && r.index == l.next && r.Valid() && Holds(r, v)
    requires byName' == byName + {(r.name, r)} && byAddr' == byAddr + {(r.addr, r)} && byIndex' == byIndex[r.index := r]
    requires EnablesMatch(byIndex, l.live) && r.enable == v.enable
    ensures Consistent(byName', byAddr', byIndex', listed[r.index := r], Runs.Freeze(l, v))
    ensures EnablesMatch(byIndex', Runs.Freeze(l, v).live)
  {
    EnterRegion(byName, byAddr, byIndex, listed, l, r, v);
    EnterEnable(byIndex, l, r, v);
  }

  function EraseByValue<K(==)>(m: set<(K, FrozenRegion)>, k: K, v: FrozenRegion): set<(K, FrozenRegion)> {
    m - {(k, v)}
  }

  function Except<K(==)>(m: set<(K, FrozenRegion)>, gone: set<FrozenRegion>): set<(K, FrozenRegion)> {
    set e | e in m && e.1 !in gone
  }

  function Regions<K(==)>(entries: set<(K, FrozenRegion)>): set<FrozenRegion> {
    set e | e in entries :: e.1
  }

  ghost function Indexes(regions: set<FrozenRegion>): set<nat> {
    set r | r in regions :: r.index
  }

  function NameIts(byName: NameView, name: string): NameView {
    set e | e in byName && e.0 == name
  }

  function AddrIts(byAddr: AddrView, addr: nat): AddrView {
    set e | e in byAddr && e.0 == addr
  }

  /** Removing listed regions from all views. */
  lemma RemoveRegions(byName: NameView, byAddr: AddrView, byIndex: IndexView, listed: IndexView,
          l: Runs.Ledger, gone: set<FrozenRegion>)
    requires Consistent(byName, byAddr, byIndex, listed, l)
    requires forall r :: r in gone ==> r.index in listed && listed[r.index] == r
    ensures Consistent(Except(byName, gone), Except(byAddr, gone), byIndex - Indexes(gone), listed - Indexes(gone),
                       Runs.Without(l, Indexes(gone)))
  {
    GoneIndexes(listed, gone);
    assert forall e :: e in byName ==> listed[e.1.index] == e.1;
  }

  lemma GoneIndexes(listed: IndexView, gone: set<FrozenRegion>)
    requires forall r :: r in gone ==> r.index in listed && listed[r.index] == r
    requires forall i :: i in listed ==> listed[i].index == i
    ensures forall i :: i in listed ==> (i in Indexes(gone) <==> listed[i] in gone)
    ensures forall i :: i in Indexes(gone) ==> i in listed
  {
  }

  /** The regions under a name are those frozen with that name. */
  lemma NameIndexes(byName: NameView, byAddr: AddrView, byIndex: IndexView, listed: IndexView,
          l: Runs.Ledger, name: string)
    requires Consistent(byName, byAddr, byIndex, listed, l)
    ensures var gone := Regions(NameIts(byName, name));
            && Indexes(gone) == Runs.WithName(l, name)
            && |NameIts(byName, name)| == |Runs.WithName(l, name)|
            && byName - NameIts(byName, name) == Except(byName, gone)
            && forall r :: r in gone ==> r.index in listed && listed[r.index] == r
  {
    var its := NameIts(byName, name);
    forall i | i in Runs.WithName(l, name)
      ensures i in Indexes(Regions(its))
    {
      var e := (name, byIndex[i]);
      assert e in its;
      assert byIndex[i] in Regions(its);
    }
    CountIndexes(its);
  }

  lemma AddrIndexes(byAddr: AddrView, listed: IndexView, l: Runs.Ledger, addr: nat)
    requires AddressesConsistent(byAddr, listed, l)
    ensures var gone := Regions(AddrIts(byAddr, addr));
            && Indexes(gone) == Runs.ListedAt(l, addr)
            && |AddrIts(byAddr, addr)| == |Runs.ListedAt(l, addr)|
            && byAddr - AddrIts(byAddr, addr) == Except(byAddr, gone)
            && forall r :: r in gone ==> r.index in listed && listed[r.index] == r
  {
    var its := AddrIts(byAddr, addr);
    forall i | i in Runs.ListedAt(l, addr)
      ensures i in Indexes(Regions(its))
    {
      var e := (addr, listed[i]);
      assert e in its;
      assert listed[i] in Regions(its);
    }
    CountIndexes(its);
  }

  /** Entries whose regions have different indexes are as many as those indexes. */
  lemma {:induction false} CountIndexes<K>(entries: set<(K, FrozenRegion)>)
    requires forall e, e' :: e in entries && e' in entries && e.1.index == e'.1.index ==> e == e'
    ensures |Indexes(Regions(entries))| == |entries|
  {
    if entries == {} {
      assert Indexes(Regions(entries)) == {};
    } else {
      var e :| e in entries;
      var rest := entries - {e};
      CountIndexes(rest);
      assert Regions(entries) == Regions(rest) + {e.1};
      assert Indexes(Regions(entries)) == Indexes(Regions(rest)) + {e.1.index};
    }
  }

  /** Taking one more region's entry out of a view. */
  lemma EraseStep<K>(m: set<(K, FrozenRegion)>, done: set<FrozenRegion>, k: K, r: FrozenRegion)
    requires forall e :: e in m && e.1 == r ==> e.0 == k
    ensures EraseByValue(Except(m, done), k, r) == Except(m, done + {r})
  {
  }

  lemma IndexStep(byIndex: IndexView, done: set<FrozenRegion>, r: FrozenRegion)
    ensures byIndex - Indexes(done) - {r.index} == byIndex - Indexes(done + {r})
  {
    assert Indexes(done + {r}) == Indexes(done) + {r.index};
  }

  lemma RemoveOne(byName: NameView, byAddr: AddrView, r: FrozenRegion)
    requires forall e :: e in byName ==> e.0 == e.1.name
    requires forall e :: e in byAddr ==> e.0 == e.1.addr
    ensures Except(byName, {r}) == EraseByValue(byName, r.name, r)
    ensures Except(byAddr, {r}) == EraseByValue(byAddr, r.addr, r)
    ensures Indexes({r}) == {r.index}
  {
  }

  lemma TakeName(byName: NameView, byAddr: AddrView, byIndex: IndexView, listed: IndexView,
          l: Runs.Ledger, name: string, its: NameView)
    requires Consistent(byName, byAddr, byIndex, listed, l) && its == NameIts(byName, name)
    ensures var gone := Indexes(Regions(its));
            && Consistent(byName - its, Except(byAddr, Regions(its)), byIndex - gone, listed - gone,
                          Runs.NextLedger(l, Runs.UnfreezeName(name)))
  {
    NameIndexes(byName, byAddr, byIndex, listed, l, name);
    RemoveRegions(byName, byAddr, byIndex, listed, l, Regions(its));
  }

  /** The frozen regions left when those of the name have gone, and how many have. */
  lemma NamedLeave(byName: NameView, byAddr: AddrView, byIndex: IndexView, listed: IndexView,
          l: Runs.Ledger, name: string, its: NameView, rest: IndexView)
    requires Consistent(byName, byAddr, byIndex, listed, l) && its == NameIts(byName, name)
    requires rest == byIndex - Indexes(Regions(its))
    ensures rest == map i | i in byIndex && byIndex[i].name != name :: byIndex[i]
    ensures |its| == |byIndex.Keys - rest.Keys|
  {
    NameIndexes(byName, byAddr, byIndex, listed, l, name);
    NamedRegions(byName, byAddr, byIndex, listed, l, name);
    WithoutNamed(byIndex, Runs.WithName(l, name), name, rest);
  }

  lemma WithoutNamed(byIndex: IndexView, gone: set<nat>, name: string, rest: IndexView)
    requires gone <= byIndex.Keys && forall i :: i in byIndex ==> (i in gone <==> byIndex[i].name == name)
    requires rest == byIndex - gone
    ensures rest == map i | i in byIndex && byIndex[i].name != name :: byIndex[i]
    ensures gone == byIndex.Keys - rest.Keys
  {
  }

  lemma NamedRegions(byName: NameView, byAddr: AddrView, byIndex: IndexView, listed: IndexView,
          l: Runs.Ledger, name: string)
    requires Consistent(byName, byAddr, byIndex, listed, l)
    ensures forall i :: i in byIndex ==> (byIndex[i] in Regions(NameIts(byName, name)) <==> byIndex[i].name == name)
    ensures forall i :: i in byIndex ==> (i in Runs.WithName(l, name) <==> byIndex[i].name == name)
    ensures forall r :: r in Regions(NameIts(byName, name)) ==> r.index in byIndex && byIndex[r.index] == r
    ensures forall i :: i in byIndex ==> byIndex[i].index == i
  {
    var its := NameIts(byName, name);
    forall i | i in byIndex && byIndex[i].name == name
      ensures byIndex[i] in Regions(its)
    {
      assert (name, byIndex[i]) in its;
    }
  }

  /** The same by address. */
  lemma ListedLeave(byName: NameView, byAddr: AddrView, byIndex: IndexView, listed: IndexView,
          l: Runs.Ledger, addr: nat, its: AddrView, rest: IndexView)
    requires Consistent(byName, byAddr, byIndex, listed, l) && its == AddrIts(byAddr, addr)
    requires rest == byIndex - Indexes(Regions(its))
    ensures rest == map i | i in byIndex && byIndex[i].addr != addr :: byIndex[i]
  {
    AddrIndexes(byAddr, listed, l, addr);
  }

  lemma ListedRegions(byName: NameView, byAddr: AddrView, byIndex: IndexView, listed: IndexView,
          l: Runs.Ledger, addr: nat)
    requires Consistent(byName, byAddr, byIndex, listed, l)
    ensures forall i :: i in byIndex ==> (byIndex[i] in Regions(AddrIts(byAddr, addr)) <==> byIndex[i].addr == addr)
    ensures forall i :: i in byIndex ==> (i in Runs.ListedAt(l, addr) <==> byIndex[i].addr == addr)
  {
    var its := AddrIts(byAddr, addr);
    forall i | i in byIndex && byIndex[i].addr == addr
      ensures byIndex[i] in Regions(its)
    {
      assert (addr, byIndex[i]) in its;
    }
  }

  /** What enabling by name, or of all regions, returns: how many frozen regions of the name, or in all, have
      the flag different. */
  lemma EnableCounts(byName: NameView, byAddr: AddrView, byIndex: IndexView, listed: IndexView,
          l: Runs.Ledger, name: string, enable: bool, named: set<nat>, all: set<nat>)
    requires Consistent(byName, byAddr, byIndex, listed, l)
    requires forall i :: i in named <==> i in byIndex && byIndex[i].name == name && byIndex[i].enable != enable
    requires forall i :: i in all <==> i in byIndex && byIndex[i].enable != enable
    ensures |Others(Regions(NameIts(byName, name)), enable)| == |named|
    ensures |Others(byIndex.Values, enable)| == |all|
  {
    NamedRegions(byName, byAddr, byIndex, listed, l, name);
    CountFrozen(byIndex, Others(Regions(NameIts(byName, name)), enable), named);
    CountFrozen(byIndex, Others(byIndex.Values, enable), all);
  }

  /** Regions are as many as their indexes. */
  lemma CountFrozen(byIndex: IndexView, regions: set<FrozenRegion>, indexes: set<nat>)
    requires forall r :: r in regions ==> r.index in byIndex && byIndex[r.index] == r
    requires forall i :: i in byIndex ==> byIndex[i].index == i
    requires forall i :: i in indexes <==> i in byIndex && byIndex[i] in regions
    ensures |indexes| == |regions|
  {
    CountRegions(regions);
    assert indexes == Indexes(regions);
  }

  /** What the views of a freezer hold. The name view has exactly the frozen regions, each under its name;
      the address view has them all, each under its address, and nothing else unless some region listed there
      is no longer frozen. */
  lemma ViewsMeaning(byName: NameView, byAddr: AddrView, byIndex: IndexView, listed: IndexView,
          l: Runs.Ledger)
    requires Consistent(byName, byAddr, byIndex, listed, l)
    ensures forall i :: i in byIndex ==> i < l.next && byIndex[i].index == i
    ensures forall i :: i in byIndex ==> (byIndex[i].name, byIndex[i]) in byName
    ensures forall e :: e in byName ==> e.0 == e.1.name && e.1.index in byIndex && byIndex[e.1.index] == e.1
    ensures forall i :: i in byIndex ==> (byIndex[i].addr, byIndex[i]) in byAddr
    ensures forall e :: e in byAddr ==> e.0 == e.1.addr
    ensures (forall e :: e in byAddr ==> e.1.index in byIndex && byIndex[e.1.index] == e.1) <==> Runs.ViewsAgree(l)
    ensures forall i :: i in byIndex <==> i in l.live
    ensures forall i :: i in l.live ==>
      && l.live[i].name == byIndex[i].name && l.live[i].addr == byIndex[i].addr
      && l.live[i].data == byIndex[i].data && l.live[i].layout == byIndex[i].layout
  {
  }

  lemma TakeAddr(byName: NameView, byAddr: AddrView, byIndex: IndexView, listed: IndexView,
          l: Runs.Ledger, addr: nat, its: AddrView)
    requires Consistent(byName, byAddr, byIndex, listed, l) && its == AddrIts(byAddr, addr)
    ensures var gone := Indexes(Regions(its));
            && |its| == |Runs.ListedAt(l, addr)|
            && Consistent(Except(byName, Regions(its)), byAddr - its, byIndex - gone, listed - gone,
                          Runs.NextLedger(l, Runs.UnfreezeAddr(addr)))
  {
    AddrIndexes(byAddr, listed, l, addr);
    RemoveRegions(byName, byAddr, byIndex, listed, l, Regions(its));
  }

  lemma TakeIndex(byName: NameView, byAddr: AddrView, byIndex: IndexView, listed: IndexView,
          l: Runs.Ledger, index: nat)
    requires Consistent(byName, byAddr, byIndex, listed, l) && index in byIndex
    ensures var r := byIndex[index];
            && r.index == index
            && Consistent(EraseByValue(byName, r.name, r), EraseByValue(byAddr, r.addr, r),
                          byIndex - {index}, listed - {index},
                          Runs.Without(l, {index}))
  {
    RemoveOne(byName, byAddr, byIndex[index]);
    RemoveRegions(byName, byAddr, byIndex, listed, l, {byIndex[index]});
  }

  lemma WithoutIndex(byIndex: IndexView, l: Runs.Ledger, index: nat)
    requires EnablesMatch(byIndex, l.live)
    ensures EnablesMatch(byIndex - {index}, Runs.Without(l, {index}).live)
  {
  }

  lemma EnabledConsistent(byName: NameView, byAddr: AddrView, byIndex: IndexView, listed: IndexView,
          l: Runs.Ledger, which: set<nat>, enable: bool)
    requires Consistent(byName, byAddr, byIndex, listed, l)
    ensures Consistent(byName, byAddr, byIndex, listed, Runs.Enabled(l, which, enable))
  {
  }

  lemma EnabledAlready(l: Runs.Ledger, index: nat, enable: bool)
    requires index in l.live ==> l.live[index].enable == enable
    ensures Runs.Enabled(l, {index}, enable) == l
  {
    assert Runs.Enabled(l, {index}, enable).live == l.live;
  }

  /** The regions whose flag differs from the given one. */
  ghost function Others(regions: set<FrozenRegion>, enable: bool): set<FrozenRegion>
    reads regions
  {
    set r | r in regions && r.enable != enable
  }

  lemma {:induction false} CountRegions(regions: set<FrozenRegion>)
    requires forall r, r' :: r in regions && r' in regions && r.index == r'.index ==> r == r'
    ensures |Indexes(regions)| == |regions|
  {
    if regions == {} {
      assert Indexes(regions) == {};
    } else {
      var r :| r in regions;
      CountRegions(regions - {r});
      assert Indexes(regions) == Indexes(regions - {r}) + {r.index};
    }
  }

  /** The frozen regions at the address whose flag differs. */
  ghost function Changing(l: Runs.Ledger, addr: nat, enable: bool): set<nat> {
    set i | i in Runs.LiveAt(l, addr) && l.live[i].enable != enable
  }

  /** Enabling by address counts the entries of the address view that change. That is the number of frozen
      regions that change, exactly if no region unfrozen by `unfreeze_all` and still listed there changes. */
  lemma EnableAddrCountIff(byName: NameView, byAddr: AddrView, byIndex: IndexView,
          listed: IndexView, l: Runs.Ledger, addr: nat, enable: bool)
    requires Consistent(byName, byAddr, byIndex, listed, l) && EnablesMatch(byIndex, l.live)
    ensures |Others(Regions(AddrIts(byAddr, addr)), enable)| == |Changing(l, addr, enable)| <==>
      forall i :: i in Runs.ListedAt(l, addr) && i !in l.live ==> listed[i].enable == enable
  {
    var indexes := Indexes(Others(Regions(AddrIts(byAddr, addr)), enable));
    OthersCount(byAddr, listed, l, addr, enable);
    ChangingIndexes(byName, byAddr, byIndex, listed, l, addr, enable);
    SubsetCount(Changing(l, addr, enable), indexes);
  }

  lemma SubsetCount(small: set<nat>, big: set<nat>)
    requires forall i :: i in small ==> i in big
    ensures |big| == |small| <==> forall i :: i in big ==> i in small
  {
    assert |big| == |small| + |big - small| by {
      assert big == small + (big - small);
    }
    if i :| i in big && i !in small {
      assert i in big - small;
    } else {
      assert big - small == {};
    }
  }

  lemma OthersCount(byAddr: AddrView, listed: IndexView, l: Runs.Ledger, addr: nat, enable: bool)
    requires AddressesConsistent(byAddr, listed, l)
    ensures var others := Others(Regions(AddrIts(byAddr, addr)), enable);
            |Indexes(others)| == |others|
  {
    AddrIndexes(byAddr, listed, l, addr);
    CountRegions(Others(Regions(AddrIts(byAddr, addr)), enable));
  }

  lemma ChangingIndexes(byName: NameView, byAddr: AddrView, byIndex: IndexView, listed: IndexView,
          l: Runs.Ledger, addr: nat, enable: bool)
    requires Consistent(byName, byAddr, byIndex, listed, l) && EnablesMatch(byIndex, l.live)
    ensures var indexes := Indexes(Others(Regions(AddrIts(byAddr, addr)), enable));
            && (forall i :: i in indexes <==> i in Runs.ListedAt(l, addr) && i in listed && listed[i].enable != enable)
            && (forall i :: i in Changing(l, addr, enable) <==> i in indexes && i in l.live)
  {
    var its := AddrIts(byAddr, addr);
    AddrIndexes(byAddr, listed, l, addr);
    forall i | i in Runs.ListedAt(l, addr)
      ensures listed[i] in Regions(its)
    {
      assert i in Indexes(Regions(its));
    }
    forall i | i in l.live
      ensures i in byIndex && listed[i] == byIndex[i] && byIndex[i].enable == l.live[i].enable
      ensures i in Runs.LiveAt(l, addr) <==> i in Runs.ListedAt(l, addr)
    {
      assert i in byIndex;
    }
  }

  /** An enabled region frozen, unfrozen with all others, and counted when its address is disabled. */
  lemma StaleEnableExample(r: FrozenRegion)
    requires r.Valid() && r.index == 0 && r.enable
    ensures var byAddr, l := {(r.addr, r)}, Runs.NextLedger(Runs.Freeze(Runs.EMPTY, r.Value()), Runs.UnfreezeAll);
            && Consistent({}, byAddr, map[], map[0 := r], l)
            && |Others(Regions(AddrIts(byAddr, r.addr)), false)| == 1
            && |Changing(l, r.addr, false)| == 0
  {
    var its := AddrIts({(r.addr, r)}, r.addr);
    assert its == {(r.addr, r)};
    assert Regions(its) == {r};
    assert Others({r}, false) == {r};
  }

  lemma LedgerInvariant(byName: NameView, byAddr: AddrView, byIndex: IndexView, listed: IndexView,
          l: Runs.Ledger)
    requires Consistent(byName, byAddr, byIndex, listed, l)
    ensures Runs.LedgerInv(l)
    ensures forall i :: i in byIndex <==> i in l.live
    ensures forall i :: i in byIndex ==> byIndex[i].Valid() && Holds(byIndex[i], l.live[i])
  {
  }

  class RegionFreezer {
    var byName: NameView
    var byAddr: AddrView
    var byIndex: IndexView
    var nextIndex: nat

    ghost var view: Runs.Ledger
    ghost var listed: IndexView

    ghost predicate Valid()
      reads this, byIndex.Values
    {
      Consistent(byName, byAddr, byIndex, listed, view) && EnablesMatch(byIndex, view.live) && nextIndex == view.next
    }

    constructor ()
      ensures Valid() && view == Runs.EMPTY
    {
      byName, byAddr, byIndex, nextIndex := {}, {}, map[], 0;
      view, listed := Runs.EMPTY, map[];
    }

    /** Freezing a region, plain or array, enters a new object into all three views. */
    method FreezeRegion(name: string, addr: nat, data: seq<byte>, layout: Option<ArrayInfo>, enable: bool)
      requires Valid() && ValidFrozen(Frozen(name, addr, data, layout, enable))
      modifies this
      ensures Valid()
      ensures view == Runs.NextLedger(old(view), Runs.FreezeEvent(Frozen(name, addr, data, layout, enable)))
      ensures nextIndex == old(nextIndex) + 1 && old(nextIndex) !in old(byIndex)
      ensures old(nextIndex) in byIndex && byIndex == old(byIndex)[old(nextIndex) := byIndex[old(nextIndex)]]
      ensures byIndex[old(nextIndex)].Value() == Frozen(name, addr, data, layout, enable)
    {
      var rgn := new FrozenRegion(name, nextIndex, addr, data, layout, enable);
      nextIndex := nextIndex + 1;
      AddRegion(rgn, Frozen(name, addr, data, layout, enable));
    }

    /** Enters a region that has just been given the next index. */
    method AddRegion(rgn: FrozenRegion, ghost v: Frozen)
      requires Consistent(byName, byAddr, byIndex, listed, view) && EnablesMatch(byIndex, view.live)
      requires rgn.Valid() && rgn.Value() == v && rgn.index == view.next && nextIndex == view.next + 1
      modifies this
      ensures Valid() && view == Runs.Freeze(old(view), v)
      ensures nextIndex == old(nextIndex) && byIndex == old(byIndex)[rgn.index := rgn]
    {
      view, listed := Runs.Freeze(view, v), listed[rgn.index := rgn];
      Emplace(rgn);
      Enter(old(byName), old(byAddr), old(byIndex), old(listed), old(view), rgn, v, byName, byAddr, byIndex);
    }

    method Emplace(rgn: FrozenRegion)
      modifies this`byName, this`byAddr, this`byIndex
      ensures byName == old(byName) + {(rgn.name, rgn)}
      ensures byAddr == old(byAddr) + {(rgn.addr, rgn)}
      ensures byIndex == old(byIndex)[rgn.index := rgn]
    {
      byName := byName + {(rgn.name, rgn)};
      byAddr := byAddr + {(rgn.addr, rgn)};
      byIndex := byIndex[rgn.index := rgn];
    }

    /** Unfreezes every region with the given name and returns how many there were. */
    method UnfreezeName(name: string) returns (count: nat)
      requires Valid()
      modifies this
      ensures Valid() && view == Runs.NextLedger(old(view), Runs.UnfreezeName(name))
      ensures byIndex == map i | i in old(byIndex) && old(byIndex)[i].name != name :: old(byIndex)[i]
      ensures count == |old(byIndex).Keys - byIndex.Keys|
    {
      var its := NameIts(byName, name);
      ghost var after := Runs.NextLedger(view, Runs.UnfreezeName(name));
      NamedLeave(byName, byAddr, byIndex, listed, view, name, its, byIndex - Indexes(Regions(its)));
      TakeName(byName, byAddr, byIndex, listed, view, name, its);
      count := EraseEntries(its, after);
    }

    /** Takes the given entries out of all views. */
    method EraseEntries(its: NameView, ghost after: Runs.Ledger) returns (count: nat)
      requires forall e :: e in byAddr ==> e.0 == e.1.addr
      requires var gone := Indexes(Regions(its));
               && Consistent(byName - its, Except(byAddr, Regions(its)), byIndex - gone, listed - gone, after)
               && EnablesMatch(byIndex - gone, after.live) && nextIndex == after.next
      modifies this
      ensures byIndex == old(byIndex) - Indexes(Regions(its)) && count == |its|
      ensures Valid() && view == after
    {
      count := EraseAddresses(its);
      byName := byName - its;
      view, listed := after, listed - Indexes(Regions(its));
    }

    /** The loop of unfreezing by name: takes the given entries' regions out of the other two views. */
    method EraseAddresses(its: NameView) returns (count: nat)
      requires forall e :: e in byAddr ==> e.0 == e.1.addr
      modifies this`byAddr, this`byIndex
      ensures byAddr == Except(old(byAddr), Regions(its)) && byIndex == old(byIndex) - Indexes(Regions(its))
      ensures count == |its|
    {
      var todo := its;
      ghost var done: set<FrozenRegion> := {};
      count := 0;
      while todo != {}
        invariant todo <= its && count == |its| - |todo|
        invariant Regions(its) == done + Regions(todo)
        invariant byAddr == Except(old(byAddr), done) && byIndex == old(byIndex) - Indexes(done)
      {
        var e :| e in todo;
        EraseStep(old(byAddr), done, e.1.addr, e.1);
        IndexStep(old(byIndex), done, e.1);
        byAddr := EraseByValue(byAddr, e.1.addr, e.1);
        byIndex := byIndex - {e.1.index};
        count := count + 1;
        todo := todo - {e};
        done := done + {e.1};
      }
      assert done == Regions(its);
    }

    /** Unfreezes every region listed at the address and returns how many were listed. */
    method UnfreezeAddr(addr: nat) returns (count: nat)
      requires Valid()
      modifies this
      ensures Valid() && view == Runs.NextLedger(old(view), Runs.UnfreezeAddr(addr))
      ensures byIndex == map i | i in old(byIndex) && old(byIndex)[i].addr != addr :: old(byIndex)[i]
      ensures count == |Runs.ListedAt(old(view), addr)| == |set e | e in old(byAddr) && e.0 == addr|
    {
      var its := AddrIts(byAddr, addr);
      ghost var after := Runs.NextLedger(view, Runs.UnfreezeAddr(addr));
      ListedLeave(byName, byAddr, byIndex, listed, view, addr, its, byIndex - Indexes(Regions(its)));
      TakeAddr(byName, byAddr, byIndex, listed, view, addr, its);
      count := EraseListed(its, after);
    }

    /** Takes the given entries out of all views. */
    method EraseListed(its: AddrView, ghost after: Runs.Ledger) returns (count: nat)
      requires forall e :: e in byName ==> e.0 == e.1.name
      requires var gone := Indexes(Regions(its));
               && Consistent(Except(byName, Regions(its)), byAddr - its, byIndex - gone, listed - gone, after)
               && EnablesMatch(byIndex - gone, after.live) && nextIndex == after.next
      modifies this
      ensures byIndex == old(byIndex) - Indexes(Regions(its)) && count == |its|
      ensures Valid() && view == after
    {
      count := EraseNames(its);
      byAddr := byAddr - its;
      view, listed := after, listed - Indexes(Regions(its));
    }

    /** The loop of unfreezing by address. */
    method EraseNames(its: AddrView) returns (count: nat)
      requires forall e :: e in byName ==> e.0 == e.1.name
      modifies this`byName, this`byIndex
      ensures byName == Except(old(byName), Regions(its)) && byIndex == old(byIndex) - Indexes(Regions(its))
      ensures count == |its|
    {
      var todo := its;
      ghost var done: set<FrozenRegion> := {};
      count := 0;
      while todo != {}
        invariant todo <= its && count == |its| - |todo|
        invariant Regions(its) == done + Regions(todo)
        invariant byName == Except(old(byName), done) && byIndex == old(byIndex) - Indexes(done)
      {
        var e :| e in todo;
        EraseStep(old(byName), done, e.1.name, e.1);
        IndexStep(old(byIndex), done, e.1);
        byName := EraseByValue(byName, e.1.name, e.1);
        byIndex := byIndex - {e.1.index};
        count := count + 1;
        todo := todo - {e};
        done := done + {e.1};
      }
      assert done == Regions(its);
    }

    method UnfreezeIndex(index: nat) returns (found: bool)
      requires Valid()
      modifies this
      ensures Valid() && view == Runs.NextLedger(old(view), Runs.UnfreezeIndex(index))
      ensures found == (index in old(byIndex)) && byIndex == old(byIndex) - {index}
    {
      found := index in byIndex;
      if found {
        EraseIndex(index);
      }
    }

    method EraseIndex(index: nat)
      requires Valid() && index in byIndex
      modifies this
      ensures Valid() && view == Runs.Without(old(view), {index}) && byIndex == old(byIndex) - {index}
    {
      var r := byIndex[index];
      TakeIndex(byName, byAddr, byIndex, listed, view, index);
      WithoutIndex(byIndex, view, index);
      view, listed := Runs.Without(view, {index}), listed - {index};
      EraseRegion(r);
      assert EnablesMatch(byIndex, view.live);
    }

    method EraseRegion(r: FrozenRegion)
      modifies this`byName, this`byAddr, this`byIndex
      ensures byName == EraseByValue(old(byName), r.name, r)
      ensures byAddr == EraseByValue(old(byAddr), r.addr, r)
      ensures byIndex == old(byIndex) - {r.index}
    {
      byName := EraseByValue(byName, r.name, r);
      byAddr := EraseByValue(byAddr, r.addr, r);
      byIndex := byIndex - {r.index};
    }

    /** Empties the name view (twice) and the index view; the address view keeps its entries. */
    method UnfreezeAll() returns (count: nat)
      requires Valid()
      modifies this
      ensures Valid() && view == Runs.NextLedger(old(view), Runs.UnfreezeAll)
      ensures count == |old(byIndex)| && byName == {} && byIndex == map[] && byAddr == old(byAddr)
    {
      count := |byIndex|;
      assert byIndex.Keys == view.live.Keys;
      byName := {};
      byName := {};
      byIndex := map[];
      view := Runs.WithoutAll(view);
    }

    /** Sets the flag of every given region and counts those that had it different. */
    method Toggle(regions: set<FrozenRegion>, enable: bool) returns (count: nat)
      modifies regions`enable
      ensures forall r :: r in regions ==> r.enable == enable
      ensures count == |old(Others(regions, enable))|
    {
      var todo := regions;
      ghost var left := Others(regions, enable);
      count := 0;
      while todo != {}
        invariant todo <= regions && count + |left| == |old(Others(regions, enable))|
        invariant forall r :: r in regions && r !in todo ==> r.enable == enable
        invariant forall r :: r in left <==> r in todo && r.enable != enable
      {
        var r :| r in todo;
        todo := todo - {r};
        if r.enable != enable {
          r.enable := enable;
          count := count + 1;
          left := left - {r};
        }
      }
      assert left == {};
    }

    /** Toggles the regions with the given indexes. */
    method SetEnabled(regions: set<FrozenRegion>, ghost which: set<nat>, enable: bool) returns (count: nat)
      requires Valid() && forall i :: i in byIndex ==> (i in which <==> byIndex[i] in regions)
      modifies this`view, regions`enable
      ensures Valid() && view == Runs.Enabled(old(view), which, enable)
      ensures forall r :: r in regions ==> r.enable == enable
      ensures count == |old(Others(regions, enable))|
    {
      EnabledConsistent(byName, byAddr, byIndex, listed, view, which, enable);
      count := Toggle(regions, enable);
      view := Runs.Enabled(view, which, enable);
    }

    /** Enables or disables every region with the given name and returns how many changed. */
    method EnableName(name: string, enable: bool) returns (count: nat)
      requires Valid()
      modifies this`view, Regions(NameIts(byName, name))`enable
      ensures Valid() && view == Runs.NextLedger(old(view), Runs.EnableName(name, enable))
      ensures forall i :: i in byIndex ==>
        byIndex[i].enable == if byIndex[i].name == name then enable else old(byIndex[i].enable)
      ensures count == |old(Others(Regions(NameIts(byName, name)), enable))|
    {
      var its := NameIts(byName, name);
      NamedRegions(byName, byAddr, byIndex, listed, view, name);
      count := SetEnabled(Regions(its), Runs.WithName(view, name), enable);
    }

    /** Enables or disables every region listed at the address and returns how many changed. */
    method EnableAddr(addr: nat, enable: bool) returns (count: nat)
      requires Valid()
      modifies this`view, Regions(AddrIts(byAddr, addr))`enable
      ensures Valid() && view == Runs.NextLedger(old(view), Runs.EnableAddr(addr, enable))
      ensures forall i :: i in byIndex ==>
        byIndex[i].enable == if byIndex[i].addr == addr then enable else old(byIndex[i].enable)
      ensures count == |old(Others(Regions(AddrIts(byAddr, addr)), enable))|
    {
      var its := AddrIts(byAddr, addr);
      ListedRegions(byName, byAddr, byIndex, listed, view, addr);
      count := SetEnabled(Regions(its), Runs.ListedAt(view, addr), enable);
    }

    /** Enables or disables one region and tells whether that changed it. */
    method EnableIndex(index: nat, enable: bool) returns (changed: bool)
      requires Valid()
      modifies this`view, byIndex.Values`enable
      ensures Valid() && view == Runs.NextLedger(old(view), Runs.EnableIndex(index, enable))
      ensures forall i :: i in byIndex ==> byIndex[i].enable == if i == index then enable else old(byIndex[i].enable)
      ensures changed == (index in byIndex && old(byIndex[index].enable) != enable)
    {
      ghost var after := Runs.Enabled(view, {index}, enable);
      if index !in byIndex || byIndex[index].enable == enable {
        EnabledAlready(view, index, enable);
        return false;
      }
      var count := SetEnabled({byIndex[index]}, {index}, enable);
      assert view == after;
      return true;
    }

    method EnableAll(enable: bool) returns (count: nat)
      requires Valid()
      modifies this`view, byIndex.Values`enable
      ensures Valid() && view == Runs.NextLedger(old(view), Runs.EnableAll(enable))
      ensures forall i :: i in byIndex ==> byIndex[i].enable == enable
      ensures count == |old(Others(byIndex.Values, enable))|
    {
      count := SetEnabled(byIndex.Values, view.live.Keys, enable);
    }

    /** One pass of the writer thread, which holds the lock throughout: writes the enabled regions in
        ascending order of index. */
    method RunPass(target: Target)
      requires Valid()
      modifies byIndex.Values`error, target
      ensures Valid() && Runs.LedgerInv(view)
      ensures view == old(view) && target.mem == Runs.Pass(view.live, nextIndex, old(target.mem))
      ensures forall i :: i in byIndex <==> i in view.live
      ensures forall i :: i in byIndex ==> view.live[i] == old(byIndex[i].Value())
    {
      LedgerInvariant(byName, byAddr, byIndex, listed, view);
      WritePass(byIndex, view.live, nextIndex, target);
    }

    /** The loop of a pass. */
    method WritePass(regions: IndexView, ghost live: map<nat, Frozen>, n: nat, target: Target)
      requires EnablesMatch(regions, live)
      requires forall i :: i in regions <==> i in live
      requires forall i :: i in regions ==> regions[i].Valid() && Holds(regions[i], live[i]) && ValidFrozen(live[i])
      modifies regions.Values`error, target
      ensures target.mem == Runs.Pass(live, n, old(target.mem))
    {
      var i := 0;
      while i < n
        invariant i <= n && EnablesMatch(regions, live)
        invariant target.mem == Runs.Pass(live, i, old(target.mem))
      {
        if i in regions && regions[i].enable {
          assert regions[i].Value() == live[i];
          regions[i].Write(target);
        }
        i := i + 1;
      }
    }
  }
}
