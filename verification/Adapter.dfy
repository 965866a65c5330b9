/** Listing the regions of the target process. The process is represented by its memory map, in which
    `data` is what reading the region yields (nothing if it cannot be read). */
module Adapter {
  import opened Memory

  /** The operating system's answer to a region query: the first region that ends after `addr`. */
  function RegionAfter(os: seq<Region>, addr: nat): (r: Option<Region>)
    ensures r.Some? ==> r.value in os && addr < r.value.End()
  {
    if os == [] then None
    else if addr < os[0].End() then Some(os[0])
    else RegionAfter(os[1..], addr)
  }

  lemma {:induction false} RegionAfterAt(os: seq<Region>, k: nat, addr: nat)
    requires k <= |os|
    requires forall i :: 0 <= i < k ==> os[i].End() <= addr
    requires k < |os| ==> addr < os[k].End()
    ensures RegionAfter(os, addr) == if k < |os| then Some(os[k]) else None
  {
    if k > 0 {
      RegionAfterAt(os[1..], k - 1, addr);
    }
  }

  function Unread(r: Region): Region {
    r.(data := [])
  }

  method GetRegion(os: seq<Region>, addr: nat, readData: bool) returns (r: Option<Region>)
    ensures r == match RegionAfter(os, addr)
                 case Some(found) => Some(if readData then found else Unread(found))
                 case None => None
    ensures r.Some? && !readData ==>
      && r.value.data == []
      && exists o :: o in os && addr < o.addr + o.size
                     && r.value.addr == o.addr && r.value.size == o.size && r.value.protection == o.protection
  {
    r := RegionAfter(os, addr);
    if r.Some? && !readData {
      r := Some(Unread(r.value));
    }
  }

  /** The end of the `k`th region is below every later region, so a query there finds the next one. */
  lemma NextRegion(os: seq<Region>, k: nat, addr: nat)
    requires ValidMap(os) && k <= |os| && addr == EndBefore(os, k)
    ensures RegionAfter(os, addr) == if k < |os| then Some(os[k]) else None
  {
    forall i | 0 <= i < k
      ensures os[i].End() <= addr
    {
      assert i < k - 1 ==> os[i].End() <= os[k - 1].addr;
    }
    if k < |os| {
      assert WellFormed(os[k]);
      assert k > 0 ==> os[k - 1].End() <= os[k].addr;
    }
    RegionAfterAt(os, k, addr);
  }

  lemma ReadNext(os: seq<Region>, k: nat)
    requires ValidMap(os) && k < |os|
    ensures RegionAfter(os, os[k].addr) == Some(os[k])
  {
    assert WellFormed(os[k]);
    RegionAfterAt(os, k, os[k].addr);
  }

  /** Walks the address space from 0. Every region is listed exactly once, in ascending order. */
  method GetAllRegions(os: seq<Region>, readData: bool) returns (ret: seq<Region>)
    requires ValidMap(os)
    ensures |ret| == |os|
    ensures forall i :: 0 <= i < |os| ==> ret[i] == if readData then os[i] else Unread(os[i])
    ensures !readData ==>
      forall i :: 0 <= i < |os| ==>
        && ret[i].data == [] && ret[i].addr == os[i].addr && ret[i].size == os[i].size
        && ret[i].protection == os[i].protection
  {
    ret := [];
    var addr := 0;
    while true
      invariant |ret| <= |os| && addr == EndBefore(os, |ret|)
      invariant forall i :: 0 <= i < |ret| ==> ret[i] == if readData then os[i] else Unread(os[i])
      decreases WORD - addr
    {
      NextRegion(os, |ret|, addr);
      var r := GetRegion(os, addr, readData);
      if r.None? {
        break;
      }
      assert WellFormed(os[|ret|]);
      ret := ret + [r.value];
      addr := r.value.End();
    }
  }

  ghost predicate Touches(r: Region, targets: seq<nat>) {
    exists t :: t in targets && r.Contains(t)
  }

  /** The regions of `os` that contain at least one target, in order. */
  ghost function Touched(os: seq<Region>, targets: seq<nat>): (r: seq<Region>)
    ensures forall x :: x in r <==> x in os && Touches(x, targets)
  {
    if os == [] then []
    else
      var n := |os| - 1;
      assert os == os[..n] + [os[n]];
      Touched(os[..n], targets) + (if Touches(os[n], targets) then [os[n]] else [])
  }

  /** The first region that starts after `a`. */
  function StartsAfter(os: seq<Region>, a: nat): (r: Option<Region>)
    ensures r.Some? ==> r.value in os && a < r.value.addr
  {
    if os == [] then None
    else if a < os[0].addr then Some(os[0])
    else StartsAfter(os[1..], a)
  }

  lemma {:induction false} StartsAfterAt(os: seq<Region>, k: nat, a: nat)
    requires k <= |os|
    requires forall i :: 0 <= i < k ==> os[i].addr <= a
    requires k < |os| ==> a < os[k].addr
    ensures StartsAfter(os, a) == if k < |os| then Some(os[k]) else None
  {
    if k > 0 {
      StartsAfterAt(os[1..], k - 1, a);
    }
  }

  /** After the last target the code still looks at one more region, and compares its end with the
      word `beyond` that lies past the end of the target list. This is the region it then adds, if any. */
  ghost function Overrun(os: seq<Region>, targets: seq<nat>, beyond: nat): seq<Region> {
    if targets == [] then []
    else
      var r := StartsAfter(os, targets[|targets| - 1]);
      if r.Some? && beyond < r.value.End() then [r.value] else []
  }

  /** What has been listed once `k` regions have been visited and the target cursor stands at `it`. */
  ghost predicate Listed(os: seq<Region>, targets: seq<nat>, beyond: nat, k: nat, it: nat, ret: seq<Region>) {
    && k <= |os| && it <= |targets|
    && (forall j :: 0 <= j < it ==> targets[j] < EndBefore(os, k))
    && (it < |targets| && k > 0 ==> os[k - 1].addr <= targets[it])
    && ret == if it < |targets| then Touched(os[..k], targets) else Touched(os, targets) + Overrun(os, targets, beyond)
  }

  method GetTargetRegions(os: seq<Region>, targets: seq<nat>, beyond: nat) returns (ret: seq<Region>)
    requires ValidMap(os) && Ascending(targets)
    ensures ret == Touched(os, targets) + Overrun(os, targets, beyond)
  {
    var it := 0;
    ret := [];
    var addr := 0;
    ghost var k := 0;
    ListStart(os, targets, beyond);
    while it != |targets|
      invariant Listed(os, targets, beyond, k, it, ret) && addr == EndBefore(os, k)
      decreases |os| - k
    {
      NextRegion(os, k, addr);
      var r := GetRegion(os, addr, false);
      if r.None? {
        ListEnd(os, targets, beyond, it, ret);
        break;
      }
      addr := r.value.End();
      ghost var before, first := ret, it;
      it := SkipBelow(targets, it, r.value.addr);
      var next := if it != |targets| then targets[it] else beyond;
      if next < r.value.End() {
        ReadNext(os, k);
        var read := GetRegion(os, r.value.addr, true);
        ret := ret + [read.value];
      }
      ListNext(os, targets, beyond, k, first, it, before, ret);
      k := k + 1;
    }
  }

  lemma ListStart(os: seq<Region>, targets: seq<nat>, beyond: nat)
    requires ValidMap(os)
    ensures Listed(os, targets, beyond, 0, 0, [])
  {
    if targets == [] {
      UntouchedTail(os, 0, |os|, targets);
      assert os[..|os|] == os;
    }
  }

  lemma ListEnd(os: seq<Region>, targets: seq<nat>, beyond: nat, it: nat, ret: seq<Region>)
    requires ValidMap(os) && Ascending(targets) && it < |targets|
    requires Listed(os, targets, beyond, |os|, it, ret)
    ensures ret == Touched(os, targets) + Overrun(os, targets, beyond)
  {
    assert os[..|os|] == os;
    LastStart(os, targets, it);
  }

  lemma ListNext(os: seq<Region>, targets: seq<nat>, beyond: nat, k: nat, first: nat, it: nat,
          before: seq<Region>, ret: seq<Region>)
    requires ValidMap(os) && Ascending(targets) && k < |os| && first < |targets|
    requires Listed(os, targets, beyond, k, first, before)
    requires first <= it <= |targets|
    requires forall j :: first <= j < it ==> targets[j] < os[k].addr
    requires it < |targets| ==> os[k].addr <= targets[it]
    requires ret == before + (if (if it < |targets| then targets[it] else beyond) < os[k].End() then [os[k]] else [])
    ensures Listed(os, targets, beyond, k + 1, it, ret)
  {
    NextStart(os, k);
    TouchedNext(os, k, targets, it);
    if it == |targets| {
      ListDone(os, targets, beyond, k, first);
    }
  }

  /** When region `k` is past every target, it is the one that the last comparison may add. */
  lemma ListDone(os: seq<Region>, targets: seq<nat>, beyond: nat, k: nat, first: nat)
    requires ValidMap(os) && Ascending(targets) && k < |os| && first < |targets|
    requires k > 0 ==> os[k - 1].addr <= targets[first]
    requires forall j :: 0 <= j < |targets| ==> targets[j] < os[k].addr
    ensures Touched(os, targets) == Touched(os[..k], targets)
    ensures Overrun(os, targets, beyond) == if beyond < os[k].End() then [os[k]] else []
  {
    LastIsGreatest(targets, targets[first]);
    TouchedDone(os, k, targets);
  }

  lemma NextStart(os: seq<Region>, k: nat)
    requires ValidMap(os) && k < |os|
    ensures k > 0 ==> os[k - 1].addr < os[k - 1].End() <= os[k].addr
    ensures os[k].addr < os[k].End()
  {
    assert WellFormed(os[k]);
    if k > 0 {
      assert WellFormed(os[k - 1]);
    }
  }

  /** Advances to the first target that is not before `start`. */
  method SkipBelow(targets: seq<nat>, first: nat, start: nat) returns (it: nat)
    requires first <= |targets|
    ensures first <= it <= |targets|
    ensures forall j :: first <= j < it ==> targets[j] < start
    ensures it < |targets| ==> start <= targets[it]
    ensures it > first ==> targets[it - 1] < start
  {
    it := first;
    while it != |targets| && targets[it] < start
      invariant first <= it <= |targets|
      invariant forall j :: first <= j < it ==> targets[j] < start
    {
      it := it + 1;
    }
  }

  /** The next region is touched exactly if the first target not below it lies in it. */
  lemma {:induction false} TouchedNext(os: seq<Region>, k: nat, targets: seq<nat>, it: nat)
    requires ValidMap(os) && Ascending(targets) && k < |os| && it <= |targets|
    requires forall j :: 0 <= j < it ==> targets[j] < os[k].addr
    requires it < |targets| ==> os[k].addr <= targets[it]
    ensures Touched(os[..k + 1], targets)
         == Touched(os[..k], targets) + (if it < |targets| && targets[it] < os[k].End() then [os[k]] else [])
  {
    assert os[..k + 1][..k] == os[..k];
    TouchesFirst(os[k], targets, it);
  }

  lemma TouchesFirst(r: Region, targets: seq<nat>, it: nat)
    requires Ascending(targets) && it <= |targets|
    requires forall j :: 0 <= j < it ==> targets[j] < r.addr
    requires it < |targets| ==> r.addr <= targets[it]
    ensures Touches(r, targets) <==> it < |targets| && targets[it] < r.End()
  {
    if it < |targets| && targets[it] < r.End() {
      assert targets[it] in targets && r.Contains(targets[it]);
    }
    if t :| t in targets && r.Contains(t) {
      var j :| 0 <= j < |targets| && targets[j] == t;
      assert it <= j;
    }
  }

  /** Once every target lies below region `k`, it is the first region past the last target, and no
      region from there on is touched. */
  lemma TouchedDone(os: seq<Region>, k: nat, targets: seq<nat>)
    requires ValidMap(os) && Ascending(targets) && k < |os| && targets != []
    requires forall j :: 0 <= j < |targets| ==> targets[j] < os[k].addr
    requires k > 0 ==> os[k - 1].addr <= targets[|targets| - 1]
    ensures Touched(os, targets) == Touched(os[..k], targets)
    ensures StartsAfter(os, targets[|targets| - 1]) == Some(os[k])
  {
    forall i | 0 <= i < k
      ensures os[i].addr <= targets[|targets| - 1]
    {
      assert i < k - 1 ==> os[i].End() <= os[k - 1].addr;
    }
    StartsAfterAt(os, k, targets[|targets| - 1]);
    UntouchedTail(os, k, |os|, targets);
    assert os[..|os|] == os;
  }

  lemma {:induction false} UntouchedTail(os: seq<Region>, k: nat, n: nat, targets: seq<nat>)
    requires ValidMap(os) && k <= n <= |os|
    requires k < |os| ==> forall t :: t in targets ==> t < os[k].addr
    ensures Touched(os[..n], targets) == Touched(os[..k], targets)
  {
    if k < n {
      UntouchedTail(os, k, n - 1, targets);
      TouchedLast(os, n, targets);
      Later(os, k, n - 1);
    }
  }

  lemma Later(os: seq<Region>, k: nat, n: nat)
    requires ValidMap(os) && k <= n < |os|
    ensures os[k].addr <= os[n].addr
  {
    if k < n {
      assert os[k].End() <= os[n].addr;
    }
  }

  lemma TouchedLast(os: seq<Region>, n: nat, targets: seq<nat>)
    requires 0 < n <= |os|
    ensures Touched(os[..n], targets)
         == Touched(os[..n - 1], targets) + (if Touches(os[n - 1], targets) then [os[n - 1]] else [])
  {
    assert os[..n][..n - 1] == os[..n - 1];
  }

  lemma LastStart(os: seq<Region>, targets: seq<nat>, it: nat)
    requires ValidMap(os) && Ascending(targets) && it < |targets|
    requires os != [] ==> os[|os| - 1].addr <= targets[it]
    ensures StartsAfter(os, targets[|targets| - 1]).None?
  {
    forall i | 0 <= i < |os|
      ensures os[i].addr <= targets[|targets| - 1]
    {
      assert i < |os| - 1 ==> os[i].End() <= os[|os| - 1].addr;
      assert it < |targets| - 1 ==> targets[it] < targets[|targets| - 1];
    }
    StartsAfterAt(os, |os|, targets[|targets| - 1]);
  }

  /** `n` is part of the map `os`, with every region that holds one of the targets. */
  ghost predicate Narrowed(n: seq<Region>, os: seq<Region>, targets: seq<nat>) {
    && ValidMap(n)
    && (forall r :: r in n ==> r in os)
    && (forall r :: r in os && Touches(r, targets) ==> r in n)
  }

  /** Whatever lies past the end of the target list, the listing is a valid part of the map and misses
      no region that holds a target. */
  lemma TargetRegionsSuffice(os: seq<Region>, targets: seq<nat>, beyond: nat)
    requires ValidMap(os) && Ascending(targets)
    ensures Narrowed(Touched(os, targets) + Overrun(os, targets, beyond), os, targets)
  {
    var front, extra := Touched(os, targets), Overrun(os, targets, beyond);
    TouchedValid(os, targets);
    if extra != [] {
      forall i | 0 <= i < |front|
        ensures front[i].End() <= extra[0].addr
      {
        assert front[i] in front;
        var t :| t in targets && front[i].Contains(t);
        LastIsGreatest(targets, t);
        var j :| 0 <= j < |os| && os[j] == front[i];
        var k :| 0 <= k < |os| && os[k] == extra[0];
        RegionOrder(os, j, k);
      }
    }
  }

  lemma RegionOrder(os: seq<Region>, j: nat, k: nat)
    requires ValidMap(os) && j < |os| && k < |os| && os[j].addr < os[k].addr
    ensures os[j].End() <= os[k].addr
  {
  }

  lemma LastIsGreatest(s: seq<nat>, a: nat)
    requires Ascending(s) && a in s
    ensures a <= s[|s| - 1]
  {
  }

  lemma {:induction false} TouchedValid(os: seq<Region>, targets: seq<nat>)
    requires ValidMap(os)
    ensures ValidMap(Touched(os, targets))
  {
    if os != [] {
      var n := |os| - 1;
      TouchedValid(os[..n], targets);
      var front := Touched(os[..n], targets);
      forall i | 0 <= i < |front|
        ensures front[i].End() <= os[n].addr
      {
        assert front[i] in front;
        var j :| 0 <= j < n && os[j] == front[i];
      }
    }
  }

  /** The listing is exactly the touched regions unless a region starts after the last target and the
      word read past the end of the list happens to be below that region's end. */
  lemma TargetRegionsExactIff(os: seq<Region>, targets: seq<nat>, beyond: nat)
    requires ValidMap(os) && Ascending(targets)
    ensures Touched(os, targets) + Overrun(os, targets, beyond) == Touched(os, targets)
       <==> (targets == []
             || StartsAfter(os, targets[|targets| - 1]).None?
             || StartsAfter(os, targets[|targets| - 1]).value.End() <= beyond)
  {
    assert |Touched(os, targets) + Overrun(os, targets, beyond)|
       == |Touched(os, targets)| + |Overrun(os, targets, beyond)|;
  }

  /** One result in the first of two regions: if the word past the end of the target list is 0, the second
      region is listed as well. */
  lemma OverrunExample()
    ensures var os := [Region(8, 8, 3, []), Region(16, 8, 3, [])];
            && ValidMap(os)
            && Touched(os, [8]) == [os[0]]
            && Touched(os, [8]) + Overrun(os, [8], 0) == os
  {
    var os := [Region(8, 8, 3, []), Region(16, 8, 3, [])];
    assert 8 in [8] && os[0].Contains(8);
    assert Touches(os[0], [8]) && !Touches(os[1], [8]);
    assert os[..1] == [os[0]] && os[..1][..0] == [];
    assert Touched([], [8]) == [];
    assert Touched(os[..1], [8]) == [os[0]];
    StartsAfterAt(os, 1, 8);
  }
}
