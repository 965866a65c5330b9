/** The parallel `find`: worker threads claim regions by an atomic exchange and scan them, while a
    shared counter tells the waiting thread how much has been scanned. */
module Find {
  import opened Memory

  /** What all threads share read-only: the regions in the order chosen for load balancing, and the
      string to find with its mask (a zero mask byte matches anything). */
  datatype Task = Task(regions: seq<Region>, data: seq<byte>, mask: seq<byte>) {
    predicate Masked() {
      |data| == |mask|
    }

    /** The number of offsets at which region `x` is compared. */
    function Limit(x: nat): nat
      requires x < |regions|
    {
      if regions[x].HasData() && |data| <= regions[x].size then regions[x].size - |data| + 1 else 0
    }
  }

  predicate Disjoint(r: Region, q: Region) {
    r.End() <= q.addr || q.End() <= r.addr
  }

  predicate ValidTask(k: Task) {
    && k.Masked() && 1 <= |k.data|
    && (forall x :: 0 <= x < |k.regions| ==> WellFormed(k.regions[x]))
    && (forall x :: 0 <= x < |k.regions| && k.regions[x].HasData() ==> |k.data| <= k.regions[x].size)
    && (forall x, y :: 0 <= x < y < |k.regions| ==> Disjoint(k.regions[x], k.regions[y]))
  }

  predicate MatchesAt(contents: seq<byte>, y: nat, data: seq<byte>, mask: seq<byte>)
    requires |data| == |mask| && y + |data| <= |contents|
  {
    forall z :: 0 <= z < |data| && mask[z] != 0 ==> contents[y + z] == data[z]
  }

  /** A worker stands at region `next` of its loop; while it scans that region it has dealt with the
      first `offset` offsets. It collects the addresses it finds, with the region's protection. */
  datatype Worker = Worker(next: nat, scanning: bool, offset: nat, found: seq<(nat, nat)>)

  /** The shared state. `owner` (who claimed a region) and `scanned` (how many of its offsets have been
      compared) record history for the proofs; no step depends on them. */
  datatype State = State(claimed: seq<bool>, searched: nat, workers: seq<Worker>, owner: seq<Option<nat>>,
          scanned: seq<nat>)

  const PAGE := 0x1000

  function Init(k: Task, threads: nat): State {
    var n := |k.regions|;
    State(seq(n, _ => false), 0, seq(threads, _ => Worker(0, false, 0, [])), seq(n, _ => None), seq(n, _ => 0))
  }

  predicate Shaped(k: Task, s: State) {
    && |s.claimed| == |s.owner| == |s.scanned| == |k.regions|
    && forall t :: 0 <= t < |s.workers| ==>
         s.workers[t].next <= |k.regions| && (s.workers[t].scanning ==> s.workers[t].next < |k.regions|)
  }

  predicate Done(k: Task, s: State, t: nat)
    requires t < |s.workers|
  {
    !s.workers[t].scanning && |k.regions| <= s.workers[t].next
  }

  predicate AllDone(k: Task, s: State) {
    forall t :: 0 <= t < |s.workers| ==> Done(k, s, t)
  }

  /** Passing over a region that another thread has claimed. */
  function Skip(k: Task, s: State, t: nat): State
    requires Shaped(k, s) && t < |s.workers|
  {
    var w := s.workers[t];
    s.(workers := s.workers[t := w.(next := w.next + 1)])
  }

  /** Winning the exchange on a claim flag; a region without data is then left at once. */
  function Claim(k: Task, s: State, t: nat): State
    requires Shaped(k, s) && t < |s.workers| && s.workers[t].next < |k.regions|
  {
    var w := s.workers[t];
    var w' := if k.regions[w.next].HasData() then w.(scanning := true, offset := 0) else w.(next := w.next + 1);
    s.(claimed := s.claimed[w.next := true], workers := s.workers[t := w'], owner := s.owner[w.next := Some(t)])
  }

  /** The match, if any, at offset `y` of region `x`. */
  function Hit(k: Task, x: nat, y: nat): seq<(nat, nat)>
    requires k.Masked() && x < |k.regions|
  {
    var r := k.regions[x];
    if y + |k.data| <= |r.data| && MatchesAt(r.data, y, k.data, k.mask) then [(r.addr + y, r.protection)] else []
  }

  /** Comparing at one offset. The counter moves by a page at the first offset of every page. */
  function Compare(k: Task, s: State, t: nat): State
    requires ValidTask(k) && Shaped(k, s) && t < |s.workers| && s.workers[t].scanning
  {
    var w := s.workers[t];
    s.(searched := s.searched + (if w.offset % PAGE == 0 then PAGE else 0),
       workers := s.workers[t := w.(offset := w.offset + 1, found := w.found + Hit(k, w.next, w.offset))],
       scanned := s.scanned[w.next := w.offset + 1])
  }

  /** Leaving a finished region. */
  function Leave(k: Task, s: State, t: nat): State
    requires Shaped(k, s) && t < |s.workers|
  {
    var w := s.workers[t];
    s.(workers := s.workers[t := w.(scanning := false, next := w.next + 1)])
  }

  /** One atomic step of thread `t`. */
  function Step(k: Task, s: State, t: nat): (s': State)
    requires ValidTask(k) && Shaped(k, s) && t < |s.workers|
    ensures Shaped(k, s') && |s'.workers| == |s.workers|
  {
    var w := s.workers[t];
    if w.scanning then (if w.offset < k.Limit(w.next) then Compare(k, s, t) else Leave(k, s, t))
    else if |k.regions| <= w.next then s
    else if s.claimed[w.next] then Skip(k, s, t)
    else Claim(k, s, t)
  }

  /** The state after the threads have taken steps in the order given by `schedule`. */
  function Run(k: Task, threads: nat, schedule: seq<nat>): (s: State)
    requires ValidTask(k) && forall i :: 0 <= i < |schedule| ==> schedule[i] < threads
    ensures Shaped(k, s) && |s.workers| == threads
  {
    if schedule == [] then Init(k, threads)
    else
      var n := |schedule| - 1;
      Step(k, Run(k, threads, schedule[..n]), schedule[n])
  }

  // ---------- what has been found ----------

  /** The matches among the first `n` offsets of region `x`. */
  function MatchesBelow(k: Task, x: nat, n: nat): seq<(nat, nat)>
    requires k.Masked() && x < |k.regions|
  {
    if n == 0 then []
    else
      MatchesBelow(k, x, n - 1) + Hit(k, x, n - 1)
  }

  /** The matches that thread `t` has found in the first `n` regions, region by region. */
  function FoundBy(k: Task, owner: seq<Option<nat>>, scanned: seq<nat>, t: nat, n: nat): seq<(nat, nat)>
    requires k.Masked() && n <= |k.regions| == |owner| == |scanned|
  {
    if n == 0 then []
    else
      var own := if owner[n - 1] == Some(t) then MatchesBelow(k, n - 1, scanned[n - 1]) else [];
      FoundBy(k, owner, scanned, t, n - 1) + own
  }

  lemma {:induction false} FoundByFrame(k: Task, owner: seq<Option<nat>>, scanned: seq<nat>, owner': seq<Option<nat>>,
          scanned': seq<nat>, t: nat, n: nat)
    requires k.Masked() && n <= |k.regions| == |owner| == |scanned| == |owner'| == |scanned'|
    requires forall x :: 0 <= x < n ==>
      (owner[x] == Some(t) <==> owner'[x] == Some(t)) && (owner[x] == Some(t) ==> scanned[x] == scanned'[x])
    ensures FoundBy(k, owner, scanned, t, n) == FoundBy(k, owner', scanned', t, n)
  {
    if n > 0 {
      FoundByFrame(k, owner, scanned, owner', scanned', t, n - 1);
    }
  }

  /** Regions that `t` does not own, or has not started, contribute nothing. */
  lemma {:induction false} FoundByTail(k: Task, owner: seq<Option<nat>>, scanned: seq<nat>, t: nat, m: nat, n: nat)
    requires k.Masked() && m <= n <= |k.regions| == |owner| == |scanned|
    requires forall x :: m <= x < n ==> owner[x] != Some(t) || scanned[x] == 0
    ensures FoundBy(k, owner, scanned, t, n) == FoundBy(k, owner, scanned, t, m)
  {
    if m < n {
      FoundByTail(k, owner, scanned, t, m, n - 1);
    }
  }

  // ---------- the progress counter ----------

  /** How many page starts are among the first `n` offsets. */
  function Pages(n: nat): nat {
    (n + PAGE - 1) / PAGE
  }

  function Counted(scanned: seq<nat>, n: nat): nat
    requires n <= |scanned|
  {
    if n == 0 then 0 else Counted(scanned, n - 1) + PAGE * Pages(scanned[n - 1])
  }

  lemma {:induction false} CountedUpdate(scanned: seq<nat>, x: nat, v: nat, n: nat)
    requires x < |scanned| && n <= |scanned|
    ensures Counted(scanned[x := v], n)
       == Counted(scanned, n) + (if x < n then PAGE * Pages(v) - PAGE * Pages(scanned[x]) else 0)
  {
    if n > 0 {
      CountedUpdate(scanned, x, v, n - 1);
    }
  }

  lemma PagesNext(n: nat)
    ensures PAGE * Pages(n + 1) == PAGE * Pages(n) + (if n % PAGE == 0 then PAGE else 0)
  {
  }

  lemma MatchesNext(k: Task, x: nat, y: nat)
    requires k.Masked() && x < |k.regions| && y + |k.data| <= |k.regions[x].data|
    ensures var r := k.regions[x];
            MatchesBelow(k, x, y + 1) == MatchesBelow(k, x, y) +
              if MatchesAt(r.data, y, k.data, k.mask) then [(r.addr + y, r.protection)] else []
  {
  }

  /** Compares the string with the bytes at one offset, up to the first difference. */
  method CompareAt(contents: seq<byte>, y: nat, data: seq<byte>, mask: seq<byte>) returns (equal: bool)
    requires |data| == |mask| && y + |data| <= |contents|
    ensures equal <==> MatchesAt(contents, y, data, mask)
  {
    var z := 0;
    while z < |data| && (mask[z] == 0 || contents[y + z] == data[z])
      invariant z <= |data|
      invariant forall i :: 0 <= i < z && mask[i] != 0 ==> contents[y + i] == data[i]
    {
      z := z + 1;
    }
    equal := z == |data|;
  }

  /** The scan of one region as the thread runs it, alone: what a sequence of `Compare` steps adds to the
      thread's results and to the counter. */
  method ScanRegion(k: Task, x: nat) returns (found: seq<(nat, nat)>, counted: nat)
    requires ValidTask(k) && x < |k.regions| && k.regions[x].HasData()
    ensures found == MatchesBelow(k, x, k.Limit(x))
    ensures forall a: nat, p: nat :: (a, p) in found <==> OccursIn(k.regions[x], k.data, k.mask, a, p)
    ensures counted == PAGE * Pages(k.Limit(x))
  {
    var region := k.regions[x];
    assert WellFormed(region);
    UnsignedMinusIff(region.size, |k.data|);
    var bound := UnsignedMinus(region.size, |k.data|);
    found, counted := [], 0;
    var y := 0;
    while y <= bound
      invariant y <= k.Limit(x)
      invariant found == MatchesBelow(k, x, y) && counted == PAGE * Pages(y)
    {
      PagesNext(y);
      if y % PAGE == 0 {
        counted := counted + PAGE;
      }
      var equal := CompareAt(region.data, y, k.data, k.mask);
      MatchesNext(k, x, y);
      if equal {
        found := found + [(region.addr + y, region.protection)];
      }
      y := y + 1;
    }
    FoundMeaning(k, x, found);
  }

  /** The scan compares `n` bytes at every offset up to `size - n`, computed without sign: it runs past the
      end of the region exactly if the string is longer than the region. */
  lemma ScanOverrunIff(size: nat, n: nat)
    requires size < WORD && n < WORD
    ensures (exists y: nat :: y <= UnsignedMinus(size, n) && RunsPast(size, n, y)) <==> n > size
  {
    UnsignedMinusIff(size, n);
    if n > size {
      assert RunsPast(size, n, 0);
    }
  }

  /** A string of nine bytes in a region of eight: the last offset to compare is near the top of the range. */
  lemma ScanOverrunExample()
    ensures var k := Task([Region(8, 8, 3, seq(8, _ => 0))], seq(9, _ => 1), seq(9, _ => 0xFF));
            && WellFormed(k.regions[0]) && k.Masked() && !ValidTask(k)
            && UnsignedMinus(k.regions[0].size, |k.data|) == WORD - 1
  {
    var k := Task([Region(8, 8, 3, seq(8, _ => 0))], seq(9, _ => 1), seq(9, _ => 0xFF));
    assert |k.regions[0].data| == 8 && |k.data| == 9;
  }

  // ---------- the invariant ----------

  /** Worker `t` and region `x` agree: the region `t` scans is its own, and the other regions it owns are
      behind it and finished. */
  ghost predicate Linked(k: Task, s: State, t: nat, x: nat)
    requires Shaped(k, s) && t < |s.workers| && x < |k.regions|
  {
    var w := s.workers[t];
    && (x < w.next ==> s.claimed[x])
    && (x == w.next && w.scanning ==> s.owner[x] == Some(t) && s.scanned[x] == w.offset <= k.Limit(x))
    && (s.owner[x] == Some(t) && !(x == w.next && w.scanning) ==> x < w.next && s.scanned[x] == k.Limit(x))
  }

  /** A region is claimed exactly if it has an owner, and is not scanned before. */
  ghost predicate Claimed(k: Task, s: State, x: nat)
    requires Shaped(k, s) && x < |k.regions|
  {
    && (s.claimed[x] <==> s.owner[x].Some?)
    && (s.owner[x].Some? ==> s.owner[x].value < |s.workers|)
    && (s.owner[x].None? ==> s.scanned[x] == 0)
  }

  ghost predicate Owned(k: Task, s: State) {
    && Shaped(k, s)
    && (forall x :: 0 <= x < |k.regions| ==> Claimed(k, s, x))
    && (forall t, x :: 0 <= t < |s.workers| && 0 <= x < |k.regions| ==> Linked(k, s, t, x))
  }

  ghost predicate Recorded(k: Task, s: State)
    requires k.Masked() && Shaped(k, s)
  {
    && s.searched == Counted(s.scanned, |s.scanned|)
    && forall t :: 0 <= t < |s.workers| ==> s.workers[t].found == FoundBy(k, s.owner, s.scanned, t, |k.regions|)
  }

  lemma StepOwned(k: Task, s: State, t: nat)
    requires ValidTask(k) && Owned(k, s) && t < |s.workers|
    ensures Owned(k, Step(k, s, t))
  {
    var s' := Step(k, s, t);
    var y := s.workers[t].next;
    if y < |k.regions| {
      assert Linked(k, s, t, y) && Claimed(k, s, y);
    }
    forall x | 0 <= x < |k.regions|
      ensures Claimed(k, s', x)
    {
      assert Claimed(k, s, x);
    }
    forall u, x | 0 <= u < |s'.workers| && 0 <= x < |k.regions|
      ensures Linked(k, s', u, x)
    {
      assert Linked(k, s, u, x) && Claimed(k, s, x);
    }
  }

  lemma StepRecorded(k: Task, s: State, t: nat)
    requires ValidTask(k) && Owned(k, s) && Recorded(k, s) && t < |s.workers|
    ensures Recorded(k, Step(k, s, t))
  {
    var w := s.workers[t];
    if w.scanning && w.offset < k.Limit(w.next) {
      CompareRecorded(k, s, t);
    } else if !w.scanning && w.next < |k.regions| && !s.claimed[w.next] {
      ClaimRecorded(k, s, t);
    }
  }

  lemma ClaimRecorded(k: Task, s: State, t: nat)
    requires ValidTask(k) && Owned(k, s) && Recorded(k, s) && t < |s.workers|
    requires !s.workers[t].scanning && s.workers[t].next < |k.regions| && !s.claimed[s.workers[t].next]
    ensures Recorded(k, Claim(k, s, t))
  {
    var s', x, n := Claim(k, s, t), s.workers[t].next, |k.regions|;
    assert Claimed(k, s, x);
    forall u | 0 <= u < |s.workers|
      ensures s'.workers[u].found == FoundBy(k, s'.owner, s'.scanned, u, n)
    {
      if u == t {
        NothingBeyond(k, s, t, x);
        FoundByTail(k, s.owner, s.scanned, t, x, n);
        FoundByTail(k, s'.owner, s'.scanned, t, x, n);
        FoundByFrame(k, s.owner, s.scanned, s'.owner, s'.scanned, t, x);
      } else {
        FoundByFrame(k, s.owner, s.scanned, s'.owner, s'.scanned, u, n);
      }
    }
  }

  /** A thread owns nothing beyond where it stands. */
  lemma NothingBeyond(k: Task, s: State, t: nat, x: nat)
    requires ValidTask(k) && Owned(k, s) && t < |s.workers|
    requires s.workers[t].next <= x
    ensures forall y :: x <= y < |k.regions| && s.owner[y] == Some(t) ==>
      y == s.workers[t].next && s.workers[t].scanning
  {
    forall y | x <= y < |k.regions| && s.owner[y] == Some(t)
      ensures y == s.workers[t].next && s.workers[t].scanning
    {
      assert Linked(k, s, t, y);
    }
  }

  lemma CompareRecorded(k: Task, s: State, t: nat)
    requires ValidTask(k) && Owned(k, s) && Recorded(k, s) && t < |s.workers|
    requires s.workers[t].scanning && s.workers[t].offset < k.Limit(s.workers[t].next)
    ensures Recorded(k, Compare(k, s, t))
  {
    var w, n := s.workers[t], |k.regions|;
    var s', x := Compare(k, s, t), w.next;
    assert Linked(k, s, t, x);
    CountedUpdate(s.scanned, x, w.offset + 1, n);
    PagesNext(w.offset);
    forall u | 0 <= u < |s.workers| && u != t
      ensures s'.workers[u].found == FoundBy(k, s'.owner, s'.scanned, u, n)
    {
      FoundByFrame(k, s.owner, s.scanned, s'.owner, s'.scanned, u, n);
    }
    NothingBeyond(k, s, t, x);
    NewMatchAtEnd(k, s.owner, s.scanned, t, x);
  }

  /** A thread that owns nothing beyond the region it is scanning puts a new match at the end. */
  lemma {:induction false} NewMatchAtEnd(k: Task, owner: seq<Option<nat>>, scanned: seq<nat>, t: nat, x: nat)
    requires k.Masked() && x < |k.regions| == |owner| == |scanned|
    requires owner[x] == Some(t) && forall y :: x < y < |k.regions| ==> owner[y] != Some(t)
    ensures FoundBy(k, owner, scanned[x := scanned[x] + 1], t, |k.regions|)
         == FoundBy(k, owner, scanned, t, |k.regions|) + Hit(k, x, scanned[x])
  {
    var scanned' := scanned[x := scanned[x] + 1];
    FoundByTail(k, owner, scanned, t, x + 1, |k.regions|);
    FoundByTail(k, owner, scanned', t, x + 1, |k.regions|);
    FoundByFrame(k, owner, scanned, owner, scanned', t, x);
  }

  lemma {:induction false} RunKeeps(k: Task, threads: nat, schedule: seq<nat>)
    requires ValidTask(k) && forall i :: 0 <= i < |schedule| ==> schedule[i] < threads
    ensures var s := Run(k, threads, schedule);
            Owned(k, s) && Recorded(k, s)
  {
    if schedule == [] {
      var s := Init(k, threads);
      forall t | 0 <= t < threads
        ensures FoundBy(k, s.owner, s.scanned, t, |k.regions|) == []
      {
        FoundByTail(k, s.owner, s.scanned, t, 0, |k.regions|);
      }
      CountedZero(s.scanned, |s.scanned|);
    } else {
      var n := |schedule| - 1;
      RunKeeps(k, threads, schedule[..n]);
      StepOwned(k, Run(k, threads, schedule[..n]), schedule[n]);
      StepRecorded(k, Run(k, threads, schedule[..n]), schedule[n]);
    }
  }

  lemma {:induction false} CountedZero(scanned: seq<nat>, n: nat)
    requires n <= |scanned| && forall x :: 0 <= x < n ==> scanned[x] == 0
    ensures Counted(scanned, n) == 0
  {
    if n > 0 {
      CountedZero(scanned, n - 1);
    }
  }

  // ---------- each region is scanned once, by the thread that claimed it ----------

  /** When every thread has finished, every region has been scanned to the end by its one owner. */
  lemma AllScanned(k: Task, threads: nat, schedule: seq<nat>, x: nat)
    requires ValidTask(k) && (forall i :: 0 <= i < |schedule| ==> schedule[i] < threads) && 1 <= threads
    requires AllDone(k, Run(k, threads, schedule)) && x < |k.regions|
    ensures var s := Run(k, threads, schedule);
            s.owner[x].Some? && s.owner[x].value < threads && s.scanned[x] == k.Limit(x)
  {
    var s := Run(k, threads, schedule);
    RunKeeps(k, threads, schedule);
    assert Done(k, s, 0);
    assert Linked(k, s, 0, x) && Claimed(k, s, x);
    assert Done(k, s, s.owner[x].value) && Linked(k, s, s.owner[x].value, x);
  }

  /** A claim is never taken over: whatever the schedule does next, the owner stays the same, and no
      other thread ever adds to what has been scanned of the region. */
  lemma OwnerStays(k: Task, s: State, t: nat, x: nat)
    requires ValidTask(k) && Owned(k, s) && t < |s.workers| && x < |k.regions| && s.owner[x].Some?
    ensures Step(k, s, t).owner[x] == s.owner[x]
    ensures s.owner[x] != Some(t) ==> Step(k, s, t).scanned[x] == s.scanned[x]
  {
    assert Claimed(k, s, x) && Linked(k, s, t, x);
  }

  // ---------- the collected results ----------

  /** The threads' result lists put together. */
  function Collected(workers: seq<Worker>, n: nat): seq<(nat, nat)>
    requires n <= |workers|
  {
    if n == 0 then [] else Collected(workers, n - 1) + workers[n - 1].found
  }

  /** How often `p` occurs in `s`. */
  function Count(s: seq<(nat, nat)>, p: (nat, nat)): nat {
    multiset(s)[p]
  }

  lemma CountAppend(s: seq<(nat, nat)>, t: seq<(nat, nat)>, p: (nat, nat))
    ensures Count(s + t, p) == Count(s, p) + Count(t, p)
  {
  }

  /** At how many of the first `n` offsets of region `x` the match is `p`. */
  function HitsBelow(k: Task, x: nat, n: nat, p: (nat, nat)): nat
    requires k.Masked() && x < |k.regions|
  {
    if n == 0 then 0 else HitsBelow(k, x, n - 1, p) + (if p in Hit(k, x, n - 1) then 1 else 0)
  }

  /** How often `p` has been found in the first `n` regions, whoever scanned them. */
  function Everything(k: Task, s: State, n: nat, p: (nat, nat)): nat
    requires k.Masked() && Shaped(k, s) && n <= |k.regions|
  {
    if n == 0 then 0 else Everything(k, s, n - 1, p) + HitsBelow(k, n - 1, s.scanned[n - 1], p)
  }

  /** How often thread `t` has found `p` in the first `n` regions. */
  function HitsBy(k: Task, s: State, t: nat, n: nat, p: (nat, nat)): nat
    requires k.Masked() && Shaped(k, s) && n <= |k.regions|
  {
    if n == 0 then 0
    else HitsBy(k, s, t, n - 1, p) + (if s.owner[n - 1] == Some(t) then HitsBelow(k, n - 1, s.scanned[n - 1], p) else 0)
  }

  /** How often the first `threads` threads have found `p` in the first `n` regions. */
  function HitsByAll(k: Task, s: State, threads: nat, n: nat, p: (nat, nat)): nat
    requires k.Masked() && Shaped(k, s) && n <= |k.regions|
  {
    if threads == 0 then 0 else HitsByAll(k, s, threads - 1, n, p) + HitsBy(k, s, threads - 1, n, p)
  }

  lemma {:induction false} CountIsHits(k: Task, x: nat, n: nat, p: (nat, nat))
    requires k.Masked() && x < |k.regions|
    ensures Count(MatchesBelow(k, x, n), p) == HitsBelow(k, x, n, p)
  {
    if n > 0 {
      CountIsHits(k, x, n - 1, p);
      CountHit(k, x, n - 1, p);
      CountAppend(MatchesBelow(k, x, n - 1), Hit(k, x, n - 1), p);
    }
  }

  lemma {:induction false} FoundIsHits(k: Task, s: State, t: nat, n: nat, p: (nat, nat))
    requires k.Masked() && Shaped(k, s) && n <= |k.regions|
    ensures Count(FoundBy(k, s.owner, s.scanned, t, n), p) == HitsBy(k, s, t, n, p)
  {
    if n > 0 {
      FoundIsHits(k, s, t, n - 1, p);
      OwnHits(k, s, t, n - 1, p);
      CountAppend(FoundBy(k, s.owner, s.scanned, t, n - 1), OwnMatches(k, s, t, n - 1), p);
    }
  }

  function OwnMatches(k: Task, s: State, t: nat, x: nat): seq<(nat, nat)>
    requires k.Masked() && Shaped(k, s) && x < |k.regions|
  {
    if s.owner[x] == Some(t) then MatchesBelow(k, x, s.scanned[x]) else []
  }

  lemma OwnHits(k: Task, s: State, t: nat, x: nat, p: (nat, nat))
    requires k.Masked() && Shaped(k, s) && x < |k.regions|
    ensures Count(OwnMatches(k, s, t, x), p) == if s.owner[x] == Some(t) then HitsBelow(k, x, s.scanned[x], p) else 0
    ensures FoundBy(k, s.owner, s.scanned, t, x + 1) == FoundBy(k, s.owner, s.scanned, t, x) + OwnMatches(k, s, t, x)
  {
    if s.owner[x] == Some(t) {
      CountIsHits(k, x, s.scanned[x], p);
    }
  }

  lemma {:induction false} CollectedIsHits(k: Task, s: State, threads: nat, p: (nat, nat))
    requires k.Masked() && Shaped(k, s) && threads <= |s.workers|
    requires forall t :: 0 <= t < threads ==> Count(s.workers[t].found, p) == HitsBy(k, s, t, |k.regions|, p)
    ensures Count(Collected(s.workers, threads), p) == HitsByAll(k, s, threads, |k.regions|, p)
  {
    if threads > 0 {
      CollectedIsHits(k, s, threads - 1, p);
      CountAppend(Collected(s.workers, threads - 1), s.workers[threads - 1].found, p);
    }
  }

  /** One more region adds its matches exactly once, through its owner. */
  lemma {:induction false} HitsByAllNext(k: Task, s: State, threads: nat, n: nat, p: (nat, nat))
    requires k.Masked() && Shaped(k, s) && 0 < n <= |k.regions| && s.owner[n - 1].Some?
    ensures HitsByAll(k, s, threads, n, p) == HitsByAll(k, s, threads, n - 1, p)
      + (if s.owner[n - 1].value < threads then HitsBelow(k, n - 1, s.scanned[n - 1], p) else 0)
  {
    if threads > 0 {
      HitsByAllNext(k, s, threads - 1, n, p);
    }
  }

  lemma {:induction false} HitsByAllNothing(k: Task, s: State, threads: nat, p: (nat, nat))
    requires k.Masked() && Shaped(k, s)
    ensures HitsByAll(k, s, threads, 0, p) == 0
  {
    if threads > 0 {
      HitsByAllNothing(k, s, threads - 1, p);
    }
  }

  lemma {:induction false} HitsByAllIsEverything(k: Task, s: State, threads: nat, n: nat, p: (nat, nat))
    requires k.Masked() && Shaped(k, s) && n <= |k.regions|
    requires forall x :: 0 <= x < n ==> s.owner[x].Some? && s.owner[x].value < threads
    ensures HitsByAll(k, s, threads, n, p) == Everything(k, s, n, p)
  {
    if n == 0 {
      HitsByAllNothing(k, s, threads, p);
    } else {
      HitsByAllIsEverything(k, s, threads, n - 1, p);
      HitsByAllNext(k, s, threads, n, p);
    }
  }

  /** `p` is a match at one of the first `n` offsets of region `x`. */
  ghost predicate IsHit(k: Task, x: nat, n: nat, p: (nat, nat))
    requires k.Masked() && x < |k.regions|
  {
    k.regions[x].addr <= p.0 < k.regions[x].addr + n && p in Hit(k, x, p.0 - k.regions[x].addr)
  }

  lemma CountHit(k: Task, x: nat, y: nat, p: (nat, nat))
    requires k.Masked() && x < |k.regions|
    ensures Count(Hit(k, x, y), p) == if p in Hit(k, x, y) then 1 else 0
    ensures p in Hit(k, x, y) ==> p.0 == k.regions[x].addr + y
  {
    var h := Hit(k, x, y);
    if h != [] {
      assert h == [h[0]];
    }
  }

  /** A pair is a match at most once: only its own offset can yield it. */
  lemma {:induction false} HitsOnce(k: Task, x: nat, n: nat, p: (nat, nat))
    requires k.Masked() && x < |k.regions|
    ensures HitsBelow(k, x, n, p) == if IsHit(k, x, n, p) then 1 else 0
  {
    if n > 0 {
      HitsOnce(k, x, n - 1, p);
    }
  }

  lemma {:induction false} FoundIsHit(k: Task, x: nat, n: nat, p: (nat, nat))
    requires k.Masked() && x < |k.regions|
    ensures p in MatchesBelow(k, x, n) <==> IsHit(k, x, n, p)
  {
    if n > 0 {
      FoundIsHit(k, x, n - 1, p);
    }
  }

  ghost predicate IsMatch(k: Task, n: nat, p: (nat, nat))
    requires k.Masked() && n <= |k.regions|
  {
    exists x :: 0 <= x < n && IsHit(k, x, k.Limit(x), p)
  }

  /** A match lies in one region only. */
  lemma HitRegionUnique(k: Task, x: nat, y: nat, p: (nat, nat), q: (nat, nat))
    requires ValidTask(k) && x < |k.regions| && y < |k.regions|
    requires IsHit(k, x, k.Limit(x), p) && p.0 == q.0
    ensures IsHit(k, y, k.Limit(y), q) ==> x == y
  {
    assert x < y ==> Disjoint(k.regions[x], k.regions[y]);
    assert y < x ==> Disjoint(k.regions[y], k.regions[x]);
  }

  lemma IsMatchNext(k: Task, n: nat, p: (nat, nat))
    requires ValidTask(k) && 0 < n <= |k.regions|
    ensures IsMatch(k, n, p) <==> IsMatch(k, n - 1, p) || IsHit(k, n - 1, k.Limit(n - 1), p)
    ensures !(IsMatch(k, n - 1, p) && IsHit(k, n - 1, k.Limit(n - 1), p))
  {
    if IsMatch(k, n - 1, p) {
      var y :| 0 <= y < n - 1 && IsHit(k, y, k.Limit(y), p);
      HitRegionUnique(k, y, n - 1, p, p);
    }
  }

  lemma {:induction false} EverythingOnce(k: Task, s: State, n: nat, p: (nat, nat))
    requires ValidTask(k) && Shaped(k, s) && n <= |k.regions|
    requires forall x :: 0 <= x < n ==> s.scanned[x] == k.Limit(x)
    ensures Everything(k, s, n, p) == if IsMatch(k, n, p) then 1 else 0
  {
    if n > 0 {
      EverythingOnce(k, s, n - 1, p);
      HitsOnce(k, n - 1, k.Limit(n - 1), p);
      IsMatchNext(k, n, p);
    }
  }

  // ---------- the final list ----------

  predicate PairLess(p: (nat, nat), q: (nat, nat)) {
    p.0 < q.0 || (p.0 == q.0 && p.1 <= q.1)
  }

  predicate SortedPairs(s: seq<(nat, nat)>) {
    forall i, j :: 0 <= i < j < |s| ==> PairLess(s[i], s[j])
  }

  lemma RepeatedTwice(s: seq<(nat, nat)>, i: nat, j: nat)
    requires i < j < |s| && s[i] == s[j]
    ensures multiset(s)[s[i]] >= 2
  {
    assert s == s[..j] + s[j..];
    assert s[i] in s[..j] && s[j] in s[j..];
  }

  /** Two matches at the same address are the same match: their regions overlap. */
  lemma MatchUnique(k: Task, p: (nat, nat), q: (nat, nat))
    requires ValidTask(k) && IsMatch(k, |k.regions|, p) && IsMatch(k, |k.regions|, q) && p.0 == q.0
    ensures p == q
  {
    var x :| 0 <= x < |k.regions| && IsHit(k, x, k.Limit(x), p);
    var y :| 0 <= y < |k.regions| && IsHit(k, y, k.Limit(y), q);
    HitRegionUnique(k, x, y, p, q);
  }

  /** Region `r` has data and protection `p`, and the string occurs in it at `a`, up to masked bytes. */
  ghost predicate OccursIn(r: Region, data: seq<byte>, mask: seq<byte>, a: nat, p: nat)
    requires |data| == |mask|
  {
    && r.protection == p && r.addr <= a && a - r.addr + |data| <= |r.data|
    && forall z :: 0 <= z < |data| && mask[z] != 0 ==> r.data[a - r.addr + z] == data[z]
  }

  ghost predicate OccursAt(m: seq<Region>, data: seq<byte>, mask: seq<byte>, a: nat, p: nat)
    requires |data| == |mask|
  {
    exists r :: r in m && OccursIn(r, data, mask, a, p)
  }

  /** `order` lists every index below `n` once. */
  predicate IsPermutation(order: seq<nat>, n: nat) {
    && |order| == n
    && (forall i :: 0 <= i < n ==> order[i] < n)
    && (forall i, j :: 0 <= i < j < n ==> order[i] != order[j])
    && (forall x :: 0 <= x < n ==> x in order)
  }

  /** The regions of a map in any other order, as sorting by size leaves them. */
  function Rearranged(m: seq<Region>, order: seq<nat>): seq<Region>
    requires IsPermutation(order, |m|)
  {
    seq(|m|, i requires 0 <= i < |m| => m[order[i]])
  }

  lemma RearrangedValid(m: seq<Region>, order: seq<nat>, data: seq<byte>, mask: seq<byte>)
    requires ValidMap(m) && IsPermutation(order, |m|)
    requires 1 <= |data| == |mask|
    requires forall r :: r in m && r.HasData() ==> |data| <= r.size
    ensures ValidTask(Task(Rearranged(m, order), data, mask))
  {
    var rs := Rearranged(m, order);
    forall x, y | 0 <= x < y < |m|
      ensures Disjoint(rs[x], rs[y])
    {
      if order[x] < order[y] {
        assert m[order[x]].End() <= m[order[y]].addr;
      } else {
        assert m[order[y]].End() <= m[order[x]].addr;
      }
    }
    RearrangedMembers(m, order);
    forall x | 0 <= x < |rs|
      ensures WellFormed(rs[x]) && (rs[x].HasData() ==> |data| <= rs[x].size)
    {
      assert rs[x] == m[order[x]] && rs[x] in m;
    }
  }

  lemma RearrangedMembers(m: seq<Region>, order: seq<nat>)
    requires IsPermutation(order, |m|)
    ensures forall r :: r in Rearranged(m, order) <==> r in m
  {
    var rs := Rearranged(m, order);
    forall r | r in m
      ensures r in rs
    {
      var i :| 0 <= i < |m| && m[i] == r;
      assert i in order;
      var j :| 0 <= j < |order| && order[j] == i;
      assert rs[j] == r;
    }
  }

  lemma MatchOccurs(k: Task, a: nat, p: nat)
    requires ValidTask(k)
    ensures IsMatch(k, |k.regions|, (a, p)) <==> OccursAt(k.regions, k.data, k.mask, a, p)
  {
    if IsMatch(k, |k.regions|, (a, p)) {
      var x :| 0 <= x < |k.regions| && IsHit(k, x, k.Limit(x), (a, p));
      HitMeaning(k, x, a, p);
      assert k.regions[x] in k.regions;
    }
    if OccursAt(k.regions, k.data, k.mask, a, p) {
      var r :| r in k.regions && OccursIn(r, k.data, k.mask, a, p);
      var x :| 0 <= x < |k.regions| && k.regions[x] == r;
      HitMeaning(k, x, a, p);
    }
  }

  lemma HitMeaning(k: Task, x: nat, a: nat, p: nat)
    requires k.Masked() && x < |k.regions| && WellFormed(k.regions[x]) && 1 <= |k.data|
    ensures IsHit(k, x, k.Limit(x), (a, p)) <==> OccursIn(k.regions[x], k.data, k.mask, a, p)
  {
  }

  lemma FoundMeaning(k: Task, x: nat, found: seq<(nat, nat)>)
    requires k.Masked() && x < |k.regions| && WellFormed(k.regions[x]) && 1 <= |k.data|
    requires found == MatchesBelow(k, x, k.Limit(x))
    ensures forall a: nat, p: nat :: (a, p) in found <==> OccursIn(k.regions[x], k.data, k.mask, a, p)
  {
    forall a: nat, p: nat
      ensures (a, p) in found <==> OccursIn(k.regions[x], k.data, k.mask, a, p)
    {
      FoundIsHit(k, x, k.Limit(x), (a, p));
      HitMeaning(k, x, a, p);
    }
  }

  /** Whatever the schedule, the collected pairs are the matches, each of them once. */
  lemma CollectedOnce(k: Task, threads: nat, schedule: seq<nat>, p: (nat, nat))
    requires ValidTask(k) && (forall i :: 0 <= i < |schedule| ==> schedule[i] < threads) && 1 <= threads
    requires AllDone(k, Run(k, threads, schedule))
    ensures Count(Collected(Run(k, threads, schedule).workers, threads), p) ==
      if IsMatch(k, |k.regions|, p) then 1 else 0
  {
    var s := Run(k, threads, schedule);
    RunKeeps(k, threads, schedule);
    forall x | 0 <= x < |k.regions|
      ensures s.owner[x].Some? && s.owner[x].value < threads && s.scanned[x] == k.Limit(x)
    {
      AllScanned(k, threads, schedule, x);
    }
    forall t | 0 <= t < threads
      ensures Count(s.workers[t].found, p) == HitsBy(k, s, t, |k.regions|, p)
    {
      FoundIsHits(k, s, t, |k.regions|, p);
    }
    CollectedIsHits(k, s, threads, p);
    HitsByAllIsEverything(k, s, threads, |k.regions|, p);
    EverythingOnce(k, s, |k.regions|, p);
  }

  /** Main result. For every order of the regions, every number of threads and every interleaving that
      runs to the end, sorting the collected results gives, in strictly ascending order of address, all
      addresses at which the string occurs up to masked bytes, each with the protection of its region: the
      outcome does not depend on the schedule. */
  lemma FindResults(m: seq<Region>, order: seq<nat>, k: Task, threads: nat, schedule: seq<nat>,
          results: seq<(nat, nat)>)
    requires ValidMap(m) && IsPermutation(order, |m|) && ValidTask(k) && k.regions == Rearranged(m, order)
    requires 1 <= threads && forall i :: 0 <= i < |schedule| ==> schedule[i] < threads
    requires AllDone(k, Run(k, threads, schedule))
    requires SortedPairs(results)
    requires multiset(results) == multiset(Collected(Run(k, threads, schedule).workers, threads))
    ensures forall i, j :: 0 <= i < j < |results| ==> results[i].0 < results[j].0
    ensures forall a: nat, p: nat :: (a, p) in results <==>
      exists r ::
        && r in m && r.protection == p && r.addr <= a && a - r.addr + |k.data| <= |r.data|
        && forall z :: 0 <= z < |k.data| && k.mask[z] != 0 ==> r.data[a - r.addr + z] == k.data[z]
  {
    RearrangedMembers(m, order);
    forall p
      ensures multiset(results)[p] == if IsMatch(k, |k.regions|, p) then 1 else 0
    {
      CollectedOnce(k, threads, schedule, p);
    }
    SortedMatches(k, results);
    forall a: nat, p: nat
      ensures (a, p) in results <==> OccursAt(m, k.data, k.mask, a, p)
    {
      MatchOccurs(k, a, p);
      assert (a, p) in results <==> multiset(results)[(a, p)] > 0;
    }
  }

  lemma SortedMatches(k: Task, results: seq<(nat, nat)>)
    requires ValidTask(k) && SortedPairs(results)
    requires forall p :: multiset(results)[p] == if IsMatch(k, |k.regions|, p) then 1 else 0
    ensures forall i, j :: 0 <= i < j < |results| ==> results[i].0 < results[j].0
  {
    forall p
      ensures p in results <==> IsMatch(k, |k.regions|, p)
    {
      assert p in results <==> multiset(results)[p] > 0;
    }
    forall i, j | 0 <= i < j < |results|
      ensures results[i].0 < results[j].0
    {
      assert results[i] in results && results[j] in results;
      if results[i].0 == results[j].0 {
        MatchUnique(k, results[i], results[j]);
        RepeatedTwice(results, i, j);
      }
      assert PairLess(results[i], results[j]);
    }
  }

  // ---------- the waiting loop ----------

  predicate PageSized(k: Task) {
    forall x :: 0 <= x < |k.regions| ==> k.regions[x].size % PAGE == 0
  }

  /** The number of bytes of data in the first `n` regions. */
  function TotalSize(k: Task, n: nat): nat
    requires n <= |k.regions|
  {
    if n == 0 then 0 else TotalSize(k, n - 1) + |k.regions[n - 1].data|
  }

  /** Scanning a region of whole pages counts its size, unless the string is longer than a page. */
  lemma RegionPages(size: nat, d: nat, n: nat)
    requires size % PAGE == 0 && 1 <= d <= size && n <= size - d + 1
    ensures PAGE * Pages(n) <= size
    ensures n == size - d + 1 ==> (PAGE * Pages(n) == size <==> d <= PAGE)
  {
    var q := size / PAGE;
    assert size == PAGE * q;
    assert Pages(n) <= (PAGE * q - d + PAGE) / PAGE;
  }

  lemma CountedRegion(k: Task, s: State, x: nat)
    requires ValidTask(k) && PageSized(k) && Owned(k, s) && x < |k.regions|
    ensures PAGE * Pages(s.scanned[x]) <= |k.regions[x].data|
    ensures s.scanned[x] == k.Limit(x) ==>
      (PAGE * Pages(s.scanned[x]) == |k.regions[x].data| <==> |k.data| <= PAGE || k.regions[x].data == [])
  {
    assert Claimed(k, s, x) && WellFormed(k.regions[x]);
    if s.owner[x].Some? {
      assert Linked(k, s, s.owner[x].value, x);
    }
    if k.regions[x].HasData() {
      RegionPages(k.regions[x].size, |k.data|, s.scanned[x]);
    }
  }

  lemma {:induction false} CountedTotal(k: Task, s: State, n: nat)
    requires ValidTask(k) && PageSized(k) && Owned(k, s) && n <= |k.regions|
    ensures Counted(s.scanned, n) <= TotalSize(k, n)
    ensures (forall x :: 0 <= x < n ==> s.scanned[x] == k.Limit(x))
        ==> (Counted(s.scanned, n) == TotalSize(k, n) <==> |k.data| <= PAGE || TotalSize(k, n) == 0)
  {
    if n > 0 {
      CountedTotal(k, s, n - 1);
      CountedRegion(k, s, n - 1);
    }
  }

  /** Main result on the counter. In every reachable state it is at most the total. When all threads have
      finished, it equals the total (and the waiting loop ends) exactly if there is nothing to scan, or
      there is a thread and the string fits in a page. */
  lemma SearchedSize(k: Task, threads: nat, schedule: seq<nat>)
    requires ValidTask(k) && PageSized(k) && forall i :: 0 <= i < |schedule| ==> schedule[i] < threads
    ensures var s, total := Run(k, threads, schedule), TotalSize(k, |k.regions|);
            && s.searched <= total
            && (AllDone(k, s) ==> (s.searched == total <==> total == 0 || (1 <= threads && |k.data| <= PAGE)))
  {
    var s, total := Run(k, threads, schedule), TotalSize(k, |k.regions|);
    RunKeeps(k, threads, schedule);
    CountedTotal(k, s, |k.regions|);
    if threads == 0 {
      HasMember(schedule);
    } else if AllDone(k, s) {
      forall x | 0 <= x < |k.regions|
        ensures s.scanned[x] == k.Limit(x)
      {
        AllScanned(k, threads, schedule, x);
      }
    }
  }

  /** One page of memory and no threads: all threads have finished at once, and the waiting loop never ends. */
  lemma NoThreadsExample()
    ensures var k := Task([Region(PAGE, PAGE, 3, seq(PAGE, _ => 0))], [1], [0xFF]);
            && ValidTask(k) && PageSized(k)
            && AllDone(k, Run(k, 0, [])) && Run(k, 0, []).searched == 0 && TotalSize(k, 1) == PAGE
  {
    var k := Task([Region(PAGE, PAGE, 3, seq(PAGE, _ => 0))], [1], [0xFF]);
    assert |k.regions[0].data| == PAGE;
    assert TotalSize(k, 0) == 0;
  }

  /** The percentage shown while waiting never exceeds 100. */
  lemma Percentage(k: Task, threads: nat, schedule: seq<nat>)
    requires ValidTask(k) && PageSized(k) && forall i :: 0 <= i < |schedule| ==> schedule[i] < threads
    requires TotalSize(k, |k.regions|) > 0
    ensures Run(k, threads, schedule).searched * 100 / TotalSize(k, |k.regions|) <= 100
  {
    SearchedSize(k, threads, schedule);
    PercentBound(Run(k, threads, schedule).searched, TotalSize(k, |k.regions|));
  }

  lemma PercentBound(part: nat, total: nat)
    requires part <= total && total > 0
    ensures part * 100 / total <= 100
  {
    assert part * 100 <= total * 100;
  }

  // ---------- termination ----------

  /** Offsets still to be compared in the first `n` regions. */
  function OffsetsLeft(k: Task, s: State, n: nat): int
    requires Shaped(k, s) && n <= |k.regions|
  {
    if n == 0 then 0 else OffsetsLeft(k, s, n - 1) + k.Limit(n - 1) - s.scanned[n - 1]
  }

  /** Moves between regions that the first `n` threads still have to make. */
  function MovesLeft(k: Task, s: State, n: nat): int
    requires Shaped(k, s) && n <= |s.workers|
  {
    if n == 0 then 0
    else
      var w := s.workers[n - 1];
      MovesLeft(k, s, n - 1) + 2 * (|k.regions| - w.next) - (if w.scanning then 1 else 0)
  }

  function StepsLeft(k: Task, s: State): int
    requires Shaped(k, s)
  {
    OffsetsLeft(k, s, |k.regions|) + MovesLeft(k, s, |s.workers|)
  }

  lemma {:induction false} OffsetsAfter(k: Task, s: State, s': State, x: nat, n: nat)
    requires Shaped(k, s) && Shaped(k, s') && n <= |k.regions| && x < |k.regions|
    requires forall y :: 0 <= y < n && y != x ==> s'.scanned[y] == s.scanned[y]
    ensures OffsetsLeft(k, s', n)
       == OffsetsLeft(k, s, n) + (if x < n then s.scanned[x] else 0) - (if x < n then s'.scanned[x] else 0)
  {
    if n > 0 {
      OffsetsAfter(k, s, s', x, n - 1);
    }
  }

  lemma {:induction false} MovesAfter(k: Task, s: State, s': State, t: nat, n: nat)
    requires Shaped(k, s) && Shaped(k, s') && n <= |s.workers| == |s'.workers| && t < |s.workers|
    requires forall u :: 0 <= u < n && u != t ==> s'.workers[u] == s.workers[u]
    ensures MovesLeft(k, s', n) == MovesLeft(k, s, n)
      + (if t < n then 2 * (s.workers[t].next - s'.workers[t].next)
                       + (if s.workers[t].scanning then 1 else 0) - (if s'.workers[t].scanning then 1 else 0) else 0)
  {
    if n > 0 {
      MovesAfter(k, s, s', t, n - 1);
    }
  }

  lemma StepsLeftNat(k: Task, s: State)
    requires ValidTask(k) && Owned(k, s)
    ensures 0 <= StepsLeft(k, s)
  {
    OffsetsLeftNat(k, s, |k.regions|);
    MovesLeftNat(k, s, |s.workers|);
  }

  lemma {:induction false} OffsetsLeftNat(k: Task, s: State, n: nat)
    requires ValidTask(k) && Owned(k, s) && n <= |k.regions|
    ensures 0 <= OffsetsLeft(k, s, n)
  {
    if n > 0 {
      OffsetsLeftNat(k, s, n - 1);
      assert Claimed(k, s, n - 1);
      if s.owner[n - 1].Some? {
        assert Linked(k, s, s.owner[n - 1].value, n - 1);
      }
    }
  }

  lemma {:induction false} MovesLeftNat(k: Task, s: State, n: nat)
    requires Shaped(k, s) && n <= |s.workers|
    ensures 0 <= MovesLeft(k, s, n)
  {
    if n > 0 {
      MovesLeftNat(k, s, n - 1);
    }
  }

  /** Every step of a thread that has not finished leaves fewer steps to take. */
  lemma StepProgress(k: Task, s: State, t: nat)
    requires ValidTask(k) && Owned(k, s) && t < |s.workers| && !Done(k, s, t)
    ensures StepsLeft(k, Step(k, s, t)) < StepsLeft(k, s)
  {
    var w, s' := s.workers[t], Step(k, s, t);
    MovesAfter(k, s, s', t, |s.workers|);
    if w.next < |k.regions| {
      assert Linked(k, s, t, w.next);
      OffsetsAfter(k, s, s', w.next, |k.regions|);
    }
  }

  /** No interleaving goes on for ever: a schedule that only runs unfinished threads is at most as long
      as the number of steps left at the start, and when it cannot be extended all threads are done. */
  lemma {:induction false} SearchTerminates(k: Task, threads: nat, schedule: seq<nat>)
    requires ValidTask(k) && forall i :: 0 <= i < |schedule| ==> schedule[i] < threads
    requires forall i :: 0 <= i < |schedule| ==> !Done(k, Run(k, threads, schedule[..i]), schedule[i])
    ensures |schedule| + StepsLeft(k, Run(k, threads, schedule)) <= StepsLeft(k, Init(k, threads))
    ensures |schedule| <= StepsLeft(k, Init(k, threads))
  {
    RunKeeps(k, threads, schedule);
    StepsLeftNat(k, Run(k, threads, schedule));
    if schedule != [] {
      var n := |schedule| - 1;
      UnfinishedPrefix(k, threads, schedule);
      SearchTerminates(k, threads, schedule[..n]);
      LastStep(k, threads, schedule);
    }
  }

  lemma UnfinishedPrefix(k: Task, threads: nat, schedule: seq<nat>)
    requires ValidTask(k) && schedule != [] && forall i :: 0 <= i < |schedule| ==> schedule[i] < threads
    requires forall i :: 0 <= i < |schedule| ==> !Done(k, Run(k, threads, schedule[..i]), schedule[i])
    ensures var prefix := schedule[..|schedule| - 1];
            && (forall i :: 0 <= i < |prefix| ==> prefix[i] < threads)
            && (forall i :: 0 <= i < |prefix| ==> !Done(k, Run(k, threads, prefix[..i]), prefix[i]))
  {
    var prefix := schedule[..|schedule| - 1];
    forall i | 0 <= i < |prefix|
      ensures !Done(k, Run(k, threads, prefix[..i]), prefix[i])
    {
      assert prefix[..i] == schedule[..i] && prefix[i] == schedule[i];
    }
  }

  lemma LastStep(k: Task, threads: nat, schedule: seq<nat>)
    requires ValidTask(k) && schedule != [] && forall i :: 0 <= i < |schedule| ==> schedule[i] < threads
    requires var n := |schedule| - 1;
             !Done(k, Run(k, threads, schedule[..n]), schedule[n])
    ensures StepsLeft(k, Run(k, threads, schedule)) < StepsLeft(k, Run(k, threads, schedule[..|schedule| - 1]))
  {
    var n := |schedule| - 1;
    RunKeeps(k, threads, schedule[..n]);
    StepProgress(k, Run(k, threads, schedule[..n]), schedule[n]);
  }

  /** Every schedule can be continued until all threads are done. */
  lemma {:induction false} Finish(k: Task, threads: nat, schedule: seq<nat>) returns (full: seq<nat>)
    requires ValidTask(k) && forall i :: 0 <= i < |schedule| ==> schedule[i] < threads
    ensures forall i :: 0 <= i < |full| ==> full[i] < threads
    ensures AllDone(k, Run(k, threads, full))
    decreases StepsLeft(k, Run(k, threads, schedule))
  {
    RunKeeps(k, threads, schedule);
    var s := Run(k, threads, schedule);
    StepsLeftNat(k, s);
    if t :| 0 <= t < threads && !Done(k, s, t) {
      var next := schedule + [t];
      assert next[..|schedule|] == schedule;
      StepProgress(k, s, t);
      full := Finish(k, threads, next);
    } else {
      full := schedule;
    }
  }

  /** Whenever the string is longer than a page, the threads can finish, and the waiting loop never ends. */
  lemma LongStringWaits(k: Task, threads: nat) returns (schedule: seq<nat>)
    requires ValidTask(k) && PageSized(k) && TotalSize(k, |k.regions|) > 0 && |k.data| > PAGE
    ensures forall i :: 0 <= i < |schedule| ==> schedule[i] < threads
    ensures AllDone(k, Run(k, threads, schedule))
    ensures Run(k, threads, schedule).searched < TotalSize(k, |k.regions|)
  {
    schedule := Finish(k, threads, []);
    SearchedSize(k, threads, schedule);
  }

  /** Two pages of memory, one thread, and a string of a page and a byte. */
  lemma LongStringExample() returns (schedule: seq<nat>)
    ensures var k := Task([Region(PAGE, 2 * PAGE, 3, seq(2 * PAGE, _ => 0))], seq(PAGE + 1, _ => 1),
                          seq(PAGE + 1, _ => 0xFF));
            && ValidTask(k) && PageSized(k)
            && (forall i :: 0 <= i < |schedule| ==> schedule[i] < 1)
            && AllDone(k, Run(k, 1, schedule)) && Run(k, 1, schedule).searched < TotalSize(k, 1)
  {
    var k := Task([Region(PAGE, 2 * PAGE, 3, seq(2 * PAGE, _ => 0))], seq(PAGE + 1, _ => 1), seq(PAGE + 1, _ => 0xFF));
    assert |k.regions[0].data| == 2 * PAGE;
    assert TotalSize(k, 0) == 0;
    schedule := LongStringWaits(k, 1);
  }
}
