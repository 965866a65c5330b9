/** One frozen region: what writing it does to the target's memory. */
module FrozenRegions {
  import opened Memory

  // ---------- masked comparison ----------

  /** Equal wherever the mask byte is not zero. */
  predicate EqualUnder(a: seq<byte>, b: seq<byte>, mask: seq<byte>)
    requires |a| == |b| == |mask|
  {
    forall i :: 0 <= i < |a| && mask[i] != 0 ==> a[i] == b[i]
  }

  function Comparison(a: seq<byte>, b: seq<byte>, mask: seq<byte>): (r: int)
    requires |a| == |b| == |mask|
  {
    if a == b then 0 else if EqualUnder(a, b, mask) then 1 else -1
  }

  /** 0 if the strings are equal, 1 if they differ only in masked bytes, -1 otherwise. */
  method MemcmpMask(a: seq<byte>, b: seq<byte>, mask: seq<byte>) returns (r: int)
    requires |a| == |b| == |mask|
    ensures r == Comparison(a, b, mask)
    ensures r == 0 <==> forall i :: 0 <= i < |a| ==> a[i] == b[i]
    ensures r == -1 <==> exists i :: 0 <= i < |a| && mask[i] != 0 && a[i] != b[i]
    ensures r == 0 || r == 1 || r == -1
  {
    var maskedDifferences := 0;
    for i := 0 to |a|
      invariant maskedDifferences == 0 || maskedDifferences == 1
      invariant forall j :: 0 <= j < i && mask[j] != 0 ==> a[j] == b[j]
      invariant maskedDifferences == 0 <==> a[..i] == b[..i]
    {
      assert a[..i + 1] == a[..i] + [a[i]] && b[..i + 1] == b[..i] + [b[i]];
      if a[i] != b[i] {
        if mask[i] == 0 {
          maskedDifferences := 1;
        } else {
          return -1;
        }
      }
    }
    assert a[..|a|] == a && b[..|b|] == b;
    r := maskedDifferences;
  }

  // ---------- the target's memory ----------

  /** The bytes of the target that can be read, and the addresses at which a write succeeds. */
  datatype Mem = Mem(bytes: map<nat, byte>, writable: set<nat>)

  predicate Readable(m: Mem, addr: nat, size: nat) {
    forall a: nat :: addr <= a < addr + size ==> a in m.bytes
  }

  predicate Writable(m: Mem, addr: nat, size: nat) {
    forall a: nat :: addr <= a < addr + size ==> a in m.writable && a in m.bytes
  }

  function Contents(m: Mem, addr: nat, size: nat): (s: seq<byte>)
    requires Readable(m, addr, size)
    ensures |s| == size && forall i :: 0 <= i < size ==> s[i] == m.bytes[addr + i]
  {
    seq(size, i requires 0 <= i < size => m.bytes[addr + i])
  }

  /** A write replaces the whole range or, if any part of it is not writable, nothing. */
  function Written(m: Mem, addr: nat, data: seq<byte>): (m': Mem)
    ensures m'.writable == m.writable && m'.bytes.Keys == m.bytes.Keys
  {
    if Writable(m, addr, |data|) then
      m.(bytes := map a | a in m.bytes :: if addr <= a < addr + |data| then data[a - addr] else m.bytes[a])
    else m
  }

  /** The part of the target process that the freezer touches. */
  class Target {
    var mem: Mem

    constructor (mem: Mem)
      ensures this.mem == mem
    {
      this.mem := mem;
    }

    method Read(addr: nat, size: nat) returns (s: Option<seq<byte>>)
      ensures s == if Readable(mem, addr, size) then Some(Contents(mem, addr, size)) else None
    {
      s := if Readable(mem, addr, size) then Some(Contents(mem, addr, size)) else None;
    }

    method Write(addr: nat, data: seq<byte>) returns (ok: bool)
      modifies this
      ensures mem == Written(old(mem), addr, data)
      ensures ok == Writable(old(mem), addr, |data|)
    {
      ok := Writable(mem, addr, |data|);
      mem := Written(mem, addr, data);
    }
  }

  // ---------- frozen values ----------

  /** The extra fields of an array freeze. */
  datatype ArrayInfo = ArrayInfo(numItems: nat, mask: seq<byte>, nullData: seq<byte>, nullMask: seq<byte>)

  datatype Frozen = Frozen(name: string, addr: nat, data: seq<byte>, layout: Option<ArrayInfo>, enable: bool) {
    /** The number of bytes that the region may write. */
    function Extent(): nat {
      if layout.Some? then layout.value.numItems * |data| else |data|
    }

    predicate Covers(a: int) {
      addr <= a < addr + Extent()
    }
  }

  /** What the freeze command guarantees: masks and null data are as long as the data. */
  predicate ValidFrozen(v: Frozen) {
    v.layout.Some? ==>
      && |v.layout.value.mask| == |v.data|
      && |v.layout.value.nullMask| == |v.layout.value.nullData|
      && (v.layout.value.nullData == [] || |v.layout.value.nullData| == |v.data|)
  }

  predicate AllZero(s: seq<byte>) {
    forall i :: 0 <= i < |s| ==> s[i] == 0
  }

  /** The item holds the data, up to masked bytes. */
  predicate HoldsData(v: Frozen, item: seq<byte>)
    requires ValidFrozen(v) && v.layout.Some? && |item| == |v.data|
  {
    EqualUnder(item, v.data, v.layout.value.mask)
  }

  /** The item is null: it matches the null data up to masked bytes or, without null data, is all zero. */
  predicate IsNull(v: Frozen, item: seq<byte>)
    requires ValidFrozen(v) && v.layout.Some? && |item| == |v.data|
  {
    if v.layout.value.nullData != [] then EqualUnder(item, v.layout.value.nullData, v.layout.value.nullMask)
    else AllZero(item)
  }

  predicate Candidate(v: Frozen, item: seq<byte>)
    requires ValidFrozen(v) && v.layout.Some? && |item| == |v.data|
  {
    HoldsData(v, item) || IsNull(v, item)
  }

  lemma ItemInside(x: nat, n: nat, size: nat)
    requires x < n
    ensures 0 <= x * size && x * size + size <= n * size
  {
    assert n * size == x * size + size + (n - x - 1) * size;
  }

  lemma ItemsApart(x: nat, y: nat, size: nat)
    requires x < y
    ensures x * size + size <= y * size
  {
    ItemInside(x, y, size);
  }

  function Item(v: Frozen, m: Mem, x: nat): (item: seq<byte>)
    requires v.layout.Some? && x < v.layout.value.numItems && Readable(m, v.addr, v.Extent())
    ensures |item| == |v.data|
  {
    ItemInside(x, v.layout.value.numItems, |v.data|);
    Contents(m, v.addr + x * |v.data|, |v.data|)
  }

  lemma ItemSlice(v: Frozen, m: Mem, x: nat, contents: seq<byte>)
    requires v.layout.Some? && x < v.layout.value.numItems && Readable(m, v.addr, v.Extent())
    requires contents == Contents(m, v.addr, v.Extent())
    ensures var start := x * |v.data|;
            0 <= start <= start + |v.data| <= |contents| && contents[start..start + |v.data|] == Item(v, m, x)
  {
    ItemInside(x, v.layout.value.numItems, |v.data|);
  }

  /** The least item at or after `x` that is a candidate; the number of items if there is none. */
  function FirstCandidate(v: Frozen, m: Mem, x: nat): (r: nat)
    requires ValidFrozen(v) && v.layout.Some? && x <= v.layout.value.numItems && Readable(m, v.addr, v.Extent())
    ensures x <= r <= v.layout.value.numItems
    ensures forall y :: x <= y < r ==> !Candidate(v, Item(v, m, y))
    ensures r < v.layout.value.numItems ==> Candidate(v, Item(v, m, r))
    decreases v.layout.value.numItems - x
  {
    if x == v.layout.value.numItems || Candidate(v, Item(v, m, x)) then x else FirstCandidate(v, m, x + 1)
  }

  /** Where an array region's data goes. */
  function ItemAddr(v: Frozen, x: nat): nat {
    v.addr + x * |v.data|
  }

  /** Where writing a region once puts its data; nothing if it writes nothing. */
  function Placed(v: Frozen, m: Mem): Option<nat>
    requires ValidFrozen(v)
  {
    if v.layout.None? then (if Writable(m, v.addr, |v.data|) then Some(v.addr) else None)
    else if !Readable(m, v.addr, v.Extent()) then None
    else
      var x := FirstCandidate(v, m, 0);
      if x == v.layout.value.numItems || Item(v, m, x) == v.data || !Writable(m, ItemAddr(v, x), |v.data|) then None
      else Some(ItemAddr(v, x))
  }

  /** The memory after writing a region once. */
  function AfterWrite(v: Frozen, m: Mem): (m': Mem)
    requires ValidFrozen(v)
    ensures m'.writable == m.writable && m'.bytes.Keys == m.bytes.Keys
  {
    match Placed(v, m)
    case Some(start) => Written(m, start, v.data)
    case None => m
  }

  // ---------- what a write means ----------

  /** What writing the region once puts into byte `a`, if it writes that byte. */
  function Put(v: Frozen, m: Mem, a: nat): Option<byte>
    requires ValidFrozen(v)
  {
    var start := Placed(v, m);
    if start.Some? && start.value <= a < start.value + |v.data| then Some(v.data[a - start.value]) else None
  }

  lemma PlacedWritable(v: Frozen, m: Mem)
    requires ValidFrozen(v)
    ensures Placed(v, m).Some? ==> Writable(m, Placed(v, m).value, |v.data|)
  {
  }

  lemma WrittenByte(m: Mem, start: nat, data: seq<byte>, a: nat)
    requires a in m.bytes && Writable(m, start, |data|)
    ensures Written(m, start, data).bytes[a] == if start <= a < start + |data| then data[a - start] else m.bytes[a]
  {
  }

  /** A write changes exactly the bytes it writes, to the bytes of the data. */
  lemma WriteByte(v: Frozen, m: Mem, a: nat)
    requires ValidFrozen(v) && a in m.bytes
    ensures AfterWrite(v, m).bytes[a] ==
      match Put(v, m, a)
      case Some(b) => b
      case None => m.bytes[a]
  {
    PlacedWritable(v, m);
    if Placed(v, m).Some? {
      WrittenByte(m, Placed(v, m).value, v.data, a);
    }
  }

  /** Two memories that a region cannot tell apart. */
  predicate SameOn(v: Frozen, m1: Mem, m2: Mem) {
    && m1.writable == m2.writable
    && m1.bytes.Keys == m2.bytes.Keys
    && forall a :: a in m1.bytes && v.Covers(a) ==> m1.bytes[a] == m2.bytes[a]
  }

  lemma SameItem(v: Frozen, m1: Mem, m2: Mem, x: nat)
    requires v.layout.Some? && SameOn(v, m1, m2) && x < v.layout.value.numItems && Readable(m1, v.addr, v.Extent())
    ensures Readable(m2, v.addr, v.Extent()) && Item(v, m1, x) == Item(v, m2, x)
  {
    ItemInside(x, v.layout.value.numItems, |v.data|);
  }

  /** Where a write goes depends on the bytes of the region only. */
  lemma SamePlace(v: Frozen, m1: Mem, m2: Mem)
    requires ValidFrozen(v) && SameOn(v, m1, m2)
    ensures Placed(v, m1) == Placed(v, m2)
  {
    if v.layout.Some? && Readable(m1, v.addr, v.Extent()) {
      var x := FirstCandidate(v, m1, 0);
      forall y | 0 <= y < v.layout.value.numItems
        ensures Item(v, m1, y) == Item(v, m2, y)
      {
        SameItem(v, m1, m2, y);
      }
      CandidateUnique(v, m2, x);
      if x < v.layout.value.numItems {
        SameItem(v, m1, m2, x);
      }
    }
  }

  lemma WriteKeepsSame(v: Frozen, m1: Mem, m2: Mem)
    requires ValidFrozen(v) && SameOn(v, m1, m2)
    ensures SameOn(v, AfterWrite(v, m1), AfterWrite(v, m2))
  {
    SamePlace(v, m1, m2);
    forall a | a in m1.bytes && v.Covers(a)
      ensures AfterWrite(v, m1).bytes[a] == AfterWrite(v, m2).bytes[a]
    {
      WriteByte(v, m1, a);
      WriteByte(v, m2, a);
    }
  }

  /** No write changes a byte outside the region. */
  lemma OutsideUnchanged(v: Frozen, m: Mem, a: nat)
    requires ValidFrozen(v) && a in m.bytes && !v.Covers(a)
    ensures AfterWrite(v, m).bytes[a] == m.bytes[a]
  {
    if v.layout.Some? && Readable(m, v.addr, v.Extent()) {
      var x := FirstCandidate(v, m, 0);
      if x < v.layout.value.numItems {
        ItemInside(x, v.layout.value.numItems, |v.data|);
      }
    }
  }

  lemma CandidateUnique(v: Frozen, m: Mem, x: nat)
    requires ValidFrozen(v) && v.layout.Some? && x <= v.layout.value.numItems && Readable(m, v.addr, v.Extent())
    requires forall y :: 0 <= y < x ==> !Candidate(v, Item(v, m, y))
    requires x < v.layout.value.numItems ==> Candidate(v, Item(v, m, x))
    ensures FirstCandidate(v, m, 0) == x
  {
  }

  /** None of the first `x` items is a candidate. */
  predicate NoneBefore(v: Frozen, m: Mem, x: nat)
    requires ValidFrozen(v) && v.layout.Some? && x <= v.layout.value.numItems && Readable(m, v.addr, v.Extent())
  {
    forall y :: 0 <= y < x ==> !Candidate(v, Item(v, m, y))
  }

  lemma FirstIs(v: Frozen, m: Mem, x: nat)
    requires ValidFrozen(v) && v.layout.Some? && x <= v.layout.value.numItems && Readable(m, v.addr, v.Extent())
    requires NoneBefore(v, m, x) && (x < v.layout.value.numItems ==> Candidate(v, Item(v, m, x)))
    ensures FirstCandidate(v, m, 0) == x
  {
    CandidateUnique(v, m, x);
  }

  lemma WrittenItem(v: Frozen, m: Mem, x: nat)
    requires v.layout.Some? && x < v.layout.value.numItems && Readable(m, v.addr, v.Extent())
    ensures var after, start := Written(m, ItemAddr(v, x), v.data), ItemAddr(v, x);
            && Readable(after, v.addr, v.Extent())
            && (Writable(m, start, |v.data|) ==> Item(v, after, x) == v.data)
            && (!Writable(m, start, |v.data|) ==> after == m)
            && forall a :: a in m.bytes && !(start <= a < start + |v.data|) ==> after.bytes[a] == m.bytes[a]
  {
    ItemInside(x, v.layout.value.numItems, |v.data|);
  }

  lemma CandidateWrite(v: Frozen, m: Mem, x: nat)
    requires ValidFrozen(v) && v.layout.Some? && x <= v.layout.value.numItems && Readable(m, v.addr, v.Extent())
    requires forall y :: 0 <= y < x ==> !Candidate(v, Item(v, m, y))
    requires x < v.layout.value.numItems ==> Candidate(v, Item(v, m, x))
    ensures x == v.layout.value.numItems ==> AfterWrite(v, m) == m && forall e :: ErrorAfter(v, m, e) == NoSpace
    ensures x < v.layout.value.numItems ==>
      && (Writable(m, ItemAddr(v, x), |v.data|) ==> Item(v, AfterWrite(v, m), x) == v.data)
      && (!Writable(m, ItemAddr(v, x), |v.data|) ==> AfterWrite(v, m) == m)
      && forall a ::
           a in m.bytes && !(ItemAddr(v, x) <= a < ItemAddr(v, x) + |v.data|) ==>
             AfterWrite(v, m).bytes[a] == m.bytes[a]
  {
    CandidateUnique(v, m, x);
    if x < v.layout.value.numItems {
      WrittenItem(v, m, x);
    }
  }

  /** The bytes of item `x` are those of the data wherever the mask byte is not zero; or the item is null:
      those of the null data wherever its mask byte is not zero or, without null data, all zero. */
  ghost predicate Suits(v: Frozen, m: Mem, x: nat)
    requires ValidFrozen(v) && v.layout.Some? && x < v.layout.value.numItems && Readable(m, v.addr, v.Extent())
  {
    ItemInside(x, v.layout.value.numItems, |v.data|);
    var info, start := v.layout.value, v.addr + x * |v.data|;
    var end := start + |v.data|;
    || (forall a :: start <= a < end && info.mask[a - start] != 0 ==> m.bytes[a] == v.data[a - start])
    || if info.nullData != [] then
         forall a :: start <= a < end && info.nullMask[a - start] != 0 ==> m.bytes[a] == info.nullData[a - start]
       else forall a :: start <= a < end ==> m.bytes[a] == 0
  }

  lemma EqualBytes(m: Mem, start: nat, b: seq<byte>, mask: seq<byte>)
    requires Readable(m, start, |b|) && |mask| == |b|
    ensures EqualUnder(Contents(m, start, |b|), b, mask)
       <==> forall a :: start <= a < start + |b| && mask[a - start] != 0 ==> m.bytes[a] == b[a - start]
  {
    var item := Contents(m, start, |b|);
    if EqualUnder(item, b, mask) {
      forall a | start <= a < start + |b| && mask[a - start] != 0
        ensures m.bytes[a] == b[a - start]
      {
        assert item[a - start] == m.bytes[a];
      }
    }
  }

  lemma ZeroBytes(m: Mem, start: nat, n: nat)
    requires Readable(m, start, n)
    ensures AllZero(Contents(m, start, n)) <==> forall a :: start <= a < start + n ==> m.bytes[a] == 0
  {
    var item := Contents(m, start, n);
    if AllZero(item) {
      forall a | start <= a < start + n
        ensures m.bytes[a] == 0
      {
        assert item[a - start] == m.bytes[a];
      }
    }
  }

  lemma SuitsIsCandidate(v: Frozen, m: Mem, x: nat)
    requires ValidFrozen(v) && v.layout.Some? && x < v.layout.value.numItems && Readable(m, v.addr, v.Extent())
    ensures Suits(v, m, x) <==> Candidate(v, Item(v, m, x))
  {
    ItemInside(x, v.layout.value.numItems, |v.data|);
    var info, start := v.layout.value, v.addr + x * |v.data|;
    EqualBytes(m, start, v.data, info.mask);
    if info.nullData != [] {
      EqualBytes(m, start, info.nullData, info.nullMask);
    }
    ZeroBytes(m, start, |v.data|);
  }

  /** Main result for array freezes, on bytes. Let `x` be the least item that holds the data up to masked
      bytes or is null, if there is one. Without one, nothing changes. Otherwise, if all of the item can be
      written, its bytes become those of the data and no other byte changes; if not, nothing does. */
  lemma ArrayWriteMeaning(v: Frozen, m: Mem, x: nat, start: nat)
    requires ValidFrozen(v) && v.layout.Some? && x <= v.layout.value.numItems && Readable(m, v.addr, v.Extent())
    requires forall y :: 0 <= y < x ==> !Suits(v, m, y)
    requires x < v.layout.value.numItems ==> Suits(v, m, x)
    requires start == v.addr + x * |v.data|
    ensures AfterWrite(v, m).writable == m.writable && AfterWrite(v, m).bytes.Keys == m.bytes.Keys
    ensures x == v.layout.value.numItems ==> AfterWrite(v, m).bytes == m.bytes
    ensures x < v.layout.value.numItems ==>
      if Writable(m, start, |v.data|) then
        forall a :: a in m.bytes ==>
          AfterWrite(v, m).bytes[a] == if start <= a < start + |v.data| then v.data[a - start] else m.bytes[a]
      else AfterWrite(v, m).bytes == m.bytes
  {
    ItemWritten(v, m, x);
    assert start == ItemAddr(v, x);
    if x < v.layout.value.numItems {
      OverwrittenBytes(m, start, v.data, AfterWrite(v, m));
    }
  }

  lemma ItemWritten(v: Frozen, m: Mem, x: nat)
    requires ValidFrozen(v) && v.layout.Some? && x <= v.layout.value.numItems && Readable(m, v.addr, v.Extent())
    requires forall y :: 0 <= y < x ==> !Suits(v, m, y)
    requires x < v.layout.value.numItems ==> Suits(v, m, x)
    ensures x == v.layout.value.numItems ==> AfterWrite(v, m) == m
    ensures x < v.layout.value.numItems ==>
      var start := ItemAddr(v, x);
      Readable(m, start, |v.data|) && AfterWrite(v, m) == Overwritten(m, start, v.data)
  {
    LeastSuited(v, m, x);
    if x < v.layout.value.numItems {
      ItemPlaced(v, m, x);
    }
  }

  lemma LeastSuited(v: Frozen, m: Mem, x: nat)
    requires ValidFrozen(v) && v.layout.Some? && x <= v.layout.value.numItems && Readable(m, v.addr, v.Extent())
    requires forall y :: 0 <= y < x ==> !Suits(v, m, y)
    requires x < v.layout.value.numItems ==> Suits(v, m, x)
    ensures FirstCandidate(v, m, 0) == x
    ensures forall y :: 0 <= y < x ==> !Candidate(v, Item(v, m, y))
    ensures x < v.layout.value.numItems ==> Candidate(v, Item(v, m, x))
  {
    forall y | 0 <= y < v.layout.value.numItems
      ensures Suits(v, m, y) <==> Candidate(v, Item(v, m, y))
    {
      SuitsIsCandidate(v, m, y);
    }
    CandidateUnique(v, m, x);
  }

  lemma ItemContents(v: Frozen, m: Mem, x: nat)
    requires ValidFrozen(v) && v.layout.Some? && x < v.layout.value.numItems && Readable(m, v.addr, v.Extent())
    ensures Readable(m, ItemAddr(v, x), |v.data|)
    ensures Item(v, m, x) == Contents(m, ItemAddr(v, x), |v.data|)
  {
    ItemInside(x, v.layout.value.numItems, |v.data|);
  }

  lemma ItemPlaced(v: Frozen, m: Mem, x: nat)
    requires ValidFrozen(v) && v.layout.Some? && x < v.layout.value.numItems && Readable(m, v.addr, v.Extent())
    requires FirstCandidate(v, m, 0) == x
    ensures Readable(m, ItemAddr(v, x), |v.data|)
    ensures AfterWrite(v, m) == Overwritten(m, ItemAddr(v, x), v.data)
  {
    ItemContents(v, m, x);
  }

  function Overwritten(m: Mem, start: nat, data: seq<byte>): Mem
    requires Readable(m, start, |data|)
  {
    if Contents(m, start, |data|) == data || !Writable(m, start, |data|) then m else Written(m, start, data)
  }

  /** Bytes that equal the data or cannot be written stay as they are; any others become the data. */
  lemma OverwrittenBytes(m: Mem, start: nat, data: seq<byte>, after: Mem)
    requires Readable(m, start, |data|) && after == Overwritten(m, start, data)
    ensures if Writable(m, start, |data|) then
              forall a :: a in m.bytes ==>
                after.bytes[a] == if start <= a < start + |data| then data[a - start] else m.bytes[a]
            else after.bytes == m.bytes
  {
    var item := Contents(m, start, |data|);
    if item == data {
      forall a | start <= a < start + |data|
        ensures m.bytes[a] == data[a - start]
      {
        assert item[a - start] == m.bytes[a];
      }
    }
  }

  /** A plain region: if all of it can be read and written, its bytes become those of the data and no other
      byte changes; if not, nothing does. */
  lemma PlainWriteMeaning(v: Frozen, m: Mem)
    requires v.layout.None?
    ensures AfterWrite(v, m).writable == m.writable && AfterWrite(v, m).bytes.Keys == m.bytes.Keys
    ensures if forall a: nat :: v.addr <= a < v.addr + |v.data| ==> a in m.writable && a in m.bytes then
              forall a :: a in m.bytes ==>
                AfterWrite(v, m).bytes[a] ==
                  if v.addr <= a < v.addr + |v.data| then v.data[a - v.addr] else m.bytes[a]
            else AfterWrite(v, m).bytes == m.bytes
  {
  }

  /** Writing a region again changes nothing: the first item found is the one just written. */
  lemma WriteTwice(v: Frozen, m: Mem)
    requires ValidFrozen(v)
    ensures AfterWrite(v, AfterWrite(v, m)) == AfterWrite(v, m)
  {
    var m' := AfterWrite(v, m);
    if v.layout.Some? && Readable(m, v.addr, v.Extent()) {
      var x := FirstCandidate(v, m, 0);
      if x < v.layout.value.numItems && m' != m {
        CandidateWrite(v, m, x);
        forall y | 0 <= y < x
          ensures Item(v, m', y) == Item(v, m, y)
        {
          ItemsApart(y, x, |v.data|);
          ItemInside(y, v.layout.value.numItems, |v.data|);
        }
        CandidateUnique(v, m', x);
      }
    } else if v.layout.None? && m' != m {
      assert Written(m', v.addr, v.data).bytes == m'.bytes;
    }
  }

  /** The manual says that nothing is written if the data is present in the array. That is so exactly
      if the first item that holds the data or is null is equal to the data: an earlier item that is
      null, or equal up to masked bytes, is overwritten although the data is present further down. */
  lemma PresentDataUntouchedIff(v: Frozen, m: Mem)
    requires ValidFrozen(v) && v.layout.Some? && Readable(m, v.addr, v.Extent()) && Writable(m, v.addr, v.Extent())
    requires exists y :: 0 <= y < v.layout.value.numItems && Item(v, m, y) == v.data
    ensures FirstCandidate(v, m, 0) < v.layout.value.numItems
    ensures AfterWrite(v, m) == m <==> Item(v, m, FirstCandidate(v, m, 0)) == v.data
  {
    var y :| 0 <= y < v.layout.value.numItems && Item(v, m, y) == v.data;
    assert Candidate(v, Item(v, m, y));
    var x := FirstCandidate(v, m, 0);
    ItemInside(x, v.layout.value.numItems, |v.data|);
    CandidateWrite(v, m, x);
  }

  /** An array of one null item followed by the data: the data is written a second time. */
  lemma DuplicateExample()
    ensures var v := Frozen("", 8, [7], Some(ArrayInfo(2, [0xFF], [], [])), true);
            var m := Mem(map[8 := 0, 9 := 7], {8, 9});
            ValidFrozen(v) && AfterWrite(v, m).bytes == map[8 := 7, 9 := 7]
  {
    var v := Frozen("", 8, [7], Some(ArrayInfo(2, [0xFF], [], [])), true);
    var m := Mem(map[8 := 0, 9 := 7], {8, 9});
    assert v.Extent() == 2 && Readable(m, 8, 2);
    assert Candidate(v, Item(v, m, 0));
    CandidateUnique(v, m, 0);
    assert Writable(m, 8, 1);
    assert AfterWrite(v, m) == Written(m, 8, [7]);
  }

  datatype WriteError = NoError | CannotRead | CannotWrite | NoSpace

  /** The region's error after writing it. A write of an array item that succeeds leaves it as it was. */
  function ErrorAfter(v: Frozen, m: Mem, before: WriteError): WriteError
    requires ValidFrozen(v)
  {
    if v.layout.None? then (if Writable(m, v.addr, |v.data|) then NoError else CannotWrite)
    else if !Readable(m, v.addr, v.Extent()) then CannotRead
    else
      var x := FirstCandidate(v, m, 0);
      if x == v.layout.value.numItems then NoSpace
      else if Item(v, m, x) == v.data then NoError
      else if Writable(m, ItemAddr(v, x), |v.data|) then before
      else CannotWrite
  }

  /** The error of an array, on bytes. It has no space if no item suits. Otherwise, if the least item that
      suits equals the data already, there is no error; if it can be written, the error stays as it was; if
      it cannot, there is one. */
  lemma ErrorMeaning(v: Frozen, m: Mem, before: WriteError, x: nat, start: nat)
    requires ValidFrozen(v) && v.layout.Some? && x <= v.layout.value.numItems && Readable(m, v.addr, v.Extent())
    requires forall y :: 0 <= y < x ==> !Suits(v, m, y)
    requires x < v.layout.value.numItems ==> Suits(v, m, x)
    requires start == v.addr + x * |v.data|
    ensures x == v.layout.value.numItems ==> ErrorAfter(v, m, before) == NoSpace
    ensures x < v.layout.value.numItems ==>
      ErrorAfter(v, m, before) ==
        if forall a :: start <= a < start + |v.data| ==> a in m.bytes && m.bytes[a] == v.data[a - start] then NoError
        else if Writable(m, start, |v.data|) then before
        else CannotWrite
  {
    ItemError(v, m, before, x);
    assert start == ItemAddr(v, x);
    if x < v.layout.value.numItems {
      OverwriteErrors(m, start, v.data, before);
    }
  }

  function OverwriteError(m: Mem, start: nat, data: seq<byte>, before: WriteError): WriteError
    requires Readable(m, start, |data|)
  {
    if Contents(m, start, |data|) == data then NoError
    else if Writable(m, start, |data|) then before
    else CannotWrite
  }

  lemma OverwriteErrors(m: Mem, start: nat, data: seq<byte>, before: WriteError)
    requires Readable(m, start, |data|)
    ensures OverwriteError(m, start, data, before) ==
      if forall a :: start <= a < start + |data| ==> a in m.bytes && m.bytes[a] == data[a - start] then NoError
      else if Writable(m, start, |data|) then before
      else CannotWrite
  {
    var item := Contents(m, start, |data|);
    if item == data {
      forall a | start <= a < start + |data|
        ensures a in m.bytes && m.bytes[a] == data[a - start]
      {
        assert item[a - start] == m.bytes[a];
      }
    }
  }

  lemma ItemError(v: Frozen, m: Mem, before: WriteError, x: nat)
    requires ValidFrozen(v) && v.layout.Some? && x <= v.layout.value.numItems && Readable(m, v.addr, v.Extent())
    requires forall y :: 0 <= y < x ==> !Suits(v, m, y)
    requires x < v.layout.value.numItems ==> Suits(v, m, x)
    ensures x == v.layout.value.numItems ==> ErrorAfter(v, m, before) == NoSpace
    ensures x < v.layout.value.numItems ==>
      var start := ItemAddr(v, x);
      Readable(m, start, |v.data|) && ErrorAfter(v, m, before) == OverwriteError(m, start, v.data, before)
  {
    LeastSuited(v, m, x);
    if x < v.layout.value.numItems {
      PlacedError(v, m, before, x);
    }
  }

  lemma PlacedError(v: Frozen, m: Mem, before: WriteError, x: nat)
    requires ValidFrozen(v) && v.layout.Some? && x < v.layout.value.numItems && Readable(m, v.addr, v.Extent())
    requires FirstCandidate(v, m, 0) == x
    ensures Readable(m, ItemAddr(v, x), |v.data|)
    ensures ErrorAfter(v, m, before) == OverwriteError(m, ItemAddr(v, x), v.data, before)
  {
    ItemContents(v, m, x);
  }

  /** The other cases: a plain region fails if some of it cannot be written; an array fails, and is not
      written, if some of it cannot be read. */
  lemma OtherErrors(v: Frozen, m: Mem, before: WriteError)
    requires ValidFrozen(v)
    ensures v.layout.None? ==>
      ErrorAfter(v, m, before) ==
        if forall a: nat :: v.addr <= a < v.addr + |v.data| ==> a in m.writable && a in m.bytes then NoError
        else CannotWrite
    ensures v.layout.Some? ==>
      var size := v.layout.value.numItems * |v.data|;
      (exists a: nat :: v.addr <= a < v.addr + size && a !in m.bytes) ==>
        ErrorAfter(v, m, before) == CannotRead && AfterWrite(v, m) == m
  {
  }

  /** Two items of two bytes, with a mask that ignores the second byte: the first item holds the data up to
      that byte, and becomes equal to it; the null item after it stays. */
  lemma MaskedExample()
    ensures var v := Frozen("", 8, [1, 0], Some(ArrayInfo(2, [0xFF, 0], [], [])), true);
            var m := Mem(map[8 := 1, 9 := 5, 10 := 0, 11 := 0], {8, 9, 10, 11});
            var after := Mem(map[8 := 1, 9 := 0, 10 := 0, 11 := 0], {8, 9, 10, 11});
            ValidFrozen(v) && AfterWrite(v, m) == after
  {
    var v := Frozen("", 8, [1, 0], Some(ArrayInfo(2, [0xFF, 0], [], [])), true);
    var m := Mem(map[8 := 1, 9 := 5, 10 := 0, 11 := 0], {8, 9, 10, 11});
    assert v.Extent() == 4 && Readable(m, 8, 4);
    var after := Mem(map[8 := 1, 9 := 0, 10 := 0, 11 := 0], {8, 9, 10, 11});
    ExampleWrite(v, m, 0, 8, after);
  }

  /** Two items of two bytes, with null data whose second byte is masked: the first item is all zero but not
      null; the second is null, although its second byte differs, and becomes the data. */
  lemma NullDataExample()
    ensures var v := Frozen("", 8, [7, 7], Some(ArrayInfo(2, [0xFF, 0xFF], [9, 0], [0xFF, 0])), true);
            var m := Mem(map[8 := 0, 9 := 0, 10 := 9, 11 := 5], {8, 9, 10, 11});
            var after := Mem(map[8 := 0, 9 := 0, 10 := 7, 11 := 7], {8, 9, 10, 11});
            ValidFrozen(v) && AfterWrite(v, m) == after
  {
    var v := Frozen("", 8, [7, 7], Some(ArrayInfo(2, [0xFF, 0xFF], [9, 0], [0xFF, 0])), true);
    var m := Mem(map[8 := 0, 9 := 0, 10 := 9, 11 := 5], {8, 9, 10, 11});
    assert v.Extent() == 4 && Readable(m, 8, 4);
    NotSuited(v, m);
    NullSuits(v, m, 10);
    var after := Mem(map[8 := 0, 9 := 0, 10 := 7, 11 := 7], {8, 9, 10, 11});
    ExampleWrite(v, m, 1, 10, after);
  }

  lemma NotSuited(v: Frozen, m: Mem)
    requires ValidFrozen(v) && v.layout.Some? && 0 < v.layout.value.numItems && Readable(m, v.addr, v.Extent())
    requires var info := v.layout.value;
             && v.data != [] && v.addr in m.bytes && info.mask[0] != 0 && m.bytes[v.addr] != v.data[0]
             && info.nullData != [] && info.nullMask[0] != 0 && m.bytes[v.addr] != info.nullData[0]
    ensures !Suits(v, m, 0)
  {
  }

  lemma NullSuits(v: Frozen, m: Mem, start: nat)
    requires ValidFrozen(v) && v.layout.Some? && 2 == v.layout.value.numItems && Readable(m, v.addr, v.Extent())
    requires |v.data| == 2 && start == v.addr + 2 && start in m.bytes
    requires var info := v.layout.value;
             info.nullData != [] && m.bytes[start] == info.nullData[0] && info.nullMask[1] == 0
    ensures Suits(v, m, 1)
  {
  }

  lemma ExampleWrite(v: Frozen, m: Mem, x: nat, start: nat, after: Mem)
    requires ValidFrozen(v) && v.layout.Some? && x < 2 == v.layout.value.numItems && Readable(m, v.addr, v.Extent())
    requires |v.data| == 2 && start == v.addr + 2 * x && start in m.bytes && start + 1 in m.bytes
    requires m.writable == m.bytes.Keys
    requires x == 1 ==> !Suits(v, m, 0)
    requires Suits(v, m, x)
    requires after == Mem(m.bytes[start := v.data[0]][start + 1 := v.data[1]], m.writable)
    ensures AfterWrite(v, m) == after
  {
    ItemWritten(v, m, x);
    assert start == ItemAddr(v, x);
    TwoBytesPut(m, start, v.data, after);
  }

  lemma TwoBytesPut(m: Mem, start: nat, data: seq<byte>, after: Mem)
    requires |data| == 2 && start in m.bytes && start + 1 in m.bytes && m.writable == m.bytes.Keys
    requires after == Mem(m.bytes[start := data[0]][start + 1 := data[1]], m.writable)
    ensures Readable(m, start, |data|) && Overwritten(m, start, data) == after
  {
    OverwrittenBytes(m, start, data, Overwritten(m, start, data));
    assert Overwritten(m, start, data).bytes == after.bytes;
  }

  class FrozenRegion {
    const name: string
    const index: nat
    const addr: nat
    const data: seq<byte>
    const layout: Option<ArrayInfo>
    var error: WriteError
    var enable: bool

    function Value(): Frozen
      reads this
    {
      Frozen(name, addr, data, layout, enable)
    }

    ghost predicate Valid() {
      ValidFrozen(Frozen(name, addr, data, layout, true))
    }

    constructor (name: string, index: nat, addr: nat, data: seq<byte>, layout: Option<ArrayInfo>, enable: bool)
      requires ValidFrozen(Frozen(name, addr, data, layout, enable))
      ensures Valid() && Value() == Frozen(name, addr, data, layout, enable) && this.index == index && error == NoError
    {
      this.name := name;
      this.index := index;
      this.addr := addr;
      this.data := data;
      this.layout := layout;
      this.error := NoError;
      this.enable := enable;
    }

    /** Writes the region's data once; a failure is recorded, not reported. */
    method Write(target: Target)
      requires Valid()
      modifies this`error, target
      ensures target.mem == AfterWrite(old(Value()), old(target.mem))
      ensures error == ErrorAfter(old(Value()), old(target.mem), old(error))
    {
      if layout.None? {
        var ok := target.Write(addr, data);
        error := if ok then NoError else CannotWrite;
      } else {
        WriteArray(target);
      }
    }

    /** Makes the first item that holds the data or is null hold exactly the data. */
    method WriteArray(target: Target)
      requires Valid() && layout.Some?
      modifies this`error, target
      ensures target.mem == AfterWrite(old(Value()), old(target.mem))
      ensures error == ErrorAfter(old(Value()), old(target.mem), old(error))
    {
      var contents := target.Read(addr, layout.value.numItems * |data|);
      if contents.None? {
        error := CannotRead;
        return;
      }
      ghost var v, m := Value(), target.mem;
      var x, present := FindItem(m, contents.value);
      assert AfterWrite(v, m) ==
        if present || x == layout.value.numItems then m else Written(m, addr + x * |data|, data);
      if present {
        error := NoError;
      } else if x == layout.value.numItems {
        error := NoSpace;
      } else {
        var ok := target.Write(addr + x * |data|, data);
        error := if ok then error else CannotWrite;
      }
    }

    /** Searches the array for the first item that holds the data or is null; `present` says that the
        item equals the data already. */
    method FindItem(ghost m: Mem, contents: seq<byte>) returns (x: nat, present: bool)
      requires Valid() && layout.Some?
      requires Readable(m, addr, Value().Extent()) && contents == Contents(m, addr, Value().Extent())
      ensures x == FirstCandidate(Value(), m, 0)
      ensures present <==> x < layout.value.numItems && Item(Value(), m, x) == data
    {
      var info := layout.value;
      ghost var v := Value();
      x := 0;
      while x < info.numItems
        invariant x <= info.numItems && NoneBefore(v, m, x)
      {
        ItemSlice(v, m, x, contents);
        var item := contents[x * |data|..x * |data| + |data|];
        var found;
        found, present := Recognise(item);
        if found {
          FirstIs(v, m, x);
          return;
        }
        x := x + 1;
      }
      FirstIs(v, m, x);
      present := false;
    }

    /** Whether an array item holds the data or is null, and whether it equals the data. */
    method Recognise(item: seq<byte>) returns (found: bool, present: bool)
      requires Valid() && layout.Some? && |item| == |data|
      ensures found <==> Candidate(Value(), item)
      ensures present <==> item == data
    {
      var cmp := MemcmpMask(item, data, layout.value.mask);
      if cmp >= 0 {
        return true, cmp == 0;
      }
      found := HoldsNull(item);
      present := false;
    }

    /** Whether an array item is null. */
    method HoldsNull(item: seq<byte>) returns (isNull: bool)
      requires Valid() && layout.Some? && |item| == |data|
      ensures isNull == IsNull(Value(), item)
    {
      if layout.value.nullData != [] {
        var cmp := MemcmpMask(item, layout.value.nullData, layout.value.nullMask);
        return cmp >= 0;
      }
      var y := 0;
      while y < |data| && item[y] == 0
        invariant y <= |data| && forall i :: 0 <= i < y ==> item[i] == 0
      {
        y := y + 1;
      }
      return y == |data|;
    }
  }
}
