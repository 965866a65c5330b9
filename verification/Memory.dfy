/** Memory snapshots as the searches see them: lists of regions with optional contents,
    and the ascending address lists that every search produces. */
module Memory {

  datatype Option<+T> = None | Some(value: T)

  type byte = x: int | 0 <= x < 256

  /** One past the largest 64-bit address. */
  const WORD := 0x1_0000_0000_0000_0000

  /** Unsigned 64-bit subtraction, which wraps. */
  function UnsignedMinus(a: nat, b: nat): nat {
    (a - b) % WORD
  }

  /** `n` bytes from offset `y` on do not lie within `size` bytes. */
  predicate RunsPast(size: nat, n: nat, y: nat) {
    size < y + n
  }

  /** A mapped region. `data` is empty when the region has not been (or could not be) read. */
  datatype Region = Region(addr: nat, size: nat, protection: nat, data: seq<byte>) {
    function End(): nat {
      addr + size
    }

    predicate Contains(a: int) {
      addr <= a < End()
    }

    predicate HasData() {
      data != []
    }

    /** The `width` bytes at address `a`; empty if they do not all lie in the region's data. */
    function Cell(a: int, width: nat): (c: seq<byte>)
      ensures c == [] || |c| == width
    {
      if addr <= a && a - addr + width <= |data| then data[a - addr..a - addr + width] else []
    }
  }

  /** The operating system reports non-empty, page-aligned regions that do not reach the top of the
      address space, and a read either fails (no data) or returns the whole region. */
  predicate WellFormed(r: Region) {
    && 0 < r.size
    && r.addr % 8 == 0
    && r.size % 8 == 0
    && r.End() < WORD
    && (r.HasData() ==> |r.data| == r.size)
  }

  /** A memory map: well-formed regions, disjoint and in ascending order. */
  predicate ValidMap(m: seq<Region>) {
    && (forall i :: 0 <= i < |m| ==> WellFormed(m[i]))
    && (forall i, j :: 0 <= i < j < |m| ==> m[i].End() <= m[j].addr)
  }

  /** Where the stretch of addresses leading up to region `i` begins. */
  function EndBefore(m: seq<Region>, i: nat): nat
    requires i <= |m|
  {
    if i == 0 then 0 else m[i - 1].End()
  }

  ghost predicate IsReadableAt(m: seq<Region>, a: int, i: int) {
    0 <= i < |m| && m[i].HasData() && m[i].Contains(a)
  }

  /** The region of `m` that holds address `a` and has data, if there is one. */
  ghost function Lookup(m: seq<Region>, a: int): Option<Region> {
    if i :| IsReadableAt(m, a, i) then Some(m[i]) else None
  }

  lemma LookupCases(m: seq<Region>, a: int)
    ensures Lookup(m, a).None? ==> forall i :: !IsReadableAt(m, a, i)
    ensures Lookup(m, a).Some? ==> exists i :: IsReadableAt(m, a, i) && Lookup(m, a).value == m[i]
  {
  }

  lemma LookupAt(m: seq<Region>, a: int, i: nat)
    requires ValidMap(m) && IsReadableAt(m, a, i)
    ensures Lookup(m, a) == Some(m[i])
  {
    var r := Lookup(m, a);
    LookupCases(m, a);
    var j: int :| IsReadableAt(m, a, j) && r.value == m[j];
    assert 0 <= j < |m|;
  }

  /** Looking up an address finds the region with data that it lies in, if there is one. */
  lemma LookupMeaning(m: seq<Region>, a: int)
    requires ValidMap(m)
    ensures Lookup(m, a).Some? <==> exists r :: r in m && r.data != [] && r.addr <= a < r.addr + r.size
    ensures forall r :: r in m && r.data != [] && r.addr <= a < r.addr + r.size ==> Lookup(m, a) == Some(r)
  {
    LookupCases(m, a);
    if Lookup(m, a).Some? {
      var i :| IsReadableAt(m, a, i) && Lookup(m, a).value == m[i];
      assert m[i] in m;
    }
    forall r | r in m && r.data != [] && r.addr <= a < r.addr + r.size
      ensures Lookup(m, a) == Some(r)
    {
      var i :| 0 <= i < |m| && m[i] == r;
      LookupAt(m, a, i);
    }
  }

  /** A cell that lies within its region's data has the bytes there. */
  lemma CellMeaning(r: Region, a: int, width: nat)
    requires r.addr <= a && a + width <= r.addr + |r.data|
    ensures |r.Cell(a, width)| == width
    ensures forall i :: 0 <= i < width ==> r.Cell(a, width)[i] == r.data[a - r.addr + i]
  {
  }

  /** Two maps that agree on which region, if any, holds `a` with data. */
  lemma LookupAgrees(m: seq<Region>, n: seq<Region>, a: int)
    requires ValidMap(m) && ValidMap(n)
    requires forall r :: r in n ==> r in m
    requires forall r :: r in m && r.Contains(a) ==> r in n
    ensures Lookup(m, a) == Lookup(n, a)
  {
    if i :| IsReadableAt(m, a, i) {
      var j :| 0 <= j < |n| && n[j] == m[i];
      LookupAt(m, a, i);
      LookupAt(n, a, j);
    } else {
      forall j | 0 <= j < |n|
        ensures !IsReadableAt(n, a, j)
      {
        assert n[j] in m;
        var i :| 0 <= i < |m| && m[i] == n[j];
        assert !IsReadableAt(m, a, i);
      }
    }
  }

  predicate Ascending(s: seq<nat>) {
    forall i, j :: 0 <= i < j < |s| ==> s[i] < s[j]
  }

  lemma HasMember(s: seq<nat>)
    ensures s == [] || exists a :: a in s
  {
    assert s == [] || s[0] in s;
  }

  /** An ascending list is determined by its members, so a membership condition together with
      `Ascending` pins down a result list completely, order and multiplicity included. */
  lemma {:induction false} AscendingUnique(s: seq<nat>, t: seq<nat>)
    requires Ascending(s) && Ascending(t)
    requires forall a :: a in s <==> a in t
    ensures s == t
    decreases |s|
  {
    HasMember(s);
    HasMember(t);
    if s != [] {
      assert s[0] in t && t[0] in s;
      assert s[0] == t[0];
      var s', t' := s[1..], t[1..];
      forall a
        ensures a in s' <==> a in t'
      {
        assert a in s <==> a == s[0] || a in s';
        assert a in t <==> a == t[0] || a in t';
        assert a in s' ==> a != s[0];
        assert a in t' ==> a != t[0];
      }
      AscendingUnique(s', t');
      assert s == [s[0]] + s' && t == [t[0]] + t';
    }
  }

  /** The subtraction gives the difference exactly if it does not wrap. */
  lemma UnsignedMinusIff(a: nat, b: nat)
    requires a < WORD && b < WORD
    ensures UnsignedMinus(a, b) == a - b <==> b <= a
    ensures a < b ==> a < UnsignedMinus(a, b)
  {
    if a < b {
      assert (a - b) % WORD == a - b + WORD;
    }
  }

  predicate IsFieldSize(f: nat) {
    f == 1 || f == 2 || f == 4 || f == 8
  }

  /** `y` is a multiple of the field size `f`. */
  predicate Aligned(y: int, f: nat) {
    && (f == 2 ==> y % 2 == 0)
    && (f == 4 ==> y % 4 == 0)
    && (f == 8 ==> y % 8 == 0)
  }

  lemma AlignedMeaning(y: int, f: nat)
    requires f == 1 || f == 2 || f == 4 || f == 8
    ensures Aligned(y, f) <==> y % f == 0
  {
  }
}
