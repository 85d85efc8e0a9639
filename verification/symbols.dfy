/** The profiler's symbol table: half-open address ranges kept in a
    sequence ordered by start address (src/profiler.cpp, include/profiler.h). */
module SymbolTable {
  import opened Wrappers
  import opened Machine

  /** One function of the profiled program, covering [start, end). */
  datatype FunctionDef = FunctionDef(start: U32, end: U32, name: string)

  /** Start-inclusive, end-exclusive membership of an address. */
  predicate Contains(f: FunctionDef, addr: int) {
    f.start <= addr < f.end
  }

  predicate Sorted(fs: seq<FunctionDef>) {
    forall i, j :: 0 <= i < j < |fs| ==> fs[i].start <= fs[j].start
  }

  /** No address belongs to two entries: every entry ends before any later one starts. */
  predicate Disjoint(fs: seq<FunctionDef>) {
    forall i, j :: 0 <= i < j < |fs| ==> fs[i].end <= fs[j].start
  }

  /** Position found by std::lower_bound on start addresses: the number of
      leading entries that start strictly below `s`. */
  function LowerBound(fs: seq<FunctionDef>, s: int): (p: nat)
    requires Sorted(fs)
    ensures p <= |fs|
    ensures forall i :: 0 <= i < p ==> fs[i].start < s
    ensures forall i :: p <= i < |fs| ==> s <= fs[i].start
  {
    if |fs| == 0 || s <= fs[0].start then 0 else 1 + LowerBound(fs[1..], s)
  }

  /** Position found by std::upper_bound on start addresses: the number of
      leading entries that start at or below `a`. */
  function UpperBound(fs: seq<FunctionDef>, a: int): (p: nat)
    requires Sorted(fs)
    ensures p <= |fs|
    ensures forall i :: 0 <= i < p ==> fs[i].start <= a
    ensures forall i :: p <= i < |fs| ==> a < fs[i].start
  {
    if |fs| == 0 || a < fs[0].start then 0 else 1 + UpperBound(fs[1..], a)
  }

  /** The upper bound is the only split point of a sorted table around `a`. */
  lemma UpperBoundUnique(fs: seq<FunctionDef>, a: int, q: nat)
    requires Sorted(fs) && q <= |fs|
    requires forall i :: 0 <= i < q ==> fs[i].start <= a
    requires forall i :: q <= i < |fs| ==> a < fs[i].start
    ensures q == UpperBound(fs, a)
  {
    var p := UpperBound(fs, a);
    assert p < |fs| ==> a < fs[p].start;
    assert q < |fs| ==> a < fs[q].start;
  }

  /** Inserting an entry at its lower-bound position keeps the table sorted
      and adds exactly that entry. */
  function Insert(fs: seq<FunctionDef>, f: FunctionDef): (r: seq<FunctionDef>)
    requires Sorted(fs)
    ensures Sorted(r)
    ensures |r| == |fs| + 1
    ensures multiset(r) == multiset(fs) + multiset{f}
    ensures forall i :: 0 <= i < |r| && r[i].start < f.start ==> r[i] in fs
  {
    var p := LowerBound(fs, f.start);
    assert fs == fs[..p] + fs[p..];
    fs[..p] + [f] + fs[p..]
  }

  /** Where Insert puts the new entry: after every entry starting below
      it and before every other one, so in front of entries with the same
      start, as std::lower_bound places it. */
  lemma InsertPosition(fs: seq<FunctionDef>, f: FunctionDef)
    requires Sorted(fs)
    ensures exists p :: 0 <= p <= |fs| && Insert(fs, f) == fs[..p] + [f] + fs[p..]
              && (forall i :: 0 <= i < p ==> fs[i].start < f.start)
              && (forall i :: p <= i < |fs| ==> f.start <= fs[i].start)
  {
    var p := LowerBound(fs, f.start);
    assert Insert(fs, f) == fs[..p] + [f] + fs[p..];
  }

  /** An entry added with the start of an existing one goes in front of
      it, and the order decides what a lookup finds: the one behind wins. */
  lemma InsertBeforeEqualStart()
    ensures var a := FunctionDef(0x100, 0x200, "a");
            var f := FunctionDef(0x100, 0x180, "f");
            Insert([a], f) == [f, a] && Lookup([f, a], 0x190) == Some(1) && Lookup([a, f], 0x190) == None
  {
    var a := FunctionDef(0x100, 0x200, "a");
    var f := FunctionDef(0x100, 0x180, "f");
    assert LowerBound([a], 0x100) == 0;
    assert [f, a][1..] == [a] && [a, f][1..] == [f];
    assert UpperBound([f, a], 0x190) == 2 && UpperBound([a, f], 0x190) == 2 by {
      assert [a][1..] == [] && [f][1..] == [];
    }
  }

  /** LookupFunction: the entry that owns `addr`, as an index into the
      table, or None. Only the last entry starting at or below `addr` is
      considered, exactly as the binary search does. */
  function Lookup(fs: seq<FunctionDef>, addr: int): (r: Option<nat>)
    requires Sorted(fs)
    ensures r.Some? ==> r.value < |fs| && Contains(fs[r.value], addr)
    ensures |fs| == 0 ==> r == None
  {
    var p := UpperBound(fs, addr);
    if p == 0 then None
    else if Contains(fs[p - 1], addr) then Some(p - 1)
    else None
  }

  /** In a disjoint table the lookup finds an entry exactly when that entry
      contains the address. */
  lemma LookupExact(fs: seq<FunctionDef>, addr: int, i: nat)
    requires Sorted(fs) && Disjoint(fs) && i < |fs|
    ensures Lookup(fs, addr) == Some(i) <==> Contains(fs[i], addr)
  {
    if Contains(fs[i], addr) {
      var p := UpperBound(fs, addr);
      assert i < p;
    }
  }

  /** A disjoint table answers None exactly for addresses no entry covers. */
  lemma LookupNoneExact(fs: seq<FunctionDef>, addr: int)
    requires Sorted(fs) && Disjoint(fs)
    ensures Lookup(fs, addr) == None <==> forall i :: 0 <= i < |fs| ==> !Contains(fs[i], addr)
  {
    if Lookup(fs, addr) == None {
      forall i | 0 <= i < |fs|
        ensures !Contains(fs[i], addr)
      {
        LookupExact(fs, addr, i);
      }
    }
  }

  /** The O(log n) search of LookupFunction: a binary search for the
      upper bound followed by the containment test. */
  method LookupBinary(fs: seq<FunctionDef>, addr: int) returns (r: Option<nat>)
    requires Sorted(fs)
    ensures r == Lookup(fs, addr)
  {
    if |fs| == 0 {
      return None;
    }
    var lo, hi := 0, |fs|;
    while lo < hi
      invariant 0 <= lo <= hi <= |fs|
      invariant forall i :: 0 <= i < lo ==> fs[i].start <= addr
      invariant forall i :: hi <= i < |fs| ==> addr < fs[i].start
      decreases hi - lo
    {
      var mid := lo + (hi - lo) / 2;
      if addr < fs[mid].start {
        hi := mid;
      } else {
        lo := mid + 1;
      }
    }
    UpperBoundUnique(fs, addr, lo);
    if lo == 0 {
      return None;
    }
    if fs[lo - 1].start <= addr < fs[lo - 1].end {
      return Some(lo - 1);
    }
    return None;
  }

  /** End address of a loaded symbol, clamped at UINT32_MAX instead of
      wrapping around. */
  function SaturatingEnd(addr: U32, size: U32): (r: U32)
    ensures r == if addr + size <= MaxU32 then addr + size else MaxU32
    ensures addr <= r
  {
    if size <= MaxU32 - addr then addr + size else MaxU32
  }

  /** Entry `i` after the loader's end-of-load pass: its end is pulled back
      to the next entry's start when it would run past it. */
  function ClampedEntry(fs: seq<FunctionDef>, i: nat): FunctionDef
    requires i < |fs|
  {
    if i + 1 < |fs| && fs[i].end > fs[i + 1].start then fs[i].(end := fs[i + 1].start) else fs[i]
  }

  /** The loader's end-of-load pass over the whole table. Each step reads
      only the next entry's start, which the pass never changes, so the
      sequential loop equals this entry-wise clamp. */
  function FixUpEnds(fs: seq<FunctionDef>): (r: seq<FunctionDef>)
    ensures |r| == |fs|
    ensures forall i :: 0 <= i < |fs| ==> r[i].start == fs[i].start && r[i].name == fs[i].name
    ensures forall i :: 0 <= i < |fs| ==> r[i].end <= fs[i].end
    ensures forall i :: 0 <= i < |fs| - 1 ==> r[i].end <= r[i + 1].start
    ensures forall i :: 0 <= i < |fs| && r[i].end != fs[i].end ==> i + 1 < |fs| && r[i].end == fs[i + 1].start
  {
    seq(|fs|, i requires 0 <= i < |fs| => ClampedEntry(fs, i))
  }

  /** The fix-up as the loader runs it: one in-place pass from the first
      entry to the last but one. */
  method FixUpEndsInPlace(fs: seq<FunctionDef>) returns (r: seq<FunctionDef>)
    ensures r == FixUpEnds(fs)
  {
    r := fs;
    var i := 0;
    while i + 1 < |r|
      invariant |r| == |fs|
      invariant i <= |fs|
      invariant |fs| > 0 ==> i < |fs|
      invariant forall k :: 0 <= k < i ==> r[k] == ClampedEntry(fs, k)
      invariant forall k :: i <= k < |fs| ==> r[k] == fs[k]
    {
      if r[i].end > r[i + 1].start {
        r := r[i := r[i].(end := r[i + 1].start)];
      }
      i := i + 1;
    }
  }

  /** After the fix-up a sorted table is disjoint, so lookups are exact. */
  lemma {:induction false} FixUpMakesDisjoint(fs: seq<FunctionDef>)
    requires Sorted(fs)
    ensures Sorted(FixUpEnds(fs)) && Disjoint(FixUpEnds(fs))
  {
    var r := FixUpEnds(fs);
    forall i, j | 0 <= i < j < |r|
      ensures r[i].end <= r[j].start
    {
      assert r[i].end <= r[i + 1].start == fs[i + 1].start <= fs[j].start;
    }
  }
}
