/** What PrintReport selects and WriteAddressHistogram writes
    (src/profiler.cpp): the report rows and the histogram entries, without
    the stream formatting. */
module Report {
  import opened Machine
  import opened SymbolTable
  import opened CycleProfiler
  import Hex
  import opened OrderedKeys
  import opened Wrappers

  /** One line of the report table. */
  datatype ReportRow = ReportRow(name: string, addr: U32, cyclesExcl: nat, cyclesIncl: nat, calls: nat)

  function RowOf(f: FunctionDef, s: FunctionStats): ReportRow {
    ReportRow(f.name, f.start, s.cyclesExclusive, s.cyclesInclusive, s.callCount)
  }

  /** Whether a function appears in the report: it has statistics and
      spent at least one exclusive cycle. */
  predicate Reported(f: FunctionDef, stats: map<U32, FunctionStats>) {
    f.start in stats && stats[f.start].cyclesExclusive > 0
  }

  /** The rows collected in symbol-table order, before sorting: exactly
      the reported functions. */
  function Candidates(fs: seq<FunctionDef>, stats: map<U32, FunctionStats>): (rows: seq<ReportRow>)
    ensures |rows| <= |fs|
    ensures forall i :: 0 <= i < |fs| && Reported(fs[i], stats) ==> RowOf(fs[i], stats[fs[i].start]) in rows
    ensures forall r :: r in rows ==> r.cyclesExcl > 0 && FromTable(r, fs, stats)
  {
    if |fs| == 0 then []
    else
      var rest := Candidates(fs[1..], stats);
      forall r | r in rest
        ensures FromTable(r, fs, stats)
      {
        var i :| 0 <= i < |fs| - 1 && Reported(fs[1..][i], stats) && r == RowOf(fs[1..][i], stats[fs[1..][i].start]);
        assert fs[1..][i] == fs[i + 1];
      }
      forall i | 1 <= i < |fs| && Reported(fs[i], stats)
        ensures RowOf(fs[i], stats[fs[i].start]) in rest
      {
        assert fs[1..][i - 1] == fs[i];
      }
      if Reported(fs[0], stats) then [RowOf(fs[0], stats[fs[0].start])] + rest else rest
  }

  /** `r` is the row of some reported function of the table. */
  predicate FromTable(r: ReportRow, fs: seq<FunctionDef>, stats: map<U32, FunctionStats>) {
    exists i :: 0 <= i < |fs| && Reported(fs[i], stats) && r == RowOf(fs[i], stats[fs[i].start])
  }

  /** `rows` is the row of table entry `idx[k]` at each `k`. */
  predicate RowsAt(fs: seq<FunctionDef>, stats: map<U32, FunctionStats>, rows: seq<ReportRow>, idx: seq<nat>) {
    && |idx| == |rows|
    && forall k :: 0 <= k < |idx| ==>
         idx[k] < |fs| && Reported(fs[idx[k]], stats) && rows[k] == RowOf(fs[idx[k]], stats[fs[idx[k]].start])
  }

  predicate Increasing(idx: seq<nat>) {
    forall k, l :: 0 <= k < l < |idx| ==> idx[k] < idx[l]
  }

  /** Every reported function's index is among `idx`. */
  predicate CoversReported(fs: seq<FunctionDef>, stats: map<U32, FunctionStats>, idx: seq<nat>) {
    forall i :: 0 <= i < |fs| && Reported(fs[i], stats) ==> i in idx
  }

  /** The rows are those of the table entries at ascending indices that
      take in every reported function: exactly one row per reported
      function, in table order. */
  predicate Selects(fs: seq<FunctionDef>, stats: map<U32, FunctionStats>, rows: seq<ReportRow>, idx: seq<nat>) {
    RowsAt(fs, stats, rows, idx) && Increasing(idx) && CoversReported(fs, stats, idx)
  }

  function Shift(idx: seq<nat>): (r: seq<nat>)
    ensures |r| == |idx| && forall k :: 0 <= k < |idx| ==> r[k] == idx[k] + 1
  {
    seq(|idx|, k requires 0 <= k < |idx| => idx[k] + 1)
  }

  lemma RowsAtShift(fs: seq<FunctionDef>, stats: map<U32, FunctionStats>, rest: seq<ReportRow>, idx: seq<nat>)
    requires |fs| > 0 && RowsAt(fs[1..], stats, rest, idx)
    ensures RowsAt(fs, stats, rest, Shift(idx))
  {
    var sh := Shift(idx);
    forall k | 0 <= k < |idx|
      ensures sh[k] < |fs| && Reported(fs[sh[k]], stats) && rest[k] == RowOf(fs[sh[k]], stats[fs[sh[k]].start])
    {
      assert fs[1..][idx[k]] == fs[sh[k]];
    }
  }

  lemma RowsAtCons(fs: seq<FunctionDef>, stats: map<U32, FunctionStats>, rest: seq<ReportRow>, idx: seq<nat>)
    requires |fs| > 0 && Reported(fs[0], stats) && RowsAt(fs, stats, rest, idx)
    ensures RowsAt(fs, stats, [RowOf(fs[0], stats[fs[0].start])] + rest, [0] + idx)
  {
    var rows := [RowOf(fs[0], stats[fs[0].start])] + rest;
    var ix := [0] + idx;
    forall k | 0 <= k < |ix|
      ensures ix[k] < |fs| && Reported(fs[ix[k]], stats) && rows[k] == RowOf(fs[ix[k]], stats[fs[ix[k]].start])
    {
      if k > 0 {
        assert ix[k] == idx[k - 1] && rows[k] == rest[k - 1];
      }
    }
  }

  lemma IncreasingShift(idx: seq<nat>)
    requires Increasing(idx)
    ensures Increasing(Shift(idx)) && Increasing([0] + Shift(idx))
  {
    var sh := Shift(idx);
    var ix := [0] + sh;
    forall k, l | 0 <= k < l < |ix|
      ensures ix[k] < ix[l]
    {
      assert ix[l] == sh[l - 1];
      if k > 0 {
        assert ix[k] == sh[k - 1];
      }
    }
  }

  lemma CoversShift(fs: seq<FunctionDef>, stats: map<U32, FunctionStats>, idx: seq<nat>)
    requires |fs| > 0 && CoversReported(fs[1..], stats, idx)
    ensures CoversReported(fs, stats, [0] + Shift(idx))
    ensures !Reported(fs[0], stats) ==> CoversReported(fs, stats, Shift(idx))
  {
    var sh := Shift(idx);
    forall i | 1 <= i < |fs| && Reported(fs[i], stats)
      ensures i in sh && i in [0] + sh
    {
      assert fs[1..][i - 1] == fs[i];
      var k :| 0 <= k < |idx| && idx[k] == i - 1;
      assert sh[k] == i;
      assert ([0] + sh)[k + 1] == i;
    }
    assert ([0] + sh)[0] == 0;
  }

  /** The selection for the table behind its first entry, moved one place
      on, with the first entry's index in front when it is reported. */
  lemma SelectsStep(fs: seq<FunctionDef>, stats: map<U32, FunctionStats>, idx: seq<nat>)
    requires |fs| > 0 && Selects(fs[1..], stats, Candidates(fs[1..], stats), idx)
    ensures Selects(fs, stats, Candidates(fs, stats), if Reported(fs[0], stats) then [0] + Shift(idx) else Shift(idx))
  {
    var rest := Candidates(fs[1..], stats);
    RowsAtShift(fs, stats, rest, idx);
    IncreasingShift(idx);
    CoversShift(fs, stats, idx);
    if Reported(fs[0], stats) {
      assert Candidates(fs, stats) == [RowOf(fs[0], stats[fs[0].start])] + rest;
      RowsAtCons(fs, stats, rest, Shift(idx));
    } else {
      assert Candidates(fs, stats) == rest;
    }
  }

  lemma {:induction false} CandidatesSelect(fs: seq<FunctionDef>, stats: map<U32, FunctionStats>) returns (idx: seq<nat>)
    ensures Selects(fs, stats, Candidates(fs, stats), idx)
    decreases |fs|
  {
    if |fs| == 0 {
      idx := [];
    } else {
      var idx' := CandidatesSelect(fs[1..], stats);
      SelectsStep(fs, stats, idx');
      idx := if Reported(fs[0], stats) then [0] + Shift(idx') else Shift(idx');
    }
  }

  /** The collection loop pushes exactly one row per reported function,
      in symbol-table order. */
  lemma CandidatesExact(fs: seq<FunctionDef>, stats: map<U32, FunctionStats>)
    ensures exists idx :: Selects(fs, stats, Candidates(fs, stats), idx)
  {
    var idx := CandidatesSelect(fs, stats);
  }

  predicate SortedDesc(rows: seq<ReportRow>) {
    forall i, j :: 0 <= i < j < |rows| ==> rows[i].cyclesExcl >= rows[j].cyclesExcl
  }

  lemma PrependDesc(h: ReportRow, t: seq<ReportRow>)
    requires SortedDesc(t) && forall k :: 0 <= k < |t| ==> t[k].cyclesExcl <= h.cyclesExcl
    ensures SortedDesc([h] + t)
  {
    var s := [h] + t;
    forall i, j | 0 <= i < j < |s|
      ensures s[i].cyclesExcl >= s[j].cyclesExcl
    {
      assert s[j] == t[j - 1];
      if i > 0 {
        assert s[i] == t[i - 1];
      }
    }
  }

  /** Insert into a list sorted by exclusive cycles, largest first. */
  function InsertDesc(rows: seq<ReportRow>, x: ReportRow): (r: seq<ReportRow>)
    requires SortedDesc(rows)
    ensures SortedDesc(r)
    ensures multiset(r) == multiset(rows) + multiset{x}
  {
    if |rows| == 0 then [x]
    else if x.cyclesExcl >= rows[0].cyclesExcl then
      PrependDesc(x, rows);
      [x] + rows
    else
      var tail := InsertDesc(rows[1..], x);
      assert rows == [rows[0]] + rows[1..];
      forall k | 0 <= k < |tail|
        ensures tail[k].cyclesExcl <= rows[0].cyclesExcl
      {
        assert tail[k] in multiset(tail);
        if tail[k] != x {
          assert tail[k] in multiset(rows[1..]);
          assert tail[k] in rows[1..];
        }
      }
      PrependDesc(rows[0], tail);
      [rows[0]] + tail
  }

  /** One ordering std::sort may produce: the comparison only looks at
      exclusive cycles, so rows with equal cycles may come out in any
      order; every property below holds for any sorted permutation. */
  function SortDesc(rows: seq<ReportRow>): (r: seq<ReportRow>)
    ensures SortedDesc(r) && multiset(r) == multiset(rows) && |r| == |rows|
  {
    if |rows| == 0 then []
    else
      assert rows == [rows[0]] + rows[1..];
      InsertDesc(SortDesc(rows[1..]), rows[0])
  }

  /** The rows PrintReport prints: reported functions, most exclusive
      cycles first, at most `maxFunctions` of them when that is not 0. */
  function ReportRows(p: Profiler, maxFunctions: nat): (rows: seq<ReportRow>)
    ensures SortedDesc(rows)
    ensures var n := |Candidates(p.functions, p.stats)|;
            |rows| == if 0 < maxFunctions < n then maxFunctions else n
    ensures multiset(rows) <= multiset(Candidates(p.functions, p.stats))
    ensures maxFunctions == 0 ==> multiset(rows) == multiset(Candidates(p.functions, p.stats))
  {
    var sorted := SortDesc(Candidates(p.functions, p.stats));
    if maxFunctions > 0 && |sorted| > maxFunctions then
      assert sorted == sorted[..maxFunctions] + sorted[maxFunctions..];
      sorted[..maxFunctions]
    else sorted
  }

  /** In a list sorted largest first, nothing after position `k` beats
      anything before it. */
  lemma SortedSplit(s: seq<ReportRow>, k: nat)
    requires SortedDesc(s) && k <= |s|
    ensures forall c: ReportRow, r: ReportRow :: c in multiset(s[k..]) && r in s[..k] ==> c.cyclesExcl <= r.cyclesExcl
  {
    forall c: ReportRow, r: ReportRow | c in multiset(s[k..]) && r in s[..k]
      ensures c.cyclesExcl <= r.cyclesExcl
    {
      assert c in s[k..];
      var j :| 0 <= j < |s| - k && s[k..][j] == c;
      var i :| 0 <= i < k && s[..k][i] == r;
      assert s[i] == r && s[k + j] == c;
    }
  }

  lemma MultisetSplit(s: seq<ReportRow>, k: nat)
    requires k <= |s|
    ensures multiset(s) - multiset(s[..k]) == multiset(s[k..])
  {
    assert s == s[..k] + s[k..];
  }

  /** Truncation keeps the heaviest functions: every reported function
      left out has no more exclusive cycles than any row shown. */
  lemma ReportRowsAreTop(p: Profiler, maxFunctions: nat)
    ensures var rows := ReportRows(p, maxFunctions);
            forall c: ReportRow, r: ReportRow :: c in multiset(Candidates(p.functions, p.stats)) - multiset(rows) && r in rows ==>
                             c.cyclesExcl <= r.cyclesExcl
  {
    var cands := Candidates(p.functions, p.stats);
    var sorted := SortDesc(cands);
    var rows := ReportRows(p, maxFunctions);
    if maxFunctions > 0 && |sorted| > maxFunctions {
      assert rows == sorted[..maxFunctions];
      MultisetSplit(sorted, maxFunctions);
      SortedSplit(sorted, maxFunctions);
    } else {
      assert multiset(cands) - multiset(rows) == multiset{};
    }
  }

  /** The Cyc/Call column: integer division, 0 for a function never
      entered. */
  function CyclesPerCall(r: ReportRow): (c: nat)
    ensures r.calls == 0 ==> c == 0
    ensures r.calls > 0 ==> c * r.calls <= r.cyclesExcl < (c + 1) * r.calls
  {
    if r.calls > 0 then r.cyclesExcl / r.calls else 0
  }

  // ---------------------------------------------------------------------
  // Histogram export
  // ---------------------------------------------------------------------

  /** An address as a JSON key: 8 lower-case hex digits. */
  function AddressKey(a: U32): (s: string)
    ensures |s| == 8 && Hex.AllHex(s) && Hex.Value(s) == a
    ensures forall i :: 0 <= i < |s| ==> !('A' <= s[i] <= 'F')
  {
    assert Hex.Pow16(8) == 0x1_0000_0000;
    Hex.ToHexWidth(a, 8, false);
    Hex.ToHexValue(a, 8, false);
    Hex.ToHex(a, 8, false)
  }

  /** The JSON document WriteAddressHistogram writes, field by field;
      addresses are keys of 8 lower-case hex digits. */
  datatype HistogramFile = HistogramFile(sampleRate: U32, totalCycles: nat, addressCount: nat,
                                         addresses: seq<(string, nat)>)

  /** The (key, cycles) pairs for the given addresses, in their order. */
  function EntriesFor(m: map<U32, nat>, keys: seq<U32>): (r: seq<(string, nat)>)
    requires forall i :: 0 <= i < |keys| ==> keys[i] in m
    ensures |r| == |keys|
    ensures forall i :: 0 <= i < |r| ==> r[i] == (AddressKey(keys[i]), m[keys[i]])
  {
    if |keys| == 0 then [] else [(AddressKey(keys[0]), m[keys[0]])] + EntriesFor(m, keys[1..])
  }

  /** The (key, cycles) pairs of a histogram in ascending address order. */
  function HistogramEntries(m: map<U32, nat>): (r: seq<(string, nat)>)
    ensures |r| == |m|
    ensures forall i :: 0 <= i < |r| ==> r[i] == (AddressKey(SortedKeys(m.Keys)[i]), m[SortedKeys(m.Keys)[i]])
  {
    var keys := SortedKeys(m.Keys);
    assert forall i :: 0 <= i < |keys| ==> keys[i] in m.Keys;
    EntriesFor(m, keys)
  }

  /** WriteAddressHistogram; `canOpen` is whether the output file could be
      opened (it returns false, modelled as None, when not). */
  function WriteAddressHistogram(p: Profiler, canOpen: bool): (r: Option<HistogramFile>)
    ensures r.Some? <==> canOpen
    ensures r.Some? ==>
              && r.value.sampleRate == p.sampleRate && r.value.totalCycles == p.totalCycles
              && r.value.addressCount == |p.addressCycles| && r.value.addresses == HistogramEntries(p.addressCycles)
  {
    if !canOpen then None
    else Some(HistogramFile(p.sampleRate, p.totalCycles, |p.addressCycles|, HistogramEntries(p.addressCycles)))
  }

  lemma EntryKeys(m: map<U32, nat>)
    ensures var es := HistogramEntries(m);
            forall i :: 0 <= i < |es| ==> |es[i].0| == 8 && Hex.AllHex(es[i].0) && Hex.Value(es[i].0) == SortedKeys(m.Keys)[i]
  {
  }

  /** The address keys are 8 hex digits in strictly ascending order. */
  lemma HistogramKeysAscending(m: map<U32, nat>)
    ensures var es := HistogramEntries(m);
            && (forall i :: 0 <= i < |es| ==> |es[i].0| == 8 && Hex.AllHex(es[i].0))
            && (forall i, j :: 0 <= i < j < |es| ==> Hex.Value(es[i].0) < Hex.Value(es[j].0))
  {
    EntryKeys(m);
  }

  /** The entry reads back as a histogram cell: its key is hex for an
      address in the map and its count is that address's cycles. */
  predicate IsCell(m: map<U32, nat>, e: (string, nat)) {
    Hex.AllHex(e.0) && Hex.Value(e.0) in m && e.1 == m[Hex.Value(e.0)]
  }

  /** Some entry's key reads back as `a`. */
  predicate Lists(es: seq<(string, nat)>, a: U32) {
    exists i :: 0 <= i < |es| && Hex.AllHex(es[i].0) && Hex.Value(es[i].0) == a
  }

  /** Reading the entries back gives the histogram: every entry is a
      histogram cell, and every cell has an entry. */
  lemma HistogramEntriesRoundTrip(m: map<U32, nat>)
    ensures var es := HistogramEntries(m);
            && (forall i :: 0 <= i < |es| ==> IsCell(m, es[i]))
            && (forall a :: a in m ==> Lists(es, a))
  {
    var es := HistogramEntries(m);
    var keys := SortedKeys(m.Keys);
    forall i | 0 <= i < |es|
      ensures IsCell(m, es[i])
    {
      assert es[i] == (AddressKey(keys[i]), m[keys[i]]);
    }
    forall a | a in m
      ensures Lists(es, a)
    {
      assert a in keys;
      var i :| 0 <= i < |keys| && keys[i] == a;
      assert es[i].0 == AddressKey(a);
    }
  }
}
