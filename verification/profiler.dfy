/** The 68k cycle profiler (src/profiler.cpp, include/profiler.h): a state
    record advanced by one pure step per executed instruction. The cycle
    counter of the CPU core and the cartridge image are parameters. */
module CycleProfiler {
  import opened Wrappers
  import opened Machine
  import opened SymbolTable
  import MegaDrive

  datatype ProfileMode = Simple | CallStack

  datatype ProfileOptions = ProfileOptions(mode: ProfileMode, sampleRate: U32, collectAddressHistogram: bool)

  /** A default-constructed ProfileOptions. */
  const DefaultOptions := ProfileOptions(Simple, 1, false)

  datatype FunctionStats = FunctionStats(callCount: nat, cyclesExclusive: nat, cyclesInclusive: nat)

  /** A default-constructed FunctionStats. */
  const ZeroStats := FunctionStats(0, 0, 0)

  datatype CallFrame = CallFrame(funcAddr: U32, entryCycles: int)

  const MaxCallStackDepth := 256

  /** The members of class Profiler that its methods read and write. */
  datatype Profiler = Profiler(
    functions: seq<FunctionDef>,
    stats: map<U32, FunctionStats>,
    callStack: seq<CallFrame>,
    addressCycles: map<U32, nat>,
    mode: ProfileMode,
    running: bool,
    lastPc: U32,
    lastCycles: int,
    totalCycles: nat,
    sampleRate: U32,
    sampleCounter: nat,
    pendingCycles: nat,
    collectAddressHistogram: bool)

  /** A newly constructed profiler. */
  const Fresh := Profiler([], map[], [], map[], Simple, false, 0, 0, 0, 1, 0, 0, false)

  // ---------------------------------------------------------------------
  // Map helpers: `m[k]` of an unordered_map inserts a zero value when
  // the key is missing.
  // ---------------------------------------------------------------------

  function StatsAt(stats: map<U32, FunctionStats>, k: U32): FunctionStats {
    if k in stats then stats[k] else ZeroStats
  }

  function CyclesAt(m: map<U32, nat>, k: U32): nat {
    if k in m then m[k] else 0
  }

  /** Sum of the values of a histogram. */
  ghost function HistogramSum(m: map<U32, nat>): nat
    decreases |m|
  {
    if m == map[] then 0
    else
      var k :| k in m;
      m[k] + HistogramSum(m - {k})
  }

  lemma {:induction false} HistogramSumRemove(m: map<U32, nat>, k: U32)
    requires k in m
    ensures HistogramSum(m) == m[k] + HistogramSum(m - {k})
    decreases |m|
  {
    var j :| j in m && HistogramSum(m) == m[j] + HistogramSum(m - {j});
    if j != k {
      var mj, mk := m - {j}, m - {k};
      HistogramSumRemove(mj, k);
      HistogramSumRemove(mk, j);
      assert mj - {k} == mk - {j};
    }
  }

  /** `m[k] += d` adds exactly `d` to the sum. */
  lemma HistogramSumBump(m: map<U32, nat>, k: U32, d: nat)
    ensures HistogramSum(m[k := CyclesAt(m, k) + d]) == HistogramSum(m) + d
  {
    var m' := m[k := CyclesAt(m, k) + d];
    HistogramSumRemove(m', k);
    assert m' - {k} == m - {k};
    if k in m {
      HistogramSumRemove(m, k);
    } else {
      assert m - {k} == m;
    }
  }

  /** The class invariant every public operation keeps. */
  ghost predicate Valid(p: Profiler) {
    && Sorted(p.functions)
    && StatsCover(p)
    && 1 <= p.sampleRate
    && p.sampleCounter < p.sampleRate
    && |p.callStack| <= MaxCallStackDepth
    && (forall a :: a in p.addressCycles ==> p.addressCycles[a] > 0)
    && HistogramSum(p.addressCycles) + p.pendingCycles <= p.totalCycles
  }

  lemma FreshIsValid()
    ensures Valid(Fresh) && GetSymbolCount(Fresh) == 0 && !IsRunning(Fresh)
  {
  }

  // ---------------------------------------------------------------------
  // Inline accessors
  // ---------------------------------------------------------------------

  function GetSymbolCount(p: Profiler): (n: nat)
    ensures n == |p.functions|
  {
    |p.functions|
  }

  function IsRunning(p: Profiler): (b: bool)
    ensures b == p.running
  {
    p.running
  }

  function GetTotalCycles(p: Profiler): (n: nat)
    ensures n == p.totalCycles
  {
    p.totalCycles
  }

  function GetSampleRate(p: Profiler): (n: U32)
    ensures n == p.sampleRate
  {
    p.sampleRate
  }

  /** GetStats: the entry for a start address, or nothing. */
  function GetStats(p: Profiler, funcAddr: U32): (r: Option<FunctionStats>)
    ensures r.Some? <==> funcAddr in p.stats
    ensures r.Some? ==> r.value == p.stats[funcAddr]
  {
    if funcAddr in p.stats then Some(p.stats[funcAddr]) else None
  }

  // ---------------------------------------------------------------------
  // Symbol table management
  // ---------------------------------------------------------------------

  /** AddFunction: an empty or inverted range is ignored; otherwise the
      function is inserted in start order and its statistics start at zero. */
  function AddFunction(p: Profiler, start: U32, end: U32, name: string): (r: Profiler)
    requires Sorted(p.functions)
    ensures Sorted(r.functions)
    ensures end <= start ==> r == p
    ensures start < end ==>
              && |r.functions| == |p.functions| + 1
              && multiset(r.functions) == multiset(p.functions) + multiset{FunctionDef(start, end, name)}
              && r.stats == p.stats[start := ZeroStats]
    ensures r.(functions := p.functions, stats := p.stats) == p
  {
    if end <= start then p
    else p.(functions := Insert(p.functions, FunctionDef(start, end, name)), stats := p.stats[start := ZeroStats])
  }

  /** Every function in the table has a statistics entry. */
  predicate StatsCover(p: Profiler) {
    forall i :: 0 <= i < |p.functions| ==> p.functions[i].start in p.stats
  }

  lemma AddFunctionCovers(p: Profiler, e: Option<FunctionDef>)
    requires Sorted(p.functions)
    ensures StatsCover(p) && e.Some? ==> StatsCover(AddFunction(p, e.value.start, e.value.end, e.value.name))
  {
    if StatsCover(p) && e.Some? && e.value.start < e.value.end {
      var f := FunctionDef(e.value.start, e.value.end, e.value.name);
      var r := AddFunction(p, f.start, f.end, f.name);
      forall i | 0 <= i < |r.functions|
        ensures r.functions[i].start in r.stats
      {
        assert r.functions[i] in multiset(r.functions);
        if r.functions[i] != f {
          assert r.functions[i] in multiset(p.functions);
          var j :| 0 <= j < |p.functions| && p.functions[j] == r.functions[i];
        }
      }
    }
  }

  lemma AddFunctionKeepsValid(p: Profiler, start: U32, end: U32, name: string)
    requires Valid(p)
    ensures Valid(AddFunction(p, start, end, name))
  {
    AddFunctionCovers(p, Some(FunctionDef(start, end, name)));
  }

  /** Six valid AddFunction calls on a fresh profiler give six symbols. */
  lemma SixFunctionsGiveSix()
    ensures var p := AddFunction(AddFunction(AddFunction(AddFunction(AddFunction(AddFunction(Fresh,
                      0x200, 0x210, "_start"), 0x210, 0x26E, "main"), 0x26E, 0x290, "clear_sieve"),
                      0x290, 0x2B0, "mark_trivial_composites"), 0x2B0, 0x300, "run_sieve"),
                      0x300, 0x350, "collect_primes");
            GetSymbolCount(p) == 6
  {
  }

  /** ClearSymbols empties both the table and the statistics. */
  function ClearSymbols(p: Profiler): (r: Profiler)
    ensures GetSymbolCount(r) == 0 && r.stats == map[]
    ensures r.(functions := p.functions, stats := p.stats) == p
  {
    p.(functions := [], stats := map[])
  }

  /** `%255s` stores at most 255 characters of the name token. */
  function ScanName(token: string): (s: string)
    ensures |s| <= 255 && |s| <= |token| && s == token[..|s|]
    ensures |token| <= 255 ==> s == token
  {
    if |token| <= 255 then token else token[..255]
  }

  /** One line of `nm -S --defined-only` output after tokenising: with a
      size, without one, or a line matching neither shape. */
  datatype NmLine =
    | NmSized(addr: U32, size: U32, kind: char, name: string)
    | NmUnsized(addr: U32, kind: char, name: string)
    | NmOther

  /** Only code symbols are profiled. */
  predicate IsText(kind: char) {
    kind == 'T' || kind == 't'
  }

  /** The span assumed for a symbol nm gives no size for. */
  const DefaultSpan: U32 := 0x100

  /** The entry an nm line proposes to AddFunction. */
  function NmEntry(l: NmLine): (r: Option<FunctionDef>)
    ensures r.Some? <==> !l.NmOther? && IsText(l.kind)
    ensures r.Some? ==> r.value.start == l.addr && r.value.start <= r.value.end
    ensures r.Some? && l.NmSized? ==> r.value.end == if l.addr + l.size <= MaxU32 then l.addr + l.size else MaxU32
    ensures r.Some? && l.NmUnsized? ==> r.value.end == if l.addr + 0x100 <= MaxU32 then l.addr + 0x100 else MaxU32
  {
    match l
    case NmSized(addr, size, kind, name) =>
      if IsText(kind) then Some(FunctionDef(addr, SaturatingEnd(addr, size), ScanName(name))) else None
    case NmUnsized(addr, kind, name) =>
      if IsText(kind) then Some(FunctionDef(addr, SaturatingEnd(addr, DefaultSpan), ScanName(name))) else None
    case NmOther => None
  }

  /** One line of a plain symbol file: hex address, decimal size, name. */
  datatype PlainLine = PlainLine(addr: U32, size: U32, name: string) | PlainOther

  function PlainEntry(l: PlainLine): (r: Option<FunctionDef>)
    ensures r.Some? <==> l.PlainLine?
    ensures r.Some? ==> r.value.start == l.addr && r.value.end == if l.addr + l.size <= MaxU32 then l.addr + l.size else MaxU32
  {
    match l
    case PlainLine(addr, size, name) => Some(FunctionDef(addr, SaturatingEnd(addr, size), ScanName(name)))
    case PlainOther => None
  }

  /** Number of proposed entries: what the loaders return, whether or not
      AddFunction keeps each one. */
  function Proposed(es: seq<Option<FunctionDef>>): nat {
    if |es| == 0 then 0 else (if es[0].Some? then 1 else 0) + Proposed(es[1..])
  }

  /** The proposed entry AddFunction keeps, if any. */
  function KeptOne(e: Option<FunctionDef>): seq<FunctionDef> {
    if e.Some? && e.value.start < e.value.end then [e.value] else []
  }

  /** The proposed entries that AddFunction keeps. */
  function Kept(es: seq<Option<FunctionDef>>): seq<FunctionDef> {
    if |es| == 0 then [] else KeptOne(es[0]) + Kept(es[1..])
  }

  /** One proposed entry handed to AddFunction. */
  function AddEntry(p: Profiler, e: Option<FunctionDef>): (r: Profiler)
    requires Sorted(p.functions)
    ensures Sorted(r.functions)
    ensures multiset(r.functions) == multiset(p.functions) + multiset(KeptOne(e))
    ensures r.(functions := p.functions, stats := p.stats) == p
    ensures StatsCover(p) ==> StatsCover(r)
  {
    AddFunctionCovers(p, e);
    match e
    case None => p
    case Some(f) => AddFunction(p, f.start, f.end, f.name)
  }

  /** Feeding proposed entries to AddFunction one by one: the result holds
      the old functions and the kept entries, sorted, and the number
      returned counts every proposed entry. */
  function AddAll(p: Profiler, es: seq<Option<FunctionDef>>): (r: (Profiler, nat))
    requires Sorted(p.functions)
    ensures Sorted(r.0.functions)
    ensures multiset(r.0.functions) == multiset(p.functions) + multiset(Kept(es))
    ensures r.1 == Proposed(es)
    ensures r.0.(functions := p.functions, stats := p.stats) == p
    ensures StatsCover(p) ==> StatsCover(r.0)
    decreases |es|
  {
    if |es| == 0 then (p, 0)
    else
      var p1 := AddEntry(p, es[0]);
      var rest := AddAll(p1, es[1..]);
      assert multiset(Kept(es)) == multiset(KeptOne(es[0])) + multiset(Kept(es[1..]));
      (rest.0, rest.1 + (if es[0].Some? then 1 else 0))
  }

  function NmEntries(lines: seq<NmLine>): (es: seq<Option<FunctionDef>>)
    ensures |es| == |lines| && forall i :: 0 <= i < |lines| ==> es[i] == NmEntry(lines[i])
  {
    seq(|lines|, i requires 0 <= i < |lines| => NmEntry(lines[i]))
  }

  function PlainEntries(lines: seq<PlainLine>): (es: seq<Option<FunctionDef>>)
    ensures |es| == |lines| && forall i :: 0 <= i < |lines| ==> es[i] == PlainEntry(lines[i])
  {
    seq(|lines|, i requires 0 <= i < |lines| => PlainEntry(lines[i]))
  }

  /** What a loader returns when its input cannot be opened. */
  const Failed: int := -1

  /** LoadSymbolsFromELF over the lines nm printed (None when nm could not
      be started): the text symbols are added, then every end address is
      clamped to the next function's start. */
  function LoadSymbolsFromELF(p: Profiler, output: Option<seq<NmLine>>): (r: (Profiler, int))
    requires Sorted(p.functions)
    ensures output.None? <==> r.1 == -1
    ensures output.None? ==> r.0 == p
    ensures output.Some? ==>
              && r.1 == Proposed(NmEntries(output.value))
              && Sorted(r.0.functions) && Disjoint(r.0.functions)
              && |r.0.functions| == |p.functions| + |Kept(NmEntries(output.value))|
    ensures r.0.(functions := p.functions, stats := p.stats) == p
  {
    match output
    case None => (p, Failed)
    case Some(lines) =>
      var added := AddAll(p, NmEntries(lines));
      assert |multiset(added.0.functions)| == |multiset(p.functions)| + |multiset(Kept(NmEntries(lines)))|;
      FixUpMakesDisjoint(added.0.functions);
      (added.0.(functions := FixUpEnds(added.0.functions)), added.1)
  }

  /** LoadSymbolsFromFile over the lines of the file (None when it cannot
      be opened); no end-address fix-up. */
  function LoadSymbolsFromFile(p: Profiler, contents: Option<seq<PlainLine>>): (r: (Profiler, int))
    requires Sorted(p.functions)
    ensures contents.None? <==> r.1 == -1
    ensures contents.None? ==> r.0 == p
    ensures contents.Some? ==>
              && r.1 == Proposed(PlainEntries(contents.value))
              && Sorted(r.0.functions)
              && multiset(r.0.functions) == multiset(p.functions) + multiset(Kept(PlainEntries(contents.value)))
    ensures r.0.(functions := p.functions, stats := p.stats) == p
  {
    match contents
    case None => (p, Failed)
    case Some(lines) =>
      var added := AddAll(p, PlainEntries(lines));
      (added.0, added.1)
  }

  /** The start addresses of the proposals AddFunction keeps. */
  function KeptStarts(es: seq<Option<FunctionDef>>): set<U32> {
    if |es| == 0 then {}
    else (if |KeptOne(es[0])| == 1 then {es[0].value.start} else {}) + KeptStarts(es[1..])
  }

  /** `after` is `before` with a zero entry for every start in `zeroed`. */
  predicate ZeroedAt(before: map<U32, FunctionStats>, after: map<U32, FunctionStats>, zeroed: set<U32>) {
    && after.Keys == before.Keys + zeroed
    && forall a :: a in after ==> after[a] == if a in zeroed then ZeroStats else before[a]
  }

  lemma ZeroedAtStep(m0: map<U32, FunctionStats>, m1: map<U32, FunctionStats>, m2: map<U32, FunctionStats>,
                     z: set<U32>, rest: set<U32>)
    requires z == {} ==> m1 == m0
    requires forall s :: s in z ==> z == {s} && m1 == m0[s := ZeroStats]
    requires ZeroedAt(m1, m2, rest)
    ensures ZeroedAt(m0, m2, z + rest)
  {
    if z != {} {
      var s :| s in z;
      assert z == {s} && m1 == m0[s := ZeroStats];
    }
  }

  /** Loading gives every kept proposal's start a zero statistics entry
      and leaves the other entries as they were. */
  lemma {:induction false} AddAllStats(p: Profiler, es: seq<Option<FunctionDef>>)
    requires Sorted(p.functions)
    ensures ZeroedAt(p.stats, AddAll(p, es).0.stats, KeptStarts(es))
    decreases |es|
  {
    if |es| > 0 {
      var p1 := AddEntry(p, es[0]);
      var z := if |KeptOne(es[0])| == 1 then {es[0].value.start} else {};
      AddAllStats(p1, es[1..]);
      assert AddAll(p, es).0 == AddAll(p1, es[1..]).0;
      assert KeptStarts(es) == z + KeptStarts(es[1..]);
      if |KeptOne(es[0])| == 1 {
        assert p1.stats == p.stats[es[0].value.start := ZeroStats];
      } else {
        assert p1.stats == p.stats;
      }
      ZeroedAtStep(p.stats, p1.stats, AddAll(p, es).0.stats, z, KeptStarts(es[1..]));
    } else {
      assert AddAll(p, es).0 == p;
    }
  }

  /** `added` holds the old functions and the kept proposals, in start
      order. */
  predicate AddedFrom(p: Profiler, es: seq<Option<FunctionDef>>, added: seq<FunctionDef>) {
    Sorted(added) && multiset(added) == multiset(p.functions) + multiset(Kept(es))
  }

  /** `fs` is `added` entry by entry with only the ends lowered. */
  predicate EndsClamped(added: seq<FunctionDef>, fs: seq<FunctionDef>) {
    && |fs| == |added|
    && forall i :: 0 <= i < |fs| ==>
         fs[i].start == added[i].start && fs[i].name == added[i].name && fs[i].end <= added[i].end
  }

  /** What LoadSymbolsFromELF leaves in the table and the statistics: the
      old functions and the kept text symbols, in start order, each end
      at most the end it was added with; a zero statistics entry for every
      loaded start, the other entries unchanged, and every function still
      covered. */
  lemma LoadSymbolsFromELFContents(p: Profiler, lines: seq<NmLine>)
    requires Sorted(p.functions)
    ensures var r := LoadSymbolsFromELF(p, Some(lines)).0;
            var es := NmEntries(lines);
            && (exists added :: AddedFrom(p, es, added) && EndsClamped(added, r.functions))
            && ZeroedAt(p.stats, r.stats, KeptStarts(es))
            && (StatsCover(p) ==> StatsCover(r))
  {
    var es := NmEntries(lines);
    var added := AddAll(p, es).0;
    var r := LoadSymbolsFromELF(p, Some(lines)).0;
    assert r == added.(functions := FixUpEnds(added.functions));
    assert AddedFrom(p, es, added.functions) && EndsClamped(added.functions, r.functions);
    AddAllStats(p, es);
    if StatsCover(p) {
      assert StatsCover(added);
      forall i | 0 <= i < |r.functions|
        ensures r.functions[i].start in r.stats
      {
        assert r.functions[i].start == added.functions[i].start;
      }
    }
  }

  /** LoadSymbolsFromFile's statistics: a zero entry for every loaded
      start, the other entries unchanged. */
  lemma LoadSymbolsFromFileStats(p: Profiler, lines: seq<PlainLine>)
    requires Sorted(p.functions)
    ensures var r := LoadSymbolsFromFile(p, Some(lines)).0;
            var es := PlainEntries(lines);
            && ZeroedAt(p.stats, r.stats, KeptStarts(es))
            && (StatsCover(p) ==> StatsCover(r))
  {
    AddAllStats(p, PlainEntries(lines));
  }

  // ---------------------------------------------------------------------
  // Profiling control. `cycles` is the CPU core's cycle counter.
  // ---------------------------------------------------------------------

  /** Start(options): a no-op while running; otherwise the options are
      taken (a sample rate of 0 meaning 1) and the per-session state is
      cleared. Statistics, histogram and total are kept. */
  function Start(p: Profiler, options: ProfileOptions, cycles: U32): (r: Profiler)
    ensures p.running ==> r == p
    ensures !p.running ==>
              && r.running && r.mode == options.mode
              && r.sampleRate == (if options.sampleRate == 0 then 1 else options.sampleRate)
              && r.collectAddressHistogram == options.collectAddressHistogram
              && r.sampleCounter == 0 && r.pendingCycles == 0 && r.callStack == []
              && r.lastPc == 0 && r.lastCycles == cycles
    ensures r.functions == p.functions && r.stats == p.stats
    ensures r.addressCycles == p.addressCycles && r.totalCycles == p.totalCycles
  {
    if p.running then p
    else
      p.(mode := options.mode,
         sampleRate := if options.sampleRate > 0 then options.sampleRate else 1,
         collectAddressHistogram := options.collectAddressHistogram,
         sampleCounter := 0, pendingCycles := 0, running := true,
         lastPc := 0, lastCycles := cycles, callStack := [])
  }

  /** Start(mode): every instruction sampled, no histogram. */
  function StartMode(p: Profiler, mode: ProfileMode, cycles: U32): (r: Profiler)
    ensures r == Start(p, DefaultOptions.(mode := mode), cycles)
    ensures !p.running ==> r.sampleRate == 1 && !r.collectAddressHistogram
  {
    Start(p, ProfileOptions(mode, 1, false), cycles)
  }

  /** Stop only clears the running flag. */
  function Stop(p: Profiler): (r: Profiler)
    ensures !r.running
    ensures r.(running := p.running) == p
  {
    if !p.running then p else p.(running := false)
  }

  lemma StartStopIdempotent(p: Profiler, o1: ProfileOptions, o2: ProfileOptions, c1: U32, c2: U32)
    ensures Start(Start(p, o1, c1), o2, c2) == Start(p, o1, c1)
    ensures Stop(Stop(p)) == Stop(p)
    ensures !p.running ==> Stop(p) == p
    ensures IsRunning(Start(p, o1, c1)) && !IsRunning(Stop(Start(p, o1, c1)))
  {
  }

  lemma StartKeepsValid(p: Profiler, options: ProfileOptions, cycles: U32)
    requires Valid(p)
    ensures Valid(Start(p, options, cycles)) && Valid(Stop(p))
  {
  }

  /** Reset: every statistics entry back to zero (keys kept), histogram and
      call stack emptied, counters cleared; the symbol table, the mode and
      the sampling counter are untouched. */
  function Reset(p: Profiler, cycles: U32): (r: Profiler)
    ensures r.functions == p.functions && r.stats.Keys == p.stats.Keys
    ensures forall k :: k in r.stats ==> r.stats[k] == ZeroStats
    ensures r.addressCycles == map[] && r.callStack == []
    ensures r.totalCycles == 0 && r.pendingCycles == 0 && r.lastPc == 0
    ensures r.lastCycles == if p.running then cycles else p.lastCycles
    ensures r.running == p.running && r.mode == p.mode && r.sampleRate == p.sampleRate
    ensures r.sampleCounter == p.sampleCounter && r.collectAddressHistogram == p.collectAddressHistogram
  {
    p.(stats := map k | k in p.stats :: ZeroStats,
       addressCycles := map[], callStack := [],
       totalCycles := 0, pendingCycles := 0, lastPc := 0,
       lastCycles := if p.running then cycles else p.lastCycles)
  }

  lemma ResetKeepsValid(p: Profiler, cycles: U32)
    requires Valid(p)
    ensures Valid(Reset(p, cycles))
    ensures HistogramSum(Reset(p, cycles).addressCycles) == 0
  {
  }

  // ---------------------------------------------------------------------
  // Opcodes
  // ---------------------------------------------------------------------

  /** Profiler::ReadWord: the big-endian word of the cartridge image at
      `addr`, or 0 outside the loaded ROM. */
  function CodeWord(cart: MegaDrive.Cart, addr: U32): (r: U16)
    requires MegaDrive.CartValid(cart)
    ensures !(addr < MegaDrive.RomWindow && addr + 1 < cart.romSize) ==> r == 0
  {
    if addr < MegaDrive.RomWindow && addr + 1 < cart.romSize then
      (cart.rom[Flip(addr)] as int) * 0x100 + cart.rom[Flip(addr + 1)]
    else 0
  }

  /** Inside the loaded image, the profiler's opcode fetch agrees with the
      harness's bus read and with the file's own bytes. */
  lemma CodeWordIsRomWord(b: MegaDrive.Bus, data: seq<U8>, addr: U32)
    requires MegaDrive.BusValid(b) && 0 < |data| <= MegaDrive.MaxRomSize
    requires b.cart.rom == MegaDrive.SwappedImage(data) && b.cart.romSize == |data|
    requires addr + 1 < MegaDrive.RomWindow && addr + 1 < |data|
    ensures CodeWord(b.cart, addr) == MegaDrive.ReadWord(b, addr) == (data[addr] as int) * 0x100 + data[addr + 1]
  {
    MegaDrive.LoadedRomReadsBack(b, data, addr);
    MegaDrive.LoadedRomReadsBack(b, data, addr + 1);
    FlipInvolutive(addr);
    FlipInvolutive(addr + 1);
    assert MegaDrive.SwappedImage(data)[Flip(addr)] == data[addr];
    assert MegaDrive.SwappedImage(data)[Flip(addr + 1)] == data[addr + 1];
  }

  /** JSR (0100 1110 10xx xxxx) or BSR (0110 0001 xxxx xxxx), by mask.
      Masking a 16-bit word with 0xFFC0 (0xFF00) keeps all but its low six
      (eight) bits, so each masked comparison is a comparison of the
      quotient by 0x40 (0x100). */
  function IsCallOpcode(opcode: U16): (r: bool)
    ensures r <==> 0x4E80 <= opcode <= 0x4EBF || 0x6100 <= opcode <= 0x61FF
  {
    opcode / 0x40 == 0x4E80 / 0x40 || opcode / 0x100 == 0x6100 / 0x100
  }

  /** RTS or RTR. */
  function IsReturnOpcode(opcode: U16): (r: bool)
    ensures r ==> !IsCallOpcode(opcode)
  {
    opcode == 0x4E75 || opcode == 0x4E77
  }

  // ---------------------------------------------------------------------
  // The per-instruction step
  // ---------------------------------------------------------------------

  /** Whether arriving at `pc` counts as entering the function at index
      `i`: there was a previous instruction and it lay outside that
      function (in another one or in none). Comparing table indices stands
      for comparing the FunctionDef pointers. */
  predicate Enters(p: Profiler, i: nat)
    requires Sorted(p.functions)
  {
    p.lastPc != 0 && Lookup(p.functions, p.lastPc) != Some(i)
  }

  /** Exclusive-cycle attribution and entry counting for one accounted
      instruction at `pc` carrying `delta` cycles. */
  function Attribute(p: Profiler, pc: U32, delta: nat): (r: map<U32, FunctionStats>)
    requires Sorted(p.functions)
    ensures Lookup(p.functions, pc).None? ==> r == p.stats
    ensures Lookup(p.functions, pc).Some? ==>
              var i := Lookup(p.functions, pc).value;
              var k := p.functions[i].start;
              && k in r && r == p.stats[k := r[k]]
              && r[k].cyclesExclusive == StatsAt(p.stats, k).cyclesExclusive + delta
              && r[k].callCount == StatsAt(p.stats, k).callCount + (if Enters(p, i) then 1 else 0)
              && r[k].cyclesInclusive == StatsAt(p.stats, k).cyclesInclusive
  {
    match Lookup(p.functions, pc)
    case None => p.stats
    case Some(i) =>
      var k := p.functions[i].start;
      var s := StatsAt(p.stats, k);
      p.stats[k := s.(cyclesExclusive := s.cyclesExclusive + delta,
                      callCount := s.callCount + (if Enters(p, i) then 1 else 0))]
  }

  /** The call-stack update of CallStack mode, given the word at the
      previous PC: a call pushes the current function (if any, and if the
      stack has room), a return pops and adds the elapsed cycles to the
      callee's inclusive total when positive. */
  function TrackCalls(fs: seq<FunctionDef>, stack: seq<CallFrame>, stats: map<U32, FunctionStats>,
                      pc: U32, opcode: U16, current: int): (r: (seq<CallFrame>, map<U32, FunctionStats>))
    requires Sorted(fs)
    ensures IsCallOpcode(opcode) ==> r.1 == stats
    ensures IsCallOpcode(opcode) && Lookup(fs, pc).Some? && |stack| < MaxCallStackDepth ==>
              r.0 == stack + [CallFrame(fs[Lookup(fs, pc).value].start, current)]
    ensures IsCallOpcode(opcode) && !(Lookup(fs, pc).Some? && |stack| < MaxCallStackDepth) ==> r.0 == stack
    ensures IsReturnOpcode(opcode) && |stack| > 0 ==>
              var frame := stack[|stack| - 1];
              var inclusive := current - frame.entryCycles;
              && r.0 == stack[..|stack| - 1]
              && (inclusive <= 0 ==> r.1 == stats)
              && (inclusive > 0 ==> r.1 == stats[frame.funcAddr := StatsAt(stats, frame.funcAddr).(
                    cyclesInclusive := StatsAt(stats, frame.funcAddr).cyclesInclusive + inclusive)])
    ensures !IsCallOpcode(opcode) && !(IsReturnOpcode(opcode) && |stack| > 0) ==> r == (stack, stats)
    ensures |stack| <= MaxCallStackDepth ==> |r.0| <= MaxCallStackDepth
  {
    if IsCallOpcode(opcode) then
      match Lookup(fs, pc)
      case Some(i) =>
        if |stack| < MaxCallStackDepth then (stack + [CallFrame(fs[i].start, current)], stats)
        else (stack, stats)
      case None => (stack, stats)
    else if IsReturnOpcode(opcode) && |stack| > 0 then
      var frame := stack[|stack| - 1];
      var inclusive := current - frame.entryCycles;
      if inclusive > 0 then
        var s := StatsAt(stats, frame.funcAddr);
        (stack[..|stack| - 1], stats[frame.funcAddr := s.(cyclesInclusive := s.cyclesInclusive + inclusive)])
      else (stack[..|stack| - 1], stats)
    else (stack, stats)
  }

  /** Everything done for an instruction that passed the sampling gate:
      histogram, attribution, call tracking, and `last_pc_`. */
  function Account(p: Profiler, pc: U32, delta: nat, current: int, cart: MegaDrive.Cart): (r: Profiler)
    requires Sorted(p.functions) && MegaDrive.CartValid(cart)
    ensures r.addressCycles == if p.collectAddressHistogram then p.addressCycles[pc := CyclesAt(p.addressCycles, pc) + delta]
                               else p.addressCycles
    ensures r.lastPc == pc
    ensures p.mode == Simple || p.lastPc == 0 ==> r.callStack == p.callStack && r.stats == Attribute(p, pc, delta)
    ensures p.mode == CallStack && p.lastPc != 0 ==>
              (r.callStack, r.stats) == TrackCalls(p.functions, p.callStack, Attribute(p, pc, delta), pc, CodeWord(cart, p.lastPc), current)
    ensures r.(addressCycles := p.addressCycles, stats := p.stats, callStack := p.callStack, lastPc := p.lastPc) == p
  {
    var histogram := if p.collectAddressHistogram then p.addressCycles[pc := CyclesAt(p.addressCycles, pc) + delta]
                     else p.addressCycles;
    var stats := Attribute(p, pc, delta);
    var calls := if p.mode == CallStack && p.lastPc != 0
                 then TrackCalls(p.functions, p.callStack, stats, pc, CodeWord(cart, p.lastPc), current)
                 else (p.callStack, stats);
    p.(addressCycles := histogram, stats := calls.1, callStack := calls.0, lastPc := pc)
  }

  /** A positive counter step: the new counter value is remembered and the
      total grows by the step. */
  function Tick(p: Profiler, cycles: U32, delta: nat): (r: Profiler)
    ensures r.totalCycles == p.totalCycles + delta && r.lastCycles == cycles
    ensures r.(lastCycles := p.lastCycles, totalCycles := p.totalCycles) == p
  {
    p.(lastCycles := cycles, totalCycles := p.totalCycles + delta)
  }

  /** A skipped instruction: its cycles are parked, the counter advances
      and `lastPc` still follows the program. */
  function Park(p: Profiler, pc: U32, delta: nat): (r: Profiler)
    ensures r.pendingCycles == p.pendingCycles + delta && r.sampleCounter == p.sampleCounter + 1 && r.lastPc == pc
    ensures r.(pendingCycles := p.pendingCycles, sampleCounter := p.sampleCounter, lastPc := p.lastPc) == p
  {
    p.(pendingCycles := p.pendingCycles + delta, sampleCounter := p.sampleCounter + 1, lastPc := pc)
  }

  /** The sampled instruction takes the parked cycles with it. */
  function Release(p: Profiler): (r: Profiler)
    ensures r.pendingCycles == 0 && r.sampleCounter == 0
    ensures r.(pendingCycles := p.pendingCycles, sampleCounter := p.sampleCounter) == p
  {
    p.(pendingCycles := 0, sampleCounter := 0)
  }

  /** Profiler::OnExecute for the instruction at `pc`, with the CPU's cycle
      counter reading `cycles`. */
  function OnExecute(p: Profiler, pc: U32, cycles: U32, cart: MegaDrive.Cart): (r: Profiler)
    requires Sorted(p.functions) && MegaDrive.CartValid(cart)
    ensures r.lastCycles == cycles
    ensures cycles - p.lastCycles <= 0 ==> r == p.(lastCycles := cycles)
    ensures cycles - p.lastCycles > 0 ==> r.totalCycles == p.totalCycles + (cycles - p.lastCycles)
    ensures cycles - p.lastCycles > 0 ==> r.lastPc == pc
    ensures r.functions == p.functions && r.running == p.running && r.mode == p.mode
    ensures r.sampleRate == p.sampleRate && r.collectAddressHistogram == p.collectAddressHistogram
  {
    var delta := cycles - p.lastCycles;
    if delta <= 0 then p.(lastCycles := cycles)
    else
      var t := Tick(p, cycles, delta);
      if t.sampleRate > 1 then
        if t.sampleCounter + 1 < t.sampleRate then Park(t, pc, delta)
        else Account(Release(t), pc, t.pendingCycles + delta, cycles, cart)
      else Account(t, pc, delta, cycles, cart)
  }

  /** The sampling gate: with a rate above 1, an instruction is skipped
      (its cycles parked, only `lastPc` following it) until the counter
      reaches the rate; the instruction that reaches it is accounted with
      all parked cycles. With rate 1 every instruction is accounted with
      its own delta. */
  lemma SamplingGate(p: Profiler, pc: U32, cycles: U32, cart: MegaDrive.Cart)
    requires Sorted(p.functions) && MegaDrive.CartValid(cart)
    requires cycles - p.lastCycles > 0
    ensures var delta := cycles - p.lastCycles;
            var t := Tick(p, cycles, delta);
            var r := OnExecute(p, pc, cycles, cart);
            && (p.sampleRate <= 1 ==> r == Account(t, pc, delta, cycles, cart))
            && (p.sampleRate > 1 && p.sampleCounter + 1 < p.sampleRate ==> r == Park(t, pc, delta))
            && (p.sampleRate > 1 && p.sampleCounter + 1 >= p.sampleRate ==>
                  r == Account(Release(t), pc, p.pendingCycles + delta, cycles, cart))
  {
    if p.sampleRate <= 1 {
      EveryInstructionSampled(p, pc, cycles, cart);
    } else if p.sampleCounter + 1 < p.sampleRate {
      InstructionSkipped(p, pc, cycles, cart);
    } else {
      InstructionSampled(p, pc, cycles, cart);
    }
  }

  lemma EveryInstructionSampled(p: Profiler, pc: U32, cycles: U32, cart: MegaDrive.Cart)
    requires Sorted(p.functions) && MegaDrive.CartValid(cart)
    requires cycles - p.lastCycles > 0 && p.sampleRate <= 1
    ensures OnExecute(p, pc, cycles, cart) == Account(Tick(p, cycles, cycles - p.lastCycles), pc, cycles - p.lastCycles, cycles, cart)
  {
  }

  lemma InstructionSkipped(p: Profiler, pc: U32, cycles: U32, cart: MegaDrive.Cart)
    requires Sorted(p.functions) && MegaDrive.CartValid(cart)
    requires cycles - p.lastCycles > 0 && p.sampleRate > 1 && p.sampleCounter + 1 < p.sampleRate
    ensures OnExecute(p, pc, cycles, cart) == Park(Tick(p, cycles, cycles - p.lastCycles), pc, cycles - p.lastCycles)
  {
  }

  lemma InstructionSampled(p: Profiler, pc: U32, cycles: U32, cart: MegaDrive.Cart)
    requires Sorted(p.functions) && MegaDrive.CartValid(cart)
    requires cycles - p.lastCycles > 0 && p.sampleRate > 1 && p.sampleCounter + 1 >= p.sampleRate
    ensures OnExecute(p, pc, cycles, cart)
         == Account(Release(Tick(p, cycles, cycles - p.lastCycles)), pc, p.pendingCycles + (cycles - p.lastCycles), cycles, cart)
  {
  }

  lemma AccountKeepsValid(p: Profiler, pc: U32, delta: nat, current: int, cart: MegaDrive.Cart)
    requires Valid(p) && MegaDrive.CartValid(cart)
    requires delta > 0 && HistogramSum(p.addressCycles) + p.pendingCycles + delta <= p.totalCycles
    ensures Valid(Account(p, pc, delta, current, cart))
    ensures p.collectAddressHistogram ==>
              HistogramSum(Account(p, pc, delta, current, cart).addressCycles) == HistogramSum(p.addressCycles) + delta
    ensures Account(p, pc, delta, current, cart).totalCycles == p.totalCycles
    ensures Account(p, pc, delta, current, cart).pendingCycles == p.pendingCycles
  {
    var r := Account(p, pc, delta, current, cart);
    if p.collectAddressHistogram {
      HistogramSumBump(p.addressCycles, pc, delta);
    }
    var stats := Attribute(p, pc, delta);
    assert p.stats.Keys <= stats.Keys;
    assert p.stats.Keys <= r.stats.Keys by {
      if p.mode == CallStack && p.lastPc != 0 {
        var calls := TrackCalls(p.functions, p.callStack, stats, pc, CodeWord(cart, p.lastPc), current);
        assert stats.Keys <= calls.1.Keys;
      }
    }
    assert StatsCover(r);
  }

  lemma ParkKeepsValid(t: Profiler, pc: U32, delta: nat)
    requires Valid(t) && t.sampleCounter + 1 < t.sampleRate
    requires HistogramSum(t.addressCycles) + t.pendingCycles + delta <= t.totalCycles
    ensures Valid(Park(t, pc, delta))
  {
  }

  lemma TickKeepsValid(p: Profiler, cycles: U32, delta: nat)
    requires Valid(p)
    ensures var t := Tick(p, cycles, delta);
            && Valid(t) && HistogramSum(t.addressCycles) + t.pendingCycles + delta <= t.totalCycles
            && HistogramSum(t.addressCycles) == HistogramSum(p.addressCycles)
  {
  }

  lemma ReleaseKeepsValid(t: Profiler, delta: nat)
    requires Valid(t) && HistogramSum(t.addressCycles) + t.pendingCycles + delta <= t.totalCycles
    ensures var q := Release(t);
            && Valid(q) && HistogramSum(q.addressCycles) + t.pendingCycles + delta <= q.totalCycles
  {
  }

  /** The one-step facts both invariant lemmas below rest on. */
  lemma OnExecuteCases(p: Profiler, pc: U32, cycles: U32, cart: MegaDrive.Cart)
    requires Valid(p) && MegaDrive.CartValid(cart)
    ensures var r := OnExecute(p, pc, cycles, cart);
            && Valid(r)
            && (p.collectAddressHistogram && HistogramSum(p.addressCycles) + p.pendingCycles == p.totalCycles ==>
                  HistogramSum(r.addressCycles) + r.pendingCycles == r.totalCycles)
            && (p.sampleRate == 1 && p.pendingCycles == 0 ==> r.pendingCycles == 0)
  {
    var delta := cycles - p.lastCycles;
    if delta > 0 {
      if p.sampleRate <= 1 {
        AccountedStep(p, pc, cycles, cart);
      } else if p.sampleCounter + 1 < p.sampleRate {
        ParkedStep(p, pc, cycles, cart);
      } else {
        ReleasedStep(p, pc, cycles, cart);
      }
    }
  }

  lemma AccountedStep(p: Profiler, pc: U32, cycles: U32, cart: MegaDrive.Cart)
    requires Valid(p) && MegaDrive.CartValid(cart) && cycles - p.lastCycles > 0 && p.sampleRate <= 1
    ensures var r := OnExecute(p, pc, cycles, cart);
            && Valid(r)
            && (p.collectAddressHistogram && HistogramSum(p.addressCycles) + p.pendingCycles == p.totalCycles ==>
                  HistogramSum(r.addressCycles) + r.pendingCycles == r.totalCycles)
            && r.pendingCycles == p.pendingCycles
  {
    var delta := cycles - p.lastCycles;
    EveryInstructionSampled(p, pc, cycles, cart);
    var t := Tick(p, cycles, delta);
    TickKeepsValid(p, cycles, delta);
    var r := Account(t, pc, delta, cycles, cart);
    assert OnExecute(p, pc, cycles, cart) == r;
    AccountKeepsValid(t, pc, delta, cycles, cart);
    assert r.pendingCycles == t.pendingCycles == p.pendingCycles;
    assert r.totalCycles == t.totalCycles == p.totalCycles + delta;
  }

  lemma ParkedStep(p: Profiler, pc: U32, cycles: U32, cart: MegaDrive.Cart)
    requires Valid(p) && MegaDrive.CartValid(cart) && cycles - p.lastCycles > 0
    requires p.sampleRate > 1 && p.sampleCounter + 1 < p.sampleRate
    ensures var r := OnExecute(p, pc, cycles, cart);
            && Valid(r)
            && (HistogramSum(p.addressCycles) + p.pendingCycles == p.totalCycles ==>
                  HistogramSum(r.addressCycles) + r.pendingCycles == r.totalCycles)
  {
    var delta := cycles - p.lastCycles;
    InstructionSkipped(p, pc, cycles, cart);
    TickKeepsValid(p, cycles, delta);
    ParkKeepsValid(Tick(p, cycles, delta), pc, delta);
  }

  lemma ReleasedStep(p: Profiler, pc: U32, cycles: U32, cart: MegaDrive.Cart)
    requires Valid(p) && MegaDrive.CartValid(cart) && cycles - p.lastCycles > 0
    requires p.sampleRate > 1 && p.sampleCounter + 1 >= p.sampleRate
    ensures var r := OnExecute(p, pc, cycles, cart);
            && Valid(r)
            && (p.collectAddressHistogram && HistogramSum(p.addressCycles) + p.pendingCycles == p.totalCycles ==>
                  HistogramSum(r.addressCycles) + r.pendingCycles == r.totalCycles)
  {
    InstructionSampled(p, pc, cycles, cart);
    ReleaseThenAccount(p, pc, cycles, cart);
  }

  /** The sampled step's parts: the total grows, the parked cycles are
      released, and all of them are accounted at once. */
  lemma ReleaseThenAccount(p: Profiler, pc: U32, cycles: U32, cart: MegaDrive.Cart)
    requires Valid(p) && MegaDrive.CartValid(cart) && cycles - p.lastCycles > 0
    ensures var delta := cycles - p.lastCycles;
            var r := Account(Release(Tick(p, cycles, delta)), pc, p.pendingCycles + delta, cycles, cart);
            && Valid(r)
            && (p.collectAddressHistogram && HistogramSum(p.addressCycles) + p.pendingCycles == p.totalCycles ==>
                  HistogramSum(r.addressCycles) + r.pendingCycles == r.totalCycles)
  {
    var delta := cycles - p.lastCycles;
    var q := Release(Tick(p, cycles, delta));
    TickThenRelease(p, cycles, delta);
    AccountKeepsValid(q, pc, p.pendingCycles + delta, cycles, cart);
  }

  /** Growing the total and releasing the parked cycles keeps Valid and
      leaves room for all of them in the histogram. */
  lemma TickThenRelease(p: Profiler, cycles: U32, delta: nat)
    requires Valid(p)
    ensures var q := Release(Tick(p, cycles, delta));
            && Valid(q) && HistogramSum(q.addressCycles) + q.pendingCycles + (p.pendingCycles + delta) <= q.totalCycles
            && q.pendingCycles == 0 && q.totalCycles == p.totalCycles + delta
            && q.collectAddressHistogram == p.collectAddressHistogram
            && HistogramSum(q.addressCycles) == HistogramSum(p.addressCycles)
  {
    TickKeepsValid(p, cycles, delta);
    ReleaseKeepsValid(Tick(p, cycles, delta), delta);
  }

  /** OnExecute keeps the class invariant: sorted table with statistics
      for every function, the sampling counter below the rate, at most 256
      frames, positive histogram cells, and histogram plus parked cycles
      bounded by the total. */
  lemma OnExecuteKeepsValid(p: Profiler, pc: U32, cycles: U32, cart: MegaDrive.Cart)
    requires Valid(p) && MegaDrive.CartValid(cart)
    ensures Valid(OnExecute(p, pc, cycles, cart))
  {
    OnExecuteCases(p, pc, cycles, cart);
  }

  /** While the histogram is collected, histogram plus parked cycles stay
      equal to the total; with every instruction sampled nothing is ever
      parked, so the histogram alone sums to the total. */
  lemma OnExecuteKeepsHistogramExact(p: Profiler, pc: U32, cycles: U32, cart: MegaDrive.Cart)
    requires Valid(p) && MegaDrive.CartValid(cart) && p.collectAddressHistogram
    requires HistogramSum(p.addressCycles) + p.pendingCycles == p.totalCycles
    ensures var r := OnExecute(p, pc, cycles, cart);
            && HistogramSum(r.addressCycles) + r.pendingCycles == r.totalCycles
            && (p.sampleRate == 1 && p.pendingCycles == 0 ==> r.pendingCycles == 0)
  {
    OnExecuteCases(p, pc, cycles, cart);
  }

  /** Call-stack discipline of one step: at most 256 frames, a push only
      after a call opcode at the previous PC when the current PC lies in a
      function, and a pop only after a return opcode. */
  lemma OnExecuteCallStack(p: Profiler, pc: U32, cycles: U32, cart: MegaDrive.Cart)
    requires Sorted(p.functions) && MegaDrive.CartValid(cart) && |p.callStack| <= MaxCallStackDepth
    ensures var r := OnExecute(p, pc, cycles, cart);
            && |r.callStack| <= MaxCallStackDepth
            && (|r.callStack| > |p.callStack| ==>
                  && p.mode == CallStack && p.lastPc != 0 && IsCallOpcode(CodeWord(cart, p.lastPc))
                  && Lookup(p.functions, pc).Some?
                  && r.callStack == p.callStack + [CallFrame(p.functions[Lookup(p.functions, pc).value].start, cycles)])
            && (|r.callStack| < |p.callStack| ==>
                  && p.mode == CallStack && p.lastPc != 0 && IsReturnOpcode(CodeWord(cart, p.lastPc))
                  && r.callStack == p.callStack[..|p.callStack| - 1])
  {
    var delta := cycles - p.lastCycles;
    if delta > 0 {
      SamplingGate(p, pc, cycles, cart);
    }
  }

  // ---------------------------------------------------------------------
  // Instruction traces
  // ---------------------------------------------------------------------

  /** One executed instruction: its address and the cycle counter then. */
  datatype Step = Step(pc: U32, cycles: U32)

  function Run(p: Profiler, trace: seq<Step>, cart: MegaDrive.Cart): (r: Profiler)
    requires Sorted(p.functions) && MegaDrive.CartValid(cart)
    ensures r.functions == p.functions && r.sampleRate == p.sampleRate
    ensures r.mode == p.mode && r.collectAddressHistogram == p.collectAddressHistogram
    ensures |trace| > 0 ==> r.lastCycles == trace[|trace| - 1].cycles
    decreases |trace|
  {
    if |trace| == 0 then p
    else Run(OnExecute(p, trace[0].pc, trace[0].cycles, cart), trace[1..], cart)
  }

  /** The cycles a trace carries: the positive counter increments. */
  function CycleMass(last: int, trace: seq<Step>): nat
    decreases |trace|
  {
    if |trace| == 0 then 0
    else (if trace[0].cycles - last > 0 then trace[0].cycles - last else 0) + CycleMass(trace[0].cycles, trace[1..])
  }

  /** The total grows by the cycle mass of the trace, whatever the sample
      rate, mode or histogram setting. */
  lemma {:induction false} RunTotal(p: Profiler, trace: seq<Step>, cart: MegaDrive.Cart)
    requires Sorted(p.functions) && MegaDrive.CartValid(cart)
    ensures Run(p, trace, cart).totalCycles == p.totalCycles + CycleMass(p.lastCycles, trace)
    decreases |trace|
  {
    if |trace| > 0 {
      RunTotal(OnExecute(p, trace[0].pc, trace[0].cycles, cart), trace[1..], cart);
    }
  }

  lemma {:induction false} RunKeepsValid(p: Profiler, trace: seq<Step>, cart: MegaDrive.Cart)
    requires Valid(p) && MegaDrive.CartValid(cart)
    ensures Valid(Run(p, trace, cart))
    decreases |trace|
  {
    if |trace| > 0 {
      OnExecuteKeepsValid(p, trace[0].pc, trace[0].cycles, cart);
      RunKeepsValid(OnExecute(p, trace[0].pc, trace[0].cycles, cart), trace[1..], cart);
    }
  }

  lemma {:induction false} RunKeepsHistogramExact(p: Profiler, trace: seq<Step>, cart: MegaDrive.Cart)
    requires Valid(p) && MegaDrive.CartValid(cart) && p.collectAddressHistogram
    requires HistogramSum(p.addressCycles) + p.pendingCycles == p.totalCycles
    ensures var r := Run(p, trace, cart);
            && HistogramSum(r.addressCycles) + r.pendingCycles == r.totalCycles
            && (p.sampleRate == 1 && p.pendingCycles == 0 ==> HistogramSum(r.addressCycles) == r.totalCycles)
    decreases |trace|
  {
    if |trace| > 0 {
      var p1 := OnExecute(p, trace[0].pc, trace[0].cycles, cart);
      OnExecuteKeepsValid(p, trace[0].pc, trace[0].cycles, cart);
      OnExecuteKeepsHistogramExact(p, trace[0].pc, trace[0].cycles, cart);
      RunKeepsHistogramExact(p1, trace[1..], cart);
    }
  }

  /** A session started right after Reset with the histogram on: at the
      end, histogram plus parked cycles equal the total, and with every
      instruction sampled the histogram alone does. */
  lemma HistogramSumsToTotal(p: Profiler, options: ProfileOptions, c0: U32, c1: U32, trace: seq<Step>, cart: MegaDrive.Cart)
    requires Valid(p) && !p.running && MegaDrive.CartValid(cart) && options.collectAddressHistogram
    ensures var r := Run(Start(Reset(p, c0), options, c1), trace, cart);
            && HistogramSum(r.addressCycles) + r.pendingCycles == r.totalCycles
            && (options.sampleRate <= 1 ==> HistogramSum(r.addressCycles) == r.totalCycles)
  {
    ResetKeepsValid(p, c0);
    var s := Start(Reset(p, c0), options, c1);
    StartKeepsValid(Reset(p, c0), options, c1);
    RunKeepsHistogramExact(s, trace, cart);
  }

  /** Two functions a = [0x210, 0x224) and b = [0x224, 0x236); a trace
      spending 500 cycles in a, then 300 in b, with every instruction
      sampled: a gets 500, b gets 300 and one entry, the total is 800. */
  lemma TwoFunctionScenario(cart: MegaDrive.Cart)
    requires MegaDrive.CartValid(cart)
    ensures var p0 := AddFunction(AddFunction(Fresh, 0x210, 0x224, "a"), 0x224, 0x236, "b");
            var r := Run(StartMode(p0, Simple, 1000), [Step(0x210, 1200), Step(0x212, 1500), Step(0x224, 1800)], cart);
            && r.totalCycles == 800
            && StatsAt(r.stats, 0x210).cyclesExclusive == 500
            && StatsAt(r.stats, 0x224).cyclesExclusive == 300
            && StatsAt(r.stats, 0x224).callCount == 1
  {
    var p0 := AddFunction(AddFunction(Fresh, 0x210, 0x224, "a"), 0x224, 0x236, "b");
    assert p0.functions == [FunctionDef(0x210, 0x224, "a"), FunctionDef(0x224, 0x236, "b")];
    var s := StartMode(p0, Simple, 1000);
    assert s.stats == map[0x210 := ZeroStats, 0x224 := ZeroStats];
    assert s.functions == p0.functions && s.mode == Simple && s.sampleRate == 1;
    assert s.lastPc == 0 && s.lastCycles == 1000 && s.totalCycles == 0;
    RunThree(s, Step(0x210, 1200), Step(0x212, 1500), Step(0x224, 1800), cart);
    ScenarioFromStart(s, cart);
  }

  /** A three-step trace is three OnExecute calls in a row. */
  lemma RunThree(p: Profiler, a: Step, b: Step, c: Step, cart: MegaDrive.Cart)
    requires Sorted(p.functions) && MegaDrive.CartValid(cart)
    ensures Run(p, [a, b, c], cart) ==
            OnExecute(OnExecute(OnExecute(p, a.pc, a.cycles, cart), b.pc, b.cycles, cart), c.pc, c.cycles, cart)
  {
    var p1 := OnExecute(p, a.pc, a.cycles, cart);
    var p2 := OnExecute(p1, b.pc, b.cycles, cart);
    var p3 := OnExecute(p2, c.pc, c.cycles, cart);
    assert [a, b, c][1..] == [b, c];
    assert Run(p, [a, b, c], cart) == Run(p1, [b, c], cart);
    assert [b, c][1..] == [c];
    assert Run(p1, [b, c], cart) == Run(p2, [c], cart);
    assert [c][1..] == [];
    assert Run(p2, [c], cart) == Run(p3, [], cart) == p3;
  }

  /** The scenario's three steps from any profiler started in Simple mode
      at cycle 1000 with the two functions registered. */
  lemma ScenarioFromStart(s: Profiler, cart: MegaDrive.Cart)
    requires MegaDrive.CartValid(cart)
    requires s.functions == [FunctionDef(0x210, 0x224, "a"), FunctionDef(0x224, 0x236, "b")]
    requires s.stats == map[0x210 := ZeroStats, 0x224 := ZeroStats]
    requires s.mode == Simple && s.sampleRate == 1 && s.lastPc == 0 && s.lastCycles == 1000 && s.totalCycles == 0
    ensures Sorted(s.functions)
    ensures var r := OnExecute(OnExecute(OnExecute(s, 0x210, 1200, cart), 0x212, 1500, cart), 0x224, 1800, cart);
            && r.totalCycles == 800
            && StatsAt(r.stats, 0x210).cyclesExclusive == 500
            && StatsAt(r.stats, 0x224).cyclesExclusive == 300
            && StatsAt(r.stats, 0x224).callCount == 1
  {
    var fs := s.functions;
    LookupExact(fs, 0x210, 0);
    LookupExact(fs, 0x212, 0);
    LookupExact(fs, 0x224, 1);
    var r1 := OnExecute(s, 0x210, 1200, cart);
    SimpleStep(s, 0x210, 1200, cart);
    assert r1.stats == s.stats[0x210 := r1.stats[0x210]] && r1.stats[0x210].cyclesExclusive == 200;
    var r2 := OnExecute(r1, 0x212, 1500, cart);
    SimpleStep(r1, 0x212, 1500, cart);
    assert r2.stats == r1.stats[0x210 := r2.stats[0x210]] && r2.stats[0x210].cyclesExclusive == 500;
    var r3 := OnExecute(r2, 0x224, 1800, cart);
    SimpleStep(r2, 0x224, 1800, cart);
    assert Enters(r2, 1);
    assert r3.stats == r2.stats[0x224 := r3.stats[0x224]];
  }

  /** One instruction in Simple mode with every instruction sampled: the
      total grows by the step and the stats are the attribution. */
  lemma SimpleStep(p: Profiler, pc: U32, cycles: U32, cart: MegaDrive.Cart)
    requires Sorted(p.functions) && MegaDrive.CartValid(cart)
    requires p.mode == Simple && p.sampleRate == 1 && cycles - p.lastCycles > 0
    ensures var r := OnExecute(p, pc, cycles, cart);
            && r.stats == Attribute(p, pc, cycles - p.lastCycles)
            && r.lastPc == pc && r.lastCycles == cycles
            && r.totalCycles == p.totalCycles + (cycles - p.lastCycles)
  {
    SamplingGate(p, pc, cycles, cart);
    var t := Tick(p, cycles, cycles - p.lastCycles);
    assert Attribute(t, pc, cycles - p.lastCycles) == Attribute(p, pc, cycles - p.lastCycles) by {
      assert t.functions == p.functions && t.stats == p.stats && t.lastPc == p.lastPc;
    }
  }
}
