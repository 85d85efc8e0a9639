/** The symbol-header generator (tools/elf2sym.py): nm lines in, C++
    constants for work-RAM symbols out. */
module SymbolHeader {
  import opened Wrappers
  import Hex

  /** One parsed nm line. */
  datatype Symbol = Symbol(address: nat, kind: char, name: string)

  /** The ASCII characters `str.strip` and `\s` treat as whitespace: the
      blank, tab, line feed, vertical tab, form feed and carriage return
      (0x09..0x0D) and the four separators 0x1C..0x1F. */
  predicate IsSpace(c: char) {
    c == ' ' || '\t' <= c <= '\r' || '\U{1C}' <= c <= '\U{1F}'
  }

  predicate IsLetter(c: char) {
    'a' <= c <= 'z' || 'A' <= c <= 'Z'
  }

  predicate NoSpace(s: string) {
    forall i :: 0 <= i < |s| ==> !IsSpace(s[i])
  }

  /** What a matched line always yields: a letter type and a non-empty
      name without blanks. */
  predicate WellFormed(sym: Symbol) {
    IsLetter(sym.kind) && |sym.name| > 0 && NoSpace(sym.name)
  }

  /** Drop leading whitespace. */
  function StripLeft(s: string): (r: string)
    ensures |r| <= |s| && r == s[|s| - |r|..]
    ensures |r| > 0 ==> !IsSpace(r[0])
    ensures forall k :: 0 <= k < |s| - |r| ==> IsSpace(s[k])
  {
    if |s| > 0 && IsSpace(s[0]) then StripLeft(s[1..]) else s
  }

  /** Drop trailing whitespace. */
  function StripRight(s: string): (r: string)
    ensures |r| <= |s| && r == s[..|r|]
    ensures |r| > 0 ==> !IsSpace(r[|r| - 1])
    ensures forall k :: |r| <= k < |s| ==> IsSpace(s[k])
  {
    if |s| > 0 && IsSpace(s[|s| - 1]) then StripRight(s[..|s| - 1]) else s
  }

  /** `line.strip()`. */
  function Strip(s: string): (r: string)
    ensures |r| > 0 ==> !IsSpace(r[0]) && !IsSpace(r[|r| - 1])
  {
    StripLeft(StripRight(s))
  }

  /** Strip removes whitespace at the two ends and nothing else: the
      result is the stretch of `s` starting at `lo` between a whitespace
      prefix and a whitespace suffix. */
  lemma StripSlice(s: string) returns (lo: nat)
    ensures lo + |Strip(s)| <= |s| && Strip(s) == s[lo..lo + |Strip(s)|]
    ensures forall k :: 0 <= k < lo ==> IsSpace(s[k])
    ensures forall k :: lo + |Strip(s)| <= k < |s| ==> IsSpace(s[k])
  {
    var t := StripRight(s);
    var r := StripLeft(t);
    lo := |t| - |r|;
    forall k | 0 <= k < lo
      ensures IsSpace(s[k])
    {
      assert s[k] == t[k];
    }
  }

  /** Character classes the nm-line pattern uses. */
  datatype Class = HexDigits | Spaces | NonSpaces

  predicate InClass(c: char, cls: Class) {
    match cls
    case HexDigits => Hex.IsHexDigit(c)
    case Spaces => IsSpace(c)
    case NonSpaces => !IsSpace(c)
  }

  /** Length of the longest prefix of `s` in the class (a greedy `+`). */
  function Run(s: string, cls: Class): (n: nat)
    ensures n <= |s|
    ensures forall i :: 0 <= i < n ==> InClass(s[i], cls)
    ensures n < |s| ==> !InClass(s[n], cls)
  {
    if |s| == 0 || !InClass(s[0], cls) then 0 else 1 + Run(s[1..], cls)
  }

  /** Matching `^([0-9a-fA-F]+)\s+([a-zA-Z])\s+(\S+)` against a stripped
      line. No backtracking is needed: each group is followed by a
      character its class excludes. */
  function MatchNm(s: string): (r: Option<Symbol>)
    ensures r.Some? ==> WellFormed(r.value)
  {
    var h := Run(s, HexDigits);
    if h == 0 then None
    else
      match MatchKind(s[h..])
      case None => None
      case Some(kn) => Some(Symbol(Hex.Value(s[..h]), kn.0, kn.1))
  }

  /** `\s+([a-zA-Z])\s+(\S+)`: the type letter and the name. */
  function MatchKind(t: string): (r: Option<(char, string)>)
    ensures r.Some? ==> IsLetter(r.value.0) && |r.value.1| > 0 && NoSpace(r.value.1)
  {
    var w := Run(t, Spaces);
    if w == 0 || w >= |t| || !IsLetter(t[w]) then None
    else
      match MatchName(t[w + 1..])
      case None => None
      case Some(name) => Some((t[w], name))
  }

  /** `\s+(\S+)`: the name. */
  function MatchName(u: string): (r: Option<string>)
    ensures r.Some? ==> |r.value| > 0 && NoSpace(r.value)
  {
    var w := Run(u, Spaces);
    var n := Run(u[w..], NonSpaces);
    if w == 0 || n == 0 then None else Some(u[w..][..n])
  }

  /** One input line: blank lines and lines not matching are skipped. */
  function ParseLine(line: string): (r: Option<Symbol>)
    ensures r.Some? ==> WellFormed(r.value)
  {
    var s := Strip(line);
    if |s| == 0 then None else MatchNm(s)
  }

  predicate AllWellFormed(syms: seq<Symbol>) {
    forall k :: 0 <= k < |syms| ==> WellFormed(syms[k])
  }

  /** The values of the present options, in order. */
  function Somes<T>(xs: seq<Option<T>>): (ys: seq<T>)
    ensures |ys| <= |xs|
  {
    if |xs| == 0 then []
    else (match xs[0] case Some(v) => [v] case None => []) + Somes(xs[1..])
  }

  /** Every value kept satisfies what every present option's value does. */
  lemma {:induction false} SomesKeep<T>(xs: seq<Option<T>>, p: T -> bool)
    requires forall k :: 0 <= k < |xs| && xs[k].Some? ==> p(xs[k].value)
    ensures forall j :: 0 <= j < |Somes(xs)| ==> p(Somes(xs)[j])
    decreases |xs|
  {
    if |xs| > 0 {
      assert forall k :: 0 <= k < |xs| - 1 ==> xs[1..][k] == xs[k + 1];
      SomesKeep(xs[1..], p);
    }
  }

  /** All options present: the values come back as they were. */
  lemma {:induction false} SomesAll<T>(xs: seq<Option<T>>, ys: seq<T>)
    requires |xs| == |ys| && forall k :: 0 <= k < |xs| ==> xs[k] == Some(ys[k])
    ensures Somes(xs) == ys
    decreases |xs|
  {
    if |xs| > 0 {
      assert forall k :: 0 <= k < |xs| - 1 ==> xs[1..][k] == xs[k + 1] && ys[1..][k] == ys[k + 1];
      SomesAll(xs[1..], ys[1..]);
      assert ys == [ys[0]] + ys[1..];
    }
  }

  lemma {:induction false} SomesAppend<T>(a: seq<Option<T>>, b: seq<Option<T>>)
    ensures Somes(a + b) == Somes(a) + Somes(b)
    decreases |a|
  {
    if |a| > 0 {
      assert (a + b)[1..] == a[1..] + b;
      SomesAppend(a[1..], b);
    } else {
      assert a + b == b;
    }
  }

  /** `f` applied to every element. */
  function Map<A, B>(f: A -> B, xs: seq<A>): (ys: seq<B>)
    ensures |ys| == |xs| && forall k :: 0 <= k < |xs| ==> ys[k] == f(xs[k])
  {
    seq(|xs|, k requires 0 <= k < |xs| => f(xs[k]))
  }

  lemma MapAppend<A, B>(f: A -> B, a: seq<A>, b: seq<A>)
    ensures Map(f, a + b) == Map(f, a) + Map(f, b)
  {
    assert forall k :: 0 <= k < |a| + |b| ==> Map(f, a + b)[k] == (Map(f, a) + Map(f, b))[k];
  }

  /** Every line run through the matcher. */
  function ParseLines(lines: seq<string>): (rs: seq<Option<Symbol>>)
    ensures |rs| == |lines|
  {
    Map(ParseLine, lines)
  }

  /** parse_nm_output: the symbols of the matching lines, in order. */
  function ParseNmOutput(lines: seq<string>): (syms: seq<Symbol>)
    ensures |syms| <= |lines|
    ensures AllWellFormed(syms)
  {
    var rs := ParseLines(lines);
    SomesKeep(rs, WellFormed);
    Somes(rs)
  }

  /** Parsing is line by line: the output of two chunks of lines is the
      two outputs one after the other. */
  lemma ParseNmOutputAppend(a: seq<string>, b: seq<string>)
    ensures ParseNmOutput(a + b) == ParseNmOutput(a) + ParseNmOutput(b)
  {
    MapAppend(ParseLine, a, b);
    SomesAppend(ParseLines(a), ParseLines(b));
  }

  /** The lines `nm -n` prints for a list of symbols parse back to the
      list. */
  lemma ParseNmOutputRoundTrip(syms: seq<Symbol>)
    requires AllWellFormed(syms)
    ensures ParseNmOutput(NmLines(syms)) == syms
  {
    var rs := ParseLines(NmLines(syms));
    forall k | 0 <= k < |syms|
      ensures rs[k] == Some(syms[k])
    {
      ParseNmLineRoundTrip(syms[k]);
    }
    SomesAll(rs, syms);
  }

  function NmLines(syms: seq<Symbol>): (lines: seq<string>)
    ensures |lines| == |syms|
  {
    seq(|syms|, k requires 0 <= k < |syms| => NmLine(syms[k]))
  }

  /** A line as `nm -n` prints it: 8 hex digits, type letter, name. */
  function NmLine(sym: Symbol): string {
    Hex.ToHex(sym.address, 8, false) + " " + [sym.kind] + " " + sym.name
  }

  lemma MatchNameOf(name: string)
    requires |name| > 0 && NoSpace(name)
    ensures MatchName([' '] + name) == Some(name)
  {
    var u := [' '] + name;
    RunExact(u, " ", Spaces);
    assert u[1..] == name;
    RunExact(name, name, NonSpaces);
    assert name[..|name|] == name;
  }

  lemma MatchKindOf(kind: char, name: string)
    requires IsLetter(kind) && |name| > 0 && NoSpace(name)
    ensures MatchKind([' ', kind, ' '] + name) == Some((kind, name))
  {
    var t := [' ', kind, ' '] + name;
    RunExact(t, " ", Spaces);
    assert t[2..] == [' '] + name;
    MatchNameOf(name);
  }

  lemma RunHexPrefix(a: string, t: string)
    requires Hex.AllHex(a) && |t| > 0 && t[0] == ' '
    ensures Run(a + t, HexDigits) == |a|
  {
    var s := a + t;
    assert s[..|a|] == a;
    assert s[|a|] == ' ';
    RunExact(s, a, HexDigits);
  }

  /** The pattern splits `hex + " " + kind + " " + name` into its parts. */
  lemma MatchNmFields(a: string, kind: char, name: string)
    requires |a| > 0 && Hex.AllHex(a) && IsLetter(kind) && |name| > 0 && NoSpace(name)
    ensures MatchNm(a + ([' ', kind, ' '] + name)) == Some(Symbol(Hex.Value(a), kind, name))
  {
    var t := [' ', kind, ' '] + name;
    var s := a + t;
    RunHexPrefix(a, t);
    assert s[..|a|] == a && s[|a|..] == t;
    MatchKindOf(kind, name);
  }

  /** Parsing what nm prints gives back the symbol. */
  lemma ParseNmLineRoundTrip(sym: Symbol)
    requires WellFormed(sym)
    ensures ParseLine(NmLine(sym)) == Some(sym)
  {
    var a := Hex.ToHex(sym.address, 8, false);
    Hex.ToHexValue(sym.address, 8, false);
    var s := NmLine(sym);
    assert s == a + ([' ', sym.kind, ' '] + sym.name);
    assert s[0] == a[0] && s[|s| - 1] == sym.name[|sym.name| - 1];
    StripIdentity(s);
    MatchNmFields(a, sym.kind, sym.name);
  }

  /** Run stops exactly after a prefix of the class when the next
      character is outside it. */
  lemma {:induction false} RunExact(s: string, prefix: string, cls: Class)
    requires prefix <= s
    requires forall i :: 0 <= i < |prefix| ==> InClass(prefix[i], cls)
    requires |prefix| < |s| ==> !InClass(s[|prefix|], cls)
    ensures Run(s, cls) == |prefix|
    decreases |prefix|
  {
    if |prefix| > 0 {
      RunExact(s[1..], prefix[1..], cls);
    }
  }

  lemma StripIdentity(s: string)
    requires |s| > 0 && !IsSpace(s[0]) && !IsSpace(s[|s| - 1])
    ensures Strip(s) == s
  {
  }

  /** filter_ram_symbols: both bounds inclusive. */
  function FilterRam(syms: seq<Symbol>, ramStart: nat, ramEnd: nat): (r: seq<Symbol>)
    ensures |r| <= |syms|
    ensures forall k :: 0 <= k < |r| ==> ramStart <= r[k].address <= ramEnd
    ensures forall s :: s in r <==> s in syms && ramStart <= s.address <= ramEnd
  {
    if |syms| == 0 then []
    else
      var rest := FilterRam(syms[1..], ramStart, ramEnd);
      assert forall s :: s in syms <==> s == syms[0] || s in syms[1..];
      if ramStart <= syms[0].address <= ramEnd then [syms[0]] + rest else rest
  }

  /** Filtering keeps each symbol at most as often as it occurs. */
  lemma {:induction false} FilterRamMultiset(syms: seq<Symbol>, ramStart: nat, ramEnd: nat)
    ensures multiset(FilterRam(syms, ramStart, ramEnd)) <= multiset(syms)
    decreases |syms|
  {
    if |syms| > 0 {
      FilterRamMultiset(syms[1..], ramStart, ramEnd);
      assert syms == [syms[0]] + syms[1..];
    }
  }

  /** The comprehension runs over the list in order: filtering a
      concatenation filters each part, so kept symbols keep their order and
      every repetition. */
  lemma {:induction false} FilterRamAppend(a: seq<Symbol>, b: seq<Symbol>, ramStart: nat, ramEnd: nat)
    ensures FilterRam(a + b, ramStart, ramEnd) == FilterRam(a, ramStart, ramEnd) + FilterRam(b, ramStart, ramEnd)
    decreases |a|
  {
    if |a| > 0 {
      assert (a + b)[1..] == a[1..] + b;
      FilterRamAppend(a[1..], b, ramStart, ramEnd);
    } else {
      assert a + b == b;
    }
  }

  /** A single symbol is kept exactly when its address is in range. */
  lemma FilterRamOne(s: Symbol, ramStart: nat, ramEnd: nat)
    ensures FilterRam([s], ramStart, ramEnd) == if ramStart <= s.address <= ramEnd then [s] else []
  {
  }

  const WorkRamStart := 0xFF_0000
  const WorkRamEnd := 0xFF_FFFF

  /** The fixed set of linker markers. */
  const LinkerSymbols: set<string> := {
    "__bss_start", "__bss_end",
    "__data_start", "__data_end", "__data_load",
    "__text_start", "__text_end",
    "__stack", "__heap_start", "__heap_end",
    "_etext", "_edata", "_end"
  }

  predicate IsLinkerSymbol(name: string) {
    name in LinkerSymbols || (|name| >= 2 && name[..2] == "__")
  }

  /** Every listed marker but three starts with `__`, so a name is a
      linker marker exactly when it starts with `__` or is `_etext`,
      `_edata` or `_end`. */
  lemma IsLinkerSymbolExact(name: string)
    ensures IsLinkerSymbol(name) <==> (|name| >= 2 && name[..2] == "__") || name == "_etext" || name == "_edata" || name == "_end"
  {
  }

  predicate IsIdentChar(c: char) {
    IsLetter(c) || Hex.IsDigit(c) || c == '_'
  }

  /** `r` is `body` with every character outside `[A-Za-z0-9_]` replaced
      by `_`, and with `_` put in front exactly when `body` starts with a
      digit. */
  predicate CleanedFrom(body: string, r: string) {
    && (|r| == |body| || |r| == |body| + 1)
    && (|r| == |body| + 1 <==> |body| > 0 && Hex.IsDigit(body[0]))
    && (|r| == |body| + 1 ==> r[0] == '_')
    && forall i :: 0 <= i < |body| ==>
         r[|r| - |body| + i] == (if IsIdentChar(body[i]) then body[i] else '_')
  }

  /** sanitize_name: one leading underscore dropped (both branches of the
      source drop exactly one), every other character outside
      [A-Za-z0-9_] replaced by '_', and a '_' put in front of a leading
      digit. */
  function Sanitize(name: string): (r: string)
    ensures forall i :: 0 <= i < |r| ==> IsIdentChar(r[i])
    ensures |r| > 0 ==> !Hex.IsDigit(r[0])
    ensures var body := if |name| > 0 && name[0] == '_' then name[1..] else name;
            && (|r| == |body| || |r| == |body| + 1)
            && (|r| == |body| + 1 <==> |body| > 0 && Hex.IsDigit(body[0]))
  {
    var body := if |name| > 0 && name[0] == '_' then name[1..] else name;
    var cleaned := seq(|body|, i requires 0 <= i < |body| => if IsIdentChar(body[i]) then body[i] else '_');
    if |cleaned| > 0 && Hex.IsDigit(cleaned[0]) then "_" + cleaned else cleaned
  }

  /** What sanitising does to each character: one leading `_` dropped,
      the rest cleaned position by position, and `_` put in front of a
      leading digit. */
  lemma SanitizeContents(name: string)
    ensures CleanedFrom(if |name| > 0 && name[0] == '_' then name[1..] else name, Sanitize(name))
  {
  }

  /** A name that is already a C identifier without a leading underscore
      comes through unchanged. */
  lemma SanitizeKeepsIdentifiers(name: string)
    requires forall i :: 0 <= i < |name| ==> IsIdentChar(name[i])
    requires |name| > 0 ==> name[0] != '_' && !Hex.IsDigit(name[0])
    ensures Sanitize(name) == name
  {
  }

  /** A stable insertion sort by address (`sorted(..., key=address)`). */
  predicate ByAddress(syms: seq<Symbol>) {
    forall i, j :: 0 <= i < j < |syms| ==> syms[i].address <= syms[j].address
  }

  lemma PrependByAddress(h: Symbol, t: seq<Symbol>)
    requires ByAddress(t) && forall k :: 0 <= k < |t| ==> h.address <= t[k].address
    ensures ByAddress([h] + t)
  {
    var s := [h] + t;
    forall i, j | 0 <= i < j < |s|
      ensures s[i].address <= s[j].address
    {
      assert s[j] == t[j - 1];
      if i > 0 {
        assert s[i] == t[i - 1];
      }
    }
  }

  /** Insert `x` before the first entry with an equal or larger address. */
  function InsertByAddress(sorted: seq<Symbol>, x: Symbol): (r: seq<Symbol>)
    requires ByAddress(sorted)
    ensures ByAddress(r) && multiset(r) == multiset(sorted) + multiset{x}
  {
    if |sorted| == 0 then [x]
    else if x.address <= sorted[0].address then
      PrependByAddress(x, sorted);
      [x] + sorted
    else
      var tail := InsertByAddress(sorted[1..], x);
      assert sorted == [sorted[0]] + sorted[1..];
      forall k | 0 <= k < |tail|
        ensures sorted[0].address <= tail[k].address
      {
        assert tail[k] in multiset(tail);
        if tail[k] != x {
          assert tail[k] in multiset(sorted[1..]);
          assert tail[k] in sorted[1..];
        }
      }
      PrependByAddress(sorted[0], tail);
      [sorted[0]] + tail
  }

  /** Each symbol goes in front of the later ones with the same address,
      which keeps equal addresses in input order as Python's stable sort
      does. */
  function SortByAddress(syms: seq<Symbol>): (r: seq<Symbol>)
    ensures ByAddress(r) && multiset(r) == multiset(syms) && |r| == |syms|
  {
    if |syms| == 0 then []
    else
      assert syms == [syms[0]] + syms[1..];
      InsertByAddress(SortByAddress(syms[1..]), syms[0])
  }

  /** The symbols at address `a`, in their order. */
  function AtAddress(syms: seq<Symbol>, a: nat): seq<Symbol> {
    if |syms| == 0 then []
    else (if syms[0].address == a then [syms[0]] else []) + AtAddress(syms[1..], a)
  }

  lemma AtAddressCons(h: Symbol, t: seq<Symbol>, a: nat)
    ensures AtAddress([h] + t, a) == (if h.address == a then [h] else []) + AtAddress(t, a)
  {
    assert ([h] + t)[1..] == t;
  }

  /** An inserted symbol goes in front of those with its own address. */
  lemma {:induction false} InsertByAddressAt(sorted: seq<Symbol>, x: Symbol, a: nat)
    requires ByAddress(sorted)
    ensures AtAddress(InsertByAddress(sorted, x), a) == (if x.address == a then [x] else []) + AtAddress(sorted, a)
    decreases |sorted|
  {
    if |sorted| == 0 {
      AtAddressCons(x, [], a);
      assert [x] + [] == [x];
    } else if x.address <= sorted[0].address {
      AtAddressCons(x, sorted, a);
    } else {
      assert ByAddress(sorted[1..]);
      var tail := InsertByAddress(sorted[1..], x);
      InsertByAddressAt(sorted[1..], x, a);
      AtAddressBehind(sorted[0], sorted[1..], tail, x, a);
      assert InsertByAddress(sorted, x) == [sorted[0]] + tail;
      assert sorted == [sorted[0]] + sorted[1..];
    }
  }

  /** Passing a symbol with a smaller address than `x` keeps `x` in
      front of the symbols at its own address. */
  lemma AtAddressBehind(h: Symbol, rest: seq<Symbol>, tail: seq<Symbol>, x: Symbol, a: nat)
    requires h.address < x.address
    requires AtAddress(tail, a) == (if x.address == a then [x] else []) + AtAddress(rest, a)
    ensures AtAddress([h] + tail, a) == (if x.address == a then [x] else []) + AtAddress([h] + rest, a)
  {
    AtAddressCons(h, tail, a);
    AtAddressCons(h, rest, a);
    if x.address == a {
      assert h.address != a;
    }
  }

  /** The sort is stable: for every address, the symbols at that address
      keep their input order. */
  lemma {:induction false} SortByAddressStable(syms: seq<Symbol>, a: nat)
    ensures AtAddress(SortByAddress(syms), a) == AtAddress(syms, a)
    decreases |syms|
  {
    if |syms| > 0 {
      SortByAddressStable(syms[1..], a);
      InsertByAddressAt(SortByAddress(syms[1..]), syms[0], a);
      AtAddressCons(syms[0], syms[1..], a);
      assert syms == [syms[0]] + syms[1..];
    }
  }

  /** One emitted constant: the C++ name, the address, the nm name. */
  datatype Entry = Entry(cleanName: string, address: nat, original: string)

  /** A symbol generate_header writes out (unless its name is a duplicate). */
  predicate Eligible(s: Symbol) {
    !IsLinkerSymbol(s.name) && |Sanitize(s.name)| > 0
  }

  function EntryOf(s: Symbol): Entry {
    Entry(Sanitize(s.name), s.address, s.name)
  }

  /** The loop of generate_header over address-sorted symbols: linker
      markers and names that sanitise to nothing are skipped, and of
      several symbols with the same sanitised name only the first is
      kept. `seen` holds the names already written. */
  function Emit(syms: seq<Symbol>, seen: set<string>): (r: seq<Entry>)
    ensures |r| <= |syms|
  {
    if |syms| == 0 then []
    else
      var clean := Sanitize(syms[0].name);
      if !Eligible(syms[0]) || clean in seen then Emit(syms[1..], seen)
      else [EntryOf(syms[0])] + Emit(syms[1..], seen + {clean})
  }

  /** The names already written after the first symbol. */
  function SeenAfter(syms: seq<Symbol>, seen: set<string>): set<string>
    requires |syms| > 0
  {
    var clean := Sanitize(syms[0].name);
    if !Eligible(syms[0]) || clean in seen then seen else seen + {clean}
  }

  /** Whether the first symbol is written. */
  predicate Writes(syms: seq<Symbol>, seen: set<string>)
    requires |syms| > 0
  {
    Eligible(syms[0]) && Sanitize(syms[0].name) !in seen
  }

  lemma EmitUnfold(syms: seq<Symbol>, seen: set<string>)
    requires |syms| > 0
    ensures Emit(syms, seen) ==
              if Writes(syms, seen) then [EntryOf(syms[0])] + Emit(syms[1..], SeenAfter(syms, seen))
              else Emit(syms[1..], SeenAfter(syms, seen))
  {
  }

  /** No two entries carry the same name. */
  predicate NamesDistinct(es: seq<Entry>) {
    forall k, l :: 0 <= k < l < |es| ==> es[k].cleanName != es[l].cleanName
  }

  /** No entry carries a name of `seen`. */
  predicate NamesOutside(es: seq<Entry>, seen: set<string>) {
    forall k :: 0 <= k < |es| ==> es[k].cleanName !in seen
  }

  lemma ConsDistinct(e: Entry, rest: seq<Entry>)
    requires NamesDistinct(rest) && NamesOutside(rest, {e.cleanName})
    ensures NamesDistinct([e] + rest)
  {
    var r := [e] + rest;
    forall k, l | 0 <= k < l < |r|
      ensures r[k].cleanName != r[l].cleanName
    {
      assert r[l] == rest[l - 1];
      if k > 0 {
        assert r[k] == rest[k - 1];
      }
    }
  }

  /** No written name was seen before, and no name is written twice. */
  lemma {:induction false} EmitFresh(syms: seq<Symbol>, seen: set<string>)
    ensures NamesOutside(Emit(syms, seen), seen)
    ensures NamesDistinct(Emit(syms, seen))
    decreases |syms|
  {
    if |syms| > 0 {
      var seen' := SeenAfter(syms, seen);
      EmitFresh(syms[1..], seen');
      EmitUnfold(syms, seen);
      var rest := Emit(syms[1..], seen');
      if Writes(syms, seen) {
        var e := EntryOf(syms[0]);
        assert NamesOutside(rest, {e.cleanName});
        ConsDistinct(e, rest);
        assert NamesOutside([e] + rest, seen) by {
          assert forall k :: 0 < k < |rest| + 1 ==> ([e] + rest)[k] == rest[k - 1];
        }
      }
    }
  }

  /** Some entry carries `name`. */
  predicate Named(es: seq<Entry>, name: string) {
    exists k :: 0 <= k < |es| && es[k].cleanName == name
  }

  lemma NamedCons(e: Entry, rest: seq<Entry>, name: string)
    requires e.cleanName == name || Named(rest, name)
    ensures Named([e] + rest, name)
  {
    if e.cleanName == name {
      assert ([e] + rest)[0] == e;
    } else {
      var k :| 0 <= k < |rest| && rest[k].cleanName == name;
      assert ([e] + rest)[k + 1] == rest[k];
    }
  }

  /** A name is written when the first symbol writes it or the rest do. */
  lemma EmitNamedStep(syms: seq<Symbol>, seen: set<string>, name: string)
    requires |syms| > 0
    requires (Writes(syms, seen) && Sanitize(syms[0].name) == name) || Named(Emit(syms[1..], SeenAfter(syms, seen)), name)
    ensures Named(Emit(syms, seen), name)
  {
    EmitUnfold(syms, seen);
    if Writes(syms, seen) {
      NamedCons(EntryOf(syms[0]), Emit(syms[1..], SeenAfter(syms, seen)), name);
    }
  }

  /** Every eligible symbol's name is written, unless it was seen before. */
  lemma {:induction false} EmitComplete(syms: seq<Symbol>, seen: set<string>, i: nat)
    requires i < |syms| && Eligible(syms[i]) && Sanitize(syms[i].name) !in seen
    ensures Named(Emit(syms, seen), Sanitize(syms[i].name))
    decreases i
  {
    var name := Sanitize(syms[i].name);
    var seen' := SeenAfter(syms, seen);
    if i == 0 || name in seen' {
      EmitNamedStep(syms, seen, name);
    } else {
      assert syms[1..][i - 1] == syms[i];
      EmitComplete(syms[1..], seen', i - 1);
      EmitNamedStep(syms, seen, name);
    }
  }

  /** Every entry comes from an eligible symbol of the input: `e` is the
      entry of an eligible symbol of `syms`. */
  predicate FromInput(syms: seq<Symbol>, e: Entry) {
    exists i :: 0 <= i < |syms| && Eligible(syms[i]) && e == EntryOf(syms[i])
  }

  lemma EmitFromInput(syms: seq<Symbol>, seen: set<string>, k: nat)
    requires k < |Emit(syms, seen)|
    ensures FromInput(syms, Emit(syms, seen)[k])
  {
    var i := EmitFirst(syms, seen, k);
  }

  /** Symbol `i` is the first eligible one carrying its clean name, and
      that name was not seen before. */
  predicate WinsName(syms: seq<Symbol>, seen: set<string>, i: nat)
    requires i < |syms|
  {
    && Eligible(syms[i]) && Sanitize(syms[i].name) !in seen
    && forall j :: 0 <= j < i && Eligible(syms[j]) ==> Sanitize(syms[j].name) != Sanitize(syms[i].name)
  }

  /** Every entry is written for the first eligible symbol of its name. */
  lemma {:induction false} EmitFirst(syms: seq<Symbol>, seen: set<string>, k: nat) returns (i: nat)
    requires k < |Emit(syms, seen)|
    ensures i < |syms| && WinsName(syms, seen, i) && Emit(syms, seen)[k] == EntryOf(syms[i])
    decreases |syms|
  {
    if Writes(syms, seen) && k == 0 {
      EmitUnfold(syms, seen);
      i := 0;
    } else {
      var k' := EmitLater(syms, seen, k);
      var i' := EmitFirst(syms[1..], SeenAfter(syms, seen), k');
      i := i' + 1;
      assert syms[1..][i'] == syms[i];
      WinsNameStep(syms, seen, i');
    }
  }

  /** An entry other than the first symbol's own comes from the rest. */
  lemma EmitLater(syms: seq<Symbol>, seen: set<string>, k: nat) returns (k': nat)
    requires |syms| > 0 && k < |Emit(syms, seen)| && !(Writes(syms, seen) && k == 0)
    ensures k' < |Emit(syms[1..], SeenAfter(syms, seen))|
    ensures Emit(syms, seen)[k] == Emit(syms[1..], SeenAfter(syms, seen))[k']
  {
    var rest := Emit(syms[1..], SeenAfter(syms, seen));
    EmitUnfold(syms, seen);
    if Writes(syms, seen) {
      k' := k - 1;
      ConsAt(EntryOf(syms[0]), rest, k);
    } else {
      k' := k;
    }
  }

  lemma ConsAt(e: Entry, rest: seq<Entry>, k: nat)
    requires 0 < k <= |rest|
    ensures ([e] + rest)[k] == rest[k - 1]
  {
  }

  /** A symbol winning its name after the first keeps winning it with the
      first in front. */
  lemma WinsNameStep(syms: seq<Symbol>, seen: set<string>, i: nat)
    requires |syms| > 0 && i < |syms| - 1 && WinsName(syms[1..], SeenAfter(syms, seen), i)
    ensures WinsName(syms, seen, i + 1)
  {
    assert syms[1..][i] == syms[i + 1];
    forall j | 0 <= j < i + 1 && Eligible(syms[j])
      ensures Sanitize(syms[j].name) != Sanitize(syms[i + 1].name)
    {
      if j > 0 {
        assert syms[1..][j - 1] == syms[j];
      }
    }
  }

  /** Entries of the symbols after the first of an address-sorted list are
      at or above its address. */
  lemma EmitAtLeast(syms: seq<Symbol>, seen: set<string>, k: nat)
    requires ByAddress(syms) && |syms| > 0 && k < |Emit(syms[1..], seen)|
    ensures syms[0].address <= Emit(syms[1..], seen)[k].address
  {
    EmitFromInput(syms[1..], seen, k);
    var i :| 0 <= i < |syms| - 1 && Eligible(syms[1..][i]) && Emit(syms[1..], seen)[k] == EntryOf(syms[1..][i]);
    assert syms[1..][i] == syms[i + 1];
  }

  /** Entries in non-decreasing address order. */
  predicate EntriesAscending(es: seq<Entry>) {
    forall k, l :: 0 <= k < l < |es| ==> es[k].address <= es[l].address
  }

  lemma ConsAscending(e: Entry, rest: seq<Entry>)
    requires EntriesAscending(rest)
    requires forall k :: 0 <= k < |rest| ==> e.address <= rest[k].address
    ensures EntriesAscending([e] + rest)
  {
    var r := [e] + rest;
    forall k, l | 0 <= k < l < |r|
      ensures r[k].address <= r[l].address
    {
      assert r[l] == rest[l - 1];
      if k > 0 {
        assert r[k] == rest[k - 1];
      }
    }
  }

  /** Entries of address-sorted symbols come out in address order. */
  lemma {:induction false} EmitAscending(syms: seq<Symbol>, seen: set<string>)
    requires ByAddress(syms)
    ensures EntriesAscending(Emit(syms, seen))
    decreases |syms|
  {
    if |syms| > 0 {
      var seen' := SeenAfter(syms, seen);
      assert ByAddress(syms[1..]);
      EmitAscending(syms[1..], seen');
      EmitUnfold(syms, seen);
      var rest := Emit(syms[1..], seen');
      if Writes(syms, seen) {
        forall k | 0 <= k < |rest|
          ensures EntryOf(syms[0]).address <= rest[k].address
        {
          EmitAtLeast(syms, seen', k);
        }
        ConsAscending(EntryOf(syms[0]), rest);
      }
    }
  }

  /** The constant line generate_header writes for an entry. */
  function FormatEntry(e: Entry): (r: string)
    ensures var decl := "    constexpr uint32_t " + e.cleanName + " = 0x" + Hex.ToHex(e.address, 6, true) + ";";
            && decl <= r
            && (|r| == |decl| <==> e.cleanName == e.original)
  {
    "    constexpr uint32_t " + e.cleanName + " = 0x" + Hex.ToHex(e.address, 6, true) + ";"
    + (if e.cleanName != e.original then "  // original: " + e.original else "")
  }

  /** The address written is at least six upper-case hex digits that read
      back as the address; exactly six below 0x1000000. */
  lemma FormatEntryAddress(e: Entry)
    ensures var digits := Hex.ToHex(e.address, 6, true);
            && Hex.AllHex(digits) && |digits| >= 6 && Hex.Value(digits) == e.address
            && (forall i :: 0 <= i < |digits| ==> !('a' <= digits[i] <= 'f'))
            && (e.address < 0x100_0000 ==> |digits| == 6)
  {
    Hex.ToHexValue(e.address, 6, true);
    if e.address < 0x100_0000 {
      assert Hex.Pow16(6) == 0x100_0000;
      Hex.ToHexWidth(e.address, 6, true);
    }
  }

  /** The constant lines of the generated header for the given symbols
      (in the tool, already filtered to work RAM). */
  function SymbolLines(syms: seq<Symbol>): (lines: seq<string>)
    ensures |lines| <= |syms|
    ensures |lines| == |Emit(SortByAddress(syms), {})|
    ensures forall k :: 0 <= k < |lines| ==> lines[k] == FormatEntry(Emit(SortByAddress(syms), {})[k])
  {
    var entries := Emit(SortByAddress(syms), {});
    seq(|entries|, k requires 0 <= k < |entries| => FormatEntry(entries[k]))
  }

  /** The header's entries: ascending addresses, distinct names, no
      linker markers, and every eligible symbol represented by its name. */
  lemma HeaderEntries(syms: seq<Symbol>)
    ensures var es := Emit(SortByAddress(syms), {});
            && (forall k, l :: 0 <= k < l < |es| ==> es[k].address <= es[l].address && es[k].cleanName != es[l].cleanName)
            && (forall k :: 0 <= k < |es| ==> !IsLinkerSymbol(es[k].original) && es[k].cleanName == Sanitize(es[k].original))
            && (forall s :: s in syms && Eligible(s) ==> exists k :: 0 <= k < |es| && es[k].cleanName == Sanitize(s.name))
            && (forall k :: 0 <= k < |es| ==> FromInput(syms, es[k]))
  {
    var sorted := SortByAddress(syms);
    var es := Emit(sorted, {});
    EmitAscending(sorted, {});
    EmitFresh(sorted, {});
    forall s | s in syms && Eligible(s)
      ensures exists k :: 0 <= k < |es| && es[k].cleanName == Sanitize(s.name)
    {
      assert s in multiset(sorted);
      var i :| 0 <= i < |sorted| && sorted[i] == s;
      EmitComplete(sorted, {}, i);
    }
    forall k | 0 <= k < |es|
      ensures !IsLinkerSymbol(es[k].original) && es[k].cleanName == Sanitize(es[k].original)
      ensures FromInput(syms, es[k])
    {
      EmitFromInput(sorted, {}, k);
      FromInputPermuted(sorted, syms, es[k]);
    }
  }

  /** An entry drawn from a list is drawn from any permutation of it. */
  lemma FromInputPermuted(a: seq<Symbol>, b: seq<Symbol>, e: Entry)
    requires multiset(a) == multiset(b) && FromInput(a, e)
    ensures FromInput(b, e)
  {
    var i :| 0 <= i < |a| && Eligible(a[i]) && e == EntryOf(a[i]);
    assert a[i] in multiset(b);
    var j :| 0 <= j < |b| && b[j] == a[i];
  }

  /** Each constant line of the header is the line of an eligible input
      symbol, and every eligible input symbol's clean name has a line. */
  lemma SymbolLinesFromInput(syms: seq<Symbol>)
    ensures var lines := SymbolLines(syms);
            var es := Emit(SortByAddress(syms), {});
            && (forall k :: 0 <= k < |lines| ==> FromInput(syms, es[k]) && lines[k] == FormatEntry(es[k]))
            && (forall s :: s in syms && Eligible(s) ==>
                  exists k :: 0 <= k < |lines| && es[k].cleanName == Sanitize(s.name) && lines[k] == FormatEntry(es[k]))
  {
    HeaderEntries(syms);
  }

  /** Of several symbols whose names sanitise alike, the header keeps one
      at the lowest address: an entry never lies above any eligible symbol
      of its name. */
  lemma HeaderFirstWins(syms: seq<Symbol>)
    ensures var es := Emit(SortByAddress(syms), {});
            forall s, k :: s in syms && Eligible(s) && 0 <= k < |es| && es[k].cleanName == Sanitize(s.name) ==>
              es[k].address <= s.address
  {
    var sorted := SortByAddress(syms);
    var es := Emit(sorted, {});
    forall s, k | s in syms && Eligible(s) && 0 <= k < |es| && es[k].cleanName == Sanitize(s.name)
      ensures es[k].address <= s.address
    {
      var i := EmitFirst(sorted, {}, k);
      assert s in multiset(sorted);
      var j :| 0 <= j < |sorted| && sorted[j] == s;
      assert !(j < i);
    }
  }
}
