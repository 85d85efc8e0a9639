/** The test-ROM builder (tools/gen_prime_rom.py): big-endian packing, the
    two-pass label assembler, branch displacements, and the image layout
    around a program (vectors, header, padding, checksum). */
module PrimeRom {
  import opened Wrappers
  import opened Machine

  // ---------------------------------------------------------------------
  // Big-endian packing
  // ---------------------------------------------------------------------

  /** `word(v)`: `v & 0xFFFF` as two bytes, high byte first. Python's `&`
      on a negative value gives the two's-complement bits, which is the
      Euclidean remainder. */
  function Word(v: int): (r: seq<U8>)
    ensures |r| == 2
    ensures BeWord(r) == v % 0x1_0000
  {
    var m := v % 0x1_0000;
    [m / 0x100, m % 0x100]
  }

  /** `long(v)`: `v & 0xFFFFFFFF` as four bytes, high byte first. */
  function Long(v: int): (r: seq<U8>)
    ensures |r| == 4
    ensures BeLong(r) == v % 0x1_0000_0000
  {
    var m := v % 0x1_0000_0000;
    var r := Word(m / 0x1_0000) + Word(m % 0x1_0000);
    assert r[..2] == Word(m / 0x1_0000) && r[2..] == Word(m % 0x1_0000);
    r
  }

  /** Reading two bytes back as a big-endian word. */
  function BeWord(b: seq<U8>): (w: U16)
    requires |b| == 2
  {
    (b[0] as int) * 0x100 + b[1] as int
  }

  /** Reading four bytes back as a big-endian long. */
  function BeLong(b: seq<U8>): (l: U32)
    requires |b| == 4
  {
    BeWord(b[..2]) * 0x1_0000 + BeWord(b[2..])
  }

  /** A 16-bit word read as two's complement, as the 68000 reads a branch
      displacement. */
  function Signed16(w: U16): (d: int)
    ensures -0x8000 <= d < 0x8000
    ensures d % 0x1_0000 == w
  {
    if w >= 0x8000 then w - 0x1_0000 else w
  }

  // ---------------------------------------------------------------------
  // The assembler
  // ---------------------------------------------------------------------

  /** An item of an instruction list: a string (a label when it ends in
      ':', otherwise ignored), raw bytes, or an `(opcode, size, args)`
      tuple whose opcode is either fixed bytes or a generator called with
      the current pc and the label table (its extra arguments are bound
      into the generator here). A generator that fails, as a missing
      label does, is `None`. */
  datatype Item =
    | Text(s: string)
    | Raw(bytes: seq<U8>)
    | Fixed(code: seq<U8>, size: nat)
    | Deferred(gen: (nat, map<string, nat>) -> Option<seq<U8>>, size: nat)

  predicate IsLabel(s: string) {
    |s| > 0 && s[|s| - 1] == ':'
  }

  function LabelName(s: string): string
    requires IsLabel(s)
  {
    s[..|s| - 1]
  }

  /** How far an item advances the pc. A tuple advances by its declared
      size even if its bytes are of another length. */
  function Size(item: Item): nat {
    match item
    case Text(_) => 0
    case Raw(bytes) => |bytes|
    case Fixed(_, size) => size
    case Deferred(_, size) => size
  }

  /** The pc at item `i`: the sizes of the items before it. */
  function Offset(items: seq<Item>, i: nat): nat
    requires i <= |items|
  {
    if i == 0 then 0 else Offset(items, i - 1) + Size(items[i - 1])
  }

  /** First pass: every label gets the pc where it stands; a label defined
      twice keeps its last position. */
  function CollectLabels(items: seq<Item>, i: nat, labels: map<string, nat>): (r: map<string, nat>)
    requires i <= |items|
    decreases |items| - i
  {
    if i == |items| then labels
    else
      var labels' := match items[i]
        case Text(s) => if IsLabel(s) then labels[LabelName(s) := Offset(items, i)] else labels
        case _ => labels;
      CollectLabels(items, i + 1, labels')
  }

  function Labels(items: seq<Item>): map<string, nat> {
    CollectLabels(items, 0, map[])
  }

  /** The bytes one item contributes in the second pass. */
  function Code(item: Item, pc: nat, labels: map<string, nat>): Option<seq<U8>> {
    match item
    case Text(_) => Some([])
    case Raw(bytes) => Some(bytes)
    case Fixed(code, _) => Some(code)
    case Deferred(gen, _) => gen(pc, labels)
  }

  /** Second pass from item `i` on. */
  function EmitFrom(items: seq<Item>, i: nat, labels: map<string, nat>): Option<seq<U8>>
    requires i <= |items|
    decreases |items| - i
  {
    if i == |items| then Some([])
    else
      var c :- Code(items[i], Offset(items, i), labels);
      var rest :- EmitFrom(items, i + 1, labels);
      Some(c + rest)
  }

  /** `assemble_68k`: when every item's bytes have its declared size, the
      output has the total size; an item whose generator fails (a missing
      label's KeyError) makes the whole assembly fail. */
  function Assemble(items: seq<Item>): (r: Option<seq<U8>>)
    ensures AllFit(items, 0, Labels(items)) ==> r.Some? && |r.value| == Offset(items, |items|)
    ensures SomeItemFails(items, Labels(items)) ==> r.None?
  {
    var labels := Labels(items);
    EmitOutcome(items, labels);
    EmitFrom(items, 0, labels)
  }

  /** Some item's generator fails at its pc. */
  predicate SomeItemFails(items: seq<Item>, labels: map<string, nat>) {
    exists j :: 0 <= j < |items| && Code(items[j], Offset(items, j), labels).None?
  }

  lemma EmitOutcome(items: seq<Item>, labels: map<string, nat>)
    ensures AllFit(items, 0, labels) ==> EmitFrom(items, 0, labels).Some? && |EmitFrom(items, 0, labels).value| == Offset(items, |items|)
    ensures SomeItemFails(items, labels) ==> EmitFrom(items, 0, labels).None?
  {
    if AllFit(items, 0, labels) {
      EmitFromLength(items, 0, labels);
    }
    if SomeItemFails(items, labels) {
      var j :| 0 <= j < |items| && Code(items[j], Offset(items, j), labels).None?;
      FailingItemFails(items, 0, labels, j);
    }
  }

  /** Whether item `j` defines label `name`. */
  predicate Defines(items: seq<Item>, j: nat, name: string)
    requires j < |items|
  {
    items[j].Text? && IsLabel(items[j].s) && LabelName(items[j].s) == name
  }

  /** The first pass keeps the labels it started with unless a later item
      redefines them, and maps a label to the pc of its last definition. */
  lemma {:induction false} CollectLabelsSpec(items: seq<Item>, i: nat, labels: map<string, nat>, name: string)
    requires i <= |items|
    ensures name in CollectLabels(items, i, labels) <==>
              name in labels || exists j :: i <= j < |items| && Defines(items, j, name)
    ensures forall j :: i <= j < |items| && Defines(items, j, name) &&
                        (forall k :: j < k < |items| ==> !Defines(items, k, name)) ==>
              CollectLabels(items, i, labels)[name] == Offset(items, j)
    ensures (name in labels && forall k :: i <= k < |items| ==> !Defines(items, k, name)) ==>
              CollectLabels(items, i, labels)[name] == labels[name]
    decreases |items| - i
  {
    if i < |items| {
      var labels' := match items[i]
        case Text(s) => if IsLabel(s) then labels[LabelName(s) := Offset(items, i)] else labels
        case _ => labels;
      CollectLabelsSpec(items, i + 1, labels', name);
      if Defines(items, i, name) {
        assert name in labels' && labels'[name] == Offset(items, i);
      } else {
        assert (name in labels' <==> name in labels);
        assert name in labels ==> labels'[name] == labels[name];
      }
    }
  }

  /** The label table: exactly the defined labels, each at the sum of the
      sizes of the items before its last definition. */
  lemma LabelsAreOffsets(items: seq<Item>, name: string, j: nat)
    requires j < |items| && Defines(items, j, name)
    requires forall k :: j < k < |items| ==> !Defines(items, k, name)
    ensures name in Labels(items) && Labels(items)[name] == Offset(items, j)
  {
    CollectLabelsSpec(items, 0, map[], name);
  }

  lemma UndefinedLabel(items: seq<Item>, name: string)
    requires forall k :: 0 <= k < |items| ==> !Defines(items, k, name)
    ensures name !in Labels(items)
  {
    CollectLabelsSpec(items, 0, map[], name);
  }

  /** Item `k` succeeds and contributes as many bytes as it declares. */
  predicate Fits(items: seq<Item>, k: nat, labels: map<string, nat>)
    requires k < |items|
  {
    var c := Code(items[k], Offset(items, k), labels);
    c.Some? && |c.value| == Size(items[k])
  }

  predicate AllFit(items: seq<Item>, i: nat, labels: map<string, nat>) {
    forall k :: i <= k < |items| ==> Fits(items, k, labels)
  }

  lemma {:induction false} OffsetMonotone(items: seq<Item>, i: nat, j: nat)
    requires i <= j <= |items|
    ensures Offset(items, i) <= Offset(items, j)
    decreases j - i
  {
    if i < j {
      OffsetMonotone(items, i, j - 1);
    }
  }

  /** When every item fits, the second pass succeeds with the total size. */
  lemma {:induction false} EmitFromLength(items: seq<Item>, i: nat, labels: map<string, nat>)
    requires i <= |items| && AllFit(items, i, labels)
    ensures EmitFrom(items, i, labels).Some?
    ensures Offset(items, i) + |EmitFrom(items, i, labels).value| == Offset(items, |items|)
    decreases |items| - i
  {
    if i < |items| {
      AllFitStep(items, i, labels);
      EmitFromLength(items, i + 1, labels);
    }
  }

  lemma EmitFromUnfold(items: seq<Item>, i: nat, labels: map<string, nat>)
    requires i < |items| && Fits(items, i, labels) && EmitFrom(items, i + 1, labels).Some?
    ensures EmitFrom(items, i, labels) ==
              Some(Code(items[i], Offset(items, i), labels).value + EmitFrom(items, i + 1, labels).value)
  {
  }

  /** ... and item `j`'s bytes sit at its offset. */
  lemma {:induction false} EmitFromAt(items: seq<Item>, i: nat, labels: map<string, nat>, j: nat)
    requires i <= j < |items| && AllFit(items, i, labels)
    ensures Offset(items, i) <= Offset(items, j) && Offset(items, j + 1) <= Offset(items, |items|)
    ensures EmitFrom(items, i, labels).Some?
    ensures Offset(items, |items|) - Offset(items, i) == |EmitFrom(items, i, labels).value|
    ensures Fits(items, j, labels)
    ensures EmitFrom(items, i, labels).value[Offset(items, j) - Offset(items, i)..Offset(items, j + 1) - Offset(items, i)]
            == Code(items[j], Offset(items, j), labels).value
    decreases |items| - i
  {
    OffsetMonotone(items, i, j);
    OffsetMonotone(items, j + 1, |items|);
    AllFitStep(items, i, labels);
    EmitFromLength(items, i + 1, labels);
    EmitFromUnfold(items, i, labels);
    var c := Code(items[i], Offset(items, i), labels).value;
    var rest := EmitFrom(items, i + 1, labels).value;
    assert Offset(items, i + 1) == Offset(items, i) + |c|;
    if j > i {
      EmitFromAt(items, i + 1, labels, j);
      SliceAfter(c, rest, Offset(items, j) - Offset(items, i + 1), Offset(items, j + 1) - Offset(items, i + 1));
    } else {
      assert (c + rest)[..|c|] == c;
    }
  }

  lemma AllFitStep(items: seq<Item>, i: nat, labels: map<string, nat>)
    requires i < |items| && AllFit(items, i, labels)
    ensures Fits(items, i, labels) && AllFit(items, i + 1, labels)
  {
  }

  lemma SliceAfter(c: seq<U8>, rest: seq<U8>, lo: nat, hi: nat)
    requires lo <= hi <= |rest|
    ensures (c + rest)[|c| + lo..|c| + hi] == rest[lo..hi]
  {
  }

  /** The assembler's output is the items' bytes in order: item `j`'s
      bytes sit at the sum of the sizes before it. */
  lemma AssembleLayout(items: seq<Item>, j: nat)
    requires j < |items| && AllFit(items, 0, Labels(items))
    ensures Offset(items, j + 1) <= Offset(items, |items|)
    ensures Assemble(items).Some? && |Assemble(items).value| == Offset(items, |items|)
    ensures Fits(items, j, Labels(items))
    ensures Assemble(items).value[Offset(items, j)..Offset(items, j + 1)] == Code(items[j], Offset(items, j), Labels(items)).value
  {
    var labels := Labels(items);
    EmitFromAt(items, 0, labels, j);
    var out := EmitFrom(items, 0, labels).value;
    assert Offset(items, 0) == 0;
    assert out[Offset(items, j)..Offset(items, j + 1)]
        == out[Offset(items, j) - Offset(items, 0)..Offset(items, j + 1) - Offset(items, 0)];
    assert Assemble(items) == EmitFrom(items, 0, labels);
  }

  /** A generator that fails makes the whole assembly fail. */
  lemma {:induction false} FailingItemFails(items: seq<Item>, i: nat, labels: map<string, nat>, j: nat)
    requires i <= j < |items| && Code(items[j], Offset(items, j), labels).None?
    ensures EmitFrom(items, i, labels).None?
    decreases |items| - i
  {
    if i < j {
      FailingItemFails(items, i + 1, labels, j);
    }
  }

  /** `branch_displacement`: the word from the byte after the opcode word
      to the target. A target that is not a label is the KeyError. */
  function BranchDisplacement(pc: nat, labels: map<string, nat>, target: string): (r: Option<seq<U8>>)
    ensures r.Some? <==> target in labels
    ensures r.Some? ==> |r.value| == 2 && BeWord(r.value) == (labels[target] - (pc + 2)) % 0x1_0000
  {
    if target in labels then
      Some(Word(labels[target] - (pc + 2)))
    else None
  }

  /** A displacement in the signed 16-bit range is read back exactly. */
  lemma BranchReachesTarget(pc: nat, labels: map<string, nat>, target: string)
    requires target in labels && -0x8000 <= labels[target] - (pc + 2) < 0x8000
    ensures Signed16(BeWord(BranchDisplacement(pc, labels, target).value)) + pc + 2 == labels[target]
  {
  }

  // ---------------------------------------------------------------------
  // The ROM image around a program
  // ---------------------------------------------------------------------

  const CodeStart := 0x200
  const InitialSsp := 0x00FF_FFFE
  const ChecksumOffset := 0x18E
  const RomEndOffset := 0x1A4
  const Block := 512

  function Zeros(n: nat): (r: seq<U8>)
    ensures |r| == n && forall i :: 0 <= i < n ==> r[i] == 0
  {
    seq(n, _ => 0)
  }

  /** `n` copies of `b` back to back. */
  function Repeat(b: seq<U8>, n: nat): (r: seq<U8>)
    ensures |r| == n * |b|
  {
    if n == 0 then [] else b + Repeat(b, n - 1)
  }

  lemma {:induction false} RepeatAt(b: seq<U8>, n: nat, k: nat)
    requires k < n
    ensures k * |b| + |b| <= n * |b|
    ensures Repeat(b, n)[k * |b|..k * |b| + |b|] == b
  {
    var r := Repeat(b, n);
    assert r == b + Repeat(b, n - 1);
    if k > 0 {
      RepeatAt(b, n - 1, k - 1);
      assert (k - 1) * |b| + |b| == k * |b|;
      assert r[k * |b|..k * |b| + |b|] == Repeat(b, n - 1)[(k - 1) * |b|..(k - 1) * |b| + |b|];
    }
  }

  /** `n` ASCII blanks. */
  function Blanks(n: nat): (r: seq<U8>)
    ensures |r| == n && forall i :: 0 <= i < n ==> r[i] == 0x20
  {
    seq(n, _ => 0x20)
  }

  /** Text as bytes (the header strings are ASCII). */
  function Ascii(s: string): (r: seq<U8>)
    requires forall i :: 0 <= i < |s| ==> s[i] as int < 0x80
    ensures |r| == |s| && forall i :: 0 <= i < |s| ==> r[i] == s[i] as int
  {
    seq(|s|, i requires 0 <= i < |s| => s[i] as int)
  }

  /** An image whose vector table reads back as the initial stack pointer,
      the code start as initial pc, and `hangAddress` in the other 62
      vectors. */
  predicate VectorTable(rom: seq<U8>, hangAddress: int)
    requires |rom| >= 0x100
  {
    && BeLong(rom[0..4]) == InitialSsp && BeLong(rom[4..8]) == CodeStart
    && forall v :: 2 <= v < 64 ==> BeLong(rom[4 * v..4 * v + 4]) == hangAddress % 0x1_0000_0000
  }

  /** The vector table: the initial stack pointer, the initial pc at the
      code start, and the hang loop for the remaining 62 vectors. */
  function Vectors(hangAddress: int): (r: seq<U8>)
    ensures |r| == 0x100 && VectorTable(r, hangAddress)
  {
    var r := Long(InitialSsp) + Long(CodeStart) + Repeat(Long(hangAddress), 62);
    VectorSlots(hangAddress, r);
    r
  }

  lemma VectorSlots(hangAddress: int, r: seq<U8>)
    requires r == Long(InitialSsp) + Long(CodeStart) + Repeat(Long(hangAddress), 62)
    ensures |r| == 0x100
    ensures r[0..4] == Long(InitialSsp) && r[4..8] == Long(CodeStart)
    ensures forall v :: 2 <= v < 64 ==> r[4 * v..4 * v + 4] == Long(hangAddress)
  {
    var rest := Repeat(Long(hangAddress), 62);
    forall v | 2 <= v < 64
      ensures r[4 * v..4 * v + 4] == Long(hangAddress)
    {
      RepeatAt(Long(hangAddress), 62, v - 2);
      assert r[4 * v..4 * v + 4] == rest[4 * (v - 2)..4 * (v - 2) + 4];
    }
  }

  /** The 48-byte name field: the name and blanks. */
  function GameName(): (r: seq<U8>)
    ensures |r| == 48
  {
    Ascii("PRIME SIEVE TEST ROM") + Blanks(28)
  }

  /** The 256-byte header at 0x100 for a program of `programLength` bytes.
      Fields it does not set stay zero. */
  function Header(programLength: nat): (r: seq<U8>)
    ensures |r| == 0x100
    ensures r[0x00..0x10] == Ascii("SEGA MEGA DRIVE ") && r[0x10..0x20] == Ascii("(C)GXTEST 2026  ")
    ensures r[0x20..0x50] == GameName() && r[0x50..0x80] == GameName()
    ensures r[0x80..0x8E] == Ascii("GM 00000000-00") && BeWord(r[0x8E..0x90]) == 0
    ensures r[0x90] == 'J' as int && forall i :: 0x91 <= i < 0xA0 ==> r[i] == 0x20
    ensures BeLong(r[0xA0..0xA4]) == 0 && BeLong(r[0xA4..0xA8]) == (CodeStart + programLength - 1) % 0x1_0000_0000
    ensures BeLong(r[0xA8..0xAC]) == 0x00FF_0000 && BeLong(r[0xAC..0xB0]) == 0x00FF_FFFF
    ensures forall i :: 0xB0 <= i < 0xC8 ==> r[i] == 0x20
    ensures r[0xF0..0xF3] == Ascii("JUE")
    ensures forall i :: 0xC8 <= i < 0xF0 || 0xF3 <= i < 0x100 ==> r[i] == 0
  {
    var names := HeaderNames();
    var serial := HeaderSerial();
    var ranges := HeaderRanges(programLength);
    var tail := HeaderTail();
    var r := names + serial + ranges + tail;
    HeaderParts(names, serial, ranges, tail, r);
    r
  }

  /** Console name, copyright and the two game names: header bytes 0x00..0x80. */
  function HeaderNames(): (r: seq<U8>)
    ensures |r| == 0x80
    ensures r[..0x10] == Ascii("SEGA MEGA DRIVE ") && r[0x10..0x20] == Ascii("(C)GXTEST 2026  ")
    ensures r[0x20..0x50] == GameName() && r[0x50..0x80] == GameName()
  {
    Ascii("SEGA MEGA DRIVE ") + Ascii("(C)GXTEST 2026  ") + GameName() + GameName()
  }

  /** Serial, the checksum placeholder and the I/O field: bytes 0x80..0xA0. */
  function HeaderSerial(): (r: seq<U8>)
    ensures |r| == 0x20
    ensures r[..0x0E] == Ascii("GM 00000000-00") && BeWord(r[0x0E..0x10]) == 0
    ensures r[0x10] == 'J' as int && forall i :: 0x11 <= i < 0x20 ==> r[i] == 0x20
  {
    var r := Ascii("GM 00000000-00") + Word(0) + Ascii("J") + Blanks(15);
    assert r[0x0E..0x10] == Word(0);
    r
  }

  /** ROM start and end, RAM start and end: bytes 0xA0..0xB0. */
  function HeaderRanges(programLength: nat): (r: seq<U8>)
    ensures |r| == 0x10
    ensures BeLong(r[0..4]) == 0 && BeLong(r[4..8]) == (CodeStart + programLength - 1) % 0x1_0000_0000
    ensures BeLong(r[8..12]) == 0x00FF_0000 && BeLong(r[12..16]) == 0x00FF_FFFF
  {
    var r := Long(0) + Long(CodeStart + programLength - 1) + Long(0x00FF_0000) + Long(0x00FF_FFFF);
    FourLongs(0, CodeStart + programLength - 1, 0x00FF_0000, 0x00FF_FFFF, r);
    r
  }

  lemma FourLongs(a: int, b: int, c: int, d: int, r: seq<U8>)
    requires r == Long(a) + Long(b) + Long(c) + Long(d)
    ensures |r| == 0x10
    ensures BeLong(r[0..4]) == a % 0x1_0000_0000 && BeLong(r[4..8]) == b % 0x1_0000_0000
    ensures BeLong(r[8..12]) == c % 0x1_0000_0000 && BeLong(r[12..16]) == d % 0x1_0000_0000
  {
    assert r[0..4] == Long(a) && r[4..8] == Long(b) && r[8..12] == Long(c) && r[12..16] == Long(d);
  }

  /** No SRAM, blank notes, the unset fields and the region: bytes 0xB0..0x100. */
  function HeaderTail(): (r: seq<U8>)
    ensures |r| == 0x50
    ensures forall i :: 0 <= i < 0x18 ==> r[i] == 0x20
    ensures r[0x40..0x43] == Ascii("JUE")
    ensures forall i :: 0x18 <= i < 0x40 || 0x43 <= i < 0x50 ==> r[i] == 0
  {
    var r := Blanks(12) + Blanks(12) + Zeros(0x28) + Ascii("JUE") + Zeros(13);
    assert r[0x40..0x43] == Ascii("JUE");
    r
  }

  /** Where the four parts of the header sit. */
  lemma HeaderParts(names: seq<U8>, serial: seq<U8>, ranges: seq<U8>, tail: seq<U8>, r: seq<U8>)
    requires |names| == 0x80 && |serial| == 0x20 && |ranges| == 0x10 && |tail| == 0x50
    requires r == names + serial + ranges + tail
    ensures |r| == 0x100
    ensures r[0x00..0x10] == names[..0x10] && r[0x10..0x20] == names[0x10..0x20]
    ensures r[0x20..0x50] == names[0x20..0x50] && r[0x50..0x80] == names[0x50..0x80]
    ensures r[0x80..0x8E] == serial[..0x0E] && r[0x8E..0x90] == serial[0x0E..0x10]
    ensures forall i :: 0x80 <= i < 0xA0 ==> r[i] == serial[i - 0x80]
    ensures r[0xA0..0xA4] == ranges[0..4] && r[0xA4..0xA8] == ranges[4..8]
    ensures r[0xA8..0xAC] == ranges[8..12] && r[0xAC..0xB0] == ranges[12..16]
    ensures r[0xF0..0xF3] == tail[0x40..0x43]
    ensures forall i :: 0xB0 <= i < 0x100 ==> r[i] == tail[i - 0xB0]
  {
  }

  /** The length the padding loop stops at: the first multiple of 512 that
      is at least 512 and not below `n`. */
  function PaddedLength(n: nat): (m: nat)
  {
    if n <= Block then Block else (n + Block - 1) / Block * Block
  }

  /** The padding loop: append zeros while the image is shorter than 512
      bytes or not a multiple of 512. */
  method Pad(rom: seq<U8>) returns (r: seq<U8>)
    ensures |r| == PaddedLength(|rom|)
    ensures |r| >= Block && |r| % Block == 0 && |r| % 2 == 0 && |r| < |rom| + Block + Block
    ensures r[..|rom|] == rom && forall i :: |rom| <= i < |r| ==> r[i] == 0
  {
    r := rom;
    while |r| < Block || |r| % Block != 0
      invariant |rom| <= |r| <= PaddedLength(|rom|)
      invariant r[..|rom|] == rom && forall i :: |rom| <= i < |r| ==> r[i] == 0
      decreases PaddedLength(|rom|) - |r|
    {
      r := r + [0];
    }
    BlocksAreEven(|r|);
  }

  lemma BlocksAreEven(n: nat)
    requires n % Block == 0
    ensures n % 2 == 0
  {
    var q := n / Block;
    assert n == Block * q;
    var k := 256 * q;
    assert n == 2 * k;
  }

  /** Sum of the big-endian words from `i` to the end. */
  function WordsFrom(rom: seq<U8>, i: nat): nat
    requires |rom| % 2 == 0 && i % 2 == 0
    decreases |rom| - i
  {
    if i >= |rom| then 0 else (rom[i] as int) * 0x100 + rom[i + 1] as int + WordsFrom(rom, i + 2)
  }

  /** The checksum loop: the word sum from 0x200 to the end, masked to
      16 bits. */
  method Checksum(rom: seq<U8>) returns (sum: U16)
    requires |rom| % 2 == 0
    ensures sum == WordsFrom(rom, CodeStart) % 0x1_0000
  {
    var total := 0;
    var i := CodeStart;
    while i < |rom|
      invariant i % 2 == 0 && CodeStart <= i
      invariant i > |rom| ==> i == CodeStart
      invariant total + WordsFrom(rom, i) == WordsFrom(rom, CodeStart)
      decreases |rom| - i
    {
      total := total + (rom[i] as int) * 0x100 + rom[i + 1] as int;
      i := i + 2;
    }
    sum := total % 0x1_0000;
  }

  /** Bytes below `i` do not count towards the word sum from `i`. */
  lemma {:induction false} WordsFromSuffix(a: seq<U8>, b: seq<U8>, i: nat)
    requires |a| == |b| && |a| % 2 == 0 && i % 2 == 0
    requires forall k :: i <= k < |a| ==> a[k] == b[k]
    ensures WordsFrom(a, i) == WordsFrom(b, i)
    decreases |a| - i
  {
    if i < |a| {
      WordsFromSuffix(a, b, i + 2);
    }
  }

  /** Vectors, header and program, before padding. */
  function Image(program: seq<U8>, hang: nat): (r: seq<U8>)
    ensures |r| == CodeStart + |program|
    ensures r[..0x100] == Vectors(CodeStart + hang)
    ensures r[0x100..CodeStart] == Header(|program|)
    ensures r[CodeStart..] == program
  {
    var vectors := Vectors(CodeStart + hang);
    var header := Header(|program|);
    assert (vectors + header + program)[..0x100] == vectors;
    assert (vectors + header + program)[0x100..CodeStart] == header;
    vectors + header + program
  }

  /** Writing the checksum word at 0x18E changes only those two bytes. */
  function PutChecksum(rom: seq<U8>, sum: U16): (r: seq<U8>)
    requires |rom| >= CodeStart
    ensures |r| == |rom| && r[..ChecksumOffset] == rom[..ChecksumOffset] && r[ChecksumOffset + 2..] == rom[ChecksumOffset + 2..]
    ensures BeWord(r[ChecksumOffset..ChecksumOffset + 2]) == sum
  {
    var r := rom[..ChecksumOffset] + Word(sum) + rom[ChecksumOffset + 2..];
    assert r[ChecksumOffset..ChecksumOffset + 2] == Word(sum);
    assert r[ChecksumOffset + 2..] == rom[ChecksumOffset + 2..];
    r
  }

  /** `generate_rom` around a finished program: `hang` is the offset of
      the hang loop inside it. */
  method GenerateRom(program: seq<U8>, hang: nat) returns (rom: seq<U8>)
    ensures |rom| >= Block && |rom| % Block == 0 && |rom| % 2 == 0 && |rom| >= CodeStart + |program|
    ensures rom[CodeStart..CodeStart + |program|] == program
    ensures forall i :: CodeStart + |program| <= i < |rom| ==> rom[i] == 0
    ensures VectorTable(rom, CodeStart + hang)
    ensures BeLong(rom[RomEndOffset..RomEndOffset + 4]) == (CodeStart + |program| - 1) % 0x1_0000_0000
    ensures BeWord(rom[ChecksumOffset..ChecksumOffset + 2]) == WordsFrom(rom, CodeStart) % 0x1_0000
    ensures HeaderAround(rom, |program|)
  {
    var image := Image(program, hang);
    var padded := Pad(image);
    var sum := Checksum(padded);
    rom := PutChecksum(padded, sum);
    RomContents(program, hang, padded, sum);
    RomVectors(program, hang, padded, sum);
    RomEndField(program, hang, padded, sum);
    RomChecksum(program, hang, padded, sum);
    RomHeader(program, hang, padded, sum);
  }

  /** The ROM's header bytes at 0x100 are `Header`'s, except for the
      checksum word at 0x18E. */
  predicate HeaderAround(rom: seq<U8>, programLength: nat) {
    var h := Header(programLength);
    && |rom| >= CodeStart
    && rom[0x100..ChecksumOffset] == h[..0x8E] && rom[ChecksumOffset + 2..CodeStart] == h[0x90..]
  }

  /** `padded` is `image` followed by zeros up to a multiple of 512. */
  predicate PadsImage(image: seq<U8>, padded: seq<U8>) {
    && |padded| >= Block && |padded| % Block == 0 && |padded| % 2 == 0 && |padded| >= |image|
    && padded[..|image|] == image
    && forall i :: |image| <= i < |padded| ==> padded[i] == 0
  }

  lemma RomContents(program: seq<U8>, hang: nat, padded: seq<U8>, sum: U16)
    requires PadsImage(Image(program, hang), padded)
    ensures var rom := PutChecksum(padded, sum);
            && |rom| >= Block && |rom| % Block == 0 && |rom| % 2 == 0 && |rom| >= CodeStart + |program|
            && rom[CodeStart..CodeStart + |program|] == program
            && forall i :: CodeStart + |program| <= i < |rom| ==> rom[i] == 0
  {
    var image := Image(program, hang);
    var rom := PutChecksum(padded, sum);
    PatchedImage(image, padded, rom);
    assert rom[CodeStart..CodeStart + |program|] == rom[CodeStart..|image|] == image[CodeStart..];
  }

  lemma RomVectors(program: seq<U8>, hang: nat, padded: seq<U8>, sum: U16)
    requires PadsImage(Image(program, hang), padded)
    ensures var rom := PutChecksum(padded, sum);
            |rom| >= 0x100 && VectorTable(rom, CodeStart + hang)
  {
    var image := Image(program, hang);
    var rom := PutChecksum(padded, sum);
    PatchedImage(image, padded, rom);
    assert rom[..0x100] == Vectors(CodeStart + hang);
    VectorsAt(CodeStart + hang, rom);
  }

  lemma RomEndField(program: seq<U8>, hang: nat, padded: seq<U8>, sum: U16)
    requires PadsImage(Image(program, hang), padded)
    ensures var rom := PutChecksum(padded, sum);
            BeLong(rom[RomEndOffset..RomEndOffset + 4]) == (CodeStart + |program| - 1) % 0x1_0000_0000
  {
    var image := Image(program, hang);
    var rom := PutChecksum(padded, sum);
    PatchedImage(image, padded, rom);
    ImageRomEnd(program, hang);
  }

  lemma RomHeader(program: seq<U8>, hang: nat, padded: seq<U8>, sum: U16)
    requires PadsImage(Image(program, hang), padded)
    ensures var rom := PutChecksum(padded, sum);
            HeaderAround(rom, |program|)
  {
    var image := Image(program, hang);
    var rom := PutChecksum(padded, sum);
    PatchedHeader(image, padded, rom);
    HeaderSlices(rom, image, Header(|program|));
  }

  /** The checksum write leaves the header bytes around the checksum word. */
  lemma PatchedHeader(image: seq<U8>, padded: seq<U8>, rom: seq<U8>)
    requires |image| >= CodeStart && |padded| >= |image| && padded[..|image|] == image
    requires |rom| == |padded| && rom[..ChecksumOffset] == padded[..ChecksumOffset] && rom[ChecksumOffset + 2..] == padded[ChecksumOffset + 2..]
    ensures rom[0x100..ChecksumOffset] == image[0x100..ChecksumOffset]
    ensures rom[ChecksumOffset + 2..CodeStart] == image[ChecksumOffset + 2..CodeStart]
  {
    forall i | 0x100 <= i < CodeStart && i != ChecksumOffset && i != ChecksumOffset + 1
      ensures rom[i] == image[i]
    {
      assert image[i] == padded[..|image|][i] == padded[i];
      if i < ChecksumOffset {
        assert rom[i] == rom[..ChecksumOffset][i];
      } else {
        assert rom[i] == rom[ChecksumOffset + 2..][i - ChecksumOffset - 2];
      }
    }
  }

  /** Slices of a header placed at 0x100. */
  lemma HeaderSlices(rom: seq<U8>, image: seq<U8>, h: seq<U8>)
    requires |rom| >= CodeStart && |image| >= CodeStart && image[0x100..CodeStart] == h
    requires rom[0x100..ChecksumOffset] == image[0x100..ChecksumOffset]
    requires rom[ChecksumOffset + 2..CodeStart] == image[ChecksumOffset + 2..CodeStart]
    ensures rom[0x100..ChecksumOffset] == h[..0x8E] && rom[ChecksumOffset + 2..CodeStart] == h[0x90..]
  {
    assert image[0x100..ChecksumOffset] == image[0x100..CodeStart][..0x8E];
    assert image[ChecksumOffset + 2..CodeStart] == image[0x100..CodeStart][0x90..];
  }

  lemma RomChecksum(program: seq<U8>, hang: nat, padded: seq<U8>, sum: U16)
    requires PadsImage(Image(program, hang), padded) && sum == WordsFrom(padded, CodeStart) % 0x1_0000
    ensures var rom := PutChecksum(padded, sum);
            BeWord(rom[ChecksumOffset..ChecksumOffset + 2]) == WordsFrom(rom, CodeStart) % 0x1_0000
  {
    var image := Image(program, hang);
    var rom := PutChecksum(padded, sum);
    PatchedImage(image, padded, rom);
    WordsFromSuffix(rom, padded, CodeStart);
  }

  /** The checksum write leaves the vectors, the header fields other than
      the checksum, and everything from the code start on as padded. */
  lemma PatchedImage(image: seq<U8>, padded: seq<U8>, rom: seq<U8>)
    requires |image| >= CodeStart && |padded| >= |image| && padded[..|image|] == image
    requires |rom| == |padded| && rom[..ChecksumOffset] == padded[..ChecksumOffset] && rom[ChecksumOffset + 2..] == padded[ChecksumOffset + 2..]
    ensures rom[..0x100] == image[..0x100]
    ensures rom[RomEndOffset..RomEndOffset + 4] == image[RomEndOffset..RomEndOffset + 4]
    ensures rom[CodeStart..|image|] == image[CodeStart..]
    ensures forall i :: CodeStart <= i < |rom| ==> rom[i] == padded[i]
  {
    forall i | 0 <= i < |rom| && i != ChecksumOffset && i != ChecksumOffset + 1
      ensures rom[i] == padded[i]
    {
      if i < ChecksumOffset {
        assert rom[i] == rom[..ChecksumOffset][i];
      } else {
        assert rom[i] == rom[ChecksumOffset + 2..][i - ChecksumOffset - 2];
      }
    }
    forall i | 0 <= i < |image|
      ensures padded[i] == image[i]
    {
      assert padded[i] == padded[..|image|][i];
    }
  }

  /** The vector table read back from an image starting with it. */
  lemma VectorsAt(hangAddress: int, rom: seq<U8>)
    requires |rom| >= 0x100 && rom[..0x100] == Vectors(hangAddress)
    ensures VectorTable(rom, hangAddress)
  {
    var vs := Vectors(hangAddress);
    assert rom[0..4] == vs[0..4] && rom[4..8] == vs[4..8];
    forall v | 2 <= v < 64
      ensures BeLong(rom[4 * v..4 * v + 4]) == hangAddress % 0x1_0000_0000
    {
      assert rom[4 * v..4 * v + 4] == vs[4 * v..4 * v + 4];
    }
  }

  /** The ROM-end field of the header is the last byte of the program. */
  lemma ImageRomEnd(program: seq<U8>, hang: nat)
    ensures BeLong(Image(program, hang)[RomEndOffset..RomEndOffset + 4]) == (CodeStart + |program| - 1) % 0x1_0000_0000
  {
    var image := Image(program, hang);
    var h := Header(|program|);
    assert h[0xA4..0xA8] == Long(CodeStart + |program| - 1);
    assert image[0x100..0x200][0xA4..0xA8] == image[RomEndOffset..RomEndOffset + 4];
  }
}
