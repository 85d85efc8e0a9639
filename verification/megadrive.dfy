/** The test harness's view of the 68k address space and controller input
    (src/gxtest.cpp, include/gxtest.h). The little-endian build is
    modelled: the cartridge image and work RAM are stored with every 16-bit
    pair swapped, and byte accesses reach them through Flip (`^ 1`). */
module MegaDrive {
  import opened Machine
  import opened Wrappers

  const WorkRamSize := 0x1_0000
  const ZramSize := 0x2000
  /** Capacity of the cartridge buffer: MAXROMSIZE of the emulator core,
      10 MiB in Genesis Plus GX. */
  const MaxRomSize := 0xA0_0000
  /** Cartridge ROM occupies 0x000000-0x3FFFFF of the bus. */
  const RomWindow := 0x40_0000
  /** Open-bus value for unmapped reads. */
  const OpenBus: U8 := 0xFF

  /** The loaded cartridge: the (byte-swapped) buffer and the image size. */
  datatype Cart = Cart(rom: seq<U8>, romSize: nat)

  predicate CartValid(c: Cart) {
    |c.rom| == MaxRomSize && c.romSize <= MaxRomSize
  }

  /** The three memories the harness reaches directly. */
  datatype Bus = Bus(workRam: seq<U8>, zram: seq<U8>, cart: Cart)

  predicate BusValid(b: Bus) {
    |b.workRam| == WorkRamSize && |b.zram| == ZramSize && CartValid(b.cart)
  }

  /** Which memory a 24-bit address selects, in the order the source tests. */
  datatype Region = WorkRam | Z80Ram | Rom | Unmapped

  function RegionOf(a: nat): Region {
    if a >= 0xFF_0000 then WorkRam
    else if 0xA0_0000 <= a < 0xA0_2000 then Z80Ram
    else if a < RomWindow then Rom
    else Unmapped
  }

  /** `address & 0xFFFFFF`: only 24 address lines are decoded. */
  function Mask24(address: U32): (a: nat)
    ensures a < 0x100_0000
  {
    address % 0x100_0000
  }

  function ReadByte(b: Bus, address: U32): (r: U8)
    requires BusValid(b)
    ensures RegionOf(Mask24(address)) == Unmapped ==> r == OpenBus
  {
    var a := Mask24(address);
    match RegionOf(a)
    case WorkRam => b.workRam[Flip(a % 0x1_0000)]
    case Z80Ram => b.zram[a % 0x2000]
    case Rom => b.cart.rom[Flip(a)]
    case Unmapped => OpenBus
  }

  function WriteByte(b: Bus, address: U32, value: U8): (r: Bus)
    requires BusValid(b)
    ensures BusValid(r) && r.cart == b.cart
    ensures RegionOf(Mask24(address)) in {Rom, Unmapped} ==> r == b
  {
    var a := Mask24(address);
    match RegionOf(a)
    case WorkRam => b.(workRam := b.workRam[Flip(a % 0x1_0000) := value])
    case Z80Ram => b.(zram := b.zram[a % 0x2000 := value])
    case _ => b
  }

  /** Only the low 24 bits of an address matter, for reads and for writes. */
  lemma AddressesAlias24(b: Bus, address: U32, value: U8)
    requires BusValid(b)
    ensures ReadByte(b, address) == ReadByte(b, Mask24(address))
    ensures WriteByte(b, address, value) == WriteByte(b, Mask24(address), value)
  {
  }

  /** A byte written to work RAM or Z80 RAM reads back, and no other
      24-bit address changes. */
  lemma WriteThenReadByte(b: Bus, address: U32, value: U8, other: U32)
    requires BusValid(b)
    ensures RegionOf(Mask24(address)) in {WorkRam, Z80Ram} ==> ReadByte(WriteByte(b, address, value), address) == value
    ensures Mask24(other) != Mask24(address) ==> ReadByte(WriteByte(b, address, value), other) == ReadByte(b, other)
  {
    if RegionOf(Mask24(address)) in {WorkRam, Z80Ram} {
      WriteThenReadSame(b, address, value);
    }
    if Mask24(other) != Mask24(address) {
      WriteKeepsOther(b, address, value, other);
    }
  }

  lemma WriteThenReadSame(b: Bus, address: U32, value: U8)
    requires BusValid(b) && RegionOf(Mask24(address)) in {WorkRam, Z80Ram}
    ensures ReadByte(WriteByte(b, address, value), address) == value
  {
  }

  lemma WriteKeepsOther(b: Bus, address: U32, value: U8, other: U32)
    requires BusValid(b) && Mask24(other) != Mask24(address)
    ensures ReadByte(WriteByte(b, address, value), other) == ReadByte(b, other)
  {
    var a, o := Mask24(address), Mask24(other);
    var r := WriteByte(b, address, value);
    match RegionOf(a)
    case WorkRam =>
      FlipInjective(a % 0x1_0000, o % 0x1_0000);
      assert r.zram == b.zram && r.cart == b.cart;
    case Z80Ram =>
      assert r.workRam == b.workRam && r.cart == b.cart;
    case Rom =>
    case Unmapped =>
  }

  /** Big-endian 16-bit read: `ReadByte(a) << 8 | ReadByte(a + 1)`. */
  function ReadWord(b: Bus, address: U32): (r: U16)
    requires BusValid(b)
    ensures r / 0x100 == ReadByte(b, address) && r % 0x100 == ReadByte(b, Add32(address, 1))
  {
    ReadByte(b, address) * 0x100 + ReadByte(b, Add32(address, 1))
  }

  /** Big-endian 32-bit read composed of two word reads. */
  function ReadLong(b: Bus, address: U32): (r: U32)
    requires BusValid(b)
    ensures r / 0x1_0000 == ReadWord(b, address) && r % 0x1_0000 == ReadWord(b, Add32(address, 2))
  {
    ReadWord(b, address) * 0x1_0000 + ReadWord(b, Add32(address, 2))
  }

  function WriteWord(b: Bus, address: U32, value: U16): (r: Bus)
    requires BusValid(b)
    ensures BusValid(r) && r.cart == b.cart
  {
    WriteByte(WriteByte(b, address, value / 0x100), Add32(address, 1), value % 0x100)
  }

  function WriteLong(b: Bus, address: U32, value: U32): (r: Bus)
    requires BusValid(b)
    ensures BusValid(r) && r.cart == b.cart
  {
    WriteWord(WriteWord(b, address, value / 0x1_0000), Add32(address, 2), value % 0x1_0000)
  }

  /** Addresses whose byte and following byte are both writable RAM: work
      RAM except its last byte (0xFFFFFF + 1 wraps to ROM) and Z80 RAM
      except its last byte. */
  predicate WordWritable(address: U32) {
    var a := Mask24(address);
    0xFF_0000 <= a <= 0xFF_FFFE || 0xA0_0000 <= a <= 0xA0_1FFE
  }

  lemma WriteWordThenReadWord(b: Bus, address: U32, value: U16)
    requires BusValid(b) && WordWritable(address)
    ensures ReadWord(WriteWord(b, address, value), address) == value
  {
    var hi, lo := value / 0x100, value % 0x100;
    var a1 := Add32(address, 1);
    Mask24Plus(address, 1);
    var b1 := WriteByte(b, address, hi);
    var b2 := WriteByte(b1, a1, lo);
    WriteThenReadSame(b, address, hi);
    WriteKeepsOther(b1, a1, lo, address);
    WriteThenReadSame(b1, a1, lo);
    assert WriteWord(b, address, value) == b2;
    assert ReadByte(b2, address) == hi && ReadByte(b2, a1) == lo;
  }

  /** Adding a small offset to an address that stays below the top of the
      24-bit space moves the 24-bit address by the same amount. */
  lemma Mask24Plus(address: U32, k: nat)
    requires Mask24(address) + k <= 0xFF_FFFF
    ensures Mask24(Add32(address, k)) == Mask24(address) + k
  {
  }

  /** At the last work-RAM byte the second half of a word write lands on
      ROM and is dropped, so the word does not read back. */
  lemma WordWriteAtTopOfWorkRam(b: Bus)
    requires BusValid(b)
    ensures ReadByte(WriteWord(b, 0xFF_FFFF, 0xABCD), 0) == ReadByte(b, 0)
    ensures ReadByte(WriteWord(b, 0xFF_FFFF, 0xABCD), 0xFF_FFFF) == 0xAB
  {
    WriteThenReadByte(b, 0xFF_FFFF, 0xAB, 0xFF_FFFF);
    WriteThenReadByte(b, 0xFF_FFFF, 0xAB, 0);
  }

  /** A word write touches only its own two bytes. */
  lemma WriteWordKeepsOthers(b: Bus, address: U32, value: U16, other: U32)
    requires BusValid(b)
    requires Mask24(other) != Mask24(address) && Mask24(other) != Mask24(Add32(address, 1))
    ensures ReadByte(WriteWord(b, address, value), other) == ReadByte(b, other)
  {
    var b1 := WriteByte(b, address, value / 0x100);
    WriteThenReadByte(b, address, value / 0x100, other);
    WriteThenReadByte(b1, Add32(address, 1), value % 0x100, other);
  }

  lemma WriteLongThenReadLong(b: Bus, address: U32, value: U32)
    requires BusValid(b)
    requires 0xFF_0000 <= Mask24(address) <= 0xFF_FFFC
    ensures ReadLong(WriteLong(b, address, value), address) == value
  {
    var hi, lo := value / 0x1_0000, value % 0x1_0000;
    var a1, a2 := Add32(address, 1), Add32(address, 2);
    Mask24Plus(address, 1);
    Mask24Plus(address, 2);
    Mask24Plus(a2, 1);
    var b1 := WriteWord(b, address, hi);
    var b2 := WriteWord(b1, a2, lo);
    assert WriteLong(b, address, value) == b2;
    WriteWordThenReadWord(b, address, hi);
    WriteWordThenReadWord(b1, a2, lo);
    WriteWordKeepsOthers(b1, a2, lo, address);
    WriteWordKeepsOthers(b1, a2, lo, a1);
    assert ReadWord(b2, address) == ReadWord(b1, address) == hi;
    assert ReadWord(b2, a2) == lo;
  }

  // ---------------------------------------------------------------------
  // Loading a ROM image
  // ---------------------------------------------------------------------

  /** Byte `i` of the cartridge buffer after memset(0) and memcpy(data). */
  function Padded(data: seq<U8>, i: nat): U8 {
    if i < |data| then data[i] else 0
  }

  /** The buffer after the pairwise byteswap of the little-endian build. */
  function SwappedImage(data: seq<U8>): (rom: seq<U8>)
    requires |data| <= MaxRomSize
    ensures |rom| == MaxRomSize
  {
    seq(MaxRomSize, j requires 0 <= j < MaxRomSize => Padded(data, Flip(j)))
  }

  /** Impl::LoadRomData: the size check, the copy into the zero-filled
      cartridge buffer and the in-place byteswap loop. `audioOk` is the
      outcome of the core's audio_init. */
  method LoadRomData(data: seq<U8>, audioOk: bool) returns (r: Option<Cart>)
    ensures r.Some? <==> 0 < |data| <= MaxRomSize && audioOk
    ensures r.Some? ==> CartValid(r.value) && r.value.romSize == |data| && r.value.rom == SwappedImage(data)
  {
    if |data| == 0 || |data| > MaxRomSize {
      return None;
    }
    if !audioOk {
      return None;
    }
    var rom := data + seq(MaxRomSize - |data|, _ => 0);
    var i := 0;
    while i < |data|
      invariant i % 2 == 0 && i <= |data| + 1
      invariant |rom| == MaxRomSize
      invariant forall j :: 0 <= j < i ==> rom[j] == Padded(data, Flip(j))
      invariant forall j :: i <= j < MaxRomSize ==> rom[j] == Padded(data, j)
    {
      var temp := rom[i];
      rom := rom[i := rom[i + 1]];
      rom := rom[i + 1 := temp];
      i := i + 2;
    }
    // past the last copied pair the buffer is zero on both sides of the swap
    assert forall j :: i <= j < MaxRomSize ==> Padded(data, j) == 0 == Padded(data, Flip(j));
    r := Some(Cart(rom, |data|));
  }

  /** After loading, a byte read anywhere in the ROM window below the image
      size returns the file's own byte: the swap and the `^ 1` of the bus
      cancel out. */
  lemma LoadedRomReadsBack(b: Bus, data: seq<U8>, a: U32)
    requires BusValid(b) && |data| <= MaxRomSize
    requires b.cart.rom == SwappedImage(data)
    requires a < |data| && a < RomWindow
    ensures ReadByte(b, a) == data[a]
  {
    assert Mask24(a) == a && RegionOf(a) == Rom;
    SwappedImageAt(data, Flip(a));
    FlipInvolutive(a);
  }

  // ---------------------------------------------------------------------
  // Controller input
  // ---------------------------------------------------------------------

  /** One controller's buttons (struct Input). */
  datatype Input = Input(up: bool, down: bool, left: bool, right: bool,
                         a: bool, b: bool, c: bool, start: bool,
                         x: bool, y: bool, z: bool, mode: bool)

  /** A default-constructed or cleared Input. */
  const Released := Input(false, false, false, false, false, false, false, false, false, false, false, false)

  const ButtonCount := 12

  /** The buttons in declaration order. */
  function Buttons(i: Input): (r: seq<bool>)
    ensures |r| == ButtonCount
  {
    [i.up, i.down, i.left, i.right, i.a, i.b, i.c, i.start, i.x, i.y, i.z, i.mode]
  }

  /** The core's INPUT_* masks, in the same order as Buttons (the values of
      Genesis Plus GX's input header). */
  const ButtonBits: seq<bv16> :=
    [0x0001, 0x0002, 0x0004, 0x0008, 0x0040, 0x0010, 0x0020, 0x0080, 0x0400, 0x0200, 0x0100, 0x0800]

  function BitIf(on: bool, mask: bv16): bv16 {
    if on then mask else 0
  }

  /** The pad word UpdateInputState builds for one controller. */
  function PadState(i: Input): (r: bv16)
    ensures r & 0xF000 == 0
  {
    BitIf(i.up, 0x0001) | BitIf(i.down, 0x0002) | BitIf(i.left, 0x0004) | BitIf(i.right, 0x0008)
    | BitIf(i.a, 0x0040) | BitIf(i.b, 0x0010) | BitIf(i.c, 0x0020) | BitIf(i.start, 0x0080)
    | BitIf(i.x, 0x0400) | BitIf(i.y, 0x0200) | BitIf(i.z, 0x0100) | BitIf(i.mode, 0x0800)
  }

  /** An Input from its buttons in declaration order. */
  function FromButtons(s: seq<bool>): (r: Input)
    requires |s| == ButtonCount
    ensures Buttons(r) == s
  {
    assert s == [s[0], s[1], s[2], s[3], s[4], s[5], s[6], s[7], s[8], s[9], s[10], s[11]];
    Input(s[0], s[1], s[2], s[3], s[4], s[5], s[6], s[7], s[8], s[9], s[10], s[11])
  }

  /** Reading the buttons back out of a pad word. */
  function DecodePad(w: bv16): (r: Input)
    ensures forall k :: 0 <= k < ButtonCount ==> (Buttons(r)[k] <==> w & ButtonBits[k] != 0)
  {
    FromButtons(seq(ButtonCount, k requires 0 <= k < ButtonCount => w & ButtonBits[k] != 0))
  }

  /** Each button sets exactly its own bit of the pad word. */
  lemma PadStateBits(i: Input)
    ensures PadState(i) & 0x0001 != 0 <==> i.up
    ensures PadState(i) & 0x0002 != 0 <==> i.down
    ensures PadState(i) & 0x0004 != 0 <==> i.left
    ensures PadState(i) & 0x0008 != 0 <==> i.right
    ensures PadState(i) & 0x0040 != 0 <==> i.a
    ensures PadState(i) & 0x0010 != 0 <==> i.b
    ensures PadState(i) & 0x0020 != 0 <==> i.c
    ensures PadState(i) & 0x0080 != 0 <==> i.start
    ensures PadState(i) & 0x0400 != 0 <==> i.x
    ensures PadState(i) & 0x0200 != 0 <==> i.y
    ensures PadState(i) & 0x0100 != 0 <==> i.z
    ensures PadState(i) & 0x0800 != 0 <==> i.mode
  {
  }

  /** No two buttons share a bit: the pad word determines the input. */
  lemma PadStateRoundTrip(i: Input)
    ensures DecodePad(PadState(i)) == i
  {
    PadStateBits(i);
    assert Buttons(DecodePad(PadState(i))) == Buttons(i);
  }

  /** UpdateInputState: both pads are rebuilt from the two inputs. */
  function UpdateInputState(inputs: seq<Input>): (pads: seq<bv16>)
    requires |inputs| == 2
    ensures |pads| == 2
    ensures forall p :: 0 <= p < 2 ==> DecodePad(pads[p]) == inputs[p]
  {
    PadStateRoundTrip(inputs[0]);
    PadStateRoundTrip(inputs[1]);
    [PadState(inputs[0]), PadState(inputs[1])]
  }

  // ---------------------------------------------------------------------
  // The emulator wrapper's state
  // ---------------------------------------------------------------------

  /** Emulator::Impl plus the memories: the core's pad words are kept as
      `pads`, everything else of the core is outside the model. */
  datatype Emulator = Emulator(romLoaded: bool, frameCount: nat, inputs: seq<Input>, pads: seq<bv16>, bus: Bus)

  predicate EmulatorValid(e: Emulator) {
    |e.inputs| == 2 && |e.pads| == 2 && BusValid(e.bus)
  }

  /** The emulator core's frame: memory after one frame, given the memory
      and pad words before it. */
  type Core = (Bus, seq<bv16>) -> Bus

  ghost predicate CoreKeepsShape(core: Core) {
    forall b, pads :: BusValid(b) ==> BusValid(core(b, pads))
  }

  /** Impl::RunFrame: nothing happens without a ROM; otherwise the pads are
      refreshed, the core runs one frame and the frame counter advances. */
  function RunFrame(e: Emulator, core: Core): (r: Emulator)
    requires EmulatorValid(e) && CoreKeepsShape(core)
    ensures EmulatorValid(r) && r.inputs == e.inputs && r.romLoaded == e.romLoaded
    ensures !e.romLoaded ==> r == e
    ensures e.romLoaded ==> r.frameCount == e.frameCount + 1 && r.pads == UpdateInputState(e.inputs)
  {
    if !e.romLoaded then e
    else
      var pads := UpdateInputState(e.inputs);
      e.(pads := pads, bus := core(e.bus, pads), frameCount := e.frameCount + 1)
  }

  /** The state after `n` frames. */
  function Frames(e: Emulator, core: Core, n: nat): (r: Emulator)
    requires EmulatorValid(e) && CoreKeepsShape(core)
    ensures EmulatorValid(r)
    decreases n
  {
    if n == 0 then e else RunFrame(Frames(e, core, n - 1), core)
  }

  /** Whether the byte at `address` holds `expected` after `j` frames. */
  predicate HitAt(e: Emulator, core: Core, address: U32, expected: U8, j: nat)
    requires EmulatorValid(e) && CoreKeepsShape(core)
  {
    ReadByte(Frames(e, core, j).bus, address) == expected
  }

  /** RunUntilMemoryEquals: the byte is checked before each frame; the
      result is the first frame index at which it matched, or -1. */
  method RunUntilMemoryEquals(e: Emulator, core: Core, address: U32, expected: U8, maxFrames: int)
    returns (r: int, e': Emulator)
    requires EmulatorValid(e) && CoreKeepsShape(core)
    ensures r == -1 || (0 <= r < maxFrames && HitAt(e, core, address, expected, r))
    ensures forall j: nat :: j < maxFrames && (r == -1 || j < r) ==> !HitAt(e, core, address, expected, j)
    ensures e' == Frames(e, core, if r >= 0 then r else if maxFrames > 0 then maxFrames else 0)
  {
    var cur := e;
    var i := 0;
    while i < maxFrames
      invariant 0 <= i <= (if maxFrames > 0 then maxFrames else 0)
      invariant cur == Frames(e, core, i)
      invariant forall j: nat :: j < i ==> !HitAt(e, core, address, expected, j)
    {
      if ReadByte(cur.bus, address) == expected {
        assert HitAt(e, core, address, expected, i);
        return i, cur;
      }
      assert !HitAt(e, core, address, expected, i);
      cur := RunFrame(cur, core);
      i := i + 1;
    }
    return -1, cur;
  }

  /** Which Input field a PressButton name selects (the position in
      Buttons); unknown names select nothing. */
  function ButtonIndex(button: string): (k: Option<nat>)
    ensures k.Some? ==> k.value < ButtonCount
  {
    if button == "up" then Some(0)
    else if button == "down" then Some(1)
    else if button == "left" then Some(2)
    else if button == "right" then Some(3)
    else if button == "a" || button == "A" then Some(4)
    else if button == "b" || button == "B" then Some(5)
    else if button == "c" || button == "C" then Some(6)
    else if button == "start" || button == "Start" then Some(7)
    else if button == "x" || button == "X" then Some(8)
    else if button == "y" || button == "Y" then Some(9)
    else if button == "z" || button == "Z" then Some(10)
    else if button == "mode" || button == "Mode" then Some(11)
    else None
  }

  /** Setting the named button of an input; other buttons keep their state. */
  function Press(i: Input, button: string): (r: Input)
    ensures ButtonIndex(button).None? ==> r == i
    ensures ButtonIndex(button).Some? ==> Buttons(r) == Buttons(i)[ButtonIndex(button).value := true]
  {
    match ButtonIndex(button)
    case None => i
    case Some(k) => FromButtons(Buttons(i)[k := true])
  }

  function SetInput(e: Emulator, player: int, inp: Input): (r: Emulator)
    requires EmulatorValid(e)
    ensures EmulatorValid(r)
    ensures 0 <= player < 2 ==> r == e.(inputs := e.inputs[player := inp])
    ensures !(0 <= player < 2) ==> r == e
  {
    if 0 <= player < 2 then e.(inputs := e.inputs[player := inp]) else e
  }

  /** GetInput answers a released input for players other than 0 and 1. */
  function GetInput(e: Emulator, player: int): (r: Input)
    requires EmulatorValid(e)
    ensures !(0 <= player < 2) ==> r == Released
  {
    if 0 <= player < 2 then e.inputs[player] else Released
  }

  lemma SetThenGetInput(e: Emulator, player: int, inp: Input, other: int)
    requires EmulatorValid(e)
    ensures 0 <= player < 2 ==> GetInput(SetInput(e, player, inp), player) == inp
    ensures other != player ==> GetInput(SetInput(e, player, inp), other) == GetInput(e, other)
  {
  }

  /** One frame with `pressed` as the player's input, after which the
      player's whole input is cleared. */
  function HoldFrame(e: Emulator, core: Core, player: nat, pressed: Input): (r: Emulator)
    requires EmulatorValid(e) && CoreKeepsShape(core) && player <= 1
    ensures EmulatorValid(r)
    ensures r.inputs == e.inputs[player := Released]
    ensures e.romLoaded ==> r.frameCount == e.frameCount + 1 && r.pads == UpdateInputState(e.inputs[player := pressed])
    ensures !e.romLoaded ==> r.frameCount == e.frameCount && r.pads == e.pads
  {
    var held := e.(inputs := e.inputs[player := pressed]);
    var ran := RunFrame(held, core);
    ran.(inputs := ran.inputs[player := Released])
  }

  /** PressButton: set the button, run one frame with it held, then clear
      the player's whole input. */
  function PressButton(e: Emulator, core: Core, player: int, button: string): (r: Emulator)
    requires EmulatorValid(e) && CoreKeepsShape(core)
    ensures EmulatorValid(r)
    ensures !(0 <= player <= 1) ==> r == e
    ensures 0 <= player <= 1 ==> r.inputs == e.inputs[player := Released]
    ensures 0 <= player <= 1 && e.romLoaded ==> r.frameCount == e.frameCount + 1
  {
    if player < 0 || player > 1 then e
    else HoldFrame(e, core, player, Press(e.inputs[player], button))
  }

  /** During the frame PressButton runs, the player's pad word carries
      the pressed button on top of the buttons already held. */
  lemma PressButtonPad(e: Emulator, core: Core, player: int, button: string)
    requires EmulatorValid(e) && CoreKeepsShape(core) && e.romLoaded && 0 <= player <= 1
    ensures DecodePad(PressButton(e, core, player, button).pads[player]) == Press(e.inputs[player], button)
  {
    var inputs := e.inputs[player := Press(e.inputs[player], button)];
    assert PressButton(e, core, player, button).pads == UpdateInputState(inputs);
    assert DecodePad(UpdateInputState(inputs)[player]) == inputs[player];
  }

  // ---------------------------------------------------------------------
  // ROM name
  // ---------------------------------------------------------------------

  /** Offset of the 48-byte domestic name in the cartridge header. */
  const NameOffset := 0x120
  const NameLength := 48

  function Chars(bytes: seq<U8>): (s: string)
    ensures |s| == |bytes| && forall i :: 0 <= i < |s| ==> s[i] as int == bytes[i]
  {
    if |bytes| == 0 then [] else [bytes[0] as char] + Chars(bytes[1..])
  }

  /** The trailing-space loop: drop spaces from the end. */
  function TrimTrailingSpaces(s: string): (r: string)
    ensures |r| <= |s| && r == s[..|r|]
    ensures |r| == 0 || r[|r| - 1] != ' '
    ensures forall i :: |r| <= i < |s| ==> s[i] == ' '
  {
    if |s| == 0 || s[|s| - 1] != ' ' then s else TrimTrailingSpaces(s[..|s| - 1])
  }

  /** std::string(char*) stops at the first NUL. */
  function UpToNul(s: string): (r: string)
    ensures |r| <= |s| && r == s[..|r|]
    ensures '\0' !in r
    ensures |r| < |s| ==> s[|r|] == '\0'
  {
    if |s| == 0 || s[0] == '\0' then [] else [s[0]] + UpToNul(s[1..])
  }

  /** The name built from 48 header bytes. */
  function NameFromBytes(bytes: seq<U8>): string
    requires |bytes| == NameLength
  {
    UpToNul(TrimTrailingSpaces(Chars(bytes)))
  }

  /** Emulator::GetRomName as written: the 48 bytes are copied straight out
      of the cartridge buffer, which the little-endian build keeps
      byte-swapped. */
  function GetRomName(e: Emulator): (r: string)
    requires EmulatorValid(e)
    ensures !e.romLoaded ==> r == ""
    ensures e.romLoaded ==> |r| <= NameLength && '\0' !in r
  {
    if !e.romLoaded then ""
    else NameFromBytes(e.bus.cart.rom[NameOffset..NameOffset + NameLength])
  }

  /** The header name bytes as the 68k sees them: read through the bus, so
      the swap is undone. */
  function HeaderNameBytes(b: Bus): (r: seq<U8>)
    requires BusValid(b)
    ensures |r| == NameLength
  {
    seq<U8>(NameLength, i requires 0 <= i < NameLength => ReadByte(b, NameOffset + i))
  }

  /** GetRomName with the header read in 68k byte order. */
  function GetRomNameCorrected(e: Emulator): (r: string)
    requires EmulatorValid(e)
    ensures !e.romLoaded ==> r == ""
  {
    if !e.romLoaded then "" else NameFromBytes(HeaderNameBytes(e.bus))
  }

  /** Read through the bus, the name field of a loaded image is the
      file's own bytes. */
  lemma HeaderOfLoadedImage(b: Bus, data: seq<U8>)
    requires BusValid(b)
    requires NameOffset + NameLength <= |data| <= MaxRomSize
    requires b.cart.rom == SwappedImage(data)
    ensures HeaderNameBytes(b) == data[NameOffset..NameOffset + NameLength]
  {
    forall i | 0 <= i < NameLength
      ensures HeaderNameBytes(b)[i] == data[NameOffset + i]
    {
      LoadedRomReadsBack(b, data, NameOffset + i);
    }
  }

  /** For a loaded image whose name field holds no NUL, the corrected name
      is that field with its trailing spaces removed. */
  lemma CorrectedNameIsHeaderName(e: Emulator, data: seq<U8>)
    requires EmulatorValid(e) && e.romLoaded
    requires NameOffset + NameLength <= |data| <= MaxRomSize
    requires e.bus.cart.rom == SwappedImage(data)
    requires forall i :: NameOffset <= i < NameOffset + NameLength ==> data[i] != 0
    ensures GetRomNameCorrected(e) == TrimTrailingSpaces(Chars(data[NameOffset..NameOffset + NameLength]))
  {
    var field := data[NameOffset..NameOffset + NameLength];
    HeaderOfLoadedImage(e.bus, data);
    var cs := Chars(field);
    var t := TrimTrailingSpaces(cs);
    assert forall k :: 0 <= k < |t| ==> t[k] == cs[k] && cs[k] as int == field[k] != 0;
    UpToNulIdentity(t);
  }

  lemma {:induction false} UpToNulIdentity(s: string)
    requires '\0' !in s
    ensures UpToNul(s) == s
  {
    if |s| > 0 {
      UpToNulIdentity(s[1..]);
    }
  }

  /** An image whose name field is "AB" followed by 46 spaces: the
      source's GetRomName answers "BA", the corrected one "AB". */
  lemma RomNameComesBackSwapped(e: Emulator, data: seq<U8>)
    requires EmulatorValid(e) && e.romLoaded
    requires NameOffset + NameLength <= |data| <= MaxRomSize
    requires e.bus.cart.rom == SwappedImage(data)
    requires data[NameOffset] == 'A' as int && data[NameOffset + 1] == 'B' as int
    requires forall i :: NameOffset + 2 <= i < NameOffset + NameLength ==> data[i] == ' ' as int
    ensures GetRomName(e) == "BA"
    ensures GetRomNameCorrected(e) == "AB"
  {
    var raw := e.bus.cart.rom[NameOffset..NameOffset + NameLength];
    forall k | 0 <= k < NameLength
      ensures raw[k] == Padded(data, Flip(NameOffset + k))
    {
      SwappedImageAt(data, NameOffset + k);
    }
    TrimmedName(raw, "BA");
    HeaderOfLoadedImage(e.bus, data);
    TrimmedName(data[NameOffset..NameOffset + NameLength], "AB");
  }

  lemma SwappedImageAt(data: seq<U8>, j: nat)
    requires |data| <= MaxRomSize && j < MaxRomSize
    ensures SwappedImage(data)[j] == Padded(data, Flip(j))
  {
  }

  /** Helper for the concrete name: 48 bytes that spell `name` then spaces. */
  lemma TrimmedName(raw: seq<U8>, name: string)
    requires |raw| == NameLength && 0 < |name| <= NameLength && name[|name| - 1] != ' ' && '\0' !in name
    requires forall i :: 0 <= i < |name| ==> raw[i] == name[i] as int
    requires forall i :: |name| <= i < NameLength ==> raw[i] == ' ' as int
    ensures NameFromBytes(raw) == name
  {
    var cs := Chars(raw);
    assert cs == name + seq(NameLength - |name|, _ => ' ');
    TrimSpacesOff(name, NameLength - |name|);
    UpToNulIdentity(name);
  }

  lemma {:induction false} TrimSpacesOff(name: string, n: nat)
    requires |name| > 0 && name[|name| - 1] != ' '
    ensures TrimTrailingSpaces(name + seq(n, _ => ' ')) == name
    decreases n
  {
    if n > 0 {
      assert (name + seq(n, _ => ' '))[..|name| + n - 1] == name + seq(n - 1, _ => ' ');
      TrimSpacesOff(name, n - 1);
    }
  }
}
