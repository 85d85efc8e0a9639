/** Fixed-width integer ranges of the C/C++ side (uint8_t, uint16_t,
    uint32_t) and the byte-pair swap used by the little-endian build. */
module Machine {

  type U8 = x: int | 0 <= x < 0x100
  type U16 = x: int | 0 <= x < 0x1_0000
  type U32 = x: int | 0 <= x < 0x1_0000_0000

  const MaxU32: U32 := 0xFFFF_FFFF

  /** `x ^ 1` on a non-negative index: the partner byte of a 16-bit pair. */
  function Flip(x: nat): (r: nat)
    ensures r / 2 == x / 2 && r % 2 != x % 2
  {
    if x % 2 == 0 then x + 1 else x - 1
  }

  lemma FlipInvolutive(x: nat)
    ensures Flip(Flip(x)) == x
  {
  }

  lemma FlipInjective(x: nat, y: nat)
    ensures x != y ==> Flip(x) != Flip(y)
  {
  }

  /** Unsigned 32-bit addition as the source computes it (wrap-around). */
  function Add32(a: U32, b: int): (r: U32)
    requires b >= 0
    ensures a + b < 0x1_0000_0000 ==> r == a + b
    ensures b < 0x1_0000_0000 && a + b >= 0x1_0000_0000 ==> r == a + b - 0x1_0000_0000
    ensures (r - (a + b)) % 0x1_0000_0000 == 0
  {
    (a + b) % 0x1_0000_0000
  }
}
