/** Hexadecimal rendering and reading, as used by the histogram export
    (`std::hex` with `setfill('0')`/`setw`) and by the symbol-header
    generator (Python's `{:06X}` and `int(s, 16)`). */
module Hex {
  predicate IsDigit(c: char) {
    '0' <= c <= '9'
  }

  predicate IsHexDigit(c: char) {
    IsDigit(c) || 'a' <= c <= 'f' || 'A' <= c <= 'F'
  }

  predicate AllHex(s: string) {
    forall i :: 0 <= i < |s| ==> IsHexDigit(s[i])
  }

  function DigitValue(c: char): (v: nat)
    requires IsHexDigit(c)
    ensures v < 16
  {
    if IsDigit(c) then c as int - '0' as int
    else if 'a' <= c <= 'f' then c as int - 'a' as int + 10
    else c as int - 'A' as int + 10
  }

  /** The digit for `d`, in upper or lower case. */
  function DigitChar(d: nat, upper: bool): (c: char)
    requires d < 16
    ensures IsHexDigit(c) && DigitValue(c) == d
    ensures upper ==> !('a' <= c <= 'f')
    ensures !upper ==> !('A' <= c <= 'F')
  {
    if d < 10 then ('0' as int + d) as char
    else if upper then ('A' as int + d - 10) as char
    else ('a' as int + d - 10) as char
  }

  /** The value of a string of hex digits, most significant first. */
  function Value(s: string): nat
    requires AllHex(s)
  {
    if |s| == 0 then 0 else Value(s[..|s| - 1]) * 16 + DigitValue(s[|s| - 1])
  }

  /** `n` in hex without leading zeros (a single "0" for zero). */
  function Digits(n: nat, upper: bool): (s: string)
    ensures 1 <= |s| && AllHex(s)
    ensures upper ==> forall i :: 0 <= i < |s| ==> !('a' <= s[i] <= 'f')
    ensures !upper ==> forall i :: 0 <= i < |s| ==> !('A' <= s[i] <= 'F')
    decreases n
  {
    if n < 16 then [DigitChar(n, upper)] else Digits(n / 16, upper) + [DigitChar(n % 16, upper)]
  }

  function Pow16(k: nat): (r: nat)
    ensures r >= 1
  {
    if k == 0 then 1 else 16 * Pow16(k - 1)
  }

  /** `n` in hex, zero-padded on the left to at least `width` digits. */
  function ToHex(n: nat, width: nat, upper: bool): (s: string)
    ensures AllHex(s) && |s| >= width
    ensures |s| == if |Digits(n, upper)| >= width then |Digits(n, upper)| else width
  {
    var d := Digits(n, upper);
    if |d| >= width then d else seq(width - |d|, _ => '0') + d
  }

  lemma {:induction false} DigitsValue(n: nat, upper: bool)
    ensures Value(Digits(n, upper)) == n
    decreases n
  {
    if n >= 16 {
      DigitsValue(n / 16, upper);
      var d := Digits(n, upper);
      assert d[..|d| - 1] == Digits(n / 16, upper);
    }
  }

  lemma {:induction false} DigitsLength(n: nat, upper: bool, w: nat)
    requires 1 <= w && n < Pow16(w)
    ensures |Digits(n, upper)| <= w
    decreases w
  {
    if n >= 16 {
      assert w >= 2;
      assert n / 16 < Pow16(w - 1);
      DigitsLength(n / 16, upper, w - 1);
    }
  }

  lemma {:induction false} ZerosValue(k: nat, s: string)
    requires AllHex(s)
    ensures AllHex(seq(k, _ => '0') + s) && Value(seq(k, _ => '0') + s) == Value(s)
    decreases |s|
  {
    var z := seq(k, _ => '0');
    if |s| == 0 {
      assert z + s == z;
      ZerosAreZero(k);
    } else {
      assert (z + s)[..|z + s| - 1] == z + s[..|s| - 1];
      ZerosValue(k, s[..|s| - 1]);
    }
  }

  lemma {:induction false} ZerosAreZero(k: nat)
    ensures Value(seq(k, _ => '0')) == 0
    decreases k
  {
    if k > 0 {
      assert seq(k, _ => '0')[..k - 1] == seq(k - 1, _ => '0');
      ZerosAreZero(k - 1);
    }
  }

  /** Reading back a rendered number gives the number. */
  lemma {:induction false} ToHexValue(n: nat, width: nat, upper: bool)
    ensures Value(ToHex(n, width, upper)) == n
  {
    DigitsValue(n, upper);
    var d := Digits(n, upper);
    if |d| < width {
      ZerosValue(width - |d|, d);
      assert ToHex(n, width, upper) == seq(width - |d|, _ => '0') + d;
    } else {
      assert ToHex(n, width, upper) == d;
    }
  }

  /** A number below 16^width renders in exactly `width` digits. */
  lemma ToHexWidth(n: nat, width: nat, upper: bool)
    requires 1 <= width && n < Pow16(width)
    ensures |ToHex(n, width, upper)| == width
  {
    DigitsLength(n, upper, width);
  }
}
