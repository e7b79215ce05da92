/** The texts of numbers, and reading them back (kernel/print_utils.c). */
module Numerals {
  import opened MachineTypes

  /** Decimal numeral, most significant digit first. */
  function Decimal(n: nat): (d: seq<byte>)
    ensures |d| >= 1 && forall i | 0 <= i < |d| :: ZERO <= d[i] <= ZERO + 9
  {
    if n < 10 then [ZERO + n] else Decimal(n / 10) + [ZERO + n % 10]
  }

  function ReadDecimal(d: seq<byte>): int {
    if d == [] then 0 else 10 * ReadDecimal(d[..|d| - 1]) + (d[|d| - 1] - ZERO)
  }

  /** Reading a numeral back gives the number, and only 0 has a leading zero. */
  lemma {:induction false} DecimalReadsBack(n: nat)
    ensures ReadDecimal(Decimal(n)) == n
    ensures Decimal(n)[0] == ZERO <==> n == 0
  {
    if n >= 10 {
      DecimalReadsBack(n / 10);
      assert Decimal(n)[..|Decimal(n)| - 1] == Decimal(n / 10);
    } else {
      assert ReadDecimal(Decimal(n)[..0]) == 0;
    }
  }

  function Pow(b: nat, e: nat): nat {
    if e == 0 then 1 else b * Pow(b, e - 1)
  }

  lemma {:induction false} DecimalLength(n: nat, e: nat)
    requires e >= 1 && n < Pow(10, e)
    ensures |Decimal(n)| <= e
  {
    if n >= 10 {
      DecimalLength(n / 10, e - 1);
    }
  }

  /** No number of the kernel's types has more than 20 decimal digits. */
  lemma DecimalLengthU64(n: u64)
    ensures |Decimal(n)| <= 20
  {
    assert Pow(10, 5) == 100000;
    assert Pow(10, 10) == 10000000000;
    assert Pow(10, 15) == 1000000000000000;
    assert Pow(10, 20) == 100000000000000000000;
    DecimalLength(n, 20);
  }

  /** The numeral of a number of the kernel's types. */
  function Numeral(n: u64): (d: seq<byte>)
    ensures d == Decimal(n) && 1 <= |d| <= 20
  {
    DecimalLengthU64(n);
    Decimal(n)
  }

  /** The digit of value v in a base up to 16, as the printers write it. */
  function DigitChar(v: nat): (c: byte)
    requires v < 16
  {
    if v <= 9 then ZERO + v else 97 + v - 10
  }

  function DigitValue(c: byte): int {
    if ZERO <= c <= ZERO + 9 then c - ZERO else c - 97 + 10
  }

  /** The last `width` base-`base` digits of n. */
  function Digits(n: nat, base: nat, width: nat): (d: seq<byte>)
    requires 2 <= base <= 16
    ensures |d| == width
    decreases width
  {
    if width == 0 then [] else Digits(n / base, base, width - 1) + [DigitChar(n % base)]
  }

  function ReadDigits(d: seq<byte>, base: nat): int {
    if d == [] then 0 else ReadDigits(d[..|d| - 1], base) * base + DigitValue(d[|d| - 1])
  }

  /** n with its last i base-`base` digits dropped: a right shift by that many nibbles or bits. */
  function Shifted(n: nat, base: nat, i: nat): nat
    requires base > 0
  {
    if i == 0 then n else Shifted(n, base, i - 1) / base
  }

  predicate IsDigit(c: byte, base: nat) {
    (ZERO <= c <= ZERO + 9 || 97 <= c <= 102) && 0 <= DigitValue(c) < base
  }

  lemma MulMonotone(b: nat, m: nat, q: nat)
    ensures m <= q ==> b * m <= b * q
  {
  }

  /** Fixed-width digits are digits of the base and read back to the number, for every number that fits. */
  lemma {:induction false} DigitsReadBack(n: nat, base: nat, width: nat)
    requires 2 <= base <= 16 && n < Pow(base, width)
    ensures ReadDigits(Digits(n, base, width), base) == n
    ensures forall i | 0 <= i < width :: IsDigit(Digits(n, base, width)[i], base)
    decreases width
  {
    if width > 0 {
      var d := Digits(n, base, width);
      MulMonotone(base, Pow(base, width - 1), n / base);
      assert n == base * (n / base) + n % base;
      DigitsReadBack(n / base, base, width - 1);
      assert d[..width - 1] == Digits(n / base, base, width - 1);
      assert d[width - 1] == DigitChar(n % base);
      assert DigitValue(d[width - 1]) == n % base;
      assert (n / base) * base == base * (n / base);
      forall i | 0 <= i < width
        ensures IsDigit(d[i], base)
      {
        if i < width - 1 {
          assert d[i] == d[..width - 1][i];
        }
      }
    }
  }

  /** "0x" and the hexadecimal digits. */
  function Hex(n: nat, width: nat): seq<byte> { [ZERO, 120] + Digits(n, 16, width) }

  /** "0b" and eight binary digits. */
  function Binary(n: byte): seq<byte> { [ZERO, 98] + Digits(n, 2, 8) }

  function ReadNumber(text: seq<byte>): int
    requires |text| >= 2
  {
    ReadDigits(text[2..], if text[1] == 98 then 2 else 16)
  }

  lemma PowersOf16()
    ensures Pow(16, 2) == 0x100 && Pow(16, 4) == 0x1_0000 && Pow(16, 8) == 0x1_0000_0000
    ensures Pow(16, 16) == 0x1_0000_0000_0000_0000 && Pow(2, 8) == 0x100
  {
    assert Pow(16, 5) == 0x10_0000;
    assert Pow(16, 8) == 0x1_0000_0000;
    assert Pow(16, 11) == 0x1000_0000_0000;
    assert Pow(16, 14) == 0x100_0000_0000_0000;
    assert Pow(2, 4) == 16;
  }

  /** What print_hex_byte, print_hex_u16, print_hex_u32, print_hex_u64 and print_bin_byte write reads back,
      in the base its prefix announces, to the number that was printed. */
  lemma PrintedNumbersReadBack(b: byte, h: u16, w: u32, q: u64)
    ensures ReadNumber(Hex(b, 2)) == b && ReadNumber(Hex(h, 4)) == h
    ensures ReadNumber(Hex(w, 8)) == w && ReadNumber(Hex(q, 16)) == q
    ensures ReadNumber(Binary(b)) == b
  {
    PowersOf16();
    DigitsReadBack(b, 16, 2);
    DigitsReadBack(h, 16, 4);
    DigitsReadBack(w, 16, 8);
    DigitsReadBack(q, 16, 16);
    DigitsReadBack(b, 2, 8);
    assert Hex(b, 2)[2..] == Digits(b, 16, 2);
    assert Hex(h, 4)[2..] == Digits(h, 16, 4);
    assert Hex(w, 8)[2..] == Digits(w, 16, 8);
    assert Hex(q, 16)[2..] == Digits(q, 16, 16);
    assert Binary(b)[2..] == Digits(b, 2, 8);
  }

  // ----- The digits in numbers -----

  /** The decimal digits and those above nine, as characters. */
  lemma DigitsInNumbers(n: nat, v: nat)
    requires v < 16
    ensures n < 10 ==> Decimal(n) == [48 + n]
    ensures n >= 10 ==> Decimal(n) == Decimal(n / 10) + [48 + n % 10]
    ensures Digits(v, 16, 1) == [if v < 10 then 48 + v else 87 + v] && Digits(v % 2, 2, 1) == [48 + v % 2]
  {
    assert Digits(v / 16, 16, 0) == [] && Digits(v % 2 / 2, 2, 0) == [];
  }
}
