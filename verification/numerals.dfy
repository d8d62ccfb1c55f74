/**
  The digit strings that the SENT frame validator builds with Python's
  `hex`, `int(_, 16)`, `bin` and `format(_, '04b')`.  The validator joins
  nibbles by concatenating hexadecimal digit strings and feeds the CRC check
  with binary digit strings, so these are modelled as strings, not numbers.
*/
module Numerals {

  /** A binary digit as the CRC routine stores it: the character '0' or '1'. */
  type Bit = c: char | c == '0' || c == '1' witness '0'

  type BitString = seq<Bit>

  function Pow(b: nat, e: nat): nat
  {
    if e == 0 then 1 else b * Pow(b, e - 1)
  }

  // ---------------------------------------------------------------------------
  // Hexadecimal digits
  // ---------------------------------------------------------------------------

  predicate IsHexDigit(c: char)
  {
    '0' <= c <= '9' || 'a' <= c <= 'f'
  }

  predicate IsHexString(s: string)
  {
    forall i :: 0 <= i < |s| ==> IsHexDigit(s[i])
  }

  function HexValue(c: char): (v: nat)
    requires IsHexDigit(c)
    ensures v < 16
  {
    if c <= '9' then c as int - '0' as int else c as int - 'a' as int + 10
  }

  /** The lower-case digit Python's `hex` writes for a value below 16. */
  function HexChar(v: nat): (c: char)
    requires v < 16
    ensures IsHexDigit(c) && HexValue(c) == v
    ensures c == '0' <==> v == 0
  {
    if v < 10 then ('0' as int + v) as char else ('a' as int + v - 10) as char
  }

  /** `hex(n)` without its "0x" prefix: most significant digit first, no leading zero. */
  function HexDigits(n: nat): (s: string)
    ensures IsHexString(s)
    ensures |s| >= 1
    ensures |s| == 1 <==> n < 16
    ensures s[0] == '0' <==> n == 0
    decreases n
  {
    if n < 16 then [HexChar(n)] else HexDigits(n / 16) + [HexChar(n % 16)]
  }

  /** `int(s, 16)` on a string of hexadecimal digits (the "0x" prefix contributes nothing). */
  function ParseHex(s: string): (v: nat)
    requires IsHexString(s)
    ensures v < Pow(16, |s|)
  {
    if |s| == 0 then 0 else 16 * ParseHex(s[..|s| - 1]) + HexValue(s[|s| - 1])
  }

  /** Parsing undoes `hex`: `int(hex(n), 16) == n`. */
  lemma {:induction false} ParseHexOfHexDigits(n: nat)
    ensures ParseHex(HexDigits(n)) == n
    decreases n
  {
    if n >= 16 {
      var s := HexDigits(n);
      assert s[..|s| - 1] == HexDigits(n / 16);
      ParseHexOfHexDigits(n / 16);
    }
  }

  /** Concatenating digit strings shifts the left part by one hex digit per right-hand character. */
  lemma {:induction false} ParseHexAppend(a: string, b: string)
    requires IsHexString(a) && IsHexString(b)
    ensures ParseHex(a + b) == ParseHex(a) * Pow(16, |b|) + ParseHex(b)
    decreases |b|
  {
    if |b| == 0 {
      assert a + b == a;
    } else {
      var b' := b[..|b| - 1];
      assert (a + b)[..|a + b| - 1] == a + b';
      assert (a + b)[|a + b| - 1] == b[|b| - 1];
      var d := HexValue(b[|b| - 1]);
      assert ParseHex(a + b) == 16 * ParseHex(a + b') + d;
      assert ParseHex(b) == 16 * ParseHex(b') + d;
      assert Pow(16, |b|) == 16 * Pow(16, |b'|);
      ParseHexAppend(a, b');
      ShiftDigit(ParseHex(a), Pow(16, |b'|), ParseHex(b'), d);
    }
  }

  lemma ShiftDigit(x: nat, p: nat, y: nat, d: nat)
    ensures 16 * (x * p + y) + d == x * (16 * p) + (16 * y + d)
  {
  }

  /**
    The value of three joined one-digit strings is the positional composition
    of the three nibbles, and two such strings are equal exactly when the
    nibbles agree.
  */
  lemma ThreeNibbleDigits(a: nat, b: nat, c: nat)
    requires a < 16 && b < 16 && c < 16
    ensures HexDigits(a) + HexDigits(b) + HexDigits(c) == [HexChar(a), HexChar(b), HexChar(c)]
    ensures ParseHex(HexDigits(a) + HexDigits(b) + HexDigits(c)) == 256 * a + 16 * b + c
  {
    var x, y, z := HexChar(a), HexChar(b), HexChar(c);
    assert HexDigits(a) == [x];
    assert HexDigits(b) == [y];
    assert HexDigits(c) == [z];
    assert [x] + [y] + [z] == [x, y, z];
    ParseThreeDigits(HexChar(a), HexChar(b), HexChar(c));
  }

  lemma ParseThreeDigits(x: char, y: char, z: char)
    requires IsHexDigit(x) && IsHexDigit(y) && IsHexDigit(z)
    ensures ParseHex([x, y, z]) == 256 * HexValue(x) + 16 * HexValue(y) + HexValue(z)
  {
    var s := [x, y, z];
    assert s[..2] == [x, y];
    assert s[..2][..1] == [x];
    assert [x][..0] == [];
    assert ParseHex([x]) == HexValue(x);
    assert ParseHex([x, y]) == 16 * HexValue(x) + HexValue(y);
  }

  // ---------------------------------------------------------------------------
  // Binary digits
  // ---------------------------------------------------------------------------

  function BitOf(v: nat): Bit
    requires v < 2
  {
    if v == 0 then '0' else '1'
  }

  function BitValue(b: Bit): nat
  {
    if b == '0' then 0 else 1
  }

  function Zeros(k: nat): (s: BitString)
    ensures |s| == k && forall i :: 0 <= i < k ==> s[i] == '0'
  {
    seq(k, _ => '0')
  }

  /** `bin(n)` without its "0b" prefix: leading zeros are dropped, and 0 is written "0". */
  function Bin(n: nat): (s: BitString)
    ensures |s| >= 1
    ensures s[0] == '1' <==> n > 0
    ensures n == 0 ==> s == "0"
    decreases n
  {
    if n < 2 then [BitOf(n)] else Bin(n / 2) + [BitOf(n % 2)]
  }

  /** `int(s, 2)`: the value of a string of binary digits, most significant first. */
  function ParseBin(s: BitString): nat
  {
    if |s| == 0 then 0 else 2 * ParseBin(s[..|s| - 1]) + BitValue(s[|s| - 1])
  }

  /** Parsing undoes `bin`. */
  lemma {:induction false} ParseBinOfBin(n: nat)
    ensures ParseBin(Bin(n)) == n
    decreases n
  {
    if n >= 2 {
      var s := Bin(n);
      assert s[..|s| - 1] == Bin(n / 2);
      ParseBinOfBin(n / 2);
    }
  }

  /** `bin` needs at most k digits for a value below 2^k. */
  lemma {:induction false} BinLength(n: nat, k: nat)
    requires k >= 1 && n < Pow(2, k)
    ensures |Bin(n)| <= k
    decreases k
  {
    if n >= 2 {
      BinLength(n / 2, k - 1);
    }
  }

  lemma NibbleBinLength(n: nat)
    ensures n < 16 ==> |Bin(n)| <= 4
  {
    if n < 16 {
      assert Pow(2, 4) == 16;
      BinLength(n, 4);
    }
  }

  /** Leading zeros do not change the value of a binary string. */
  lemma {:induction false} ParseBinLeadingZeros(k: nat, s: BitString)
    ensures ParseBin(Zeros(k) + s) == ParseBin(s)
    decreases |s|
  {
    if |s| == 0 {
      ParseBinZeros(k);
      assert Zeros(k) + s == Zeros(k);
    } else {
      var s' := s[..|s| - 1];
      assert (Zeros(k) + s)[..|Zeros(k) + s| - 1] == Zeros(k) + s';
      ParseBinLeadingZeros(k, s');
    }
  }

  lemma {:induction false} ParseBinZeros(k: nat)
    ensures ParseBin(Zeros(k)) == 0
  {
    if k > 0 {
      assert Zeros(k)[..k - 1] == Zeros(k - 1);
      ParseBinZeros(k - 1);
    }
  }

  /** The value of a binary string modulo 4 is given by its last two digits. */
  lemma ParseBinLowBits(s: BitString)
    requires |s| >= 2
    ensures ParseBin(s) % 4 == 2 * BitValue(s[|s| - 2]) + BitValue(s[|s| - 1])
  {
    var s' := s[..|s| - 1];
    assert s'[..|s'| - 1] == s[..|s| - 2];
    assert s'[|s'| - 1] == s[|s| - 2];
    assert ParseBin(s) == 4 * ParseBin(s[..|s| - 2]) + 2 * BitValue(s[|s| - 2]) + BitValue(s[|s| - 1]);
  }

  /**
    Whether n has an odd number of one bits at even (`even`) or at odd
    (`!even`) positions, counting from the least significant bit.
  */
  function BitParity(n: nat, even: bool): bool
    decreases n
  {
    if n == 0 then false else (n % 2 == 1 && even) != BitParity(n / 2, !even)
  }

  /** One bit at a time: the parity of 2h + b is decided by the bit b and the parity of h. */
  lemma BitParityStep(v: nat, h: nat, b: nat, even: bool)
    requires b < 2 && v == 2 * h + b
    ensures BitParity(v, even) == ((b == 1 && even) != BitParity(h, !even))
  {
    HalfSplit(v, h, b);
  }

  lemma HalfSplit(v: nat, h: nat, b: nat)
    requires b < 2 && v == 2 * h + b
    ensures v / 2 == h && v % 2 == b
  {
  }

  /**
    Bits placed k positions apart add their parities: with k even, the
    classes of x and of y do not mix.
  */
  lemma {:induction false} BitParitySplit(x: nat, y: nat, k: nat, q: nat, even: bool)
    requires q == Pow(2, k) && x < q
    ensures BitParity(x + q * y, even) == (BitParity(x, even) != BitParity(y, if k % 2 == 0 then even else !even))
    decreases k
  {
    if k == 0 {
      assert x == 0 && x + q * y == y;
    } else {
      var p := Pow(2, k - 1);
      var c := if k % 2 == 0 then even else !even;
      assert (if (k - 1) % 2 == 0 then !even else even) == c;
      BitParitySplit(x / 2, y, k - 1, p, !even);
      SplitStep(x, y, p, q, even, c);
    }
  }

  /** One step of `BitParitySplit`: strip the last bit of x, which sits below every bit of y. */
  lemma SplitStep(x: nat, y: nat, p: nat, q: nat, even: bool, c: bool)
    requires q == 2 * p && x < q
    requires BitParity(x / 2 + p * y, !even) == (BitParity(x / 2, !even) != BitParity(y, c))
    ensures BitParity(x + q * y, even) == (BitParity(x, even) != BitParity(y, c))
  {
    HalfSplit(x, x / 2, x % 2);
    assert q * y == 2 * (p * y);
    BitParityStep(x + q * y, x / 2 + p * y, x % 2, even);
    BitParityStep(x, x / 2, x % 2, even);
  }

  /**
    `format(n, '04b')`: `bin(n)` left-padded with zeros to at least four
    digits.  It keeps the value, and a nibble comes out as exactly four digits.
  */
  function Format04b(n: nat): (s: BitString)
    ensures |s| == if |Bin(n)| < 4 then 4 else |Bin(n)|
    ensures n < 16 ==> |s| == 4
    ensures ParseBin(s) == n
  {
    ParseBinOfBin(n);
    NibbleBinLength(n);
    if |Bin(n)| < 4 then
      ParseBinLeadingZeros(4 - |Bin(n)|, Bin(n));
      Zeros(4 - |Bin(n)|) + Bin(n)
    else
      Bin(n)
  }
}
