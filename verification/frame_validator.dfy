/**
  The frame validator of the SENT reader (`tick`, `ConvertData`, `SENTData`).

  The stored periods are turned into nibble values by rounding to whole SENT
  ticks and subtracting the 12-tick offset; the tick is the sync period over
  56, rounded to hundredths.  Nibbles 2..4 and 5..7 are joined as hexadecimal
  digit strings into the two 12-bit data values; in mode 0 the two strings
  must agree, and the six data nibbles, as one binary string, must pass the
  CRC check against the CRC nibble.

  Python's float arithmetic is replaced by exact rational arithmetic with the
  same round-half-to-even rule.
*/
module FrameValidator {
  import opened Numerals
  import Crc
  import EdgeDecoder

  /** Length of the sync pulse in SENT ticks. */
  const SyncTicks: nat := 56

  /** A nibble of value v lasts v + 12 ticks. */
  const NibbleOffset: nat := 12

  /** The polynomial string the source hands to the CRC routine. */
  const CrcPolynomial: BitString := "0101"

  function Dist(a: int, b: int): nat
  {
    if a >= b then a - b else b - a
  }

  /**
    Python's `round` applied to the exact quotient num / den: the nearest
    integer, and on a tie the even one.
  */
  function RoundHalfEven(num: nat, den: nat): (r: nat)
    requires den > 0
    ensures 2 * Dist(num, r * den) <= den
    ensures 2 * Dist(num, r * den) == den ==> r % 2 == 0
  {
    var q, rem := num / den, num % den;
    RoundCandidates(num, den, q, rem);
    if 2 * rem < den then q
    else if 2 * rem > den || q % 2 == 1 then q + 1
    else q
  }

  /** The two candidates for rounding: the quotient lies rem above q and den - rem below q + 1. */
  lemma RoundCandidates(num: nat, den: nat, q: nat, rem: nat)
    requires den > 0 && q == num / den && rem == num % den
    ensures rem < den
    ensures Dist(num, q * den) == rem && Dist(num, (q + 1) * den) == den - rem
  {
    assert num == q * den + rem;
    assert (q + 1) * den == q * den + den;
  }

  /** A quotient that is already a whole number rounds to itself. */
  lemma RoundExact(k: nat, den: nat)
    requires den > 0
    ensures RoundHalfEven(k * den, den) == k
  {
    var r := RoundHalfEven(k * den, den);
    RoundUnique(k * den, den, r, k);
  }

  /** Two integers within half a denominator of the same numerator, one of them strictly, coincide. */
  lemma RoundUnique(num: int, den: nat, r: int, k: int)
    requires den > 0
    requires 2 * Dist(num, r * den) <= den && 2 * Dist(num, k * den) < den
    ensures r == k
  {
    assert Dist(r * den, k * den) < den;
    if r > k {
      ProductGap(r, k, den);
    } else if r < k {
      ProductGap(k, r, den);
    }
  }

  lemma ProductGap(x: int, y: int, den: nat)
    requires x > y
    ensures x * den - y * den >= den
  {
    var k := x - y - 1;
    assert x * den - y * den == (x - y) * den;
    assert (x - y) * den == k * den + den;
    assert k * den >= 0;
  }

  /**
    `tick()`: `round(syncTick / 56.0, 2)`, kept in hundredths of a timestamp
    unit.  It is the multiple of 1/100 nearest to the calibrated tick, and
    positive for every positive sync period.
  */
  function TickCenti(syncTick: nat): (t: nat)
    ensures 2 * Dist(100 * syncTick, t * SyncTicks) <= SyncTicks
    ensures syncTick > 0 ==> t > 0
  {
    RoundHalfEven(100 * syncTick, SyncTicks)
  }

  /** A sync period of 56 u calibrates the tick to exactly u (5600 gives 100). */
  lemma TickOfWholeSync(u: nat)
    ensures TickCenti(SyncTicks * u) == 100 * u
  {
    assert 100 * (SyncTicks * u) == (100 * u) * SyncTicks;
    RoundExact(100 * u, SyncTicks);
  }

  /**
    `ConvertData(tickdata)`: 0 stays 0; any other period becomes the whole
    number of ticks nearest to it, less the 12-tick offset.
  */
  function ConvertData(tickdata: nat, syncTick: nat): (v: int)
    requires syncTick > 0
    ensures tickdata == 0 ==> v == 0
    ensures tickdata > 0 ==> v >= -(NibbleOffset as int)
    ensures tickdata > 0 ==> 2 * Dist(100 * tickdata, (v + NibbleOffset) * TickCenti(syncTick)) <= TickCenti(syncTick)
  {
    if tickdata == 0 then 0
    else RoundHalfEven(100 * tickdata, TickCenti(syncTick)) - NibbleOffset
  }

  /** Nibble round trip: a period of (v + 12) ticks decodes to v. */
  lemma NibbleRoundTrip(u: nat, v: nat)
    requires u > 0 && v < 16
    ensures ConvertData((v + NibbleOffset) * u, SyncTicks * u) == v
  {
    TickOfWholeSync(u);
    assert 100 * ((v + NibbleOffset) * u) == (v + NibbleOffset) * (100 * u);
    RoundExact(v + NibbleOffset, 100 * u);
  }

  /** Jitter tolerance: a period less than half a tick away from (v + 12) ticks still decodes to v. */
  lemma NibbleJitterTolerance(u: nat, v: nat, period: nat)
    requires u > 0 && v < 16 && 2 * Dist(period, (v + NibbleOffset) * u) < u
    ensures ConvertData(period, SyncTicks * u) == v
  {
    TickOfWholeSync(u);
    var k := v + NibbleOffset;
    assert period > 0;
    var r := RoundHalfEven(100 * period, 100 * u);
    ScaleDist(period, k, u);
    RoundUnique(100 * period, 100 * u, r, k);
  }

  /** Measuring in hundredths scales every distance by 100. */
  lemma ScaleDist(p: nat, k: nat, u: nat)
    ensures 2 * Dist(p, k * u) < u ==> 2 * Dist(100 * p, k * (100 * u)) < 100 * u
  {
    assert k * (100 * u) == 100 * (k * u);
    assert Dist(100 * p, 100 * (k * u)) == 100 * Dist(p, k * u);
  }

  // ---------------------------------------------------------------------------
  // SENTData
  // ---------------------------------------------------------------------------

  /** `SENTData`'s result: status, the two data values, the CRC nibble and the fault flag. */
  datatype Decoded = Decoded(status: int, data1: nat, data2: nat, crc: nat, fault: bool)

  /** The eight nibble values `ConvertData` gives for `frame[2..10]`. */
  function Nibbles(frame: EdgeDecoder.Frame, syncTick: nat): (ns: seq<int>)
    requires syncTick > 0
    ensures |ns| == 8
    ensures forall i :: 0 <= i < 8 ==> ns[i] == ConvertData(frame[i + 2], syncTick)
  {
    seq(8, i requires 0 <= i < 8 => ConvertData(frame[i + 2], syncTick))
  }

  /**
    The string handling can process these nibbles: a negative data nibble
    would make `hex` write a minus sign that the concatenation cannot parse,
    and a negative CRC nibble has no binary digit string.
  */
  predicate Formattable(ns: seq<int>)
  {
    |ns| == 8 && forall i :: 1 <= i < 8 ==> ns[i] >= 0
  }

  /** Every nibble is a proper 4-bit value. */
  predicate InRange(ns: seq<int>)
  {
    |ns| == 8 && forall i :: 0 <= i < 8 ==> 0 <= ns[i] < 16
  }

  /** `datanibble` without its "0x": three nibbles' hex digits, joined. */
  function Field(a: nat, b: nat, c: nat): (s: string)
    ensures IsHexString(s)
  {
    HexDigits(a) + HexDigits(b) + HexDigits(c)
  }

  function Field1(ns: seq<int>): string
    requires Formattable(ns)
  {
    Field(ns[1], ns[2], ns[3])
  }

  function Field2(ns: seq<int>): string
    requires Formattable(ns)
  {
    Field(ns[4], ns[5], ns[6])
  }

  /** `InputBitString`: the six data nibbles as one hex number, written in binary without leading zeros. */
  function CrcInput(ns: seq<int>): (bits: BitString)
    requires Formattable(ns)
    ensures ParseBin(bits) == ParseHex(Field1(ns) + Field2(ns))
    ensures InRange(ns) ==>
      ParseBin(bits) == 4096 * (256 * ns[1] + 16 * ns[2] + ns[3]) + (256 * ns[4] + 16 * ns[5] + ns[6])
  {
    var v := ParseHex(Field1(ns) + Field2(ns));
    ParseBinOfBin(v);
    if InRange(ns) then JoinedFieldsValue(ns); Bin(v) else Bin(v)
  }

  /** The two joined data fields read as one hex number: data1 shifted by three hex digits, plus data2. */
  lemma JoinedFieldsValue(ns: seq<int>)
    requires InRange(ns)
    ensures ParseHex(Field1(ns) + Field2(ns)) == 4096 * (256 * ns[1] + 16 * ns[2] + ns[3]) + (256 * ns[4] + 16 * ns[5] + ns[6])
  {
    FieldsOfNibbles(ns);
    ThreeNibbleDigits(ns[4], ns[5], ns[6]);
    assert |Field2(ns)| == 3;
    assert Pow(16, 3) == 4096;
    ParseHexAppend(Field1(ns), Field2(ns));
  }

  /** `crcBitValue`: the CRC nibble in binary, zero-padded to four digits. */
  function CrcPad(ns: seq<int>): (pad: BitString)
    requires Formattable(ns)
    ensures Crc.Checkable(CrcPolynomial, pad)
    ensures ns[7] < 16 ==> |pad| == 4
    ensures ParseBin(pad) == ns[7]
  {
    assert CrcPolynomial[1..] == "101";
    Format04b(ns[7])
  }

  /**
    The body of `SENTData` once the CRC verdict is known: the fault flag
    starts clear and is set by the mode-0 redundancy check or by a failed
    CRC, never cleared again.
  */
  function Assemble(ns: seq<int>, mode: int, crcOk: bool): (r: Decoded)
    requires Formattable(ns)
    ensures r.status == ns[0] && r.crc == ns[7]
    ensures r.data1 == ParseHex(Field1(ns)) && r.data2 == ParseHex(Field2(ns))
    ensures r.fault <==> (mode == 0 && Field1(ns) != Field2(ns)) || !crcOk
    ensures InRange(ns) ==> r.data1 == 256 * ns[1] + 16 * ns[2] + ns[3] && r.data2 == 256 * ns[4] + 16 * ns[5] + ns[6]
    ensures InRange(ns) ==> (r.fault <==> (mode == 0 && r.data1 != r.data2) || !crcOk)
  {
    var fault := (mode == 0 && Field1(ns) != Field2(ns)) || !crcOk;
    var r := Decoded(ns[0], ParseHex(Field1(ns)), ParseHex(Field2(ns)), ns[7], fault);
    if InRange(ns) then FieldsOfNibbles(ns); r else r
  }

  /** With nibbles in range, the joined strings compose the nibbles positionally and compare like the values. */
  lemma FieldsOfNibbles(ns: seq<int>)
    requires InRange(ns)
    ensures ParseHex(Field1(ns)) == 256 * ns[1] + 16 * ns[2] + ns[3]
    ensures ParseHex(Field2(ns)) == 256 * ns[4] + 16 * ns[5] + ns[6]
    ensures Field1(ns) == Field2(ns) <==> ParseHex(Field1(ns)) == ParseHex(Field2(ns))
  {
    FieldsCompare(ns[1], ns[2], ns[3], ns[4], ns[5], ns[6]);
  }

  /** Two joined three-nibble strings are equal exactly when their values are. */
  lemma FieldsCompare(a: nat, b: nat, c: nat, x: nat, y: nat, z: nat)
    requires a < 16 && b < 16 && c < 16 && x < 16 && y < 16 && z < 16
    ensures ParseHex(Field(a, b, c)) == 256 * a + 16 * b + c
    ensures ParseHex(Field(x, y, z)) == 256 * x + 16 * y + z
    ensures Field(a, b, c) == Field(x, y, z) <==> 256 * a + 16 * b + c == 256 * x + 16 * y + z
  {
    ThreeNibbleDigits(a, b, c);
    ThreeNibbleDigits(x, y, z);
    if 256 * a + 16 * b + c == 256 * x + 16 * y + z {
      assert a == x && b == y && c == z;
    }
  }

  /**
    `SENTData` with the CRC routine as written.  Data values and fault flag
    follow the source; with nibbles in range the data values are the two
    12-bit compositions of nibbles 2..4 and 5..7.
  */
  function SentDataAsWrittenOf(ns: seq<int>, mode: int): (r: Decoded)
    requires Formattable(ns)
    ensures InRange(ns) ==> r.data1 == 256 * ns[1] + 16 * ns[2] + ns[3] && r.data1 < 4096
    ensures InRange(ns) ==> r.data2 == 256 * ns[4] + 16 * ns[5] + ns[6] && r.data2 < 4096
    ensures r.status == ns[0] && r.crc == ns[7]
    ensures r.fault <==> (mode == 0 && Field1(ns) != Field2(ns)) || !Crc.CrcAccepts(CrcInput(ns), CrcPolynomial, CrcPad(ns))
  {
    var r := Assemble(ns, mode, Crc.CrcAccepts(CrcInput(ns), CrcPolynomial, CrcPad(ns)));
    if InRange(ns) then FieldsOfNibbles(ns); r else r
  }

  /**
    `SENTData` with the corrected CRC check.  With nibbles in range the data
    values are the two 12-bit compositions, and the fault flag is set exactly
    when mode 0 finds the two values different or the CRC nibble's four bits
    are not the remainder of the data bits.
  */
  function SentDataOf(ns: seq<int>, mode: int): (r: Decoded)
    requires Formattable(ns)
    ensures r.status == ns[0] && r.crc == ns[7]
    ensures InRange(ns) ==> r.data1 == 256 * ns[1] + 16 * ns[2] + ns[3] && r.data1 < 4096
    ensures InRange(ns) ==> r.data2 == 256 * ns[4] + 16 * ns[5] + ns[6] && r.data2 < 4096
    ensures InRange(ns) ==>
      (r.fault <==> (mode == 0 && r.data1 != r.data2) || !CrcMatches(ns))
  {
    var r := Assemble(ns, mode, Crc.CrcCheckFixed(CrcInput(ns), CrcPolynomial, CrcPad(ns)));
    if InRange(ns) then FieldsOfNibbles(ns); r else r
  }

  /** The nibbles of the decoder's current frame under its current calibration, as `SENTData` reads them. */
  predicate Readable(d: EdgeDecoder.Decoder)
  {
    d.syncTick > 0 && Formattable(Nibbles(d.frame, d.syncTick))
  }

  /** `SENTData()` on the decoder, with the corrected CRC check. */
  function SentData(d: EdgeDecoder.Decoder, mode: int): (r: Decoded)
    requires Readable(d)
    ensures r.status == ConvertData(d.frame[2], d.syncTick) && r.crc == ConvertData(d.frame[9], d.syncTick)
  {
    SentDataOf(Nibbles(d.frame, d.syncTick), mode)
  }

  /** `SENTData()` on the decoder, with the CRC routine as written. */
  function SentDataAsWritten(d: EdgeDecoder.Decoder, mode: int): (r: Decoded)
    requires Readable(d)
    ensures r.status == ConvertData(d.frame[2], d.syncTick) && r.crc == ConvertData(d.frame[9], d.syncTick)
  {
    SentDataAsWrittenOf(Nibbles(d.frame, d.syncTick), mode)
  }

  /** The corrected CRC verdict: the CRC nibble's four bits are the remainder of the data bits. */
  predicate CrcMatches(ns: seq<int>)
    requires Formattable(ns)
  {
    CrcPad(ns) == Crc.CrcRemainder(CrcInput(ns), CrcPolynomial, |CrcPad(ns)|)
  }

  /**
    Finding, as written: the CRC nibble never influences the fault flag.
    Frames that differ only in their CRC nibble get the same verdict.
  */
  lemma AsWrittenIgnoresCrcNibble(ns: seq<int>, mode: int, c: int)
    requires InRange(ns) && 0 <= c < 16
    ensures Formattable(ns[7 := c])
    ensures SentDataAsWrittenOf(ns, mode).fault == SentDataAsWrittenOf(ns[7 := c], mode).fault
  {
    var ms := ns[7 := c];
    SameDataOtherCrc(ns, c);
    var input := CrcInput(ns);
    var p1, p2 := CrcPad(ns), CrcPad(ms);
    assert |p1| == 4 && |p2| == 4;
    Crc.CrcCheckIgnoresPad(input, CrcPolynomial, p1, p2);
  }

  /**
    As written, the CRC verdict is a parity test on the 24-bit data word
    (the divisor "101" is x^2 + 1): the word passes exactly when it has an
    even number of one bits at even positions and at odd positions.  The CRC
    nibble plays no part.
  */
  lemma AsWrittenCrcIsParity(ns: seq<int>)
    requires InRange(ns)
    ensures var word := 4096 * (256 * ns[1] + 16 * ns[2] + ns[3]) + (256 * ns[4] + 16 * ns[5] + ns[6]);
      Crc.CrcAccepts(CrcInput(ns), CrcPolynomial, CrcPad(ns)) <==> !BitParity(word, true) && !BitParity(word, false)
  {
    assert CrcPolynomial[0] == '0' && CrcPolynomial[1] == '1';
    assert Crc.StripLeadingZeros(CrcPolynomial) == "101";
    Crc.ParityDivisorVerdict(CrcInput(ns), CrcPolynomial, CrcPad(ns));
    Crc.ParseBinParity(CrcInput(ns), true);
    Crc.ParseBinParity(CrcInput(ns), false);
  }

  /**
    In mode 0 the as-written fault is exactly the redundancy mismatch: when
    the two data fields agree the word is X * (x^12 + 1), which x^2 + 1
    divides, so the CRC check as written always passes.
  */
  lemma AsWrittenModeZeroFaultIsMismatch(ns: seq<int>)
    requires InRange(ns)
    ensures var r := SentDataAsWrittenOf(ns, 0); r.fault <==> r.data1 != r.data2
  {
    var r := SentDataAsWrittenOf(ns, 0);
    assert r.fault <==> Field1(ns) != Field2(ns) || !Crc.CrcAccepts(CrcInput(ns), CrcPolynomial, CrcPad(ns));
    FieldsOfNibbles(ns);
    if Field1(ns) == Field2(ns) {
      EqualFieldsPass(ns);
    }
  }

  /** Equal data fields make a word of even parity in both classes, which the as-written check passes. */
  lemma EqualFieldsPass(ns: seq<int>)
    requires InRange(ns) && Field1(ns) == Field2(ns)
    ensures Crc.CrcAccepts(CrcInput(ns), CrcPolynomial, CrcPad(ns))
  {
    FieldsOfNibbles(ns);
    AsWrittenCrcIsParity(ns);
    RepeatedFieldEven(256 * ns[1] + 16 * ns[2] + ns[3], 256 * ns[4] + 16 * ns[5] + ns[6]);
  }

  /** A 12-bit value written twice, 12 bits apart, has even parity in both classes. */
  lemma RepeatedFieldEven(a: nat, b: nat)
    requires a == b && b < 4096
    ensures !BitParity(4096 * a + b, true) && !BitParity(4096 * a + b, false)
  {
    assert Pow(2, 12) == 4096;
    assert 4096 * a + b == b + 4096 * a;
    BitParitySplit(b, a, 12, 4096, true);
    BitParitySplit(b, a, 12, 4096, false);
  }

  /**
    The counterexample: all data nibbles zero.  As written, every CRC nibble
    passes; the corrected check accepts only 0.
  */
  lemma ZeroDataFrame(c: nat)
    requires c < 16
    ensures !SentDataAsWrittenOf([0, 0, 0, 0, 0, 0, 0, c], 0).fault
    ensures SentDataOf([0, 0, 0, 0, 0, 0, 0, c], 0).fault <==> c != 0
  {
    var ns: seq<int> := [0, 0, 0, 0, 0, 0, 0, c];
    assert InRange(ns);
    ZeroDataAsWritten(ns);
    ZeroDataMatches(ns);
    assert SentDataOf(ns, 0).data1 == SentDataOf(ns, 0).data2;
  }

  /** As written, all-zero data passes the CRC check whatever the CRC nibble. */
  lemma ZeroDataAsWritten(ns: seq<int>)
    requires InRange(ns) && ns[1] == ns[2] == ns[3] == ns[4] == ns[5] == ns[6] == 0
    ensures Field1(ns) == Field2(ns)
    ensures Crc.CrcAccepts(CrcInput(ns), CrcPolynomial, CrcPad(ns))
  {
    ZeroDataInput(ns);
    var pad := CrcPad(ns);
    assert Crc.Checkable(CrcPolynomial, pad);
    assert '1' !in CrcInput(ns);
    Crc.ZeroMessageAcceptsAnyPad(CrcInput(ns), CrcPolynomial, pad);
  }

  /** With all-zero data, the corrected check accepts exactly the CRC nibble 0. */
  lemma ZeroDataMatches(ns: seq<int>)
    requires InRange(ns) && ns[1] == ns[2] == ns[3] == ns[4] == ns[5] == ns[6] == 0
    ensures CrcMatches(ns) <==> ns[7] == 0
  {
    ZeroDataInput(ns);
    ZeroMessageRemainder();
    var pad := CrcPad(ns);
    assert CrcMatches(ns) <==> pad == Zeros(4);
    if pad == Zeros(4) {
      ParseBinZeros(4);
    }
    if ns[7] == 0 {
      ZeroPad();
    }
  }

  /** The CRC nibble 0 is written "0000". */
  lemma ZeroPad()
    ensures Format04b(0) == Zeros(4)
  {
    assert Format04b(0) == Zeros(3) + Bin(0);
  }

  /** All-zero data nibbles join to "000" twice, which `bin` writes as the one-digit message "0". */
  lemma ZeroDataInput(ns: seq<int>)
    requires Formattable(ns) && ns[1] == ns[2] == ns[3] == ns[4] == ns[5] == ns[6] == 0
    ensures Field1(ns) == Field2(ns)
    ensures CrcInput(ns) == "0"
  {
    ThreeNibbleDigits(0, 0, 0);
    ParseHexAppend(Field1(ns), Field2(ns));
  }

  /** The message "0" leaves an all-zero remainder. */
  lemma ZeroMessageRemainder()
    ensures Crc.CrcRemainder("0", CrcPolynomial, 4) == Zeros(4)
  {
    var z: BitString := "0" + Zeros(4);
    assert CrcPolynomial[1..] == "101";
    assert z[0] == '0';
    assert Crc.FirstOne(z) >= 1;
    assert z[1..] == Zeros(4);
  }

  /** Changing only the CRC nibble leaves the data strings and the CRC input alone. */
  lemma SameDataOtherCrc(ns: seq<int>, c: int)
    requires InRange(ns) && 0 <= c < 16
    ensures InRange(ns[7 := c])
    ensures Field1(ns[7 := c]) == Field1(ns) && Field2(ns[7 := c]) == Field2(ns)
    ensures CrcInput(ns[7 := c]) == CrcInput(ns)
  {
    var ms := ns[7 := c];
    assert ms[1] == ns[1] && ms[2] == ns[2] && ms[3] == ns[3];
    assert ms[4] == ns[4] && ms[5] == ns[5] && ms[6] == ns[6];
  }

  /**
    The limit of the corrected check with the source's polynomial: the
    divisor "101" never reaches the last two bits of the CRC nibble, so a
    frame passes only when its CRC nibble is 0, 4, 8 or 12.
  */
  lemma FixedCheckPassesOnlyMultiplesOfFour(ns: seq<int>, mode: int)
    requires InRange(ns) && !SentDataOf(ns, mode).fault
    ensures ns[7] % 4 == 0
  {
    var pad := CrcPad(ns);
    assert CrcMatches(ns);
    assert Crc.CrcCheckFixed(CrcInput(ns), CrcPolynomial, pad);
    assert Crc.FirstOne(CrcPolynomial) == 1;
    assert |Crc.StripLeadingZeros(CrcPolynomial)| == 3;
    Crc.CrcCheckFixedFarBitsZero(CrcInput(ns), CrcPolynomial, pad);
    ParseBinLowBits(pad);
  }

  /** Corrected check: for given data, at most one CRC nibble is accepted. */
  lemma OnlyOneCrcNibbleAccepted(ns: seq<int>, mode: int, c: int)
    requires InRange(ns) && 0 <= c < 16 && c != ns[7] && !SentDataOf(ns, mode).fault
    ensures InRange(ns[7 := c])
    ensures SentDataOf(ns[7 := c], mode).fault
  {
  }

  /**
    A frame whose periods are exact nibble lengths under a whole-tick sync
    period decodes to those nibbles.
  */
  lemma FrameOfNibbles(d: EdgeDecoder.Decoder, u: nat, ns: seq<int>, mode: int)
    requires u > 0 && InRange(ns) && d.syncTick == SyncTicks * u
    requires forall i :: 0 <= i < 8 ==> d.frame[i + 2] == (ns[i] + NibbleOffset) * u
    ensures Nibbles(d.frame, d.syncTick) == ns
    ensures Readable(d) && SentData(d, mode) == SentDataOf(ns, mode)
  {
    forall i | 0 <= i < 8 ensures Nibbles(d.frame, d.syncTick)[i] == ns[i] {
      NibbleRoundTrip(u, ns[i]);
    }
  }

  /** Before any frame arrives the all-zero frame decodes to zeros without a fault. */
  lemma InitialDecodesClean()
    ensures Readable(EdgeDecoder.Initial())
    ensures SentDataAsWritten(EdgeDecoder.Initial(), 0) == Decoded(0, 0, 0, 0, false)
    ensures SentData(EdgeDecoder.Initial(), 0) == Decoded(0, 0, 0, 0, false)
  {
    var d := EdgeDecoder.Initial();
    var ns := Nibbles(d.frame, d.syncTick);
    assert ns == [0, 0, 0, 0, 0, 0, 0, 0];
    ZeroDataFrame(0);
    ThreeNibbleDigits(0, 0, 0);
  }
}
