/**
  The CRC routine of the SENT reader (`crcCheck`): binary polynomial division
  by XOR-shift over a string of '0'/'1' characters.  The transmitted value
  (the "pad") is appended to the message bits; while a 1 remains among the
  message bits, the polynomial is XOR-ed in at the leftmost 1.

  As written, the routine accepts when the reduced tail reproduces the pad.
  That verdict can never depend on the pad (`CrcCheckIgnoresPad`), so the
  model also defines the corrected check, which accepts when the tail is all
  zeros, and proves that it accepts exactly one pad: the remainder of the
  message (`CrcCheckFixed`).  The correction changes only the compare
  target: the divisor never reaches the last |divisor| - 1 pad positions, so
  an accepted pad is zero there (`CrcCheckFixedFarBitsZero`).

  For the divisor "101" the as-written verdict reduces to a parity test:
  the message passes exactly when it has an even number of ones at even
  and at odd distances from its end (`ParityDivisorVerdict`).
*/
module Crc {
  import opened Numerals

  /** `PolyBitString.lstrip('0')`. */
  function StripLeadingZeros(s: BitString): (r: BitString)
    ensures |r| <= |s| && r == s[|s| - |r|..]
    ensures forall i :: 0 <= i < |s| - |r| ==> s[i] == '0'
    ensures |r| > 0 ==> r[0] == '1'
    ensures '1' in s <==> |r| > 0
  {
    s[FirstOne(s)..]
  }

  /** A divisor the reduction can use: it starts with a 1, so each step clears the leftmost 1. */
  predicate IsDivisor(p: BitString)
  {
    |p| > 0 && p[0] == '1'
  }

  /**
    What `crcCheck` needs of its arguments to run to completion: the stripped
    polynomial must contain a 1 (otherwise no step clears anything), and it
    must not reach past the end of the padded array (otherwise the XOR at the
    last message position indexes out of range).
  */
  predicate Checkable(poly: BitString, pad: BitString)
  {
    IsDivisor(StripLeadingZeros(poly)) && |StripLeadingZeros(poly)| <= |pad| + 1
  }

  /** `str(int(p != a))`: exclusive or of two binary digits. */
  function XorBit(p: Bit, a: Bit): (r: Bit)
    ensures r == a <==> p == '0'
  {
    if p != a then '1' else '0'
  }

  function Flip(b: Bit): (r: Bit)
    ensures r != b
  {
    if b == '0' then '1' else '0'
  }

  /** The array after the inner loop XORs the divisor in at offset k. */
  function XorAt(a: BitString, k: nat, p: BitString): (r: BitString)
    requires k + |p| <= |a|
    ensures |r| == |a|
    ensures forall i :: 0 <= i < |a| ==> r[i] == if k <= i < k + |p| then XorBit(p[i - k], a[i]) else a[i]
  {
    seq(|a|, i requires 0 <= i < |a| => if k <= i < k + |p| then XorBit(p[i - k], a[i]) else a[i])
  }

  /** `InputPaddedArray.index('1')`, or the length when there is no 1. */
  function FirstOne(a: BitString): (k: nat)
    ensures k <= |a|
    ensures forall i :: 0 <= i < k ==> a[i] == '0'
    ensures k < |a| ==> a[k] == '1'
  {
    if |a| == 0 then 0 else if a[0] == '1' then 0 else 1 + FirstOne(a[1..])
  }

  /** The loop condition `'1' in InputPaddedArray[:LenInput]`, in terms of `FirstOne`. */
  lemma FirstOneInPrefix(a: BitString, n: nat)
    requires n <= |a|
    ensures '1' in a[..n] <==> FirstOne(a) < n
  {
    var k := FirstOne(a);
    if k < n {
      assert a[..n][k] == '1';
    }
    if '1' in a[..n] {
      var j :| 0 <= j < n && a[..n][j] == '1';
      assert a[j] == '1';
    }
  }

  /** Arrays that agree on their first n positions have the same first 1, as far as it lies among them. */
  lemma FirstOneAgrees(a: BitString, b: BitString, n: nat)
    requires n <= |a| && n <= |b| && a[..n] == b[..n]
    ensures FirstOne(a) < n ==> FirstOne(b) == FirstOne(a)
    ensures FirstOne(a) >= n ==> FirstOne(b) >= n
  {
    forall i | 0 <= i < n
      ensures a[i] == b[i]
    {
      assert a[..n][i] == b[..n][i];
    }
  }

  /** One step clears the leftmost 1 and leaves only 0s before it. */
  lemma XorAtMovesFirstOne(a: BitString, k: nat, p: BitString)
    requires IsDivisor(p) && k + |p| <= |a| && k == FirstOne(a) && k < |a|
    ensures FirstOne(XorAt(a, k, p)) > k
  {
    var r := XorAt(a, k, p);
    assert r[k] == '0';
  }

  /**
    The division loop of `crcCheck` as a function: XOR the divisor in at the
    leftmost 1 until no 1 remains among the first n (message) positions.  The
    leftmost 1 moves strictly right with every step, which bounds the number
    of steps by n.
  */
  function Reduce(a: BitString, n: nat, p: BitString): (r: BitString)
    requires IsDivisor(p) && n + |p| <= |a| + 1
    ensures |r| == |a|
    ensures forall i :: 0 <= i < n ==> r[i] == '0'
    decreases if FirstOne(a) < n then n - FirstOne(a) else 0
  {
    var k := FirstOne(a);
    if k < n then
      XorAtMovesFirstOne(a, k, p);
      Reduce(XorAt(a, k, p), n, p)
    else
      a
  }

  /** The verdict of `crcCheck` as written: the reduced tail reproduces the pad. */
  predicate CrcAccepts(input: BitString, poly: BitString, pad: BitString)
    requires Checkable(poly, pad)
  {
    Reduce(input + pad, |input|, StripLeadingZeros(poly))[|input|..] == pad
  }

  /** The inner `for` loop of `crcCheck`: XOR the divisor into the array at `curShift`, digit by digit. */
  method XorDivisorAt(arr: BitString, curShift: nat, p: BitString) returns (r: BitString)
    requires curShift + |p| <= |arr|
    ensures r == XorAt(arr, curShift, p)
  {
    r := arr;
    var i := 0;
    while i < |p|
      invariant 0 <= i <= |p|
      invariant |r| == |arr|
      invariant forall j :: 0 <= j < |r| ==>
          r[j] == if curShift <= j < curShift + i then XorBit(p[j - curShift], arr[j]) else arr[j]
    {
      r := r[curShift + i := XorBit(p[i], r[curShift + i])];
      i := i + 1;
    }
  }

  /**
    `crcCheck(InputBitString, PolyBitString, PadValue)`: the in-place
    division loop.  It computes the reduction `Reduce` describes and compares
    the tail with the pad.
  */
  method CrcCheck(input: BitString, poly: BitString, pad: BitString) returns (checkOk: bool)
    requires Checkable(poly, pad)
    ensures checkOk <==> CrcAccepts(input, poly, pad)
  {
    var p := StripLeadingZeros(poly);
    var n := |input|;
    var arr := input + pad;
    FirstOneInPrefix(arr, n);
    while '1' in arr[..n]
      invariant |arr| == n + |pad|
      invariant ('1' in arr[..n]) <==> FirstOne(arr) < n
      invariant Reduce(arr, n, p) == Reduce(input + pad, n, p)
      decreases n - FirstOne(arr)
    {
      var curShift := FirstOne(arr);
      ghost var before := arr;
      arr := XorDivisorAt(arr, curShift, p);
      XorAtMovesFirstOne(before, curShift, p);
      FirstOneInPrefix(arr, n);
    }
    checkOk := arr[n..] == pad;
  }

  /**
    Every position at or after the message region ends up flipped or not
    independently of what it held: whether position i changed is decided by
    the message bits alone.
  */
  lemma {:induction false} ReduceFlipsDependOnlyOnMessage(a: BitString, b: BitString, n: nat, p: BitString)
    requires IsDivisor(p) && n + |p| <= |a| + 1 && |a| == |b| && a[..n] == b[..n]
    ensures forall i :: n <= i < |a| ==> (Reduce(a, n, p)[i] == a[i] <==> Reduce(b, n, p)[i] == b[i])
    decreases if FirstOne(a) < n then n - FirstOne(a) else 0
  {
    FirstOneAgrees(a, b, n);
    var k := FirstOne(a);
    if k < n {
      var a', b' := XorAt(a, k, p), XorAt(b, k, p);
      assert a'[..n] == b'[..n];
      XorAtMovesFirstOne(a, k, p);
      ReduceFlipsDependOnlyOnMessage(a', b', n, p);
      forall i | n <= i < |a|
        ensures Reduce(a, n, p)[i] == a[i] <==> Reduce(b, n, p)[i] == b[i]
      {
        assert (a'[i] == a[i]) <==> (b'[i] == b[i]);
      }
    }
  }

  /**
    Finding: as written, `crcCheck` gives the same verdict for every pad of a
    given width, so the transmitted CRC nibble is never actually checked.
  */
  lemma CrcCheckIgnoresPad(input: BitString, poly: BitString, pad1: BitString, pad2: BitString)
    requires Checkable(poly, pad1) && |pad1| == |pad2|
    ensures CrcAccepts(input, poly, pad1) == CrcAccepts(input, poly, pad2)
  {
    var p, n := StripLeadingZeros(poly), |input|;
    var a, b := input + pad1, input + pad2;
    assert a[..n] == input == b[..n];
    assert a[n..] == pad1 && b[n..] == pad2;
    ReduceFlipsDependOnlyOnMessage(a, b, n, p);
    TailUnchanged(a, n, p);
    TailUnchanged(b, n, p);
  }

  /** The reduced tail equals the original tail exactly when no position from n on was flipped. */
  lemma TailUnchanged(a: BitString, n: nat, p: BitString)
    requires IsDivisor(p) && n + |p| <= |a| + 1
    ensures Reduce(a, n, p)[n..] == a[n..] <==> forall i :: n <= i < |a| ==> Reduce(a, n, p)[i] == a[i]
  {
    var r := Reduce(a, n, p);
    if r[n..] == a[n..] {
      forall i | n <= i < |a| ensures r[i] == a[i] {
        assert r[n..][i - n] == a[n..][i - n];
      }
    }
  }

  /** A message without any 1 (such as the all-zero data word) passes with every pad. */
  lemma ZeroMessageAcceptsAnyPad(input: BitString, poly: BitString, pad: BitString)
    requires Checkable(poly, pad) && '1' !in input
    ensures CrcAccepts(input, poly, pad)
  {
    var a := input + pad;
    FirstOneInPrefix(a, |input|);
    assert a[..|input|] == input;
    assert a[|input|..] == pad;
  }

  // ---------------------------------------------------------------------------
  // The divisor "101" as a parity test
  // ---------------------------------------------------------------------------

  /**
    Whether `a` holds an odd number of ones at the positions an even
    (`even`) or an odd (`!even`) distance from its end.
  */
  function ClassParity(a: BitString, even: bool): bool
    decreases |a|
  {
    if |a| == 0 then false
    else (a[|a| - 1] == '1' && even) != ClassParity(a[..|a| - 1], !even)
  }

  /** Flipping one bit toggles the parity of its own class and no other. */
  lemma {:induction false} FlipToggles(a: BitString, k: nat, even: bool)
    requires k < |a|
    ensures ClassParity(a[k := Flip(a[k])], even) == (ClassParity(a, even) != (((|a| - 1 - k) % 2 == 0) == even))
    decreases |a|
  {
    var m := |a| - 1;
    var b := a[k := Flip(a[k])];
    if k == m {
      assert b[..m] == a[..m];
    } else {
      assert b[..m] == a[..m][k := Flip(a[..m][k])];
      FlipToggles(a[..m], k, !even);
    }
  }

  /** Overwriting one bit toggles its class exactly when the bit changes. */
  lemma SetToggles(a: BitString, k: nat, v: Bit, even: bool)
    requires k < |a|
    ensures ClassParity(a[k := v], even) == (ClassParity(a, even) != (a[k] != v && (((|a| - 1 - k) % 2 == 0) == even)))
  {
    if a[k] == v {
      assert a[k := v] == a;
    } else {
      assert a[k := v] == a[k := Flip(a[k])];
      FlipToggles(a, k, even);
    }
  }

  /** An all-zero string has no ones in either class. */
  lemma {:induction false} ZerosParity(w: nat, even: bool)
    ensures !ClassParity(Zeros(w), even)
    decreases w
  {
    if w > 0 {
      assert Zeros(w)[..w - 1] == Zeros(w - 1);
      ZerosParity(w - 1, !even);
    }
  }

  /** Appending w zeros shifts every position's distance from the end by w. */
  lemma {:induction false} AppendZerosParity(a: BitString, w: nat, even: bool)
    ensures ClassParity(a + Zeros(w), even) == ClassParity(a, if w % 2 == 0 then even else !even)
    decreases w
  {
    if w == 0 {
      assert a + Zeros(0) == a;
    } else {
      assert (a + Zeros(w))[..|a| + w - 1] == a + Zeros(w - 1);
      AppendZerosParity(a, w - 1, !even);
    }
  }

  /**
    XOR-ing "101" in flips two bits two positions apart: both in the same
    class, so neither class changes parity.
  */
  lemma XorAtParity(a: BitString, k: nat, even: bool)
    requires k + 3 <= |a|
    ensures ClassParity(XorAt(a, k, "101"), even) == ClassParity(a, even)
  {
    var b := a[k := Flip(a[k])];
    var c := b[k + 2 := Flip(b[k + 2])];
    assert XorAt(a, k, "101") == c;
    FlipToggles(a, k, even);
    FlipToggles(b, k + 2, even);
  }

  /** The reduction by "101" keeps the parity of both classes. */
  lemma {:induction false} ReduceKeepsParity(a: BitString, n: nat, even: bool)
    requires n + 2 <= |a|
    ensures ClassParity(Reduce(a, n, "101"), even) == ClassParity(a, even)
    decreases if FirstOne(a) < n then n - FirstOne(a) else 0
  {
    var k := FirstOne(a);
    if k < n {
      XorAtMovesFirstOne(a, k, "101");
      XorAtParity(a, k, even);
      ReduceKeepsParity(XorAt(a, k, "101"), n, even);
    }
  }

  /**
    With the divisor "101" (x^2 + 1, under which x^k leaves x^(k mod 2)),
    `crcCheck` as written accepts exactly the messages with an even number
    of ones in each of the two position classes, whatever the pad.
  */
  lemma ParityDivisorVerdict(input: BitString, poly: BitString, pad: BitString)
    requires Checkable(poly, pad) && StripLeadingZeros(poly) == "101"
    ensures CrcAccepts(input, poly, pad) <==> !ClassParity(input, true) && !ClassParity(input, false)
  {
    var n, w := |input|, |pad|;
    CrcCheckIgnoresPad(input, poly, pad, Zeros(w));
    var a := input + Zeros(w);
    assert CrcAccepts(input, poly, Zeros(w)) <==> Reduce(a, n, "101")[n..] == Zeros(w);
    ReducedParity(a, n, true);
    ReducedParity(a, n, false);
    AppendZerosParity(input, w, true);
    AppendZerosParity(input, w, false);
  }

  /**
    After the reduction by "101" of a message followed by zeros, the tail is
    all zeros exactly when both classes have even parity.
  */
  lemma ReducedParity(a: BitString, n: nat, even: bool)
    requires n + 2 <= |a| && forall i :: n <= i < |a| ==> a[i] == '0'
    ensures Reduce(a, n, "101")[n..] == Zeros(|a| - n) <==> !ClassParity(a, even) && !ClassParity(a, !even)
  {
    var r := Reduce(a, n, "101");
    ReduceKeepsParity(a, n, even);
    ReduceKeepsParity(a, n, !even);
    ReduceKeepsFarTail(a, n, "101");
    TwoBitWord(r, n, even);
  }

  /**
    A word that is zero outside positions n and n + 1: its tail from n is
    all zeros exactly when both class parities are even.
  */
  lemma TwoBitWord(r: BitString, n: nat, even: bool)
    requires n + 2 <= |r| && forall i :: 0 <= i < |r| && i != n && i != n + 1 ==> r[i] == '0'
    ensures r[n..] == Zeros(|r| - n) <==> !ClassParity(r, even) && !ClassParity(r, !even)
  {
    TwoBitParity(r, n);
    if r[n..] == Zeros(|r| - n) {
      assert r[n] == r[n..][0] && r[n + 1] == r[n..][1];
    }
    if r[n] == '0' && r[n + 1] == '0' {
      assert r[n..] == Zeros(|r| - n);
    }
  }

  /** Positions n and n + 1 lie in different classes, so each class parity is one of the two bits. */
  lemma TwoBitParity(r: BitString, n: nat)
    requires n + 2 <= |r| && forall i :: 0 <= i < |r| && i != n && i != n + 1 ==> r[i] == '0'
    ensures ClassParity(r, (|r| - 1 - n) % 2 == 0) <==> r[n] == '1'
    ensures ClassParity(r, (|r| - 1 - n) % 2 != 0) <==> r[n + 1] == '1'
  {
    var s, w := r[..n + 2], |r| - (n + 2);
    PrefixParity(r, n + 2, true);
    PrefixParity(r, n + 2, false);
    assert s[..n] == Zeros(n);
    LastTwoParity(s, true);
    LastTwoParity(s, false);
    assert s[n] == r[n] && s[n + 1] == r[n + 1];
    assert ((|r| - 1 - n) % 2 == 0) == (w % 2 != 0);
  }

  /** Trailing zeros from position m on only shift the classes of what comes before. */
  lemma PrefixParity(r: BitString, m: nat, even: bool)
    requires m <= |r| && forall i :: m <= i < |r| ==> r[i] == '0'
    ensures ClassParity(r, even) == ClassParity(r[..m], if (|r| - m) % 2 == 0 then even else !even)
  {
    assert r == r[..m] + Zeros(|r| - m);
    AppendZerosParity(r[..m], |r| - m, even);
  }

  /** A word that is zero before its last two bits: the last bit is in the even class, the one before in the odd. */
  lemma LastTwoParity(s: BitString, even: bool)
    requires |s| >= 2 && s[..|s| - 2] == Zeros(|s| - 2)
    ensures ClassParity(s, even) == ((s[|s| - 1] == '1' && even) != (s[|s| - 2] == '1' && !even))
  {
    var m := |s| - 1;
    assert s[..m][..m - 1] == Zeros(m - 1);
    assert s[..m][m - 1] == s[m - 1];
    ZerosParity(m - 1, even);
  }

  /** The class parities of a bit string are those of the number it denotes, counted from the least significant bit. */
  lemma {:induction false} ParseBinParity(s: BitString, even: bool)
    ensures ClassParity(s, even) == BitParity(ParseBin(s), even)
    decreases |s|
  {
    if |s| > 0 {
      var m := |s| - 1;
      ParseBinParity(s[..m], !even);
      BitParityStep(ParseBin(s), ParseBin(s[..m]), BitValue(s[m]), even);
    }
  }

  // ---------------------------------------------------------------------------
  // The corrected check
  // ---------------------------------------------------------------------------

  /** The remainder the division leaves for a message with an all-zero pad of the given width. */
  function CrcRemainder(input: BitString, poly: BitString, width: nat): (r: BitString)
    requires Checkable(poly, Zeros(width))
    ensures |r| == width
  {
    Reduce(input + Zeros(width), |input|, StripLeadingZeros(poly))[|input|..]
  }

  /**
    The corrected verdict: the division of message-plus-pad leaves an
    all-zero tail.  It accepts exactly one pad per message, the remainder, so
    flipping any bit of an accepted pad is detected.
  */
  function CrcCheckFixed(input: BitString, poly: BitString, pad: BitString): (checkOk: bool)
    requires Checkable(poly, pad)
    ensures checkOk <==> pad == CrcRemainder(input, poly, |pad|)
  {
    ZeroTailIffRemainder(input, poly, pad);
    Reduce(input + pad, |input|, StripLeadingZeros(poly))[|input|..] == Zeros(|pad|)
  }

  /** The reduced tail is all zeros exactly when the pad equals the remainder. */
  lemma ZeroTailIffRemainder(input: BitString, poly: BitString, pad: BitString)
    requires Checkable(poly, pad)
    ensures Reduce(input + pad, |input|, StripLeadingZeros(poly))[|input|..] == Zeros(|pad|)
        <==> pad == CrcRemainder(input, poly, |pad|)
  {
    var p, n := StripLeadingZeros(poly), |input|;
    var a, z := input + pad, input + Zeros(|pad|);
    assert a[..n] == z[..n] && a[n..] == pad && z[n..] == Zeros(|pad|);
    TailAgreement(a, z, n, p, pad);
    SeqAgreement(Reduce(a, n, p)[n..], pad, Reduce(z, n, p)[n..]);
  }

  /**
    Two words that share their message part: position by position, the
    first one's reduced tail is zero exactly where its pad agrees with the
    second one's reduced tail, when the second one's pad is all zeros.
  */
  lemma TailAgreement(a: BitString, z: BitString, n: nat, p: BitString, pad: BitString)
    requires IsDivisor(p) && n + |p| <= |a| + 1 && |a| == |z|
    requires a[..n] == z[..n] && a[n..] == pad && z[n..] == Zeros(|pad|)
    ensures forall j :: 0 <= j < |pad| ==> (Reduce(a, n, p)[n..][j] == '0' <==> pad[j] == Reduce(z, n, p)[n..][j])
  {
    var ra, rz := Reduce(a, n, p), Reduce(z, n, p);
    ReduceFlipsDependOnlyOnMessage(a, z, n, p);
    forall j | 0 <= j < |pad| ensures ra[n..][j] == '0' <==> pad[j] == rz[n..][j] {
      assert a[n..][j] == a[n + j] && z[n..][j] == z[n + j];
      assert ra[n..][j] == ra[n + j] && rz[n..][j] == rz[n + j];
    }
  }

  /** A tail is all zeros exactly when a pad matches a reference wherever the tail says so. */
  lemma SeqAgreement(t: BitString, pad: BitString, ref: BitString)
    requires |t| == |pad| == |ref|
    requires forall j :: 0 <= j < |t| ==> (t[j] == '0' <==> pad[j] == ref[j])
    ensures t == Zeros(|t|) <==> pad == ref
  {
    if pad != ref {
      var j :| 0 <= j < |t| && pad[j] != ref[j];
      assert t[j] != Zeros(|t|)[j];
    }
  }

  /**
    The divisor is XOR-ed in only at message positions, so it never reaches
    the last |p| - 1 positions of the pad: those come out as they went in.
  */
  lemma {:induction false} ReduceKeepsFarTail(a: BitString, n: nat, p: BitString)
    requires IsDivisor(p) && n + |p| <= |a| + 1
    ensures forall i :: n + |p| - 1 <= i < |a| ==> Reduce(a, n, p)[i] == a[i]
    decreases if FirstOne(a) < n then n - FirstOne(a) else 0
  {
    var k := FirstOne(a);
    if k < n {
      XorAtMovesFirstOne(a, k, p);
      ReduceKeepsFarTail(XorAt(a, k, p), n, p);
    }
  }

  /**
    The limit of the corrected check: a pad it accepts is zero in every
    position the divisor cannot reach, so with the 3-digit divisor "101" and
    a 4-digit pad only the pads "0000", "0100", "1000" and "1100" can pass.
  */
  lemma CrcCheckFixedFarBitsZero(input: BitString, poly: BitString, pad: BitString)
    requires Checkable(poly, pad) && CrcCheckFixed(input, poly, pad)
    ensures forall j :: |StripLeadingZeros(poly)| - 1 <= j < |pad| ==> pad[j] == '0'
  {
    var p, n := StripLeadingZeros(poly), |input|;
    var a := input + pad;
    var r := Reduce(a, n, p);
    assert r[n..] == Zeros(|pad|);
    ReduceKeepsFarTail(a, n, p);
    forall j | |p| - 1 <= j < |pad| ensures pad[j] == '0' {
      assert r[n..][j] == r[n + j];
      assert a[n + j] == pad[j];
    }
  }

  /** Under the corrected check a single corrupted CRC bit is always reported. */
  lemma CrcCheckFixedDetectsBitFlip(input: BitString, poly: BitString, pad: BitString, j: nat)
    requires Checkable(poly, pad) && j < |pad| && CrcCheckFixed(input, poly, pad)
    ensures !CrcCheckFixed(input, poly, pad[j := Flip(pad[j])])
  {
    assert pad[j := Flip(pad[j])][j] != pad[j];
  }
}
