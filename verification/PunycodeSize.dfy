/**
  The buffer that the domain encoder allocates, four times the UTF-8 length of the label, is
  never too small.  A single delta may need arbitrarily many digits; but more than seven digits
  need a delta of at least LONG_DELTA, and all deltas of a label together are bounded by the
  number of insertion points below UNICODE_LIMIT.
 */
module PunycodeSize {
  import opened Arithmetic
  import opened PunycodeVarInt
  import opened PunycodeSpec
  import opened PunycodeRoundTrip

  /** Integers below this bound take at most `digits` digits, whatever the bias. */
  function DigitBound(digits: nat): nat
    requires 1 <= digits
  {
    if digits == 1 then 1 else 10 * DigitBound(digits - 1) + 26
  }

  const LONG_DELTA: nat := 3_888_886

  lemma QuotientBound(q: nat, t: nat, b: nat)
    requires TMIN <= t <= TMAX && t <= q && 1 <= b
    ensures q < 10 * b + 26 ==> Div(q - t, BASE - t) < b
    ensures 10 * Div(q - t, BASE - t) <= q
  {
    hide Mul, Div, Mod;
    var rest := Div(q - t, BASE - t);
    DivModSplit(q - t, BASE - t);
    MulAddRight(rest, 10, TMAX - t);
    MulIs(rest, 10);
    if rest >= b {
      MulMonotone(b, rest, TMAX - t);
      MulMonotone(1, b, TMAX - t);
      MulOne(TMAX - t);
    }
  }

  lemma {:induction false} ShortVarInt(q: nat, k: nat, bias: nat, digits: nat)
    requires 1 <= digits && q < DigitBound(digits)
    ensures |VarInt(q, k, bias)| <= digits
    decreases digits
  {
    hide Div, Mod;
    var t := Threshold(k, bias);
    if q >= t {
      QuotientBound(q, t, DigitBound(digits - 1));
      ShortVarInt(Div(q - t, BASE - t), k + BASE, bias, digits - 1);
    }
  }

  /** Every digit beyond the seventh is paid for by LONG_DELTA units of the integer. */
  lemma {:induction false} VarIntLength(q: nat, k: nat, bias: nat)
    ensures LONG_DELTA * |VarInt(q, k, bias)| <= 7 * LONG_DELTA + q
    decreases q
  {
    hide Div, Mod;
    if q < DigitBound(7) {
      ShortVarInt(q, k, bias, 7);
    } else if q < DigitBound(8) {
      ShortVarInt(q, k, bias, 8);
    } else {
      var t := Threshold(k, bias);
      QuotientBound(q, t, 1);
      VarIntLength(Div(q - t, BASE - t), k + BASE, bias);
    }
  }

  /** The way left for the deltas of a label: from the sweep for `n` to the last code point. */
  function WayLeft(src: Label, n: nat): nat
    requires n <= UNICODE_LIMIT
  {
    Mul(UNICODE_LIMIT - n, |src|)
  }

  lemma WayShrinks(src: Label, n: nat, m: nat, h: nat)
    requires n <= m <= UNICODE_LIMIT && h < |src|
    ensures Mul(m - n, h + 1) + WayLeft(src, m) <= WayLeft(src, n)
  {
    hide Mul;
    MulAdd(m - n, UNICODE_LIMIT - m, |src|);
    MulCommutative(m - n, h + 1);
    MulMonotone(h + 1, |src|, m - n);
    MulCommutative(m - n, |src|);
  }

  lemma HandledStep(src: CodePoints, n: nat, p: nat)
    requires p < |src|
    ensures |Handled(src, n, p + 1)| == |Handled(src, n, p)| + (if src[p] == n then 1 else 0)
    ensures |Below(src[p..], n)| == |Below(src[p + 1..], n)| + (if src[p] < n then 1 else 0)
  {
    CountStep(src, n, p);
  }

  lemma {:induction false} SweepLength(src: Label, n: nat, p: nat, delta: nat, bias: nat)
    requires p <= |src| && n < UNICODE_LIMIT && AllBelow(src, UNICODE_LIMIT)
    ensures LONG_DELTA * |Sweep(src, n, p, delta, bias)|
         <= 7 * LONG_DELTA * (|src| - |Handled(src, n, p)|) + delta + WayLeft(src, n) + |Below(src[p..], n)|
    decreases |src| - |Below(src, n + 1)|, |src| - p + 2
  {
    hide Mul, VarInt;
    if p == |src| {
      WrapLength(src, n, delta, bias);
    } else {
      HandledStep(src, n, p);
      hide Handled, Below, WayLeft;
      if src[p] == n {
        VarIntLength(delta, BASE, bias);
        SweepLength(src, n, p + 1, 0, NewBias(src, n, p, delta));
      } else {
        SweepLength(src, n, p + 1, if src[p] < n then delta + 1 else delta, bias);
      }
    }
  }

  lemma {:induction false} WrapLength(src: Label, n: nat, delta: nat, bias: nat)
    requires n < UNICODE_LIMIT && AllBelow(src, UNICODE_LIMIT)
    ensures LONG_DELTA * |Sweep(src, n, |src|, delta, bias)|
         <= 7 * LONG_DELTA * (|src| - |Handled(src, n, |src|)|) + delta + WayLeft(src, n)
    decreases |src| - |Below(src, n + 1)|, 1
  {
    hide Mul, VarInt;
    assert src[..|src|] == src && src[|src|..] == [];
    var h := |Below(src, n + 1)|;
    assert Handled(src, n, |src|) == Below(src, n + 1);
    if h < |src| {
      NextSweepLength(src, n + 1, delta + 1, bias);
      WayShrinks(src, n, n + 1, h);
      MulOne(h + 1);
    }
  }

  lemma {:induction false} NextSweepLength(src: Label, n: nat, delta: nat, bias: nat)
    requires AllBelow(src, UNICODE_LIMIT) && n <= UNICODE_LIMIT
    ensures LONG_DELTA * |NextSweep(src, n, delta, bias)|
         <= 7 * LONG_DELTA * (|src| - |Below(src, n)|) + delta + WayLeft(src, n) + |Below(src, n)|
    decreases |src| - |Below(src, n)|, 0
  {
    hide Mul, VarInt, WayLeft, Handled, Below, Sweep;
    var h := |Below(src, n)|;
    if h < |src| {
      var m := MinFrom(src, n);
      NextPoint(src, n);
      SweepStart(src, m);
      assert src[0..] == src;
      SweepLength(src, m, 0, delta + Mul(m - n, h + 1), bias);
      WayShrinks(src, n, m, h);
    }
  }

  /** Every code point costs at least one character. */
  lemma {:induction false} SweepAtLeast(src: Label, n: nat, p: nat, delta: nat, bias: nat)
    requires p <= |src|
    ensures |Sweep(src, n, p, delta, bias)| >= |src| - |Handled(src, n, p)|
    decreases |src| - |Below(src, n + 1)|, |src| - p + 1
  {
    hide Mul, VarInt, AdaptBias;
    if p == |src| {
      assert src[..|src|] == src && src[|src|..] == [];
      NextSweepAtLeast(src, n + 1, delta + 1, bias);
    } else {
      HandledStep(src, n, p);
      hide Handled, Below;
      VarIntDigits(delta, BASE, bias);
      if src[p] == n {
        SweepAtLeast(src, n, p + 1, 0, NewBias(src, n, p, delta));
      } else {
        SweepAtLeast(src, n, p + 1, if src[p] < n then delta + 1 else delta, bias);
      }
    }
  }

  lemma {:induction false} NextSweepAtLeast(src: Label, n: nat, delta: nat, bias: nat)
    ensures |NextSweep(src, n, delta, bias)| >= |src| - |Below(src, n)|
    decreases |src| - |Below(src, n)|, 0
  {
    hide Mul, Handled, Below, Sweep;
    var h := |Below(src, n)|;
    if h < |src| {
      var m := MinFrom(src, n);
      NextPoint(src, n);
      SweepStart(src, m);
      SweepAtLeast(src, m, 0, delta + Mul(m - n, h + 1), bias);
    }
  }

  lemma EncodeAtLeast(src: Label)
    ensures |Encode(src)| >= |src|
  {
    hide NextSweep, Below, Basics;
    NextSweepAtLeast(src, INITIAL_N, 0, INITIAL_BIAS);
    PointsOfBasics(src);
  }

  // ------------------------------------------------------------ UTF-8 lengths

  function Utf8Length(src: CodePoints): nat
  {
    if src == [] then 0 else Utf8Bytes(src[0]) + Utf8Length(src[1..])
  }

  function Utf8Bytes(c: UInt32): nat {
    if c < 0x80 then 1 else if c < 0x800 then 2 else if c < 0x1_0000 then 3 else 4
  }

  lemma {:induction false} Utf8AtLeast(src: CodePoints)
    ensures Utf8Length(src) >= 2 * |src| - |Below(src, INITIAL_N)|
  {
    if src != [] {
      Utf8AtLeast(src[1..]);
    }
  }

  /** No label is ever truncated by the buffer of the domain encoder. */
  lemma BufferSuffices(src: Label)
    requires AllBelow(src, UNICODE_LIMIT)
    ensures |Encode(src)| <= 4 * Utf8Length(src)
  {
    hide NextSweep, Utf8Length, Below, Mul;
    NextSweepLength(src, INITIAL_N, 0, INITIAL_BIAS);
    NextSweepNonempty(src, INITIAL_N, 0, INITIAL_BIAS);
    Utf8AtLeast(src);
    PointsOfBasics(src);
    MulIs(UNICODE_LIMIT - INITIAL_N, |src|);
  }

  lemma {:induction false} Utf8AtMost(src: CodePoints)
    ensures Utf8Length(src) <= 4 * |src|
  {
    if src != [] {
      Utf8AtMost(src[1..]);
    }
  }
}
