/**
  The arithmetic layer of the Punycode codec: digits, generalized variable-length
  integers (section 3.3 of RFC 3492) and bias adaptation (section 6.1).

  `size_t` is taken to be 64 bits wide; the one place where the code narrows a value to
  `uint32_t` (the arguments of the bias adaptation) is modelled by `Low32`.
 */
module PunycodeVarInt {
  import opened Arithmetic
  import opened Wrappers

  const BASE: nat := 36
  const TMIN: nat := 1
  const TMAX: nat := 26
  const SKEW: nat := 38
  const DAMP: nat := 700
  const INITIAL_N: nat := 128
  const INITIAL_BIAS: nat := 72
  const UINT32_MOD: nat := 0x1_0000_0000

  type UInt32 = n: int | 0 <= n < 0x1_0000_0000

  /** The conversion of a `size_t` to `uint32_t`. */
  function Low32(n: nat): (r: UInt32)
    ensures n < UINT32_MOD ==> r == n
  {
    n % UINT32_MOD
  }

  // ---------------------------------------------------------------- digits

  function EncodeDigit(d: nat): char
    requires d < BASE
  {
    if d > 25 then '0' + (d - 26) as char else 'a' + d as char
  }

  function DecodeDigit(c: char): Option<nat>
  {
    if '0' <= c <= '9' then Some(26 + (c - '0') as nat)
    else if 'a' <= c <= 'z' then Some((c - 'a') as nat)
    else if 'A' <= c <= 'Z' then Some((c - 'A') as nat)
    else None
  }

  predicate IsDigitChar(c: char) {
    'a' <= c <= 'z' || '0' <= c <= '9'
  }

  lemma DigitRoundTrip(d: nat)
    requires d < BASE
    ensures IsDigitChar(EncodeDigit(d))
    ensures DecodeDigit(EncodeDigit(d)) == Some(d)
  {
  }

  lemma DigitCanonical(c: char)
    requires IsDigitChar(c)
    ensures DecodeDigit(c).Some? && DecodeDigit(c).value < BASE
    ensures EncodeDigit(DecodeDigit(c).value) == c
  {
  }

  lemma DecodedDigitBound(c: char)
    ensures DecodeDigit(c).Some? ==> DecodeDigit(c).value < BASE
  {
  }

  // ------------------------------------------------- variable-length integers

  function Threshold(k: nat, bias: nat): (t: nat)
    ensures TMIN <= t <= TMAX
  {
    if k <= bias then TMIN else if k >= bias + TMAX then TMAX else k - bias
  }

  /** `q` written with the digits of the positions `k`, `k + BASE`, ... */
  function VarInt(q: nat, k: nat, bias: nat): string
    decreases q
  {
    var t := Threshold(k, bias);
    if q < t then [EncodeDigit(q)]
    else
      DivModSplit(q - t, BASE - t);
      [EncodeDigit(t + Mod(q - t, BASE - t))] + VarInt(Div(q - t, BASE - t), k + BASE, bias)
  }

  datatype Reading =
    | Number(i: nat, next: nat)   // the new value of i, and the index of the first unread character
    | Stuck(next: nat)            // a character that is no digit, or an overflow guard

  /** The character at index `si`, the string being followed by its terminator. */
  function At(s: string, si: nat): char
    requires si <= |s|
  {
    if si < |s| then s[si] else '\0'
  }

  /** Reads one integer starting at `si`, adding it digit by digit to `i`. */
  function ReadVarInt(s: string, si: nat, i: nat, w: nat, k: nat, bias: nat): (r: Reading)
    requires si <= |s| && 0 < w && i <= SIZE_MAX
    ensures si < r.next <= |s| + 1
    ensures r.Number? ==> i <= r.i <= SIZE_MAX && r.next <= |s|
    decreases |s| - si
  {
    match DecodeDigit(At(s, si))
    case None => Stuck(si + 1)
    case Some(digit) =>
      if digit > Div(SIZE_MAX - i, w) then Stuck(si + 1)
      else
        DivAtMost(SIZE_MAX - i, w, digit);
        var i' := i + Mul(digit, w);
        var t := Threshold(k, bias);
        MulPositive(w, BASE - t);
        if digit < t then Number(i', si + 1)
        else if w > Div(SIZE_MAX, BASE - t) then Stuck(si + 1)
        else ReadVarInt(s, si + 1, i', Mul(w, BASE - t), k + BASE, bias)
  }

  /** Values up to this bound pass the decoder's guards in any position. */
  const SAFE_MAX: nat := SIZE_MAX / BASE

  lemma Recombine(digit: nat, rest: nat, m: nat, w: nat)
    ensures Mul(digit + Mul(rest, m), w) == Mul(digit, w) + Mul(rest, Mul(w, m))
  {
    MulAdd(digit, Mul(rest, m), w);
    MulAssociative(rest, m, w);
    MulCommutative(m, w);
  }

  /** What one digit of `VarInt` adds, and what is left for the digits after it. */
  lemma DigitSplit(q: nat, t: nat, w: nat) returns (digit: nat, rest: nat)
    requires TMIN <= t <= TMAX && t <= q
    ensures digit == t + Mod(q - t, BASE - t) && rest == Div(q - t, BASE - t)
    ensures t <= digit < BASE && rest < q
    ensures Mul(q, w) == Mul(digit, w) + Mul(rest, Mul(w, BASE - t))
  {
    digit, rest := t + Mod(q - t, BASE - t), Div(q - t, BASE - t);
    DivModSplit(q - t, BASE - t);
    Recombine(digit, rest, BASE - t, w);
  }

  /** The converse of `DigitSplit`: the integer that starts with this digit. */
  lemma DigitJoin(digit: nat, t: nat, rest: nat, w: nat) returns (q: nat)
    requires TMIN <= t <= TMAX && t <= digit < BASE
    ensures q >= t && t + Mod(q - t, BASE - t) == digit && Div(q - t, BASE - t) == rest
    ensures Mul(q, w) == Mul(digit, w) + Mul(rest, Mul(w, BASE - t))
  {
    q := digit + Mul(rest, BASE - t);
    DivModUnique(q - t, BASE - t, rest, digit - t);
    Recombine(digit, rest, BASE - t, w);
  }

  /** The decoder's inner loop undoes `encode_var_int` and stops exactly at its end, whatever follows;
      its overflow guards can fire only for sums above SAFE_MAX. */
  lemma {:induction false} ReadBack(s: string, si: nat, i: nat, w: nat, q: nat, k: nat, bias: nat)
    requires si <= |s| && VarInt(q, k, bias) <= s[si..]
    requires 0 < w && i <= SIZE_MAX
    ensures var r := ReadVarInt(s, si, i, w, k, bias);
            || r == Number(i + Mul(q, w), si + |VarInt(q, k, bias)|)
            || (r.Stuck? && i + Mul(q, w) > SAFE_MAX)
    decreases q
  {
    hide Mul, Div, Mod, Threshold, EncodeDigit, DecodeDigit;
    var t := Threshold(k, bias);
    var text := VarInt(q, k, bias);
    assert s[si] == s[si..][0] == text[0];
    if q < t {
      DigitRoundTrip(q);
      if i + Mul(q, w) <= SAFE_MAX { DivAtLeast(SIZE_MAX - i, w, q); }
    } else {
      var digit, rest := DigitSplit(q, t, w);
      DigitRoundTrip(digit);
      GuardsSilent(i, w, q, digit, BASE - t);
      assert text[1..] == VarInt(rest, k + BASE, bias);
      assert s[si + 1..] == s[si..][1..];
      if digit <= Div(SIZE_MAX - i, w) && w <= Div(SIZE_MAX, BASE - t) {
        DivAtMost(SIZE_MAX - i, w, digit);
        MulPositive(w, BASE - t);
        ReadBack(s, si + 1, i + Mul(digit, w), Mul(w, BASE - t), rest, k + BASE, bias);
      }
    }
  }

  lemma GuardsSilent(i: nat, w: nat, q: nat, digit: nat, m: nat)
    requires 0 < m < BASE && 0 < w && 0 < q && i <= SIZE_MAX && Mul(digit, w) <= Mul(q, w)
    ensures i + Mul(q, w) <= SAFE_MAX ==> digit <= Div(SIZE_MAX - i, w) && w <= Div(SIZE_MAX, m)
  {
    if i + Mul(q, w) <= SAFE_MAX {
      DivAtLeast(SIZE_MAX - i, w, digit);
      WeightFits(w, q, m);
    }
  }

  lemma WeightFits(w: nat, q: nat, m: nat)
    requires 0 < m < BASE && 0 < w && 0 < q && Mul(q, w) <= SAFE_MAX
    ensures w <= Div(SIZE_MAX, m) && 0 < Mul(w, m)
  {
    MulPositive(q, w);
    MulPositive(w, m);
    MulCommutative(w, m);
    MulMonotone(m, BASE, w);
    MulIs(BASE, w);
    DivAtLeast(SIZE_MAX, m, w);
  }

  // --------------------------------------------------------- uniqueness

  /** All of `s[from..to]` are digits as the encoder writes them. */
  ghost predicate DigitsOnly(s: string, from: nat, to: nat)
    requires from <= to <= |s|
  {
    forall j :: from <= j < to ==> IsDigitChar(s[j])
  }

  /** There is only one way to write an integer: what the decoder has read as a number is
      what `encode_var_int` writes for it. */
  lemma {:induction false} WriteBack(s: string, si: nat, i: nat, w: nat, k: nat, bias: nat) returns (q: nat)
    requires si <= |s| && 0 < w && i <= SIZE_MAX
    requires ReadVarInt(s, si, i, w, k, bias).Number?
    requires DigitsOnly(s, si, ReadVarInt(s, si, i, w, k, bias).next)
    ensures ReadVarInt(s, si, i, w, k, bias).i == i + Mul(q, w)
    ensures VarInt(q, k, bias) == s[si..ReadVarInt(s, si, i, w, k, bias).next]
    decreases |s| - si
  {
    hide Mul, Div, Mod;
    var r := ReadVarInt(s, si, i, w, k, bias);
    var digit := DecodeDigit(s[si]).value;
    var t := Threshold(k, bias);
    DigitCanonical(s[si]);
    if digit < t {
      q := digit;
      assert s[si..r.next] == [s[si]];
    } else {
      DivAtMost(SIZE_MAX - i, w, digit);
      MulPositive(w, BASE - t);
      var rest := WriteBack(s, si + 1, i + Mul(digit, w), Mul(w, BASE - t), k + BASE, bias);
      q := DigitJoin(digit, t, rest, w);
      assert s[si..r.next] == [s[si]] + s[si + 1..r.next];
    }
  }

  lemma {:induction false} VarIntDigits(q: nat, k: nat, bias: nat)
    ensures |VarInt(q, k, bias)| > 0
    ensures DigitsOnly(VarInt(q, k, bias), 0, |VarInt(q, k, bias)|)
    decreases q
  {
    var t := Threshold(k, bias);
    if q < t {
      DigitRoundTrip(q);
    } else {
      var digit, rest := DigitSplit(q, t, 1);
      DigitRoundTrip(digit);
      VarIntDigits(rest, k + BASE, bias);
    }
  }

  // --------------------------------------------------------- bias adaptation

  /** The loop of `adapt_bias`: divides until the delta is small, counting in steps of BASE. */
  function ScaleDown(delta: nat, k: nat): (nat, nat)
    decreases delta
  {
    if delta > (BASE - TMIN) * TMAX / 2 then ScaleDown(delta / (BASE - TMIN), k + BASE) else (delta, k)
  }

  function AdaptBias(delta: UInt32, points: UInt32, first: bool): nat
    requires 0 < points
  {
    var d := delta / if first then DAMP else 2;
    var (scaled, k) := ScaleDown(d + Div(d, points), 0);
    k + Div((BASE - TMIN + 1) * scaled, scaled + SKEW)
  }

  lemma {:induction false} ScaleDownBound(delta: nat, k: nat, steps: nat)
    requires steps <= 5 && delta < 456 * [1, 35, 1225, 42875, 1500625, 52521875][steps]
    ensures var (scaled, k') := ScaleDown(delta, k); scaled <= 455 && k <= k' <= k + BASE * steps
  {
    if delta > 455 {
      ScaleDownBound(delta / 35, k + BASE, steps - 1);
    }
  }

  /** No intermediate value of `adapt_bias` leaves 32 bits, and the bias stays below 216. */
  lemma AdaptBiasRange(delta: UInt32, points: UInt32, first: bool)
    requires 0 < points
    ensures var d := delta / if first then DAMP else 2;
            var (scaled, k) := ScaleDown(d + Div(d, points), 0);
            && d + Div(d, points) < UINT32_MOD
            && k <= 180 && scaled + SKEW < UINT32_MOD && (BASE - TMIN + 1) * scaled < UINT32_MOD
    ensures AdaptBias(delta, points, first) < 216
  {
    var d := delta / if first then DAMP else 2;
    DivModSplit(d, points);
    ScaleDownBound(d + Div(d, points), 0, 5);
    var (scaled, k) := ScaleDown(d + Div(d, points), 0);
    QuotientBelow((BASE - TMIN + 1) * scaled, scaled + SKEW, BASE);
  }

  lemma QuotientBelow(x: nat, m: nat, a: nat)
    requires 0 < m && x < a * m
    ensures Div(x, m) < a
  {
    MulIs(a, m);
    DivModSplit(x, m);
    if Div(x, m) >= a { MulMonotone(a, Div(x, m), m); }
  }
}
