/**
  The C functions of libs/punycode/punycode.c, writing into the caller's buffer through cursors,
  proved to compute the functions of `PunycodeSpec`.  `*dstlen` is the length of the buffer on
  entry and the out-parameter `written` on return; `goto fail` is an early return.
 */
module PunycodeCodec {
  import opened Arithmetic
  import opened PunycodeVarInt
  import opened PunycodeSpec
  import opened PunycodeRoundTrip
  import opened PunycodeSize
  import opened Sequences

  method AdaptedBias(delta0: UInt32, points: UInt32, first: bool) returns (bias: nat)
    requires 0 < points
    ensures bias == AdaptBias(delta0, points, first) < 216
  {
    AdaptBiasRange(delta0, points, first);
    var delta := delta0 / if first then DAMP else 2;
    DivModIs(delta, points);
    delta := delta + delta / points;
    var k: nat := 0;
    while delta > (BASE - TMIN) * TMAX / 2
      invariant 0 <= delta < UINT32_MOD
      invariant ScaleDown(delta, k) == ScaleDown(delta0 / (if first then DAMP else 2)
                                                 + Div(delta0 / (if first then DAMP else 2), points), 0)
    {
      delta, k := delta / (BASE - TMIN), k + BASE;
    }
    DivModIs((BASE - TMIN + 1) * delta, delta + SKEW);
    bias := k + (BASE - TMIN + 1) * delta / (delta + SKEW);
  }

  lemma VarIntStep(q: nat, k: nat, bias: nat)
    ensures var t := Threshold(k, bias);
            && (q < t ==> VarInt(q, k, bias) == [EncodeDigit(q)])
            && (q >= t ==>
                && t <= t + (q - t) % (BASE - t) < BASE
                && 0 <= (q - t) / (BASE - t) < q
                && VarInt(q, k, bias)
                == [EncodeDigit(t + (q - t) % (BASE - t))] + VarInt((q - t) / (BASE - t), k + BASE, bias))
  {
    hide Div, Mod, Mul;
    var t := Threshold(k, bias);
    if q >= t {
      DivModIs(q - t, BASE - t);
      DivModSplit(q - t, BASE - t);
    }
  }

  /** `encode_var_int`, writing at `dst + at` with `*dstlen - at` characters of room. */
  method EncodeVarInt(bias: nat, delta: nat, dst: array<char>, at: nat) returns (i: nat)
    requires at <= dst.Length
    modifies dst
    ensures i == Min(|VarInt(delta, BASE, bias)|, dst.Length - at)
    ensures dst[at..at + i] == VarInt(delta, BASE, bias)[..i]
    ensures dst[..at] == old(dst[..at]) && dst[at + i..] == old(dst[at + i..])
  {
    hide VarInt;
    i := 0;
    var k: nat, q: nat, t: nat := BASE, delta, 0;
    ghost var text := VarInt(delta, BASE, bias);
    VarIntDigits(q, k, bias);
    while i < dst.Length - at
      invariant i <= dst.Length - at && i < |text|
      invariant VarInt(q, k, bias) == text[i..]
      invariant forall j :: 0 <= j < i ==> dst[at + j] == text[j]
      invariant forall j :: 0 <= j < at || at + i <= j < dst.Length ==> dst[j] == old(dst[j])
    {
      VarIntStep(q, k, bias);
      if k <= bias {
        t := TMIN;
      } else if k >= bias + TMAX {
        t := TMAX;
      } else {
        t := k - bias;
      }
      if q < t {
        break;
      }
      dst[at + i] := EncodeDigit(t + (q - t) % (BASE - t));
      assert text[i..][1..] == text[i + 1..] && text[i] == text[i..][0];
      i := i + 1;
      q := (q - t) / (BASE - t);
      k := k + BASE;
      VarIntDigits(q, k, bias);
    }
    if i < dst.Length - at {
      assert |text[i..]| == 1 && text[i] == text[i..][0];
      dst[at + i] := EncodeDigit(q);
      i := i + 1;
    }
  }

  // ------------------------------------------------------------ punycode_encode

  /** `dst[..di]` holds what fits of `full`, and the rest of the buffer is untouched. */
  ghost predicate Written(dst: seq<char>, was: seq<char>, di: nat, full: string) {
    && |dst| == |was|
    && di == Min(|full|, |dst|)
    && dst[..di] == full[..di]
    && dst[di..] == was[di..]
  }

  lemma WrittenMore(dst: seq<char>, dst': seq<char>, was: seq<char>, di: nat, full: string, more: string, i: nat)
    requires Written(dst, was, di, full) && |dst'| == |dst|
    requires i == Min(|more|, |dst| - di)
    requires dst'[..di] == dst[..di] && dst'[di..di + i] == more[..i] && dst'[di + i..] == dst[di + i..]
    ensures Written(dst', was, di + i, full + more)
  {
    assert dst'[..di + i] == dst'[..di] + dst'[di..di + i];
    assert dst[di + i..] == dst[di..][i..] && was[di + i..] == was[di..][i..];
    if |full| >= |dst| {
      assert (full + more)[..di + i] == full[..di];
    } else {
      assert (full + more)[..di + i] == full + more[..i];
    }
  }

  /** The delta never exceeds the number of the point that the sweep has reached, which fits
      into a `size_t` with room to spare; this is why no overflow guard of the encoder fires. */
  lemma PointFits(n: nat, h: nat, i: nat)
    requires n <= UINT32_MOD && h < MAX_POINTS && i <= h
    ensures Point(n, h, i) < SIZE_MAX
  {
    MulMonotone(n, UINT32_MOD, h + 1);
    MulIs(UINT32_MOD, h + 1);
  }

  lemma JumpFits(n: nat, m: nat, h: nat, delta: nat)
    requires n <= m < UINT32_MOD && h < MAX_POINTS && delta <= Point(n, h, 0)
    ensures (m - n) * (h + 1) == Mul(m - n, h + 1)
    ensures delta + Mul(m - n, h + 1) <= Point(m, h, 0) < SIZE_MAX
    ensures m - n <= (SIZE_MAX - delta) / (h + 1)
  {
    MulIs(m - n, h + 1);
    PointJump(n, m, h);
    PointFits(m, h, 0);
    DivModIs(SIZE_MAX - delta, h + 1);
    DivAtLeast(SIZE_MAX - delta, h + 1, m - n);
  }

  lemma BasicsStep(src: CodePoints, si: nat)
    requires si < |src|
    ensures Basics(src[..si + 1]) == Basics(src[..si]) + (if src[si] < 128 then [src[si] as char] else "")
  {
    assert src[..si + 1] == src[..si] + [src[si]];
    BelowConcat(src[..si], [src[si]], INITIAL_N);
    BelowIsBelow(src[..si], INITIAL_N);
    BelowIsBelow(src[..si + 1], INITIAL_N);
  }

  lemma BasicsPrefix(src: CodePoints, si: nat)
    requires si <= |src|
    ensures |Basics(src[..si])| <= |Basics(src)|
    ensures Basics(src)[..|Basics(src[..si])|] == Basics(src[..si])
  {
    BelowSplit(src, si, INITIAL_N);
    BelowIsBelow(src[..si], INITIAL_N);
    BelowIsBelow(src, INITIAL_N);
  }

  /** The first loop: basic code points are copied as far as there is room. */
  method CopyBasics(src: Label, dst: array<char>) returns (si: nat, di: nat)
    modifies dst
    ensures si <= |src| && di <= dst.Length && (di < dst.Length ==> si == |src|)
    ensures di == |Basics(src[..si])| && (di == dst.Length && si > 0 ==> src[si - 1] < 128)
    ensures Written(dst[..], old(dst[..]), di, Basics(src))
  {
    si, di := 0, 0;
    while si < |src| && di < dst.Length
      invariant si <= |src| && di == |Basics(src[..si])| <= dst.Length
      invariant di == dst.Length && si > 0 ==> src[si - 1] < 128
      invariant dst[..di] == Basics(src[..si]) && dst[di..] == old(dst[di..])
      decreases |src| - si
    {
      BasicsStep(src, si);
      hide Basics;
      if src[si] < 128 {
        dst[di] := src[si] as char;
        di := di + 1;
      }
      si := si + 1;
    }
    BasicsPrefix(src, si);
    assert src[..|src|] == src;
  }

  /** The search for the next smallest non-basic code point. */
  method FindNext(src: Label, n: nat) returns (m: nat)
    ensures m == MinFrom(src, n)
  {
    m := SIZE_MAX;
    var si := 0;
    while si < |src|
      invariant si <= |src| && m == MinFrom(src[..si], n)
    {
      assert src[..si + 1][..si] == src[..si];
      if src[si] >= n && src[si] < m {
        m := src[si];
      }
      si := si + 1;
    }
    assert src[..|src|] == src;
  }

  /** One sweep over the source; `full` is what an unbounded buffer would hold. */
  method SweepOnce(src: Label, n: nat, delta0: nat, bias0: nat, h0: nat, b: nat, dst: array<char>, di0: nat,
                   ghost was: seq<char>, ghost full0: string)
    returns (delta: nat, bias: nat, h: nat, di: nat, ghost full: string)
    requires n < UINT32_MOD && INITIAL_N <= n
    requires h0 == |Below(src, n)| && b == |Below(src, INITIAL_N)|
    requires delta0 <= Point(n, h0, 0)
    requires Written(dst[..], was, di0, full0) && di0 <= dst.Length
    modifies dst
    ensures Written(dst[..], was, di, full) && di <= dst.Length
    ensures h == |Below(src, n + 1)| && delta <= Point(n, h, h)
    ensures full0 + Sweep(src, n, 0, delta0, bias0) == full + NextSweep(src, n + 1, delta + 1, bias)
  {
    hide Sweep, NextSweep, Below, Handled, Seen, Point, Written, Mul, VarInt, AdaptBias, Low32, Div, ScaleDown;
    delta, bias, h, di, full := delta0, bias0, h0, di0, full0;
    SweepStart(src, n);
    var si := 0;
    while si < |src|
      invariant si <= |src| && h == |Handled(src, n, si)|
      invariant delta <= Point(n, h, Seen(src, n, si))
      invariant Written(dst[..], was, di, full) && di <= dst.Length
      invariant full0 + Sweep(src, n, 0, delta0, bias0) == full + Sweep(src, n, si, delta, bias)
    {
      ghost var before := dst[..];
      SweepCases(src, n, si, delta, bias);
      HandledBound(src, n, si + 1);
      PointFits(n, h, Seen(src, n, si));
      PointSucc(n, h, Seen(src, n, si));
      if src[si] < n {
        assert delta < SIZE_MAX;   // ++delta does not wrap
        delta := delta + 1;
      } else if src[si] == n {
        var i := EncodeVarInt(bias, delta, dst, di);
        ghost var text := VarInt(delta, BASE, bias);
        WrittenMore(before, dst[..], was, di, full, text, i);
        di := di + i;
        bias := AdaptedBias(Low32(delta), Low32(h + 1), h == b);
        Associative(full, text, Sweep(src, n, si + 1, 0, bias));
        full := full + text;
        delta := 0;
        h := h + 1;
      }
      si := si + 1;
    }
    SweepEnd(src, n);
    SweepFinished(src, n, delta, bias);
  }

  lemma SweepCases(src: Label, n: nat, p: nat, delta: nat, bias: nat)
    requires p < |src|
    ensures |Handled(src, n, p + 1)| == |Handled(src, n, p)| + (if src[p] == n then 1 else 0)
    ensures Seen(src, n, p + 1) == Seen(src, n, p) + (if src[p] <= n then 1 else 0)
    ensures Seen(src, n, p) <= |Handled(src, n, p)|
    ensures Sweep(src, n, p, delta, bias)
         == if src[p] == n
            then VarInt(delta, BASE, bias)
               + Sweep(src, n, p + 1, 0, AdaptBias(Low32(delta), Low32(|Handled(src, n, p)| + 1),
                                                   |Handled(src, n, p)| == |Below(src, INITIAL_N)|))
            else Sweep(src, n, p + 1, if src[p] < n then delta + 1 else delta, bias)
  {
    CountStep(src, n, p);
  }

  lemma SweepFinished(src: Label, n: nat, delta: nat, bias: nat)
    ensures Sweep(src, n, |src|, delta, bias) == NextSweep(src, n + 1, delta + 1, bias)
  {
  }

  /** The delimiter belongs to the output unless there are only basic code points, or none. */
  function Delim(src: CodePoints): string {
    if Basics(src) != "" && |Basics(src)| < |src| then "-" else ""
  }

  /** The main loop; it is entered with `h == b`. */
  method Sweeps(src: Label, b: nat, dst: array<char>, di0: nat, ghost was: seq<char>, ghost full0: string)
    returns (di: nat)
    requires Written(dst[..], was, di0, full0) && di0 <= dst.Length
    requires di0 < dst.Length ==> b == |Below(src, INITIAL_N)|
    modifies dst
    ensures di == Min(|full0 + NextSweep(src, INITIAL_N, 0, INITIAL_BIAS)|, dst.Length)
    ensures dst[..di] == (full0 + NextSweep(src, INITIAL_N, 0, INITIAL_BIAS))[..di]
    ensures dst.Length == |was| && dst[di..] == was[di..]
  {
    hide NextSweep, Sweep, Below, Point, Mul, MinFrom, Written;
    di := di0;
    var h := b;
    ghost var full, whole := full0, full0 + NextSweep(src, INITIAL_N, 0, INITIAL_BIAS);
    var n: nat, bias: nat, delta: nat := INITIAL_N, INITIAL_BIAS, 0;
    while h < |src| && di < dst.Length
      invariant INITIAL_N <= n <= UINT32_MOD && 0 <= di <= dst.Length
      invariant Written(dst[..], was, di, full)
      invariant whole == full + NextSweep(src, n, delta, bias)
      invariant delta <= Point(n, h, 0)
      invariant di < dst.Length ==> h == |Below(src, n)| && b == |Below(src, INITIAL_N)|
      decreases |src| - h
    {
      var m := FindNext(src, n);
      NextPoint(src, n);
      JumpFits(n, m, h, delta);
      if m - n > (SIZE_MAX - delta) / (h + 1) {
        assert false;   // OVERFLOW
      }
      NextSweepUnfold(src, n, delta, bias);
      delta := delta + (m - n) * (h + 1);
      n := m;
      delta, bias, h, di, full := SweepOnce(src, n, delta, bias, h, b, dst, di, was, full);
      PointWrap(n, h);
      n, delta := n + 1, delta + 1;
    }
    NextSweepNonempty(src, n, delta, bias);
    WrittenAll(dst[..], was, di, full, NextSweep(src, n, delta, bias));
  }

  /** What the encoder returns for a buffer of `room` characters: the whole length if the first loop
      has seen the whole source with room left, otherwise the length up to the basic code point that
      filled the buffer.  What the sweeps have written plays no role. */
  ghost predicate CountReturned(src: CodePoints, room: nat, converted: nat) {
    && converted <= |src|
    && if |Basics(src)| < room then converted == |src|
       else |Basics(src[..converted])| == room && (converted > 0 ==> src[converted - 1] < INITIAL_N)
  }

  method PunycodeEncode(src: Label, dst: array<char>) returns (converted: nat, written: nat)
    modifies dst
    ensures written == Min(|Encode(src)|, dst.Length)
    ensures dst[..written] == Encode(src)[..written]
    ensures dst[written..] == old(dst[written..])
    ensures CountReturned(src, dst.Length, converted)
  {
    hide NextSweep, Below, Basics;
    ghost var was := dst[..];
    BasicsCount(src);
    var si, di := CopyBasics(src, dst);
    var b := di;
    ghost var full, before := Basics(src), dst[..];
    assert src[..|src|] == src;

    if di > 0 && di < dst.Length {
      if di == |src| {
        NextSweepNonempty(src, INITIAL_N, 0, INITIAL_BIAS);
        return si, di;
      }
      dst[di] := '-';
      WrittenMore(before, dst[..], was, di, full, "-", 1);
      di := di + 1;
    }
    assert Written(dst[..], was, di, full + Delim(src));
    hide Written;
    di := Sweeps(src, b, dst, di, was, full + Delim(src));
    return si, di;
  }

  /** The documented meaning of the returned count: either the whole source is converted and its
      encoding is complete, or the code points counted are basic and are all that was written. */
  ghost predicate CountRight(src: Label, converted: nat, written: nat)
    requires converted <= |src|
  {
    || (converted == |src| && written == |Encode(src)|)
    || (AllBelow(src[..converted], INITIAL_N) && written == converted)
  }

  lemma BasicsAll(s: CodePoints)
    ensures |Basics(s)| <= |s| && (|Basics(s)| == |s| <==> AllBelow(s, INITIAL_N))
  {
    BasicsCount(s);
    BelowAll(s, INITIAL_N);
  }

  /** The count is right exactly if the whole encoding fits, or the buffer is filled by basic code
      points from the start of the source. */
  lemma CountRightExactly(src: Label, room: nat, converted: nat)
    requires CountReturned(src, room, converted)
    ensures CountRight(src, converted, Min(|Encode(src)|, room))
       <==> |Encode(src)| <= room || (room <= |src| && AllBelow(src[..room], INITIAL_N))
  {
    hide Basics, Encode;
    BasicsAll(src);
    BasicsAll(src[..converted]);
    EncodeAtLeast(src);
    assert src[..|src|] == src;
    if room <= |src| && AllBelow(src[..room], INITIAL_N) {
      BasicsAll(src[..room]);
      BasicsPrefix(src, room);
      if converted > room { FilledEarlier(src, room, converted); }
    }
  }

  lemma FilledEarlier(src: CodePoints, room: nat, converted: nat)
    requires room < converted <= |src| && src[converted - 1] < INITIAL_N
    ensures |Basics(src[..room])| < |Basics(src[..converted])|
  {
    BasicsStep(src, converted - 1);
    BasicsPrefix(src[..converted - 1], room);
    assert src[..converted - 1][..room] == src[..room];
  }

  /** "a" and U+00FC with room for two characters: both are counted, but only "a-" is written. */
  lemma CutOffIsCounted()
    ensures forall converted: nat :: CountReturned([0x61, 0xFC], 2, converted) <==> converted == 2
    ensures !CountRight([0x61, 0xFC], 2, Min(|Encode([0x61, 0xFC])|, 2))
  {
    hide NextSweep;
    var src: Label := [0x61, 0xFC];
    BasicsOfTwo(0x61, 0xFC);
    NextSweepNonempty(src, INITIAL_N, 0, INITIAL_BIAS);
    assert Encode(src) == Basics(src) + "-" + NextSweep(src, INITIAL_N, 0, INITIAL_BIAS);
    hide Basics, Encode;
    CountRightExactly(src, 2, 2);
    assert src[..2][1] == 0xFC;
  }

  /** U+00FC and "a" with room for one character: both are counted, but only "a" is written. */
  lemma PassedOverIsCounted()
    ensures forall converted: nat :: CountReturned([0xFC, 0x61], 1, converted) <==> converted == 2
    ensures !CountRight([0xFC, 0x61], 2, Min(|Encode([0xFC, 0x61])|, 1))
  {
    var src: Label := [0xFC, 0x61];
    BasicsOfTwo(0xFC, 0x61);
    hide Basics, Encode;
    CountRightExactly(src, 1, 2);
    EncodeAtLeast(src);
    assert src[..1][0] == 0xFC;
  }

  lemma BasicsOfTwo(a: UInt32, b: UInt32)
    ensures |Basics([a, b])| == (if a < INITIAL_N then 1 else 0) + (if b < INITIAL_N then 1 else 0)
    ensures [a, b][..0] == [] && [a, b][..1] == [a] && [a, b][..2] == [a, b]
    ensures |Basics([a])| == (if a < INITIAL_N then 1 else 0) && Basics([]) == ""
    ensures |Below([a, b], INITIAL_N)| == |Basics([a, b])|
  {
    BasicsStep([a, b], 0);
    BasicsStep([a, b], 1);
    BasicsCount([a, b]);
    assert [a, b][..0] == [] && [a, b][..1] == [a] && [a, b][..2] == [a, b];
    assert Below([], INITIAL_N) == [];
  }

  lemma WrittenAll(dst: seq<char>, was: seq<char>, di: nat, full: string, more: string)
    requires Written(dst, was, di, full) && (di == |dst| || more == "")
    ensures di == Min(|full + more|, |dst|) && di <= |dst| == |was|
    ensures dst[..di] == (full + more)[..di] && dst[di..] == was[di..]
  {
    if more == "" { assert full + more == full; }
  }

  lemma NextSweepUnfold(src: Label, n: nat, delta: nat, bias: nat)
    requires |Below(src, n)| < |src|
    ensures MinFrom(src, n) >= n
    ensures NextSweep(src, n, delta, bias)
         == Sweep(src, MinFrom(src, n), 0, delta + Mul(MinFrom(src, n) - n, |Below(src, n)| + 1), bias)
  {
    hide Below, Mul, MinFrom, Sweep;
    NextPoint(src, n);
  }

  // ------------------------------------------------------------ punycode_decode

  /** The decoder's inner loop: one variable-length integer, added to `i0`. */
  method ReadDelta(src: string, si0: nat, i0: nat, bias: nat) returns (ok: bool, i: nat, si: nat)
    requires si0 <= |src| && i0 <= SIZE_MAX
    ensures ReadVarInt(src, si0, i0, 1, BASE, bias) == if ok then Number(i, si) else Stuck(si)
  {
    hide Div, Mod, Mul;
    si, i := si0, i0;
    var w: nat, k: nat, t: nat := 1, BASE, 0;
    while true
      invariant si <= |src| && 0 < w && i <= SIZE_MAX
      invariant ReadVarInt(src, si0, i0, 1, BASE, bias) == ReadVarInt(src, si, i, w, k, bias)
      decreases |src| - si
    {
      var decoded := DecodeDigit(At(src, si));
      si := si + 1;
      if decoded.None? {
        return false, i, si;
      }
      var digit := decoded.value;
      DivModIs(SIZE_MAX - i, w);
      MulIs(digit, w);
      if digit > (SIZE_MAX - i) / w {
        return false, i, si;   // OVERFLOW
      }
      DivAtMost(SIZE_MAX - i, w, digit);
      i := i + digit * w;
      if k <= bias {
        t := TMIN;
      } else if k >= bias + TMAX {
        t := TMAX;
      } else {
        t := k - bias;
      }
      if digit < t {
        break;
      }
      DivModIs(SIZE_MAX, BASE - t);
      MulIs(w, BASE - t);
      MulPositive(w, BASE - t);
      if w > SIZE_MAX / (BASE - t) {
        return false, i, si;   // OVERFLOW
      }
      w := w * (BASE - t);
      k := k + BASE;
    }
    return true, i, si;
  }

  /** `memmove(dst + at + 1, dst + at, di - at)`, then `dst[at] = c`. */
  method Insert(dst: array<UInt32>, di: nat, at: nat, c: UInt32)
    requires at <= di < dst.Length
    modifies dst
    ensures dst[..di + 1] == InsertAt(old(dst[..di]), at, c)
    ensures forall j :: di < j < dst.Length ==> dst[j] == old(dst[j])
  {
    forall j | at < j <= di {
      dst[j] := dst[j - 1];
    }
    dst[at] := c;
  }

  /** The reverse search for the last delimiter; index 0 is not looked at.  For an empty source the
      pointer starts in front of the string, and its distance to it is `SIZE_MAX`. */
  method FindDelimiter(src: string) returns (b: nat)
    ensures b == DelimiterIndex(src)
  {
    var p: int := |src| - 1;
    while p > 0 && src[p] != '-'
      invariant -1 <= p < |src| && (p == -1 <==> src == "")
      invariant p >= 0 ==> DelimiterUpTo(src, p) == DelimiterUpTo(src, |src| - 1)
    {
      p := p - 1;
    }
    b := if p < 0 then SIZE_MAX else p;
  }

  method AllAscii(src: string) returns (ascii: bool)
    ensures ascii == IsAscii(src)
  {
    var si := 0;
    while si < |src|
      invariant si <= |src| && forall j :: 0 <= j < si ==> src[j] < 128 as char
    {
      if src[si] >= 128 as char {
        assert src[si] in src;
        return false;
      }
      si := si + 1;
    }
    return true;
  }

  /** The ways in which the decoder's loop ends. */
  lemma DecodeExits(s: string, si: nat, n: nat, i: nat, bias: nat, out: CodePoints, cap: nat)
    requires si <= |s| && n <= SIZE_MAX && i <= |out| <= cap < MAX_POINTS
    ensures si == |s| || |out| == cap ==> DecodeLoop(s, si, n, i, bias, out, cap) == Decoded(out, si, n, true)
    ensures si < |s| && |out| < cap ==>
              var reading := ReadVarInt(s, si, i, 1, BASE, bias);
              && (reading.Stuck? ==>
                    DecodeLoop(s, si, n, i, bias, out, cap) == Decoded(out, reading.next, n, false))
              && (reading.Number? && Div(reading.i, |out| + 1) > SIZE_MAX - n ==>
                    DecodeLoop(s, si, n, i, bias, out, cap) == Decoded(out, reading.next, n, false))
  {
    hide AdaptBias, ReadVarInt, Div, Mod;
  }

  /** The main loop, from the index behind the delimiter on. */
  method DecodeRounds(src: string, si0: nat, dst: array<UInt32>, di0: nat) returns (si: nat, di: nat)
    requires si0 <= |src| && di0 <= dst.Length < MAX_POINTS
    modifies dst
    ensures var r := DecodeLoop(src, si0, INITIAL_N, 0, INITIAL_BIAS, old(dst[..di0]), dst.Length);
            si == r.used && di == |r.out| && dst[..di] == r.out
    ensures forall j :: di <= j < dst.Length ==> dst[j] == old(dst[j])
  {
    hide DecodeLoop, AdaptBias, ReadVarInt, Mul, Div, Mod, InsertAt, Low32;
    si, di := si0, di0;
    var n: nat, i: nat, bias: nat := INITIAL_N, 0, INITIAL_BIAS;
    ghost var cap := dst.Length;
    ghost var r := DecodeLoop(src, si, n, i, bias, dst[..di], cap);
    while si < |src| && di < dst.Length
      invariant i <= di <= dst.Length && si <= |src| && n <= SIZE_MAX
      invariant r == DecodeLoop(src, si, n, i, bias, dst[..di], cap)
      invariant forall j :: di <= j < dst.Length ==> dst[j] == old(dst[j])
      decreases |src| - si
    {
      DecodeExits(src, si, n, i, bias, dst[..di], cap);
      var orgI := i;
      var ok, total, next := ReadDelta(src, si, i, bias);
      if !ok {
        si := next;
        return;
      }
      DivModIs(total, di + 1);
      DivModSplit(total, di + 1);
      if total / (di + 1) > SIZE_MAX - n {
        si := next;
        return;   // OVERFLOW
      }
      ghost var n' := n + total / (di + 1);
      DecodeRound(src, si, n, orgI, total, next, n', total % (di + 1), bias, dst[..di], cap);
      si := next;
      bias := AdaptedBias(Low32(total - orgI), Low32(di + 1), orgI == 0);
      n := n + total / (di + 1);
      i := total % (di + 1);
      Insert(dst, di, i, Low32(n));
      i := i + 1;
      di := di + 1;
    }
    DecodeExits(src, si, n, i, bias, dst[..di], cap);
  }

  /** The main loop starts behind the delimiter; for an empty source the addition wraps around to 0. */
  lemma StartIndex(s: string)
    requires |s| <= SIZE_MAX
    ensures var b := DelimiterIndex(s);
            AddSize(b, if b > 0 then 1 else 0) == if Delimiter(s) > 0 then Delimiter(s) + 1 else 0
  {
  }

  /** An empty source is no argument for a buffer with room: the copy loop would read behind it (see
      `PunycodeSpec.CopiesInsideExactly`). */
  method PunycodeDecode(src: string, dst: array<UInt32>) returns (used: nat, written: nat)
    requires |src| <= SIZE_MAX && dst.Length < MAX_POINTS && (src != "" || dst.Length == 0)
    modifies dst
    ensures var r := Decode(src, dst.Length); used == r.used && written == |r.out| && dst[..written] == r.out
    ensures dst[written..] == old(dst[written..])
  {
    hide DecodeLoop, AddSize, DelimiterIndex;
    StartIndex(src);
    var ascii := AllAscii(src);
    if !ascii {
      return 0, 0;
    }
    var b := FindDelimiter(src);
    var di := Min(b, dst.Length);
    CopiesInsideExactly(src, dst.Length);
    var i := 0;
    while i < di
      invariant 0 <= i <= di && dst[..i] == Points(src[..i])
      invariant forall j :: i <= j < dst.Length ==> dst[j] == old(dst[j])
    {
      dst[i] := src[i] as int;
      i := i + 1;
    }
    used, written := DecodeRounds(src, AddSize(b, if b > 0 then 1 else 0), dst, di);
  }
}
