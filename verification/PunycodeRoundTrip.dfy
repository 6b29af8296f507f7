/**
  Decoding undoes encoding.  The proof runs the encoder's sweep and the decoder's loop in
  lock step: `nd * (h + 1) + id` numbers the decoder's next insertion point among all
  (code point, position) pairs, and what the encoder has accumulated in delta is always the
  distance from there to the point the sweep has reached.
 */
module PunycodeRoundTrip {
  import opened Arithmetic
  import opened PunycodeVarInt
  import opened PunycodeSpec

  const UNICODE_LIMIT: nat := 0x11_0000

  /** The number of the insertion point before element `i` for code point `n`, with `h` elements. */
  function Point(n: nat, h: nat, i: nat): nat {
    Mul(n, h + 1) + i
  }

  /** With `cap` code points below `limit` no sum of the decoder comes near its overflow guards. */
  ghost predicate Roomy(limit: nat, cap: nat) {
    Mul(limit, cap + 1) <= SAFE_MAX
  }

  lemma UnicodeRoomy(cap: nat)
    requires cap < MAX_POINTS
    ensures Roomy(UNICODE_LIMIT, cap)
  {
    MulIs(UNICODE_LIMIT, cap + 1);
  }

  /** The distance between two points tells how far the code point and the position move. */
  lemma PointDistance(limit: nat, nd: nat, id: nat, n: nat, seen: nat, h: nat, delta: nat, cap: nat)
    requires nd <= n < limit && seen <= h < cap
    requires Point(nd, h, id) + delta == Point(n, h, seen)
    ensures Div(id + delta, h + 1) == n - nd && Mod(id + delta, h + 1) == seen
    ensures Roomy(limit, cap) ==> id + delta <= SAFE_MAX
  {
    MulAdd(nd, n - nd, h + 1);
    DivModUnique(id + delta, h + 1, n - nd, seen);
    MulMonotone(n - nd, limit - 1, h + 1);
    MulCommutative(limit, h + 1);
    MulCommutative(limit, cap + 1);
    MulMonotone(h + 1, cap + 1, limit);
  }

  lemma PointJump(n: nat, m: nat, h: nat)
    requires n <= m
    ensures Point(n, h, 0) + Mul(m - n, h + 1) == Point(m, h, 0)
  {
    MulAdd(n, m - n, h + 1);
  }

  lemma PointSucc(n: nat, h: nat, i: nat)
    ensures Point(n, h, i + 1) == Point(n, h, i) + 1
  {
  }

  lemma PointWrap(n: nat, h: nat)
    ensures Point(n, h, h) + 1 == Point(n + 1, h, 0)
  {
  }

  /** The number of elements in front of position `p` that the encoder has handled. */
  function Seen(src: CodePoints, n: nat, p: nat): nat
    requires p <= |src|
  {
    |Below(src[..p], n + 1)|
  }

  /** The state (nd, id, bias, out) of the decoder matches the encoder's state in the sweep for
      `n` at position `p`; the encoder's `h` is the decoder's `di`, and the decoder's `i` is
      zero exactly while the encoder's `h` is still `b`. */
  ghost predicate InStep(limit: nat, src: Label, n: nat, p: nat, delta: nat, nd: nat, id: nat, out: CodePoints) {
    && p <= |src|
    && INITIAL_N <= n < limit <= UINT32_MOD
    && out == Handled(src, n, p)
    && id <= |out|
    && nd <= n
    && Point(nd, |out|, id) + delta == Point(n, |out|, Seen(src, n, p))
    && (id == 0 <==> |out| == |Below(src, INITIAL_N)|)
  }

  /** Everything below the code point being swept has been handled. */
  lemma HandledLower(src: CodePoints, n: nat, m: nat, p: nat)
    requires p <= |src| && m <= n
    ensures |Below(src, m)| <= |Handled(src, n, p)|
  {
    BelowSplit(src, p, m);
    BelowBelow(src[..p], m, n + 1);
    BelowBelow(src[p..], m, n);
  }

  /** One round of the decoder, after its inner loop has read `total`. */
  lemma DecodeRound(s: string, si: nat, nd: nat, id: nat, total: nat, next: nat, n: nat, seen: nat,
                    bias: nat, out: CodePoints, cap: nat)
    requires si < |s| && nd <= n <= SIZE_MAX && id <= |out| < cap < MAX_POINTS && seen <= |out|
    requires ReadVarInt(s, si, id, 1, BASE, bias) == Number(total, next)
    requires Div(total, |out| + 1) == n - nd && Mod(total, |out| + 1) == seen
    ensures DecodeLoop(s, si, nd, id, bias, out, cap)
         == DecodeLoop(s, next, n, seen + 1, AdaptBias(Low32(total - id), Low32(|out| + 1), id == 0),
                       InsertAt(out, seen, Low32(n)), cap)
  {
    hide AdaptBias, InsertAt, ReadVarInt, Low32;
  }

  lemma DecodeRefused(s: string, si: nat, nd: nat, id: nat, bias: nat, out: CodePoints, cap: nat)
    requires si < |s| && nd <= SIZE_MAX && id <= |out| < cap < MAX_POINTS
    requires ReadVarInt(s, si, id, 1, BASE, bias).Stuck?
    ensures var r := DecodeLoop(s, si, nd, id, bias, out, cap); !r.ok && r.out == out
  {
    hide ReadVarInt;
  }

  /** The decoder's round on a delta that the encoder has written; only an overflow guard can keep the
      decoder from replaying it. */
  lemma DecodeDelta(limit: nat, s: string, si: nat, nd: nat, id: nat, delta: nat, n: nat, seen: nat,
                    bias: nat, out: CodePoints, cap: nat)
    requires si <= |s| && VarInt(delta, BASE, bias) <= s[si..]
    requires id <= |out| < cap < MAX_POINTS && nd <= n < limit <= UINT32_MOD && seen <= |out|
    requires Point(nd, |out|, id) + delta == Point(n, |out|, seen)
    ensures var r := DecodeLoop(s, si, nd, id, bias, out, cap);
            || r == DecodeLoop(s, si + |VarInt(delta, BASE, bias)|, n, seen + 1,
                               AdaptBias(Low32(delta), Low32(|out| + 1), id == 0), InsertAt(out, seen, n), cap)
            || (!Roomy(limit, cap) && !r.ok && r.out == out)
  {
    hide Point, Mul, AdaptBias, InsertAt, DecodeLoop, VarInt, ReadVarInt, Roomy;
    PointDistance(limit, nd, id, n, seen, |out|, delta, cap);
    VarIntDigits(delta, BASE, bias);
    MulOne(delta);
    ReadBack(s, si, id, 1, delta, BASE, bias);
    if ReadVarInt(s, si, id, 1, BASE, bias).Stuck? {
      DecodeRefused(s, si, nd, id, bias, out, cap);
    } else {
      DecodeRound(s, si, nd, id, id + delta, si + |VarInt(delta, BASE, bias)|, n, seen, bias, out, cap);
    }
  }

  /** One insertion keeps the two machines in step. */
  lemma EmitInStep(limit: nat, src: Label, n: nat, p: nat, delta: nat, nd: nat, id: nat, out: CodePoints)
    requires InStep(limit, src, n, p, delta, nd, id, out) && p < |src| && src[p] == n
    ensures Handled(src, n, p + 1) == InsertAt(out, Seen(src, n, p), n)
    ensures InStep(limit, src, n, p + 1, 0, n, Seen(src, n, p) + 1, Handled(src, n, p + 1))
    ensures |out| < |src|
  {
    CountStep(src, n, p);
    HandledBound(src, n, p + 1);
    HandledLower(src, n, INITIAL_N, p);
    assert Handled(src, n, p + 1) == InsertAt(out, Seen(src, n, p), n);
    assert Seen(src, n, p + 1) == Seen(src, n, p) + 1;
    hide Point, Mul, Below, Handled, Seen, InsertAt;
  }

  /** Passing over an element that is already handled, or that is handled later. */
  lemma SkipInStep(limit: nat, src: Label, n: nat, p: nat, delta: nat, nd: nat, id: nat, out: CodePoints)
    requires InStep(limit, src, n, p, delta, nd, id, out) && p < |src| && src[p] != n
    ensures InStep(limit, src, n, p + 1, if src[p] < n then delta + 1 else delta, nd, id, out)
  {
    CountStep(src, n, p);
    assert Handled(src, n, p + 1) == out;
    hide Below, Handled, Mul;
  }

  /** The states match where the encoder enters its outer loop. */
  ghost predicate InStepNext(limit: nat, src: Label, n: nat, delta: nat, nd: nat, id: nat, out: CodePoints) {
    && INITIAL_N <= n
    && out == Below(src, n)
    && id <= |out|
    && nd <= n && nd < limit <= UINT32_MOD
    && Point(nd, |out|, id) + delta == Point(n, |out|, 0)
    && (id == 0 <==> |out| == |Below(src, INITIAL_N)|)
  }

  lemma WrapInStep(limit: nat, src: Label, n: nat, delta: nat, nd: nat, id: nat, out: CodePoints)
    requires InStep(limit, src, n, |src|, delta, nd, id, out)
    ensures InStepNext(limit, src, n + 1, delta + 1, nd, id, out)
  {
    SweepEnd(src, n);
    PointWrap(n, |out|);
  }

  lemma SweepStart(src: CodePoints, m: nat)
    ensures Handled(src, m, 0) == Below(src, m) && Seen(src, m, 0) == 0
  {
    hide Below;
    assert src[0..] == src;
    var before := Below(src[..0], m + 1);
    assert |before| == 0;
  }

  lemma SweepEnd(src: CodePoints, n: nat)
    ensures Handled(src, n, |src|) == Below(src, n + 1) && Seen(src, n, |src|) == |Below(src, n + 1)|
  {
    assert src[..|src|] == src && src[|src|..] == [];
  }

  lemma JumpInStep(limit: nat, src: Label, n: nat, delta: nat, nd: nat, id: nat, out: CodePoints)
    requires InStepNext(limit, src, n, delta, nd, id, out) && |out| < |src| && AllBelow(src, limit)
    ensures var m := MinFrom(src, n);
            n <= m && InStep(limit, src, m, 0, delta + Mul(m - n, |out| + 1), nd, id, out)
  {
    hide Handled, Seen, Below, Mul, Point, MinFrom;
    var m := MinFrom(src, n);
    NextPoint(src, n);
    SweepStart(src, m);
    PointJump(n, m, |out|);
  }

  /** The decoder has read all of `s` and ends with the encoder's source; or one of its overflow
      guards has stopped it before. */
  ghost predicate Replayed(limit: nat, src: Label, s: string, cap: nat, r: Decoded) {
    || (r.out == src && r.used == |s| && r.ok && r.n < limit)
    || (!Roomy(limit, cap) && !r.ok && |r.out| < |src|)
  }

  /** Whatever follows in lock step, the decoder ends with the encoder's source. */
  lemma {:induction false} LockStep(limit: nat, src: Label, n: nat, p: nat, delta: nat, bias: nat, s: string, si: nat,
                                    nd: nat, id: nat, out: CodePoints, cap: nat)
    requires InStep(limit, src, n, p, delta, nd, id, out) && |src| <= cap < MAX_POINTS
    requires AllBelow(src, limit)
    requires si <= |s| && s[si..] == Sweep(src, n, p, delta, bias)
    ensures Replayed(limit, src, s, cap, DecodeLoop(s, si, nd, id, bias, out, cap))
    decreases |src| - |Below(src, n + 1)|, |src| - p + 1
  {
    hide DecodeLoop, VarInt, AdaptBias, Point, Mul, Handled, Below, Seen, Roomy;
    if p == |src| {
      WrapInStep(limit, src, n, delta, nd, id, out);
      LockStepNext(limit, src, n + 1, delta + 1, bias, s, si, nd, id, out, cap);
    } else if src[p] == n {
      EmitInStep(limit, src, n, p, delta, nd, id, out);
      DecodeDelta(limit, s, si, nd, id, delta, n, Seen(src, n, p), bias, out, cap);
      var text := VarInt(delta, BASE, bias);
      assert s[si + |text|..] == s[si..][|text|..];
      LockStep(limit, src, n, p + 1, 0, NewBias(src, n, p, delta), s, si + |text|,
               n, Seen(src, n, p) + 1, Handled(src, n, p + 1), cap);
    } else {
      SkipInStep(limit, src, n, p, delta, nd, id, out);
      LockStep(limit, src, n, p + 1, if src[p] < n then delta + 1 else delta, bias, s, si, nd, id, out, cap);
    }
  }

  lemma {:induction false} LockStepNext(limit: nat, src: Label, n: nat, delta: nat, bias: nat, s: string, si: nat,
                                        nd: nat, id: nat, out: CodePoints, cap: nat)
    requires InStepNext(limit, src, n, delta, nd, id, out) && |src| <= cap < MAX_POINTS
    requires AllBelow(src, limit)
    requires si <= |s| && s[si..] == NextSweep(src, n, delta, bias)
    ensures Replayed(limit, src, s, cap, DecodeLoop(s, si, nd, id, bias, out, cap))
    decreases |src| - |Below(src, n)|, 0
  {
    hide Sweep, AdaptBias, ReadVarInt, Point, Mul, Below, Roomy;
    BelowAll(src, n);
    if |out| < |src| {
      var m := MinFrom(src, n);
      NextPoint(src, n);
      JumpInStep(limit, src, n, delta, nd, id, out);
      LockStep(limit, src, m, 0, delta + Mul(m - n, |out| + 1), bias, s, si, nd, id, out, cap);
    }
  }

  // ------------------------------------------------------------ the whole label

  lemma {:induction false} SweepIsDigits(src: Label, n: nat, p: nat, delta: nat, bias: nat)
    requires p <= |src|
    ensures var text := Sweep(src, n, p, delta, bias); DigitsOnly(text, 0, |text|)
    decreases |src| - |Below(src, n + 1)|, |src| - p + 1
  {
    if p == |src| {
      NextSweepIsDigits(src, n + 1, delta + 1, bias);
    } else if src[p] < n {
      SweepIsDigits(src, n, p + 1, delta + 1, bias);
    } else if src[p] == n {
      VarIntDigits(delta, BASE, bias);
      SweepIsDigits(src, n, p + 1, 0, NewBias(src, n, p, delta));
    } else {
      SweepIsDigits(src, n, p + 1, delta, bias);
    }
  }

  lemma {:induction false} NextSweepIsDigits(src: Label, n: nat, delta: nat, bias: nat)
    ensures var text := NextSweep(src, n, delta, bias); DigitsOnly(text, 0, |text|)
    decreases |src| - |Below(src, n)|, 0
  {
    if |Below(src, n)| < |src| {
      var m, h := MinFrom(src, n), |Below(src, n)|;
      NextPoint(src, n);
      SweepIsDigits(src, m, 0, delta + Mul(m - n, h + 1), bias);
    }
  }

  /** The last '-' of an encoded label is the delimiter that the encoder wrote. */
  lemma DelimiterFound(b: string, ext: string)
    requires DigitsOnly(ext, 0, |ext|)
    ensures b != "" ==> Delimiter(b + "-" + ext) == |b|
    ensures ext != "" ==> Delimiter(ext) == 0
  {
    var s := b + "-" + ext;
    assert forall j :: |b| < j < |s| ==> s[j] == ext[j - |b| - 1];
    assert s[|b|] == '-';
  }

  lemma PointsOfBasics(src: CodePoints)
    ensures Points(Basics(src)) == Below(src, INITIAL_N) && IsAscii(Basics(src))
  {
    BelowIsBelow(src, INITIAL_N);
    assert |Points(Basics(src))| == |Below(src, INITIAL_N)|;
  }

  lemma BasicsCount(src: CodePoints)
    ensures |Basics(src)| == |Below(src, INITIAL_N)|
  {
    PointsOfBasics(src);
  }

  lemma EncodeIsAscii(src: Label)
    ensures IsAscii(Encode(src))
  {
    hide NextSweep, Basics;
    PointsOfBasics(src);
    NextSweepIsDigits(src, INITIAL_N, 0, INITIAL_BIAS);
  }

  /** What the decoder makes of an encoded label, for all 32-bit code points. */
  lemma EncodeReplayed(limit: nat, src: Label, cap: nat)
    requires |src| <= cap < MAX_POINTS && INITIAL_N < limit <= UINT32_MOD && AllBelow(src, limit)
    requires |Below(src, INITIAL_N)| < |src|
    ensures Encode(src) != "" && Replayed(limit, src, Encode(src), cap, Decode(Encode(src), cap))
  {
    hide DecodeLoop, NextSweep, Basics, Points, Below, Roomy, Replayed;
    var b, ext := Basics(src), NextSweep(src, INITIAL_N, 0, INITIAL_BIAS);
    NextSweepIsDigits(src, INITIAL_N, 0, INITIAL_BIAS);
    NextSweepNonempty(src, INITIAL_N, 0, INITIAL_BIAS);
    DelimiterFound(b, ext);
    EncodeIsAscii(src);
    var s := Encode(src);
    var si := if b == "" then 0 else |b| + 1;
    PointsOfBasics(src);
    assert s == if b == "" then ext else b + "-" + ext;
    assert s[si..] == ext && s[..|b|] == b;
    LockStepNext(limit, src, INITIAL_N, 0, INITIAL_BIAS, s, si, INITIAL_N, 0, Below(src, INITIAL_N), cap);
  }

  lemma EncodeDecode(src: Label, cap: nat)
    requires |src| <= cap < MAX_POINTS && AllBelow(src, UNICODE_LIMIT)
    requires |Below(src, INITIAL_N)| < |src|
    ensures Encode(src) != ""
    ensures var r := Decode(Encode(src), cap);
            r.out == src && r.used == |Encode(src)| && r.ok && r.n < UNICODE_LIMIT
  {
    hide Decode, Encode, Roomy, Below;
    UnicodeRoomy(cap);
    EncodeReplayed(UNICODE_LIMIT, src, cap);
  }

  lemma NextSweepNonempty(src: Label, n: nat, delta: nat, bias: nat)
    ensures NextSweep(src, n, delta, bias) == "" <==> |Below(src, n)| == |src|
  {
    if |Below(src, n)| < |src| {
      NextPoint(src, n);
      var m, h := MinFrom(src, n), |Below(src, n)|;
      var p :| 0 <= p < |src| && src[p] == m;
      SweepNonempty(src, m, 0, delta + Mul(m - n, h + 1), bias, p);
    }
  }

  lemma {:induction false} SweepNonempty(src: Label, n: nat, p: nat, delta: nat, bias: nat, q: nat)
    requires p <= q < |src| && src[q] == n
    ensures Sweep(src, n, p, delta, bias) != ""
    decreases q - p
  {
    if src[p] == n {
      VarIntDigits(delta, BASE, bias);
    } else {
      SweepNonempty(src, n, p + 1, if src[p] < n then delta + 1 else delta, bias, q);
    }
  }

  // ------------------------------------------------------------ labels of basic code points only

  /** The decoder never drops a code point it has inserted. */
  lemma {:induction false} DecodeKeeps(s: string, si: nat, n: nat, i: nat, bias: nat, out: CodePoints,
                                       cap: nat, c: UInt32)
    requires si <= |s| && n <= SIZE_MAX && i <= |out| <= cap < MAX_POINTS && c in out
    ensures c in DecodeLoop(s, si, n, i, bias, out, cap).out
    decreases |s| - si
  {
    hide ReadVarInt, AdaptBias, Div, Mod, Low32;
    if si < |s| && |out| < cap {
      var r := ReadVarInt(s, si, i, 1, BASE, bias);
      if r.Number? {
        DivModSplit(r.i, |out| + 1);
        var n', at := n + Div(r.i, |out| + 1), Mod(r.i, |out| + 1);
        if n' <= SIZE_MAX {
          assert out == out[..at] + out[at..];
          assert c in InsertAt(out, at, Low32(n'));
          DecodeKeeps(s, r.next, n', at + 1, AdaptBias(Low32(r.i - i), Low32(|out| + 1), i == 0),
                      InsertAt(out, at, Low32(n')), cap, c);
        }
      }
    }
  }

  /** A nonempty ASCII string never decodes to itself: the decoder either drops the delimiter,
      or uses up a character without output, or starts with a code point of at least 128. */
  lemma AsciiChanges(s: string, cap: nat)
    requires IsAscii(s) && 0 < |s| && |s| <= cap < MAX_POINTS
    ensures Decode(s, cap).out != Points(s)
  {
    hide DecodeLoop, ReadVarInt;
    if Delimiter(s) == 0 {
      assert Points(s[..0]) == [];
      var r := ReadVarInt(s, 0, 0, 1, BASE, INITIAL_BIAS);
      if r.Number? && INITIAL_N + r.i <= SIZE_MAX {
        FirstRound(s, r.i, r.next, cap);
        OneDigit(s);
        assert forall j :: 0 <= j < |s| ==> s[j] in s && Points(s)[j] < INITIAL_N;
      } else {
        FirstRefused(s, cap);
      }
    }
  }

  lemma FirstRefused(s: string, cap: nat)
    requires 0 < |s| <= cap < MAX_POINTS
    requires var r := ReadVarInt(s, 0, 0, 1, BASE, INITIAL_BIAS);
             r.Number? ==> INITIAL_N + r.i > SIZE_MAX
    ensures DecodeLoop(s, 0, INITIAL_N, 0, INITIAL_BIAS, [], cap).out == []
  {
    hide ReadVarInt, AdaptBias, Low32, Div, Mod, InsertAt;
    var r := ReadVarInt(s, 0, 0, 1, BASE, INITIAL_BIAS);
    if r.Number? { DivModOne(r.i); }
  }

  lemma DivModOne(x: nat)
    ensures Div(x, 1) == x && Mod(x, 1) == 0
  {
    MulOne(x);
    DivModUnique(x, 1, x, 0);
  }

  /** After the first round without basic code points, the first code point read is there to stay. */
  lemma FirstRound(s: string, total: nat, next: nat, cap: nat)
    requires 0 < |s| <= cap < MAX_POINTS
    requires ReadVarInt(s, 0, 0, 1, BASE, INITIAL_BIAS) == Number(total, next)
    requires INITIAL_N + total <= SIZE_MAX
    ensures var out := DecodeLoop(s, 0, INITIAL_N, 0, INITIAL_BIAS, [], cap).out;
            Low32(INITIAL_N + total) in out && |out| <= 1 + |s| - next
  {
    hide ReadVarInt, AdaptBias, Low32, DecodeLoop, Div, Mod;
    DivModOne(total);
    var n := INITIAL_N + total;
    DecodeRound(s, 0, INITIAL_N, 0, total, next, n, 0, INITIAL_BIAS, [], cap);
    var bias, out := AdaptBias(Low32(total), Low32(1), true), InsertAt([], 0, Low32(n));
    assert Low32(n) == out[0];
    DecodeKeeps(s, next, n, 1, bias, out, cap, Low32(n));
  }

  lemma OneDigit(s: string)
    requires 0 < |s|
    ensures var r := ReadVarInt(s, 0, 0, 1, BASE, INITIAL_BIAS);
            r.Number? && r.next == 1 ==> r.i < BASE && Low32(INITIAL_N + r.i) == INITIAL_N + r.i
  {
    DecodedDigitBound(s[0]);
    if DecodeDigit(s[0]).Some? { MulOne(DecodeDigit(s[0]).value); }
  }

  /** The decoder reports as many code points as the label has, and they are the label's. */
  ghost predicate ComesBack(src: Label, cap: nat)
    requires cap < MAX_POINTS
  {
    var s := Encode(src);
    Reported(s, cap) == |src| && (s != "" ==> Decode(s, cap).out == src)
  }

  /** A label comes back exactly when it has a code point that is not basic: labels of basic code
      points are returned without a delimiter.  The empty label comes back only to an empty buffer. */
  lemma RoundTripExactly(src: Label, cap: nat)
    requires |src| <= cap < MAX_POINTS && AllBelow(src, UNICODE_LIMIT)
    ensures ComesBack(src, cap) <==> if src == [] then cap == 0 else !AllBelow(src, INITIAL_N)
  {
    hide DecodeLoop, Encode;
    BelowAll(src, INITIAL_N);
    if AllBelow(src, INITIAL_N) {
      BasicFixed(src);
      if src != [] { AsciiChanges(Encode(src), cap); }
    } else {
      EncodeDecode(src, cap);
    }
  }

  /** The empty label in a buffer for one code point: one is reported. */
  lemma EmptyLabelFilled()
    ensures Encode([]) == "" && Reported("", 1) == 1 && !ComesBack([], 1)
  {
    RoundTripExactly([], 1);
    BasicFixed([]);
  }

  /** Labels of basic code points only are encoded as they are. */
  lemma BasicFixed(src: Label)
    requires AllBelow(src, INITIAL_N)
    ensures IsAscii(Encode(src)) && |Encode(src)| == |src| && Points(Encode(src)) == src
  {
    hide NextSweep;
    BelowAll(src, INITIAL_N);
    PointsOfBasics(src);
    NextSweepNonempty(src, INITIAL_N, 0, INITIAL_BIAS);
    assert Encode(src) == Basics(src);
  }

  /** The encoder is injective on the labels it really encodes. */
  lemma EncodeInjective(x: Label, y: Label)
    requires AllBelow(x, UNICODE_LIMIT) && AllBelow(y, UNICODE_LIMIT)
    requires !AllBelow(x, INITIAL_N) && !AllBelow(y, INITIAL_N)
    requires Encode(x) == Encode(y)
    ensures x == y
  {
    hide Encode, Decode;
    var cap := if |x| < |y| then |y| else |x|;
    BelowAll(x, INITIAL_N);
    BelowAll(y, INITIAL_N);
    EncodeDecode(x, cap);
    EncodeDecode(y, cap);
  }
}
