/**
  Encoding undoes decoding: a string that the decoder accepts and that uses lower-case digits is
  the only encoding of what it decodes to.  Going backwards through the decoder's rounds, the
  final label determines, for every round, the position `p` the encoder's sweep has reached when
  the decoder is in that round's state.
 */
module PunycodeCanonical {
  import opened Arithmetic
  import opened PunycodeVarInt
  import opened PunycodeSpec
  import opened PunycodeRoundTrip

  // ------------------------------------------------------------ the sweep passes over what is handled

  lemma HandledUpper(src: CodePoints, n: nat, p: nat)
    requires p <= |src|
    ensures |Handled(src, n, p)| <= |Below(src, n + 1)|
  {
    BelowSplit(src, p, n + 1);
    BelowBelow(src[p..], n, n + 1);
  }

  lemma {:induction false} HandledGrows(src: CodePoints, n: nat, p: nat, p2: nat)
    requires p <= p2 <= |src|
    ensures |Handled(src, n, p)| <= |Handled(src, n, p2)|
    decreases p2 - p
  {
    if p < p2 {
      CountStep(src, n, p);
      hide Below;
      HandledGrows(src, n, p + 1, p2);
    }
  }

  /** Before the next element to be handled, no element equals the code point of the sweep. */
  lemma HandledNext(src: Label, n: nat, p: nat, n2: nat, p2: nat)
    requires p < |src| && p2 < |src| && src[p2] == n2
    requires n < n2 || (n == n2 && p < p2)
    requires |Handled(src, n, p)| == |Handled(src, n2, p2)|
    ensures src[p] != n
  {
    CountStep(src, n, p);
    hide Below;
    if n == n2 {
      HandledGrows(src, n, p + 1, p2);
    } else {
      HandledUpper(src, n, p + 1);
      BelowBelow(src, n + 1, n2);
      HandledLower(src, n2, n2, p2);
    }
  }

  /** At the end of a sweep, the next sweep is for `n2`. */
  lemma SkipSweep(src: Label, n: nat, delta: nat, n2: nat, p2: nat, bias: nat)
    requires p2 < |src| && src[p2] == n2 && n < n2
    requires |Below(src, n + 1)| == |Below(src, n2)| < |src|
    ensures Sweep(src, n, |src|, delta, bias)
         == Sweep(src, n2, 0, delta + 1 + Mul(n2 - n - 1, |Below(src, n + 1)| + 1), bias)
  {
    var m := MinFrom(src, n + 1);
    NextPoint(src, n + 1);
    MinFromLeast(src, n + 1);
    hide Below, Mul, VarInt, MinFrom;
    if m < n2 { BelowBelow(src, m + 1, n2); }
    assert m == n2;
  }

  /** (n2, p2) is the next element to be handled at or after (n, p), and the deltas differ by
      the distance between the two insertion points. */
  ghost predicate Ahead(src: Label, n: nat, p: nat, delta: nat, n2: nat, p2: nat, delta2: nat, base: nat) {
    && p <= |src| && p2 < |src| && src[p2] == n2
    && (n < n2 || (n == n2 && p <= p2))
    && |Handled(src, n, p)| == |Handled(src, n2, p2)|
    && base + delta == Point(n, |Handled(src, n, p)|, Seen(src, n, p))
    && base + delta2 == Point(n2, |Handled(src, n, p)|, Seen(src, n2, p2))
  }

  lemma HandledRoom(src: CodePoints, n: nat, p: nat)
    requires p < |src| && src[p] == n
    ensures |Handled(src, n, p)| < |src|
  {
    CountStep(src, n, p);
    HandledBound(src, n, p + 1);
  }

  lemma AheadAfterWrap(src: Label, n: nat, delta: nat, n2: nat, p2: nat, delta2: nat, base: nat)
    requires Ahead(src, n, |src|, delta, n2, p2, delta2, base)
    ensures n < n2 && |Below(src, n + 1)| == |Below(src, n2)| == |Handled(src, n, |src|)| < |src|
    ensures Ahead(src, n2, 0, delta + 1 + Mul(n2 - n - 1, |Below(src, n + 1)| + 1), n2, p2, delta2, base)
  {
    hide Handled, Below, Mul, Point, Seen;
    SweepEnd(src, n);
    HandledLower(src, n2, n2, p2);
    BelowBelow(src, n + 1, n2);
    HandledRoom(src, n2, p2);
    var h := |Below(src, n2)|;
    PointWrap(n, h);
    PointJump(n + 1, n2, h);
    SweepStart(src, n2);
  }

  lemma AheadAfterSkip(src: Label, n: nat, p: nat, delta: nat, n2: nat, p2: nat, delta2: nat, base: nat)
    requires Ahead(src, n, p, delta, n2, p2, delta2, base) && p < |src|
    requires n != n2 || p != p2
    ensures src[p] != n
    ensures Ahead(src, n, p + 1, if src[p] < n then delta + 1 else delta, n2, p2, delta2, base)
  {
    HandledNext(src, n, p, n2, p2);
    CountStep(src, n, p);
    assert Seen(src, n, p + 1) == Seen(src, n, p) + (if src[p] < n then 1 else 0);
    assert |Handled(src, n, p + 1)| == |Handled(src, n, p)|;
    PointSucc(n, |Handled(src, n, p)|, Seen(src, n, p));
    hide Handled, Below, Mul, Point, Seen;
  }

  /** The sweep passes over everything up to the next element to be handled. */
  lemma {:induction false} SkipTo(src: Label, n: nat, p: nat, delta: nat, n2: nat, p2: nat, delta2: nat,
                                  bias: nat, base: nat)
    requires Ahead(src, n, p, delta, n2, p2, delta2, base)
    ensures Sweep(src, n, p, delta, bias) == Sweep(src, n2, p2, delta2, bias)
    decreases n2 - n, |src| - p
  {
    hide Handled, Below, Mul, Point, Seen, VarInt;
    if n == n2 && p == p2 {
    } else if p == |src| {
      AheadAfterWrap(src, n, delta, n2, p2, delta2, base);
      SkipSweep(src, n, delta, n2, p2, bias);
      SkipTo(src, n2, 0, delta + 1 + Mul(n2 - n - 1, |Below(src, n + 1)| + 1), n2, p2, delta2, bias, base);
    } else {
      AheadAfterSkip(src, n, p, delta, n2, p2, delta2, base);
      SkipTo(src, n, p + 1, if src[p] < n then delta + 1 else delta, n2, p2, delta2, bias, base);
    }
  }

  // ------------------------------------------------------------ one round backwards

  /** What every state of the decoder satisfies, between its rounds. */
  ghost predicate Between(n: nat, i: nat, out: CodePoints) {
    && INITIAL_N <= n && i <= |out|
    && AllBelow(out, n + 1) && AllBelow(out[i..], n)
    && (if i == 0 then AllBelow(out, INITIAL_N) else out[i - 1] >= INITIAL_N)
  }

  /** The state (n, i, out) of the decoder is what the sweep over the final label `f` has handled
      when it is for `n` and has reached position `p`, directly behind the last insertion. */
  ghost predicate Reached(f: Label, n: nat, p: nat, i: nat, out: CodePoints) {
    && p <= |f| && i <= |out|
    && Below(f[..p], n + 1) == out[..i]
    && Below(f[p..], n) == out[i..]
    && (if i == 0 then p == 0 else 0 < p && f[p - 1] == out[i - 1])
  }

  lemma BelowFirst(s: CodePoints, m: nat)
    requires s != []
    ensures Below(s, m) == (if s[0] < m then [s[0]] else []) + Below(s[1..], m)
  {
  }

  lemma BelowNothing(m: nat)
    ensures Below([], m) == []
  {
  }

  lemma TakeKept(kept: CodePoints, tail: CodePoints, i: nat)
    requires |kept| <= i <= |kept| + |tail|
    ensures (kept + tail)[..i] == kept + tail[..i - |kept|] && (kept + tail)[i..] == tail[i - |kept|..]
  {
  }

  /** A prefix of a filtered sequence comes from a prefix of the sequence. */
  lemma {:induction false} SplitAt(s: CodePoints, m: nat, i: nat) returns (p: nat)
    requires i <= |Below(s, m)|
    ensures p <= |s|
    ensures Below(s[..p], m) == Below(s, m)[..i] && Below(s[p..], m) == Below(s, m)[i..]
    ensures if i == 0 then p == 0 else 0 < p && s[p - 1] == Below(s, m)[i - 1]
    decreases s
  {
    hide Below;
    BelowNothing(m);
    if i == 0 {
      p := 0;
      assert s[0..] == s && s[..0] == [];
    } else {
      assert s != [];
      var kept := if s[0] < m then [s[0]] else [];
      BelowFirst(s, m);
      var p' := SplitAt(s[1..], m, i - |kept|);
      p := p' + 1;
      BelowFirst(s[..p], m);
      assert s[..p][1..] == s[1..][..p'] && s[p..] == s[1..][p'..];
      TakeKept(kept, Below(s[1..], m), i);
    }
  }

  lemma BelowKeeps(s: CodePoints, m: nat)
    requires AllBelow(s, m)
    ensures Below(s, m) == s
  {
    BelowAll(s, m);
  }

  /** Taking back the insertion that led to a state. */
  lemma Uninsert(f: Label, n: nat, p: nat, at: nat, out: CodePoints)
    requires at <= |out| && n < UINT32_MOD && Reached(f, n, p, at + 1, InsertAt(out, at, n))
    ensures 0 < p && f[p - 1] == n
    ensures Below(f[..p - 1], n + 1) == out[..at] && Below(f[p - 1..], n) == out[at..]
  {
    var out' := InsertAt(out, at, n);
    assert out'[..at + 1] == out[..at] + [n] && out'[at + 1..] == out[at..];
    CountStep(f, n, p - 1);
    hide Below;
    assert Below(f[..p - 1], n + 1) == (Below(f[..p - 1], n + 1) + [n])[..at];
  }

  /** The previous state was reached when the sweep was for an earlier code point ... */
  lemma BackToLower(f: Label, n: nat, i: nat, out: CodePoints, n': nat, at: nat, p': nat) returns (p: nat)
    requires Between(n, i, out) && n < n' && p' < |f| && at <= |out|
    requires Below(f[..p'], n' + 1) == out[..at] && Below(f[p'..], n') == out[at..]
    ensures Reached(f, n, p, i, out)
  {
    hide Below;
    BelowSplit(f, p', n + 1);
    BelowBelow(f[..p'], n + 1, n' + 1);
    BelowBelow(f[p'..], n + 1, n');
    BelowKeeps(out[..at], n + 1);
    BelowKeeps(out[at..], n + 1);
    assert Below(f, n + 1) == out;
    p := SplitAt(f, n + 1, i);
    BelowBelow(f[p..], n, n + 1);
    BelowKeeps(out[i..], n);
  }

  /** ... or at an earlier position of the same sweep. */
  lemma BackToLeft(f: Label, n: nat, i: nat, out: CodePoints, at: nat, p': nat) returns (p: nat)
    requires Between(n, i, out) && i <= at <= |out| && p' < |f|
    requires Below(f[..p'], n + 1) == out[..at] && Below(f[p'..], n) == out[at..]
    ensures Reached(f, n, p, i, out) && p <= p'
  {
    hide Below;
    var front := f[..p'];
    p := SplitAt(front, n + 1, i);
    assert front[..p] == f[..p] && f[p..] == front[p..] + f[p'..];
    BelowConcat(front[p..], f[p'..], n);
    BelowBelow(front[p..], n, n + 1);
    assert out[..at][..i] == out[..i] && out[..at][i..] == out[i..at];
    assert out[i..at] == out[i..][..at - i];
    BelowKeeps(out[i..at], n);
    assert out[i..] == out[i..at] + out[at..];
  }

  /** The first delta is recognised by both machines alike. */
  lemma FirstAlike(f: Label, n: nat, p: nat, i: nat, out: CodePoints)
    requires Between(n, i, out) && Reached(f, n, p, i, out)
    ensures Handled(f, n, p) == out && Seen(f, n, p) == i
    ensures |out| == |Below(f, INITIAL_N)| <==> i == 0
  {
    assert out == out[..i] + out[i..];
    BelowSplit(f, p, INITIAL_N);
    BelowBelow(f[..p], INITIAL_N, n + 1);
    BelowBelow(f[p..], INITIAL_N, n);
    BelowConcat(out[..i], out[i..], INITIAL_N);
    assert Below(f, INITIAL_N) == Below(out, INITIAL_N);
    hide Below;
    BelowAll(out, INITIAL_N);
  }

  /** When everything is handled, the sweep writes nothing more. */
  lemma {:induction false} SweepDone(src: Label, n: nat, p: nat, delta: nat, bias: nat)
    requires p <= |src| && |Handled(src, n, p)| == |src|
    ensures Sweep(src, n, p, delta, bias) == ""
    decreases |src| - p
  {
    hide Handled, Below;
    if p == |src| {
      SweepEnd(src, n);
    } else {
      if src[p] == n { HandledRoom(src, n, p); }
      HandledGrows(src, n, p, p + 1);
      HandledBound(src, n, p + 1);
      SweepDone(src, n, p + 1, if src[p] < n then delta + 1 else delta, bias);
    }
  }

  // ------------------------------------------------------------ all rounds backwards

  lemma PointMoves(n: nat, h: nat, i: nat, q: nat)
    ensures Point(n, h, i) + q == Point(n + Div(i + q, h + 1), h, Mod(i + q, h + 1))
    ensures Mod(i + q, h + 1) <= h && (Div(i + q, h + 1) == 0 ==> i <= Mod(i + q, h + 1))
  {
    DivModSplit(i + q, h + 1);
    MulAdd(n, Div(i + q, h + 1), h + 1);
  }

  lemma InsertBetween(n: nat, i: nat, out: CodePoints, n': nat, at: nat)
    requires Between(n, i, out) && at <= |out| && n' < UINT32_MOD
    requires n < n' || (n == n' && i <= at)
    ensures Between(n', at + 1, InsertAt(out, at, n'))
  {
    var out' := InsertAt(out, at, n');
    assert out'[at + 1..] == out[at..];
    assert n == n' ==> out[at..] == out[i..][at - i..];
  }

  /** What the decoder's next round has read, and the state it leads to. */
  lemma RoundRead(s: string, si: nat, n: nat, i: nat, bias: nat, out: CodePoints, cap: nat)
    returns (q: nat, next: nat, n': nat, at: nat)
    requires si < |s| && i <= |out| <= cap < MAX_POINTS && n <= SIZE_MAX
    requires DigitsOnly(s, si, |s|)
    requires var r := DecodeLoop(s, si, n, i, bias, out, cap);
             r.ok && r.used == |s| && r.n < UINT32_MOD
    ensures si < next <= |s| && VarInt(q, BASE, bias) == s[si..next]
    ensures at <= |out| && (n < n' || (n == n' && i <= at)) && n' < UINT32_MOD
    ensures Point(n, |out|, i) + q == Point(n', |out|, at)
    ensures |out| < cap
    ensures DecodeLoop(s, si, n, i, bias, out, cap)
         == DecodeLoop(s, next, n', at + 1, AdaptBias(Low32(q), Low32(|out| + 1), i == 0),
                       InsertAt(out, at, n'), cap)
  {
    hide Point, Mul, Div, Mod, AdaptBias, ReadVarInt, VarInt, InsertAt;
    var reading := ReadVarInt(s, si, i, 1, BASE, bias);
    next := reading.next;
    q := WriteBack(s, si, i, 1, BASE, bias);
    MulOne(q);
    PointMoves(n, |out|, i, q);
    n', at := n + Div(i + q, |out| + 1), Mod(i + q, |out| + 1);
  }

  /** The encoder, started in the decoder's state with nothing accumulated, writes exactly what
      the decoder has still to read. */
  lemma {:induction false} BackInStep(s: string, si: nat, n: nat, i: nat, bias: nat, out: CodePoints, cap: nat)
    returns (p: nat)
    requires si <= |s| && i <= |out| <= cap < MAX_POINTS && n <= SIZE_MAX && Between(n, i, out)
    requires DigitsOnly(s, si, |s|)
    requires var r := DecodeLoop(s, si, n, i, bias, out, cap);
             r.ok && r.used == |s| && r.n < UINT32_MOD
    ensures var f := DecodeLoop(s, si, n, i, bias, out, cap).out;
            Reached(f, n, p, i, out) && Sweep(f, n, p, 0, bias) == s[si..]
    decreases |s| - si
  {
    hide Below, Handled, Seen, Point, Mul, AdaptBias, VarInt, Between, Sweep, InsertAt, Reached;
    if si == |s| {
      p := i;
      ReachedEnd(n, i, out);
      SweepDone(out, n, i, 0, bias);
    } else {
      var q, next, n', at := RoundRead(s, si, n, i, bias, out, cap);
      hide DecodeLoop;
      InsertBetween(n, i, out, n', at);
      var bias', out' := AdaptBias(Low32(q), Low32(|out| + 1), i == 0), InsertAt(out, at, n');
      var f := DecodeLoop(s, si, n, i, bias, out, cap).out;
      var p' := BackInStep(s, next, n', at + 1, bias', out', cap);
      p := BackOneRound(f, n, i, out, n', at, p', q, bias);
      assert s[si..] == s[si..next] + s[next..];
    }
  }

  lemma ReachedEnd(n: nat, i: nat, out: Label)
    requires Between(n, i, out)
    ensures i <= |out| && Reached(out, n, i, i, out) && |Handled(out, n, i)| == |out|
  {
    BelowKeeps(out[..i], n + 1);
    BelowKeeps(out[i..], n);
  }

  lemma BackOneRound(f: Label, n: nat, i: nat, out: CodePoints, n': nat, at: nat, p': nat, q: nat, bias: nat)
    returns (p: nat)
    requires Between(n, i, out) && at <= |out| && n' < UINT32_MOD
    requires n < n' || (n == n' && i <= at)
    requires Point(n, |out|, i) + q == Point(n', |out|, at)
    requires Reached(f, n', p', at + 1, InsertAt(out, at, n'))
    ensures Reached(f, n, p, i, out)
    ensures Sweep(f, n, p, 0, bias)
         == VarInt(q, BASE, bias)
          + Sweep(f, n', p', 0, AdaptBias(Low32(q), Low32(|out| + 1), i == 0))
  {
    hide Below, Seen, Point, Mul, AdaptBias, VarInt, InsertAt;
    Uninsert(f, n', p', at, out);
    if n < n' {
      p := BackToLower(f, n, i, out, n', at, p' - 1);
    } else {
      p := BackToLeft(f, n, i, out, at, p' - 1);
    }
    FirstAlike(f, n, p, i, out);
    SeenAt(f, n', p' - 1, at, out);
    SkipTo(f, n, p, 0, n', p' - 1, q, bias, Point(n, |out|, i));
  }

  lemma SeenAt(f: CodePoints, n: nat, p: nat, at: nat, out: CodePoints)
    requires p <= |f| && at <= |out| && Below(f[..p], n + 1) == out[..at] && Below(f[p..], n) == out[at..]
    ensures Handled(f, n, p) == out && Seen(f, n, p) == at
  {
    hide Below;
    assert out == out[..at] + out[at..];
  }

  // ------------------------------------------------------------ the whole string

  /** A sweep without an element to handle leads to the next sweep. */
  lemma {:induction false} PassSweep(src: Label, n: nat, p: nat, delta: nat, bias: nat)
    requires p <= |src| && forall j :: p <= j < |src| ==> src[j] != n
    ensures Sweep(src, n, p, delta, bias)
         == NextSweep(src, n + 1, delta + |Below(src[p..], n)| + 1, bias)
    decreases |src| - p
  {
    hide NextSweep;
    if p == |src| {
      assert src[p..] == [];
    } else {
      CountStep(src, n, p);
      hide Below;
      PassSweep(src, n, p + 1, if src[p] < n then delta + 1 else delta, bias);
    }
  }

  /** Entering the outer loop for `n` is the same as sweeping for `n`. */
  lemma NextIsSweep(src: Label, n: nat, delta: nat, bias: nat)
    requires |Below(src, n)| < |src|
    ensures NextSweep(src, n, delta, bias) == Sweep(src, n, 0, delta, bias)
  {
    hide Below, Mul, Sweep, MinFrom;
    var m := MinFrom(src, n);
    NextPoint(src, n);
    MinFromLeast(src, n);
    MulZero(|Below(src, n)| + 1);
    if n < m {
      PassSweep(src, n, 0, delta, bias);
      assert src[0..] == src;
      BelowGap(src, n + 1, m);
      MinFromSame(src, n);
      MulAdd(1, m - n - 1, |Below(src, n)| + 1);
      MulOne(|Below(src, n)| + 1);
    }
  }

  lemma MulZero(a: nat)
    ensures Mul(0, a) == 0
  {
  }

  lemma {:induction false} MinFromSame(src: CodePoints, n: nat)
    requires n < MinFrom(src, n)
    ensures MinFrom(src, n + 1) == MinFrom(src, n)
  {
    MinFromLeast(src, n);
    MinFromLeast(src, n + 1);
  }

  /** What the decoder turns into a label without losing anything: an ASCII string whose extended
      part is not empty, is written in lower case, and is read to its end without an error and
      without a code point that does not fit into 32 bits. */
  ghost predicate Canonical(s: string, cap: nat)
    requires cap < MAX_POINTS && (s != "" || cap == 0)
  {
    var b := Delimiter(s);
    var start := if b > 0 then b + 1 else 0;
    var r := Decode(s, cap);
    && IsAscii(s)
    && start < |s| && DigitsOnly(s, start, |s|)
    && r.ok && r.used == |s| && r.n < UINT32_MOD
  }

  lemma DecodeEncode(s: string, cap: nat)
    requires cap < MAX_POINTS && (s != "" || cap == 0) && Canonical(s, cap)
    ensures Encode(Decode(s, cap).out) == s
  {
    hide Below, NextSweep, Sweep, Points, Basics, DecodeLoop;
    var b := Delimiter(s);
    var start := if b > 0 then b + 1 else 0;
    var f := Decode(s, cap).out;
    ExtendedPart(s, cap);
    NextIsSweep(f, INITIAL_N, 0, INITIAL_BIAS);
    BasicsBack(f, s[..b]);
    BasicsCount(f);
    assert s == if b > 0 then s[..b] + "-" + s[start..] else s[..b] + "" + s[start..];
  }

  /** The decoded label has the string's basic code points, and the encoder's sweep for it writes
      the string's extended part. */
  lemma ExtendedPart(s: string, cap: nat)
    requires cap < MAX_POINTS && (s != "" || cap == 0) && Canonical(s, cap)
    ensures var f := Decode(s, cap).out;
            var b := Delimiter(s);
            && Below(f, INITIAL_N) == Points(s[..b]) && b < |f|
            && Sweep(f, INITIAL_N, 0, 0, INITIAL_BIAS) == s[if b > 0 then b + 1 else 0..]
  {
    hide Below, Sweep, Points;
    var b := Delimiter(s);
    var start := if b > 0 then b + 1 else 0;
    var out := Points(s[..b]);
    var f := Decode(s, cap).out;
    assert b <= cap && f == DecodeLoop(s, start, INITIAL_N, 0, INITIAL_BIAS, out, cap).out;
    hide DecodeLoop, Decode;
    PointsAscii(s, b);
    assert out[0..] == out;
    var p := BackInStep(s, start, INITIAL_N, 0, INITIAL_BIAS, out, cap);
    assert f[0..] == f;
    if b >= |f| { SweepDoneAtStart(f); }
  }

  lemma PointsAscii(s: string, b: nat)
    requires IsAscii(s) && b <= |s|
    ensures AllBelow(Points(s[..b]), INITIAL_N)
  {
    forall j | 0 <= j < b ensures Points(s[..b])[j] < INITIAL_N {
      assert s[j] in s;
    }
  }

  lemma SweepDoneAtStart(f: Label)
    requires |Below(f, INITIAL_N)| == |f|
    ensures Sweep(f, INITIAL_N, 0, 0, INITIAL_BIAS) == ""
  {
    SweepStart(f, INITIAL_N);
    SweepDone(f, INITIAL_N, 0, 0, INITIAL_BIAS);
  }

  lemma BasicsBack(f: CodePoints, s: string)
    requires Below(f, INITIAL_N) == Points(s)
    ensures Basics(f) == s
  {
    BelowIsBelow(f, INITIAL_N);
    assert forall j :: 0 <= j < |s| ==> Points(s)[j] as char == s[j];
  }

  /** Re-encoding gives the string back exactly when the string is canonical. */
  lemma CanonicalExactly(s: string, cap: nat)
    requires 0 < |s| <= cap < MAX_POINTS
    ensures Encode(Decode(s, cap).out) == s <==> Canonical(s, cap)
  {
    hide Decode, Encode, Roomy;
    var f := Decode(s, cap).out;
    if Encode(f) == s {
      if AllBelow(f, INITIAL_N) {
        BasicFixed(f);
        AsciiChanges(s, cap);
      } else {
        BelowAll(f, INITIAL_N);
        EncodeReplayed(UINT32_MOD, f, cap);
        EncodedShape(f);
      }
    } else if Canonical(s, cap) {
      DecodeEncode(s, cap);
    }
  }

  /** The extended part of an encoded label is not empty and in lower case. */
  lemma EncodedShape(f: Label)
    requires |Below(f, INITIAL_N)| < |f|
    ensures var s := Encode(f);
            var start := if Delimiter(s) > 0 then Delimiter(s) + 1 else 0;
            IsAscii(s) && start < |s| && DigitsOnly(s, start, |s|)
  {
    hide NextSweep, Basics, Below;
    var b, ext := Basics(f), NextSweep(f, INITIAL_N, 0, INITIAL_BIAS);
    EncodeIsAscii(f);
    PointsOfBasics(f);
    NextSweepIsDigits(f, INITIAL_N, 0, INITIAL_BIAS);
    NextSweepNonempty(f, INITIAL_N, 0, INITIAL_BIAS);
    DelimiterFound(b, ext);
    assert Encode(f) == if b == "" then ext else b + "-" + ext;
  }
}
