/**
  What the Punycode encoder and decoder compute, as functions on sequences.  The methods of
  `PunycodeCodec` are proved to compute these; the laws about them are proved in
  `PunycodeRoundTrip`, `PunycodeCanonical` and `PunycodeSize`.
 */
module PunycodeSpec {
  import opened Arithmetic
  import opened PunycodeVarInt

  /** Below this many code points no `unsigned` counter of the codec can wrap. */
  const MAX_POINTS: nat := 0x8000_0000

  type CodePoints = seq<UInt32>
  type Label = s: CodePoints | |s| < MAX_POINTS

  // ------------------------------------------------------------ filtering

  /** The elements of `s` below `n`, in order. */
  function Below(s: CodePoints, n: nat): (r: CodePoints)
    ensures |r| <= |s|
  {
    if s == [] then [] else (if s[0] < n then [s[0]] else []) + Below(s[1..], n)
  }

  /** What the encoder has written by the time its sweep for `n` reaches position `p`. */
  function Handled(src: CodePoints, n: nat, p: nat): CodePoints
    requires p <= |src|
  {
    Below(src[..p], n + 1) + Below(src[p..], n)
  }

  /** The least element of at least `n`, or SIZE_MAX. */
  function MinFrom(src: CodePoints, n: nat): nat
  {
    if src == [] then SIZE_MAX
    else
      var m := MinFrom(src[..|src| - 1], n);
      var last := src[|src| - 1];
      if last >= n && last < m then last else m
  }

  lemma {:induction false} BelowConcat(a: CodePoints, b: CodePoints, n: nat)
    ensures Below(a + b, n) == Below(a, n) + Below(b, n)
  {
    if a == [] {
      assert a + b == b;
    } else {
      var head := if a[0] < n then [a[0]] else [];
      assert Below(a + b, n) == head + Below(a[1..] + b, n) by {
        assert (a + b)[1..] == a[1..] + b;
      }
      BelowConcat(a[1..], b, n);
    }
  }

  predicate AllBelow(s: CodePoints, n: nat) {
    forall j :: 0 <= j < |s| ==> s[j] < n
  }

  lemma {:induction false} BelowIsBelow(s: CodePoints, n: nat)
    ensures AllBelow(Below(s, n), n)
  {
    if s != [] {
      BelowIsBelow(s[1..], n);
    }
  }

  lemma {:induction false} BelowBelow(s: CodePoints, n: nat, m: nat)
    requires n <= m
    ensures Below(Below(s, m), n) == Below(s, n)
    ensures |Below(s, n)| <= |Below(s, m)|
  {
    if s != [] {
      BelowBelow(s[1..], n, m);
      BelowConcat(if s[0] < m then [s[0]] else [], Below(s[1..], m), n);
    }
  }

  /** Filtering changes nothing exactly when there is nothing to drop. */
  lemma {:induction false} BelowAll(s: CodePoints, n: nat)
    ensures |Below(s, n)| == |s| <==> AllBelow(s, n)
    ensures |Below(s, n)| == |s| ==> Below(s, n) == s
  {
    if s != [] {
      BelowAll(s[1..], n);
      assert AllBelow(s, n) <==> s[0] < n && AllBelow(s[1..], n) by {
        assert forall j :: 1 <= j < |s| ==> s[j] == s[1..][j - 1];
      }
    }
  }

  /** No element lies between the two bounds. */
  lemma {:induction false} BelowGap(s: CodePoints, n: nat, m: nat)
    requires n <= m && forall j :: 0 <= j < |s| ==> s[j] < n || m <= s[j]
    ensures Below(s, n) == Below(s, m)
  {
    if s != [] {
      BelowGap(s[1..], n, m);
    }
  }

  lemma {:induction false} BelowSplit(s: CodePoints, p: nat, n: nat)
    requires p <= |s|
    ensures Below(s, n) == Below(s[..p], n) + Below(s[p..], n)
  {
    assert s == s[..p] + s[p..];
    BelowConcat(s[..p], s[p..], n);
  }

  lemma {:induction false} MinFromLeast(src: CodePoints, n: nat)
    ensures forall j :: 0 <= j < |src| && src[j] >= n ==> MinFrom(src, n) <= src[j]
    ensures MinFrom(src, n) == SIZE_MAX
         || (n <= MinFrom(src, n) && exists j :: 0 <= j < |src| && src[j] == MinFrom(src, n))
  {
    if src != [] {
      var front, last := src[..|src| - 1], |src| - 1;
      MinFromLeast(front, n);
      assert forall j :: 0 <= j < last ==> front[j] == src[j];
      if MinFrom(src, n) == src[last] {
      } else if MinFrom(src, n) != SIZE_MAX {
        var j :| 0 <= j < |front| && front[j] == MinFrom(src, n);
        assert src[j] == MinFrom(src, n);
      }
    }
  }

  lemma {:induction false} BelowStrict(s: CodePoints, p: nat, m: nat)
    requires p < |s| && s[p] == m
    ensures |Below(s, m)| < |Below(s, m + 1)|
  {
    if p == 0 {
      BelowBelow(s[1..], m, m + 1);
    } else {
      BelowStrict(s[1..], p - 1, m);
    }
  }

  /** While something is left to handle, the next sweep is for an element of the source, skips
      nothing, and handles more than before. */
  lemma NextPoint(src: CodePoints, n: nat)
    requires |Below(src, n)| < |src|
    ensures var m := MinFrom(src, n);
            && n <= m < UINT32_MOD && (exists p :: 0 <= p < |src| && src[p] == m)
            && Below(src, n) == Below(src, m)
            && |Below(src, n)| < |Below(src, m + 1)|
  {
    MinFromLeast(src, n);
    BelowAll(src, n);
    hide Below, MinFrom;
    var m := MinFrom(src, n);
    BelowGap(src, n, m);
    var p :| 0 <= p < |src| && src[p] == m;
    BelowStrict(src, p, m);
  }

  /** How one element moves from the unseen to the seen part of a sweep. */
  lemma CountStep(src: CodePoints, n: nat, p: nat)
    requires p < |src|
    ensures Below(src[..p + 1], n + 1) == Below(src[..p], n + 1) + (if src[p] <= n then [src[p]] else [])
    ensures Below(src[p..], n) == (if src[p] < n then [src[p]] else []) + Below(src[p + 1..], n)
  {
    assert src[..p + 1] == src[..p] + [src[p]];
    BelowConcat(src[..p], [src[p]], n + 1);
    assert src[p..][1..] == src[p + 1..];
  }

  // ------------------------------------------------------------ encoding

  /** The output of the encoder's outer loop, entered with this state. */
  function NextSweep(src: Label, n: nat, delta: nat, bias: nat): string
    decreases |src| - |Below(src, n)|, 0
  {
    var h := |Below(src, n)|;
    if h >= |src| then ""
    else
      var m := MinFrom(src, n);
      NextPoint(src, n);
      Sweep(src, m, 0, delta + Mul(m - n, h + 1), bias)
  }

  /** The output of the sweep for `n` from position `p` on, and of everything after it. */
  function Sweep(src: Label, n: nat, p: nat, delta: nat, bias: nat): string
    requires p <= |src|
    decreases |src| - |Below(src, n + 1)|, |src| - p + 1
  {
    if p == |src| then NextSweep(src, n + 1, delta + 1, bias)
    else if src[p] < n then Sweep(src, n, p + 1, delta + 1, bias)
    else if src[p] == n then
      VarInt(delta, BASE, bias) + Sweep(src, n, p + 1, 0, NewBias(src, n, p, delta))
    else Sweep(src, n, p + 1, delta, bias)
  }

  function NewBias(src: Label, n: nat, p: nat, delta: nat): nat
    requires p <= |src|
  {
    var h := |Handled(src, n, p)|;
    HandledBound(src, n, p);
    AdaptBias(Low32(delta), Low32(h + 1), h == |Below(src, INITIAL_N)|)
  }

  lemma HandledBound(src: CodePoints, n: nat, p: nat)
    requires p <= |src|
    ensures |Handled(src, n, p)| <= |src|
  {
  }

  function Chars(s: CodePoints): (r: string)
    requires AllBelow(s, INITIAL_N)
    ensures |r| == |s|
  {
    seq(|s|, j requires 0 <= j < |s| => s[j] as char)
  }

  function Points(s: string): (r: CodePoints)
    ensures |r| == |s|
  {
    seq(|s|, j requires 0 <= j < |s| => s[j] as int)
  }

  function Basics(src: CodePoints): string
  {
    BelowIsBelow(src, INITIAL_N);
    Chars(Below(src, INITIAL_N))
  }

  /** The whole output of the encoder, for a large enough buffer. */
  function Encode(src: Label): string
  {
    var b := Basics(src);
    b + (if b != "" && |b| < |src| then "-" else "") + NextSweep(src, INITIAL_N, 0, INITIAL_BIAS)
  }

  // ------------------------------------------------------------ decoding

  function InsertAt(out: CodePoints, at: nat, c: UInt32): (r: CodePoints)
    requires at <= |out|
    ensures |r| == |out| + 1
  {
    out[..at] + [c] + out[at..]
  }

  /** `ok` tells that no character was refused and no overflow guard fired; `n` is the last
      value of the decoder's code point counter, before its narrowing to 32 bits. */
  datatype Decoded = Decoded(out: CodePoints, used: nat, n: nat, ok: bool)

  function DecodeLoop(s: string, si: nat, n: nat, i: nat, bias: nat, out: CodePoints, cap: nat): (r: Decoded)
    requires si <= |s| && n <= SIZE_MAX && i <= |out| <= cap < MAX_POINTS
    ensures |out| <= |r.out| <= cap && n <= r.n <= SIZE_MAX && r.used <= |s| + 1
    ensures |r.out| <= |out| + (|s| - si)
    decreases |s| - si
  {
    if si < |s| && |out| < cap then
      match ReadVarInt(s, si, i, 1, BASE, bias)
      case Stuck(next) => Decoded(out, next, n, false)
      case Number(total, next) =>
        var points := |out| + 1;
        DivModSplit(total, points);
        if Div(total, points) > SIZE_MAX - n then Decoded(out, next, n, false)
        else
          var n' := n + Div(total, points);
          var at := Mod(total, points);
          DecodeLoop(s, next, n', at + 1, AdaptBias(Low32(total - i), Low32(points), i == 0),
                     InsertAt(out, at, Low32(n')), cap)
    else Decoded(out, si, n, true)
  }

  predicate IsAscii(s: string) {
    forall c :: c in s ==> c < 128 as char
  }

  /** The last '-' after the first character of `s[..p + 1]`, or 0. */
  function DelimiterUpTo(s: string, p: nat): (r: nat)
    requires p < |s|
    ensures r <= p && (r == 0 || s[r] == '-')
    ensures forall j :: r < j <= p ==> s[j] != '-'
  {
    if p == 0 || s[p] == '-' then p else DelimiterUpTo(s, p - 1)
  }

  function Delimiter(s: string): (r: nat)
    ensures r < |s| || r == |s| == 0
  {
    if s == "" then 0 else DelimiterUpTo(s, |s| - 1)
  }

  /** The index of the delimiter in `size_t`: for an empty source the search starts in front of it. */
  function DelimiterIndex(s: string): nat {
    if s == "" then SIZE_MAX else Delimiter(s)
  }

  /** How many characters the decoder copies before its main loop. */
  function Copied(s: string, cap: nat): nat {
    Min(DelimiterIndex(s), cap)
  }

  /** The copies stay inside the source exactly if it is not empty or the buffer has no room. */
  lemma CopiesInsideExactly(s: string, cap: nat)
    ensures Copied(s, cap) <= |s| <==> s != "" || cap == 0
  {
  }

  /** The whole result of the decoder, for a buffer with room for `cap` code points. */
  function Decode(s: string, cap: nat): (r: Decoded)
    requires cap < MAX_POINTS && (s != "" || cap == 0)
    ensures |r.out| <= cap && |r.out| <= |s|
  {
    if !IsAscii(s) then Decoded([], 0, INITIAL_N, false)
    else
      var b := Delimiter(s);
      DecodeLoop(s, if b > 0 then b + 1 else 0, INITIAL_N, 0, INITIAL_BIAS, Points(s[..Copied(s, cap)]), cap)
  }

  /** The number of code points that the decoder reports; for an empty source the ones it has copied
      from behind it. */
  function Reported(s: string, cap: nat): nat
    requires cap < MAX_POINTS
  {
    if s == "" then Copied(s, cap) else |Decode(s, cap).out|
  }
}
