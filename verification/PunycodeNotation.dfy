/**
  What the encoder's text means, in the numbers of RFC 3492 and without the names of the codec: which
  integers are written, in which notation (section 3.3), and how the bias is adapted (section 6.1).
  The laws of the other modules compare the encoder with the decoder; this one says which of all
  codecs that agree with themselves this one is.
 */
module PunycodeNotation {
  import opened Arithmetic
  import opened Sequences
  import opened PunycodeVarInt
  import opened PunycodeSpec
  import opened PunycodeRoundTrip
  import opened PunycodeCanonical

  // ------------------------------------------------------------ the notation of integers

  /** a-z are 0-25, 0-9 are 26-35; no other character is a digit. */
  function DigitValue(c: char): nat {
    if 'a' <= c <= 'z' then (c - 'a') as nat else if '0' <= c <= '9' then 26 + (c - '0') as nat else 36
  }

  /** The threshold of the digit at position `j`: 36 for every position from the first on, minus the
      bias, but not below 1 and not above 26. */
  function ThresholdAt(j: nat, bias: nat): (t: nat)
    ensures 1 <= t <= 26
  {
    var x := 36 * (j + 1) - bias;
    if x < 1 then 1 else if x > 26 then 26 else x
  }

  /** Little-endian digits with a variable base: only the last one is below its threshold. */
  predicate WellFormed(text: string, j: nat, bias: nat)
  {
    text != "" &&
    var d, t := DigitValue(text[0]), ThresholdAt(j, bias);
    if |text| == 1 then d < t else t <= d < 36 && WellFormed(text[1..], j + 1, bias)
  }

  function NumberOf(text: string, j: nat, bias: nat): nat
  {
    if text == "" then 0
    else DigitValue(text[0]) + Mul(NumberOf(text[1..], j + 1, bias), 36 - ThresholdAt(j, bias))
  }

  predicate Notates(text: string, q: nat, j: nat, bias: nat) {
    WellFormed(text, j, bias) && NumberOf(text, j, bias) == q
  }

  /** There is only one text for a number. */
  lemma {:induction false} NotatesUnique(x: string, y: string, j: nat, bias: nat)
    requires WellFormed(x, j, bias) && WellFormed(y, j, bias) && NumberOf(x, j, bias) == NumberOf(y, j, bias)
    ensures x == y
    decreases |x|
  {
    var d, e, t := DigitValue(x[0]), DigitValue(y[0]), ThresholdAt(j, bias);
    LowDigit(x, j, bias);
    LowDigit(y, j, bias);
    if |x| > 1 && |y| > 1 {
      NotatesUnique(x[1..], y[1..], j + 1, bias);
      assert x == [x[0]] + x[1..] && y == [y[0]] + y[1..];
    }
  }

  /** The first digit and the rest are determined by the number. */
  lemma LowDigit(x: string, j: nat, bias: nat)
    requires WellFormed(x, j, bias)
    ensures var q, t, d := NumberOf(x, j, bias), ThresholdAt(j, bias), DigitValue(x[0]);
            if |x| == 1 then q == d < t
            else q >= t && d == t + Mod(q - t, 36 - t) && NumberOf(x[1..], j + 1, bias) == Div(q - t, 36 - t)
  {
    var q, t, d := NumberOf(x, j, bias), ThresholdAt(j, bias), DigitValue(x[0]);
    if |x| == 1 {
      assert x[1..] == "";
    } else {
      DivModUnique(q - t, 36 - t, NumberOf(x[1..], j + 1, bias), d - t);
    }
  }

  lemma DigitMeans(d: nat)
    requires d < 36
    ensures DigitValue(EncodeDigit(d)) == d
  {
  }

  lemma ThresholdMeans(j: nat, bias: nat)
    ensures Threshold(36 * (j + 1), bias) == ThresholdAt(j, bias)
  {
  }

  /** `encode_var_int` writes its number in this notation, least digit first, from position 0 on. */
  lemma {:induction false} VarIntNotates(q: nat, j: nat, bias: nat)
    ensures Notates(VarInt(q, 36 * (j + 1), bias), q, j, bias)
    decreases q
  {
    hide Div, Mod, Mul, Threshold, ThresholdAt, EncodeDigit, DigitValue;
    var t, text := ThresholdAt(j, bias), VarInt(q, 36 * (j + 1), bias);
    ThresholdMeans(j, bias);
    if q < t {
      assert text == [EncodeDigit(q)] && text[1..] == "";
      DigitMeans(q);
      MulZero(36 - t);
      assert NumberOf(text[1..], j + 1, bias) == 0;
    } else {
      var digit, rest := DigitSplit(q, t, 1);
      DigitMeans(digit);
      MulOne(q);
      MulOne(digit);
      MulOne(36 - t);
      VarIntNotates(rest, j + 1, bias);
      assert text[1..] == VarInt(rest, 36 * (j + 2), bias);
    }
  }

  // ------------------------------------------------------------ the adaptation of the bias

  function PowerOf35(k: nat): (p: nat)
    requires k <= 5
    ensures p > 0
  {
    [1, 35, 1225, 42875, 1500625, 52521875][k]
  }

  /** `bias` is 36 * k + 36 * s / (s + 38), where s is the delta, scaled by 700 the first time and by 2
      later, plus its share per code point, and divided by 35 just as often (k times) as it takes to
      bring it to 455 or below. */
  ghost predicate IsBias(bias: nat, delta: nat, points: nat, first: bool, k: nat)
    requires 0 < points
  {
    k <= 5 &&
    var d := if first then delta / 700 else delta / 2;
    var x := d + Div(d, points);
    var s := x / PowerOf35(k);
    && s <= 455 && (k > 0 ==> x / PowerOf35(k - 1) > 455)
    && bias == 36 * k + Div(36 * s, s + 38)
  }

  lemma ScaledBy35(x: nat) returns (k: nat)
    requires x < 0x1_0000_0000
    ensures k <= 5 && x / PowerOf35(k) <= 455 && (k > 0 ==> x / PowerOf35(k - 1) > 455)
    ensures ScaleDown(x, 0) == (x / PowerOf35(k), 36 * k)
  {
    k := 0;
    if x > 455 { k := 1; }
    if x / 35 > 455 { k := 2; }
    if x / 1225 > 455 { k := 3; }
    if x / 42875 > 455 { k := 4; }
    if x / 1500625 > 455 { k := 5; }
    ScaledSteps(x);
  }

  lemma ScaledSteps(x: nat)
    requires x < 0x1_0000_0000
    ensures ScaleDown(x, 0)
         == if x <= 455 then (x, 0) else if x / 35 <= 455 then (x / 35, 36)
            else if x / 1225 <= 455 then (x / 1225, 72) else if x / 42875 <= 455 then (x / 42875, 108)
            else if x / 1500625 <= 455 then (x / 1500625, 144) else (x / 52521875, 180)
    ensures x / 52521875 <= 455
  {
    assert x / 35 / 35 == x / 1225 && x / 1225 / 35 == x / 42875;
    assert x / 42875 / 35 == x / 1500625 && x / 1500625 / 35 == x / 52521875;
    ScaleOnce(x, 0);
    ScaleOnce(x / 35, 36);
    ScaleOnce(x / 1225, 72);
    ScaleOnce(x / 42875, 108);
    ScaleOnce(x / 1500625, 144);
    ScaleOnce(x / 52521875, 180);
    hide ScaleDown;
  }

  lemma ScaleOnce(x: nat, k: nat)
    ensures ScaleDown(x, k) == if x > 455 then ScaleDown(x / 35, k + 36) else (x, k)
  {
  }

  lemma AdaptBiasMeans(delta: UInt32, points: UInt32, first: bool) returns (k: nat)
    requires 0 < points
    ensures IsBias(AdaptBias(delta, points, first), delta, points, first, k)
  {
    hide ScaleDown, Div, PowerOf35;
    AdaptBiasRange(delta, points, first);
    var d := if first then delta / 700 else delta / 2;
    k := ScaledBy35(d + Div(d, points));
  }

  /** The delta is cut to 32 bits for this, but not where it is written.  2^32 is the first delta of a label
      of 4095 basic code points and U+100080 in front of them; the bias after it is 0, which is not the
      bias for 2^32. */
  lemma BiasTruncated(k: nat)
    ensures Mul(0x10_0080 - 128, 4095 + 1) == 0x1_0000_0000
    ensures AdaptBias(Low32(0x1_0000_0000), Low32(4096), true) == 0
    ensures !IsBias(0, 0x1_0000_0000, 4096, true, k)
  {
    MulIs(0x10_0080 - 128, 4096);
    DivModIs(0, 4096);
    DivModIs(6135667, 4096);
    assert 0x1_0000_0000 / 700 == 6135667 && 6135667 / 4096 == 1497;
    assert ScaleDown(0, 0) == (0, 0);
    assert 6137164 > 455;
  }

  // ------------------------------------------------------------ the integers that are written

  /** The positions of the code points from 128 on, in the order of the code points, equal ones from
      left to right. */
  ghost predicate InOrder(src: CodePoints, todo: seq<nat>) {
    && (forall k :: 0 <= k < |todo| ==> todo[k] < |src| && src[todo[k]] >= 128)
    && (forall j, k :: 0 <= j < k < |todo| ==> Before(src, todo[j], todo[k]))
    && (forall p: nat :: p < |src| && src[p] >= 128 ==> p in todo)
  }

  ghost predicate Before(src: CodePoints, p: nat, q: nat) {
    p < |src| && q < |src| && (src[p] < src[q] || (src[p] == src[q] && p < q))
  }

  /** How many elements in front of `p` are there when the one at `p` is inserted */
  function Place(src: CodePoints, p: nat): nat
    requires p < |src|
  {
    var c: int := src[p];
    |Below(src[..p], c + 1)|
  }

  /** The text for the insertions still to do, the next possible one being for code point `n` at place
      `i` among `h` elements: for each the number of possible insertions passed over, then the rest.
      `b` is the number of elements at the beginning. */
  ghost predicate Writes(src: CodePoints, todo: seq<nat>, n: nat, i: nat, h: nat, b: nat, bias: nat, text: string)
    requires forall k :: 0 <= k < |todo| ==> todo[k] < |src|
    decreases |todo|
  {
    if todo == [] then text == ""
    else exists cut: nat, bias': nat, k: nat ::
      WritesOne(src, todo, n, i, h, b, bias, text, cut, bias', k)
      && Writes(src, todo[1..], src[todo[0]], Place(src, todo[0]) + 1, h + 1, b, bias', text[cut..])
  }

  ghost predicate WritesOne(src: CodePoints, todo: seq<nat>, n: nat, i: nat, h: nat, b: nat, bias: nat, text: string,
                            cut: nat, bias': nat, k: nat)
    requires todo != [] && todo[0] < |src|
  {
    var from, to := Mul(n, h + 1) + i, Mul(src[todo[0]], h + 1) + Place(src, todo[0]);
    && cut <= |text| && from <= to
    && Notates(text[..cut], to - from, 0, bias)
    && IsBias(bias', (to - from) % 0x1_0000_0000, h + 1, h == b, k)
  }

  // ------------------------------------------------------------ the encoder's order

  /** Moving along a sweep handles nothing where the code point does not occur. */
  lemma HandledAlong(src: CodePoints, n: nat, p: nat, q: nat)
    requires p <= q <= |src| && forall j :: p <= j < q ==> src[j] != n
    ensures Handled(src, n, p) == Handled(src, n, q)
  {
    var mid := src[p..q];
    assert src[..q] == src[..p] + mid && src[p..] == mid + src[q..];
    BelowConcat(src[..p], mid, n + 1);
    BelowConcat(mid, src[q..], n);
    BelowGap(mid, n, n + 1);
  }

  /** Nothing is handled between two neighbours in the order. */
  lemma HandledBetween(src: CodePoints, n: nat, p: nat, n2: nat, p2: nat)
    requires p <= |src| && p2 <= |src| && (n < n2 || (n == n2 && p <= p2))
    requires forall j :: 0 <= j < |src| ==>
               !((n < src[j] || (n == src[j] && p <= j)) && (src[j] < n2 || (src[j] == n2 && j < p2)))
    ensures Handled(src, n, p) == Handled(src, n2, p2)
  {
    hide Below, Handled;
    if n == n2 {
      HandledAlong(src, n, p, p2);
    } else {
      HandledAlong(src, n, p, |src|);
      SweepEnd(src, n);
      BelowGap(src, n + 1, n2);
      SweepStart(src, n2);
      HandledAlong(src, n2, 0, p2);
    }
  }

  lemma NothingLeft(src: CodePoints, n: nat, p: nat)
    requires p <= |src| && forall j :: 0 <= j < |src| ==> src[j] < n || (src[j] == n && j < p)
    ensures |Handled(src, n, p)| == |src|
  {
    BelowAll(src[..p], n + 1);
    BelowAll(src[p..], n);
  }

  /** What is in front of the first position to do has been handled. */
  lemma OrderGap(src: CodePoints, todo: seq<nat>, n: nat, p: nat)
    requires Left(src, todo, n, p) && todo != []
    ensures forall j :: 0 <= j < |src| ==>
              !((n < src[j] || (n == src[j] && p <= j))
                && (src[j] < src[todo[0]] || (src[j] == src[todo[0]] && j < todo[0])))
  {
    forall j | 0 <= j < |src| && (n < src[j] || (n == src[j] && p <= j))
      ensures !(src[j] < src[todo[0]] || (src[j] == src[todo[0]] && j < todo[0]))
    {
      assert j in todo;
      var k :| 0 <= k < |todo| && todo[k] == j;
      if k > 0 { assert Before(src, todo[0], todo[k]); }
    }
  }

  /** `todo` is what is left to do at (n, p), in order. */
  ghost predicate Left(src: CodePoints, todo: seq<nat>, n: nat, p: nat) {
    && 128 <= n && p <= |src|
    && (forall k :: 0 <= k < |todo| ==> todo[k] < |src| && (n < src[todo[k]] || (n == src[todo[k]] && p <= todo[k])))
    && (forall j, k :: 0 <= j < k < |todo| ==> Before(src, todo[j], todo[k]))
    && (forall q: nat :: q < |src| && (n < src[q] || (n == src[q] && p <= q)) ==> q in todo)
  }

  lemma LeftNext(src: CodePoints, todo: seq<nat>, n: nat, p: nat)
    requires Left(src, todo, n, p) && todo != []
    ensures Left(src, todo[1..], src[todo[0]], todo[0] + 1)
  {
    var c, q := src[todo[0]], todo[0];
    forall k | 0 <= k < |todo[1..]| ensures Before(src, q, todo[1..][k]) {
      assert Before(src, todo[0], todo[k + 1]);
    }
    forall r: nat | r < |src| && (c < src[r] || (c == src[r] && q + 1 <= r)) ensures r in todo[1..] {
      assert r in todo;
      var k :| 0 <= k < |todo| && todo[k] == r;
      assert k > 0 && todo[1..][k - 1] == r;
    }
  }

  /** One insertion: the encoder writes the number of insertion points passed over, adapts the bias, and
      goes on behind the element inserted. */
  lemma OneInsertion(src: Label, todo: seq<nat>, n: nat, p: nat, bias: nat)
    returns (cut: nat, bias': nat, k: nat)
    requires Left(src, todo, n, p) && todo != []
    ensures todo[0] < |src|
    ensures var h, text := |Handled(src, n, p)|, Sweep(src, n, p, 0, bias);
            && WritesOne(src, todo, n, Seen(src, n, p), h, |Below(src, 128)|, bias, text, cut, bias', k)
            && text[cut..] == Sweep(src, src[todo[0]], todo[0] + 1, 0, bias')
            && |Handled(src, src[todo[0]], todo[0] + 1)| == h + 1
            && Seen(src, src[todo[0]], todo[0] + 1) == Place(src, todo[0]) + 1
  {
    hide VarInt, AdaptBias, Notates, IsBias, Below, Handled, Seen, Mul;
    var c, q, h := src[todo[0]], todo[0], |Handled(src, n, p)|;
    assert todo[0] < |src| && (n < c || (n == c && p <= q));
    OrderGap(src, todo, n, p);
    HandledBetween(src, n, p, c, q);
    PlaceIsSeen(src, q);
    InsertedHere(src, q);
    FromBefore(src, n, p, c, q);
    var from, to := Mul(n, h + 1) + Seen(src, n, p), Mul(c, h + 1) + Place(src, q);
    SkipTo(src, n, p, 0, c, q, to - from, bias, from);
    var text := VarInt(to - from, 36, bias);
    VarIntNotates(to - from, 0, bias);
    bias' := NewBias(src, c, q, to - from);
    HandledBound(src, c, q + 1);
    k := AdaptBiasMeans(Low32(to - from), Low32(h + 1), h == |Below(src, INITIAL_N)|);
    cut := |text|;
    assert Sweep(src, c, q, to - from, bias) == text + Sweep(src, c, q + 1, 0, bias');
  }

  lemma PlaceIsSeen(src: CodePoints, q: nat)
    requires q < |src|
    ensures Place(src, q) == Seen(src, src[q], q)
  {
  }

  lemma InsertedHere(src: CodePoints, q: nat)
    requires q < |src|
    ensures |Handled(src, src[q], q + 1)| == |Handled(src, src[q], q)| + 1
    ensures Seen(src, src[q], q + 1) == Seen(src, src[q], q) + 1
  {
    CountStep(src, src[q], q);
  }

  /** Insertion points are numbered upwards. */
  lemma FromBefore(src: CodePoints, n: nat, p: nat, c: nat, q: nat)
    requires p <= |src| && q <= |src| && (n < c || (n == c && p <= q))
    requires |Handled(src, n, p)| == |Handled(src, c, q)|
    ensures var h := |Handled(src, n, p)|; Mul(n, h + 1) + Seen(src, n, p) <= Mul(c, h + 1) + Seen(src, c, q)
  {
    var h := |Handled(src, n, p)|;
    assert Seen(src, n, p) <= h;
    hide Handled;
    if n == c {
      assert src[..q] == src[..p] + src[p..q];
      BelowConcat(src[..p], src[p..q], n + 1);
    } else {
      hide Below;
      MulMonotone(n + 1, c, h + 1);
      MulAdd(n, 1, h + 1);
      MulOne(h + 1);
    }
  }

  lemma {:induction false} SweepWrites(src: Label, todo: seq<nat>, n: nat, p: nat, bias: nat)
    requires Left(src, todo, n, p)
    ensures Writes(src, todo, n, Seen(src, n, p), |Handled(src, n, p)|, |Below(src, 128)|, bias,
                   Sweep(src, n, p, 0, bias))
    decreases |todo|
  {
    hide Below, Handled, Seen, Sweep, WritesOne, Notates, IsBias;
    if todo == [] {
      NothingLeft(src, n, p);
      SweepDone(src, n, p, 0, bias);
    } else {
      var cut, bias', k := OneInsertion(src, todo, n, p, bias);
      LeftNext(src, todo, n, p);
      SweepWrites(src, todo[1..], src[todo[0]], todo[0] + 1, bias');
    }
  }

  /** The whole text: the basic code points in order, a delimiter if there are any and something
      follows, and the insertions, starting with code point 128, place 0 and bias 72. */
  lemma EncodeWrites(src: Label, todo: seq<nat>)
    requires InOrder(src, todo)
    ensures var basic := Below(src, 128);
            && Encode(src) == Basics(src) + (if basic != [] && todo != [] then "-" else "")
                            + NextSweep(src, 128, 0, 72)
            && Points(Basics(src)) == basic
            && Writes(src, todo, 128, 0, |basic|, |basic|, 72, NextSweep(src, 128, 0, 72))
  {
    PointsOfBasics(src);
    TodoOrBasic(src, todo);
    hide Below, Writes, Points, Basics, NextSweep, InOrder;
    if todo == [] {
      NextSweepNonempty(src, 128, 0, 72);
      WritesNothing(src, |Below(src, 128)|);
    } else {
      FromTheStart(src, todo);
    }
  }

  lemma TodoOrBasic(src: CodePoints, todo: seq<nat>)
    requires InOrder(src, todo)
    ensures todo == [] <==> |Below(src, 128)| == |src|
    ensures |Below(src, 128)| <= |src|
  {
    BelowAll(src, 128);
    hide Below;
    if todo != [] { assert src[todo[0]] >= 128; }
  }

  lemma FromTheStart(src: Label, todo: seq<nat>)
    requires InOrder(src, todo) && todo != []
    ensures var b := |Below(src, 128)|; Writes(src, todo, 128, 0, b, b, 72, NextSweep(src, 128, 0, 72))
  {
    hide Below, Writes, NextSweep, Sweep, Handled, Seen;
    TodoOrBasic(src, todo);
    SweepStart(src, 128);
    NextIsSweep(src, 128, 0, 72);
    SweepWrites(src, todo, 128, 0, 72);
  }

  lemma WritesNothing(src: CodePoints, b: nat)
    ensures Writes(src, [], 128, 0, b, b, 72, "")
  {
  }

  // ------------------------------------------------------------ one code point among basic ones

  lemma FirstThresholds(j: nat)
    ensures ThresholdAt(j, 72) == if j < 2 then 1 else 26
  {
  }

  lemma OneAmongBasic(a: CodePoints, c: UInt32, z: CodePoints)
    requires AllBelow(a, 128) && AllBelow(z, 128) && c >= 128
    ensures var src := a + [c] + z;
            && InOrder(src, [|a|]) && Below(src, 128) == a + z && Place(src, |a|) == |a|
  {
    var src := a + [c] + z;
    assert src[|a|] == c && src[..|a|] == a;
    BelowConcat(a + [c], z, 128);
    BelowConcat(a, [c], 128);
    BelowAll(a, 128);
    BelowAll(z, 128);
    BelowAll(a, c + 1);
    assert forall p: nat :: p < |src| && src[p] >= 128 ==> p == |a|;
  }

  lemma WritesSingle(src: CodePoints, p: nat, b: nat, text: string)
    requires p < |src| && Writes(src, [p], 128, 0, b, b, 72, text)
    ensures Mul(128, b + 1) <= Mul(src[p], b + 1) + Place(src, p)
    ensures Notates(text, Mul(src[p], b + 1) + Place(src, p) - Mul(128, b + 1), 0, 72)
  {
    hide Notates, IsBias, Mul, Place;
    var todo := [p];
    assert todo[1..] == [];
    var cut: nat, bias': nat, k: nat :|
      WritesOne(src, todo, 128, 0, b, b, 72, text, cut, bias', k)
      && Writes(src, todo[1..], src[p], Place(src, p) + 1, b + 1, b, bias', text[cut..]);
    assert text[cut..] == "" && text[..cut] == text;
  }

  /** A label with a single code point that is not basic: the other ones, a delimiter if there are any,
      and the number of the insertion point, in digits of which all but the last are at least 1, 1, 26,
      26, and so on. */
  lemma OneCodePoint(src: Label, a: CodePoints, c: UInt32, z: CodePoints)
    requires AllBelow(a, 128) && AllBelow(z, 128) && c >= 128 && src == a + [c] + z
    ensures var text := NextSweep(src, 128, 0, 72);
            && Encode(src) == Chars(a + z) + (if a + z != [] then "-" else "") + text
            && Notates(text, Mul(c - 128, |a| + |z| + 1) + |a|, 0, 72)
  {
    OneAmongBasic(a, c, z);
    BasicsAre(src, a + z);
    hide *;
    EncodeWrites(src, [|a|]);
    assert src[|a|] == c;
    WritesSingle(src, |a|, |a| + |z|, NextSweep(src, 128, 0, 72));
    MulAdd(128, c - 128, |a| + |z| + 1);
  }

  lemma BasicsAre(src: CodePoints, basic: CodePoints)
    requires Below(src, 128) == basic && AllBelow(basic, 128)
    ensures Basics(src) == Chars(basic)
  {
  }

  /** A string with a single integer behind ASCII characters is decoded to these and one more code point,
      whatever its number: 128 and the quotient, cut to 32 bits, at the place that is the remainder. */
  lemma DecodesOne(b: string, text: string, q: nat, cap: nat)
    requires IsAscii(b) && |b| < cap < MAX_POINTS && Notates(text, q, 0, 72) && q <= SIZE_MAX / 36
    ensures var h := |b| + 1;
            var s, n := (if b == "" then "" else b + "-") + text, 128 + Div(q, h);
            && Mod(q, h) <= |b| && s != ""
            && Decode(s, cap) == Decoded(InsertAt(Points(b), Mod(q, h), n % 0x1_0000_0000), |s|, n, true)
  {
    VarIntNotates(q, 0, 72);
    NotatesUnique(text, VarInt(q, 36, 72), 0, 72);
    VarIntDigits(q, 36, 72);
    DelimiterFound(b, text);
    AsciiWith(b, text);
    hide *;
    var s := (if b == "" then "" else b + "-") + text;
    OneRound(b, s, |s| - |text|, q, cap);
    DecodeBehind(b, s, cap);
  }

  lemma DecodeBehind(b: string, s: string, cap: nat)
    requires s != "" && IsAscii(s) && Delimiter(s) == |b| < cap < MAX_POINTS && b <= s && (b != "" ==> |b| < |s|)
    ensures Decode(s, cap) == DecodeLoop(s, if b == "" then 0 else |b| + 1, 128, 0, 72, Points(b), cap)
  {
    hide Delimiter, DecodeLoop, IsAscii;
    assert s[..Copied(s, cap)] == b;
  }

  lemma AsciiWith(b: string, text: string)
    requires IsAscii(b) && DigitsOnly(text, 0, |text|)
    ensures IsAscii((if b == "" then "" else b + "-") + text)
  {
    var s := (if b == "" then "" else b + "-") + text;
    forall c | c in s ensures c < 128 as char {
      var j :| 0 <= j < |s| && s[j] == c;
      if j < |b| { assert s[j] in b; }
      if j >= |s| - |text| { assert s[j] == text[j - (|s| - |text|)]; }
    }
  }

  lemma OneRound(b: string, s: string, si: nat, q: nat, cap: nat)
    requires |b| < cap < MAX_POINTS && q <= SAFE_MAX && si < |s| && VarInt(q, 36, 72) == s[si..]
    ensures var n := 128 + Div(q, |b| + 1);
            && Mod(q, |b| + 1) <= |b|
            && DecodeLoop(s, si, 128, 0, 72, Points(b), cap)
               == Decoded(InsertAt(Points(b), Mod(q, |b| + 1), n % 0x1_0000_0000), |s|, n, true)
  {
    hide ReadVarInt, VarInt, AdaptBias, Div, Mod, InsertAt;
    ReadBack(s, si, 0, 1, q, 36, 72);
    MulOne(q);
    DivModSplit(q, |b| + 1);
    assert ReadVarInt(s, si, 0, 1, 36, 72) == Number(q, |s|);
    LoopEnds(s, 128 + Div(q, |b| + 1), Mod(q, |b| + 1) + 1, AdaptBias(Low32(q), Low32(|b| + 1), true),
             InsertAt(Points(b), Mod(q, |b| + 1), Low32(128 + Div(q, |b| + 1))), cap);
  }

  lemma LoopEnds(s: string, n: nat, i: nat, bias: nat, out: CodePoints, cap: nat)
    requires n <= SIZE_MAX && i <= |out| <= cap < MAX_POINTS
    ensures DecodeLoop(s, |s|, n, i, bias, out, cap) == Decoded(out, |s|, n, true)
  {
  }

  /** The encoding of U+00FC alone. */
  lemma Example()
    ensures Encode([0xFC]) == "tda"
  {
    OneCodePoint([0xFC], [], 0xFC, []);
    assert [] + [0xFC as UInt32] + [] == [0xFC];
    var text := NextSweep([0xFC], 128, 0, 72);
    MulOne(124);
    var none: CodePoints := [];
    assert Chars(none + none) == "" && none + none == [];
    TdaNotates();
    NotatesUnique(text, "tda", 0, 72);
  }

  lemma TdaNotates()
    ensures Notates("tda", 124, 0, 72)
  {
    assert "tda"[1..] == "da" && "da"[1..] == "a" && "a"[1..] == "";
    MulIs(NumberOf("", 3, 72), 10);
    MulIs(NumberOf("a", 2, 72), 35);
    MulIs(NumberOf("da", 1, 72), 35);
  }
}
