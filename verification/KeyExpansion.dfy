/**
  `BF_set_key`: the cyclic expansion of a password into 18 words, its historical variant with sign
  extension, and the safety measure that is computed without branches.
 */
module KeyExpansion {
  import opened Arithmetic

  /** A C string: no byte is the terminator. */
  type Key = k: seq<bv8> | forall j :: 0 <= j < |k| ==> k[j] != 0 witness []

  const WORDS: nat := 18

  /** `BF_init_state.P` */
  const INITIAL_P: seq<bv32> := [
    0x243f6a88, 0x85a308d3, 0x13198a2e, 0x03707344, 0xa4093822, 0x299f31d0, 0x082efa98, 0xec4e6c89, 0x452821e6,
    0x38d01377, 0xbe5466cf, 0x34e90c6c, 0xc0ac29b7, 0xc97c50dd, 0x3f84d5b5, 0xb5470917, 0x9216d5d9, 0x8979fb1b]

  // ------------------------------------------------------------ the bytes read

  /** The byte at a position, or the terminator. */
  function ByteAt(key: Key, at: nat): bv8
    requires at <= |key|
  {
    if at == |key| then 0 else key[at]
  }

  /** After the terminator the pointer starts over. */
  function Next(key: Key, at: nat): (r: nat)
    requires at <= |key|
    ensures r <= |key|
  {
    if at == |key| then 0 else at + 1
  }

  /** Where the pointer is after `k` bytes. */
  function Place(key: Key, k: nat): (at: nat)
    ensures at <= |key|
  {
    if k == 0 then 0 else Next(key, Place(key, k - 1))
  }

  function Stream(key: Key, k: nat): bv8 {
    ByteAt(key, Place(key, k))
  }

  /** The stream is the infinite repetition of the key and its terminator. */
  lemma {:induction false} StreamRepeats(key: Key, k: nat)
    ensures Place(key, k) == Mod(k, |key| + 1)
    ensures Stream(key, k) == (key + [0 as bv8])[Mod(k, |key| + 1)]
  {
    var n := |key| + 1;
    if k > 0 {
      StreamRepeats(key, k - 1);
      DivModSplit(k - 1, n);
      var a, b := Div(k - 1, n), Mod(k - 1, n);
      if b + 1 < n {
        DivModUnique(k, n, a, b + 1);
      } else {
        DivModUnique(k, n, a + 1, 0);
      }
    }
  }

  // ------------------------------------------------------------ words

  function SignExtend(b: bv8): bv32 {
    if b >= 0x80 then 0xffff_ff00 | (b as bv32) else b as bv32
  }

  function ZeroExtend(b: bv8): bv32 {
    b as bv32
  }

  /** `w <<= 8; w |= b` */
  function Push(w: bv32, b: bv32): bv32 {
    (w << 8) | b
  }

  /** The first `j` bytes of word `i`, shifted together. */
  function Correct(key: Key, i: nat, j: nat): bv32 {
    if j == 0 then 0 else Push(Correct(key, i, j - 1), ZeroExtend(Stream(key, 4 * i + j - 1)))
  }

  /** The same with sign extension of every byte. */
  function Buggy(key: Key, i: nat, j: nat): bv32 {
    if j == 0 then 0 else Push(Buggy(key, i, j - 1), SignExtend(Stream(key, 4 * i + j - 1)))
  }

  function FourPushed(b0: bv32, b1: bv32, b2: bv32, b3: bv32): bv32 {
    Push(Push(Push(Push(0, b0), b1), b2), b3)
  }

  lemma WordsPushed(key: Key, i: nat)
    ensures var b0, b1 := Stream(key, 4 * i), Stream(key, 4 * i + 1);
            var b2, b3 := Stream(key, 4 * i + 2), Stream(key, 4 * i + 3);
            && Correct(key, i, 4) == FourPushed(ZeroExtend(b0), ZeroExtend(b1), ZeroExtend(b2), ZeroExtend(b3))
            && Buggy(key, i, 4) == FourPushed(SignExtend(b0), SignExtend(b1), SignExtend(b2), SignExtend(b3))
  {
    hide Stream, Push, SignExtend, ZeroExtend;
    assert Correct(key, i, 2) == Push(Correct(key, i, 1), ZeroExtend(Stream(key, 4 * i + 1)));
    assert Buggy(key, i, 2) == Push(Buggy(key, i, 1), SignExtend(Stream(key, 4 * i + 1)));
    assert Correct(key, i, 3) == Push(Correct(key, i, 2), ZeroExtend(Stream(key, 4 * i + 2)));
    assert Buggy(key, i, 3) == Push(Buggy(key, i, 2), SignExtend(Stream(key, 4 * i + 2)));
  }

  function BigEndian(b0: bv8, b1: bv8, b2: bv8, b3: bv8): bv32 {
    ((b0 as bv32) << 24) | ((b1 as bv32) << 16) | ((b2 as bv32) << 8) | (b3 as bv32)
  }

  lemma FourBigEndian(b0: bv8, b1: bv8, b2: bv8, b3: bv8)
    ensures FourPushed(ZeroExtend(b0), ZeroExtend(b1), ZeroExtend(b2), ZeroExtend(b3)) == BigEndian(b0, b1, b2, b3)
  {
  }

  /** Without the historical error a word is four bytes of the stream, the first one on top. */
  lemma WordBigEndian(key: Key, i: nat)
    ensures Correct(key, i, 4)
         == BigEndian(Stream(key, 4 * i), Stream(key, 4 * i + 1), Stream(key, 4 * i + 2), Stream(key, 4 * i + 3))
  {
    hide *;
    WordsPushed(key, i);
    FourBigEndian(Stream(key, 4 * i), Stream(key, 4 * i + 1), Stream(key, 4 * i + 2), Stream(key, 4 * i + 3));
  }

  // ------------------------------------------------------------ the safety measure

  /** Both algorithms agree in the first `n` words. */
  ghost predicate Agree(key: Key, n: nat) {
    forall i: nat :: i < n ==> Correct(key, i, 4) == Buggy(key, i, 4)
  }

  /** One of the first `m` bytes has its high bit set and is not the first byte of a word. */
  ghost predicate HighByte(key: Key, m: nat) {
    exists k: nat :: k < m && k % 4 != 0 && Stream(key, k) >= 0x80
  }

  /** When the password has to be kept apart from those that the historical algorithm confuses. */
  ghost predicate Flips(key: Key, flags: bv8) {
    HasSafety(flags) && Agree(key, WORDS) && HighByte(key, 4 * WORDS)
  }

  /** `sign |= w & 0x80` */
  function SeeSign(sign: bv32, w: bv32): bv32 {
    sign | (w & 0x80)
  }

  lemma SignSeen(sign: bv32, w: bv32, b: bv8)
    requires sign == 0 || sign == 0x80
    ensures SeeSign(sign, Push(w, SignExtend(b))) == if sign == 0x80 || b >= 0x80 then 0x80 else 0
  {
  }

  /** `diff |= a ^ b` */
  function SeeDiff(diff: bv32, a: bv32, b: bv32): bv32 {
    diff | (a ^ b)
  }

  lemma XorZero(a: bv32, b: bv32)
    ensures (a ^ b) == 0 <==> a == b
  {
  }

  lemma OrZero(a: bv32, b: bv32)
    ensures (a | b) == 0 <==> a == 0 && b == 0
  {
  }

  lemma DiffSeen(diff: bv32, a: bv32, b: bv32)
    ensures SeeDiff(diff, a, b) == 0 <==> diff == 0 && a == b
  {
    XorZero(a, b);
    OrZero(diff, a ^ b);
  }

  /** The action at the end of the expansion. */
  function Fold(diff0: bv32, sign: bv32, safety: bv32): bv32 {
    var diff := diff0 | (diff0 >> 16);
    var diff := diff & 0xffff;
    var diff := diff + 0xffff;
    (sign << 9) & (!diff & safety)
  }

  /** The branch-free computation: bit 16 is set exactly if it is in `safety`, the sign was seen, and
      nothing differs. */
  lemma Folded(diff: bv32, sign: bv32, safety: bv32)
    requires (sign == 0 || sign == 0x80) && (safety == 0 || safety == 0x1_0000)
    ensures Fold(diff, sign, safety) == if safety != 0 && diff == 0 && sign != 0 then 0x1_0000 else 0
  {
  }

  function Safety(flags: bv8): bv32 {
    ((flags as bv32) & 2) << 15
  }

  predicate HasBug(flags: bv8) {
    flags & 1 != 0
  }

  predicate HasSafety(flags: bv8) {
    flags & 2 != 0
  }

  lemma SafetyBit(flags: bv8)
    ensures Safety(flags) == if HasSafety(flags) then 0x1_0000 else 0
  {
  }

  function Words(key: Key, bug: bool): (w: seq<bv32>)
    ensures |w| == WORDS
    ensures forall i :: 0 <= i < WORDS ==> w[i] == if bug then Buggy(key, i, 4) else Correct(key, i, 4)
  {
    seq(WORDS, i requires 0 <= i < WORDS => if bug then Buggy(key, i, 4) else Correct(key, i, 4))
  }

  /** The initial state of the cipher mixed with the expanded key. */
  ghost function Initial(key: Key, flags: bv8): (w: seq<bv32>)
    ensures |w| == WORDS
  {
    var words := Words(key, HasBug(flags));
    seq(WORDS, i requires 0 <= i < WORDS => Mixed(i, words[i], if i == 0 && Flips(key, flags) then 0x1_0000 else 0))
  }

  function Mixed(i: nat, w: bv32, action: bv32): bv32
    requires i < WORDS
  {
    INITIAL_P[i] ^ w ^ action
  }

  lemma NoAction(i: nat, w: bv32, action: bv32)
    requires i < WORDS
    ensures Mixed(i, w, 0) ^ action == Mixed(i, w, action)
  {
    hide INITIAL_P;
  }

  lemma HighNext(key: Key, k: nat)
    ensures HighByte(key, k + 1) <==> HighByte(key, k) || (k % 4 != 0 && Stream(key, k) >= 0x80)
  {
    hide Stream;
  }

  /** One word by both algorithms, and the sign extensions seen in it. */
  method ReadWord(key: Key, ptr0: nat, sign0: bv32, i: nat) returns (tmp0: bv32, tmp1: bv32, sign: bv32, ptr: nat)
    requires ptr0 == Place(key, 4 * i)
    requires sign0 == if HighByte(key, 4 * i) then 0x80 else 0
    ensures tmp0 == Correct(key, i, 4) && tmp1 == Buggy(key, i, 4) && ptr == Place(key, 4 * i + 4)
    ensures sign == if HighByte(key, 4 * i + 4) then 0x80 else 0
  {
    hide HighByte, Push, SignExtend, ZeroExtend, SeeSign, ByteAt;
    tmp0, tmp1, sign, ptr := 0, 0, sign0, ptr0;
    for j := 0 to 4
      invariant ptr == Place(key, 4 * i + j)
      invariant tmp0 == Correct(key, i, j) && tmp1 == Buggy(key, i, j)
      invariant sign == if HighByte(key, 4 * i + j) then 0x80 else 0
    {
      ghost var k := 4 * i + j;
      var b := ByteAt(key, ptr);
      assert b == Stream(key, k);
      SignSeen(sign, tmp1, b);
      HighNext(key, k);
      tmp0 := Push(tmp0, ZeroExtend(b));
      tmp1 := Push(tmp1, SignExtend(b));
      if j != 0 {
        sign := SeeSign(sign, tmp1);
      }
      ptr := Next(key, ptr);
      assert ptr == Place(key, k + 1);
    }
  }

  /** The loop over the words, before the measure is applied. */
  method ExpandWords(key: Key, expanded: array<bv32>, initial: array<bv32>, bug: bool) returns (sign: bv32, diff: bv32)
    requires expanded.Length == WORDS && initial.Length == WORDS && expanded != initial
    modifies expanded, initial
    ensures sign == if HighByte(key, 4 * WORDS) then 0x80 else 0
    ensures diff == 0 <==> Agree(key, WORDS)
    ensures expanded[..] == Words(key, bug)
    ensures forall k :: 0 <= k < WORDS ==> initial[k] == Mixed(k, Words(key, bug)[k], 0)
  {
    hide HighByte, Place, Correct, Buggy, SeeDiff, Mixed, Agree;
    StartOfStream(key);
    sign, diff := 0, 0;
    var ptr := 0;
    for i := 0 to WORDS
      invariant ptr == Place(key, 4 * i)
      invariant sign == if HighByte(key, 4 * i) then 0x80 else 0
      invariant diff == 0 <==> Agree(key, i)
      invariant forall k :: 0 <= k < i ==> expanded[k] == Words(key, bug)[k]
      invariant forall k :: 0 <= k < i ==> initial[k] == Mixed(k, Words(key, bug)[k], 0)
    {
      var tmp0, tmp1;
      tmp0, tmp1, sign, ptr := ReadWord(key, ptr, sign, i);
      DiffSeen(diff, tmp0, tmp1);
      AgreeNext(key, i);
      diff := SeeDiff(diff, tmp0, tmp1);
      expanded[i] := if bug then tmp1 else tmp0;
      initial[i] := Mixed(i, expanded[i], 0);
    }
  }

  lemma AgreeNext(key: Key, i: nat)
    ensures Agree(key, i + 1) <==> Agree(key, i) && Correct(key, i, 4) == Buggy(key, i, 4)
  {
  }

  method BfSetKey(key: Key, expanded: array<bv32>, initial: array<bv32>, flags: bv8)
    requires expanded.Length == WORDS && initial.Length == WORDS && expanded != initial
    modifies expanded, initial
    ensures expanded[..] == Words(key, HasBug(flags))
    ensures initial[..] == Initial(key, flags)
  {
    hide HighByte, Agree, Correct, Buggy, Fold, Mixed, Safety, HasBug, HasSafety;
    var bug, safety := HasBug(flags), Safety(flags);
    var sign, diff := ExpandWords(key, expanded, initial, bug);
    SafetyBit(flags);
    Folded(diff, sign, safety);
    sign := Fold(diff, sign, safety);
    NoAction(0, Words(key, bug)[0], sign);
    initial[0] := initial[0] ^ sign;
  }

  lemma StartOfStream(key: Key)
    ensures Place(key, 0) == 0 && !HighByte(key, 0) && Agree(key, 0)
  {
  }

  // ------------------------------------------------------------ what the measure affects

  /** Both algorithms agree on a word if and only if only bytes 0xff stand before a high byte. */
  lemma BlocksAgree(b0: bv8, b1: bv8, b2: bv8, b3: bv8)
    ensures FourPushed(ZeroExtend(b0), ZeroExtend(b1), ZeroExtend(b2), ZeroExtend(b3))
         == FourPushed(SignExtend(b0), SignExtend(b1), SignExtend(b2), SignExtend(b3))
       <==> && (b1 >= 0x80 ==> b0 == 0xff)
            && (b2 >= 0x80 ==> b0 == 0xff && b1 == 0xff)
            && (b3 >= 0x80 ==> b0 == 0xff && b1 == 0xff && b2 == 0xff)
  {
  }

  lemma StreamByte(key: Key, k: nat)
    requires Stream(key, k) != 0
    ensures Stream(key, k) in key
  {
  }

  /** The measure affects only passwords that contain the byte 0xff. */
  lemma FlipsNeedFF(key: Key, flags: bv8)
    requires Flips(key, flags)
    ensures 0xff in key
  {
    hide Stream, Correct, Buggy, FourPushed, SignExtend, ZeroExtend;
    var k: nat :| k < 4 * WORDS && k % 4 != 0 && Stream(key, k) >= 0x80;
    var i := k / 4;
    assert Correct(key, i, 4) == Buggy(key, i, 4);
    WordsPushed(key, i);
    BlocksAgree(Stream(key, 4 * i), Stream(key, 4 * i + 1), Stream(key, 4 * i + 2), Stream(key, 4 * i + 3));
    assert Stream(key, 4 * i) == 0xff;
    StreamByte(key, 4 * i);
  }

  lemma ActionShows(i: nat, w: bv32)
    requires i < WORDS
    ensures Mixed(i, w, 0x1_0000) != Mixed(i, w, 0)
  {
    hide INITIAL_P;
  }

  /** A password to which the measure applies shares its two expanded keys with no password to which
      it does not apply, whatever the flags of the two: neither with one of the historical algorithm
      nor with one of the correct algorithm. */
  lemma FlipSeparates(key: Key, flags: bv8, other: Key, otherFlags: bv8)
    requires Flips(key, flags) && !Flips(other, otherFlags)
    ensures !(Words(other, HasBug(otherFlags)) == Words(key, HasBug(flags))
              && Initial(other, otherFlags) == Initial(key, flags))
  {
    hide Mixed, Flips;
    ActionShows(0, Words(key, HasBug(flags))[0]);
    assert Initial(other, otherFlags)[0] == Mixed(0, Words(other, HasBug(otherFlags))[0], 0);
    assert Initial(key, flags)[0] == Mixed(0, Words(key, HasBug(flags))[0], 0x1_0000);
  }

  /** Without the request for the measure it never applies. */
  lemma OnlyOnRequest(key: Key, flags: bv8)
    ensures flags == 1 || flags == 4 ==> !Flips(key, flags)
  {
    assert !HasSafety(1) && !HasSafety(4);
  }

  /** Whatever the sign extension makes of four bytes, both algorithms agree on a password word with the
      same value; without a high byte behind its first one it has the same bytes. */
  lemma ImageAgrees(b0: bv8, b1: bv8, b2: bv8, b3: bv8, c0: bv8, c1: bv8, c2: bv8, c3: bv8)
    requires FourPushed(ZeroExtend(b0), ZeroExtend(b1), ZeroExtend(b2), ZeroExtend(b3))
          == FourPushed(SignExtend(c0), SignExtend(c1), SignExtend(c2), SignExtend(c3))
    ensures FourPushed(ZeroExtend(b0), ZeroExtend(b1), ZeroExtend(b2), ZeroExtend(b3))
         == FourPushed(SignExtend(b0), SignExtend(b1), SignExtend(b2), SignExtend(b3))
    ensures b1 < 0x80 && b2 < 0x80 && b3 < 0x80 ==> b0 == c0 && b1 == c1 && b2 == c2 && b3 == c3
  {
  }

  ghost predicate SameStream(a: Key, b: Key, n: nat) {
    forall k: nat :: k < n ==> Stream(a, k) == Stream(b, k)
  }

  lemma ImageWord(key: Key, other: Key, i: nat)
    requires i < WORDS && Correct(key, i, 4) == Buggy(other, i, 4)
    ensures Correct(key, i, 4) == Buggy(key, i, 4)
    ensures !HighByte(key, 4 * WORDS) ==>
              forall k :: 4 * i <= k < 4 * i + 4 ==> Stream(key, k) == Stream(other, k)
  {
    var b0, b1, b2, b3 := Stream(key, 4 * i), Stream(key, 4 * i + 1), Stream(key, 4 * i + 2), Stream(key, 4 * i + 3);
    var c0, c1, c2, c3 :=
      Stream(other, 4 * i), Stream(other, 4 * i + 1), Stream(other, 4 * i + 2), Stream(other, 4 * i + 3);
    hide Stream, Correct, Buggy, FourPushed, SignExtend, ZeroExtend;
    WordsPushed(key, i);
    WordsPushed(other, i);
    ImageAgrees(b0, b1, b2, b3, c0, c1, c2, c3);
    if !HighByte(key, 4 * WORDS) {
      assert (4 * i + 1) % 4 != 0 && (4 * i + 2) % 4 != 0 && (4 * i + 3) % 4 != 0;
      assert b1 < 0x80 && b2 < 0x80 && b3 < 0x80;
    }
  }

  /** The measure prevents every collision with the historical algorithm: a password hashed with the
      measure and one put through that algorithm have the same two expanded keys only if they are the
      same as far as they are read. */
  lemma MeasureComplete(key: Key, flags: bv8, other: Key, otherFlags: bv8)
    requires HasSafety(flags) && !HasBug(flags) && HasBug(otherFlags) && !HasSafety(otherFlags)
    requires Words(key, false) == Words(other, true) && Initial(key, flags) == Initial(other, otherFlags)
    ensures SameStream(key, other, 72)
  {
    hide Correct, Buggy, Mixed, Stream, HighByte, HasSafety, HasBug, Initial;
    if Flips(key, flags) { FlipSeparates(key, flags, other, otherFlags); }
    forall i: nat | i < WORDS
      ensures Correct(key, i, 4) == Buggy(key, i, 4)
      ensures !HighByte(key, 4 * WORDS) ==>
                forall k :: 4 * i <= k < 4 * i + 4 ==> Stream(key, k) == Stream(other, k)
    {
      assert Words(key, false)[i] == Words(other, true)[i];
      ImageWord(key, other, i);
    }
    assert Agree(key, WORDS) && !HighByte(key, 4 * WORDS);
    forall k: nat | k < 72 ensures Stream(key, k) == Stream(other, k) {
      var i := k / 4;
      assert 4 * i <= k < 4 * i + 4 && i < WORDS;
    }
  }

  // ------------------------------------------------------------ how much of a password matters

  lemma {:induction false} PlaceInside(key: Key, k: nat)
    requires k <= |key|
    ensures Place(key, k) == k
  {
    if k > 0 { PlaceInside(key, k - 1); }
  }

  /** Only 72 bytes are read: longer passwords with the same first 72 bytes are not told apart. */
  lemma LongKeys(a: Key, b: Key)
    requires |a| >= 72 && |b| >= 72 && a[..72] == b[..72]
    ensures SameStream(a, b, 72)
  {
    forall k: nat | k < 72 ensures Stream(a, k) == Stream(b, k) {
      StreamInside(a, k);
      StreamInside(b, k);
      assert a[k] == a[..72][k] && b[k] == b[..72][k];
    }
  }

  lemma {:induction false} SameParts(a: Key, b: Key, i: nat, j: nat)
    requires SameStream(a, b, 72) && i < WORDS && j <= 4
    ensures Correct(a, i, j) == Correct(b, i, j) && Buggy(a, i, j) == Buggy(b, i, j)
  {
    hide Stream, Push, SignExtend, ZeroExtend;
    if j > 0 {
      SameParts(a, b, i, j - 1);
      assert Stream(a, 4 * i + j - 1) == Stream(b, 4 * i + j - 1);
    }
  }

  /** The 72 bytes determine both expanded keys. */
  lemma SameExpansion(a: Key, b: Key, flags: bv8)
    requires SameStream(a, b, 72)
    ensures Words(a, HasBug(flags)) == Words(b, HasBug(flags)) && Initial(a, flags) == Initial(b, flags)
  {
    hide Stream, Correct, Buggy, HasBug, HasSafety, Mixed;
    forall i: nat | i < WORDS ensures Correct(a, i, 4) == Correct(b, i, 4) && Buggy(a, i, 4) == Buggy(b, i, 4) {
      SameParts(a, b, i, 4);
    }
    assert Words(a, HasBug(flags)) == Words(b, HasBug(flags));
    assert Agree(a, WORDS) == Agree(b, WORDS);
    assert HighByte(a, 4 * WORDS) == HighByte(b, 4 * WORDS);
  }

  lemma BigEndianInjective(b0: bv8, b1: bv8, b2: bv8, b3: bv8, c0: bv8, c1: bv8, c2: bv8, c3: bv8)
    requires BigEndian(b0, b1, b2, b3) == BigEndian(c0, c1, c2, c3)
    ensures b0 == c0 && b1 == c1 && b2 == c2 && b3 == c3
  {
  }

  lemma WordShowsBytes(a: Key, b: Key, i: nat, k: nat)
    requires i < WORDS && Words(a, false)[i] == Words(b, false)[i] && 4 * i <= k < 4 * i + 4
    ensures Stream(a, k) == Stream(b, k)
  {
    hide Stream, Correct, Buggy, BigEndian;
    WordBigEndian(a, i);
    WordBigEndian(b, i);
    BigEndianInjective(Stream(a, 4 * i), Stream(a, 4 * i + 1), Stream(a, 4 * i + 2), Stream(a, 4 * i + 3),
                       Stream(b, 4 * i), Stream(b, 4 * i + 1), Stream(b, 4 * i + 2), Stream(b, 4 * i + 3));
  }

  /** Equal as far as the expansion can tell. */
  predicate SameFor72(a: Key, b: Key) {
    a == b || (|a| >= 72 && |b| >= 72 && a[..72] == b[..72])
  }

  /** The terminator of a short key stands in the stream where the key ends. */
  lemma ShortEnds(a: Key, b: Key)
    requires SameStream(a, b, 72) && |a| < 72
    ensures |b| <= |a|
  {
    PlaceInside(a, |a|);
    assert Stream(a, |a|) == 0;
    if |b| > |a| { StreamInside(b, |a|); }
  }

  lemma StreamInside(key: Key, k: nat)
    requires k < |key|
    ensures Stream(key, k) == key[k] != 0
  {
    PlaceInside(key, k);
  }

  lemma StreamsTellKeys(a: Key, b: Key)
    requires SameStream(a, b, 72)
    ensures SameFor72(a, b)
  {
    if |a| < 72 { ShortEnds(a, b); }
    if |b| < 72 { ShortEnds(b, a); }
    var n := if |a| < 72 then |a| else 72;
    forall k: nat | k < n ensures a[k] == b[k] {
      StreamInside(a, k);
      StreamInside(b, k);
    }
    if |a| >= 72 { assert a[..72] == b[..72]; } else { assert a == b; }
  }

  /** The correct algorithm tells two passwords apart exactly if they differ in their first 72 bytes. */
  lemma WordsTellKeys(a: Key, b: Key)
    ensures Words(a, false) == Words(b, false) <==> SameFor72(a, b)
  {
    if Words(a, false) == Words(b, false) {
      hide Words, Stream, SameFor72;
      forall k: nat | k < 72 ensures Stream(a, k) == Stream(b, k) {
        WordShowsBytes(a, b, k / 4, k);
      }
      StreamsTellKeys(a, b);
    }
    if SameFor72(a, b) { SameKeysSameWords(a, b); }
  }

  lemma SameKeysSameWords(a: Key, b: Key)
    requires SameFor72(a, b)
    ensures Words(a, false) == Words(b, false)
  {
    if a != b {
      hide Words, Stream;
      LongKeys(a, b);
      SameExpansion(a, b, 4);
      assert !HasBug(4);
    }
  }
}
