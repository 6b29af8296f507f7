/**
  What a bcrypt setting means, read from its letters and digits: which texts are settings, and what the
  cipher is given for a password under each subtype, said in terms of the bytes of the password.
 */
module BcryptSettings {
  import opened Arithmetic
  import opened Wrappers
  import opened BcryptBase64
  import opened KeyExpansion
  import opened Bcrypt

  // ------------------------------------------------------------ settings

  function CostIn(s: CString): int
    requires |s| >= 6
  {
    (s[4] as int - '0' as int) * 10 + (s[5] as int - '0' as int)
  }

  /** "$2", a subtype, "$", two digits from 04 to 31, "$", and 22 characters of the alphabet. */
  ghost predicate IsSetting(s: CString) {
    && |s| >= 29 && s[..2] == "$2" && s[2] in "abxy" && s[3] == '$'
    && '0' <= s[4] <= '9' && '0' <= s[5] <= '9' && 4 <= CostIn(s) <= 31 && s[6] == '$'
    && forall k :: 7 <= k < 29 ==> s[k] in ALPHABET
  }

  /** The number of rounds is the power of two. */
  lemma {:induction false} RoundsMultiply(n: nat, m: nat)
    ensures Rounds(n + m) == Mul(Rounds(n), Rounds(m))
    ensures Rounds(0) == 1 && Rounds(1) == 2 && Rounds(4) == 16
  {
    hide Mul;
    assert Rounds(2) == 4;
    if n > 0 {
      RoundsMultiply(n - 1, m);
      MulAdd(Rounds(n - 1), Rounds(n - 1), Rounds(m));
      assert Rounds(n + m) == 2 * Rounds(n - 1 + m);
    } else {
      MulOne(Rounds(m));
    }
  }

  lemma RoundsSuffice(n: nat)
    ensures Rounds(n) >= 16 <==> n >= 4
  {
    RoundsMultiply(0, 0);
    if n >= 4 { RoundsGrow(4, n); } else { RoundsGrow(n, 3); }
    assert Rounds(4) == 2 * Rounds(3);
  }

  lemma HeaderExactly(s: CString)
    requires |s| >= 7
    ensures HasHeader(s) <==> && s[..2] == "$2" && s[2] in "abxy" && s[3] == '$' && s[6] == '$'
                              && '0' <= s[4] <= '9' && '0' <= s[5] <= '9' && CostIn(s) <= 31
    ensures HasHeader(s) ==> Cost(s) == CostIn(s)
  {
    assert s[..2] == [s[0], s[1]];
  }

  /** The texts that can be hashed with are exactly the settings, whatever stands behind them. */
  lemma AcceptedExactly(s: CString)
    ensures Accepted(s, 16) <==> IsSetting(s)
  {
    LengthFacts();
    hide HasHeader, Decode, Rounds, Cost, ALPHABET, FlagsOf, Length;
    if |s| >= 7 {
      HeaderExactly(s);
      if HasHeader(s) { RoundsSuffice(Cost(s)); }
      DecodesExactly(s, 7, 16);
    } else {
      assert !HasHeader(s);
    }
  }

  // ------------------------------------------------------------ what the cipher is given

  /** The bytes of the password and its terminator, over and over. */
  function ByteOf(key: Key, k: nat): bv8 {
    DivModSplit(k, |key| + 1);
    (key + [0])[Mod(k, |key| + 1)]
  }

  /** A byte as a signed number, in 32 bits. */
  function Signed(b: bv8): bv32 {
    if b < 0x80 then b as bv32 else b as bv32 + 0xffff_ff00
  }

  function Joined(a: bv32, b: bv32, c: bv32, d: bv32): bv32 {
    (a << 24) | (b << 16) | (c << 8) | d
  }

  /** Four bytes of the password as one word, the first one on top; with 'x' signed bytes, whose high bits
      cover the bytes before them. */
  function WordOf(key: Key, i: nat, subtype: char): bv32 {
    var a, b, c, d := ByteOf(key, 4 * i), ByteOf(key, 4 * i + 1), ByteOf(key, 4 * i + 2), ByteOf(key, 4 * i + 3);
    if subtype == 'x' then Joined(Signed(a), Signed(b), Signed(c), Signed(d))
    else Joined(a as bv32, b as bv32, c as bv32, d as bv32)
  }

  function WordsOf(key: Key, subtype: char): (w: seq<bv32>)
    ensures |w| == 18
  {
    seq(18, i requires 0 <= i < 18 => WordOf(key, i, subtype))
  }

  /** Some byte that is not the first of its word has its high bit set, and still signed bytes give the same
      words. */
  ghost predicate NeedsMeasure(key: Key) {
    && WordsOf(key, 'x') == WordsOf(key, 'b')
    && exists k: nat :: k < 72 && k % 4 != 0 && ByteOf(key, k) >= 0x80
  }

  /** The initial words of the cipher, mixed with those of the password; one bit of the first is flipped for
      'a' if the measure is needed. */
  ghost function InitialOf(key: Key, subtype: char): (w: seq<bv32>)
    ensures |w| == 18
  {
    var words := WordsOf(key, subtype);
    seq(18, i requires 0 <= i < 18 => MixedWord(i, words[i], i == 0 && subtype == 'a' && NeedsMeasure(key)))
  }

  function MixedWord(i: nat, w: bv32, flip: bool): bv32
    requires i < 18
  {
    INITIAL_P[i] ^ w ^ (if flip then 0x1_0000 else 0)
  }

  lemma BytesAre(key: Key, k: nat)
    ensures Stream(key, k) == ByteOf(key, k)
  {
    StreamRepeats(key, k);
  }

  lemma SignedIs(b: bv8)
    ensures SignExtend(b) == Signed(b)
  {
  }

  lemma FourShifted(a: bv32, b: bv32, c: bv32, d: bv32)
    ensures FourPushed(a, b, c, d) == Joined(a, b, c, d)
  {
  }

  lemma WordShifted(key: Key, i: nat, subtype: char)
    ensures var a, b := ByteOf(key, 4 * i), ByteOf(key, 4 * i + 1);
            var c, d := ByteOf(key, 4 * i + 2), ByteOf(key, 4 * i + 3);
            WordOf(key, i, subtype)
              == if subtype == 'x' then FourPushed(SignExtend(a), SignExtend(b), SignExtend(c), SignExtend(d))
                 else FourPushed(ZeroExtend(a), ZeroExtend(b), ZeroExtend(c), ZeroExtend(d))
  {
    var a, b := ByteOf(key, 4 * i), ByteOf(key, 4 * i + 1);
    var c, d := ByteOf(key, 4 * i + 2), ByteOf(key, 4 * i + 3);
    SignedIs(a);
    SignedIs(b);
    SignedIs(c);
    SignedIs(d);
    hide ByteOf, FourPushed, SignExtend, Signed, Joined;
    FourShifted(ZeroExtend(a), ZeroExtend(b), ZeroExtend(c), ZeroExtend(d));
    FourShifted(SignExtend(a), SignExtend(b), SignExtend(c), SignExtend(d));
  }

  lemma WordIs(key: Key, i: nat)
    ensures Correct(key, i, 4) == WordOf(key, i, 'a') == WordOf(key, i, 'b') == WordOf(key, i, 'y')
    ensures Buggy(key, i, 4) == WordOf(key, i, 'x')
  {
    hide *;
    BytesAre(key, 4 * i);
    BytesAre(key, 4 * i + 1);
    BytesAre(key, 4 * i + 2);
    BytesAre(key, 4 * i + 3);
    WordsPushed(key, i);
    WordShifted(key, i, 'a');
    WordShifted(key, i, 'b');
    WordShifted(key, i, 'y');
    WordShifted(key, i, 'x');
  }

  /** The flags of the four subtypes. */
  lemma Subtypes(letter: char)
    ensures letter in "abxy" <==> FlagsOf(letter) != 0
    ensures HasBug(FlagsOf(letter)) <==> letter == 'x'
    ensures HasSafety(FlagsOf(letter)) <==> letter == 'a'
  {
  }

  lemma WordsAre(key: Key, letter: char)
    requires letter in "abxy"
    ensures Words(key, HasBug(FlagsOf(letter))) == WordsOf(key, letter)
  {
    Subtypes(letter);
    hide Correct, Buggy, WordOf, HasBug, FlagsOf;
    forall i | 0 <= i < 18 ensures Words(key, HasBug(FlagsOf(letter)))[i] == WordsOf(key, letter)[i] {
      WordIs(key, i);
    }
  }

  lemma MeasureIs(key: Key, letter: char)
    requires letter in "abxy"
    ensures Flips(key, FlagsOf(letter)) <==> letter == 'a' && NeedsMeasure(key)
  {
    Subtypes(letter);
    hide Correct, Buggy, WordOf, HasSafety, FlagsOf, ByteOf, Stream;
    forall k: nat ensures Stream(key, k) == ByteOf(key, k) { BytesAre(key, k); }
    forall i: nat | i < 18
      ensures Correct(key, i, 4) == WordsOf(key, 'b')[i] && Buggy(key, i, 4) == WordsOf(key, 'x')[i]
    {
      WordIs(key, i);
    }
  }

  lemma InitialIs(key: Key, letter: char)
    requires letter in "abxy"
    ensures Initial(key, FlagsOf(letter)) == InitialOf(key, letter)
  {
    WordsAre(key, letter);
    MeasureIs(key, letter);
    hide Words, WordsOf, Flips, NeedsMeasure, HasBug, FlagsOf, INITIAL_P;
  }

  /** `crypt` succeeds exactly with a setting and enough room.  The hash begins with the setting, up to the
      unused bits of the salt's last character, and carries the salt and the first 23 bytes that the
      cipher gives for the words of the password under this subtype, two to the cost rounds, and the salt. */
  lemma HashesExactly(cipher: Cipher, key: Key, s: CString, size: int)
    ensures Crypt(cipher, key, s, size, 16).Some? <==> size >= 61 && IsSetting(s)
    ensures size >= 61 && IsSetting(s) ==>
              var h, salt := Crypt(cipher, key, s, size, 16).value, Decode(s, 7, 16);
              && |h| == 60 && h[..28] == s[..28] && salt.Some? && Decode(h, 7, 16) == salt
              && Decode(h, 29, 23)
                 == Some(cipher(WordsOf(key, s[2]), InitialOf(key, s[2]), Rounds(CostIn(s)), salt.value)[..23])
  {
    AcceptedExactly(s);
    hide IsSetting, Accepted;
    if size >= 61 && Accepted(s, 16) { HashOfSetting(cipher, key, s, size); }
  }

  lemma OutputIs(cipher: Cipher, key: Key, s: CString)
    requires Accepted(s, 16)
    ensures |s| >= 29 && s[2] in "abxy" && CostIn(s) >= 0
    ensures Output(cipher, key, s)
         == cipher(WordsOf(key, s[2]), InitialOf(key, s[2]), Rounds(CostIn(s)), SaltOf(s))[..23]
  {
    SaltInside(s);
    HeaderExactly(s);
    WordsAre(key, s[2]);
    InitialIs(key, s[2]);
    hide Words, WordsOf, Initial, InitialOf, HasBug, FlagsOf, Rounds, Decode;
  }

  /** The parts of a hash. */
  lemma PartsOfHash(s: CString, out: Bytes)
    requires Accepted(s, 16) && |s| >= 29 && |out| == 23
    ensures var h := WithOutput(s, out);
            |h| == 60 && h[..28] == s[..28] && Decode(h, 7, 16) == Some(SaltOf(s)) && Decode(h, 29, 23) == Some(out)
  {
    hide Encode, Decode, CanonicalLast, HasHeader, Rounds, FlagsOf;
    var h := WithOutput(s, out);
    HashIsSetting(s, out, 16);
    EncodeDecode(Prefix(s), out, "");
    assert Prefix(s) + Encode(out) + "" == h;
  }

  lemma HashOfSetting(cipher: Cipher, key: Key, s: CString, size: int)
    requires size >= 61 && Accepted(s, 16)
    ensures |s| >= 29 && CostIn(s) >= 0
    ensures Crypt(cipher, key, s, size, 16).Some?
    ensures var h, salt := Crypt(cipher, key, s, size, 16).value, Decode(s, 7, 16);
            && |h| == 60 && h[..28] == s[..28] && salt.Some? && Decode(h, 7, 16) == salt
            && Decode(h, 29, 23)
               == Some(cipher(WordsOf(key, s[2]), InitialOf(key, s[2]), Rounds(CostIn(s)), salt.value)[..23])
  {
    OutputIs(cipher, key, s);
    PartsOfHash(s, Output(cipher, key, s));
    hide Output, WithOutput, WordsOf, InitialOf, Rounds, Decode, HasHeader;
  }

  /** What is left in the buffer for an error. */
  lemma RefusedText(cipher: Cipher, key: Key, s: CString)
    requires !IsSetting(s)
    ensures HashText(cipher, key, s) == if |s| >= 2 && s[..2] == "*0" then "*1" else "*0"
  {
    HashesExactly(cipher, key, s, HASHSIZE);
    hide Crypt, IsSetting;
    if |s| >= 2 { assert s[..2] == [s[0], s[1]]; }
  }

  /** The words of `BF_init_state.P`, which an empty password leaves as they are. */
  lemma EmptyPassword()
    ensures InitialOf([], 'a') == [
      0x243f6a88, 0x85a308d3, 0x13198a2e, 0x03707344, 0xa4093822, 0x299f31d0, 0x082efa98, 0xec4e6c89, 0x452821e6,
      0x38d01377, 0xbe5466cf, 0x34e90c6c, 0xc0ac29b7, 0xc97c50dd, 0x3f84d5b5, 0xb5470917, 0x9216d5d9, 0x8979fb1b]
  {
    NoMeasure();
    hide WordsOf, NeedsMeasure, MixedWord;
    forall i | 0 <= i < 18 ensures InitialOf([], 'a')[i] == INITIAL_P[i] {
      EmptyWord(i);
      NothingMixed(i);
    }
  }

  lemma EmptyByte(k: nat)
    ensures ByteOf([], k) == 0
  {
    var key: Key := [];
    DivModSplit(k, 1);
    assert |key| + 1 == 1 && (key + [0])[Mod(k, 1)] == 0;
  }

  lemma EmptyWord(i: nat)
    requires i < 18
    ensures WordsOf([], 'a')[i] == 0
  {
    EmptyByte(4 * i);
    EmptyByte(4 * i + 1);
    EmptyByte(4 * i + 2);
    EmptyByte(4 * i + 3);
    hide ByteOf;
  }

  lemma NoMeasure()
    ensures !NeedsMeasure([])
  {
    hide ByteOf, WordsOf;
    forall k: nat ensures ByteOf([], k) == 0 { EmptyByte(k); }
  }

  lemma NothingMixed(i: nat)
    requires i < 18
    ensures MixedWord(i, 0, false) == INITIAL_P[i]
  {
    hide INITIAL_P;
  }

  // ------------------------------------------------------------ which passwords are told apart

  /** The subtypes 'b' and 'y' are the same; 'a' differs from them for exactly the passwords that need the
      measure. */
  lemma SubtypesAgree(key: Key)
    ensures WordsOf(key, 'a') == WordsOf(key, 'b') == WordsOf(key, 'y')
    ensures InitialOf(key, 'b') == InitialOf(key, 'y')
    ensures InitialOf(key, 'a') == InitialOf(key, 'b') <==> !NeedsMeasure(key)
  {
    hide WordOf, MixedWord, NeedsMeasure;
    forall i: nat ensures WordOf(key, i, 'a') == WordOf(key, i, 'b') == WordOf(key, i, 'y') { SameLetters(key, i); }
    FlipShows(0, WordsOf(key, 'a')[0]);
    assert InitialOf(key, 'a')[0] == MixedWord(0, WordsOf(key, 'a')[0], NeedsMeasure(key));
    assert InitialOf(key, 'b')[0] == MixedWord(0, WordsOf(key, 'b')[0], false);
  }

  lemma SameLetters(key: Key, i: nat)
    ensures WordOf(key, i, 'a') == WordOf(key, i, 'b') == WordOf(key, i, 'y')
  {
    hide ByteOf, Joined;
  }

  lemma FlipShows(i: nat, w: bv32)
    requires i < 18
    ensures MixedWord(i, w, true) != MixedWord(i, w, false)
  {
    hide INITIAL_P;
  }

  /** Under two settings, "$2a$" and "$2x$", with whatever salts and costs, the cipher is given the same words
      for two passwords only if they agree in all that is read of them. */
  lemma MeasureSeparates(key: Key, other: Key)
    requires WordsOf(key, 'a') == WordsOf(other, 'x') && InitialOf(key, 'a') == InitialOf(other, 'x')
    ensures SameFor72(key, other)
  {
    WordsAre(key, 'a');
    WordsAre(other, 'x');
    InitialIs(key, 'a');
    InitialIs(other, 'x');
    Subtypes('a');
    Subtypes('x');
    hide *;
    MeasureComplete(key, FlagsOf('a'), other, FlagsOf('x'));
    StreamsTellKeys(key, other);
  }

  /** So some cipher tells the hashes of two such passwords apart, even with the same salt and cost. */
  lemma HistoricalHashesDiffer(key: Key, s: CString, other: Key, s': CString) returns (cipher: Cipher)
    requires IsSetting(s) && IsSetting(s') && s[2] == 'a' && s'[2] == 'x' && !SameFor72(key, other)
    ensures var h, h' := HashText(cipher, key, s), HashText(cipher, other, s');
            |h| == |h'| == 60 && Decode(h, 29, 23) != Decode(h', 29, 23)
  {
    hide Decode, SameFor72, IsSetting, HashText, WordsOf, InitialOf, Rounds;
    var words, initial := WordsOf(key, 'a'), InitialOf(key, 'a');
    var zeros, ones := Constant(0), Constant(1);
    cipher := (w, i, rounds, salt) => if w == words && i == initial then zeros else ones;
    if WordsOf(other, 'x') == words && InitialOf(other, 'x') == initial { MeasureSeparates(key, other); }
    var c := DigestShows(cipher, key, s);
    var d := DigestShows(cipher, other, s');
    assert zeros[..23][0] != ones[..23][0];
  }

  lemma DigestShows(cipher: Cipher, key: Key, s: CString) returns (d: Digest)
    requires IsSetting(s)
    ensures |HashText(cipher, key, s)| == 60 && |s| >= 29
    ensures exists rounds: nat, salt: Bytes :: d == cipher(WordsOf(key, s[2]), InitialOf(key, s[2]), rounds, salt)
    ensures Decode(HashText(cipher, key, s), 29, 23) == Some(d[..23])
  {
    HashesExactly(cipher, key, s, HASHSIZE);
    hide Decode, WordsOf, InitialOf, Rounds, Crypt;
    d := cipher(WordsOf(key, s[2]), InitialOf(key, s[2]), Rounds(CostIn(s)), Decode(s, 7, 16).value);
  }

  // ------------------------------------------------------------ generated settings

  /** The setting that is generated for a factor: version "2a", the factor in two digits, or 12 for one that
      is out of range, and the salt. */
  lemma GeneratedSetting(factor: int, input: Bytes)
    requires |input| == 16
    ensures var s := Salt('a', WorkFactor(factor), input);
            && |s| == 29 && IsSetting(s) && s[2] == 'a' && Decode(s, 7, 16) == Some(input)
            && CostIn(s) == if 4 <= factor <= 31 then factor else 12
  {
    hide Encode, Decode, Rounds, IsSetting, HasHeader;
    var w := WorkFactor(factor);
    LengthFacts();
    SaltAccepted('a', w, input);
    AcceptedExactly(Salt('a', w, input));
    HeaderExactly(Salt('a', w, input));
    hide Cost;
    assert input[..16] == input;
  }
}
