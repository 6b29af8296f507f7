/**
  The format of bcrypt settings and hashes (`BF_crypt`, `_crypt_gensalt_blowfish_rn`) and the verify
  loop of the wrapper library.  The cipher is an arbitrary function of what it is given: the two
  expanded keys, the number of rounds and the salt.
 */
module Bcrypt {
  import opened Wrappers
  import opened BcryptBase64
  import opened KeyExpansion

  /** A C string: bytes as characters, none of them the terminator. */
  type CString = s: string | forall j :: 0 <= j < |s| ==> 0 < s[j] as int < 256

  type Digest = d: Bytes | |d| == 24 witness seq(24, _ => 0)

  type Cipher = (seq<bv32>, seq<bv32>, nat, Bytes) -> Digest

  const HASHSIZE: int := 64

  /** `flags_by_subtype`; zero for letters that are no subtype. */
  function FlagsOf(subtype: char): bv8 {
    if subtype == 'a' then 2 else if subtype == 'b' || subtype == 'y' then 4 else if subtype == 'x' then 1 else 0
  }

  /** The character at `k` of a C string that is not shorter. */
  function CharAt(s: CString, k: nat): char
    requires k <= |s|
  {
    if k == |s| then 0 as char else s[k]
  }

  /** The checks of the first seven characters, each made only if those before it succeed. */
  predicate HasHeader(s: CString)
    ensures HasHeader(s) ==> |s| >= 7
  {
    && CharAt(s, 0) == '$'
    && CharAt(s, 1) == '2'
    && 'a' <= CharAt(s, 2) <= 'z' && FlagsOf(CharAt(s, 2)) != 0
    && CharAt(s, 3) == '$'
    && '0' <= CharAt(s, 4) <= '3'
    && '0' <= CharAt(s, 5) <= '9'
    && !(CharAt(s, 4) == '3' && CharAt(s, 5) > '1')
    && CharAt(s, 6) == '$'
  }

  function Cost(s: CString): (c: nat)
    requires HasHeader(s)
    ensures c <= 31
  {
    (s[4] - '0') as nat * 10 + (s[5] - '0') as nat
  }

  /** `1 << n` */
  function Rounds(n: nat): (r: nat)
    ensures r > n
  {
    if n == 0 then 1 else 2 * Rounds(n - 1)
  }

  /** The setting is accepted: header, number of rounds and salt. */
  predicate Accepted(s: CString, min: nat) {
    HasHeader(s) && Rounds(Cost(s)) >= min && Decode(s, 7, 16).Some?
  }

  function SaltOf(s: CString): Bytes
    requires |s| >= 7 && Decode(s, 7, 16).Some?
  {
    Decode(s, 7, 16).value
  }

  /** The 23 of 24 bytes that are encoded. */
  ghost function Output(cipher: Cipher, key: Key, s: CString): (d: Bytes)
    requires HasHeader(s) && Decode(s, 7, 16).Some?
    ensures |d| == 23
  {
    var flags := FlagsOf(s[2]);
    cipher(Words(key, HasBug(flags)), Initial(key, flags), Rounds(Cost(s)), SaltOf(s))[..23]
  }

  const SETTING_SIZE: int := 29
  const OUTPUT_SIZE: int := 61

  lemma LengthFacts()
    ensures Length(16) == 22 && Length(23) == 31
  {
    assert Length(13) == 18 && Length(10) == 14;
    assert Length(20) == 27 && Length(17) == 23 && Length(14) == 19;
  }

  lemma SaltInside(s: CString)
    requires |s| >= 7 && Decode(s, 7, 16).Some?
    ensures |s| >= 29 && Value(s[28]).Some?
  {
    hide Decode;
    LengthFacts();
    DecodeEncode(s, 7, 16);
  }

  lemma CanonicalText(c: char)
    requires 0 < c as int < 256
    ensures 0 < CanonicalLast(c, 16) as int < 256
  {
  }

  lemma EncodedText(x: Bytes)
    ensures forall j :: 0 <= j < |Encode(x)| ==> 0 < Encode(x)[j] as int < 256
  {
    EncodedSymbols(x);
    hide Encode;
    forall j | 0 <= j < |Encode(x)| ensures 0 < Encode(x)[j] as int < 256 { assert Encode(x)[j] in Encode(x); }
  }

  /** The setting with the last character of the salt made canonical. */
  function Prefix(s: CString): (r: CString)
    requires |s| >= SETTING_SIZE
    ensures |r| == SETTING_SIZE
  {
    CanonicalText(s[28]);
    s[..28] + [CanonicalLast(s[28], 16)]
  }

  function WithOutput(s: CString, out: Bytes): (h: CString)
    requires |s| >= SETTING_SIZE && |out| == 23
    ensures |h| == 60
  {
    LengthFacts();
    EncodedText(out);
    Prefix(s) + Encode(out)
  }

  /** The hash, or an error. */
  ghost function Crypt(cipher: Cipher, key: Key, s: CString, size: int, min: nat): (r: Option<CString>)
    ensures r.Some? ==> |r.value| == 60
  {
    if size < OUTPUT_SIZE || !Accepted(s, min) then None
    else (SaltInside(s); Some(WithOutput(s, Output(cipher, key, s))))
  }

  // ------------------------------------------------------------ hashing

  /** A buffer holds a text and its terminator. */
  ghost predicate HoldsText(a: seq<char>, t: string) {
    |t| < |a| && a[..|t|] == t && a[|t|] == 0 as char
  }

  /** The bytes that the cipher is given and gives back. */
  method RunCipher(cipher: Cipher, key: Key, flags: bv8, count: nat, salt: Bytes) returns (d: Digest)
    ensures d == cipher(Words(key, HasBug(flags)), Initial(key, flags), count, salt)
  {
    hide Words, Initial, HasBug;
    var expanded, initial := new bv32[WORDS], new bv32[WORDS];
    BfSetKey(key, expanded, initial, flags);
    d := cipher(expanded[..], initial[..], count, salt);
  }

  /** The hash and its terminator, or an error and an untouched buffer. */
  method BfCrypt(cipher: Cipher, key: Key, setting: CString, output: array<char>, size: int, min: nat)
    returns (ok: bool)
    requires size <= output.Length
    modifies output
    ensures ok == Crypt(cipher, key, setting, size, min).Some?
    ensures ok ==> HoldsText(output[..], Crypt(cipher, key, setting, size, min).value)
    ensures !ok ==> output[..] == old(output[..])
  {
    hide Decode, Words, Initial, HasBug, Encode, Rounds, FlagsOf;
    if size < 7 + 22 + 31 + 1 {
      return false;
    }
    if !HasHeader(setting) {
      return false;
    }
    var count := Rounds(Cost(setting));
    var salt := new Byte[16](_ => 0);
    if count < min {
      return false;
    }
    var ret := BfDecode(salt, setting, 7, 16);
    if ret != 0 {
      return false;
    }
    SaltInside(setting);
    assert salt[..] == salt[..16];
    var digest := RunCipher(cipher, key, FlagsOf(setting[2]), count, salt[..]);
    WriteHash(setting, digest[..23], output);
    return true;
  }

  method WriteHash(setting: CString, out: Bytes, output: array<char>)
    requires |setting| >= SETTING_SIZE && |out| == 23 && output.Length >= OUTPUT_SIZE
    modifies output
    ensures HoldsText(output[..], WithOutput(setting, out))
  {
    hide Encode, CanonicalLast;
    LengthFacts();
    for i := 0 to 28
      invariant output[..i] == setting[..i]
    {
      output[i] := setting[i];
    }
    output[28] := CanonicalLast(setting[28], 16);
    assert output[..29] == Prefix(setting);
    var end := BfEncode(output, 29, out);
    output[end] := 0 as char;
  }

  /** What is left in the buffer for an error: it never equals the setting. */
  function Magic(setting: CString): CString {
    if CharAt(setting, 0) == '*' && CharAt(setting, 1) == '0' then "*1" else "*0"
  }

  method OutputMagic(setting: CString, output: array<char>, size: int) returns (ret: int)
    requires size <= output.Length
    modifies output
    ensures ret == if size < 3 then -1 else 0
    ensures size >= 3 ==> HoldsText(output[..], Magic(setting))
  {
    if size < 3 {
      return -1;
    }
    output[0], output[1], output[2] := '*', '0', 0 as char;
    if CharAt(setting, 0) == '*' && CharAt(setting, 1) == '0' {
      output[1] := '1';
    }
    return 0;
  }

  /** The text that `bcrypt_hashpw` leaves in the buffer. */
  ghost function HashText(cipher: Cipher, key: Key, setting: CString): CString {
    match Crypt(cipher, key, setting, HASHSIZE, 16)
    case None => Magic(setting)
    case Some(h) => h
  }

  method HashPw(cipher: Cipher, passwd: Key, salt: CString, hash: array<char>) returns (ret: int)
    requires hash.Length == HASHSIZE
    modifies hash
    ensures ret == if Crypt(cipher, passwd, salt, HASHSIZE, 16).Some? then 0 else 1
    ensures HoldsText(hash[..], HashText(cipher, passwd, salt))
  {
    hide Crypt, Magic;
    var magic := OutputMagic(salt, hash, HASHSIZE);
    var ok := BfCrypt(cipher, passwd, salt, hash, HASHSIZE, 16);
    ret := if ok then 0 else 1;
  }

  // ------------------------------------------------------------ verification

  /** The exclusive or of two numbers, bit by bit from the lowest. */
  function Xor(a: nat, b: nat): nat
    decreases a + b
  {
    if a == 0 && b == 0 then 0 else (if a % 2 == b % 2 then 0 else 1) + 2 * Xor(a / 2, b / 2)
  }

  function Or(a: nat, b: nat): nat
    decreases a + b
  {
    if a == 0 && b == 0 then 0 else (if a % 2 == 0 && b % 2 == 0 then 0 else 1) + 2 * Or(a / 2, b / 2)
  }

  lemma {:induction false} XorZeroIff(a: nat, b: nat)
    ensures Xor(a, b) == 0 <==> a == b
    decreases a + b
  {
    if a != 0 || b != 0 {
      XorZeroIff(a / 2, b / 2);
    }
  }

  lemma {:induction false} OrZeroIff(a: nat, b: nat)
    ensures Or(a, b) == 0 <==> a == 0 && b == 0
    decreases a + b
  {
    if a != 0 || b != 0 {
      OrZeroIff(a / 2, b / 2);
    }
  }

  /** Zero if and only if the strings are equal. */
  method TimingSafeStrcmp(str1: CString, str2: CString) returns (ret: nat)
    ensures ret == 0 <==> str1 == str2
  {
    var len1, len2 := |str1|, |str2|;
    if len1 != len2 {
      return 1;
    }
    ret := 0;
    for i := 0 to len1
      invariant ret == 0 <==> str1[..i] == str2[..i]
    {
      XorZeroIff(str1[i] as nat, str2[i] as nat);
      OrZeroIff(ret, Xor(str1[i] as nat, str2[i] as nat));
      ret := Or(ret, Xor(str1[i] as nat, str2[i] as nat));
      assert str1[..i + 1] == str1[..i] + [str1[i]] && str2[..i + 1] == str2[..i] + [str2[i]];
    }
    assert str1[..len1] == str1 && str2[..len1] == str2;
  }

  /** The string at the start of a buffer. */
  method ReadText(a: array<char>, ghost text: CString) returns (t: CString)
    requires HoldsText(a[..], text)
    ensures t == text
  {
    var n := 0;
    assert forall j :: 0 <= j < |text| ==> a[j] == a[..][..|text|][j];
    while a[n] != 0 as char
      invariant 0 <= n <= |text|
      decreases |text| - n
    {
      n := n + 1;
    }
    t := a[..n];
  }

  /** -1 if the hash is no acceptable setting, zero if hashing with it as the setting gives it back,
      positive otherwise. */
  method CheckPw(cipher: Cipher, passwd: Key, hash: CString) returns (ret: int)
    ensures ret == -1 <==> Crypt(cipher, passwd, hash, HASHSIZE, 16).None?
    ensures ret == 0 <==> Crypt(cipher, passwd, hash, HASHSIZE, 16) == Some(hash)
    ensures ret >= -1
  {
    hide Crypt, HoldsText;
    var outhash := new char[HASHSIZE];
    ret := HashPw(cipher, passwd, hash, outhash);
    if ret != 0 {
      return -1;
    }
    var out := ReadText(outhash, HashText(cipher, passwd, hash));
    ret := TimingSafeStrcmp(hash, out);
  }

  // ------------------------------------------------------------ generated salts

  predicate Generates(prefix: CString, count: nat, input: Bytes, outputSize: int) {
    && |input| >= 16 && outputSize >= 7 + 22 + 1
    && !(count != 0 && (count < 4 || count > 31))
    && CharAt(prefix, 0) == '$' && CharAt(prefix, 1) == '2'
    && CharAt(prefix, 2) in "aby"
  }

  function Digits(n: nat): string
    requires n < 100
  {
    ['0' + (n / 10) as char, '0' + (n % 10) as char]
  }

  /** The generated setting. */
  function Salt(subtype: char, cost: nat, input: Bytes): (s: CString)
    requires subtype in "aby" && cost <= 31 && |input| >= 16
  {
    EncodedText(input[..16]);
    "$2" + [subtype] + "$" + Digits(cost) + "$" + Encode(input[..16])
  }

  method GensaltBlowfish(prefix: CString, count0: nat, input: Bytes, output: array<char>, outputSize: int)
    returns (ok: bool)
    requires outputSize <= output.Length
    modifies output
    ensures ok <==> && |input| >= 16 && outputSize >= 30 && (count0 == 0 || 4 <= count0 <= 31)
                    && |prefix| >= 3 && prefix[0] == '$' && prefix[1] == '2' && prefix[2] in "aby"
    ensures ok ==> HoldsText(output[..], Salt(prefix[2], if count0 == 0 then 5 else count0, input))
    ensures !ok && outputSize > 0 ==> HoldsText(output[..], "")
  {
    if !Generates(prefix, count0, input, outputSize) {
      if outputSize > 0 {
        output[0] := 0 as char;
      }
      return false;
    }
    hide Encode, Generates;
    LengthFacts();
    var count := if count0 == 0 then 5 else count0;
    output[0], output[1], output[2], output[3] := '$', '2', prefix[2], '$';
    output[4], output[5], output[6] := '0' + (count / 10) as char, '0' + (count % 10) as char, '$';
    assert output[..7] == "$2" + [prefix[2]] + "$" + Digits(count) + "$";
    var end := BfEncode(output, 7, input[..16]);
    output[end] := 0 as char;
    return true;
  }

  /** `bcrypt_gensalt` with the random bytes as input; a factor out of range becomes 12. */
  function WorkFactor(factor: int): (w: nat)
    ensures 4 <= w <= 31
  {
    if factor < 4 || factor > 31 then 12 else factor
  }

  method Gensalt(factor: int, input: Bytes, salt: array<char>) returns (ret: int)
    requires |input| == 16 && salt.Length == HASHSIZE
    modifies salt
    ensures ret == 0 && HoldsText(salt[..], Salt('a', WorkFactor(factor), input))
  {
    var ok := GensaltBlowfish("$2a$", WorkFactor(factor), input, salt, HASHSIZE);
    ret := if ok then 0 else 5;
  }

  // ------------------------------------------------------------ the laws

  lemma DigitsRead(cost: nat)
    requires cost <= 31
    ensures var d := Digits(cost);
            && |d| == 2 && '0' <= d[0] <= '3' && '0' <= d[1] <= '9' && !(d[0] == '3' && d[1] > '1')
            && (d[0] - '0') as nat * 10 + (d[1] - '0') as nat == cost
  {
  }

  lemma {:induction false} RoundsGrow(n: nat, m: nat)
    requires n <= m
    ensures Rounds(n) <= Rounds(m)
    decreases m
  {
    if n < m { RoundsGrow(n, m - 1); }
  }

  /** A generated setting is accepted, with the work factor and the salt it was made of. */
  lemma SaltAccepted(subtype: char, cost: nat, input: Bytes)
    requires subtype in "aby" && 4 <= cost <= 31 && |input| >= 16
    ensures var s := Salt(subtype, cost, input);
            Accepted(s, 16) && s[2] == subtype && Cost(s) == cost && SaltOf(s) == input[..16]
  {
    hide Encode, Decode, Digits;
    var s := Salt(subtype, cost, input);
    DigitsRead(cost);
    EncodeDecode("$2" + [subtype] + "$" + Digits(cost) + "$", input[..16], "");
    assert "$2" + [subtype] + "$" + Digits(cost) + "$" + Encode(input[..16]) + "" == s;
    assert s[4..6] == Digits(cost) && s[4] == Digits(cost)[0] && s[5] == Digits(cost)[1];
    RoundsGrow(4, cost);
    assert Rounds(4) == 16;
  }

  lemma MaskedTwice(v: Sextet)
    ensures Masked(Masked(v, 16), 16) == Masked(v, 16)
  {
  }

  lemma CanonicalTwice(c: char)
    requires Value(c).Some?
    ensures Value(CanonicalLast(c, 16)).Some? && CanonicalLast(CanonicalLast(c, 16), 16) == CanonicalLast(c, 16)
  {
    hide Value, Symbol, Masked;
    var v: Sextet := Value(c).value;
    ValueOfSymbol(Masked(v, 16));
    MaskedTwice(v);
  }

  lemma ThreePieces(s: string, c: char)
    requires |s| >= 28
    ensures s[..28] + [c] == s[..7] + (s[7..28] + [c])
  {
  }

  /** The salt field of a hash is the encoding of the salt that was used. */
  lemma PrefixEncodesSalt(s: CString)
    requires |s| >= 7 && Decode(s, 7, 16).Some?
    ensures |s| >= SETTING_SIZE && Prefix(s) == s[..7] + Encode(SaltOf(s))
  {
    hide Decode, Encode, CanonicalLast, Value, Length;
    SaltInside(s);
    LengthFacts();
    DecodeEncode(s, 7, 16);
    ThreePieces(s, CanonicalLast(s[28], 16));
  }

  /** A hash is a setting again: same header, same salt, and its own prefix. */
  lemma HashIsSetting(s: CString, out: Bytes, min: nat)
    requires Accepted(s, min) && |s| >= SETTING_SIZE && |out| == 23
    ensures var h := WithOutput(s, out);
            && Accepted(h, min) && h[2] == s[2] && Cost(h) == Cost(s)
            && SaltOf(h) == SaltOf(s) && Prefix(h) == Prefix(s)
  {
    hide Decode, Encode, CanonicalLast, Value, Rounds, FlagsOf;
    var h := WithOutput(s, out);
    PrefixEncodesSalt(s);
    EncodeDecode(s[..7], SaltOf(s), Encode(out));
    assert h == s[..7] + Encode(SaltOf(s)) + Encode(out);
    SaltInside(s);
    CanonicalTwice(s[28]);
    assert h[..7] == s[..7] && h[28] == Prefix(s)[28] && h[..28] == s[..28];
    assert forall k :: 0 <= k < 7 ==> h[k] == s[k];
  }

  /** Hashing with a hash as the setting is hashing with the setting it was made with. */
  lemma HashAsSetting(cipher: Cipher, key: Key, s: CString, other: Key, size: int, min: nat)
    requires Crypt(cipher, key, s, size, min).Some?
    ensures Crypt(cipher, other, Crypt(cipher, key, s, size, min).value, size, min)
         == Crypt(cipher, other, s, size, min)
  {
    hide Decode, Encode, Prefix, Words, Initial, HasBug, FlagsOf, Rounds, HasHeader;
    var h := Crypt(cipher, key, s, size, min).value;
    SaltInside(s);
    assert h == WithOutput(s, Output(cipher, key, s));
    hide WithOutput;
    HashIsSetting(s, Output(cipher, key, s), min);
  }

  /** What `bcrypt_checkpw` answers. */
  ghost predicate Matches(cipher: Cipher, key: Key, hash: CString) {
    Crypt(cipher, key, hash, HASHSIZE, 16) == Some(hash)
  }

  /** Verification accepts what hashing produced, for every password, work factor and random input. */
  lemma CheckAfterHash(cipher: Cipher, key: Key, factor: int, input: Bytes)
    requires |input| == 16
    ensures var salt := Salt('a', WorkFactor(factor), input);
            && Crypt(cipher, key, salt, HASHSIZE, 16).Some?
            && Matches(cipher, key, HashText(cipher, key, salt))
  {
    hide Accepted, Salt, Output, WithOutput;
    SaltAccepted('a', WorkFactor(factor), input);
    HashAsSetting(cipher, key, Salt('a', WorkFactor(factor), input), key, HASHSIZE, 16);
  }

  lemma EncodeInjective(x: Bytes, y: Bytes)
    requires |x| == |y| && x != [] && Encode(x) == Encode(y)
    ensures x == y
  {
    hide Encode, Decode;
    EncodeDecode("", x, "");
    EncodeDecode("", y, "");
  }

  lemma OutputShows(s: CString, x: Bytes, y: Bytes)
    requires |s| >= SETTING_SIZE && |x| == 23 && |y| == 23
    ensures WithOutput(s, x) == WithOutput(s, y) <==> x == y
  {
    hide Decode, Encode, Prefix;
    if WithOutput(s, x) == WithOutput(s, y) {
      assert WithOutput(s, x)[29..] == Encode(x) && WithOutput(s, y)[29..] == Encode(y);
      EncodeInjective(x, y);
    }
  }

  /** A stored hash is matched by exactly those passwords for which the cipher gives the same first 23
      bytes. */
  lemma MatchesExactly(cipher: Cipher, key: Key, s: CString, other: Key)
    requires Crypt(cipher, key, s, HASHSIZE, 16).Some?
    ensures Matches(cipher, other, Crypt(cipher, key, s, HASHSIZE, 16).value)
       <==> Output(cipher, other, s) == Output(cipher, key, s)
  {
    hide Decode, Output, WithOutput;
    SaltInside(s);
    HashAsSetting(cipher, key, s, other, HASHSIZE, 16);
    OutputShows(s, Output(cipher, other, s), Output(cipher, key, s));
  }

  /** Bytes of a password beyond the 72nd do not count. */
  lemma LongPasswords(cipher: Cipher, a: Key, b: Key, s: CString, size: int, min: nat)
    requires |a| >= 72 && |b| >= 72 && a[..72] == b[..72]
    ensures Crypt(cipher, a, s, size, min) == Crypt(cipher, b, s, size, min)
  {
    hide Decode, Words, Initial, HasBug, WithOutput, SameStream;
    LongKeys(a, b);
    if Accepted(s, min) {
      SameExpansion(a, b, FlagsOf(s[2]));
    }
  }

  /** Two passwords that differ in their first 72 bytes are told apart by some cipher, under every
      accepted setting of the correct algorithm. */
  lemma ShortPasswordsDiffer(a: Key, b: Key, s: CString, size: int, min: nat) returns (cipher: Cipher)
    requires !SameFor72(a, b) && size >= OUTPUT_SIZE && Accepted(s, min) && s[2] != 'x'
    ensures Crypt(cipher, a, s, size, min) != Crypt(cipher, b, s, size, min)
  {
    hide Decode, HasBug, SameFor72, FlagsOf, HasHeader, Words, Initial, WithOutput, Encode;
    CorrectSubtype(s[2]);
    var w := Words(a, false);
    WordsTellKeys(a, b);
    var zeros, ones := Constant(0), Constant(1);
    cipher := (words, initial, rounds, salt) => if words == w then zeros else ones;
    SaltInside(s);
    assert Output(cipher, a, s) == zeros[..23] && Output(cipher, b, s) == ones[..23];
    assert zeros[..23][0] != ones[..23][0];
    OutputShows(s, zeros[..23], ones[..23]);
  }

  lemma CorrectSubtype(subtype: char)
    requires subtype != 'x'
    ensures !HasBug(FlagsOf(subtype))
  {
  }

  function Constant(b: Byte): (d: Digest)
    ensures forall j :: 0 <= j < |d| ==> d[j] == b
  {
    seq(24, _ => b)
  }

  /** A stored text is matched by some password only if it has the exact size and its 22nd salt
      character is canonical. */
  lemma MatchedShape(cipher: Cipher, key: Key, hash: CString)
    requires Matches(cipher, key, hash)
    ensures |hash| == 60 && Accepted(hash, 16) && Prefix(hash) == hash[..29]
  {
    hide Decode, Encode, Prefix, Output;
  }

  /** The text left for an error never equals the setting. */
  lemma MagicDiffers(setting: CString)
    ensures Magic(setting) != setting
  {
  }
}
