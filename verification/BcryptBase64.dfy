/**
  `BF_encode` and `BF_decode`: the base64 variant of bcrypt, with its own alphabet, without padding
  and with any number of bytes from one up.
 */
module BcryptBase64 {
  import opened Sequences
  import opened Wrappers

  type Byte = b: int | 0 <= b < 256
  type Bytes = seq<Byte>

  /** `BF_itoa64[i]` */
  function Symbol(i: nat): char
    requires i < 64
  {
    if i == 0 then '.' else if i == 1 then '/'
    else if i < 28 then 'A' + (i - 2) as char
    else if i < 54 then 'a' + (i - 28) as char
    else '0' + (i - 54) as char
  }

  /** `BF_atoi64`; None stands for 64 and for characters outside the table. */
  function Value(c: char): (v: Option<nat>)
    ensures v.Some? ==> v.value < 64 && Symbol(v.value) == c
  {
    if c == '.' then Some(0) else if c == '/' then Some(1)
    else if 'A' <= c <= 'Z' then Some(2 + (c - 'A') as nat)
    else if 'a' <= c <= 'z' then Some(28 + (c - 'a') as nat)
    else if '0' <= c <= '9' then Some(54 + (c - '0') as nat)
    else None
  }

  lemma ValueOfSymbol(i: nat)
    requires i < 64
    ensures Value(Symbol(i)) == Some(i)
  {
  }

  /** The value of the character at `k`; at the end of the string there is the terminator, which is not
      in the alphabet. */
  function ValueAt(s: string, k: nat): (v: Option<nat>)
    requires k <= |s|
    ensures v.Some? ==> k < |s| && v.value < 64 && Symbol(v.value) == s[k]
  {
    if k < |s| then Value(s[k]) else None
  }

  // ------------------------------------------------------------ encoding

  type Sextet = v: int | 0 <= v < 64

  function SextetsOf(x: Bytes): (v: seq<Sextet>)
    requires 1 <= |x| <= 3
    ensures |v| == |x| + 1
  {
    if |x| == 1 then [x[0] / 4, x[0] % 4 * 16]
    else if |x| == 2 then [x[0] / 4, x[0] % 4 * 16 + x[1] / 16, x[1] % 16 * 4]
    else [x[0] / 4, x[0] % 4 * 16 + x[1] / 16, x[1] % 16 * 4 + x[2] / 64, x[2] % 64]
  }

  function EncodeGroup(x: Bytes): (s: string)
    requires 1 <= |x| <= 3
    ensures |s| == |x| + 1
  {
    var v := SextetsOf(x);
    seq(|v|, j requires 0 <= j < |v| => Symbol(v[j]))
  }

  lemma GroupSymbols(x: Bytes)
    requires 1 <= |x| <= 3
    ensures forall j :: 0 <= j <= |x| ==> EncodeGroup(x)[j] == Symbol(SextetsOf(x)[j])
  {
    hide SextetsOf, Symbol;
  }

  /** The number of symbols for `n` bytes */
  function Length(n: nat): nat {
    if n == 0 then 0 else if n < 3 then n + 1 else 4 + Length(n - 3)
  }

  function Encode(x: Bytes): (s: string)
    ensures |s| == Length(|x|)
  {
    if x == [] then "" else if |x| <= 3 then EncodeGroup(x) else EncodeGroup(x[..3]) + Encode(x[3..])
  }

  lemma {:induction false} EncodedSymbols(x: Bytes)
    ensures forall c :: c in Encode(x) ==> Value(c).Some?
  {
    hide SextetsOf, Symbol, Value;
    forall i: Sextet ensures Value(Symbol(i)).Some? { ValueOfSymbol(i); }
    if |x| > 3 {
      EncodedSymbols(x[3..]);
    }
  }

  function GroupSize(n: nat): (k: nat)
    ensures k <= 3 && (1 <= n ==> 1 <= k <= n && (k < 3 ==> k == n))
  {
    if n < 3 then n else 3
  }

  lemma GroupSizeIs(n: nat)
    ensures GroupSize(n) == if n < 3 then n else 3
  {
  }

  lemma GroupText(x: Bytes)
    requires 1 <= |x| <= 3
    ensures EncodeGroup(x)[0] == Symbol(x[0] / 4)
    ensures |x| == 1 ==> EncodeGroup(x)[1] == Symbol(x[0] % 4 * 16)
    ensures |x| > 1 ==> EncodeGroup(x)[1] == Symbol(x[0] % 4 * 16 + x[1] / 16)
    ensures |x| == 2 ==> EncodeGroup(x)[2] == Symbol(x[1] % 16 * 4)
    ensures |x| > 2 ==> EncodeGroup(x)[2] == Symbol(x[1] % 16 * 4 + x[2] / 64)
    ensures |x| > 2 ==> EncodeGroup(x)[3] == Symbol(x[2] % 64)
  {
    hide Symbol;
    GroupSymbols(x);
  }

  /** One turn of the encoder's loop: up to three bytes. */
  method EncodeOnce(dst: array<char>, dptr0: nat, src: Bytes, sptr0: nat) returns (dptr: nat, sptr: nat)
    requires sptr0 < |src| && dptr0 + GroupSize(|src| - sptr0) + 1 <= dst.Length
    modifies dst
    ensures sptr == sptr0 + GroupSize(|src| - sptr0) && dptr == dptr0 + (sptr - sptr0) + 1
    ensures dst[dptr0..dptr] == EncodeGroup(src[sptr0..sptr])
    ensures dst[..dptr0] == old(dst[..dptr0]) && dst[dptr..] == old(dst[dptr..])
  {
    GroupText(src[sptr0..sptr0 + GroupSize(|src| - sptr0)]);
    hide Symbol, EncodeGroup, SextetsOf;
    dptr, sptr := dptr0, sptr0;
    var c1 := src[sptr];
    sptr := sptr + 1;
    dst[dptr] := Symbol(c1 / 4);
    dptr := dptr + 1;
    c1 := c1 % 4 * 16;
    if sptr >= |src| {
      dst[dptr] := Symbol(c1);
      dptr := dptr + 1;
      return;
    }
    var c2 := src[sptr];
    sptr := sptr + 1;
    c1 := c1 + c2 / 16;
    dst[dptr] := Symbol(c1);
    dptr := dptr + 1;
    c1 := c2 % 16 * 4;
    if sptr >= |src| {
      dst[dptr] := Symbol(c1);
      dptr := dptr + 1;
      return;
    }
    c2 := src[sptr];
    sptr := sptr + 1;
    c1 := c1 + c2 / 64;
    dst[dptr] := Symbol(c1);
    dst[dptr + 1] := Symbol(c2 % 64);
    dptr := dptr + 2;
  }

  lemma EncodeShort(x: Bytes)
    requires 1 <= |x| <= 3
    ensures Encode(x) == EncodeGroup(x) && Encode([]) == "" && Length(|x|) == |x| + 1 + Length(0)
  {
    hide EncodeGroup;
  }

  lemma EncodeShortSplit(x: Bytes)
    requires 1 <= |x| <= 3
    ensures Encode(x) == EncodeGroup(x[..|x|]) + Encode(x[|x|..])
  {
    hide *;
    EncodeShort(x);
    WholeSlices(x);
    NothingMore(EncodeGroup(x));
  }

  lemma EncodeLong(x: Bytes)
    requires |x| > 3
    ensures Encode(x) == EncodeGroup(x[..3]) + Encode(x[3..]) && Length(|x|) == 4 + Length(|x| - 3)
  {
    hide EncodeGroup;
  }

  lemma EncodeSplit(x: Bytes, k: nat)
    requires x != [] && k == GroupSize(|x|)
    ensures Encode(x) == EncodeGroup(x[..k]) + Encode(x[k..])
    ensures Length(|x|) == k + 1 + Length(|x| - k)
  {
    hide *;
    GroupSizeIs(|x|);
    if |x| <= 3 {
      EncodeShort(x);
      EncodeShortSplit(x);
    } else {
      EncodeLong(x);
    }
  }

  lemma EncodeFirst(x: Bytes, i: nat, k: nat)
    requires i < |x| && k == GroupSize(|x| - i)
    ensures Encode(x[i..]) == EncodeGroup(x[i..i + k]) + Encode(x[i + k..])
    ensures Length(|x| - i) == k + 1 + Length(|x| - i - k)
  {
    hide Encode, EncodeGroup, GroupSize, Length;
    var y := x[i..];
    EncodeSplit(y, k);
    assert y[..k] == x[i..i + k] && y[k..] == x[i + k..];
  }

  /** One turn, said of everything before the cursor. */
  method EncodeNext(dst: array<char>, dptr0: nat, src: Bytes, sptr0: nat) returns (dptr: nat, sptr: nat)
    requires sptr0 < |src| && dptr0 + GroupSize(|src| - sptr0) + 1 <= dst.Length
    modifies dst
    ensures sptr == sptr0 + GroupSize(|src| - sptr0) && dptr == dptr0 + (sptr - sptr0) + 1
    ensures dst[..dptr] == old(dst[..dptr0]) + EncodeGroup(src[sptr0..sptr])
    ensures dst[dptr..] == old(dst[dptr..])
  {
    hide EncodeGroup, GroupSize;
    dptr, sptr := EncodeOnce(dst, dptr0, src, sptr0);
    assert dst[..dptr] == dst[..dptr0] + dst[dptr0..dptr];
  }

  /** Writes the symbols from `at` on, and changes nothing else. */
  method BfEncode(dst: array<char>, at: nat, src: Bytes) returns (end: nat)
    requires |src| >= 1 && at + Length(|src|) <= dst.Length
    modifies dst
    ensures end == at + Length(|src|)
    ensures dst[..end] == old(dst[..at]) + Encode(src) && dst[end..] == old(dst[end..])
  {
    hide Encode, Length, EncodeGroup, GroupSize;
    var sptr, dptr := 0, at;
    assert src[0..] == src;
    ghost var e, whole := at + Length(|src|), dst[..at] + Encode(src);
    while sptr < |src|
      invariant 0 <= sptr <= |src| && at <= dptr && dptr + Length(|src| - sptr) == e
      invariant dst[..dptr] + Encode(src[sptr..]) == whole
      invariant dst[dptr..] == old(dst[dptr..])
    {
      ghost var group := GroupSize(|src| - sptr);
      EncodeFirst(src, sptr, group);
      Associative(dst[..dptr], EncodeGroup(src[sptr..sptr + group]), Encode(src[sptr + group..]));
      ghost var d := dptr;
      dptr, sptr := EncodeNext(dst, dptr, src, sptr);
      assert old(dst[..])[dptr..] == old(dst[d..])[dptr - d..];
    }
    end := dptr;
    NothingEncoded(src);
    assert dst[..dptr] + "" == dst[..dptr];
  }

  lemma NothingEncoded(x: Bytes)
    ensures Encode(x[|x|..]) == "" && Length(0) == 0
  {
  }

  // ------------------------------------------------------------ decoding

  /** `n` bytes; every character is looked at only if those before it are no terminator. */
  function DecodeGroup(s: string, at: nat, n: nat): (r: Option<Bytes>)
    requires 1 <= n <= 3 && at <= |s|
    ensures r.Some? ==> |r.value| == n && at + n < |s|
  {
    var c1 := ValueAt(s, at);
    if c1.None? then None
    else
      var c2 := ValueAt(s, at + 1);
      if c2.None? then None
      else
        var b1: Byte := c1.value * 4 + c2.value / 16;
        if n == 1 then Some([b1])
        else
          var c3 := ValueAt(s, at + 2);
          if c3.None? then None
          else
            var b2: Byte := c2.value % 16 * 16 + c3.value / 4;
            if n == 2 then Some([b1, b2])
            else
              var c4 := ValueAt(s, at + 3);
              if c4.None? then None else Some([b1, b2, c3.value % 4 * 64 + c4.value])
  }

  /** `size` bytes read from the string at `at`, or an error. */
  function Decode(s: string, at: nat, size: nat): (r: Option<Bytes>)
    requires size >= 1 && at <= |s|
    ensures r.Some? ==> |r.value| == size && at + Length(size) <= |s|
    decreases size
  {
    if size <= 3 then DecodeGroup(s, at, size)
    else
      match DecodeGroup(s, at, 3)
      case None => None
      case Some(group) =>
        match Decode(s, at + 4, size - 3)
        case None => None
        case Some(rest) => Some(group + rest)
  }

  /** One turn of the decoder's loop: up to three bytes, or an error. */
  method DecodeOnce(dst: array<Byte>, dptr0: nat, src: string, sptr0: nat, end: nat)
    returns (ok: bool, dptr: nat, sptr: nat)
    requires dptr0 < end <= dst.Length && sptr0 <= |src|
    modifies dst
    ensures dst[..dptr0] == old(dst[..dptr0]) && sptr <= |src|
    ensures ok == DecodeGroup(src, sptr0, GroupSize(end - dptr0)).Some?
    ensures ok ==> dptr == dptr0 + GroupSize(end - dptr0) && sptr == sptr0 + GroupSize(end - dptr0) + 1
                   && dst[dptr0..dptr] == DecodeGroup(src, sptr0, GroupSize(end - dptr0)).value
  {
    hide Value, Symbol;
    dptr, sptr := dptr0, sptr0;
    var c1 := ValueAt(src, sptr);
    if c1.None? {
      return false, dptr, sptr;
    }
    sptr := sptr + 1;
    var c2 := ValueAt(src, sptr);
    if c2.None? {
      return false, dptr, sptr;
    }
    sptr := sptr + 1;
    dst[dptr] := c1.value * 4 + c2.value / 16;
    dptr := dptr + 1;
    if dptr >= end {
      return true, dptr, sptr;
    }
    var c3 := ValueAt(src, sptr);
    if c3.None? {
      return false, dptr, sptr;
    }
    sptr := sptr + 1;
    dst[dptr] := c2.value % 16 * 16 + c3.value / 4;
    dptr := dptr + 1;
    if dptr >= end {
      return true, dptr, sptr;
    }
    var c4 := ValueAt(src, sptr);
    if c4.None? {
      return false, dptr, sptr;
    }
    sptr := sptr + 1;
    dst[dptr] := c3.value % 4 * 64 + c4.value;
    dptr := dptr + 1;
    return true, dptr, sptr;
  }

  lemma DecodeFirst(s: string, at: nat, size: nat)
    requires size >= 1 && at <= |s|
    ensures var k := GroupSize(size);
            Decode(s, at, size) == match DecodeGroup(s, at, k)
                                   case None => None
                                   case Some(group) =>
                                     if k == size then Some(group)
                                     else match Decode(s, at + 4, size - 3)
                                          case None => None
                                          case Some(rest) => Some(group + rest)
  {
    hide DecodeGroup;
    if size == 3 { assert GroupSize(size) == 3; }
  }

  /** Zero and the bytes, or -1 at the first character outside the alphabet. */
  method BfDecode(dst: array<Byte>, src: string, at: nat, size: nat) returns (ret: int)
    requires 1 <= size <= dst.Length && at <= |src|
    modifies dst
    ensures ret == if Decode(src, at, size).Some? then 0 else -1
    ensures ret == 0 ==> dst[..size] == Decode(src, at, size).value
  {
    hide Decode, DecodeGroup, GroupSize;
    var dptr, sptr := 0, at;
    ghost var whole := Decode(src, at, size);
    while dptr < size
      invariant 0 <= dptr <= size && 0 <= sptr <= |src|
      invariant dptr < size ==> whole.Some? == Decode(src, sptr, size - dptr).Some?
      invariant dptr == size ==> whole.Some? && dst[..dptr] == whole.value
      invariant dptr < size && whole.Some? ==> whole.value == dst[..dptr] + Decode(src, sptr, size - dptr).value
    {
      DecodeFirst(src, sptr, size - dptr);
      ghost var d, before := dptr, dst[..dptr];
      var ok;
      ok, dptr, sptr := DecodeOnce(dst, dptr, src, sptr, size);
      if !ok {
        return -1;
      }
      assert dst[..dptr] == before + dst[d..dptr];
    }
    return 0;
  }

  // ------------------------------------------------------------ the laws

  function BytesOf(v: seq<Sextet>): Bytes
    requires 2 <= |v| <= 4
  {
    var v1: int, v2: int := v[0], v[1];
    var b1: Byte := v1 * 4 + v2 / 16;
    if |v| == 2 then [b1]
    else
      var v3: int := v[2];
      var b2: Byte := v2 % 16 * 16 + v3 / 4;
      if |v| == 3 then [b1, b2] else [b1, b2, v3 % 4 * 64 + v[3]]
  }

  lemma BytesOfSextets(x: Bytes)
    requires 1 <= |x| <= 3
    ensures BytesOf(SextetsOf(x)) == x
  {
    var b := if |x| > 1 then x[1] else 0;
    var c := if |x| > 2 then x[2] else 0;
    assert (x[0] % 4 * 16 + b / 16) / 16 == x[0] % 4 && (x[0] % 4 * 16 + b / 16) % 16 == b / 16;
    assert (b % 16 * 4 + c / 64) / 4 == b % 16 && (b % 16 * 4 + c / 64) % 4 == c / 64;
  }

  lemma GroupOfValues(s: string, at: nat, v: seq<Sextet>)
    requires 2 <= |v| <= 4 && at + |v| <= |s| && forall j :: 0 <= j < |v| ==> ValueAt(s, at + j) == Some(v[j])
    ensures DecodeGroup(s, at, |v| - 1) == Some(BytesOf(v))
  {
    hide ValueAt;
    assert ValueAt(s, at + 0) == Some(v[0]) && ValueAt(s, at + 1) == Some(v[1]);
    if |v| > 2 { assert ValueAt(s, at + 2) == Some(v[2]); }
    if |v| > 3 { assert ValueAt(s, at + 3) == Some(v[3]); }
  }

  lemma GroupRoundTrip(pre: string, x: Bytes, more: string)
    requires 1 <= |x| <= 3
    ensures DecodeGroup(pre + EncodeGroup(x) + more, |pre|, |x|) == Some(x)
  {
    hide EncodeGroup, SextetsOf, Value, Symbol, BytesOf;
    var s, v := pre + EncodeGroup(x) + more, SextetsOf(x);
    GroupSymbols(x);
    forall j | 0 <= j < |v| ensures ValueAt(s, |pre| + j) == Some(v[j]) {
      assert s[|pre| + j] == EncodeGroup(x)[j];
      ValueOfSymbol(v[j]);
    }
    hide ValueAt;
    GroupOfValues(s, |pre|, v);
    BytesOfSextets(x);
  }

  /** Decoding undoes encoding for every number of bytes, whatever stands before and after. */
  lemma {:induction false} EncodeDecode(pre: string, x: Bytes, more: string)
    requires x != []
    ensures Decode(pre + Encode(x) + more, |pre|, |x|) == Some(x)
    decreases |x|
  {
    hide EncodeGroup, DecodeGroup;
    if |x| <= 3 {
      GroupRoundTrip(pre, x, more);
    } else {
      var g, y := x[..3], x[3..];
      var s := pre + Encode(x) + more;
      assert s == pre + EncodeGroup(g) + (Encode(y) + more);
      GroupRoundTrip(pre, g, Encode(y) + more);
      EncodeDecode(pre + EncodeGroup(g), y, more);
      assert s == (pre + EncodeGroup(g)) + Encode(y) + more;
      assert g + y == x;
    }
  }

  /** The last sextet for `size` bytes, without the bits that decoding ignores. */
  function Masked(v: Sextet, size: nat): Sextet {
    if size % 3 == 1 then v / 16 * 16 else if size % 3 == 2 then v / 4 * 4 else v
  }

  function CanonicalLast(c: char, size: nat): char {
    match Value(c)
    case None => c
    case Some(v) => Symbol(Masked(v, size))
  }

  lemma SextetsOfBytes(v: seq<Sextet>)
    requires 2 <= |v| <= 4
    ensures SextetsOf(BytesOf(v)) == v[..|v| - 1] + [Masked(v[|v| - 1], |v| - 1)]
  {
    var x, v1: int, v2: int := BytesOf(v), v[0], v[1];
    assert x[0] / 4 == v1 && x[0] % 4 == v2 / 16;
    if |v| > 2 {
      var v3: int := v[2];
      assert x[1] / 16 == v2 % 16 && x[1] % 16 == v3 / 4;
      if |v| > 3 {
        var v4: int := v[3];
        assert x[2] / 64 == v3 % 4 && x[2] % 64 == v4;
      }
    }
  }

  lemma GroupValues(s: string, at: nat, n: nat) returns (v: seq<Sextet>)
    requires 1 <= n <= 3 && at <= |s| && DecodeGroup(s, at, n).Some?
    ensures |v| == n + 1 && at + n < |s|
    ensures forall j :: 0 <= j <= n ==> Value(s[at + j]) == Some(v[j]) && s[at + j] == Symbol(v[j])
    ensures DecodeGroup(s, at, n) == Some(BytesOf(v))
  {
    hide Value, Symbol;
    v := [ValueAt(s, at).value, ValueAt(s, at + 1).value];
    if n > 1 { v := v + [ValueAt(s, at + 2).value]; }
    if n > 2 { v := v + [ValueAt(s, at + 3).value]; }
  }

  lemma GroupCanonical(s: string, at: nat, n: nat)
    requires 1 <= n <= 3 && at <= |s| && DecodeGroup(s, at, n).Some?
    ensures Value(s[at + n]).Some?
    ensures EncodeGroup(DecodeGroup(s, at, n).value) == s[at..at + n] + [CanonicalLast(s[at + n], n)]
  {
    var v := GroupValues(s, at, n);
    SextetsOfBytes(v);
    hide Value, Symbol, DecodeGroup, BytesOf, SextetsOf, Masked;
  }

  /** Encoding what was decoded gives the text back, with its last symbol made canonical. */
  lemma {:induction false} DecodeEncode(s: string, at: nat, size: nat)
    requires size >= 1 && at <= |s| && Decode(s, at, size).Some?
    ensures var end := at + Length(size);
            && end <= |s| && Length(size) >= 2 && Value(s[end - 1]).Some?
            && Encode(Decode(s, at, size).value) == s[at..end - 1] + [CanonicalLast(s[end - 1], size)]
    decreases size
  {
    hide DecodeGroup, EncodeGroup, CanonicalLast, Value;
    if size <= 3 {
      GroupCanonical(s, at, size);
    } else {
      DecodeEncode(s, at + 4, size - 3);
      GroupCanonical(s, at, 3);
      var x, end := Decode(s, at, size).value, at + Length(size);
      assert x[..3] == DecodeGroup(s, at, 3).value && x[3..] == Decode(s, at + 4, size - 3).value;
      LastOfThree(s[at + 3]);
      LastShift(s[end - 1], size);
      Slices(s, at, end, CanonicalLast(s[end - 1], size));
    }
  }

  lemma Slices(s: string, at: nat, end: nat, last: char)
    requires at + 4 < end <= |s|
    ensures (s[at..at + 3] + [s[at + 3]]) + (s[at + 4..end - 1] + [last]) == s[at..end - 1] + [last]
  {
  }

  lemma LastOfThree(c: char)
    requires Value(c).Some?
    ensures CanonicalLast(c, 3) == c
  {
  }

  lemma LastShift(c: char, size: nat)
    requires Value(c).Some? && size >= 3
    ensures CanonicalLast(c, size) == CanonicalLast(c, size - 3)
  {
  }

  // ------------------------------------------------------------ the meaning of the symbols

  const ALPHABET := "./" + "ABCDEFGHIJKLMNOPQRSTUVWXYZ" + "abcdefghijklmnopqrstuvwxyz" + "0123456789"

  lemma UpperIs()
    ensures forall i :: 0 <= i < 26 ==> "ABCDEFGHIJKLMNOPQRSTUVWXYZ"[i] == 'A' + i as char
  {
  }

  lemma LowerIs()
    ensures forall i :: 0 <= i < 26 ==> "abcdefghijklmnopqrstuvwxyz"[i] == 'a' + i as char
  {
  }

  lemma DigitsAre()
    ensures forall i :: 0 <= i < 10 ==> "0123456789"[i] == '0' + i as char
  {
  }

  lemma AlphabetIs(i: nat)
    requires i < 64
    ensures ALPHABET[i] == Symbol(i)
  {
    UpperIs();
    LowerIs();
    DigitsAre();
  }

  /** Exactly the characters of the alphabet have a value, each its index. */
  lemma ValueInAlphabet(c: char)
    ensures Value(c).Some? <==> c in ALPHABET
    ensures Value(c).Some? ==> ALPHABET[Value(c).value] == c
  {
    hide Symbol;
    if Value(c).Some? {
      AlphabetIs(Value(c).value);
    } else if c in ALPHABET {
      var i :| 0 <= i < 64 && ALPHABET[i] == c;
      AlphabetIs(i);
      ValueOfSymbol(i);
    }
  }

  /** The number that symbols stand for, most significant first. */
  function SymbolNumber(s: string): nat
    requires forall c :: c in s ==> c in ALPHABET
  {
    if s == "" then 0
    else
      var c := s[|s| - 1];
      ValueInAlphabet(c);
      SymbolNumber(s[..|s| - 1]) * 64 + Value(c).value
  }

  lemma SymbolNumberNext(s: string, t: string, i: nat)
    requires (forall c :: c in s ==> c in ALPHABET) && i < 64 && t == s + [Symbol(i)]
    ensures (forall c :: c in t ==> c in ALPHABET) && SymbolNumber(t) == SymbolNumber(s) * 64 + i
  {
    ValueOfSymbol(i);
    ValueInAlphabet(Symbol(i));
    hide Symbol, ALPHABET, Value;
    assert t[..|t| - 1] == s;
  }

  /** Three bytes are written as the four symbols of the same 24-bit number, two as three symbols of it
      shifted by 2 bits, one as two symbols of it shifted by 4 bits. */
  lemma GroupMeans(x: Bytes)
    requires 1 <= |x| <= 3
    ensures var s, a: int := Encode(x), x[0];
            && |s| == |x| + 1 && (forall c :: c in s ==> c in ALPHABET)
            && (|x| == 1 ==> SymbolNumber(s) == a * 16)
            && (|x| == 2 ==> SymbolNumber(s) == (a * 256 + x[1] as int) * 4)
            && (|x| == 3 ==> SymbolNumber(s) == (a * 256 + x[1] as int) * 256 + x[2] as int)
  {
    hide *;
    EncodeShort(x);
    var v := SextetsOf(x);
    GroupSymbols(x);
    SextetNumber(x);
    NumberOfSymbols(Encode(x), v);
  }

  lemma NumberOfSymbols(s: string, v: seq<Sextet>)
    requires 2 <= |v| <= 4 && |s| == |v| && forall j :: 0 <= j < |v| ==> s[j] == Symbol(v[j])
    ensures forall c :: c in s ==> c in ALPHABET
    ensures var a: int := v[0];
            && (|v| == 2 ==> SymbolNumber(s) == a * 64 + v[1] as int)
            && (|v| == 3 ==> SymbolNumber(s) == (a * 64 + v[1] as int) * 64 + v[2] as int)
            && (|v| == 4 ==> SymbolNumber(s) == ((a * 64 + v[1] as int) * 64 + v[2] as int) * 64 + v[3] as int)
  {
    hide Symbol, ALPHABET, SymbolNumber;
    NothingNumbered();
    SymbolNumberNext("", s[..1], v[0]);
    SymbolNumberNext(s[..1], s[..2], v[1]);
    if |v| > 2 { SymbolNumberNext(s[..2], s[..3], v[2]); }
    if |v| > 3 { SymbolNumberNext(s[..3], s[..4], v[3]); }
    assert s[..|v|] == s;
  }

  lemma NothingNumbered()
    ensures SymbolNumber("") == 0
  {
  }

  lemma SextetNumber(x: Bytes)
    requires 1 <= |x| <= 3
    ensures var v, a: int := SextetsOf(x), x[0];
            var n: int := v[0] as int * 64 + v[1] as int;
            && (|x| == 1 ==> n == a * 16)
            && (|x| == 2 ==> n * 64 + v[2] as int == (a * 256 + x[1] as int) * 4)
            && (|x| == 3 ==>
                  (n * 64 + v[2] as int) * 64 + v[3] as int == (a * 256 + x[1] as int) * 256 + x[2] as int)
  {
  }

  /** Longer inputs are written three bytes at a time. */
  lemma {:induction false} EncodeConcat(x: Bytes, y: Bytes)
    requires |x| % 3 == 0
    ensures Encode(x + y) == Encode(x) + Encode(y)
  {
    hide EncodeGroup, GroupSize, Encode;
    if x == [] {
      assert x + y == y;
      NothingEncoded(x);
    } else {
      assert (x + y)[..3] == x[..3] && (x + y)[3..] == x[3..] + y;
      GroupSizeIs(|x|);
      GroupSizeIs(|x + y|);
      EncodeSplit(x + y, 3);
      EncodeSplit(x, 3);
      EncodeConcat(x[3..], y);
    }
  }

  /** What is decoded has the number of its symbols without the bits that fill no byte. */
  lemma DecodedMeans(s: string, at: nat, n: nat)
    requires 1 <= n <= 3 && at <= |s| && Decode(s, at, n).Some?
    ensures at + n < |s| && forall c :: c in s[at..at + n + 1] ==> c in ALPHABET
    ensures var x, v := Decode(s, at, n).value, SymbolNumber(s[at..at + n + 1]);
            && (n == 1 ==> x[0] as int == v / 16)
            && (n == 2 ==> x[0] as int * 256 + x[1] as int == v / 4)
            && (n == 3 ==> (x[0] as int * 256 + x[1] as int) * 256 + x[2] as int == v)
  {
    var v := GroupValues(s, at, n);
    hide *;
    var t := s[at..at + n + 1];
    NumberOfSymbols(t, v);
    BytesNumber(v);
    DecodeShort(s, at, n);
  }

  lemma DecodeShort(s: string, at: nat, n: nat)
    requires 1 <= n <= 3 && at <= |s|
    ensures Decode(s, at, n) == DecodeGroup(s, at, n)
  {
  }

  lemma BytesNumber(v: seq<Sextet>)
    requires 2 <= |v| <= 4
    ensures var x, n: int := BytesOf(v), v[0] as int * 64 + v[1] as int;
            && |x| == |v| - 1
            && (|v| == 2 ==> x[0] as int == n / 16)
            && (|v| == 3 ==> x[0] as int * 256 + x[1] as int == (n * 64 + v[2] as int) / 4)
            && (|v| == 4 ==>
                  (x[0] as int * 256 + x[1] as int) * 256 + x[2] as int == (n * 64 + v[2] as int) * 64 + v[3] as int)
  {
  }

  // ------------------------------------------------------------ what can be decoded

  lemma GroupExactly(s: string, at: nat, n: nat)
    requires 1 <= n <= 3 && at <= |s|
    ensures DecodeGroup(s, at, n).Some? <==> at + n < |s| && forall k :: at <= k <= at + n ==> Value(s[k]).Some?
  {
    hide Value, Symbol;
  }

  /** The bytes are there exactly if all their symbols are; the string may go on behind them. */
  lemma {:induction false} DecodesExactly(s: string, at: nat, size: nat)
    requires size >= 1 && at <= |s|
    ensures Decode(s, at, size).Some?
       <==> at + Length(size) <= |s| && forall k :: at <= k < at + Length(size) ==> s[k] in ALPHABET
    decreases size
  {
    hide DecodeGroup, Value, ALPHABET;
    forall k | at <= k < |s| ensures Value(s[k]).Some? <==> s[k] in ALPHABET { ValueInAlphabet(s[k]); }
    if size <= 3 {
      GroupExactly(s, at, size);
      EncodeShort(seq(size, _ => 0));
    } else {
      GroupExactly(s, at, 3);
      if at + 4 <= |s| { DecodesExactly(s, at + 4, size - 3); }
    }
  }
}
