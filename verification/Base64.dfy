/**
  `base64_encode` with line breaks and `base64_decode` (section 4 of RFC 4648, section 6.8 of
  RFC 2045).  A byte string is a sequence of characters below 256.
 */
module Base64 {
  import opened Arithmetic

  type Byte = c: char | c < 256 as char witness 'a'
  type Bytes = seq<Byte>

  /** `base64_chars[i]` */
  function Symbol(i: nat): char
    requires i < 64
  {
    if i < 26 then 'A' + i as char
    else if i < 52 then 'a' + (i - 26) as char
    else if i < 62 then '0' + (i - 52) as char
    else if i == 62 then '+' else '/'
  }

  predicate IsBase64(c: char) {
    'A' <= c <= 'Z' || 'a' <= c <= 'z' || '0' <= c <= '9' || c == '+' || c == '/'
  }

  predicate IsWhitespace(c: char) {
    c == '\r' || c == '\n' || c == '\t' || c == ' '
  }

  /** `base64_chars.find(c)` */
  function Find(c: char): (i: nat)
    requires IsBase64(c)
    ensures i < 64 && Symbol(i) == c
  {
    if 'A' <= c <= 'Z' then (c - 'A') as nat
    else if 'a' <= c <= 'z' then 26 + (c - 'a') as nat
    else if '0' <= c <= '9' then 52 + (c - '0') as nat
    else if c == '+' then 62 else 63
  }

  lemma FindSymbol(i: nat)
    requires i < 64
    ensures IsBase64(Symbol(i)) && Find(Symbol(i)) == i
  {
  }

  // ------------------------------------------------------------ encoding

  /** The symbols of three bytes, two bytes and a zero, or one byte and two zeros. */
  function Quad(a: nat, b: nat, c: nat): (s: string)
    requires a < 256 && b < 256 && c < 256
    ensures |s| == 4
  {
    [Symbol(a / 4), Symbol(a % 4 * 16 + b / 16), Symbol(b % 16 * 4 + c / 64), Symbol(c % 64)]
  }

  function Symbols(x: Bytes): string
  {
    if |x| == 0 then ""
    else if |x| == 1 then Quad(x[0] as nat, 0, 0)[..2] + "=="
    else if |x| == 2 then Quad(x[0] as nat, x[1] as nat, 0)[..3] + "="
    else Quad(x[0] as nat, x[1] as nat, x[2] as nat) + Symbols(x[3..])
  }

  /** A break after every `after` symbols that are followed by another one. */
  function WithBreaks(s: string, after: nat, sep: string): string
  {
    if after == 0 || |s| <= after then s
    else s[..after] + sep + WithBreaks(s[after..], after, sep)
  }

  /** The number of symbols since the last break. */
  function SinceBreak(s: string, after: nat): (n: nat)
    ensures after > 0 ==> n <= after
    ensures n == 0 ==> s == ""
  {
    if after == 0 || |s| <= after then |s| else SinceBreak(s[after..], after)
  }

  lemma {:induction false} BreakStep(s: string, c: char, after: nat, sep: string)
    ensures WithBreaks(s + [c], after, sep)
         == WithBreaks(s, after, sep) + (if after > 0 && SinceBreak(s, after) == after then sep + [c] else [c])
    ensures SinceBreak(s + [c], after)
         == if after > 0 && SinceBreak(s, after) == after then 1 else SinceBreak(s, after) + 1
    decreases |s|
  {
    if after > 0 && |s| > after {
      assert (s + [c])[after..] == s[after..] + [c] && (s + [c])[..after] == s[..after];
      BreakStep(s[after..], c, after, sep);
    } else if after > 0 && |s| == after {
      assert (s + [c])[after..] == [c] && (s + [c])[..after] == s;
    }
  }

  /** Writes one symbol, after a break if the line is full. */
  method Emit(ret0: string, count0: nat, c: char, after: nat, sep: string, ghost s: string)
    returns (ret: string, count: nat)
    requires ret0 == WithBreaks(s, after, sep) && count0 == SinceBreak(s, after)
    ensures ret == WithBreaks(s + [c], after, sep) && count == SinceBreak(s + [c], after)
  {
    BreakStep(s, c, after, sep);
    ret, count := ret0, count0;
    if after > 0 && count == after {
      ret := ret + sep;
      count := 0;
    }
    ret := ret + [c];
    count := count + 1;
  }

  /** Writes the symbols of `quad[..n]` one by one. */
  method EmitAll(ret0: string, count0: nat, quad: string, after: nat, sep: string, ghost s: string)
    returns (ret: string, count: nat)
    requires ret0 == WithBreaks(s, after, sep) && count0 == SinceBreak(s, after)
    ensures ret == WithBreaks(s + quad, after, sep) && count == SinceBreak(s + quad, after)
  {
    ret, count := ret0, count0;
    assert s + quad[..0] == s;
    for j := 0 to |quad|
      invariant ret == WithBreaks(s + quad[..j], after, sep) && count == SinceBreak(s + quad[..j], after)
    {
      ret, count := Emit(ret, count, quad[j], after, sep, s + quad[..j]);
      assert s + quad[..j] + [quad[j]] == s + quad[..j + 1];
    }
    assert quad[..|quad|] == quad;
  }

  /** The symbols and the padding of an incomplete group. */
  method EmitRest(ret0: string, count0: nat, three: array<int>, i: nat, after: nat, sep: string,
                  ghost s: string, ghost rest: Bytes) returns (ret: string)
    requires three.Length == 3 && 0 < i == |rest| < 3
    requires forall j :: 0 <= j < i ==> three[j] == rest[j] as int
    requires ret0 == WithBreaks(s, after, sep) && count0 == SinceBreak(s, after)
    modifies three
    ensures ret == WithBreaks(s + Symbols(rest), after, sep)
  {
    hide WithBreaks, SinceBreak, Quad;
    var j := i;
    while j < 3
      invariant i <= j <= 3
      invariant forall l :: 0 <= l < i ==> three[l] == rest[l] as int
      invariant forall l :: i <= l < j ==> three[l] == 0
    {
      three[j] := 0;
      j := j + 1;
    }
    var quad := Quad(three[0], three[1], three[2]);
    var count;
    ret, count := EmitAll(ret0, count0, quad[..i + 1], after, sep, s);
    var padding := if i == 1 then "==" else "=";
    ret, count := EmitAll(ret, count, padding, after, sep, s + quad[..i + 1]);
    assert Symbols(rest) == quad[..i + 1] + padding;
    assert s + quad[..i + 1] + padding == s + (quad[..i + 1] + padding);
  }

  method Base64Encode(input: Bytes, breakAfter: nat, breakSeq: string) returns (ret: string)
    ensures ret == WithBreaks(Symbols(input), breakAfter, breakSeq)
  {
    hide WithBreaks, SinceBreak, Quad, Symbols;
    var three := new int[3](_ => 0);
    var i, pos, count := 0, 0, 0;
    ret := "";
    ghost var s := "";
    WithBreaksShort(breakAfter, breakSeq);
    assert input[pos - i..] == input && s + Symbols(input) == Symbols(input);
    while pos < |input|
      invariant 0 <= i <= pos <= |input| && i < 3
      invariant forall j :: 0 <= j < i ==> three[j] == input[pos - i + j] as int
      invariant Symbols(input) == s + Symbols(input[pos - i..])
      invariant ret == WithBreaks(s, breakAfter, breakSeq) && count == SinceBreak(s, breakAfter)
      decreases |input| - pos
    {
      three[i] := input[pos] as int;
      i := i + 1;
      pos := pos + 1;
      if i == 3 {
        var quad := Quad(three[0], three[1], three[2]);
        ret, count := EmitAll(ret, count, quad, breakAfter, breakSeq, s);
        GroupStep(s, quad, input, pos);
        s := s + quad;
        i := 0;
      }
    }
    if i > 0 {
      ret := EmitRest(ret, count, three, i, breakAfter, breakSeq, s, input[pos - i..]);
    } else {
      NoSymbols();
      assert input[pos..] == [] && s + "" == s;
    }
  }

  lemma NoSymbols()
    ensures Symbols([]) == ""
  {
  }

  lemma GroupStep(s: string, quad: string, input: Bytes, pos: nat)
    requires 3 <= pos <= |input|
    requires quad == Quad(input[pos - 3] as nat, input[pos - 2] as nat, input[pos - 1] as nat)
    ensures s + Symbols(input[pos - 3..]) == s + quad + Symbols(input[pos..])
  {
    hide Quad;
    assert input[pos - 3..][3..] == input[pos..];
    assert Symbols(input[pos - 3..]) == quad + Symbols(input[pos..]);
  }

  lemma WithBreaksShort(after: nat, sep: string)
    ensures WithBreaks("", after, sep) == "" && SinceBreak("", after) == 0
  {
  }

  // ------------------------------------------------------------ decoding

  predicate AllBase64(p: string) {
    forall j :: 0 <= j < |p| ==> IsBase64(p[j])
  }

  /** The symbols before the first character that is neither a symbol nor white space. */
  function Payload(s: string): (p: string)
    ensures AllBase64(p)
  {
    if s == "" then ""
    else if IsBase64(s[0]) then [s[0]] + Payload(s[1..])
    else if IsWhitespace(s[0]) then Payload(s[1..])
    else ""
  }

  /** The three bytes of four sextets. */
  function Triple(a: nat, b: nat, c: nat, d: nat): (x: Bytes)
    requires a < 64 && b < 64 && c < 64 && d < 64
    ensures |x| == 3
  {
    [(a * 4 + b / 16) as char, (b % 16 * 16 + c / 4) as char, (c % 4 * 64 + d) as char]
  }

  /** A trailing group of two or three symbols gives one or two bytes, a single symbol none. */
  function FromSymbols(p: string): Bytes
    requires AllBase64(p)
  {
    if |p| <= 1 then []
    else if |p| == 2 then Triple(Find(p[0]), Find(p[1]), 0, 0)[..1]
    else if |p| == 3 then Triple(Find(p[0]), Find(p[1]), Find(p[2]), 0)[..2]
    else Triple(Find(p[0]), Find(p[1]), Find(p[2]), Find(p[3])) + FromSymbols(p[4..])
  }

  lemma GroupRead(ret: Bytes, group: string, tail: string)
    requires |group| == 4 && AllBase64(group) && AllBase64(tail)
    ensures AllBase64(group + tail)
    ensures ret + FromSymbols(group + tail)
         == ret + Triple(Find(group[0]), Find(group[1]), Find(group[2]), Find(group[3])) + FromSymbols(tail)
  {
    hide Triple, Find, IsBase64;
    assert (group + tail)[4..] == tail;
  }

  lemma PayloadStep(s: string, group: string)
    requires s != ""
    ensures IsWhitespace(s[0]) ==> Payload(s) == Payload(s[1..])
    ensures IsBase64(s[0]) ==> group + Payload(s) == group + [s[0]] + Payload(s[1..])
    ensures !IsBase64(s[0]) && !IsWhitespace(s[0]) ==> Payload(s) == ""
  {
    assert group + ([s[0]] + Payload(s[1..])) == group + [s[0]] + Payload(s[1..]);
  }

  lemma TailRead(group: string)
    requires |group| < 4 && AllBase64(group)
    ensures FromSymbols(group)
         == if |group| == 2 then Triple(Find(group[0]), Find(group[1]), 0, 0)[..1]
            else if |group| == 3 then Triple(Find(group[0]), Find(group[1]), Find(group[2]), 0)[..2] else []
  {
  }

  method Base64Decode(encoded: string) returns (ret: Bytes)
    ensures ret == FromSymbols(Payload(encoded))
  {
    hide Triple, Payload, Find, IsBase64, FromSymbols;
    var four := new char[4](_ => 'A');
    var i, pos := 0, 0;
    ret := [];
    ghost var group := "";
    assert encoded[pos..] == encoded && group + Payload(encoded) == Payload(encoded);
    while pos < |encoded| && (IsBase64(encoded[pos]) || IsWhitespace(encoded[pos]))
      invariant 0 <= pos <= |encoded| && 0 <= i < 4
      invariant |group| == i && AllBase64(group) && forall j :: 0 <= j < i ==> four[j] == group[j]
      invariant AllBase64(group + Payload(encoded[pos..]))
      invariant FromSymbols(Payload(encoded)) == ret + FromSymbols(group + Payload(encoded[pos..]))
      decreases |encoded| - pos
    {
      PayloadStep(encoded[pos..], group);
      assert encoded[pos..][1..] == encoded[pos + 1..];
      if !IsWhitespace(encoded[pos]) {
        four[i] := encoded[pos];
        group := group + [encoded[pos]];
        i := i + 1;
        if i == 4 {
          GroupRead(ret, group, Payload(encoded[pos + 1..]));
          ret := ret + Triple(Find(four[0]), Find(four[1]), Find(four[2]), Find(four[3]));
          group := "";
          assert group + Payload(encoded[pos + 1..]) == Payload(encoded[pos + 1..]);
          i := 0;
        }
      }
      pos := pos + 1;
    }
    if pos < |encoded| { PayloadStep(encoded[pos..], group); }
    PayloadOfSpace("");
    assert group + Payload(encoded[pos..]) == group;
    TailRead(group);
    if i == 2 {
      ret := ret + Triple(Find(four[0]), Find(four[1]), 0, 0)[..1];
    } else if i == 3 {
      ret := ret + Triple(Find(four[0]), Find(four[1]), Find(four[2]), 0)[..2];
    }
  }

  // ------------------------------------------------------------ the laws

  lemma SextetArithmetic(a: nat, b: nat, c: nat)
    requires a < 256 && b < 256 && c < 256
    ensures a / 4 * 4 + (a % 4 * 16 + b / 16) / 16 == a
    ensures (a % 4 * 16 + b / 16) % 16 * 16 + (b % 16 * 4 + c / 64) / 4 == b
    ensures (b % 16 * 4 + c / 64) % 4 * 64 + c % 64 == c
  {
    assert (a % 4 * 16 + b / 16) / 16 == a % 4 && (a % 4 * 16 + b / 16) % 16 == b / 16;
    assert (b % 16 * 4 + c / 64) / 4 == b % 16 && (b % 16 * 4 + c / 64) % 4 == c / 64;
  }

  lemma TripleOfSextets(a: nat, b: nat, c: nat)
    requires a < 256 && b < 256 && c < 256
    ensures Triple(a / 4, a % 4 * 16 + b / 16, b % 16 * 4 + c / 64, c % 64) == [a as char, b as char, c as char]
  {
    SextetArithmetic(a, b, c);
  }

  lemma Sextets(a: nat, b: nat, c: nat)
    requires a < 256 && b < 256 && c < 256
    ensures var q := Quad(a, b, c);
            && AllBase64(q)
            && Triple(Find(q[0]), Find(q[1]), Find(q[2]), Find(q[3])) == [a as char, b as char, c as char]
            && (c == 0 ==> Find(q[3]) == 0 && (b == 0 ==> Find(q[2]) == 0))
  {
    hide *;
    QuadValues(a, b, c);
    TripleOfSextets(a, b, c);
  }

  predicate AllWhitespace(s: string) {
    forall j :: 0 <= j < |s| ==> IsWhitespace(s[j])
  }

  /** White space is skipped, and nothing after the padding is looked at. */
  lemma {:induction false} PayloadConcat(a: string, b: string)
    requires forall j :: 0 <= j < |a| ==> IsBase64(a[j]) || IsWhitespace(a[j])
    ensures Payload(a + b) == Payload(a) + Payload(b)
  {
    if a == "" {
      assert a + b == b;
    } else {
      assert (a + b)[1..] == a[1..] + b;
      PayloadConcat(a[1..], b);
    }
  }

  lemma {:induction false} PayloadOfSymbols(a: string)
    requires AllBase64(a)
    ensures Payload(a) == a
  {
    if a != "" {
      PayloadOfSymbols(a[1..]);
    }
  }

  lemma {:induction false} PayloadOfSpace(a: string)
    requires AllWhitespace(a)
    ensures Payload(a) == ""
  {
    if a != "" {
      PayloadOfSpace(a[1..]);
    }
  }

  /** Symbols, then at most two padding characters. */
  ghost predicate Padded(s: string, n: nat) {
    && n <= |s|
    && AllBase64(s[..n])
    && forall j :: n <= j < |s| ==> s[j] == '='
  }

  lemma PayloadStops(s: string)
    requires s != "" && s[0] == '='
    ensures Payload(s) == ""
  {
  }

  /** From the padding on, or in a line that is the last one, nothing is read any more. */
  lemma PayloadEnds(s: string, n: nat, rest: string)
    requires n <= |s| && AllBase64(s[..n])
    requires if n < |s| then s[n] == '=' else Payload(rest) == ""
    ensures Payload(s + rest) == s[..n]
  {
    hide Payload;
    var tail := s[n..] + rest;
    PayloadConcat(s[..n], tail);
    PayloadOfSymbols(s[..n]);
    assert s + rest == s[..n] + tail;
    if n < |s| { PayloadStops(tail); } else { assert tail == rest; }
  }

  lemma PayloadLine(line: string, sep: string, rest: string)
    requires AllBase64(line) && AllWhitespace(sep)
    ensures Payload(line + sep + rest) == line + Payload(rest)
  {
    hide Payload;
    PayloadConcat(line, sep + rest);
    PayloadConcat(sep, rest);
    PayloadOfSymbols(line);
    PayloadOfSpace(sep);
    assert line + (sep + rest) == line + sep + rest;
  }

  /** Breaks of white space do not change what the decoder sees. */
  lemma {:induction false} PayloadOfBreaks(s: string, n: nat, after: nat, sep: string, more: string)
    requires Padded(s, n) && (after == 0 || AllWhitespace(sep)) && Payload(more) == ""
    ensures Payload(WithBreaks(s, after, sep) + more) == s[..n]
    decreases |s|
  {
    hide Payload, IsBase64;
    if after == 0 || |s| <= after {
      PayloadEnds(s, n, more);
    } else {
      var line, rest := s[..after], WithBreaks(s[after..], after, sep) + more;
      assert WithBreaks(s, after, sep) + more == line + sep + rest;
      hide WithBreaks;
      if n < after {
        assert line[..n] == s[..n] && line + sep + rest == line + (sep + rest);
        PayloadEnds(line, n, sep + rest);
      } else {
        PaddedTail(s, n, after);
        PayloadOfBreaks(s[after..], n - after, after, sep, more);
        PayloadLine(line, sep, rest);
      }
    }
  }

  lemma PaddedTail(s: string, n: nat, k: nat)
    requires Padded(s, n) && k <= n
    ensures AllBase64(s[..k]) && Padded(s[k..], n - k) && s[..n] == s[..k] + s[k..][..n - k]
  {
    var front := s[..n];
    assert s[k..][..n - k] == front[k..] && s[..k] == front[..k];
    assert forall j :: 0 <= j < n ==> IsBase64(front[j]);
  }

  /** The symbols of `x` are `n` symbols and padding, and decode to `x`. */
  ghost predicate Decodes(x: Bytes, n: nat) {
    && Padded(Symbols(x), n) && |Symbols(x)| == (|x| + 2) / 3 * 4
    && FromSymbols(Symbols(x)[..n]) == x
  }

  lemma RestDecodes(x: Bytes)
    requires |x| < 3
    ensures Decodes(x, if x == [] then 0 else |x| + 1)
  {
    hide Quad, Triple, Find, IsBase64, FromSymbols;
    var b := if |x| == 2 then x[1] as nat else 0;
    if |x| > 0 {
      var q := Quad(x[0] as nat, b, 0);
      Sextets(x[0] as nat, b, 0);
      assert Symbols(x)[..|x| + 1] == q[..|x| + 1];
      TailRead(q[..|x| + 1]);
      assert [x[0], b as char, 0 as char][..|x|] == x;
    } else {
      TailRead("");
    }
  }

  lemma GroupDecodes(x: Bytes, m: nat)
    requires |x| >= 3 && Decodes(x[3..], m)
    ensures Decodes(x, m + 4)
  {
    hide Quad, Triple, Find, IsBase64, FromSymbols;
    var q, tail := Quad(x[0] as nat, x[1] as nat, x[2] as nat), Symbols(x[3..])[..m];
    Sextets(x[0] as nat, x[1] as nat, x[2] as nat);
    assert Symbols(x) == q + Symbols(x[3..]);
    hide Symbols;
    assert Symbols(x)[..m + 4] == q + tail;
    GroupRead([], q, tail);
    assert [] + FromSymbols(q + tail) == FromSymbols(q + tail);
    assert [] + [x[0], x[1], x[2]] + x[3..] == x;
  }

  /** Four symbols or padding characters for every three bytes or part of them, and decoding the
      symbols gives the bytes back. */
  lemma {:induction false} SymbolsDecode(x: Bytes) returns (n: nat)
    ensures Decodes(x, n)
  {
    if |x| < 3 {
      n := if x == [] then 0 else |x| + 1;
      RestDecodes(x);
    } else {
      n := SymbolsDecode(x[3..]);
      GroupDecodes(x, n);
      n := n + 4;
    }
  }

  lemma OneBreakMore(k: nat, after: nat, n: nat)
    requires 0 < after <= k
    ensures Mul(Div(k, after), n) == n + Mul(Div(k - after, after), n)
  {
    assert Div(k, after) == 1 + Div(k - after, after);
  }

  lemma NoBreakYet(k: nat, after: nat, n: nat)
    requires k < after
    ensures Mul(Div(k, after), n) == 0
  {
  }

  /** Where the symbols are: one break stands before every full line but the first, none at the end. */
  lemma {:induction false} BreaksAt(s: string, after: nat, sep: string, k: nat)
    requires after > 0 && k < |s|
    ensures |WithBreaks(s, after, sep)| == |s| + Mul(Div(|s| - 1, after), |sep|)
    ensures var at := k + Mul(Div(k, after), |sep|);
            at < |WithBreaks(s, after, sep)| && WithBreaks(s, after, sep)[at] == s[k]
    decreases |s|
  {
    hide Mul, Div;
    if |s| <= after {
      NoBreakYet(|s| - 1, after, |sep|);
      NoBreakYet(k, after, |sep|);
    } else {
      var line, rest := s[..after] + sep, WithBreaks(s[after..], after, sep);
      assert WithBreaks(s, after, sep) == line + rest;
      hide WithBreaks;
      OneBreakMore(|s| - 1, after, |sep|);
      if k < after {
        NoBreakYet(k, after, |sep|);
        BreaksAt(s[after..], after, sep, 0);
        assert line[k] == s[k];
      } else {
        OneBreakMore(k, after, |sep|);
        BreaksAt(s[after..], after, sep, k - after);
      }
    }
  }

  /** Decoding undoes encoding, whatever the line length, and whatever the decoder ignores follows. */
  lemma EncodeDecode(x: Bytes, breakAfter: nat, breakSeq: string, more: string)
    requires breakAfter == 0 || AllWhitespace(breakSeq)
    requires AllWhitespace(more)
    ensures FromSymbols(Payload(WithBreaks(Symbols(x), breakAfter, breakSeq) + more)) == x
  {
    var n := SymbolsDecode(x);
    PayloadOfSpace(more);
    PayloadOfBreaks(Symbols(x), n, breakAfter, breakSeq, more);
  }

  // ------------------------------------------------------------ the meaning of the symbols

  /** Table 1 of RFC 4648 */
  const ALPHABET := "ABCDEFGHIJKLMNOPQRSTUVWXYZ" + "abcdefghijklmnopqrstuvwxyz" + "0123456789" + "+/"

  lemma AlphabetIs(i: nat)
    requires i < 64
    ensures ALPHABET[i] == Symbol(i)
  {
    UpperIs();
    LowerIs();
    DigitsAre();
  }

  lemma UpperIs()
    ensures forall i :: 0 <= i < 26 ==> "ABCDEFGHIJKLMNOPQRSTUVWXYZ"[i] == 'A' + i as char
  {
  }

  lemma LowerIs()
    ensures forall i :: 0 <= i < 26 ==> "abcdefghijklmnopqrstuvwxyz"[i] == 'a' + i as char
  {
  }

  lemma DigitsAre()
    ensures forall i :: 0 <= i < 10 ==> "0123456789"[i] == '0' + i as char
  {
  }

  /** Exactly the characters of the alphabet are symbols, each with its index as the value. */
  lemma FindInAlphabet(c: char)
    ensures IsBase64(c) <==> c in ALPHABET
    ensures IsBase64(c) ==> ALPHABET[Find(c)] == c
  {
    hide Symbol;
    if IsBase64(c) {
      AlphabetIs(Find(c));
    } else if c in ALPHABET {
      var i :| 0 <= i < 64 && ALPHABET[i] == c;
      AlphabetIs(i);
      FindSymbol(i);
    }
  }

  /** The number that symbols stand for, most significant first. */
  function SymbolNumber(s: string): nat
    requires AllBase64(s)
  {
    if s == "" then 0 else SymbolNumber(s[..|s| - 1]) * 64 + Find(s[|s| - 1])
  }

  lemma SymbolNumberOf(s: string)
    requires AllBase64(s) && 2 <= |s| <= 4
    ensures |s| == 2 ==> SymbolNumber(s) == Find(s[0]) * 64 + Find(s[1])
    ensures |s| == 3 ==> SymbolNumber(s) == (Find(s[0]) * 64 + Find(s[1])) * 64 + Find(s[2])
    ensures |s| == 4 ==> SymbolNumber(s) == ((Find(s[0]) * 64 + Find(s[1])) * 64 + Find(s[2])) * 64 + Find(s[3])
  {
    hide Find, IsBase64;
    assert s[..1] == [s[0]] && s[..0] == [] && s[..2][..1] == s[..1];
    if |s| > 2 { assert s[..3][..2] == s[..2]; }
    assert SymbolNumber(s[..1]) == Find(s[0]) by { assert s[..1][..0] == ""; }
    assert SymbolNumber(s[..2]) == Find(s[0]) * 64 + Find(s[1]);
    if |s| == 2 { assert s[..2] == s; }
    if |s| >= 3 { assert SymbolNumber(s[..3]) == SymbolNumber(s[..2]) * 64 + Find(s[2]); }
    if |s| == 3 { assert s[..3] == s; }
  }

  /** Three bytes are written as the four symbols of the same 24-bit number; two bytes as three symbols
      of it shifted by 2 bits, and a padding character; one byte as two symbols of it shifted by 4 bits,
      and two padding characters. */
  lemma GroupMeans(x: Bytes)
    requires 1 <= |x| <= 3
    ensures var a, s := x[0] as nat, Symbols(x);
            && |s| == 4 && AllBase64(s[..|x| + 1])
            && (|x| == 1 ==> SymbolNumber(s[..2]) == a * 16 && s[2..] == "==")
            && (|x| == 2 ==> SymbolNumber(s[..3]) == (a * 256 + x[1] as nat) * 4 && s[3..] == "=")
            && (|x| == 3 ==> SymbolNumber(s[..4]) == (a * 256 + x[1] as nat) * 256 + x[2] as nat)
  {
    var a, b, c := x[0] as nat, if |x| > 1 then x[1] as nat else 0, if |x| > 2 then x[2] as nat else 0;
    var s, q := Symbols(x), Quad(a, b, c);
    QuadValues(a, b, c);
    hide Quad, Find, IsBase64;
    SymbolsOfGroup(x, q);
    SymbolNumberOf(s[..|x| + 1]);
    hide SymbolNumber;
    assert a == a / 4 * 4 + a % 4 && b == b / 16 * 16 + b % 16 && c == c / 64 * 64 + c % 64;
  }

  lemma QuadValues(a: nat, b: nat, c: nat)
    requires a < 256 && b < 256 && c < 256
    ensures var q := Quad(a, b, c);
            && AllBase64(q) && Find(q[0]) == a / 4 && Find(q[1]) == a % 4 * 16 + b / 16
            && Find(q[2]) == b % 16 * 4 + c / 64 && Find(q[3]) == c % 64
  {
    hide Symbol, Find, IsBase64;
    FindSymbol(a / 4);
    FindSymbol(a % 4 * 16 + b / 16);
    FindSymbol(b % 16 * 4 + c / 64);
    FindSymbol(c % 64);
  }

  lemma SymbolsOfGroup(x: Bytes, q: string)
    requires 1 <= |x| <= 3
    requires q == Quad(x[0] as nat, if |x| > 1 then x[1] as nat else 0, if |x| > 2 then x[2] as nat else 0)
    ensures Symbols(x) == q[..|x| + 1] + (if |x| == 1 then "==" else if |x| == 2 then "=" else "")
  {
    hide Quad;
    if |x| == 3 { assert x[3..] == [] && Symbols(x[3..]) == ""; }
  }

  /** Whole groups are written one after the other. */
  lemma {:induction false} SymbolsConcat(x: Bytes, y: Bytes)
    requires |x| % 3 == 0
    ensures Symbols(x + y) == Symbols(x) + Symbols(y)
    decreases |x|
  {
    hide Quad;
    if x == [] {
      assert x + y == y;
    } else {
      assert (x + y)[3..] == x[3..] + y;
      SymbolsConcat(x[3..], y);
      var q := Quad(x[0] as nat, x[1] as nat, x[2] as nat);
      assert q + (Symbols(x[3..]) + Symbols(y)) == q + Symbols(x[3..]) + Symbols(y);
    }
  }

  /** The decoder skips carriage return, line feed, tab and space, and stops at every other character
      that is not in the alphabet. */
  lemma PayloadMeans(s: string, c: char, t: string)
    requires forall j :: 0 <= j < |s| ==> s[j] in ALPHABET || s[j] in "\r\n\t "
    ensures Payload(s + [c] + t) == Payload(s) + (if c in ALPHABET then [c] + Payload(t)
                                                  else if c in "\r\n\t " then Payload(t) else "")
  {
    hide Payload, IsBase64, Find;
    forall j | 0 <= j < |s| ensures IsBase64(s[j]) || IsWhitespace(s[j]) { FindInAlphabet(s[j]); }
    FindInAlphabet(c);
    assert s + [c] + t == s + ([c] + t);
    PayloadConcat(s, [c] + t);
    PayloadFirst(c, t);
  }

  lemma PayloadFirst(c: char, t: string)
    ensures Payload([c] + t)
         == if IsBase64(c) then [c] + Payload(t) else if IsWhitespace(c) then Payload(t) else ""
  {
    assert ([c] + t)[1..] == t;
  }

  // ------------------------------------------------------------ the meaning of what is decoded

  /** Four symbols are decoded to the three bytes of the same number; of an incomplete group the bits that
      fill no byte are dropped, and a single symbol is dropped as a whole. */
  lemma DecodedMeans(p: string)
    requires AllBase64(p) && |p| <= 4
    ensures var n, x := SymbolNumber(p), FromSymbols(p);
            && (|p| <= 1 ==> x == [])
            && (|p| == 2 ==> |x| == 1 && x[0] as nat == n / 16)
            && (|p| == 3 ==> |x| == 2 && x[0] as nat * 256 + x[1] as nat == n / 4)
            && (|p| == 4 ==> |x| == 3 && (x[0] as nat * 256 + x[1] as nat) * 256 + x[2] as nat == n)
  {
    if |p| >= 2 {
      SymbolNumberOf(p);
      GroupValue(p);
      var c, d := if |p| > 2 then Find(p[2]) else 0, if |p| > 3 then Find(p[3]) else 0;
      hide *;
      TripleNumber(Find(p[0]), Find(p[1]), c, d);
    }
  }

  lemma GroupValue(p: string)
    requires AllBase64(p) && 2 <= |p| <= 4
    ensures var c, d := if |p| > 2 then Find(p[2]) else 0, if |p| > 3 then Find(p[3]) else 0;
            FromSymbols(p) == Triple(Find(p[0]), Find(p[1]), c, d)[..|p| - 1]
  {
    hide Find, IsBase64, Triple;
    if |p| == 4 {
      assert p[4..] == "" && FromSymbols("") == [];
      var x := Triple(Find(p[0]), Find(p[1]), Find(p[2]), Find(p[3]));
      assert x[..3] == x && x + [] == x;
    }
  }

  lemma TripleNumber(a: nat, b: nat, c: nat, d: nat)
    requires a < 64 && b < 64 && c < 64 && d < 64
    ensures var x := Triple(a, b, c, d);
            && x[0] as nat == (a * 64 + b) / 16
            && x[0] as nat * 256 + x[1] as nat == ((a * 64 + b) * 64 + c) / 4
            && (x[0] as nat * 256 + x[1] as nat) * 256 + x[2] as nat == ((a * 64 + b) * 64 + c) * 64 + d
  {
  }

  /** Longer texts are decoded four symbols at a time. */
  lemma {:induction false} DecodedConcat(p: string, q: string)
    requires AllBase64(p) && AllBase64(q) && |p| % 4 == 0
    ensures AllBase64(p + q) && FromSymbols(p + q) == FromSymbols(p) + FromSymbols(q)
  {
    hide Find, IsBase64, Triple;
    if p == "" {
      assert p + q == q;
    } else {
      assert (p + q)[4..] == p[4..] + q;
      DecodedConcat(p[4..], q);
    }
  }
}
