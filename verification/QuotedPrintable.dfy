/**
  `quotedPrintableEncode`, `quotedPrintableDecode` and the regular-expression rewriter that the
  decoder is built on (section 6.7 of RFC 2045, section 4.2 of RFC 2047).
 */
module QuotedPrintable {
  import opened Base64
  import opened RegexReplace

  // ------------------------------------------------------------ hexadecimal escapes

  /** A digit as `hexDump` writes it, through `toUppercase`. */
  function UpperHex(n: nat): char
    requires n < 16
  {
    if n < 10 then '0' + n as char else 'A' + (n - 10) as char
  }

  predicate IsUpperHex(c: char) {
    '0' <= c <= '9' || 'A' <= c <= 'F'
  }

  function HexValue(c: char): (n: nat)
    requires IsUpperHex(c)
    ensures n < 16
  {
    if '0' <= c <= '9' then (c - '0') as nat else 10 + (c - 'A') as nat
  }

  function Escape(c: Byte): string {
    ['=', UpperHex(c as nat / 16), UpperHex(c as nat % 16)]
  }

  /** `stoul(..., 16)` of two digits, as a character */
  function Unescape(a: char, b: char): char
    requires IsUpperHex(a) && IsUpperHex(b)
  {
    (HexValue(a) * 16 + HexValue(b)) as char
  }

  lemma EscapeRoundTrip(c: Byte)
    ensures var e := Escape(c); IsUpperHex(e[1]) && IsUpperHex(e[2]) && Unescape(e[1], e[2]) == c
  {
    assert c as nat == c as nat / 16 * 16 + c as nat % 16;
  }

  // ------------------------------------------------------------ encoding

  predicate IsLiteral(c: Byte, q: bool) {
    ' ' <= c <= '~' && c != '=' && !(q && (c == ' ' || c == '?' || c == '_'))
  }

  /** What the encoder writes for one character, `count` characters into the line, and the count
      after it. */
  function Piece(c: Byte, ending: string, replaceCrlf: bool, q: bool, count: nat): (string, nat) {
    if IsLiteral(c, q) then
      if !q && count >= 75 then ("=" + ending + [c], 1) else ([c], count + 1)
    else if !replaceCrlf && (c == '\n' || c == '\r') then ([c], 0)
    else if q && c == ' ' then ("_", count + 1)
    else if !q && count >= 73 then ("=" + ending + Escape(c), 3)
    else (Escape(c), count + 3)
  }

  function EncodeFrom(x: Bytes, ending: string, replaceCrlf: bool, q: bool, count: nat): string
  {
    if x == [] then ""
    else
      var (piece, count') := Piece(x[0], ending, replaceCrlf, q, count);
      piece + EncodeFrom(x[1..], ending, replaceCrlf, q, count')
  }

  function Encode(x: Bytes, ending: string, replaceCrlf: bool, q: bool): string {
    EncodeFrom(x, ending, replaceCrlf, q, 0)
  }

  method QuotedPrintableEncode(input: Bytes, lineEnding: string, replaceCrlf: bool, qEncoding: bool)
    returns (ret: string)
    ensures ret == Encode(input, lineEnding, replaceCrlf, qEncoding)
  {
    hide Escape;
    ret := "";
    var lineCount: nat, i: nat := 0, 0;
    ghost var whole := Encode(input, lineEnding, replaceCrlf, qEncoding);
    assert input[i..] == input && ret + whole == whole;
    while i < |input|
      invariant i <= |input| && lineCount >= 0
      invariant whole == ret + EncodeFrom(input[i..], lineEnding, replaceCrlf, qEncoding, lineCount)
    {
      hide EncodeFrom;
      var c := input[i];
      ghost var before := lineCount;
      var piece := "";
      if IsLiteral(c, qEncoding) {
        if !qEncoding && lineCount >= 75 {
          piece := "=" + lineEnding;
          lineCount := 0;
        }
        piece := piece + [c];
        lineCount := lineCount + 1;
      } else if !replaceCrlf && (c == '\n' || c == '\r') {
        piece := [c];
        lineCount := 0;
      } else if qEncoding && c == ' ' {
        piece := "_";
        lineCount := lineCount + 1;
      } else {
        if !qEncoding && lineCount >= 73 {
          piece := "=" + lineEnding;
          lineCount := 0;
        }
        piece := piece + Escape(c);
        lineCount := lineCount + 3;
      }
      assert "" + [c] == [c] && "" + Escape(c) == Escape(c);
      assert (piece, lineCount) == Piece(c, lineEnding, replaceCrlf, qEncoding, before);
      EncodeStep(input, i, lineEnding, replaceCrlf, qEncoding, before, ret);
      ret := ret + piece;
      i := i + 1;
    }
    assert ret + "" == ret;
  }

  lemma EncodeStep(x: Bytes, i: nat, ending: string, replaceCrlf: bool, q: bool, count: nat, ret: string)
    requires i < |x|
    ensures ret + EncodeFrom(x[i..], ending, replaceCrlf, q, count)
         == ret + Piece(x[i], ending, replaceCrlf, q, count).0
                + EncodeFrom(x[i + 1..], ending, replaceCrlf, q, Piece(x[i], ending, replaceCrlf, q, count).1)
  {
    hide Piece;
    assert x[i..][1..] == x[i + 1..];
    var (piece, count') := Piece(x[i], ending, replaceCrlf, q, count);
    var tail := EncodeFrom(x[i + 1..], ending, replaceCrlf, q, count');
    assert ret + (piece + tail) == ret + piece + tail;
  }

  // ------------------------------------------------------------ decoding

  predicate IsSoftEnding(ending: string) {
    ending == "\r\n" || ending == "\n"
  }

  /** The left-most match of `=([0-9A-F]{2}|\r?\n)` at the start of `s`: its length, or 0. */
  function MatchAt(s: string): (n: nat)
    ensures n <= |s|
  {
    if |s| >= 3 && s[0] == '=' && IsUpperHex(s[1]) && IsUpperHex(s[2]) then 3
    else if |s| >= 3 && s[0] == '=' && s[1] == '\r' && s[2] == '\n' then 3
    else if |s| >= 2 && s[0] == '=' && s[1] == '\n' then 2
    else 0
  }

  /** The decoder's replacement for a match, given its capture group. */
  function Replacement(group: string): string
    requires IsSoftEnding(group) || (|group| == 2 && IsUpperHex(group[0]) && IsUpperHex(group[1]))
  {
    if IsSoftEnding(group) then "" else [Unescape(group[0], group[1])]
  }

  /** All matches replaced, from left to right. */
  function Rewrite(s: string): string
    decreases |s|
  {
    if s == "" then ""
    else
      var n := MatchAt(s);
      if n > 0 then Replacement(s[1..n]) + Rewrite(s[n..]) else [s[0]] + Rewrite(s[1..])
  }

  /** `stringReplace(input, {{'_', ' '}})` */
  function Spaces(s: string): (r: string)
    ensures |r| == |s|
  {
    seq(|s|, j requires 0 <= j < |s| => if s[j] == '_' then ' ' else s[j])
  }

  function Decode(s: string, q: bool): string {
    Rewrite(if q then Spaces(s) else s)
  }

  /** The matches in `s`, with `prefix` the text since the last one; and the text after the last match. */
  function Scan(s: string, prefix: string): (seq<Match>, string)
    decreases |s|
  {
    if s == "" then ([], prefix)
    else
      var n := MatchAt(s);
      if n > 0 then
        var (ms, suffix) := Scan(s[n..], "");
        ([Match(prefix, [s[..n], s[1..n]])] + ms, suffix)
      else Scan(s[1..], prefix + [s[0]])
  }

  predicate IsCapture(groups: seq<string>) {
    |groups| == 2
    && (IsSoftEnding(groups[1]) || (|groups[1]| == 2 && IsUpperHex(groups[1][0]) && IsUpperHex(groups[1][1])))
  }

  const ReplaceCode: seq<string> --> string :=
    (groups: seq<string>) requires IsCapture(groups) => Replacement(groups[1])

  /** The rewriter applied to the matches is the left-to-right rewriting. */
  lemma {:induction false} ScanRewrites(s: string, prefix: string)
    ensures var (ms, suffix) := Scan(s, prefix);
            Callable(ms, 1, ReplaceCode) && Replaced(ms, suffix, 1, ReplaceCode) == prefix + Rewrite(s)
    decreases |s|
  {
    var n := MatchAt(s);
    if s == "" {
    } else if n > 0 {
      ScanRewrites(s[n..], "");
      var (ms, suffix) := Scan(s[n..], "");
      var m := Match(prefix, [s[..n], s[1..n]]);
      assert IsCapture(m.groups);
      assert ([m] + ms)[1..] == ms;
      assert "" + Rewrite(s[n..]) == Rewrite(s[n..]);
    } else {
      ScanRewrites(s[1..], prefix + [s[0]]);
      assert prefix + [s[0]] + Rewrite(s[1..]) == prefix + ([s[0]] + Rewrite(s[1..]));
    }
  }

  method QuotedPrintableDecode(input0: string, qEncoding: bool) returns (input: string)
    ensures input == Decode(input0, qEncoding)
  {
    input := input0;
    if qEncoding {
      input := Spaces(input);
    }
    var (ms, suffix) := Scan(input, "");
    ScanRewrites(input, "");
    input := RegexReplaceCallback(Tokens(ms, suffix), 1, ReplaceCode, ms, suffix);
  }

  // ------------------------------------------------------------ round trip

  lemma RewriteLiteral(c: char, s: string)
    requires c != '='
    ensures Rewrite([c] + s) == [c] + Rewrite(s)
  {
    assert ([c] + s)[1..] == s;
  }

  lemma RewriteSoftBreak(ending: string, s: string)
    requires IsSoftEnding(ending)
    ensures Rewrite("=" + ending + s) == Rewrite(s)
  {
    var t := "=" + ending + s;
    var n := |ending| + 1;
    assert t[n..] == s && t[1..n] == ending;
    assert MatchAt(t) == n;
    assert "" + Rewrite(s) == Rewrite(s);
  }

  lemma RewriteEscape(c: Byte, s: string)
    ensures Rewrite(Escape(c) + s) == [c] + Rewrite(s)
  {
    var t := Escape(c) + s;
    EscapeRoundTrip(c);
    assert t[3..] == s && t[1..3] == Escape(c)[1..];
    assert MatchAt(t) == 3;
  }

  /** One piece is decoded to its character, and leaves the rest of the text to be decoded. */
  lemma RewritePiece(c: Byte, ending: string, replaceCrlf: bool, count: nat, s: string)
    requires IsSoftEnding(ending)
    ensures Rewrite(Piece(c, ending, replaceCrlf, false, count).0 + s) == [c] + Rewrite(s)
  {
    hide Rewrite, Escape;
    var soft := "=" + ending;
    if IsLiteral(c, false) {
      RewriteLiteral(c, s);
      RewriteSoftBreak(ending, [c] + s);
      assert soft + [c] + s == soft + ([c] + s);
    } else if !replaceCrlf && (c == '\n' || c == '\r') {
      RewriteLiteral(c, s);
    } else {
      RewriteEscape(c, s);
      RewriteSoftBreak(ending, Escape(c) + s);
      assert soft + Escape(c) + s == soft + (Escape(c) + s);
    }
  }

  lemma EncodeFirst(x: Bytes, ending: string, replaceCrlf: bool, q: bool, count: nat, more: string)
    requires x != []
    ensures var (piece, count') := Piece(x[0], ending, replaceCrlf, q, count);
            EncodeFrom(x, ending, replaceCrlf, q, count) + more
            == piece + (EncodeFrom(x[1..], ending, replaceCrlf, q, count') + more)
  {
    hide Piece;
    var (piece, count') := Piece(x[0], ending, replaceCrlf, q, count);
    var tail := EncodeFrom(x[1..], ending, replaceCrlf, q, count');
    assert piece + tail + more == piece + (tail + more);
  }

  /** Whatever follows the encoded text is decoded on its own. */
  lemma {:induction false} DecodePlainMore(x: Bytes, ending: string, replaceCrlf: bool, count: nat, more: string)
    requires IsSoftEnding(ending)
    ensures Rewrite(EncodeFrom(x, ending, replaceCrlf, false, count) + more) == x + Rewrite(more)
  {
    hide Rewrite, Piece;
    if x == [] {
      assert EncodeFrom(x, ending, replaceCrlf, false, count) + more == more;
    } else {
      hide EncodeFrom;
      var (piece, count') := Piece(x[0], ending, replaceCrlf, false, count);
      EncodeFirst(x, ending, replaceCrlf, false, count, more);
      RewritePiece(x[0], ending, replaceCrlf, count, EncodeFrom(x[1..], ending, replaceCrlf, false, count') + more);
      DecodePlainMore(x[1..], ending, replaceCrlf, count', more);
      assert [x[0]] + (x[1..] + Rewrite(more)) == x + Rewrite(more);
    }
  }

  lemma SpacesConcat(a: string, b: string)
    ensures Spaces(a + b) == Spaces(a) + Spaces(b)
  {
  }

  lemma RewriteQPiece(c: Byte, ending: string, replaceCrlf: bool, count: nat, s: string)
    ensures Rewrite(Spaces(Piece(c, ending, replaceCrlf, true, count).0) + s) == [c] + Rewrite(s)
  {
    hide Rewrite, Escape;
    if IsLiteral(c, true) || (!replaceCrlf && (c == '\n' || c == '\r')) {
      assert Spaces([c]) == [c];
      RewriteLiteral(c, s);
    } else if c == ' ' {
      assert Spaces("_") == [c];
      RewriteLiteral(c, s);
    } else {
      SpacesEscape(c);
      RewriteEscape(c, s);
    }
  }

  lemma SpacesEscape(c: Byte)
    ensures Spaces(Escape(c)) == Escape(c)
  {
    EscapeRoundTrip(c);
  }

  lemma {:induction false} DecodeQ(x: Bytes, ending: string, replaceCrlf: bool, count: nat)
    ensures Rewrite(Spaces(EncodeFrom(x, ending, replaceCrlf, true, count))) == x
  {
    if x == [] {
      assert Spaces("") == "";
    } else {
      var (piece, count') := Piece(x[0], ending, replaceCrlf, true, count);
      var tail := EncodeFrom(x[1..], ending, replaceCrlf, true, count');
      SpacesConcat(piece, tail);
      RewriteQPiece(x[0], ending, replaceCrlf, count, Spaces(tail));
      DecodeQ(x[1..], ending, replaceCrlf, count');
    }
  }

  lemma RewriteNothing()
    ensures Rewrite("") == ""
  {
  }

  /** Decoding undoes encoding: in Q mode always, otherwise for the two line endings that the
      decoder knows. */
  lemma EncodeDecode(x: Bytes, ending: string, replaceCrlf: bool, q: bool)
    requires q || IsSoftEnding(ending)
    ensures Decode(Encode(x, ending, replaceCrlf, q), q) == x
  {
    hide EncodeFrom, Rewrite;
    if q {
      DecodeQ(x, ending, replaceCrlf, 0);
    } else {
      DecodePlainMore(x, ending, replaceCrlf, 0, "");
      RewriteNothing();
      assert Encode(x, ending, replaceCrlf, q) + "" == Encode(x, ending, replaceCrlf, q) && x + "" == x;
    }
  }

  // ------------------------------------------------------------ the shape of the output

  predicate IsLineBreak(c: char) {
    c == '\r' || c == '\n'
  }

  /** With `run` characters before `s` in its first line, no line is longer than `n`. */
  predicate LinesFit(s: string, run: nat, n: nat)
  {
    run <= n &&
    (s != "" ==> LinesFit(s[1..], if IsLineBreak(s[0]) then 0 else run + 1, n))
  }

  lemma {:induction false} LinesFitConcat(a: string, b: string, run: nat, n: nat)
    requires forall j :: 0 <= j < |a| ==> !IsLineBreak(a[j])
    requires LinesFit(b, run + |a|, n)
    ensures LinesFit(a + b, run, n)
    decreases |a|
  {
    if a == "" {
      assert a + b == b;
    } else {
      assert (a + b)[1..] == a[1..] + b;
      LinesFitConcat(a[1..], b, run + 1, n);
      LinesFitShorter(b, run + |a|, n);
    }
  }

  lemma LinesFitShorter(b: string, run: nat, n: nat)
    requires LinesFit(b, run, n)
    ensures run <= n
  {
  }

  lemma LinesFitBreak(ending: string, s: string, run: nat, n: nat)
    requires IsSoftEnding(ending) && LinesFit(s, 0, n) && run <= n
    ensures LinesFit(ending + s, run, n)
  {
    assert (ending + s)[1..] == if |ending| == 2 then "\n" + s else s;
    if |ending| == 2 { assert ("\n" + s)[1..] == s; }
  }

  lemma EscapeShape(c: Byte)
    ensures |Escape(c)| == 3 && Escape(c)[0] == '='
    ensures forall j :: 0 <= j < 3 ==> !IsLineBreak(Escape(c)[j]) && (j > 0 ==> IsUpperHex(Escape(c)[j]))
  {
    EscapeRoundTrip(c);
  }

  lemma SoftFits(ending: string, text: string, tail: string, count: nat)
    requires IsSoftEnding(ending) && count <= 75 && |text| <= 76
    requires forall j :: 0 <= j < |text| ==> !IsLineBreak(text[j])
    requires LinesFit(tail, |text|, 76)
    ensures LinesFit("=" + ending + text + tail, count, 76)
  {
    hide LinesFit;
    LinesFitConcat(text, tail, 0, 76);
    LinesFitBreak(ending, text + tail, count + 1, 76);
    LinesFitConcat("=", ending + (text + tail), count, 76);
    assert "=" + ending + text + tail == "=" + (ending + (text + tail));
  }

  lemma PieceFits(c: Byte, ending: string, replaceCrlf: bool, count: nat, tail: string)
    requires IsSoftEnding(ending) && count <= 75
    requires LinesFit(tail, Piece(c, ending, replaceCrlf, false, count).1, 76)
    ensures LinesFit(Piece(c, ending, replaceCrlf, false, count).0 + tail, count, 76)
  {
    hide Escape, LinesFit;
    EscapeShape(c);
    if !IsLiteral(c, false) && !replaceCrlf && (c == '\n' || c == '\r') {
      LinesFitHard(c, tail, count, 76);
    } else {
      var text := if IsLiteral(c, false) then [c] else Escape(c);
      if count < (if IsLiteral(c, false) then 75 else 73) {
        LinesFitConcat(text, tail, count, 76);
      } else {
        SoftFits(ending, text, tail, count);
      }
    }
  }

  /** Outside Q mode no line is longer than 76 characters, including the '=' of a soft break. */
  lemma {:induction false} LinesOf76(x: Bytes, ending: string, replaceCrlf: bool, count: nat)
    requires IsSoftEnding(ending) && count <= 75
    ensures LinesFit(EncodeFrom(x, ending, replaceCrlf, false, count), count, 76)
    decreases |x|
  {
    hide Piece;
    if x != [] {
      var (piece, count') := Piece(x[0], ending, replaceCrlf, false, count);
      CountFits(x[0], ending, replaceCrlf, count);
      LinesOf76(x[1..], ending, replaceCrlf, count');
      PieceFits(x[0], ending, replaceCrlf, count, EncodeFrom(x[1..], ending, replaceCrlf, false, count'));
      hide LinesFit;
    }
  }

  lemma CountFits(c: Byte, ending: string, replaceCrlf: bool, count: nat)
    requires count <= 75
    ensures Piece(c, ending, replaceCrlf, false, count).1 <= 75
  {
  }

  lemma LinesFitHard(c: char, s: string, run: nat, n: nat)
    requires IsLineBreak(c) && LinesFit(s, 0, n) && run <= n
    ensures LinesFit([c] + s, run, n)
  {
    assert ([c] + s)[1..] == s;
  }

  /** The pair "=_" does not occur. */
  predicate NoMark(s: string) {
    forall j :: 0 <= j && j + 1 < |s| ==> !(s[j] == '=' && s[j + 1] == '_')
  }

  /** No text of the encoder contains the pair that starts every multipart boundary. */
  lemma {:induction false} EncodedHasNoMark(x: Bytes, ending: string, replaceCrlf: bool, q: bool, count: nat)
    requires q || IsSoftEnding(ending)
    ensures NoMark(EncodeFrom(x, ending, replaceCrlf, q, count))
  {
    if x != [] {
      var (piece, count') := Piece(x[0], ending, replaceCrlf, q, count);
      EncodedHasNoMark(x[1..], ending, replaceCrlf, q, count');
      EscapeShape(x[0]);
      hide EncodeFrom;
      assert NoMark(piece) && piece != "" && piece[|piece| - 1] != '=';
    }
  }

  // ------------------------------------------------------------ what is written, character by character

  const HEX := "0123456789ABCDEF"

  lemma HexDigits(n: nat)
    requires n < 16
    ensures UpperHex(n) == HEX[n]
  {
  }

  /** The text for one character, apart from soft breaks: itself if it is printable ASCII and has no
      meaning of its own, a raw line break if these are kept, an underscore for a space in Q mode, and
      otherwise '=' and two hexadecimal digits. */
  function Text(c: Byte, replaceCrlf: bool, q: bool): (t: string)
    ensures |t| == 1 || |t| == 3
  {
    var n := c as nat;
    if 33 <= n <= 126 && n != 61 && !(q && (n == 63 || n == 95)) then [c]
    else if n == 32 then (if q then "_" else " ")
    else if (n == 10 || n == 13) && !replaceCrlf then [c]
    else ['=', HEX[n / 16], HEX[n % 16]]
  }

  function Texts(x: Bytes, replaceCrlf: bool, q: bool): (ts: seq<string>)
    ensures |ts| == |x|
    ensures forall j :: 0 <= j < |x| ==> ts[j] == Text(x[j], replaceCrlf, q)
  {
    seq(|x|, j requires 0 <= j < |x| => Text(x[j], replaceCrlf, q))
  }

  /** Greedy filling of lines: a soft break only in front of a token that would make the line longer
      than 75 characters. */
  function Wrap(tokens: seq<string>, ending: string, count: nat): string
  {
    if tokens == [] then ""
    else
      var t := tokens[0];
      if t == "\r" || t == "\n" then t + Wrap(tokens[1..], ending, 0)
      else if count + |t| <= 75 then t + Wrap(tokens[1..], ending, count + |t|)
      else ("=" + ending + t) + Wrap(tokens[1..], ending, |t|)
  }

  lemma PieceIsToken(c: Byte, ending: string, replaceCrlf: bool, count: nat)
    ensures var t := Text(c, replaceCrlf, false);
            Piece(c, ending, replaceCrlf, false, count)
            == if t == "\r" || t == "\n" then (t, 0)
            else if count + |t| <= 75 then (t, count + |t|) else ("=" + ending + t, |t|)
  {
    HexDigits(c as nat / 16);
    HexDigits(c as nat % 16);
    hide UpperHex, HEX;
    assert [c] == "\r" <==> c == '\r';
    assert [c] == "\n" <==> c == '\n';
    assert c == ' ' ==> [c] == " ";
  }

  /** Outside Q mode the encoder fills lines greedily with the tokens of the characters. */
  lemma {:induction false} EncodeWraps(x: Bytes, ending: string, replaceCrlf: bool, count: nat)
    ensures EncodeFrom(x, ending, replaceCrlf, false, count) == Wrap(Texts(x, replaceCrlf, false), ending, count)
  {
    hide Piece, Text;
    if x != [] {
      PieceIsToken(x[0], ending, replaceCrlf, count);
      var t := Text(x[0], replaceCrlf, false);
      assert Texts(x, replaceCrlf, false)[1..] == Texts(x[1..], replaceCrlf, false);
      EncodeWraps(x[1..], ending, replaceCrlf, Piece(x[0], ending, replaceCrlf, false, count).1);
    }
  }

  function Concat(tokens: seq<string>): string
  {
    if tokens == [] then "" else tokens[0] + Concat(tokens[1..])
  }

  lemma PieceIsQToken(c: Byte, ending: string, replaceCrlf: bool, count: nat)
    ensures Piece(c, ending, replaceCrlf, true, count).0 == Text(c, replaceCrlf, true)
  {
    HexDigits(c as nat / 16);
    HexDigits(c as nat % 16);
    hide UpperHex, HEX;
  }

  /** In Q mode the encoder writes the tokens one after the other. */
  lemma {:induction false} EncodeQ(x: Bytes, ending: string, replaceCrlf: bool, count: nat)
    ensures EncodeFrom(x, ending, replaceCrlf, true, count) == Concat(Texts(x, replaceCrlf, true))
  {
    hide Piece, Text;
    if x != [] {
      PieceIsQToken(x[0], ending, replaceCrlf, count);
      assert Texts(x, replaceCrlf, true)[1..] == Texts(x[1..], replaceCrlf, true);
      EncodeQ(x[1..], ending, replaceCrlf, Piece(x[0], ending, replaceCrlf, true, count).1);
    }
  }

  // ------------------------------------------------------------ what does not occur in the output

  /** Printable ASCII, a line break where these are allowed, in Q mode no space and no question mark. */
  predicate Allowed(c: char, breaks: bool, q: bool) {
    (' ' <= c <= '~' && !(q && (c == ' ' || c == '?'))) || (breaks && (c == '\r' || c == '\n'))
  }

  ghost predicate AllAllowed(s: string, breaks: bool, q: bool) {
    forall j :: 0 <= j < |s| ==> Allowed(s[j], breaks, q)
  }

  lemma TokenAllowed(c: Byte, replaceCrlf: bool, q: bool)
    ensures AllAllowed(Text(c, replaceCrlf, q), !replaceCrlf, q)
  {
    HexAllowed(c as nat / 16);
    HexAllowed(c as nat % 16);
    hide HEX;
  }

  lemma HexAllowed(n: nat)
    requires n < 16
    ensures '0' <= HEX[n] <= 'F' && HEX[n] != '?' && HEX[n] != '='
  {
    HexDigits(n);
  }

  /** The text is 7-bit and printable apart from line breaks; in Q mode no space and no question mark
      occurs, and with all line breaks escaped no line break either. */
  lemma {:induction false} OutputAllowed(x: Bytes, ending: string, replaceCrlf: bool, q: bool, count: nat)
    requires q || IsSoftEnding(ending)
    ensures AllAllowed(EncodeFrom(x, ending, replaceCrlf, q, count), !replaceCrlf || !q, q)
  {
    hide Text, Piece;
    if x != [] {
      TokenAllowed(x[0], replaceCrlf, q);
      PieceIsToken(x[0], ending, replaceCrlf, count);
      PieceIsQToken(x[0], ending, replaceCrlf, count);
      OutputAllowed(x[1..], ending, replaceCrlf, q, Piece(x[0], ending, replaceCrlf, q, count).1);
    }
  }

  /** Every line break stands behind '=', as a soft break. */
  ghost predicate SoftOnly(s: string) {
    forall j :: 0 <= j < |s| && (s[j] == '\r' || s[j] == '\n') ==>
      j > 0 && (s[j - 1] == '=' || (s[j] == '\n' && s[j - 1] == '\r'))
  }

  lemma SoftOnlyConcat(a: string, b: string)
    requires SoftOnly(a) && SoftOnly(b)
    ensures SoftOnly(a + b)
  {
    var s := a + b;
    forall j | 0 <= j < |s| && (s[j] == '\r' || s[j] == '\n')
      ensures j > 0 && (s[j - 1] == '=' || (s[j] == '\n' && s[j - 1] == '\r'))
    {
      if j >= |a| { assert s[j] == b[j - |a|] && s[j - 1] == b[j - |a| - 1]; }
    }
  }

  /** With the line breaks of the input escaped, all line breaks of the output are soft. */
  lemma {:induction false} BreaksAreSoft(x: Bytes, ending: string, count: nat)
    requires IsSoftEnding(ending)
    ensures SoftOnly(EncodeFrom(x, ending, true, false, count))
  {
    hide Text, Piece, SoftOnly;
    if x == [] {
      assert SoftOnly("") by { NothingSoft(); }
    } else {
      PieceSoft(x[0], ending, count);
      BreaksAreSoft(x[1..], ending, Piece(x[0], ending, true, false, count).1);
      SoftOnlyConcat(Piece(x[0], ending, true, false, count).0,
                     EncodeFrom(x[1..], ending, true, false, Piece(x[0], ending, true, false, count).1));
    }
  }

  lemma NothingSoft()
    ensures SoftOnly("")
  {
  }

  lemma PieceSoft(c: Byte, ending: string, count: nat)
    requires IsSoftEnding(ending)
    ensures SoftOnly(Piece(c, ending, true, false, count).0)
  {
    hide Text, Piece;
    TokenAllowed(c, true, false);
    PieceIsToken(c, ending, true, count);
  }

  /** Up to 75 characters of plain text are returned unchanged. */
  lemma {:induction false} ShortTextUnchanged(x: Bytes, ending: string, replaceCrlf: bool, count: nat)
    requires count + |x| <= 75
    requires forall j :: 0 <= j < |x| ==> 32 <= x[j] as nat <= 126 && x[j] != '='
    ensures EncodeFrom(x, ending, replaceCrlf, false, count) == x
  {
    hide Piece;
    if x != [] {
      PieceIsToken(x[0], ending, replaceCrlf, count);
      assert Text(x[0], replaceCrlf, false) == [x[0]];
      assert [x[0]] != "\r" && [x[0]] != "\n" by { assert [x[0]][0] == x[0]; }
      ShortTextUnchanged(x[1..], ending, replaceCrlf, count + 1);
      assert [x[0]] + x[1..] == x;
    }
  }

  // ------------------------------------------------------------ what the decoder leaves alone

  lemma HexIs(c: char)
    ensures c in HEX <==> IsUpperHex(c)
  {
    if IsUpperHex(c) { HexDigits(HexValue(c)); }
  }

  lemma NoMatchAt(s: string)
    requires !(|s| >= 2 && IsUpperHex(s[0]) && IsUpperHex(s[1])) && !("\r\n" <= s) && !("\n" <= s)
    ensures MatchAt("=" + s) == 0
  {
  }

  /** An '=' that is not followed by two upper-case hexadecimal digits or a line break stays. */
  lemma StrayEqualsStays(s: string)
    requires !(|s| >= 2 && s[0] in HEX && s[1] in HEX) && !("\r\n" <= s) && !("\n" <= s)
    ensures Rewrite("=" + s) == "=" + Rewrite(s)
  {
    if |s| >= 2 {
      HexIs(s[0]);
      HexIs(s[1]);
    }
    hide *;
    NoMatchAt(s);
    RewriteUnmatched("=" + s);
    assert ("=" + s)[1..] == s;
  }

  lemma RewriteUnmatched(t: string)
    requires t != "" && MatchAt(t) == 0
    ensures Rewrite(t) == [t[0]] + Rewrite(t[1..])
  {
    hide MatchAt;
  }

  /** The value of an escape is that of its hexadecimal digits. */
  lemma EscapeValue(a: nat, b: nat, s: string)
    requires a < 16 && b < 16
    ensures Rewrite(['=', HEX[a], HEX[b]] + s) == [(a * 16 + b) as char] + Rewrite(s)
  {
    HexDigits(a);
    HexDigits(b);
    hide HEX;
    var c := (a * 16 + b) as char;
    assert c as nat / 16 == a && c as nat % 16 == b;
    RewriteEscape(c, s);
  }
}
