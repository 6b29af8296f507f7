/**
  Parsing undoes printing.  A generated boundary starts with "----=_"; the pair "=_" occurs in no
  base64 and no quoted-printable text, and a delimiter line never reaches across a line break.
 */
module MimeRoundTrip {
  import opened Arithmetic
  import opened Searching
  import opened Splitting
  import opened MimeMessage
  import opened MimeParser
  import opened MimeBody
  import opened MimeBoundary
  import opened Wrappers
  import Base64
  import QuotedPrintable

  // ------------------------------------------------------------ one part

  /** A part whose header fields and encoded data cannot be mistaken for structure. */
  ghost predicate Printable(p: MimePart, delim: string) {
    && AllOneLine(HeaderLines(p))
    && NoneContains(HeaderLines(p), delim)
    && !Occurs(delim, Payload(p))
  }

  /** What the receiver of a printed part gets. */
  function Received(p: MimePart): Part {
    var headers := Fields(HeaderLines(p));
    Part(headers, TypeOf(headers), Payload(p) + CRLF)
  }

  /** A printed part stands in the body with the line break that the printer adds to its payload. */
  function Printed(p: MimePart): RawPart {
    RawPart(HeaderLines(p), Payload(p) + CRLF)
  }

  lemma PrintedReadable(p: MimePart, delim: string)
    requires GoodDelimiter(delim) && Printable(p, delim)
    ensures Readable(Printed(p), delim)
  {
    HeadersLong(p);
    hide HeaderLines, Payload, Lines, Occurs, NoneContains, AllOneLine;
    NothingOccurs(delim);
    if Occurs(delim, Payload(p) + CRLF) {
      assert Payload(p) + CRLF == Payload(p) + CRLF + "";
      OccursCrlf(delim, Payload(p), "");
    }
  }

  lemma HeadersLong(p: MimePart)
    ensures HeaderLines(p) != [] && |Lines(HeaderLines(p))| >= 16
  {
    var ls := HeaderLines(p);
    assert ls[0] == "Content-Type: " + p.contentType;
    assert Lines(ls) == ls[0] + CRLF + Lines(ls[1..]);
  }

  lemma PartReadBack(p: MimePart, boundary: string, rest: string)
    requires var delim := "--" + boundary;
             GoodDelimiter(delim) && Printable(p, delim) && delim <= rest && |rest| >= |delim| + 2
    ensures RoundOf(PartText(p, boundary) + rest, "--" + boundary) == Found(Received(p), rest)
  {
    hide Fields, TypeOf, HeaderLines, Lines, Payload, RoundOf, Occurs, Block, PartText, Printable, Readable;
    PrintedReadable(p, "--" + boundary);
    RawReadBack(Printed(p), "--" + boundary, rest);
    PartTextIs(p, boundary, rest);
    assert Read(Printed(p)) == Received(p);
  }

  lemma PartTextIs(p: MimePart, boundary: string, rest: string)
    ensures PartText(p, boundary) + rest == "--" + boundary + (CRLF + (Block(Printed(p)) + rest))
  {
    hide Lines, HeaderLines, Payload;
  }

  // ------------------------------------------------------------ the whole message

  function ReceivedAll(parts: seq<MimePart>): (r: seq<Part>)
    ensures |r| == |parts| && forall j :: 0 <= j < |r| ==> r[j] == Received(parts[j])
  {
    seq(|parts|, j requires 0 <= j < |parts| => Received(parts[j]))
  }

  ghost predicate AllPrintable(parts: seq<MimePart>, delim: string) {
    forall j :: 0 <= j < |parts| ==> Printable(parts[j], delim)
  }

  lemma MergedStart(parts: seq<MimePart>, boundary: string)
    ensures "--" + boundary <= Merged(parts, boundary)
    ensures |Merged(parts, boundary)| >= |"--" + boundary| + 2
  {
    hide HeaderLines, Lines, Payload;
  }

  /** As many parts as were printed, in their order, each with its header fields and its payload. */
  lemma {:induction false} PartsReadBack(parts: seq<MimePart>, boundary: string)
    requires GoodDelimiter("--" + boundary) && AllPrintable(parts, "--" + boundary)
    ensures ParseFrom(Merged(parts, boundary), "--" + boundary) == Parsed(ReceivedAll(parts), None)
  {
    hide RoundOf, Received, PartText, Printable;
    MergedStart(parts, boundary);
    if parts == [] {
      ClosingRound(boundary);
    } else {
      var rest := Merged(parts[1..], boundary);
      MergedStart(parts[1..], boundary);
      assert Printable(parts[0], "--" + boundary);
      PartReadBack(parts[0], boundary, rest);
      PartsReadBack(parts[1..], boundary);
      assert ReceivedAll(parts) == [Received(parts[0])] + ReceivedAll(parts[1..]);
    }
  }

  lemma ClosingRound(boundary: string)
    ensures RoundOf("--" + boundary + "--", "--" + boundary) == Closing
  {
    var delim := "--" + boundary;
    var content := delim + "--";
    assert content[..|delim|] == delim && content[|delim|..] == "--";
  }

  // ------------------------------------------------------------ generated boundaries

  predicate IsHexDigest(s: string) {
    forall j :: 0 <= j < |s| ==> '0' <= s[j] <= '9' || 'a' <= s[j] <= 'f'
  }

  /** The boundaries of `genBoundary`: a fixed mark and a digest. */
  predicate IsGenerated(boundary: string) {
    |boundary| >= 6 && boundary[..6] == "----=_" && IsHexDigest(boundary[6..])
  }

  lemma GeneratedGood(boundary: string)
    requires IsGenerated(boundary)
    ensures GoodDelimiter("--" + boundary)
  {
    assert boundary == "----=_" + boundary[6..];
  }

  /** A text without the pair "=_" contains no delimiter. */
  lemma MarkMissing(boundary: string, s: string)
    requires IsGenerated(boundary) && QuotedPrintable.NoMark(s)
    ensures !Occurs("--" + boundary, s)
  {
    var delim := "--" + boundary;
    forall i: nat ensures !StartsAt(s, delim, i) {
      if StartsAt(s, delim, i) {
        MarkCopied(boundary, s, i);
      }
    }
  }

  lemma MarkCopied(boundary: string, s: string, i: nat)
    requires IsGenerated(boundary) && StartsAt(s, "--" + boundary, i)
    ensures i + 8 <= |s| && s[i + 6] == '=' && s[i + 7] == '_'
  {
    var delim := "--" + boundary;
    assert boundary[..6][4] == boundary[4] && boundary[..6][5] == boundary[5];
    assert delim[6] == '=' && delim[7] == '_';
    assert s[i..i + |delim|][6] == s[i + 6] && s[i..i + |delim|][7] == s[i + 7];
  }

  lemma {:induction false} SymbolsNoUnderscore(x: Bytes)
    ensures '_' !in Base64.Symbols(x)
  {
    hide Base64.Symbol;
    if |x| > 0 {
      var b := if |x| > 1 then x[1] as nat else 0;
      var c := if |x| > 2 then x[2] as nat else 0;
      Base64.Sextets(x[0] as nat, b, c);
      var q := Base64.Quad(x[0] as nat, b, c);
      assert forall j :: 0 <= j < 4 ==> Base64.IsBase64(q[j]);
      hide Base64.Quad;
      if |x| >= 3 { SymbolsNoUnderscore(x[3..]); }
    }
  }

  lemma {:induction false} BreaksNoUnderscore(s: string, after: nat)
    requires '_' !in s
    ensures '_' !in Base64.WithBreaks(s, after, CRLF)
    decreases |s|
  {
    if after > 0 && |s| > after {
      BreaksNoUnderscore(s[after..], after);
    }
  }

  /** Encoded payloads never contain a generated delimiter. */
  lemma EncodedFree(p: MimePart, boundary: string)
    requires IsGenerated(boundary) && p.applyEncoding != NONE
    ensures !Occurs("--" + boundary, Payload(p))
  {
    if p.applyEncoding == BASE64 {
      SymbolsNoUnderscore(p.partData);
      BreaksNoUnderscore(Base64.Symbols(p.partData), 76);
    } else {
      QuotedPrintable.EncodedHasNoMark(p.partData, CRLF, false, false, 0);
    }
    hide Occurs, Base64.WithBreaks, QuotedPrintable.Encode;
    MarkMissing(boundary, Payload(p));
  }

  // ------------------------------------------------------------ the content type

  /** The Content-Type value that `getRaw` writes for a multipart message. */
  function MultipartType(multipartType: string, boundary: string): string {
    "multipart/" + multipartType + "; boundary=\"" + boundary + "\""
  }

  predicate IsMultipartType(t: string) {
    t in ["mixed", "digest", "alternative", "related", "report", "signed", "encrypted"]
  }

  lemma NoNameInside(a: string)
    requires 'b' !in a
    ensures !Occurs("boundary=", a)
  {
    forall i: nat ensures !StartsAt(a, "boundary=", i) { FirstChar(a, "boundary=", i); }
  }

  lemma TypeHasNoName(multipartType: string)
    requires IsMultipartType(multipartType)
    ensures !Occurs("boundary=", "multipart/" + multipartType + "; ")
  {
    NoNameInside("multipart/" + multipartType + "; ");
  }

  lemma TypeParts(multipartType: string, boundary: string)
    ensures MultipartType(multipartType, boundary)
         == "multipart/" + multipartType + "; " + "boundary=" + ("\"" + boundary + "\"")
  {
  }

  lemma QuoteBehind()
    ensures "\""[0] !in CLASS
  {
    QuoteNotInClass();
    hide CLASS;
  }

  lemma BoundaryFound(multipartType: string, boundary: string)
    requires IsMultipartType(multipartType) && IsGenerated(boundary)
    ensures FindBoundary(MultipartType(multipartType, boundary)) == Some(boundary)
  {
    hide *;
    TypeHasNoName(multipartType);
    GeneratedChars(boundary);
    QuoteBehind();
    ValueFound("multipart/" + multipartType + "; ", boundary, "\"", true);
    TypeParts(multipartType, boundary);
  }

  lemma GeneratedChars(boundary: string)
    requires IsGenerated(boundary)
    ensures boundary != "" && forall j :: 0 <= j < |boundary| ==> boundary[j] in CLASS
  {
    hide CLASS;
    forall j | 0 <= j < |boundary| ensures boundary[j] in CLASS {
      if j < 6 { assert boundary[j] == boundary[..6][j]; } else { assert boundary[j] == boundary[6..][j - 6]; }
      ClassIs(boundary[j]);
    }
  }

  // ------------------------------------------------------------ the law

  /** A part as a sender may build it: header fields are single lines that do not contain the
      boundary, and data that is sent as it is does not contain the delimiter. */
  ghost predicate Sendable(p: MimePart, delim: string) {
    && AllOneLine(HeaderLines(p))
    && NoneContains(HeaderLines(p), delim)
    && (p.applyEncoding == NONE ==> !Occurs(delim, p.partData))
  }

  /** Parsing undoes printing. */
  lemma PrintParse(parts: seq<MimePart>, multipartType: string, boundary: string)
    requires IsMultipartType(multipartType) && IsGenerated(boundary)
    requires forall j :: 0 <= j < |parts| ==> Sendable(parts[j], "--" + boundary)
    ensures FindBoundary(MultipartType(multipartType, boundary)) == Some(boundary)
    ensures ParseFrom(Merged(parts, boundary), "--" + boundary) == Parsed(ReceivedAll(parts), None)
  {
    BoundaryFound(multipartType, boundary);
    GeneratedGood(boundary);
    forall j | 0 <= j < |parts| ensures Printable(parts[j], "--" + boundary) {
      assert Sendable(parts[j], "--" + boundary);
      if parts[j].applyEncoding != NONE { EncodedFree(parts[j], boundary); }
    }
    PartsReadBack(parts, boundary);
  }

  /** The text that `getRaw` writes between the header of a message and the merged parts. */
  const PREAMBLE := "This is " + "a multi-part message in MIME format" + CRLF + CRLF

  /** The parser does not skip a preamble: it takes the merged parts, but not the whole body of a
      printed message. */
  lemma PreambleRefused(parts: seq<MimePart>, boundary: string)
    ensures ParseFrom(PREAMBLE + Merged(parts, boundary), "--" + boundary) == Parsed([], Some(MalformedPayload))
  {
    hide Merged;
    var content, delim := PREAMBLE + Merged(parts, boundary), "--" + boundary;
    assert content[0] == PREAMBLE[0] && PREAMBLE[0] == 'T' && delim[0] == '-';
    if |content| >= |delim| + 2 {
      assert content[..|delim|][0] == content[0];
    }
  }

  lemma CrlfStays()
    ensures QuotedPrintable.Rewrite(CRLF) == CRLF
  {
    QuotedPrintable.RewriteLiteral('\r', "\n");
    QuotedPrintable.RewriteLiteral('\n', "");
    assert ['\r'] + "\n" == CRLF && ['\n'] + "" == "\n";
    assert QuotedPrintable.Rewrite("") == "";
  }

  /** The data of an encoded part comes back from the received content; quoted-printable data gets
      the line break that the printer adds. */
  lemma DataComesBack(p: MimePart)
    ensures var content := Received(p).content;
            && (p.applyEncoding == BASE64 ==> Base64.FromSymbols(Base64.Payload(content)) == p.partData)
            && (p.applyEncoding == QUOTED_PRINTABLE ==> QuotedPrintable.Decode(content, false) == p.partData + CRLF)
            && (p.applyEncoding == NONE ==> content == p.partData + CRLF)
  {
    hide HeaderLines, Fields, TypeOf, Base64.FromSymbols, Base64.Payload, Base64.WithBreaks, Base64.Symbols,
      QuotedPrintable.Rewrite, QuotedPrintable.EncodeFrom;
    match p.applyEncoding {
      case BASE64 =>
        Base64.EncodeDecode(p.partData, 76, CRLF, CRLF);
      case QUOTED_PRINTABLE =>
        QuotedPrintable.DecodePlainMore(p.partData, CRLF, false, 0, CRLF);
        CrlfStays();
      case NONE =>
    }
  }

  // ------------------------------------------------------------ the payload

  /** Where the base64 symbols of a payload stand: a line break after every 76 of them, none at the end. */
  lemma Base64Payload(p: MimePart, k: nat)
    requires p.applyEncoding == BASE64 && k < |Base64.Symbols(p.partData)|
    ensures var s := Base64.Symbols(p.partData);
            && |Payload(p)| == |s| + Mul(Div(|s| - 1, 76), 2)
            && k + Mul(Div(k, 76), 2) < |Payload(p)| && Payload(p)[k + Mul(Div(k, 76), 2)] == s[k]
  {
    hide Base64.Symbols, Base64.WithBreaks, Mul, Div;
    Base64.BreaksAt(Base64.Symbols(p.partData), 76, "\r\n", k);
  }

  /** A quoted-printable payload keeps the line breaks of the data, and has soft breaks with carriage
      return and line feed; data without an encoding is sent as it is. */
  lemma OtherPayload(p: MimePart)
    ensures p.applyEncoding == QUOTED_PRINTABLE ==>
              Payload(p) == QuotedPrintable.Wrap(QuotedPrintable.Texts(p.partData, false, false), "\r\n", 0)
    ensures p.applyEncoding == NONE ==> Payload(p) == p.partData
  {
    hide QuotedPrintable.Wrap, QuotedPrintable.Texts;
    QuotedPrintable.EncodeWraps(p.partData, "\r\n", false, 0);
  }

  // ------------------------------------------------------------ header fields

  function DispositionFields(p: MimePart): seq<(string, string)> {
    if p.contentDisposition == "" then [] else [("Content-Disposition", p.contentDisposition)]
  }

  function EncodingFields(e: ApplyEncoding): seq<(string, string)> {
    match e
    case BASE64 => [("Content-Transfer-Encoding", "base64")]
    case QUOTED_PRINTABLE => [("Content-Transfer-Encoding", "quoted-printable")]
    case NONE => []
  }

  /** The names and values that a sender gives to a part, in the order in which they are printed. */
  function SentFields(p: MimePart): seq<(string, string)> {
    [("Content-Type", p.contentType)] + DispositionFields(p) + p.partHeaders + EncodingFields(p.applyEncoding)
  }

  lemma ExtraLinesConcat(a: seq<(string, string)>, b: seq<(string, string)>)
    ensures ExtraLines(a + b) == ExtraLines(a) + ExtraLines(b)
  {
  }

  lemma EncodingPrinted(e: ApplyEncoding)
    ensures EncodingLines(e) == ExtraLines(EncodingFields(e))
  {
    assert "Content-Transfer-Encoding" + ": " + "base64" == "Content-Transfer-Encoding: base64";
    assert "Content-Transfer-Encoding" + ": " + "quoted-printable" == "Content-Transfer-Encoding: quoted-printable";
  }

  lemma OnePrinted(name: string, text: string, value: string)
    requires name + ": " == text
    ensures ExtraLines([(name, value)]) == [text + value]
  {
  }

  lemma SentFieldsPrinted(p: MimePart)
    ensures HeaderLines(p) == ExtraLines(SentFields(p))
  {
    hide ExtraLines, EncodingLines, EncodingFields;
    var first := [("Content-Type", p.contentType)];
    EncodingPrinted(p.applyEncoding);
    OnePrinted("Content-Type", "Content-Type: ", p.contentType);
    OnePrinted("Content-Disposition", "Content-Disposition: ", p.contentDisposition);
    ExtraLinesConcat(first, DispositionFields(p));
    ExtraLinesConcat(first + DispositionFields(p), p.partHeaders);
    ExtraLinesConcat(first + DispositionFields(p) + p.partHeaders, EncodingFields(p.applyEncoding));
  }

  /** No name has a colon in it. */
  ghost predicate ColonFree(fs: seq<(string, string)>) {
    forall j :: 0 <= j < |fs| ==> ':' !in fs[j].0
  }

  lemma FieldsStep(fs: seq<(string, string)>)
    requires fs != [] && ColonFree(fs)
    ensures var last := fs[|fs| - 1];
            Fields(ExtraLines(fs)) == Fields(ExtraLines(fs[..|fs| - 1]))[Lower(last.0) := TrimLeft(last.1)]
  {
    hide Lower, TrimLeft, Field;
    var lines, n := ExtraLines(fs), |fs| - 1;
    assert lines[..n] == ExtraLines(fs[..n]);
    FieldOfPrinted(fs[n].0, fs[n].1);
  }

  /** The received names are the printed ones in lower case. */
  lemma {:induction false} NamesComeBack(fs: seq<(string, string)>, key: string)
    requires ColonFree(fs)
    ensures key in Fields(ExtraLines(fs)) <==> exists j :: 0 <= j < |fs| && Lower(fs[j].0) == key
  {
    hide Lower, TrimLeft;
    if fs != [] {
      var front := fs[..|fs| - 1];
      FieldsStep(fs);
      NamesComeBack(front, key);
      hide Fields;
      assert forall j :: 0 <= j < |front| ==> front[j] == fs[j];
      assert (exists j :: 0 <= j < |fs| && Lower(fs[j].0) == key)
        <==> Lower(fs[|fs| - 1].0) == key || exists j :: 0 <= j < |front| && Lower(front[j].0) == key;
    }
  }

  /** A printed field comes back under its lower-case name, without white space in front of its value,
      unless a later one has the same name. */
  lemma {:induction false} FieldComesBack(fs: seq<(string, string)>, j: nat)
    requires j < |fs| && ColonFree(fs)
    requires forall k :: j < k < |fs| ==> Lower(fs[k].0) != Lower(fs[j].0)
    ensures var headers := Fields(ExtraLines(fs));
            Lower(fs[j].0) in headers && headers[Lower(fs[j].0)] == TrimLeft(fs[j].1)
    decreases |fs|
  {
    hide Lower, TrimLeft;
    FieldsStep(fs);
    if j + 1 < |fs| {
      FieldComesBack(fs[..|fs| - 1], j);
      hide Fields;
    }
  }

  ghost predicate LastNamed(fs: seq<(string, string)>, j: nat) {
    j < |fs| && forall k :: j < k < |fs| ==> Lower(fs[k].0) != Lower(fs[j].0)
  }

  /** The same names in lower case, and for every name the last value given to it, without white space
      in front. */
  ghost predicate ReadsBack(fs: seq<(string, string)>, headers: HeadersMap) {
    && (forall key :: key in headers <==> exists j :: 0 <= j < |fs| && Lower(fs[j].0) == key)
    && (forall j: nat :: LastNamed(fs, j) ==>
          Lower(fs[j].0) in headers && headers[Lower(fs[j].0)] == TrimLeft(fs[j].1))
  }

  lemma FieldsReadBack(fs: seq<(string, string)>)
    requires ColonFree(fs)
    ensures ReadsBack(fs, Fields(ExtraLines(fs)))
  {
    hide Fields, Lower, TrimLeft;
    var headers := Fields(ExtraLines(fs));
    forall key ensures key in headers <==> exists j :: 0 <= j < |fs| && Lower(fs[j].0) == key {
      NamesComeBack(fs, key);
    }
    forall j: nat | LastNamed(fs, j)
      ensures Lower(fs[j].0) in headers && headers[Lower(fs[j].0)] == TrimLeft(fs[j].1)
    {
      FieldComesBack(fs, j);
    }
  }

  lemma SentColonFree(p: MimePart)
    requires ColonFree(p.partHeaders)
    ensures ColonFree(SentFields(p))
  {
  }

  /** The headers of a received part are the sender's. */
  lemma HeadersComeBack(p: MimePart)
    requires ColonFree(p.partHeaders)
    ensures ReadsBack(SentFields(p), Received(p).headers)
  {
    hide SentFields, HeaderLines, Fields, ReadsBack, ColonFree;
    SentFieldsPrinted(p);
    SentColonFree(p);
    FieldsReadBack(SentFields(p));
  }

  lemma LowerNames()
    ensures Lower("Content-Type") == "content-type"
    ensures |Lower("Content-Disposition")| == 19 && |Lower("Content-Transfer-Encoding")| == 25
    ensures |"content-type"| == 12
  {
  }

  lemma ContentTypeLast(p: MimePart)
    requires forall j :: 0 <= j < |p.partHeaders| ==> Lower(p.partHeaders[j].0) != "content-type"
    ensures LastNamed(SentFields(p), 0) && SentFields(p)[0] == ("Content-Type", p.contentType)
  {
    LowerNames();
    hide Lower;
    var fs, n := SentFields(p), |DispositionFields(p)| + 1;
    forall k | 0 < k < |fs| ensures Lower(fs[k].0) != "content-type" {
      if k < n {
        assert fs[k].0 == "Content-Disposition";
      } else if k < n + |p.partHeaders| {
        assert fs[k] == p.partHeaders[k - n];
      } else {
        assert fs[k].0 == "Content-Transfer-Encoding";
      }
    }
  }

  /** The content type of a received part is the sender's, without white space in front, unless an
      extra header has replaced it. */
  lemma ContentTypeComesBack(p: MimePart)
    requires ColonFree(p.partHeaders)
    requires forall j :: 0 <= j < |p.partHeaders| ==> Lower(p.partHeaders[j].0) != "content-type"
    ensures Received(p).contentType == TrimLeft(p.contentType)
  {
    LowerNames();
    ContentTypeLast(p);
    HeadersComeBack(p);
    hide SentFields, HeaderLines, Fields, LastNamed, TrimLeft, Lower;
    assert Lower(SentFields(p)[0].0) in Received(p).headers;
  }
}
