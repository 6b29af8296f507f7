/**
  Printing a list of MIME parts (`mergeMimePartList`) and reading header fields
  (`utils::parseHeaders`).
 */
module MimeMessage {
  import opened Arithmetic
  import opened Searching
  import opened Splitting
  import opened Wrappers
  import Base64
  import QuotedPrintable

  type Bytes = Base64.Bytes

  const CRLF := "\r\n"

  // ------------------------------------------------------------ printing

  datatype ApplyEncoding = BASE64 | QUOTED_PRINTABLE | NONE

  /** A leaf part; the headers are in the order in which the hash map yields them. */
  datatype MimePart = MimePart(contentType: string, contentDisposition: string,
                               partHeaders: seq<(string, string)>, applyEncoding: ApplyEncoding, partData: Bytes)

  function ExtraLines(headers: seq<(string, string)>): (r: seq<string>)
    ensures |r| == |headers|
    ensures forall j :: 0 <= j < |r| ==> r[j] == headers[j].0 + ": " + headers[j].1
  {
    seq(|headers|, j requires 0 <= j < |headers| => headers[j].0 + ": " + headers[j].1)
  }

  function EncodingLines(e: ApplyEncoding): seq<string> {
    match e
    case BASE64 => ["Content-Transfer-Encoding: base64"]
    case QUOTED_PRINTABLE => ["Content-Transfer-Encoding: quoted-printable"]
    case NONE => []
  }

  /** The header lines of a part, without their line breaks. */
  function HeaderLines(p: MimePart): seq<string> {
    ["Content-Type: " + p.contentType]
    + (if p.contentDisposition == "" then [] else ["Content-Disposition: " + p.contentDisposition])
    + ExtraLines(p.partHeaders)
    + EncodingLines(p.applyEncoding)
  }

  function Lines(ls: seq<string>): string
  {
    if ls == [] then "" else ls[0] + CRLF + Lines(ls[1..])
  }

  /** The transfer-encoded data of a part. */
  function Payload(p: MimePart): string {
    match p.applyEncoding
    case BASE64 => Base64.WithBreaks(Base64.Symbols(p.partData), 76, CRLF)
    case QUOTED_PRINTABLE => QuotedPrintable.Encode(p.partData, CRLF, false, false)
    case NONE => p.partData
  }

  function PartText(p: MimePart, boundary: string): string {
    "--" + boundary + CRLF + (Lines(HeaderLines(p)) + CRLF + Payload(p) + CRLF + CRLF)
  }

  function Merged(parts: seq<MimePart>, boundary: string): string
  {
    if parts == [] then "--" + boundary + "--"
    else PartText(parts[0], boundary) + Merged(parts[1..], boundary)
  }

  lemma {:induction false} LinesAppend(ls: seq<string>, l: string)
    ensures Lines(ls + [l]) == Lines(ls) + l + CRLF
  {
    if ls == [] {
      assert Lines([l]) == l + CRLF + Lines([]);
    } else {
      assert (ls + [l])[1..] == ls[1..] + [l];
      LinesAppend(ls[1..], l);
    }
  }

  method PrintHeaders(p: MimePart) returns (head: string)
    ensures head == Lines(HeaderLines(p))
  {
    hide Lines;
    NoLines();
    head := "Content-Type: " + p.contentType + CRLF;
    ghost var ls := ["Content-Type: " + p.contentType];
    LinesAppend([], ls[0]);
    assert [] + ls == ls && "" + ls[0] + CRLF == head;
    if p.contentDisposition != "" {
      head := head + ("Content-Disposition: " + p.contentDisposition) + CRLF;
      LinesAppend(ls, "Content-Disposition: " + p.contentDisposition);
      ls := ls + ["Content-Disposition: " + p.contentDisposition];
    }
    ghost var before := ls;
    for j := 0 to |p.partHeaders|
      invariant ls == before + ExtraLines(p.partHeaders)[..j] && head == Lines(ls)
    {
      var e := p.partHeaders[j];
      head := head + (e.0 + ": " + e.1) + CRLF;
      LinesAppend(ls, e.0 + ": " + e.1);
      ls := ls + [e.0 + ": " + e.1];
    }
    assert ls == before + ExtraLines(p.partHeaders);
    if p.applyEncoding != NONE {
      var name := if p.applyEncoding == BASE64 then "Content-Transfer-Encoding: base64"
                  else "Content-Transfer-Encoding: quoted-printable";
      head := head + name + CRLF;
      LinesAppend(ls, name);
    }
    assert HeaderLines(p) == ls + EncodingLines(p.applyEncoding);
    assert ls + [] == ls;
  }

  /** The text of one part, as the body of the printer's loop writes it. */
  method PrintPart(p: MimePart, boundary: string) returns (ret: string)
    ensures ret == PartText(p, boundary)
  {
    var head := PrintHeaders(p);
    var body;
    match p.applyEncoding {
      case BASE64 => body := Base64.Base64Encode(p.partData, 76, CRLF);
      case QUOTED_PRINTABLE => body := QuotedPrintable.QuotedPrintableEncode(p.partData, CRLF, false, false);
      case NONE => body := p.partData;
    }
    ret := "--" + boundary + CRLF + (head + CRLF + body + CRLF + CRLF);
  }

  lemma NoLines()
    ensures Lines([]) == ""
  {
  }

  method MergeMimePartList(parts: seq<MimePart>, boundary: string) returns (ret: string)
    ensures ret == Merged(parts, boundary)
  {
    hide PartText;
    ret := "";
    assert parts[0..] == parts;
    for k := 0 to |parts|
      invariant Merged(parts, boundary) == ret + Merged(parts[k..], boundary)
    {
      var text := PrintPart(parts[k], boundary);
      assert parts[k..][1..] == parts[k + 1..];
      assert ret + (text + Merged(parts[k + 1..], boundary)) == ret + text + Merged(parts[k + 1..], boundary);
      ret := ret + text;
    }
    ret := ret + ("--" + boundary + "--");
  }

  // ------------------------------------------------------------ header fields

  type HeadersMap = map<string, string>

  function LowerChar(c: char): char {
    if 'A' <= c <= 'Z' then c + 32 as char else c
  }

  function Lower(s: string): (r: string)
    ensures |r| == |s|
  {
    seq(|s|, j requires 0 <= j < |s| => LowerChar(s[j]))
  }

  /** Letters of the upper case, and only these, are replaced by those of the lower case. */
  lemma LowerMeans(s: string, j: nat)
    requires j < |s|
    ensures 'A' <= s[j] <= 'Z' ==> Lower(s)[j] as int - 'a' as int == s[j] as int - 'A' as int
    ensures !('A' <= s[j] <= 'Z') ==> Lower(s)[j] == s[j]
  {
  }

  predicate IsSpace(c: char) {
    '\t' <= c <= '\r' || c == ' '
  }

  function TrimLeft(s: string): string
  {
    if s != "" && IsSpace(s[0]) then TrimLeft(s[1..]) else s
  }

  /** The characters of `isspace` */
  predicate IsBlank(c: char) {
    var n := c as int;
    n == 32 || n == 9 || n == 10 || n == 11 || n == 12 || n == 13
  }

  /** What is cut off in front is white space, and what is left does not begin with any. */
  lemma {:induction false} TrimMeans(s: string) returns (k: nat)
    ensures k <= |s| && TrimLeft(s) == s[k..] && (k < |s| ==> !IsBlank(s[k]))
    ensures forall j :: 0 <= j < k ==> IsBlank(s[j])
  {
    k := 0;
    if s != "" && IsSpace(s[0]) {
      var i := TrimMeans(s[1..]);
      k := i + 1;
      assert s[1..][i..] == s[k..];
      assert forall j :: 1 <= j < k ==> s[j] == s[1..][j - 1];
    }
  }

  function EraseCr(s: string): string
  {
    if s == "" then "" else (if s[0] == '\r' then "" else [s[0]]) + EraseCr(s[1..])
  }

  /** The field that a line stands for: key and value around the first colon.  A colon as the last
      character makes the line no field; a line without a colon is key and value at once. */
  function Field(line: string): Option<(string, string)>
  {
    var colon := FirstIndex(line, ':');
    if line == "" || colon + 1 == |line| then None
    else if colon == |line| then Some((Lower(line), TrimLeft(line)))
    else Some((Lower(line[..colon]), TrimLeft(line[colon + 1..])))
  }

  /** A line is a field under its own whole text exactly if it has no colon. */
  lemma FieldWithoutColon(line: string)
    requires line != ""
    ensures Field(line).Some? && Field(line).value.0 == Lower(line) <==> ':' !in line
    ensures ':' !in line ==> Field(line) == Some((Lower(line), TrimLeft(line)))
  {
    var colon := FirstIndex(line, ':');
    if colon < |line| { assert line[colon] in line; }
    hide Lower, TrimLeft;
  }

  /** What stands before the first colon is the key, in lower case; what stands behind it is the value,
      without white space in front; without anything behind it there is no field. */
  lemma FieldAroundColon(k: string, v: string)
    requires ':' !in k
    ensures Field(k + ":" + v) == if v == "" then None else Some((Lower(k), TrimLeft(v)))
  {
    hide Lower, TrimLeft;
    var line := k + ":" + v;
    FirstIndexIs(line, ':', |k|);
    assert line[..|k|] == k && line[|k| + 1..] == v;
  }

  /** A printed header line is the field of its name and its value. */
  lemma FieldOfPrinted(k: string, v: string)
    requires ':' !in k
    ensures Field(k + ": " + v) == Some((Lower(k), TrimLeft(v)))
  {
    FieldAroundColon(k, " " + v);
    assert k + ": " + v == k + ":" + (" " + v);
    assert (" " + v)[1..] == v;
    hide Lower, Field;
  }

  function Put(m: HeadersMap, line: string): HeadersMap {
    match Field(line)
    case None => m
    case Some((key, val)) => m[key := val]
  }

  /** Later fields replace earlier ones with the same name. */
  function Fields(lines: seq<string>): HeadersMap
  {
    if lines == [] then map[] else Put(Fields(lines[..|lines| - 1]), lines[|lines| - 1])
  }

  function Headers(raw: string): HeadersMap {
    Fields(Split(EraseCr(raw), '\n', true))
  }

  /** No `std::string` is longer. */
  const MAX_SIZE: nat := 0x7FFF_FFFF_FFFF_FFFF

  lemma {:induction false} EraseCrShort(s: string)
    ensures |EraseCr(s)| <= |s|
  {
    if s != "" {
      EraseCrShort(s[1..]);
    }
  }

  method ParseHeaders(rawHeaders: string) returns (ret: HeadersMap)
    requires |rawHeaders| <= MAX_SIZE
    ensures ret == Headers(rawHeaders)
  {
    hide Field, Put;
    EraseCrShort(rawHeaders);
    SplitShort(EraseCr(rawHeaders), '\n', MAX_SIZE + 1);
    var lines := SplitString(EraseCr(rawHeaders), '\n', true);
    ret := map[];
    for k := 0 to |lines|
      invariant ret == Fields(lines[..k])
    {
      assert lines[..k + 1][..k] == lines[..k];
      ret := PutField(ret, lines[k]);
    }
    assert lines[..|lines|] == lines;
  }

  /** The test of a line and the start of its value, computed in `size_t`: for `npos` adding 2 gives 1
      and adding 1 gives 0, so that a line without a colon passes and its value starts at index 0. */
  lemma PositionsWrap(n: nat, colon: nat)
    requires colon <= n <= MAX_SIZE
    ensures var pos := if colon < n then colon else SIZE_MAX;
            && (n < AddSize(pos, 2) <==> n == 0 || colon + 1 == n)
            && AddSize(pos, 1) == if colon < n then colon + 1 else 0
  {
  }

  method PutField(m: HeadersMap, line: string) returns (ret: HeadersMap)
    requires |line| <= MAX_SIZE
    ensures ret == Put(m, line)
    ensures line != "" && ':' !in line ==> ret == m[Lower(line) := TrimLeft(line)]
  {
    hide Lower, TrimLeft, AddSize;
    var colon := FindFirstOf(line, ':');
    var colonPos := if colon < |line| then colon else SIZE_MAX;
    PositionsWrap(|line|, colon);
    assert line[..|line|] == line && line[0..] == line;
    if line != "" { FieldWithoutColon(line); }
    if |line| < AddSize(colonPos, 2) {
      return m;
    }
    var key := Lower(line[..if colonPos < |line| then colonPos else |line|]);
    var val := TrimLeft(line[AddSize(colonPos, 1)..]);
    ret := m[key := val];
  }

  predicate OneLine(l: string) {
    l != "" && '\r' !in l && '\n' !in l
  }

  ghost predicate AllOneLine(ls: seq<string>) {
    forall j :: 0 <= j < |ls| ==> OneLine(ls[j])
  }

  lemma {:induction false} EraseCrConcat(a: string, b: string)
    ensures EraseCr(a + b) == EraseCr(a) + EraseCr(b)
  {
    if a == "" {
      assert a + b == b;
    } else {
      assert (a + b)[1..] == a[1..] + b;
      EraseCrConcat(a[1..], b);
    }
  }

  lemma {:induction false} EraseCrNone(a: string)
    requires '\r' !in a
    ensures EraseCr(a) == a
  {
    if a != "" {
      EraseCrNone(a[1..]);
    }
  }

  lemma CrlfErased(l: string, tail: string)
    requires '\r' !in l
    ensures EraseCr(l + CRLF + tail) == l + "\n" + EraseCr(tail)
  {
    EraseCrNone(l);
    EraseCrConcat(l + CRLF, tail);
    EraseCrConcat(l, CRLF);
    assert EraseCr(CRLF) == "\n" by { EraseCrConcat("\r", "\n"); }
  }

  /** A block of lines without its last break is split into these lines again. */
  lemma {:induction false} LinesErased(ls: seq<string>)
    requires ls != [] && AllOneLine(ls)
    ensures |Lines(ls)| >= 2 && EraseCr(Lines(ls)[..|Lines(ls)| - 2]) == Join(ls, '\n')
  {
    hide EraseCr, Join;
    var l, rest := ls[0], ls[1..];
    assert OneLine(l) && ls == [l] + rest;
    JoinCons(l, rest, '\n');
    if rest == [] {
      EraseCrNone(l);
      assert Lines(rest) == "" && Lines(ls)[..|Lines(ls)| - 2] == l;
    } else {
      LinesErased(rest);
      var block := Lines(rest);
      assert Lines(ls) == l + CRLF + block;
      hide Lines;
      assert Lines(ls)[..|Lines(ls)| - 2] == l + CRLF + block[..|block| - 2];
      CrlfErased(l, block[..|block| - 2]);
    }
  }

  lemma HeadersOfLines(ls: seq<string>)
    requires ls != [] && AllOneLine(ls)
    ensures |Lines(ls)| >= 2 && Headers(Lines(ls)[..|Lines(ls)| - 2]) == Fields(ls)
  {
    hide Lines, Join, Fields;
    LinesErased(ls);
    assert AllProper(ls, '\n') by {
      forall j | 0 <= j < |ls| ensures Proper(ls[j], '\n') { assert OneLine(ls[j]); }
    }
    SplitJoin(ls, '\n');
  }

  /** Carriage returns do not count, wherever they stand. */
  lemma CarriageReturnIgnored(a: string, b: string)
    ensures Headers(a + "\r" + b) == Headers(a + b)
  {
    hide EraseCr, Split, Fields;
    EraseCrConcat(a + "\r", b);
    EraseCrConcat(a, "\r");
    EraseCrConcat(a, b);
    LoneCr();
    assert EraseCr(a) + "" == EraseCr(a);
  }

  lemma LoneCr()
    ensures EraseCr("\r") == ""
  {
  }

  /** Line feeds alone separate lines, and empty lines do not count. */
  lemma LineFeedsSeparate(raw: string, ls: seq<string>)
    requires '\r' !in raw && NonEmpty(Split(raw, '\n', false)) == ls
    ensures Headers(raw) == Fields(ls)
  {
    hide Split, Fields, NonEmpty;
    EraseCrNone(raw);
    EmptyIgnored(raw, '\n');
  }
}
