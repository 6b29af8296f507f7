/**
  Multipart bodies in general, as browsers and mail programs send them: what `MimeMultipart::parse`
  makes of parts with header lines and a content, and of everything that can end such a body.
 */
module MimeBody {
  import opened Searching
  import opened Splitting
  import opened MimeMessage
  import opened MimeParser
  import opened Sequences
  import opened Wrappers

  // ------------------------------------------------------------ occurrences of the delimiter

  lemma OccursCrlf(pat: string, a: string, b: string)
    requires '\r' !in pat && '\n' !in pat && pat != "" && Occurs(pat, a + CRLF + b)
    ensures Occurs(pat, a) || Occurs(pat, b)
  {
    assert a + CRLF + b == a + ['\r'] + ("\n" + b) && "\n" + b == "" + ['\n'] + b;
    OccursBeside(pat, a, '\r', "\n" + b);
    if Occurs(pat, "\n" + b) {
      OccursBeside(pat, "", '\n', b);
    }
  }

  ghost predicate NoneContains(ls: seq<string>, pat: string) {
    forall j :: 0 <= j < |ls| ==> !Occurs(pat, ls[j])
  }

  lemma {:induction false} OccursLines(pat: string, ls: seq<string>, t: string)
    requires '\r' !in pat && '\n' !in pat && pat != ""
    requires NoneContains(ls, pat) && !Occurs(pat, t)
    ensures !Occurs(pat, Lines(ls) + t)
  {
    if ls == [] {
      assert Lines(ls) + t == t;
    } else {
      hide Occurs;
      OccursLines(pat, ls[1..], t);
      var rest := Lines(ls[1..]) + t;
      assert Lines(ls) + t == ls[0] + CRLF + rest;
      if Occurs(pat, ls[0] + CRLF + rest) {
        OccursCrlf(pat, ls[0], rest);
      }
    }
  }

  lemma OccursInFront(a: string, b: string, pat: string, j: nat)
    requires StartsAt(a + b, pat, j) && j + |pat| <= |a|
    ensures Occurs(pat, a)
  {
    assert StartsAt(a, pat, j);
  }

  /** The first delimiter after a block that ends with a line break and contains none. */
  lemma IndexAfterBreak(block: string, delim: string, rest: string)
    requires block != "" && block[|block| - 1] !in delim && !Occurs(delim, block)
    requires delim <= rest
    ensures IndexOf(block + rest, delim) == Some(|block|)
  {
    var s := block + rest;
    forall j: nat | j < |block| ensures !StartsAt(s, delim, j) {
      if StartsAt(s, delim, j) {
        if j + |delim| <= |block| {
          OccursInFront(block, rest, delim, j);
        } else {
          CharInside(s, delim, j, |block| - 1);
        }
      }
    }
    assert StartsAt(s, delim, |block|);
    IndexOfIs(s, delim, |block|);
  }

  lemma {:induction false} IndexSkips(a: string, s: string, pat: string)
    requires pat != "" && forall j :: 0 <= j < |a| ==> a[j] != pat[0]
    ensures IndexOf(a + s, pat) == match IndexOf(s, pat) case None => None case Some(i) => Some(|a| + i)
  {
    if a == "" {
      assert a + s == s;
    } else {
      var t := a + s;
      assert t[1..] == a[1..] + s;
      if StartsAt(t, pat, 0) { FirstChar(t, pat, 0); }
      IndexSkips(a[1..], s, pat);
    }
  }

  /** The blank line after the header lines is the first one. */
  lemma {:induction false} BlankLineAfter(ls: seq<string>, rest: string)
    requires ls != [] && AllOneLine(ls)
    ensures |Lines(ls)| >= 2 && IndexOf(Lines(ls) + CRLF + rest, BLANK_LINE) == Some(|Lines(ls)| - 2)
  {
    hide IndexOf;
    var l, more := ls[0], ls[1..];
    assert OneLine(l);
    var tail := CRLF + (Lines(more) + CRLF + rest);
    assert Lines(ls) + CRLF + rest == l + tail;
    IndexSkips(l, tail, BLANK_LINE);
    if more == [] {
      assert Lines(more) == "" && StartsAt(tail, BLANK_LINE, 0);
      IndexOfIs(tail, BLANK_LINE, 0);
    } else {
      var next := Lines(more) + CRLF + rest;
      BlankLineAfter(more, rest);
      assert OneLine(more[0]) && next[0] == more[0][0];
      BreakNotBlank(next);
    }
  }

  lemma BreakNotBlank(next: string)
    requires next != "" && next[0] != '\r'
    ensures IndexOf(CRLF + next, BLANK_LINE)
         == match IndexOf(next, BLANK_LINE) case None => None case Some(i) => Some(i + 2)
  {
    var t := CRLF + next;
    assert t[1..] == "\n" + next && t[1..][1..] == next;
    assert t[2] != '\r';
    if StartsAt(t, BLANK_LINE, 0) { CharThird(t); }
    IndexSkips("\n", next, BLANK_LINE);
  }

  lemma CharThird(t: string)
    requires StartsAt(t, BLANK_LINE, 0)
    ensures t[2] == '\r'
  {
    assert t[0..4][2] == t[2];
  }

  // ------------------------------------------------------------ one part

  /** A part as it stands in a body: its header lines, and its content. */
  datatype RawPart = RawPart(lines: seq<string>, body: string)

  ghost predicate GoodDelimiter(delim: string) {
    delim != "" && '\r' !in delim && '\n' !in delim
  }

  /** Header lines of at least four characters in all, and nothing that could be mistaken for the
      delimiter. */
  ghost predicate Readable(r: RawPart, delim: string) {
    && r.lines != [] && AllOneLine(r.lines) && |Lines(r.lines)| >= 6
    && NoneContains(r.lines, delim) && !Occurs(delim, r.body)
  }

  function Block(r: RawPart): string {
    Lines(r.lines) + CRLF + r.body + CRLF
  }

  /** What the parser makes of it; a content of a single character is lost. */
  function Read(r: RawPart): Part {
    var headers := Fields(r.lines);
    Part(headers, TypeOf(headers), if |r.body| == 1 then "" else r.body)
  }

  lemma NothingOccurs(delim: string)
    requires delim != ""
    ensures !Occurs(delim, "")
  {
  }

  lemma TailFree(delim: string, body: string)
    requires GoodDelimiter(delim) && !Occurs(delim, body)
    ensures !Occurs(delim, CRLF + body + CRLF)
  {
    NothingOccurs(delim);
    hide Occurs;
    if Occurs(delim, CRLF + body + CRLF) {
      assert CRLF + body + CRLF == CRLF + body + CRLF + "";
      OccursCrlf(delim, CRLF + body, "");
      assert CRLF + body == "" + CRLF + body;
      OccursCrlf(delim, "", body);
    }
  }

  /** Where the parser finds the end of a part, and of its headers. */
  lemma BlockBounds(r: RawPart, delim: string, rest: string)
    requires GoodDelimiter(delim) && Readable(r, delim) && delim <= rest
    ensures IndexOf(Block(r) + rest, delim) == Some(|Block(r)|)
    ensures IndexOf(Block(r) + rest, BLANK_LINE) == Some(|Lines(r.lines)| - 2)
  {
    var ls, body := r.lines, r.body;
    var t := CRLF + body + CRLF;
    hide Lines, Occurs, IndexOf, NoneContains, AllOneLine;
    assert Block(r) == Lines(ls) + t;
    TailFree(delim, body);
    OccursLines(delim, ls, t);
    IndexAfterBreak(Block(r), delim, rest);
    assert Block(r) + rest == Lines(ls) + CRLF + (body + CRLF + rest);
    BlankLineAfter(ls, body + CRLF + rest);
  }

  /** A round of the parser on a delimiter line and a body. */
  lemma RoundFinds(delim: string, body: string, next: nat, end: nat)
    requires delim != "" && |body| >= |delim| + 4
    requires IndexOf(body, delim) == Some(next) && end <= next <= |body|
    requires IndexOf(body, BLANK_LINE) == Some(end) && end >= 4
    ensures RoundOf(delim + (CRLF + body), delim) == Found(PartAt(body, end, next), body[next..])
  {
    hide PartAt, IndexOf;
    var content, c := delim + (CRLF + body), CRLF + body;
    assert content[..|delim|] == delim && content[|delim|..] == c;
    assert c[..2] == CRLF && c[2..] == body;
  }

  /** The pieces that the parser cuts out of a part. */
  lemma BlockCut(r: RawPart, rest: string)
    requires |Lines(r.lines)| >= 6
    ensures var block, head := Block(r), Lines(r.lines);
            var all := block + rest;
            && |block| == |head| + |r.body| + 4
            && all[..|head| - 2] == head[..|head| - 2]
            && all[|head| + 2..|block| - 2] == r.body
            && all[|block|..] == rest
  {
    hide Lines;
  }

  lemma RawReadBack(r: RawPart, delim: string, rest: string)
    requires GoodDelimiter(delim) && Readable(r, delim) && delim <= rest && |rest| >= |delim| + 2
    ensures RoundOf(delim + (CRLF + (Block(r) + rest)), delim) == Found(Read(r), rest)
  {
    hide IndexOf, Headers, Fields, Lines, RoundOf, Occurs, Block, HeadersEnd, NoneContains, AllOneLine;
    var block, head := Block(r), Lines(r.lines);
    BlockBounds(r, delim, rest);
    HeadersOfLines(r.lines);
    BlockCut(r, rest);
    RoundFinds(delim, block + rest, |block|, |head| - 2);
  }

  // ------------------------------------------------------------ a whole body

  function Body(parts: seq<RawPart>, delim: string): string
  {
    if parts == [] then "" else delim + (CRLF + Block(parts[0])) + Body(parts[1..], delim)
  }

  function ReadAll(parts: seq<RawPart>): (r: seq<Part>)
    ensures |r| == |parts| && forall j :: 0 <= j < |r| ==> r[j] == Read(parts[j])
  {
    seq(|parts|, j requires 0 <= j < |parts| => Read(parts[j]))
  }

  ghost predicate AllReadable(parts: seq<RawPart>, delim: string) {
    forall j :: 0 <= j < |parts| ==> Readable(parts[j], delim)
  }

  lemma BodyStarts(parts: seq<RawPart>, delim: string, rest: string)
    requires delim <= rest && |rest| >= |delim| + 2
    ensures delim <= Body(parts, delim) + rest && |Body(parts, delim) + rest| >= |delim| + 2
  {
    hide Block;
    if parts == [] { assert Body(parts, delim) + rest == rest; }
  }

  /** The parts are read one after the other, whatever follows the last one. */
  lemma {:induction false} BodyReadBack(parts: seq<RawPart>, delim: string, rest: string)
    requires GoodDelimiter(delim) && AllReadable(parts, delim) && delim <= rest && |rest| >= |delim| + 2
    ensures ParseFrom(Body(parts, delim) + rest, delim)
         == Parsed(ReadAll(parts) + ParseFrom(rest, delim).parts, ParseFrom(rest, delim).error)
  {
    hide RoundOf, Read, Block, Readable;
    if parts == [] {
      assert Body(parts, delim) + rest == rest;
    } else {
      var more := Body(parts[1..], delim) + rest;
      BodyStarts(parts[1..], delim, rest);
      assert Readable(parts[0], delim);
      RawReadBack(parts[0], delim, more);
      BodyReadBack(parts[1..], delim, rest);
      assert Body(parts, delim) + rest == delim + (CRLF + (Block(parts[0]) + more));
      assert ReadAll(parts) == [Read(parts[0])] + ReadAll(parts[1..]);
      Associative([Read(parts[0])], ReadAll(parts[1..]), ParseFrom(rest, delim).parts);
    }
  }

  /** The content of a part comes back exactly if it is not a single character long. */
  lemma ContentExactly(r: RawPart)
    ensures Read(r).content == r.body <==> |r.body| != 1
  {
  }

  /** The form field "x" arrives empty. */
  lemma OneCharacterLost()
    ensures ParseFrom("--b\r\nk: v\r\n\r\nx\r\n--b--", "--b").parts
         == [Part(Fields(["k: v"]), TypeOf(Fields(["k: v"])), "")]
  {
    hide Fields, TypeOf, ParseFrom, Readable;
    var r := RawPart(["k: v"], "x");
    SmallReadable();
    Closes("--b", "");
    assert "--b" + ("--" + "") == "--b--";
    BodyReadBack([r], "--b", "--b--");
    SmallBody();
    assert ReadAll([r]) == [Read(r)];
  }

  lemma SmallReadable()
    ensures Readable(RawPart(["k: v"], "x"), "--b") && GoodDelimiter("--b")
  {
    assert Lines(["k: v"]) == "k: v" + CRLF + Lines([]);
    forall i: nat ensures !StartsAt("k: v", "--b", i) && !StartsAt("x", "--b", i) {
      FirstChar("k: v", "--b", i);
      FirstChar("x", "--b", i);
    }
  }

  lemma SmallBody()
    ensures Body([RawPart(["k: v"], "x")], "--b") + "--b--" == "--b\r\nk: v\r\n\r\nx\r\n--b--"
  {
    assert Lines(["k: v"]) == "k: v" + CRLF + Lines([]);
    assert [RawPart(["k: v"], "x")][1..] == [];
  }

  // ------------------------------------------------------------ what can follow

  /** The closing delimiter ends the body, whatever stands behind it. */
  lemma Closes(delim: string, epilogue: string)
    requires delim != ""
    ensures ParseFrom(delim + ("--" + epilogue), delim) == Parsed([], None)
  {
    var content := delim + ("--" + epilogue);
    assert content[..|delim|] == delim && content[|delim|..][..2] == "--";
  }

  /** A text that does not begin with the delimiter and two more characters is malformed. */
  lemma NoDelimiterMalformed(content: string, delim: string)
    requires delim != "" && content != "" && !(delim <= content && |content| >= |delim| + 2)
    ensures ParseFrom(content, delim) == Parsed([], Some(MalformedPayload))
  {
  }

  /** So is a delimiter followed by anything but two hyphens or a line break. */
  lemma OtherMalformed(delim: string, t: string)
    requires delim != "" && |t| >= 2 && t[..2] != "--" && t[..2] != "\r\n"
    ensures ParseFrom(delim + t, delim) == Parsed([], Some(MalformedPayload))
  {
    var content := delim + t;
    assert content[..|delim|] == delim && content[|delim|..] == t;
  }

  lemma AfterLine(delim: string, t: string)
    requires delim != ""
    ensures var content := delim + ("\r\n" + t);
            && content[..|delim|] == delim && content[|delim|..] == "\r\n" + t
            && content[|delim|..][..2] == "\r\n" && content[|delim|..][2..] == t
  {
  }

  /** And a part that is not followed by another delimiter. */
  lemma UnfinishedMalformed(delim: string, t: string)
    requires delim != "" && !Occurs(delim, t)
    ensures ParseFrom(delim + ("\r\n" + t), delim) == Parsed([], Some(MalformedPayload))
  {
    hide IndexOf, PartAt, HeadersEnd;
    AfterLine(delim, t);
    IndexOfFirst(t, delim);
  }

  /** Text without a blank line between two delimiters is taken for headers only, if it has at least four
      characters; otherwise it is malformed. */
  lemma HeadersOnly(delim: string, t: string, rest: string)
    requires delim != "" && delim <= rest && IndexOf(t + rest, delim) == Some(|t|) && !Occurs("\r\n\r\n", t + rest)
    ensures RoundOf(delim + ("\r\n" + (t + rest)), delim)
         == if |t| < 4 then Malformed else Found(Part(Headers(t), TypeOf(Headers(t)), ""), rest)
  {
    hide IndexOf, Headers, TypeOf;
    AfterLine(delim, t + rest);
    IndexOfFirst(t + rest, BLANK_LINE);
    assert (t + rest)[..|t|] == t && (t + rest)[|t|..] == rest;
  }

  /** Header lines of fewer than four characters in all are malformed. */
  lemma ShortHeadersMalformed(delim: string, t: string, end: nat)
    requires delim != "" && IndexOf(t, "\r\n\r\n") == Some(end) && end < 4
    ensures RoundOf(delim + ("\r\n" + t), delim) == Malformed
  {
    hide IndexOf, PartAt;
    AfterLine(delim, t);
  }

  /** A part without a Content-Type field has an empty content type. */
  lemma NoContentType(lines: seq<string>, body: string)
    requires "content-type" !in Fields(lines)
    ensures Read(RawPart(lines, body)).contentType == ""
  {
  }
}
