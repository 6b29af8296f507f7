/**
  `MimeMultipart::parse`: the search for the boundary parameter and the loop that cuts a body into
  parts.
 */
module MimeParser {
  import opened Searching
  import opened Splitting
  import opened MimeMessage
  import opened Wrappers

  /** A parsed part; its name and file name are not modelled. */
  datatype Part = Part(headers: HeadersMap, contentType: string, content: string)

  /** The two exceptions of the parser, by their codes 1 and 2. */
  datatype ParseError = NoBoundary | MalformedPayload

  /** The parts pushed before the end or the error. */
  datatype Parsed = Parsed(parts: seq<Part>, error: Option<ParseError>)

  const BLANK_LINE := "\r\n\r\n"

  function TypeOf(headers: HeadersMap): string {
    if "content-type" in headers then headers["content-type"] else ""
  }

  /** The part in front of the next boundary at `next`, with its headers ending at `headersEnd`. */
  function PartAt(content: string, headersEnd: nat, next: nat): Part
    requires headersEnd <= next <= |content|
  {
    var headers := Headers(content[..headersEnd]);
    Part(headers, TypeOf(headers),
         if next > headersEnd + 7 then content[headersEnd + 4..next - 2] else "")
  }

  function HeadersEnd(content: string, next: nat): (end: nat)
    ensures end <= next
  {
    match IndexOf(content, BLANK_LINE)
    case None => next
    case Some(end) => if end > next then next else end
  }

  /** What one round of the loop finds: the closing boundary, an error, or a part and the text
      from the next boundary on. */
  datatype Round = Closing | Malformed | Found(part: Part, rest: string)

  function RoundOf(content: string, delim: string): (r: Round)
    requires delim != "" && content != ""
    ensures r.Found? ==> |r.rest| < |content|
  {
    if |content| < |delim| + 2 || content[..|delim|] != delim then Malformed
    else
      var c := content[|delim|..];
      if c[..2] == "--" then Closing
      else if |c| < |delim| + 6 || c[..2] != CRLF then Malformed
      else
        var body := c[2..];
        IndexOfFirst(body, delim);
        match IndexOf(body, delim)
        case None => Malformed
        case Some(next) =>
          var end := HeadersEnd(body, next);
          if end < 4 then Malformed else Found(PartAt(body, end, next), body[next..])
  }

  function ParseFrom(content: string, delim: string): Parsed
    requires delim != ""
    decreases |content|
  {
    if content == "" then Parsed([], None)
    else
      match RoundOf(content, delim)
      case Closing => Parsed([], None)
      case Malformed => Parsed([], Some(MalformedPayload))
      case Found(part, rest) =>
        var r := ParseFrom(rest, delim);
        Parsed([part] + r.parts, r.error)
  }

  // ------------------------------------------------------------ the boundary parameter

  predicate IsBoundaryChar(c: char) {
    'A' <= c <= 'Z' || 'a' <= c <= 'z' || '0' <= c <= '9' || c in "'()+_,-./:=? "
  }

  /** The longest prefix of boundary characters. */
  function BoundaryRun(s: string): string
  {
    if s != "" && IsBoundaryChar(s[0]) then [s[0]] + BoundaryRun(s[1..]) else ""
  }

  const PARAMETER := "boundary="

  /** The capture of the left-most match of `boundary="?([...]+)"?`. */
  function FindBoundary(contentType: string): Option<string>
  {
    if StartsAt(contentType, PARAMETER, 0) then
      var r := contentType[|PARAMETER|..];
      var run := BoundaryRun(if r != "" && r[0] == '"' then r[1..] else r);
      if run != "" then Some(run) else FindBoundary(contentType[1..])
    else if contentType == "" then None
    else FindBoundary(contentType[1..])
  }

  /** The body of the parser's loop. */
  method ParseRound(content0: string, boundary: string) returns (round: Round)
    requires boundary != "" && content0 != "" && |content0| <= MAX_SIZE
    ensures round == RoundOf(content0, boundary)
  {
    hide Headers, IndexOf;
    var content := content0;
    if |content| < |boundary| + 2 || content[..|boundary|] != boundary {
      return Malformed;
    }
    content := content[|boundary|..];
    if content[..2] == "--" {
      return Closing;
    }
    if |content| < |boundary| + 6 || content[..2] != CRLF {
      return Malformed;
    }
    content := content[2..];
    var nextBoundaryPos := IndexOf(content, boundary);
    IndexOfFirst(content, boundary);
    if nextBoundaryPos.None? {
      return Malformed;
    }
    var headersEndPos := HeadersEnd(content, nextBoundaryPos.value);
    if headersEndPos < 4 {
      return Malformed;
    }
    var headers := ParseHeaders(content[..headersEndPos]);
    var currentPart := Part(headers, TypeOf(headers), "");
    if nextBoundaryPos.value > headersEndPos + 7 {
      currentPart := currentPart.(content := content[headersEndPos + 4..nextBoundaryPos.value - 2]);
    }
    return Found(currentPart, content[nextBoundaryPos.value..]);
  }

  // ------------------------------------------------------------ the parser object

  class MimeMultipart {
    var contentType: string
    var parts: seq<Part>

    constructor ()
      ensures contentType == "" && parts == []
    {
      contentType, parts := "", [];
    }

    /** Parts found before an error stay in the object; the content type is set at the end only. */
    method Parse(contentType0: string, content0: string) returns (error: Option<ParseError>)
      requires |content0| <= MAX_SIZE
      modifies this
      ensures match FindBoundary(contentType0)
              case None => error == Some(NoBoundary) && parts == old(parts) && contentType == old(contentType)
              case Some(b) =>
                var r := ParseFrom(content0, "--" + b);
                && parts == old(parts) + r.parts && error == r.error
                && contentType == if r.error.None? then contentType0[..FirstIndex(contentType0, ';')]
                                  else old(contentType)
    {
      hide FindBoundary, RoundOf;
      var boundaryMatch := FindBoundary(contentType0);
      if boundaryMatch.None? {
        return Some(NoBoundary);
      }
      var boundary := "--" + boundaryMatch.value;
      var content := content0;
      ghost var whole := ParseFrom(content0, boundary);
      while content != ""
        invariant contentType == old(contentType) && |content| <= MAX_SIZE
        invariant whole.error == ParseFrom(content, boundary).error
        invariant old(parts) + whole.parts == parts + ParseFrom(content, boundary).parts
        decreases |content|
      {
        var round := ParseRound(content, boundary);
        if round.Malformed? {
          return Some(MalformedPayload);
        }
        if round.Closing? {
          break;
        }
        parts := parts + [round.part];
        content := round.rest;
      }
      var semicolon := FindFirstOf(contentType0, ';');
      contentType := contentType0[..semicolon];
      return None;
    }

    method Clear()
      modifies this
      ensures contentType == "" && parts == []
    {
      contentType, parts := "", [];
    }
  }
}
