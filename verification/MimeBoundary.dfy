/**
  Which boundary `MimeMultipart::parse` finds in a content type: the left-most occurrence of the
  parameter name that is followed, perhaps behind a quote, by a character of a boundary; and all such
  characters that follow.
 */
module MimeBoundary {
  import opened Searching
  import opened MimeParser
  import opened Wrappers
  import Base64

  /** The character class of the pattern */
  const CLASS := Base64.ALPHABET[..62] + "'()+_,-./:=? "

  lemma ClassIs(c: char)
    ensures IsBoundaryChar(c) <==> c in CLASS
  {
    var letters := Base64.ALPHABET[..62];
    forall i | 0 <= i < 62 ensures letters[i] == Base64.Symbol(i) { Base64.AlphabetIs(i); }
    if 'A' <= c <= 'Z' {
      assert letters[(c - 'A') as int] == c;
    } else if 'a' <= c <= 'z' {
      assert letters[26 + (c - 'a') as int] == c;
    } else if '0' <= c <= '9' {
      assert letters[52 + (c - '0') as int] == c;
    }
    hide Base64.ALPHABET;
    assert c in CLASS <==> c in letters || c in "'()+_,-./:=? ";
  }

  /** The text behind an optional quote */
  function Unquoted(r: string): string {
    if r != "" && r[0] == '"' then r[1..] else r
  }

  /** The parameter stands at `i`, with at least one boundary character. */
  predicate HasParameter(s: string, i: nat) {
    StartsAt(s, "boundary=", i) && var r := Unquoted(s[i + 9..]); r != "" && r[0] in CLASS
  }

  /** `b` is the longest prefix of `r` in the character class. */
  ghost predicate LongestRun(b: string, r: string) {
    && b <= r && (forall j :: 0 <= j < |b| ==> b[j] in CLASS)
    && (|b| < |r| ==> r[|b|] !in CLASS)
  }

  lemma {:induction false} RunIsLongest(r: string)
    ensures LongestRun(BoundaryRun(r), r)
  {
    hide CLASS, IsBoundaryChar;
    if r != "" {
      ClassIs(r[0]);
      RunIsLongest(r[1..]);
    }
  }

  lemma ParameterHere(s: string)
    ensures StartsAt(s, PARAMETER, 0) <==> StartsAt(s, "boundary=", 0)
    ensures HasParameter(s, 0) ==> FindBoundary(s) == Some(BoundaryRun(Unquoted(s[9..])))
    ensures !HasParameter(s, 0) ==> FindBoundary(s) == if s == "" then None else FindBoundary(s[1..])
  {
    if StartsAt(s, "boundary=", 0) {
      var r := Unquoted(s[9..]);
      if r != "" { ClassIs(r[0]); }
    }
    hide CLASS, IsBoundaryChar;
  }

  lemma ParameterLater(s: string, i: nat)
    requires s != "" && i > 0
    ensures HasParameter(s, i) <==> HasParameter(s[1..], i - 1)
  {
    hide CLASS;
    if i + 9 <= |s| {
      assert s[1..][i - 1..i - 1 + 9] == s[i..i + 9];
      assert s[1..][i - 1 + 9..] == s[i + 9..];
    }
  }

  /** The search finds the left-most parameter, and all of its value. */
  lemma {:induction false} FindsFirst(s: string) returns (i: nat)
    ensures match FindBoundary(s)
            case None => forall j: nat :: !HasParameter(s, j)
            case Some(b) =>
              && HasParameter(s, i) && (forall j: nat :: j < i ==> !HasParameter(s, j))
              && b != "" && LongestRun(b, Unquoted(s[i + 9..]))
  {
    hide FindBoundary, HasParameter, LongestRun;
    ParameterHere(s);
    i := 0;
    if HasParameter(s, 0) {
      FoundHere(s);
    } else if s != "" {
      var k := FindsFirst(s[1..]);
      forall j: nat | j > 0 ensures HasParameter(s, j) <==> HasParameter(s[1..], j - 1) { ParameterLater(s, j); }
      if FindBoundary(s).Some? {
        i := k + 1;
        assert s[1..][k + 9..] == s[i + 9..] by { ParameterFits(s[1..], k); }
      }
    } else {
      NoParameter();
    }
  }

  lemma ParameterFits(s: string, k: nat)
    requires HasParameter(s, k)
    ensures k + 9 <= |s|
  {
  }

  lemma NoParameter()
    ensures forall j: nat :: !HasParameter("", j)
  {
  }

  lemma FoundHere(s: string)
    requires HasParameter(s, 0)
    ensures |s| >= 9 && var r := Unquoted(s[9..]); BoundaryRun(r) != "" && LongestRun(BoundaryRun(r), r)
  {
    var r := Unquoted(s[9..]);
    ClassIs(r[0]);
    RunIsLongest(r);
    hide CLASS;
  }

  /** No boundary is found exactly if the parameter occurs nowhere. */
  lemma NoneExactly(s: string)
    ensures FindBoundary(s) == None <==> forall j: nat :: !HasParameter(s, j)
  {
    hide FindBoundary, HasParameter;
    var i := FindsFirst(s);
  }

  /** The name of the parameter does not overlap itself. */
  lemma NameNotSplit(a: string, r: string, i: nat)
    requires i < |a| && StartsAt(a + "boundary=" + r, "boundary=", i)
    ensures Occurs("boundary=", a)
  {
    var s := a + "boundary=" + r;
    assert s == a + ("boundary=" + r);
    if i + 9 <= |a| {
      assert s[i..i + 9] == a[i..i + 9];
      assert StartsAt(a, "boundary=", i);
    } else {
      var k := |a| - i;
      assert s[i..i + 9][k] == s[|a|] == 'b';
      NoOtherB(k);
    }
  }

  lemma NoOtherB(k: nat)
    requires 0 < k < 9
    ensures "boundary="[k] != 'b'
  {
  }

  lemma ValueHere(a: string, q: string, b: string, rest: string)
    requires (q == "" || q == "\"") && b != "" && b[0] in CLASS
    ensures var s := a + "boundary=" + (q + b + rest);
            HasParameter(s, |a|) && |a| + 9 <= |s| && Unquoted(s[|a| + 9..]) == b + rest
  {
    QuoteNotInClass();
    hide CLASS;
    var s := a + "boundary=" + (q + b + rest);
    assert s[|a| + 9..] == q + b + rest && s[|a|..|a| + 9] == "boundary=";
    if q == "" { assert q + b + rest == b + rest; } else { assert (q + b + rest)[1..] == b + rest; }
  }

  /** A parameter behind a text without its name: its value is found, with or without quotes. */
  lemma ValueFound(a: string, b: string, rest: string, quoted: bool)
    requires !Occurs("boundary=", a) && b != "" && (forall j :: 0 <= j < |b| ==> b[j] in CLASS)
    requires rest != "" ==> rest[0] !in CLASS
    ensures FindBoundary(a + "boundary=" + ((if quoted then "\"" else "") + b + rest)) == Some(b)
  {
    hide FindBoundary, CLASS, Occurs, HasParameter, LongestRun, Unquoted;
    var q := if quoted then "\"" else "";
    var s := a + "boundary=" + (q + b + rest);
    ValueHere(a, q, b, rest);
    var i := FindsFirst(s);
    if i < |a| {
      ParameterStarts(s, i);
      NameNotSplit(a, q + b + rest, i);
    }
    RunUnique(FindBoundary(s).value, b, rest);
  }

  lemma ParameterStarts(s: string, i: nat)
    requires HasParameter(s, i)
    ensures StartsAt(s, "boundary=", i)
  {
  }

  lemma QuoteNotInClass()
    ensures '"' !in CLASS
  {
    ClassIs('"');
  }

  lemma RunUnique(x: string, b: string, rest: string)
    requires LongestRun(x, b + rest) && (forall j :: 0 <= j < |b| ==> b[j] in CLASS)
    requires rest != "" ==> rest[0] !in CLASS
    ensures x == b
  {
    hide CLASS;
    var s := b + rest;
    assert forall j :: 0 <= j < |b| ==> s[j] == b[j];
    assert rest != "" ==> s[|b|] == rest[0];
    assert forall j :: 0 <= j < |x| ==> x[j] == s[j];
  }
}
