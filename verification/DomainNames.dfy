/**
  `encoding::punycodeEncode` and `encoding::punycodeDecode`: the label codec lifted to dotted
  domain names.  A domain is the sequence of its code points; the conversions from and to UTF-8
  are not modelled, but a label's UTF-8 length is, since the buffers are sized by it.
 */
module DomainNames {
  import opened PunycodeVarInt
  import opened PunycodeSpec
  import opened PunycodeRoundTrip
  import opened PunycodeSize
  import opened PunycodeCodec
  import opened Splitting

  const DOT: UInt32 := 0x2E

  /** Domains up to this length keep all buffers below MAX_POINTS. */
  const MAX_DOMAIN: nat := 0x400_0000

  type Domain = d: CodePoints | |d| < MAX_DOMAIN && AllBelow(d, UNICODE_LIMIT) witness []

  const XN := "xn--"

  /** `part.substr(0, 4) == "xn--"` */
  predicate HasPrefix(part: CodePoints) {
    Points(XN) <= part
  }

  /** A label is compared with its own encoding: the two are equal as bytes exactly when all code
      points of the label are basic and the same characters. */
  function EncodeLabel(part: Label): CodePoints {
    var pret := Points(Encode(part));
    if pret != part then Points(XN) + pret else pret
  }

  /** A byte above 127 makes the decoder return nothing. */
  function DecodeLabel(part: Label): CodePoints {
    if !HasPrefix(part) then part
    else
      var rest := part[4..];
      if AllBelow(rest, INITIAL_N) then Decode(Chars(rest), |rest|).out else []
  }

  predicate AsciiWithPrefix(part: CodePoints) {
    AllBelow(part, INITIAL_N) && HasPrefix(part)
  }

  // ------------------------------------------------------------ one label

  lemma CharsOfPoints(s: string)
    requires IsAscii(s)
    ensures AllBelow(Points(s), INITIAL_N) && Chars(Points(s)) == s
  {
    forall j | 0 <= j < |s| ensures Points(s)[j] < INITIAL_N {
      assert s[j] in s;
    }
    assert forall j :: 0 <= j < |s| ==> Chars(Points(s))[j] == s[j];
  }

  /** A label comes back unless it is an ASCII label that looks encoded; then it gets shorter. */
  lemma LabelRoundTrip(part: Label)
    requires AllBelow(part, UNICODE_LIMIT) && |part| < MAX_DOMAIN
    ensures |EncodeLabel(part)| < MAX_POINTS
    ensures if AsciiWithPrefix(part) then |DecodeLabel(EncodeLabel(part))| < |part|
            else DecodeLabel(EncodeLabel(part)) == part
  {
    hide Encode, Decode, Utf8Length;
    var s := Encode(part);
    BufferSuffices(part);
    Utf8AtMost(part);
    if AllBelow(part, INITIAL_N) {
      BasicFixed(part);
    } else {
      EncodeIsAscii(part);
      CharsOfPoints(s);
      assert Points(s) != part;
      BelowAll(part, INITIAL_N);
      EncodeAtLeast(part);
      EncodeDecode(part, |s|);
      assert EncodeLabel(part)[4..] == Points(s);
    }
  }

  /** An encoded label is not empty and has no dot. */
  lemma LabelProper(part: Label)
    requires Proper(part, DOT)
    ensures Proper(EncodeLabel(part), DOT)
  {
    hide NextSweep, Basics;
    EncodeAtLeast(part);
    NextSweepIsDigits(part, INITIAL_N, 0, INITIAL_BIAS);
    BasicsFrom(part);
    var s := Encode(part);
    assert '.' !in s;
    assert forall j :: 0 <= j < |s| ==> Points(s)[j] != DOT;
  }

  lemma BasicsFrom(part: CodePoints)
    requires DOT !in part
    ensures '.' !in Basics(part)
  {
    BelowIsBelow(part, INITIAL_N);
    BelowFrom(part, INITIAL_N);
  }

  lemma {:induction false} BelowFrom(s: CodePoints, n: nat)
    ensures forall j :: 0 <= j < |Below(s, n)| ==> Below(s, n)[j] in s
  {
    if s != [] {
      BelowFrom(s[1..], n);
    }
  }

  // ------------------------------------------------------------ all labels

  function EncodeParts(parts: seq<CodePoints>): (r: seq<CodePoints>)
    requires AllShort(parts, MAX_POINTS)
    ensures |r| == |parts|
  {
    if parts == [] then [] else [EncodeLabel(parts[0])] + EncodeParts(parts[1..])
  }

  function DecodeParts(parts: seq<CodePoints>): (r: seq<CodePoints>)
    requires AllShort(parts, MAX_POINTS)
    ensures |r| == |parts|
  {
    if parts == [] then [] else [DecodeLabel(parts[0])] + DecodeParts(parts[1..])
  }

  function DomainEncode(d: Label): CodePoints {
    SplitShort(d, DOT, MAX_POINTS);
    Join(EncodeParts(Split(d, DOT, true)), DOT)
  }

  function DomainDecode(d: Label): CodePoints {
    SplitShort(d, DOT, MAX_POINTS);
    Join(DecodeParts(Split(d, DOT, true)), DOT)
  }

  ghost predicate AllValid(parts: seq<CodePoints>) {
    forall j :: 0 <= j < |parts| ==>
      Proper(parts[j], DOT) && |parts[j]| < MAX_DOMAIN && AllBelow(parts[j], UNICODE_LIMIT)
  }

  lemma {:induction false} SplitValid(d: CodePoints)
    requires |d| < MAX_DOMAIN && AllBelow(d, UNICODE_LIMIT)
    ensures AllValid(Split(d, DOT, true))
    decreases |d|
  {
    var p := FirstIndex(d, DOT);
    if p < |d| {
      SplitValid(d[p + 1..]);
    }
  }

  ghost predicate NoneLooksEncoded(parts: seq<CodePoints>) {
    forall j :: 0 <= j < |parts| ==> !AsciiWithPrefix(parts[j])
  }

  /** All labels through the encoder and back. */
  lemma {:induction false} PartsRoundTrip(parts: seq<CodePoints>)
    requires AllValid(parts) && AllShort(parts, MAX_POINTS)
    ensures AllProper(EncodeParts(parts), DOT) && AllShort(EncodeParts(parts), MAX_POINTS)
    ensures |Join(EncodeParts(parts), DOT)| <= 20 * |Join(parts, DOT)|
    ensures var back := DecodeParts(EncodeParts(parts));
            if NoneLooksEncoded(parts) then back == parts else |Join(back, DOT)| < |Join(parts, DOT)|
  {
    hide EncodeLabel, DecodeLabel, AsciiWithPrefix;
    if parts != [] {
      var first, rest := parts[0], parts[1..];
      LabelProper(first);
      LabelRoundTrip(first);
      LabelLength(first);
      PartsRoundTrip(rest);
      assert parts == [first] + rest;
      assert EncodeParts(parts)[1..] == EncodeParts(rest);
      assert DecodeParts(EncodeParts(parts))
          == [DecodeLabel(EncodeLabel(first))] + DecodeParts(EncodeParts(rest));
      JoinCons(first, rest, DOT);
      JoinCons(EncodeLabel(first), EncodeParts(rest), DOT);
      JoinCons(DecodeLabel(EncodeLabel(first)), DecodeParts(EncodeParts(rest)), DOT);
      NoneCons(first, rest);
    }
  }

  lemma NoneCons(first: CodePoints, rest: seq<CodePoints>)
    ensures NoneLooksEncoded([first] + rest) <==> !AsciiWithPrefix(first) && NoneLooksEncoded(rest)
  {
    hide AsciiWithPrefix;
    var all := [first] + rest;
    assert all[0] == first && forall j :: 0 <= j < |rest| ==> all[j + 1] == rest[j];
  }

  lemma LabelLength(part: Label)
    requires AllBelow(part, UNICODE_LIMIT) && part != []
    ensures |EncodeLabel(part)| <= 20 * |part|
  {
    hide Encode;
    BufferSuffices(part);
    Utf8AtMost(part);
  }

  // ------------------------------------------------------------ the laws

  /** Domains for which encoding is reversible. */
  ghost predicate Reversible(d: Domain) {
    NoEmptyToken(d, DOT) && NoneLooksEncoded(Split(d, DOT, true))
  }

  /** Decoding an encoded domain gives the domain back exactly when it has no empty label and no
      ASCII label that starts with "xn--". */
  lemma DomainRoundTrip(d: Domain)
    ensures |DomainEncode(d)| < MAX_POINTS
    ensures DomainDecode(DomainEncode(d)) == d <==> Reversible(d)
  {
    var parts := Split(d, DOT, true);
    SplitShort(d, DOT, MAX_POINTS);
    SplitValid(d);
    JoinSplit(d, DOT);
    PartsRoundTrip(parts);
    SplitJoin(EncodeParts(parts), DOT);
  }

  lemma {:induction false} BasicParts(d: CodePoints)
    requires |d| < MAX_DOMAIN && AllBelow(d, INITIAL_N)
    ensures AllShort(Split(d, DOT, true), MAX_POINTS)
    ensures EncodeParts(Split(d, DOT, true)) == Split(d, DOT, true)
    decreases |d|
  {
    hide EncodeLabel;
    SplitShort(d, DOT, MAX_POINTS);
    var p := FirstIndex(d, DOT);
    if d != [] { LabelFixed(d[..p]); }
    if p < |d| {
      BasicParts(d[p + 1..]);
    } else if d != [] {
      assert d[..p] == d && EncodeParts([]) == [];
    }
  }

  lemma LabelFixed(part: Label)
    requires AllBelow(part, INITIAL_N)
    ensures EncodeLabel(part) == part
  {
    hide Encode;
    BasicFixed(part);
  }

  lemma {:induction false} EncodedIsBasic(parts: seq<CodePoints>)
    requires AllShort(parts, MAX_POINTS)
    ensures AllBelow(Join(EncodeParts(parts), DOT), INITIAL_N)
  {
    if parts != [] {
      EncodedIsBasic(parts[1..]);
      hide Encode, EncodeParts;
      EncodeIsAscii(parts[0]);
      CharsOfPoints(Encode(parts[0]));
      CharsOfPoints(XN);
      assert EncodeParts(parts) == [EncodeLabel(parts[0])] + EncodeParts(parts[1..]) by { EncodePartsCons(parts); }
      JoinCons(EncodeLabel(parts[0]), EncodeParts(parts[1..]), DOT);
    }
  }

  lemma EncodePartsCons(parts: seq<CodePoints>)
    requires AllShort(parts, MAX_POINTS) && parts != []
    ensures EncodeParts(parts) == [EncodeLabel(parts[0])] + EncodeParts(parts[1..])
  {
  }

  /** Exactly the ASCII domains without empty labels are returned as they are. */
  lemma DomainFixedPoints(d: Domain)
    ensures DomainEncode(d) == d <==> NoEmptyToken(d, DOT) && AllBelow(d, INITIAL_N)
  {
    var parts := Split(d, DOT, true);
    SplitShort(d, DOT, MAX_POINTS);
    JoinSplit(d, DOT);
    EncodedIsBasic(parts);
    if AllBelow(d, INITIAL_N) { BasicParts(d); }
  }

  /** What a label is encoded as: basic labels as they are, all others with "xn--" in front. */
  lemma EncodedLabel(part: Label)
    ensures EncodeLabel(part) == if AllBelow(part, 128) then part else Points("xn--" + Encode(part))
  {
    hide Encode;
    if AllBelow(part, 128) {
      BasicFixed(part);
    } else {
      EncodeIsAscii(part);
      CharsOfPoints(Encode(part));
      assert Points("xn--" + Encode(part)) == Points("xn--") + Points(Encode(part));
    }
  }

  /** What a label is decoded as: behind "xn--" the decoder's result, nothing if there is a byte above
      127; all other labels as they are. */
  lemma DecodedLabel(part: Label, t: string)
    requires |t| < MAX_POINTS
    ensures part == Points("xn--" + t) ==> DecodeLabel(part) == if IsAscii(t) then Decode(t, |t|).out else []
    ensures !(Points("xn--") <= part) ==> DecodeLabel(part) == part
  {
    hide Decode;
    if part == Points("xn--" + t) {
      assert Points("xn--" + t) == Points("xn--") + Points(t);
      assert part[4..] == Points(t);
      if IsAscii(t) {
        CharsOfPoints(t);
      } else {
        var c :| c in t && c >= 128 as char;
        var j :| 0 <= j < |t| && t[j] == c;
        assert Points(t)[j] >= 128;
      }
    }
  }

  lemma {:induction false} PartsAt(parts: seq<CodePoints>, j: nat)
    requires AllShort(parts, MAX_POINTS) && j < |parts|
    ensures EncodeParts(parts)[j] == EncodeLabel(parts[j]) && DecodeParts(parts)[j] == DecodeLabel(parts[j])
  {
    hide EncodeLabel, DecodeLabel;
    if j > 0 {
      PartsAt(parts[1..], j - 1);
    }
  }

  /** Domains are encoded and decoded label by label, between full stops. */
  lemma LabelByLabel(d: Label, parts: seq<CodePoints>)
    requires AllProper(parts, 0x2E) && d == Join(parts, 0x2E)
    ensures AllShort(parts, MAX_POINTS)
    ensures DomainEncode(d) == Join(EncodeParts(parts), 0x2E) && DomainDecode(d) == Join(DecodeParts(parts), 0x2E)
  {
    hide EncodeLabel, DecodeLabel;
    SplitJoin(parts, 0x2E);
    SplitShort(d, DOT, MAX_POINTS);
  }

  // ------------------------------------------------------------ the methods

  lemma {:induction false} EncodePartsAppend(parts: seq<CodePoints>, part: Label)
    requires AllShort(parts, MAX_POINTS)
    ensures AllShort(parts + [part], MAX_POINTS)
    ensures EncodeParts(parts + [part]) == EncodeParts(parts) + [EncodeLabel(part)]
  {
    if parts != [] {
      assert (parts + [part])[1..] == parts[1..] + [part];
      EncodePartsAppend(parts[1..], part);
    }
  }

  lemma {:induction false} DecodePartsAppend(parts: seq<CodePoints>, part: Label)
    requires AllShort(parts, MAX_POINTS)
    ensures AllShort(parts + [part], MAX_POINTS)
    ensures DecodeParts(parts + [part]) == DecodeParts(parts) + [DecodeLabel(part)]
  {
    if parts != [] {
      assert (parts + [part])[1..] == parts[1..] + [part];
      DecodePartsAppend(parts[1..], part);
    }
  }

  method PunycodeEncodeDomain(input: Domain) returns (ret: CodePoints)
    ensures ret == DomainEncode(input)
  {
    hide EncodeLabel, EncodeParts, Join, Split, AllValid;
    var parts := SplitString(input, DOT, true);
    SplitShort(input, DOT, MAX_POINTS);
    SplitValid(input);
    ret := [];
    JoinNone();
    for k := 0 to |parts|
      invariant AllShort(parts[..k], MAX_POINTS) && ret == Join(EncodeParts(parts[..k]), DOT)
    {
      var part := parts[k];
      PartOf(parts, k);
      assert parts[..k + 1] == parts[..k] + [part];
      EncodePartsAppend(parts[..k], part);
      JoinAppend(EncodeParts(parts[..k]), EncodeLabel(part), DOT);
      var name := EncodeOneLabel(part);
      ret := if k == 0 then name else ret + [DOT] + name;
    }
    assert parts[..|parts|] == parts;
  }

  lemma JoinNone()
    ensures Join(EncodeParts([]), DOT) == [] && Join(DecodeParts([]), DOT) == []
  {
  }

  lemma PartOf(parts: seq<CodePoints>, k: nat)
    requires AllValid(parts) && k < |parts|
    ensures |parts[k]| < MAX_DOMAIN && AllBelow(parts[k], UNICODE_LIMIT)
  {
  }

  method EncodeOneLabel(part: Label) returns (name: CodePoints)
    requires AllBelow(part, UNICODE_LIMIT)
    ensures name == EncodeLabel(part)
  {
    hide Encode, Utf8Length;
    var buffer := new char[4 * Utf8Length(part)];
    var converted, written := PunycodeEncode(part, buffer);
    BufferSuffices(part);
    var pret := Points(buffer[..written]);
    name := if pret != part then Points(XN) + pret else pret;
  }

  method PunycodeDecodeDomain(input: Label) returns (ret: CodePoints)
    ensures ret == DomainDecode(input)
  {
    hide DecodeLabel, DecodeParts, Join, Split;
    var parts := SplitString(input, DOT, true);
    SplitShort(input, DOT, MAX_POINTS);
    ret := [];
    JoinNone();
    for k := 0 to |parts|
      invariant AllShort(parts[..k], MAX_POINTS) && ret == Join(DecodeParts(parts[..k]), DOT)
    {
      var part := parts[k];
      assert parts[..k + 1] == parts[..k] + [part];
      DecodePartsAppend(parts[..k], part);
      JoinAppend(DecodeParts(parts[..k]), DecodeLabel(part), DOT);
      var name := DecodeOneLabel(part);
      ret := if k == 0 then name else ret + [DOT] + name;
    }
    assert parts[..|parts|] == parts;
  }

  method DecodeOneLabel(part: Label) returns (name: CodePoints)
    ensures name == DecodeLabel(part)
  {
    hide Decode;
    if !HasPrefix(part) {
      return part;
    }
    var rest := part[4..];
    if !AllBelow(rest, INITIAL_N) {
      return [];
    }
    var wpret := new UInt32[|rest|];
    var used, written := PunycodeDecode(Chars(rest), wpret);
    name := wpret[..written];
  }
}
