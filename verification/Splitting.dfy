/** `utils::splitString`, and the law that joining undoes it. */
module Splitting {
  /** The index of the first `c`, or the length. */
  function FirstIndex<T(==)>(s: seq<T>, c: T): (p: nat)
    ensures p <= |s| && (p < |s| ==> s[p] == c)
    ensures forall j :: 0 <= j < p ==> s[j] != c
  {
    if s == [] || s[0] == c then 0 else 1 + FirstIndex(s[1..], c)
  }

  /** The tokens between delimiters; a trailing empty token never exists, other empty tokens
      are dropped on demand. */
  function Split<T(==)>(s: seq<T>, delimiter: T, ignoreEmpty: bool): seq<seq<T>>
    decreases |s|
  {
    var p := FirstIndex(s, delimiter);
    if s == [] then []
    else if p == |s| then [s]
    else if ignoreEmpty && p == 0 then Split(s[p + 1..], delimiter, ignoreEmpty)
    else [s[..p]] + Split(s[p + 1..], delimiter, ignoreEmpty)
  }

  /** `find_first_of`, with the length in place of `npos`. */
  method FindFirstOf<T(==)>(s: seq<T>, c: T) returns (pos: nat)
    ensures pos == FirstIndex(s, c)
  {
    pos := 0;
    while pos < |s| && s[pos] != c
      invariant pos <= |s| && FirstIndex(s, c) == pos + FirstIndex(s[pos..], c)
    {
      assert s[pos..][1..] == s[pos + 1..];
      pos := pos + 1;
    }
  }

  ghost predicate AllShort<T>(parts: seq<seq<T>>, n: nat) {
    forall j :: 0 <= j < |parts| ==> |parts[j]| < n
  }

  lemma {:induction false} SplitShort<T>(s: seq<T>, delimiter: T, n: nat)
    requires |s| < n
    ensures AllShort(Split(s, delimiter, true), n)
    decreases |s|
  {
    var p := FirstIndex(s, delimiter);
    if p < |s| {
      SplitShort(s[p + 1..], delimiter, n);
    }
  }

  method SplitString<T(==)>(str0: seq<T>, delimiter: T, ignoreEmpty: bool) returns (ret: seq<seq<T>>)
    ensures ret == Split(str0, delimiter, ignoreEmpty)
  {
    ret := [];
    var str := str0;
    while str != []
      invariant Split(str0, delimiter, ignoreEmpty) == ret + Split(str, delimiter, ignoreEmpty)
      decreases |str|
    {
      hide FirstIndex;
      var pos := FindFirstOf(str, delimiter);
      var token := str[..pos];
      assert pos == |str| ==> token == str;
      if !ignoreEmpty || token != [] {
        ret := ret + [token];
      }
      if pos < |str| {
        str := str[pos + 1..];
      } else {
        break;
      }
    }
  }

  /** The tokens written one after the other with delimiters in between. */
  function Join<T>(parts: seq<seq<T>>, delimiter: T): seq<T>
  {
    if parts == [] then []
    else if |parts| == 1 then parts[0]
    else parts[0] + [delimiter] + Join(parts[1..], delimiter)
  }

  lemma {:induction false} JoinAppend<T>(parts: seq<seq<T>>, part: seq<T>, delimiter: T)
    ensures Join(parts + [part], delimiter)
         == if parts == [] then part else Join(parts, delimiter) + [delimiter] + part
  {
    if |parts| > 0 {
      assert (parts + [part])[1..] == parts[1..] + [part];
      JoinAppend(parts[1..], part, delimiter);
    }
  }

  ghost predicate Proper<T>(part: seq<T>, delimiter: T) {
    part != [] && delimiter !in part
  }

  ghost predicate AllProper<T>(parts: seq<seq<T>>, delimiter: T) {
    forall j :: 0 <= j < |parts| ==> Proper(parts[j], delimiter)
  }

  /** No token of `s` is empty: no delimiter comes first, last, or directly after another. */
  ghost predicate NoEmptyToken<T>(s: seq<T>, delimiter: T) {
    s != [] ==>
      && s[0] != delimiter && s[|s| - 1] != delimiter
      && forall j :: 0 < j < |s| ==> s[j - 1] != delimiter || s[j] != delimiter
  }

  lemma {:induction false} FirstIndexIs<T>(s: seq<T>, c: T, p: nat)
    requires p <= |s| && (p < |s| ==> s[p] == c) && forall j :: 0 <= j < p ==> s[j] != c
    ensures FirstIndex(s, c) == p
  {
  }

  lemma {:induction false} SplitProper<T>(s: seq<T>, delimiter: T)
    ensures AllProper(Split(s, delimiter, true), delimiter)
    decreases |s|
  {
    if s != [] {
      var p := FirstIndex(s, delimiter);
      assert p > 0 ==> Proper(s[..p], delimiter);
      assert s[..|s|] == s;
      hide FirstIndex, Proper;
      if p < |s| { SplitProper(s[p + 1..], delimiter); }
    }
  }

  lemma {:induction false} SplitJoin<T>(parts: seq<seq<T>>, delimiter: T)
    requires AllProper(parts, delimiter)
    ensures Split(Join(parts, delimiter), delimiter, true) == parts
  {
    if parts != [] {
      var s := Join(parts, delimiter);
      assert Proper(parts[0], delimiter);
      FirstIndexIs(s, delimiter, |parts[0]|);
      SplitJoin(parts[1..], delimiter);
      assert s[..|parts[0]|] == parts[0];
      if |parts| > 1 {
        assert s[|parts[0]| + 1..] == Join(parts[1..], delimiter);
      }
    }
  }

  lemma NoEmptyTail<T>(s: seq<T>, delimiter: T)
    requires var p := FirstIndex(s, delimiter); 0 < p < |s|
    ensures var rest := s[FirstIndex(s, delimiter) + 1..];
            NoEmptyToken(s, delimiter) <==> rest != [] && NoEmptyToken(rest, delimiter)
  {
    var p := FirstIndex(s, delimiter);
    var rest := s[p + 1..];
    assert forall j :: 0 <= j < |rest| ==> rest[j] == s[p + 1 + j];
    if rest != [] && NoEmptyToken(rest, delimiter) {
      assert rest[|rest| - 1] == s[|s| - 1];
      forall j | 0 < j < |s| ensures s[j - 1] != delimiter || s[j] != delimiter {
        if j > p + 1 { assert rest[j - p - 2] == s[j - 1] && rest[j - p - 1] == s[j]; }
      }
    }
    if NoEmptyToken(s, delimiter) {
      assert rest != [] && rest[|rest| - 1] == s[|s| - 1] && rest[0] == s[p + 1];
      forall j | 0 < j < |rest| ensures rest[j - 1] != delimiter || rest[j] != delimiter {
        assert s[p + j] == rest[j - 1] && s[p + 1 + j] == rest[j];
      }
    }
  }

  /** `parts` is what is left of `s` without its empty tokens. */
  ghost predicate Survives<T>(parts: seq<seq<T>>, s: seq<T>, delimiter: T) {
    && |Join(parts, delimiter)| <= |s|
    && (|Join(parts, delimiter)| == |s| <==> NoEmptyToken(s, delimiter))
    && (NoEmptyToken(s, delimiter) ==> Join(parts, delimiter) == s)
  }

  lemma SurvivesLast<T>(s: seq<T>, delimiter: T)
    requires var p := FirstIndex(s, delimiter);
             0 < p < |s| && Survives([], s[p + 1..], delimiter)
    ensures Survives([s[..FirstIndex(s, delimiter)]], s, delimiter)
  {
    NoEmptyTail(s, delimiter);
  }

  lemma SurvivesMore<T>(tail: seq<seq<T>>, s: seq<T>, delimiter: T)
    requires var p := FirstIndex(s, delimiter);
             0 < p && p + 1 < |s| && Survives(tail, s[p + 1..], delimiter) && tail != []
    ensures Survives([s[..FirstIndex(s, delimiter)]] + tail, s, delimiter)
  {
    var p := FirstIndex(s, delimiter);
    NoEmptyTail(s, delimiter);
    hide NoEmptyToken, FirstIndex;
    JoinCons(s[..p], tail, delimiter);
    hide Join;
    assert s == s[..p] + [delimiter] + s[p + 1..];
  }

  /** Dropping empty tokens loses at least one delimiter for each of them. */
  lemma {:induction false} JoinSplit<T>(s: seq<T>, delimiter: T)
    ensures Survives(Split(s, delimiter, true), s, delimiter)
    decreases |s|
  {
    var p := FirstIndex(s, delimiter);
    if 0 < p < |s| {
      JoinSplit(s[p + 1..], delimiter);
      var tail := Split(s[p + 1..], delimiter, true);
      if tail == [] { SurvivesLast(s, delimiter); } else { SurvivesMore(tail, s, delimiter); }
      assert tail == [] ==> [s[..p]] + tail == [s[..p]];
      hide Survives;
    } else if p < |s| {
      JoinSplit(s[1..], delimiter);
    }
  }

  lemma JoinCons<T>(part: seq<T>, parts: seq<seq<T>>, delimiter: T)
    ensures Join([part] + parts, delimiter)
         == if parts == [] then part else part + [delimiter] + Join(parts, delimiter)
  {
    assert ([part] + parts)[1..] == parts;
  }

  ghost predicate AllWithout<T>(parts: seq<seq<T>>, delimiter: T) {
    forall j :: 0 <= j < |parts| ==> delimiter !in parts[j]
  }

  ghost predicate Restores<T>(parts: seq<seq<T>>, s: seq<T>, delimiter: T) {
    && AllWithout(parts, delimiter) && (s == [] <==> parts == [])
    && s == Join(parts, delimiter) + (if s != [] && s[|s| - 1] == delimiter then [delimiter] else [])
  }

  lemma RestoresNone<T>(delimiter: T)
    ensures Restores([], [], delimiter)
  {
  }

  lemma RestoresOne<T>(s: seq<T>, delimiter: T)
    requires delimiter !in s && s != []
    ensures Restores([s], s, delimiter)
  {
  }

  lemma RestoresMore<T>(part: seq<T>, parts: seq<seq<T>>, rest: seq<T>, delimiter: T)
    requires delimiter !in part && Restores(parts, rest, delimiter)
    ensures Restores([part] + parts, part + [delimiter] + rest, delimiter)
  {
    JoinCons(part, parts, delimiter);
    var s := part + [delimiter] + rest;
    if rest == [] {
      assert Join(parts, delimiter) == [] && s == part + [delimiter];
    } else {
      assert rest[|rest| - 1] == s[|s| - 1];
    }
    hide Join;
  }

  /** With the empty tokens the string comes back, but for a delimiter at its end. */
  lemma {:induction false} AllTokens<T>(s: seq<T>, delimiter: T)
    ensures Restores(Split(s, delimiter, false), s, delimiter)
    decreases |s|
  {
    hide FirstIndex, Restores;
    var p := FirstIndex(s, delimiter);
    if p < |s| {
      AllTokens(s[p + 1..], delimiter);
      RestoresMore(s[..p], Split(s[p + 1..], delimiter, false), s[p + 1..], delimiter);
      assert s == s[..p] + [delimiter] + s[p + 1..];
    } else if s != [] {
      RestoresOne(s, delimiter);
    } else {
      RestoresNone<T>(delimiter);
    }
  }

  function NonEmpty<T(==)>(parts: seq<seq<T>>): seq<seq<T>> {
    if parts == [] then []
    else if parts[0] == [] then NonEmpty(parts[1..])
    else [parts[0]] + NonEmpty(parts[1..])
  }

  /** Ignoring them leaves out the empty tokens and no other. */
  lemma {:induction false} EmptyIgnored<T>(s: seq<T>, delimiter: T)
    ensures Split(s, delimiter, true) == NonEmpty(Split(s, delimiter, false))
    decreases |s|
  {
    var p := FirstIndex(s, delimiter);
    hide FirstIndex;
    if p < |s| {
      EmptyIgnored(s[p + 1..], delimiter);
      assert ([s[..p]] + Split(s[p + 1..], delimiter, false))[1..] == Split(s[p + 1..], delimiter, false);
    } else if s != [] {
      assert [s][1..] == [];
    }
  }
}
