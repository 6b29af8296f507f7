/**
  `utils::regexReplaceCallback`.  The matching itself is the regular-expression library's; it hands
  out, for every match, the text before it, the whole match and its capture groups, and after the
  last match the remaining text unless that is empty.
 */
module RegexReplace {
  /** The text before a match, the match, and its capture groups. */
  datatype Match = Match(prefix: string, groups: seq<string>)

  /** What the token iterator yields for the sub-match list -1, 0, ..., marks. */
  function Tokens(ms: seq<Match>, suffix: string): seq<string>
  {
    if ms == [] then (if suffix == "" then [] else [suffix])
    else [ms[0].prefix] + (ms[0].groups + Tokens(ms[1..], suffix))
  }

  ghost predicate Callable(ms: seq<Match>, marks: nat, fmt: seq<string> --> string) {
    forall j :: 0 <= j < |ms| ==> |ms[j].groups| == marks + 1 && fmt.requires(ms[j].groups)
  }

  /** The text with every match replaced. */
  ghost function Replaced(ms: seq<Match>, suffix: string, marks: nat, fmt: seq<string> --> string): string
    requires Callable(ms, marks, fmt)
  {
    if ms == [] then suffix
    else ms[0].prefix + (fmt(ms[0].groups) + Replaced(ms[1..], suffix, marks, fmt))
  }

  lemma TokensStep(tokens: seq<string>, it: nat, ms: seq<Match>, suffix: string, submatch: int, marks: nat)
    requires it < |tokens|
    ensures tokens[it..] == Tokens(ms, suffix) ==>
              if ms == [] then tokens[it] == suffix && it + 1 == |tokens|
              else tokens[it] == ms[0].prefix && tokens[it + 1..] == ms[0].groups[0..] + Tokens(ms[1..], suffix)
    ensures ms != [] && |ms[0].groups| == marks + 1 && 0 <= submatch <= marks
            && tokens[it..] == ms[0].groups[submatch..] + Tokens(ms[1..], suffix) ==>
              && tokens[it] == ms[0].groups[submatch]
              && tokens[it + 1..] == ms[0].groups[submatch + 1..] + Tokens(ms[1..], suffix)
              && ms[0].groups[..submatch] + [tokens[it]] == ms[0].groups[..submatch + 1]
  {
    assert tokens[it + 1..] == tokens[it..][1..] && tokens[it] == tokens[it..][0];
  }

  /** The state machine that puts the tokens back together: -1 stands for a prefix, other values
      for the sub-match that comes next. */
  method RegexReplaceCallback(tokens: seq<string>, marks: nat, fmt: seq<string> --> string,
                              ghost ms0: seq<Match>, ghost suffix: string) returns (s: string)
    requires tokens == Tokens(ms0, suffix) && Callable(ms0, marks, fmt)
    ensures s == Replaced(ms0, suffix, marks, fmt)
  {
    s := "";
    var submatch: int := -1;
    var submatchVector: seq<string> := [];
    ghost var ms := ms0;
    ghost var whole := Replaced(ms0, suffix, marks, fmt);
    var it := 0;
    while it < |tokens|
      invariant 0 <= it <= |tokens| && -1 <= submatch <= marks && Callable(ms, marks, fmt)
      invariant submatch == -1 ==>
                  && submatchVector == [] && tokens[it..] == Tokens(ms, suffix)
                  && whole == s + Replaced(ms, suffix, marks, fmt)
      invariant submatch != -1 && ms == [] ==> it == |tokens| && whole == s
      invariant submatch != -1 && ms != [] ==>
                  && submatchVector == ms[0].groups[..submatch]
                  && tokens[it..] == ms[0].groups[submatch..] + Tokens(ms[1..], suffix)
                  && whole == s + (fmt(ms[0].groups) + Replaced(ms[1..], suffix, marks, fmt))
    {
      TokensStep(tokens, it, ms, suffix, submatch, marks);
      if submatch == -1 {
        s := s + tokens[it];
        submatch := submatch + 1;
      } else {
        submatchVector := submatchVector + [tokens[it]];
        if submatch < marks {
          submatch := submatch + 1;
        } else {
          assert submatchVector == ms[0].groups;
          assert s + (fmt(ms[0].groups) + Replaced(ms[1..], suffix, marks, fmt))
              == s + fmt(ms[0].groups) + Replaced(ms[1..], suffix, marks, fmt);
          s := s + fmt(submatchVector);
          submatchVector := [];
          submatch := -1;
          ms := ms[1..];
        }
      }
      it := it + 1;
    }
  }
}
