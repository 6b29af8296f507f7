/** `std::string::find`, and when a pattern cannot occur across or inside pieces of text. */
module Searching {
  import opened Wrappers

  predicate StartsAt(s: string, pat: string, i: nat) {
    i + |pat| <= |s| && s[i..i + |pat|] == pat
  }

  /** The index of the first occurrence; None stands for `npos`. */
  function IndexOf(s: string, pat: string): Option<nat>
  {
    if StartsAt(s, pat, 0) then Some(0)
    else if s == "" then None
    else
      match IndexOf(s[1..], pat)
      case None => None
      case Some(i) => Some(i + 1)
  }

  ghost predicate Occurs(pat: string, s: string) {
    exists i: nat :: StartsAt(s, pat, i)
  }

  /** `find` returns the first occurrence if there is one. */
  lemma {:induction false} IndexOfFirst(s: string, pat: string)
    ensures match IndexOf(s, pat)
            case None => !Occurs(pat, s)
            case Some(i) => StartsAt(s, pat, i) && forall j: nat :: j < i ==> !StartsAt(s, pat, j)
  {
    if StartsAt(s, pat, 0) {
    } else if s != "" {
      IndexOfFirst(s[1..], pat);
      forall j: nat | 0 < j <= |s| ensures StartsAt(s, pat, j) <==> StartsAt(s[1..], pat, j - 1) {
        if j + |pat| <= |s| { assert s[1..][j - 1..j - 1 + |pat|] == s[j..j + |pat|]; }
      }
    }
  }

  lemma IndexOfIs(s: string, pat: string, k: nat)
    requires StartsAt(s, pat, k) && forall j: nat :: j < k ==> !StartsAt(s, pat, j)
    ensures IndexOf(s, pat) == Some(k)
  {
    IndexOfFirst(s, pat);
  }

  lemma CharInside(s: string, pat: string, i: nat, k: nat)
    requires StartsAt(s, pat, i) && i <= k < i + |pat|
    ensures s[k] in pat
  {
    assert s[i..i + |pat|][k - i] == s[k];
  }

  lemma FirstChar(s: string, pat: string, i: nat)
    ensures StartsAt(s, pat, i) && pat != "" ==> s[i] == pat[0]
  {
    if StartsAt(s, pat, i) && pat != "" { assert s[i..i + |pat|][0] == s[i]; }
  }

  /** A pattern without `c` occurs on one side of a `c` or on the other. */
  lemma OccursBeside(pat: string, a: string, c: char, b: string)
    requires c !in pat && Occurs(pat, a + [c] + b)
    ensures Occurs(pat, a) || Occurs(pat, b)
  {
    var s := a + [c] + b;
    var i: nat :| StartsAt(s, pat, i);
    if i + |pat| <= |a| {
      assert StartsAt(a, pat, i);
    } else if i > |a| {
      assert s[i..i + |pat|] == b[i - |a| - 1..i - |a| - 1 + |pat|];
      assert StartsAt(b, pat, i - |a| - 1);
    } else {
      CharInside(s, pat, i, |a|);
    }
  }
}
