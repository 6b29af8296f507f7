/**
  What the decoder does with strings that no encoder writes: upper-case digits, bytes above 127, and
  characters that are no digits; and with buffers of different sizes.
 */
module PunycodeLenient {
  import opened Arithmetic
  import opened PunycodeVarInt
  import opened PunycodeSpec

  predicate CaseVariant(c: char, d: char) {
    c == d || ('A' <= c <= 'Z' && d as int == c as int + 32) || ('a' <= c <= 'z' && d as int == c as int - 32)
  }

  lemma DigitIgnoresCase(c: char, d: char)
    requires CaseVariant(c, d)
    ensures DecodeDigit(c) == DecodeDigit(d) && (c == '-' <==> d == '-') && (c < 128 as char <==> d < 128 as char)
  {
  }

  /** From `si` on the strings differ in the case of letters only. */
  ghost predicate SameDigits(s: string, t: string, si: nat) {
    |s| == |t| && forall j :: si <= j < |s| ==> CaseVariant(s[j], t[j])
  }

  lemma {:induction false} ReadIgnoresCase(s: string, t: string, si: nat, i: nat, w: nat, k: nat, bias: nat)
    requires si <= |s| && 0 < w && i <= SIZE_MAX && SameDigits(s, t, si)
    ensures ReadVarInt(s, si, i, w, k, bias) == ReadVarInt(t, si, i, w, k, bias)
    decreases |s| - si
  {
    hide DecodeDigit, Mul, Div, Threshold, CaseVariant;
    if si < |s| && DecodeDigit(s[si]).Some? {
      DigitIgnoresCase(s[si], t[si]);
      var digit, m := DecodeDigit(s[si]).value, BASE - Threshold(k, bias);
      if digit <= Div(SIZE_MAX - i, w) && w <= Div(SIZE_MAX, m) {
        DivAtMost(SIZE_MAX - i, w, digit);
        MulPositive(w, m);
        ReadIgnoresCase(s, t, si + 1, i + Mul(digit, w), Mul(w, m), k + BASE, bias);
      }
    } else if si < |s| {
      DigitIgnoresCase(s[si], t[si]);
    }
  }

  lemma {:induction false} LoopIgnoresCase(s: string, t: string, si: nat, n: nat, i: nat, bias: nat, out: CodePoints,
                                           cap: nat)
    requires si <= |s| && n <= SIZE_MAX && i <= |out| <= cap < MAX_POINTS && SameDigits(s, t, si)
    ensures DecodeLoop(s, si, n, i, bias, out, cap) == DecodeLoop(t, si, n, i, bias, out, cap)
    decreases |s| - si
  {
    hide ReadVarInt, AdaptBias, Div, Mod, Low32, InsertAt, CaseVariant;
    ReadIgnoresCase(s, t, si, i, 1, BASE, bias);
    if si < |s| && |out| < cap {
      var r := ReadVarInt(s, si, i, 1, BASE, bias);
      if r.Number? {
        DivModSplit(r.i, |out| + 1);
        var n', at := n + Div(r.i, |out| + 1), Mod(r.i, |out| + 1);
        if n' <= SIZE_MAX {
          LoopIgnoresCase(s, t, r.next, n', at + 1, AdaptBias(Low32(r.i - i), Low32(|out| + 1), i == 0),
                          InsertAt(out, at, Low32(n')), cap);
        }
      }
    }
  }

  lemma DelimiterIs(s: string, b: nat)
    requires s != "" && b < |s| && (b == 0 || s[b] == '-') && forall j :: b < j < |s| ==> s[j] != '-'
    ensures Delimiter(s) == b
  {
    var d := DelimiterUpTo(s, |s| - 1);
    assert d < |s| && (d == 0 || s[d] == '-');
  }

  /** Digits may be in upper case. */
  lemma DecodeIgnoresCase(s: string, t: string, cap: nat)
    requires cap < MAX_POINTS && s != ""
    requires SameDigits(s, t, Delimiter(s)) && s[..Delimiter(s)] == t[..Delimiter(s)]
    ensures Decode(s, cap) == Decode(t, cap)
  {
    hide DecodeLoop, DecodeDigit;
    var b := Delimiter(s);
    forall j | 0 <= j < |s| ensures (s[j] == '-' <==> t[j] == '-') && (s[j] < 128 as char <==> t[j] < 128 as char) {
      if j < b { assert s[j] == s[..b][j] == t[..b][j]; } else { DigitIgnoresCase(s[j], t[j]); }
    }
    hide CaseVariant;
    DelimiterIs(t, b);
    SameAscii(s, t);
    assert s[..Copied(s, cap)] == s[..b][..Copied(s, cap)] == t[..Copied(t, cap)];
    LoopIgnoresCase(s, t, if b > 0 then b + 1 else 0, INITIAL_N, 0, INITIAL_BIAS, Points(s[..Copied(s, cap)]), cap);
  }

  lemma SameAscii(s: string, t: string)
    requires |s| == |t| && forall j :: 0 <= j < |s| ==> (s[j] < 128 as char <==> t[j] < 128 as char)
    ensures IsAscii(s) <==> IsAscii(t)
  {
    if IsAscii(s) {
      forall c | c in t ensures c < 128 as char {
        var j :| 0 <= j < |t| && t[j] == c;
        assert s[j] in s;
      }
    } else {
      var c :| c in s && c >= 128 as char;
      var j :| 0 <= j < |s| && s[j] == c;
      assert t[j] in t;
    }
  }

  /** A byte above 127, and nothing else, makes the decoder refuse a string before it has read any of it. */
  lemma RefusedExactly(s: string, cap: nat)
    requires s != "" && 0 < cap < MAX_POINTS
    ensures Decode(s, cap).used == 0 <==> exists j :: 0 <= j < |s| && s[j] as int >= 128
    ensures Decode(s, cap).used == 0 ==> Decode(s, cap).out == []
  {
    if IsAscii(s) {
      forall j | 0 <= j < |s| ensures (s[j] as int) < 128 { assert s[j] in s; }
      hide DecodeLoop;
      LoopReads(s, if Delimiter(s) > 0 then Delimiter(s) + 1 else 0, Points(s[..Copied(s, cap)]), cap);
    } else {
      var c :| c in s && c >= 128 as char;
      var j :| 0 <= j < |s| && s[j] == c;
      assert s[j] as int >= 128;
    }
  }

  lemma {:induction false} UsedGrows(s: string, si: nat, n: nat, i: nat, bias: nat, out: CodePoints, cap: nat)
    requires si <= |s| && n <= SIZE_MAX && i <= |out| <= cap < MAX_POINTS
    ensures DecodeLoop(s, si, n, i, bias, out, cap).used >= si
    ensures si < |s| && |out| < cap ==> DecodeLoop(s, si, n, i, bias, out, cap).used > si
    decreases |s| - si
  {
    hide ReadVarInt, AdaptBias, Div, Mod, Low32, InsertAt;
    if si < |s| && |out| < cap {
      var r := ReadVarInt(s, si, i, 1, BASE, bias);
      if r.Number? {
        DivModSplit(r.i, |out| + 1);
        var n', at := n + Div(r.i, |out| + 1), Mod(r.i, |out| + 1);
        if n' <= SIZE_MAX {
          UsedGrows(s, r.next, n', at + 1, AdaptBias(Low32(r.i - i), Low32(|out| + 1), i == 0),
                    InsertAt(out, at, Low32(n')), cap);
        }
      }
    }
  }

  lemma LoopReads(s: string, si: nat, out: CodePoints, cap: nat)
    requires s != "" && si <= |s| && |out| <= cap < MAX_POINTS && (si == 0 ==> out == []) && 0 < cap
    ensures DecodeLoop(s, si, INITIAL_N, 0, INITIAL_BIAS, out, cap).used > 0
  {
    UsedGrows(s, si, INITIAL_N, 0, INITIAL_BIAS, out, cap);
  }

  // ------------------------------------------------------------ characters that are no digits

  lemma {:induction false} ReadExtends(s: string, x: string, si: nat, i: nat, w: nat, k: nat, bias: nat)
    requires si <= |s| && 0 < w && i <= SIZE_MAX && ReadVarInt(s, si, i, w, k, bias).Number?
    ensures ReadVarInt(s + x, si, i, w, k, bias) == ReadVarInt(s, si, i, w, k, bias)
    decreases |s| - si
  {
    hide DecodeDigit, Mul, Div, Threshold;
    NoDigitTerminator();
    var digit, t := DecodeDigit(s[si]).value, Threshold(k, bias);
    if digit >= t {
      DivAtMost(SIZE_MAX - i, w, digit);
      MulPositive(w, BASE - t);
      ReadExtends(s, x, si + 1, i + Mul(digit, w), Mul(w, BASE - t), k + BASE, bias);
    }
  }

  lemma NoDigitTerminator()
    ensures DecodeDigit('\0').None?
  {
  }

  predicate IsDigitOrLetter(c: char) {
    '0' <= c <= '9' || 'a' <= c <= 'z' || 'A' <= c <= 'Z'
  }

  lemma NoDigit(c: char)
    requires !IsDigitOrLetter(c)
    ensures DecodeDigit(c).None?
  {
  }

  lemma LoopRefuses(s: string, si: nat, n: nat, i: nat, bias: nat, out: CodePoints, cap: nat)
    requires si < |s| && n <= SIZE_MAX && i <= |out| < cap < MAX_POINTS && !IsDigitOrLetter(s[si])
    ensures DecodeLoop(s, si, n, i, bias, out, cap) == Decoded(out, si + 1, n, false)
  {
    hide AdaptBias, Div, Mod, Low32, InsertAt, IsDigitOrLetter, DecodeDigit;
    NoDigit(s[si]);
  }

  lemma {:induction false} LoopStops(s: string, x: string, si: nat, n: nat, i: nat, bias: nat, out: CodePoints,
                                     cap: nat)
    requires si <= |s| && n <= SIZE_MAX && i <= |out| <= cap < MAX_POINTS && x != "" && !IsDigitOrLetter(x[0])
    requires var r := DecodeLoop(s, si, n, i, bias, out, cap); r.ok && r.used == |s| && |r.out| < cap
    ensures var r := DecodeLoop(s, si, n, i, bias, out, cap);
            DecodeLoop(s + x, si, n, i, bias, out, cap) == Decoded(r.out, |s| + 1, r.n, false)
    decreases |s| - si
  {
    hide ReadVarInt, AdaptBias, Div, Mod, Low32, InsertAt, IsDigitOrLetter, DecodeDigit;
    if si < |s| {
      var r := ReadVarInt(s, si, i, 1, BASE, bias);
      ReadExtends(s, x, si, i, 1, BASE, bias);
      DivModSplit(r.i, |out| + 1);
      var n', at := n + Div(r.i, |out| + 1), Mod(r.i, |out| + 1);
      LoopStops(s, x, r.next, n', at + 1, AdaptBias(Low32(r.i - i), Low32(|out| + 1), i == 0),
                InsertAt(out, at, Low32(n')), cap);
    } else {
      assert (s + x)[|s|] == x[0];
      LoopRefuses(s + x, |s|, n, i, bias, out, cap);
    }
  }

  /** A character that is neither a letter nor a decimal digit ends the decoding; what has been decoded
      before it is reported, and the character counts as read. */
  lemma DecodeStops(s: string, x: string, cap: nat)
    requires cap < MAX_POINTS && s != "" && IsAscii(s + x) && x != "" && '-' !in x && !IsDigitOrLetter(x[0])
    requires var r := Decode(s, cap); r.ok && r.used == |s| && |r.out| < cap
    ensures Decode(s + x, cap) == Decoded(Decode(s, cap).out, |s| + 1, Decode(s, cap).n, false)
  {
    hide DecodeLoop, DecodeDigit, IsDigitOrLetter;
    var b := Delimiter(s);
    assert forall j :: 0 <= j < |s| ==> (s + x)[j] == s[j];
    assert forall j :: |s| <= j < |s + x| ==> (s + x)[j] == x[j - |s|];
    assert IsAscii(s) by { assert forall c :: c in s ==> c in s + x; }
    DelimiterIs(s + x, b);
    assert (s + x)[..Copied(s + x, cap)] == s[..Copied(s, cap)];
    LoopStops(s, x, if b > 0 then b + 1 else 0, INITIAL_N, 0, INITIAL_BIAS, Points(s[..Copied(s, cap)]), cap);
  }

  // ------------------------------------------------------------ the room in the buffer

  lemma {:induction false} LoopHasRoom(s: string, si: nat, n: nat, i: nat, bias: nat, out: CodePoints, cap: nat,
                                       more: nat)
    requires si <= |s| && n <= SIZE_MAX && i <= |out| <= cap <= more < MAX_POINTS
    requires |DecodeLoop(s, si, n, i, bias, out, cap).out| < cap
    ensures DecodeLoop(s, si, n, i, bias, out, more) == DecodeLoop(s, si, n, i, bias, out, cap)
    decreases |s| - si
  {
    hide ReadVarInt, AdaptBias, Div, Mod, Low32, InsertAt;
    if si < |s| {
      var r := ReadVarInt(s, si, i, 1, BASE, bias);
      if r.Number? {
        DivModSplit(r.i, |out| + 1);
        var n', at := n + Div(r.i, |out| + 1), Mod(r.i, |out| + 1);
        if n' <= SIZE_MAX {
          LoopHasRoom(s, r.next, n', at + 1, AdaptBias(Low32(r.i - i), Low32(|out| + 1), i == 0),
                      InsertAt(out, at, Low32(n')), cap, more);
        }
      }
    }
  }

  /** As long as the buffer does not get full, its size does not matter. */
  lemma RoomIgnored(s: string, cap: nat, more: nat)
    requires s != "" && cap <= more < MAX_POINTS && |Decode(s, cap).out| < cap
    ensures Decode(s, more) == Decode(s, cap)
  {
    if IsAscii(s) {
      hide DecodeLoop, IsAscii, Delimiter;
      var b := Delimiter(s);
      CopiesInsideExactly(s, cap);
      CopiesInsideExactly(s, more);
      LoopHasRoom(s, if b > 0 then b + 1 else 0, INITIAL_N, 0, INITIAL_BIAS, Points(s[..Copied(s, cap)]), cap, more);
    }
  }

  /** A buffer that is full with the characters in front of the delimiter, or with fewer of them, gets no
      others. */
  lemma NoRoomLeft(s: string, cap: nat)
    requires s != "" && IsAscii(s) && cap <= Delimiter(s) && cap < MAX_POINTS
    ensures Decode(s, cap).out == Points(s[..cap]) && Decode(s, cap).ok
  {
  }
}
