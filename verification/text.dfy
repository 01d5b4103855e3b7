/** The Python string operations the parsers rely on, over `seq<char>`:
    substring tests (`in`), `strip`, `split` on one separator character,
    `join`, `replace`, ASCII `lower`, `isdigit` and decimal formatting of
    integers (`f'{i}'`). */
module Text {

  /** `sub` occurs in `s` starting at index `k`. */
  predicate OccursAt(s: string, sub: string, k: int) {
    0 <= k && k + |sub| <= |s| && s[k..k + |sub|] == sub
  }

  /** Python's `sub in s`. */
  predicate Contains(s: string, sub: string) {
    exists k | 0 <= k <= |s| :: OccursAt(s, sub, k)
  }

  lemma ContainsAt(s: string, sub: string, k: int)
    requires OccursAt(s, sub, k)
    ensures Contains(s, sub)
  {
  }

  lemma {:induction false} ContainsInfix(a: string, sub: string, b: string)
    ensures Contains(a + sub + b, sub)
  {
    assert (a + sub + b)[|a|..|a| + |sub|] == sub;
    ContainsAt(a + sub + b, sub, |a|);
  }

  /** Whitespace as Python's `str.strip()` sees it, restricted to Latin-1. */
  predicate IsSpace(c: char) {
    || c == ' ' || ('\t' <= c <= '\r')
    || ('\U{1c}' <= c <= '\U{1f}') || c == '\U{85}' || c == '\U{a0}'
  }

  function StripLeft(s: string): (r: string)
    ensures |r| <= |s| && r == s[|s| - |r|..]
    ensures |r| > 0 ==> !IsSpace(r[0])
    ensures forall k | 0 <= k < |s| - |r| :: IsSpace(s[k])
  {
    if |s| > 0 && IsSpace(s[0]) then StripLeft(s[1..]) else s
  }

  function StripRight(s: string): (r: string)
    ensures |r| <= |s| && r == s[..|r|]
    ensures |r| > 0 ==> !IsSpace(r[|r| - 1])
    ensures forall k | |r| <= k < |s| :: IsSpace(s[k])
  {
    if |s| > 0 && IsSpace(s[|s| - 1]) then StripRight(s[..|s| - 1]) else s
  }

  /** Python's `s.strip()`: the infix left once leading and trailing
      whitespace are dropped; it neither starts nor ends with whitespace. */
  function Strip(s: string): (r: string)
    ensures |r| > 0 ==> !IsSpace(r[0]) && !IsSpace(r[|r| - 1])
    ensures Contains(s, r)
  {
    var l := StripLeft(s);
    var r := StripRight(l);
    assert s[|s| - |l|..|s| - |l| + |r|] == r;
    ContainsAt(s, r, |s| - |l|);
    r
  }

  lemma StripOfClean(s: string)
    requires |s| > 0 ==> !IsSpace(s[0]) && !IsSpace(s[|s| - 1])
    ensures Strip(s) == s
  {
  }

  /** Python's `s.split(c)` for a one-character separator: the maximal
      separator-free pieces, always at least one. */
  function Split(s: string, c: char): (r: seq<string>)
    ensures |r| >= 1
    decreases |s|
  {
    if |s| == 0 then [""]
    else
      var rest := Split(s[1..], c);
      if s[0] == c then [""] + rest
      else [[s[0]] + rest[0]] + rest[1..]
  }

  /** Python's `sep.join(parts)`. */
  function Join(parts: seq<string>, sep: string): string
    decreases |parts|
  {
    if |parts| == 0 then ""
    else if |parts| == 1 then parts[0]
    else parts[0] + sep + Join(parts[1..], sep)
  }

  /** Joining one more piece appends the separator and the piece. */
  lemma {:induction false} JoinSnoc(parts: seq<string>, sep: string, x: string)
    requires |parts| > 0
    ensures Join(parts + [x], sep) == Join(parts, sep) + sep + x
    decreases |parts|
  {
    if |parts| > 1 {
      assert (parts + [x])[1..] == parts[1..] + [x];
      JoinSnoc(parts[1..], sep, x);
    }
  }

  /** No piece of a split contains the separator. */
  lemma {:induction false} SplitPiecesClean(s: string, c: char)
    ensures forall t | 0 <= t < |Split(s, c)| :: c !in Split(s, c)[t]
    decreases |s|
  {
    if |s| > 0 {
      SplitPiecesClean(s[1..], c);
    }
  }

  /** Joining the pieces with the separator gives the string back. */
  lemma {:induction false} JoinSplit(s: string, c: char)
    ensures Join(Split(s, c), [c]) == s
    decreases |s|
  {
    if |s| > 0 {
      var rest := Split(s[1..], c);
      JoinSplit(s[1..], c);
      if s[0] == c {
        assert Split(s, c) == [""] + rest;
        assert Join([""] + rest, [c]) == "" + [c] + Join(rest, [c]);
        assert s == [s[0]] + s[1..];
      } else {
        var parts := Split(s, c);
        assert parts == [[s[0]] + rest[0]] + rest[1..];
        if |rest| == 1 {
          assert Join(parts, [c]) == [s[0]] + rest[0];
        } else {
          assert parts[1..] == rest[1..];
          assert Join(rest, [c]) == rest[0] + [c] + Join(rest[1..], [c]);
          assert Join(parts, [c]) == [s[0]] + rest[0] + [c] + Join(rest[1..], [c]);
        }
        assert s == [s[0]] + s[1..];
      }
    }
  }

  /** A string without the separator splits into itself. */
  lemma {:induction false} SplitClean(s: string, c: char)
    requires c !in s
    ensures Split(s, c) == [s]
    decreases |s|
  {
    if |s| > 0 {
      SplitClean(s[1..], c);
      assert [s[0]] + s[1..] == s;
    }
  }

  /** Splitting at one separator splits each side independently. */
  lemma {:induction false} SplitAround(a: string, c: char, b: string)
    ensures Split(a + [c] + b, c) == Split(a, c) + Split(b, c)
    decreases |a|
  {
    var s := a + [c] + b;
    if |a| == 0 {
      assert s[0] == c && s[1..] == b;
    } else {
      SplitAround(a[1..], c, b);
      SplitAroundStep(a, c, b);
    }
  }

  /** The inductive step of `SplitAround`: the claim for `a[1..]` gives it
      for `a`. */
  lemma SplitAroundStep(a: string, c: char, b: string)
    requires |a| > 0
    requires Split(a[1..] + [c] + b, c) == Split(a[1..], c) + Split(b, c)
    ensures Split(a + [c] + b, c) == Split(a, c) + Split(b, c)
  {
    var s := a + [c] + b;
    JoinTail(a, c, b);
    if a[0] == c {
      SplitAtSeparator(s, c);
      SplitAtSeparator(a, c);
    } else {
      SplitInPiece(s, c);
      SplitInPiece(a, c);
      GlueHead([a[0]], Split(a[1..], c), Split(b, c));
    }
  }

  lemma JoinTail(a: string, c: char, b: string)
    requires |a| > 0
    ensures (a + [c] + b)[0] == a[0] && (a + [c] + b)[1..] == a[1..] + [c] + b
  {
  }

  /** The first piece runs to the first separator, or to the end of a text
      without one. */
  lemma {:induction false} FirstPieceStops(s: string, c: char)
    ensures var head := Split(s, c)[0];
      |head| <= |s| && (|head| == |s| || s[|head|] == c)
    decreases |s|
  {
    if |s| > 0 {
      if s[0] == c {
        SplitAtSeparator(s, c);
      } else {
        SplitInPiece(s, c);
        FirstPieceStops(s[1..], c);
      }
    }
  }

  /** A leading separator closes an empty first piece. */
  lemma SplitAtSeparator(s: string, c: char)
    requires |s| > 0 && s[0] == c
    ensures Split(s, c) == [""] + Split(s[1..], c)
  {
  }

  /** A leading non-separator joins the first piece. */
  lemma SplitInPiece(s: string, c: char)
    requires |s| > 0 && s[0] != c
    ensures Split(s, c) == [[s[0]] + Split(s[1..], c)[0]] + Split(s[1..], c)[1..]
  {
  }

  /** Gluing a prefix onto the first piece commutes with appending pieces. */
  lemma GlueHead(x: string, ra: seq<string>, sb: seq<string>)
    requires |ra| >= 1
    ensures [x + (ra + sb)[0]] + (ra + sb)[1..] == ([x + ra[0]] + ra[1..]) + sb
  {
    assert (ra + sb)[1..] == ra[1..] + sb;
  }

  /** A separator-free head is the first piece. */
  lemma SplitHead(head: string, c: char, tail: string)
    requires c !in head
    ensures Split(head + [c] + tail, c) == [head] + Split(tail, c)
  {
    SplitAround(head, c, tail);
    SplitClean(head, c);
  }

  /** The last piece of a split is everything after the last separator. */
  lemma {:induction false} SplitLastPiece(prefix: string, c: char, last: string)
    requires c !in last
    ensures var p := Split(prefix + [c] + last, c); p[|p| - 1] == last
  {
    SplitAround(prefix, c, last);
    SplitClean(last, c);
  }

  /** The number of occurrences of a character. */
  function Count(s: string, c: char): nat
    decreases |s|
  {
    if |s| == 0 then 0 else (if s[0] == c then 1 else 0) + Count(s[1..], c)
  }

  /** A split has one piece more than the text has separators. */
  lemma {:induction false} SplitCount(s: string, c: char)
    ensures |Split(s, c)| == Count(s, c) + 1
    decreases |s|
  {
    if |s| > 0 {
      SplitCount(s[1..], c);
    }
  }

  /** A text with no separator at all splits into one piece. */
  lemma CountZero(s: string, c: char)
    requires c !in s
    ensures Count(s, c) == 0
    decreases |s|
  {
    if |s| > 0 {
      CountZero(s[1..], c);
    }
  }

  /** Every character of a piece comes from the split text. */
  lemma {:induction false} SplitPieceChar(s: string, c: char, t: nat, x: char)
    requires t < |Split(s, c)| && x in Split(s, c)[t]
    ensures x in s
    decreases |s|
  {
    if |s| > 0 {
      var rest := Split(s[1..], c);
      if s[0] == c {
        assert t > 0 && Split(s, c)[t] == rest[t - 1];
        SplitPieceChar(s[1..], c, t - 1, x);
      } else if t == 0 {
        if x != s[0] {
          assert x in rest[0];
          SplitPieceChar(s[1..], c, 0, x);
        }
      } else {
        assert Split(s, c)[t] == rest[t];
        SplitPieceChar(s[1..], c, t, x);
      }
    }
  }

  /** Every character of the stripped text comes from the text. */
  lemma StripChar(s: string, x: char)
    requires x in Strip(s)
    ensures x in s
  {
    var r := Strip(s);
    var k :| 0 <= k <= |s| && OccursAt(s, r, k);
    var j :| 0 <= j < |r| && r[j] == x;
    assert s[k + j] == x;
  }

  /** Leading whitespace is stripped from the front only: a tail that starts
      with a non-space character survives whole. */
  lemma {:induction false} StripLeftAppend(x: string, tail: string)
    requires |tail| > 0 && !IsSpace(tail[0])
    ensures StripLeft(x + tail) == StripLeft(x) + tail
    decreases |x|
  {
    if |x| > 0 {
      assert (x + tail)[1..] == x[1..] + tail;
      StripLeftAppend(x[1..], tail);
    } else {
      assert x + tail == tail;
    }
  }

  /** Python's `s.replace(pat, rep)`: every non-overlapping occurrence of
      `pat`, scanning left to right, is replaced by `rep`. */
  function ReplaceAll(s: string, pat: string, rep: string): string
    requires |pat| > 0
    decreases |s|
  {
    if |s| < |pat| then s
    else if s[..|pat|] == pat then rep + ReplaceAll(s[|pat|..], pat, rep)
    else [s[0]] + ReplaceAll(s[1..], pat, rep)
  }

  /** An occurrence in the tail of a text is an occurrence in the text. */
  lemma OccursInTail(s: string, pat: string, k: int)
    requires |s| > 0 && OccursAt(s[1..], pat, k)
    ensures OccursAt(s, pat, k + 1)
  {
    assert s[k + 1..k + 1 + |pat|] == s[1..][k..k + |pat|];
  }

  /** An occurrence contains the pattern's last character. */
  lemma OccurrenceHasLast(s: string, pat: string, k: int)
    requires |pat| > 0 && OccursAt(s, pat, k)
    ensures pat[|pat| - 1] in s
  {
    assert s[k + |pat| - 1] == s[k..k + |pat|][|pat| - 1];
  }

  /** `replace` leaves a text without the pattern unchanged. */
  lemma {:induction false} ReplaceAllAbsent(s: string, pat: string, rep: string)
    requires |pat| > 0 && !Contains(s, pat)
    ensures ReplaceAll(s, pat, rep) == s
    decreases |s|
  {
    if |s| >= |pat| {
      if s[..|pat|] == pat {
        ContainsAt(s, pat, 0);
      }
      if Contains(s[1..], pat) {
        var k :| 0 <= k <= |s[1..]| && OccursAt(s[1..], pat, k);
        OccursInTail(s, pat, k);
        ContainsAt(s, pat, k + 1);
      }
      ReplaceAllAbsent(s[1..], pat, rep);
      assert [s[0]] + s[1..] == s;
    }
  }

  /** A text followed by the pattern loses exactly that final occurrence,
      provided no occurrence starts earlier. */
  lemma {:induction false} ReplaceAllFinal(v: string, pat: string, rep: string)
    requires |pat| > 0 && !Contains(v + pat[..|pat| - 1], pat)
    ensures ReplaceAll(v + pat, pat, rep) == v + rep
    decreases |v|
  {
    var s := v + pat;
    if |v| == 0 {
      assert s == pat && s[..|pat|] == pat && s[|pat|..] == [];
    } else {
      var w := v + pat[..|pat| - 1];
      if s[..|pat|] == pat {
        assert w[0..|pat|] == s[..|pat|];
        ContainsAt(w, pat, 0);
      }
      assert s[1..] == v[1..] + pat;
      assert w[1..] == v[1..] + pat[..|pat| - 1];
      if Contains(w[1..], pat) {
        var k :| 0 <= k <= |w[1..]| && OccursAt(w[1..], pat, k);
        OccursInTail(w, pat, k);
        ContainsAt(w, pat, k + 1);
      }
      ReplaceAllFinal(v[1..], pat, rep);
      assert [v[0]] + v[1..] == v;
    }
  }

  function LowerChar(c: char): char {
    if 'A' <= c <= 'Z' then (c as int + 32) as char else c
  }

  /** Python's `s.lower()` on ASCII letters. */
  function Lower(s: string): (r: string)
    ensures |r| == |s|
    ensures forall k | 0 <= k < |s| :: r[k] == LowerChar(s[k])
  {
    seq(|s|, k requires 0 <= k < |s| => LowerChar(s[k]))
  }

  predicate IsDigit(c: char) {
    '0' <= c <= '9'
  }

  /** Python's `s.isdigit()` on ASCII: non-empty and all digits. */
  predicate IsDigits(s: string) {
    |s| > 0 && forall k | 0 <= k < |s| :: IsDigit(s[k])
  }

  function DigitChar(d: nat): (c: char)
    requires d < 10
    ensures IsDigit(c)
  {
    ('0' as int + d) as char
  }

  function DigitValue(c: char): nat
    requires IsDigit(c)
  {
    c as int - '0' as int
  }

  /** Decimal value of a digit string, most significant digit first. */
  function DigitsValue(s: string): nat
    requires forall k | 0 <= k < |s| :: IsDigit(s[k])
    decreases |s|
  {
    if |s| == 0 then 0 else DigitsValue(s[..|s| - 1]) * 10 + DigitValue(s[|s| - 1])
  }

  function Pow10(n: nat): nat {
    if n == 0 then 1 else 10 * Pow10(n - 1)
  }

  /** A digit string of length n denotes a number below 10^n. */
  lemma {:induction false} DigitsValueBound(s: string)
    requires forall k | 0 <= k < |s| :: IsDigit(s[k])
    ensures DigitsValue(s) < Pow10(|s|)
    decreases |s|
  {
    if |s| > 0 {
      DigitsValueBound(s[..|s| - 1]);
    }
  }

  /** Python's `f'{n}'` for a natural number. */
  function NatToString(n: nat): (r: string)
    ensures IsDigits(r)
    decreases n
  {
    if n < 10 then [DigitChar(n)] else NatToString(n / 10) + [DigitChar(n % 10)]
  }

  /** Python's `f'{i}'` for any integer. */
  function IntToString(i: int): (r: string)
    ensures forall k | 0 <= k < |r| :: IsDigit(r[k]) || r[k] == '-'
  {
    if i < 0 then "-" + NatToString(-i) else NatToString(i)
  }

  /** Reading the decimal text back gives the number. */
  lemma {:induction false} NatToStringValue(n: nat)
    ensures DigitsValue(NatToString(n)) == n
    decreases n
  {
    var s := NatToString(n);
    if n >= 10 {
      NatToStringValue(n / 10);
      assert s[..|s| - 1] == NatToString(n / 10);
    }
  }

  /** Distinct numbers have distinct decimal texts. */
  lemma NatToStringInjective(m: nat, n: nat)
    requires NatToString(m) == NatToString(n)
    ensures m == n
  {
    NatToStringValue(m);
    NatToStringValue(n);
  }

  lemma NatToStringNoSeparator(n: nat, c: char)
    requires !IsDigit(c)
    ensures c !in NatToString(n)
  {
  }
}
