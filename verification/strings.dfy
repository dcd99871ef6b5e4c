/**
  The handful of Python `str` operations the tool relies on: `isspace`, `rstrip`,
  `split`, `join`, `replace`, `format` with a width, and `str(int)`.
  Characters are code points, as in Python 3.
 */
module Strings {

  /** Python's `str.isspace()`; this is also exactly what `\s` matches in a `str` pattern. */
  predicate IsSpace(c: char) {
    || c == ' '
    || ('\t' <= c <= '\r')
    || ('\U{1C}' <= c <= '\U{1F}')
    || c == '\U{85}' || c == '\U{A0}' || c == '\U{1680}'
    || ('\U{2000}' <= c <= '\U{200A}')
    || c == '\U{2028}' || c == '\U{2029}'
    || c == '\U{202F}' || c == '\U{205F}' || c == '\U{3000}'
  }

  /** The first position at or after `i` that does not hold whitespace (what `\s*` consumes). */
  function SkipSpaces(s: string, i: nat): (j: nat)
    requires i <= |s|
    ensures i <= j <= |s|
    decreases |s| - i
  {
    if i == |s| || !IsSpace(s[i]) then i else SkipSpaces(s, i + 1)
  }

  /** Length of the match of `^(\s*)`: the number of leading whitespace characters. */
  function LeadingSpaces(s: string): (n: nat)
    ensures n <= |s|
  {
    SkipSpaces(s, 0)
  }

  /** `p` occurs in `s` at position `i`. */
  predicate At(s: string, i: int, p: string) {
    0 <= i && i + |p| <= |s| && s[i..i + |p|] == p
  }

  predicate StartsWith(s: string, p: string) {
    At(s, 0, p)
  }

  /** Python's `p in s` for strings. */
  predicate Contains(s: string, p: string) {
    exists i :: 0 <= i <= |s| - |p| && At(s, i, p)
  }

  /** Python's `str.rstrip()`. */
  function RStrip(s: string): (r: string)
    ensures |r| <= |s| && r == s[..|r|]
    ensures forall i :: |r| <= i < |s| ==> IsSpace(s[i])
    ensures |r| > 0 ==> !IsSpace(r[|r| - 1])
  {
    if |s| > 0 && IsSpace(s[|s| - 1]) then RStrip(s[..|s| - 1]) else s
  }

  /** Number of occurrences of `c` in `s`. */
  function Count(s: string, c: char): nat {
    if |s| == 0 then 0 else (if s[0] == c then 1 else 0) + Count(s[1..], c)
  }

  /** Python's `sep.join(xs)`. */
  function Join(xs: seq<string>, sep: string): string {
    if |xs| == 0 then ""
    else if |xs| == 1 then xs[0]
    else xs[0] + sep + Join(xs[1..], sep)
  }

  /** Python's `s.split(c)` for a one-character separator. */
  function Split(s: string, c: char): (r: seq<string>)
    ensures |r| == Count(s, c) + 1
    ensures forall i :: 0 <= i < |r| ==> c !in r[i]
    ensures forall i, k :: 0 <= i < |r| && 0 <= k < |r[i]| ==> r[i][k] in s
  {
    if |s| == 0 then [""]
    else
      var rest := Split(s[1..], c);
      if s[0] == c then [""] + rest else [[s[0]] + rest[0]] + rest[1..]
  }

  /** Python's `s.split(c)[-1]`: the text after the last `c`, or all of `s` without one. */
  function LastPiece(s: string, c: char): (r: string)
    ensures c !in r
  {
    var pieces := Split(s, c);
    pieces[|pieces| - 1]
  }

  /** Python's `s.replace(c, '')` for a one-character `c`. */
  function Remove(s: string, c: char): (r: string)
    ensures c !in r
    ensures |r| == |s| - Count(s, c)
    ensures forall x :: x in r ==> x in s
  {
    if |s| == 0 then ""
    else if s[0] == c then Remove(s[1..], c)
    else [s[0]] + Remove(s[1..], c)
  }

  /** Python's `s.replace(old, new)`: non-overlapping, left to right; an empty `old`
      puts `new` before every character and at the end. */
  function ReplaceAll(s: string, pat: string, rep: string): string
    decreases |s|
  {
    if |pat| == 0 then
      if |s| == 0 then rep else rep + [s[0]] + ReplaceAll(s[1..], pat, rep)
    else if |s| == 0 then ""
    else if StartsWith(s, pat) then rep + ReplaceAll(s[|pat|..], pat, rep)
    else [s[0]] + ReplaceAll(s[1..], pat, rep)
  }

  /** Python's `xs[lo:hi]` for non-negative bounds: both are clipped to the length, and the
      result is empty when `hi` does not exceed `lo`. */
  function Slice<T>(xs: seq<T>, lo: nat, hi: nat): (r: seq<T>)
    ensures |r| == if hi <= lo || |xs| <= lo then 0 else (if hi < |xs| then hi else |xs|) - lo
    ensures forall k :: 0 <= k < |r| ==> r[k] == xs[lo + k]
  {
    var a := if lo < |xs| then lo else |xs|;
    var b := if hi < |xs| then hi else |xs|;
    if b <= a then [] else xs[a..b]
  }

  /** `' ' * n`. */
  function Spaces(n: nat): (r: string)
    ensures |r| == n
    ensures forall i :: 0 <= i < n ==> r[i] == ' '
  {
    seq(n, _ => ' ')
  }

  /** Python's `f'{s:{w}}'`: `s` left-aligned in a field of width `w`, never truncated. */
  function PadRight(s: string, w: nat): (r: string)
    ensures |r| == if |s| < w then w else |s|
    ensures r[..|s|] == s
    ensures forall i :: |s| <= i < |r| ==> r[i] == ' '
  {
    if |s| < w then s + Spaces(w - |s|) else s
  }

  /** A padded field between `x` and `y`: the text at the field's start, blanks up to its
      width, and `y` right behind it. */
  lemma PaddedField(x: string, t: string, w: nat, y: string)
    requires |t| <= w
    ensures var e := x + PadRight(t, w) + y;
            && |e| == |x| + w + |y|
            && e[..|x|] == x
            && e[|x|..|x| + |t|] == t
            && (forall i :: |x| + |t| <= i < |x| + w ==> e[i] == ' ')
            && e[|x| + w..] == y
  {
    var p := PadRight(t, w);
    var e := x + p + y;
    assert e[|x|..|x| + w] == p;
    assert e[|x|..|x| + |t|] == p[..|t|];
  }

  /** Python's `max(len(x) for x in xs)`; `max` of an empty sequence raises, hence the requires. */
  function MaxLen(xs: seq<string>): (m: nat)
    requires |xs| > 0
    ensures forall i :: 0 <= i < |xs| ==> |xs[i]| <= m
    ensures exists i :: 0 <= i < |xs| && |xs[i]| == m
  {
    if |xs| == 1 then |xs[0]|
    else
      var rest := MaxLen(xs[1..]);
      assert forall i :: 1 <= i < |xs| ==> xs[i] == xs[1..][i - 1];
      if |xs[0]| < rest then rest else |xs[0]|
  }

  function DigitChar(d: nat): char
    requires d < 10
  {
    ['0', '1', '2', '3', '4', '5', '6', '7', '8', '9'][d]
  }

  function DigitValue(c: char): nat {
    if '0' <= c <= '9' then (c as int - '0' as int) as nat else 0
  }

  /** Python's `str(n)` for `n >= 0`. */
  function NatToString(n: nat): (r: string)
    ensures |r| >= 1
    ensures forall i :: 0 <= i < |r| ==> '0' <= r[i] <= '9'
  {
    if n < 10 then [DigitChar(n)] else NatToString(n / 10) + [DigitChar(n % 10)]
  }

  /** Python's `str(n)` (and `f'{n}'`) for any integer. */
  function IntToString(n: int): string {
    if n < 0 then "-" + NatToString(-n) else NatToString(n)
  }

  /** Reads a run of decimal digits back; used to state that `NatToString` loses nothing. */
  function ParseNat(s: string): nat {
    if |s| == 0 then 0 else ParseNat(s[..|s| - 1]) * 10 + DigitValue(s[|s| - 1])
  }

  // ---------------------------------------------------------------------------
  // Lemmas

  /** `\s*` from `i` consumes exactly the whitespace run there: every skipped character is
      whitespace and the character it stops at is not. */
  lemma {:induction false} SkipSpacesExact(s: string, i: nat)
    requires i <= |s|
    ensures forall k :: i <= k < SkipSpaces(s, i) ==> IsSpace(s[k])
    ensures SkipSpaces(s, i) < |s| ==> !IsSpace(s[SkipSpaces(s, i)])
    decreases |s| - i
  {
    if i < |s| && IsSpace(s[i]) {
      SkipSpacesExact(s, i + 1);
    }
  }

  /** A single blank followed by a non-blank character is skipped in one step. */
  lemma SkipOneSpace(s: string, i: nat)
    requires i + 1 < |s| && IsSpace(s[i]) && !IsSpace(s[i + 1])
    ensures SkipSpaces(s, i) == i + 1
  {
    assert SkipSpaces(s, i + 1) == i + 1;
  }

  /** Indenting a text that starts with a non-blank character by `n` spaces gives it
      exactly `n` leading whitespace characters. */
  lemma LeadingSpacesIndent(n: nat, t: string)
    requires |t| > 0 && !IsSpace(t[0])
    ensures LeadingSpaces(Spaces(n) + t) == n
  {
    SkipIndent(n, t, 0);
  }

  lemma {:induction false} SkipIndent(n: nat, t: string, k: nat)
    requires |t| > 0 && !IsSpace(t[0]) && k <= n
    ensures SkipSpaces(Spaces(n) + t, k) == n
    decreases n - k
  {
    var s := Spaces(n) + t;
    if k < n {
      assert s[k] == ' ';
      SkipIndent(n, t, k + 1);
    } else {
      assert s[k] == t[0];
    }
  }

  lemma {:induction false} DigitRoundTrip(d: nat)
    requires d < 10
    ensures DigitValue(DigitChar(d)) == d
  {
  }

  /** `str(n)` of a negative integer is a minus sign before the digits of `-n`, and of any
      other integer just its digits. */
  lemma IntToStringCases(n: int)
    ensures n < 0 ==> IntToString(n) == "-" + NatToString(-n)
    ensures n >= 0 ==> IntToString(n) == NatToString(n)
  {
  }

  /** A rendered integer is non-empty, holds no colon, and starts with `-` exactly when the
      integer is negative, and with a digit otherwise. */
  lemma IntTextShape(n: int)
    ensures |IntToString(n)| > 0 && ':' !in IntToString(n)
    ensures n < 0 ==> IntToString(n)[0] == '-'
    ensures n >= 0 ==> '0' <= IntToString(n)[0] <= '9'
  {
    IntToStringCases(n);
    if n < 0 {
      var t := NatToString(-n);
      assert forall i :: 0 <= i < |t| ==> ("-" + t)[i + 1] == t[i];
    }
  }

  /** Decimal rendering tells integers apart. */
  lemma IntToStringInjective(m: int, n: int)
    requires IntToString(m) == IntToString(n)
    ensures m == n
  {
    assert (m < 0) == (n < 0) by {
      IntTextShape(m);
      IntTextShape(n);
      assert IntToString(m)[0] == IntToString(n)[0];
    }
    IntToStringCases(m);
    IntToStringCases(n);
    if m < 0 {
      DropSign(NatToString(-m), NatToString(-n));
      NatToStringInjective(-m, -n);
    } else {
      NatToStringInjective(m, n);
    }
  }

  lemma DropSign(a: string, b: string)
    requires "-" + a == "-" + b
    ensures a == b
  {
    assert a == ("-" + a)[1..];
    assert b == ("-" + b)[1..];
  }

  lemma NatToStringInjective(x: nat, y: nat)
    requires NatToString(x) == NatToString(y)
    ensures x == y
  {
    NatToStringRoundTrip(x);
    NatToStringRoundTrip(y);
  }

  /** Decimal rendering is lossless: parsing it back yields the number. */
  lemma {:induction false} NatToStringRoundTrip(n: nat)
    ensures ParseNat(NatToString(n)) == n
  {
    if n < 10 {
      DigitRoundTrip(n);
    } else {
      var s := NatToString(n);
      assert s[..|s| - 1] == NatToString(n / 10);
      DigitRoundTrip(n % 10);
      NatToStringRoundTrip(n / 10);
    }
  }

  lemma {:induction false} JoinCons(a: string, x: string, ys: seq<string>, sep: string)
    ensures Join([a + x] + ys, sep) == a + Join([x] + ys, sep)
  {
    if |ys| > 0 {
      assert ([a + x] + ys)[1..] == ys;
      assert ([x] + ys)[1..] == ys;
    }
  }

  /** Joining the pieces of a split with the separator gives back the text. */
  lemma {:induction false} JoinSplit(s: string, c: char)
    ensures Join(Split(s, c), [c]) == s
  {
    if |s| > 0 {
      var rest := Split(s[1..], c);
      JoinSplit(s[1..], c);
      if s[0] == c {
        assert ([""] + rest)[1..] == rest;
      } else {
        JoinCons([s[0]], rest[0], rest[1..], [c]);
        assert [rest[0]] + rest[1..] == rest;
      }
    }
  }

  lemma {:induction false} SplitNoSep(s: string, c: char)
    requires c !in s
    ensures Split(s, c) == [s]
  {
    if |s| > 0 {
      SplitNoSep(s[1..], c);
      assert [s[0]] + s[1..] == s;
    }
  }

  lemma {:induction false} SplitPrefix(x: string, c: char, t: string)
    requires c !in x
    ensures Split(x + [c] + t, c) == [x] + Split(t, c)
  {
    if |x| == 0 {
      assert x + [c] + t == [c] + t;
      assert ([c] + t)[1..] == t;
    } else {
      assert (x + [c] + t)[1..] == x[1..] + [c] + t;
      SplitPrefix(x[1..], c, t);
      assert [x[0]] + x[1..] == x;
    }
  }

  /** Splitting joined lines that hold no separator gives back the lines. */
  lemma {:induction false} SplitJoin(xs: seq<string>, c: char)
    requires |xs| > 0
    requires forall i :: 0 <= i < |xs| ==> c !in xs[i]
    ensures Split(Join(xs, [c]), c) == xs
  {
    if |xs| == 1 {
      SplitNoSep(xs[0], c);
    } else {
      SplitJoin(xs[1..], c);
      SplitPrefix(xs[0], c, Join(xs[1..], [c]));
      assert [xs[0]] + xs[1..] == xs;
    }
  }

  /** `A + sep.join(xs)` read as lines: the first line gets `A`, every later one `B`,
      when `sep` is a newline followed by `B`. */
  lemma {:induction false} JoinPrefixed(a: string, b: string, xs: seq<string>)
    requires |xs| > 0
    ensures a + Join(xs, "\n" + b) == Join([a + xs[0]] + Prefixed(b, xs[1..]), "\n")
    decreases |xs|
  {
    if |xs| > 1 {
      JoinPrefixed(b, b, xs[1..]);
      assert [b + xs[1..][0]] + Prefixed(b, xs[1..][1..]) == Prefixed(b, xs[1..]);
      assert ([a + xs[0]] + Prefixed(b, xs[1..]))[1..] == Prefixed(b, xs[1..]);
    }
  }

  /** A list framed by a first and a last line, every line of the list behind `a`. */
  lemma JoinFramed(first: string, a: string, xs: seq<string>, last: string)
    requires |xs| > 0
    ensures first + "\n" + a + Join(xs, "\n" + a) + "\n" + last == Join([first] + Prefixed(a, xs) + [last], "\n")
  {
    var body := a + Join(xs, "\n" + a);
    var ps := Prefixed(a, xs);
    assert body == Join(ps, "\n") by {
      JoinPrefixed(a, a, xs);
      assert [a + xs[0]] + Prefixed(a, xs[1..]) == ps;
    }
    assert Join([first], "\n") == first;
    assert Join([last], "\n") == last;
    calc {
      first + "\n" + a + Join(xs, "\n" + a) + "\n" + last;
      (first + "\n" + body) + "\n" + last;
      (Join([first], "\n") + "\n" + Join(ps, "\n")) + "\n" + Join([last], "\n");
      { JoinAppend([first], ps); }
      Join([first] + ps, "\n") + "\n" + Join([last], "\n");
      { JoinAppend([first] + ps, [last]); }
      Join([first] + ps + [last], "\n");
    }
  }

  /** A line, a list of lines and a line, joined by newlines. */
  lemma JoinSections3(h: string, xs: seq<string>, c: string)
    requires |xs| > 0
    ensures h + "\n" + Join(xs, "\n") + "\n" + c == Join([h] + xs + [c], "\n")
  {
    assert Join([h], "\n") == h;
    assert Join([c], "\n") == c;
    JoinAppend([h], xs);
    JoinAppend([h] + xs, [c]);
  }

  /** Two lists of lines, each behind a line of its own, and a closing line, joined by
      newlines. */
  lemma JoinSections(h: string, xs: seq<string>, m: string, ys: seq<string>, c: string)
    requires |xs| > 0 && |ys| > 0
    ensures h + "\n" + Join(xs, "\n") + "\n" + m + "\n" + Join(ys, "\n") + "\n" + c
         == Join([h] + xs + [m] + ys + [c], "\n")
  {
    var hx := [h] + xs;
    assert Join([h], "\n") == h;
    assert Join([m], "\n") == m;
    assert Join([c], "\n") == c;
    calc {
      h + "\n" + Join(xs, "\n") + "\n" + m + "\n" + Join(ys, "\n") + "\n" + c;
      { JoinAppend([h], xs); }
      Join(hx, "\n") + "\n" + Join([m], "\n") + "\n" + Join(ys, "\n") + "\n" + c;
      { JoinAppend(hx, [m]); }
      Join(hx + [m], "\n") + "\n" + Join(ys, "\n") + "\n" + Join([c], "\n");
      { JoinAppend(hx + [m], ys); }
      Join(hx + [m] + ys, "\n") + "\n" + Join([c], "\n");
      { JoinAppend(hx + [m] + ys, [c]); }
      Join(hx + [m] + ys + [c], "\n");
    }
  }

  /** Every string of `xs` with `p` put in front. */
  function Prefixed(p: string, xs: seq<string>): (r: seq<string>)
    ensures |r| == |xs|
    ensures forall i :: 0 <= i < |xs| ==> r[i] == p + xs[i]
  {
    seq(|xs|, i requires 0 <= i < |xs| => p + xs[i])
  }

  /** Two joined blocks glued by a newline read as one block of lines. */
  lemma {:induction false} JoinAppend(xs: seq<string>, ys: seq<string>)
    requires |xs| > 0 && |ys| > 0
    ensures Join(xs, "\n") + "\n" + Join(ys, "\n") == Join(xs + ys, "\n")
  {
    if |xs| > 1 {
      JoinAppend(xs[1..], ys);
      assert (xs + ys)[1..] == xs[1..] + ys;
    } else {
      assert (xs + ys)[1..] == ys;
    }
  }

  /** Replacing a text that does not occur changes nothing. */
  lemma {:induction false} ReplaceAbsent(s: string, pat: string, rep: string)
    requires |pat| > 0 && !Contains(s, pat)
    ensures ReplaceAll(s, pat, rep) == s
  {
    if |s| > 0 {
      assert !At(s, 0, pat);
      assert !Contains(s[1..], pat) by {
        forall i | 0 <= i <= |s[1..]| - |pat|
          ensures !At(s[1..], i, pat)
        {
          assert !At(s, i + 1, pat);
          assert s[1..][i..i + |pat|] == s[i + 1..i + 1 + |pat|];
        }
      }
      ReplaceAbsent(s[1..], pat, rep);
      assert [s[0]] + s[1..] == s;
    }
  }

  /** Replacing a text by itself changes nothing. */
  lemma {:induction false} ReplaceSelf(s: string, pat: string)
    ensures ReplaceAll(s, pat, pat) == s
    decreases |s|
  {
    if |s| > 0 {
      if |pat| == 0 {
        ReplaceSelf(s[1..], pat);
        assert [s[0]] + s[1..] == s;
      } else if StartsWith(s, pat) {
        ReplaceSelf(s[|pat|..], pat);
        assert s[..|pat|] + s[|pat|..] == s;
      } else {
        ReplaceSelf(s[1..], pat);
        assert [s[0]] + s[1..] == s;
      }
    }
  }
}
