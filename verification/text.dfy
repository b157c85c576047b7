/**
 The few JavaScript string operations the score store relies on:
 `includes`, `split`, number-to-string formatting in a template literal,
 and `parseInt`.
 */
module Text {
  import opened Common

  /** `t` occurs in `s` starting at index `i`. */
  predicate OccursAt(s: string, t: string, i: nat) {
    i + |t| <= |s| && s[i..i + |t|] == t
  }

  /** `String.prototype.includes`: `t` occurs somewhere in `s`. */
  function Contains(s: string, t: string): (b: bool)
    ensures b <==> exists i: nat :: OccursAt(s, t, i)
    decreases |s|
  {
    if |s| < |t| then false
    else if s[..|t|] == t then (assert OccursAt(s, t, 0); true)
    else
      var b := Contains(s[1..], t);
      ShiftOccurrence(s, t);
      b
  }

  /** An occurrence past the first index of `s` is an occurrence in `s[1..]`, and back. */
  lemma ShiftOccurrence(s: string, t: string)
    requires |s| >= |t| && s[..|t|] != t
    ensures (exists i: nat :: OccursAt(s, t, i)) <==> (exists i: nat :: OccursAt(s[1..], t, i))
  {
    if exists i: nat :: OccursAt(s, t, i) {
      var i: nat :| OccursAt(s, t, i);
      assert i > 0;
      assert s[1..][i - 1..i - 1 + |t|] == s[i..i + |t|];
      assert OccursAt(s[1..], t, i - 1);
    }
    if exists i: nat :: OccursAt(s[1..], t, i) {
      var i: nat :| OccursAt(s[1..], t, i);
      assert s[1..][i..i + |t|] == s[i + 1..i + 1 + |t|];
      assert OccursAt(s, t, i + 1);
    }
  }

  /**
   `String.prototype.split(sep)` with a non-empty separator: the text is cut
   at each occurrence of `sep`, found left to right without overlap.
   */
  function Split(s: string, sep: string): (parts: seq<string>)
    requires |sep| > 0
    ensures |parts| >= 1
    decreases |s|
  {
    if |s| < |sep| then [s]
    else if s[..|sep|] == sep then [""] + Split(s[|sep|..], sep)
    else
      var rest := Split(s[1..], sep);
      [[s[0]] + rest[0]] + rest[1..]
  }

  /** `Array.prototype.join(sep)`. */
  function Join(parts: seq<string>, sep: string): string
    requires |parts| >= 1
    decreases |parts|
  {
    if |parts| == 1 then parts[0] else parts[0] + sep + Join(parts[1..], sep)
  }

  /** Splitting loses nothing: joining the parts with the separator gives the text back. */
  lemma {:induction false} JoinSplit(s: string, sep: string)
    requires |sep| > 0
    ensures Join(Split(s, sep), sep) == s
    decreases |s|
  {
    if |s| < |sep| {
    } else if s[..|sep|] == sep {
      var rest := Split(s[|sep|..], sep);
      assert Split(s, sep) == [""] + rest;
      JoinSplit(s[|sep|..], sep);
      JoinEmptyHead(rest, sep);
      assert s == sep + s[|sep|..];
    } else {
      var rest := Split(s[1..], sep);
      JoinSplit(s[1..], sep);
      JoinGrowsHead(s[0], rest, sep);
      assert s == [s[0]] + s[1..];
    }
  }

  /** An empty first part contributes only its separator. */
  lemma JoinEmptyHead(parts: seq<string>, sep: string)
    requires |parts| >= 1
    ensures Join([""] + parts, sep) == sep + Join(parts, sep)
  {
    assert ([""] + parts)[1..] == parts;
  }

  /** Growing the first part at its front grows the joined text at its front. */
  lemma JoinGrowsHead(c: char, parts: seq<string>, sep: string)
    requires |parts| >= 1
    ensures Join([[c] + parts[0]] + parts[1..], sep) == [c] + Join(parts, sep)
  {
    var grown := [[c] + parts[0]] + parts[1..];
    if |parts| > 1 {
      assert grown[1..] == parts[1..];
    }
  }

  /** A text in which the separator's first character never occurs is a single part. */
  lemma {:induction false} SplitWithout(s: string, sep: string)
    requires |sep| > 0
    requires forall i :: 0 <= i < |s| ==> s[i] != sep[0]
    ensures Split(s, sep) == [s]
    decreases |s|
  {
    if |s| >= |sep| {
      assert s[..|sep|][0] != sep[0];
      SplitWithout(s[1..], sep);
      assert s == [s[0]] + s[1..];
    }
  }

  /** The first cut falls at the first separator when the text before it cannot start one. */
  lemma {:induction false} SplitAfter(a: string, sep: string, c: string)
    requires |sep| > 0
    requires forall i :: 0 <= i < |a| ==> a[i] != sep[0]
    ensures Split(a + sep + c, sep) == [a] + Split(c, sep)
    decreases |a|
  {
    var s := a + sep + c;
    if |a| == 0 {
      assert s == sep + c;
      assert s[..|sep|] == sep;
      assert s[|sep|..] == c;
    } else {
      assert s[..|sep|][0] == a[0];
      assert s[1..] == a[1..] + sep + c;
      SplitAfter(a[1..], sep, c);
      assert a == [a[0]] + a[1..];
    }
  }

  predicate IsDigit(ch: char) {
    '0' <= ch <= '9'
  }

  predicate AllDigits(s: string) {
    forall i :: 0 <= i < |s| ==> IsDigit(s[i])
  }

  function DigitChar(d: nat): (ch: char)
    requires d < 10
    ensures IsDigit(ch) && ch as int - '0' as int == d
  {
    ('0' as int + d) as char
  }

  /** Decimal notation of a natural number, as a template literal prints it. */
  function NatToString(n: nat): (s: string)
    ensures |s| >= 1 && AllDigits(s)
  {
    if n < 10 then [DigitChar(n)] else NatToString(n / 10) + [DigitChar(n % 10)]
  }

  /** Decimal notation of an integer, with a leading `-` when negative. */
  function IntToString(i: int): (s: string)
    ensures |s| >= 1
    ensures forall k :: 0 <= k < |s| ==> IsDigit(s[k]) || s[k] == '-'
  {
    if i < 0 then "-" + NatToString(-i) else NatToString(i)
  }

  /** The longest prefix of `s` made of decimal digits. */
  function LeadingDigits(s: string): (d: string)
    ensures d <= s && AllDigits(d)
    ensures |d| < |s| ==> !IsDigit(s[|d|])
  {
    if |s| == 0 || !IsDigit(s[0]) then [] else [s[0]] + LeadingDigits(s[1..])
  }

  /** The value of a string of decimal digits. */
  function DigitsValue(d: string): nat
    requires AllDigits(d)
  {
    if |d| == 0 then 0
    else DigitsValue(d[..|d| - 1]) * 10 + (d[|d| - 1] as int - '0' as int)
  }

  /**
   `parseInt` in base ten: an optional sign, then the longest run of digits;
   `None` stands for `NaN` (no digit at all).
   */
  function ParseInt(s: string): (r: Option<int>)
    ensures r.Some? <==> |LeadingDigits(if |s| > 0 && (s[0] == '-' || s[0] == '+') then s[1..] else s)| > 0
  {
    var negative := |s| > 0 && s[0] == '-';
    var body := if |s| > 0 && (s[0] == '-' || s[0] == '+') then s[1..] else s;
    var digits := LeadingDigits(body);
    var value: int := DigitsValue(digits);
    if |digits| == 0 then None
    else Some(if negative then -value else value)
  }

  lemma {:induction false} DigitsValueOfNat(n: nat)
    ensures DigitsValue(NatToString(n)) == n
  {
    if n >= 10 {
      var s := NatToString(n);
      DigitsValueOfNat(n / 10);
      assert s[..|s| - 1] == NatToString(n / 10);
    }
  }

  /** Digit scanning stops exactly where a run of digits is followed by a non-digit. */
  lemma {:induction false} LeadingDigitsOf(d: string, t: string)
    requires AllDigits(d)
    requires |t| == 0 || !IsDigit(t[0])
    ensures LeadingDigits(d + t) == d
  {
    if |d| > 0 {
      assert (d + t)[1..] == d[1..] + t;
      LeadingDigitsOf(d[1..], t);
      assert d == [d[0]] + d[1..];
    } else {
      assert d + t == t;
    }
  }

  /** `parseInt` reads a run of digits followed by a non-digit as the run's value. */
  lemma ParseIntOfDigits(d: string, t: string)
    requires |d| > 0 && AllDigits(d)
    requires |t| == 0 || !IsDigit(t[0])
    ensures ParseInt(d + t) == Some(DigitsValue(d))
  {
    var s := d + t;
    assert s[0] == d[0] && IsDigit(s[0]);
    LeadingDigitsOf(d, t);
  }

  /** The same run behind a minus sign reads as its negation. */
  lemma ParseIntOfNegated(d: string, t: string)
    requires |d| > 0 && AllDigits(d)
    requires |t| == 0 || !IsDigit(t[0])
    ensures ParseInt("-" + (d + t)).Some?
    ensures ParseInt("-" + (d + t)).value == -(DigitsValue(d) as int)
  {
    var s := "-" + (d + t);
    assert s[0] == '-' && s[1..] == d + t;
    LeadingDigitsOf(d, t);
  }

  /** `parseInt` reads back the number a template literal printed, whatever non-digit text follows. */
  lemma ParseIntToString(i: int, t: string)
    requires |t| == 0 || !IsDigit(t[0])
    ensures ParseInt(IntToString(i) + t) == Some(i)
  {
    if i < 0 {
      var n := NatToString(-i);
      assert IntToString(i) + t == "-" + (n + t);
      ParseIntOfNegated(n, t);
      DigitsValueOfNat(-i);
    } else {
      ParseIntOfDigits(NatToString(i), t);
      DigitsValueOfNat(i);
    }
  }
}
