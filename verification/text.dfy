/** String helpers the modelled code takes from the Java runtime or from small
    utility classes: `String.replace`, `String.valueOf(int)`, repeating a
    character, and upper-casing. */
module Text {

  import opened Wrappers

  /** `n` copies of `c` (the repository's `StringUtil.repeat`). */
  function Repeat(c: char, n: nat): (r: string)
    ensures |r| == n
    ensures forall i :: 0 <= i < n ==> r[i] == c
  {
    if n == 0 then [] else [c] + Repeat(c, n - 1)
  }

  /** `t` occurs in `s` starting at position `i`. */
  predicate OccursAt(s: string, t: string, i: nat) {
    i + |t| <= |s| && s[i..i + |t|] == t
  }

  /** Java's `String.replace(CharSequence, CharSequence)` for a non-empty
      target: scans left to right, replaces every non-overlapping occurrence
      of `t` by `r`, and never rescans text it has just inserted. */
  function ReplaceAll(s: string, t: string, r: string): (u: string)
    requires |t| > 0
    ensures |r| == |t| ==> |u| == |s|
    decreases |s|
  {
    if |s| < |t| then s
    else if s[..|t|] == t then r + ReplaceAll(s[|t|..], t, r)
    else [s[0]] + ReplaceAll(s[1..], t, r)
  }

  /** The first occurrence of the target, at `i`, is replaced, and the
      scan resumes right after it: the `indexOf` loop of `String.replace`. */
  lemma ReplaceAllAtFirst(s: string, t: string, r: string, i: nat)
    requires |t| > 0 && OccursAt(s, t, i)
    requires forall j :: 0 <= j < i ==> !OccursAt(s, t, j)
    ensures ReplaceAll(s, t, r) == s[..i] + r + ReplaceAll(s[i + |t|..], t, r)
  {
    ReplaceAllScansTo(s, t, r, 0, i);
    assert s[0..] == s;
    assert s[0..i] == s[..i];
  }

  /** Scanning from `k` up to the first occurrence at `i` keeps the text in
      between and replaces that occurrence. */
  lemma {:induction false} ReplaceAllScansTo(s: string, t: string, r: string, k: nat, i: nat)
    requires |t| > 0 && k <= i && OccursAt(s, t, i)
    requires forall j :: k <= j < i ==> !OccursAt(s, t, j)
    ensures ReplaceAll(s[k..], t, r) == s[k..i] + r + ReplaceAll(s[i + |t|..], t, r)
    decreases i - k
  {
    if k == i {
      ReplaceAllMatchesAt(s, t, r, i);
      assert s[i..i] + r == r;
    } else {
      ReplaceAllSkipsAt(s, t, r, k);
      ReplaceAllScansTo(s, t, r, k + 1, i);
      KeepOne(s, k, i, r, ReplaceAll(s[i + |t|..], t, r));
    }
  }

  /** An occurrence at `k` is replaced when the scan reaches it. */
  lemma ReplaceAllMatchesAt(s: string, t: string, r: string, k: nat)
    requires |t| > 0 && OccursAt(s, t, k)
    ensures ReplaceAll(s[k..], t, r) == r + ReplaceAll(s[k + |t|..], t, r)
  {
    assert s[k..][..|t|] == s[k..k + |t|];
    assert s[k..][|t|..] == s[k + |t|..];
  }

  /** A position where the target does not start is passed over unchanged. */
  lemma ReplaceAllSkipsAt(s: string, t: string, r: string, k: nat)
    requires |t| > 0 && k + |t| <= |s| && !OccursAt(s, t, k)
    ensures ReplaceAll(s[k..], t, r) == [s[k]] + ReplaceAll(s[k + 1..], t, r)
  {
    assert s[k..][..|t|] == s[k..k + |t|];
    assert s[k..][1..] == s[k + 1..];
  }

  /** Putting one kept character back in front of the scanned text. */
  lemma KeepOne(s: string, k: nat, i: nat, r: string, rest: string)
    requires k < i <= |s|
    ensures [s[k]] + (s[k + 1..i] + r + rest) == s[k..i] + r + rest
  {
    assert [s[k]] + s[k + 1..i] == s[k..i];
  }

  /** A text in which the target occurs nowhere comes back unchanged. */
  lemma {:induction false} ReplaceAllNoOccurrence(s: string, t: string, r: string)
    requires |t| > 0
    requires forall i :: 0 <= i <= |s| ==> !OccursAt(s, t, i)
    ensures ReplaceAll(s, t, r) == s
    decreases |s|
  {
    if |s| >= |t| {
      assert !OccursAt(s, t, 0);
      assert s[..|t|] != t by { assert s[0..|t|] == s[..|t|]; }
      forall i | 0 <= i <= |s[1..]|
        ensures !OccursAt(s[1..], t, i)
      {
        assert !OccursAt(s, t, i + 1);
        if i + |t| <= |s[1..]| {
          assert s[1..][i..i + |t|] == s[i + 1..i + 1 + |t|];
        }
      }
      ReplaceAllNoOccurrence(s[1..], t, r);
    }
  }

  /** In particular a text that does not contain the first character of
      the target comes back unchanged. */
  lemma ReplaceAllAbsent(s: string, t: string, r: string)
    requires |t| > 0
    requires t[0] !in s
    ensures ReplaceAll(s, t, r) == s
  {
    forall i | 0 <= i <= |s|
      ensures !OccursAt(s, t, i)
    {
      if i + |t| <= |s| {
        assert s[i..i + |t|][0] == s[i];
      }
    }
    ReplaceAllNoOccurrence(s, t, r);
  }

  /** Replacing a single character by a single character is a pointwise map:
      the reference definition of the last step of a MOTD format. */
  lemma {:induction false} ReplaceCharPointwise(s: string, a: char, b: char)
    ensures |ReplaceAll(s, [a], [b])| == |s|
    ensures forall i :: 0 <= i < |s| ==>
      ReplaceAll(s, [a], [b])[i] == (if s[i] == a then b else s[i])
    decreases |s|
  {
    if |s| > 0 {
      ReplaceCharPointwise(s[1..], a, b);
      var rest := ReplaceAll(s[1..], [a], [b]);
      if s[..1] == [a] {
        assert ReplaceAll(s, [a], [b]) == [b] + rest;
      } else {
        assert s[0] != a by { assert s[..1] == [s[0]]; }
        assert ReplaceAll(s, [a], [b]) == [s[0]] + rest;
      }
    }
  }

  /** After replacing every `a` by a different character, no `a` is left. */
  lemma ReplaceCharRemoves(s: string, a: char, b: char)
    requires a != b
    ensures a !in ReplaceAll(s, [a], [b])
  {
    ReplaceCharPointwise(s, a, b);
  }

  function DigitChar(d: nat): (c: char)
    requires d < 10
    ensures '0' <= c <= '9'
  {
    ('0' as int + d) as char
  }

  function DigitValue(c: char): (d: nat)
    requires '0' <= c <= '9'
    ensures d < 10
  {
    (c as int - '0' as int) as nat
  }

  /** Decimal digits of a natural number, most significant first, no leading
      zeros (zero itself is "0"). */
  function NatToDecimal(n: nat): (r: string)
    ensures |r| >= 1
    ensures forall i :: 0 <= i < |r| ==> '0' <= r[i] <= '9'
    ensures r[0] == '0' <==> n == 0
    ensures n == 0 ==> r == "0"
    decreases n
  {
    if n < 10 then [DigitChar(n)] else NatToDecimal(n / 10) + [DigitChar(n % 10)]
  }

  /** Java's `String.valueOf(int)`: a minus sign for negative values. */
  function IntToDecimal(n: int): (r: string)
    ensures |r| >= 1
    ensures r[0] == '-' <==> n < 0
    ensures forall i :: 0 <= i < |r| ==> (i == 0 && r[i] == '-') || '0' <= r[i] <= '9'
    ensures r[0] == '0' ==> r == "0"
    ensures r[0] == '-' ==> |r| >= 2 && r[1] != '0'
  {
    if n < 0 then "-" + NatToDecimal(-n) else NatToDecimal(n)
  }

  /** Value of a string of decimal digits. */
  function DecimalValue(s: string): nat
    requires forall i :: 0 <= i < |s| ==> '0' <= s[i] <= '9'
  {
    if |s| == 0 then 0 else 10 * DecimalValue(s[..|s| - 1]) + DigitValue(s[|s| - 1])
  }

  /** Reading back a decimal rendering. */
  function ParseDecimal(s: string): Option<int>
  {
    if |s| > 1 && s[0] == '-' && AllDigits(s[1..]) then Some(-(DecimalValue(s[1..]) as int))
    else if |s| > 0 && AllDigits(s) then Some(DecimalValue(s))
    else None
  }

  predicate AllDigits(s: string) {
    forall i :: 0 <= i < |s| ==> '0' <= s[i] <= '9'
  }

  lemma {:induction false} NatToDecimalValue(n: nat)
    ensures DecimalValue(NatToDecimal(n)) == n
    decreases n
  {
    if n >= 10 {
      var q, r := n / 10, n % 10;
      NatToDecimalValue(q);
      var s := NatToDecimal(n);
      assert s == NatToDecimal(q) + [DigitChar(r)];
      assert s[..|s| - 1] == NatToDecimal(q);
      assert DigitValue(s[|s| - 1]) == r;
      assert n == 10 * q + r;
    }
  }

  /** `String.valueOf(int)` can be read back: the rendering is faithful. */
  lemma IntToDecimalRoundTrip(n: int)
    ensures ParseDecimal(IntToDecimal(n)) == Some(n)
  {
    if n < 0 {
      NegativeRoundTrip(n);
    } else {
      NatRoundTrip(n);
    }
  }

  lemma NegativeRoundTrip(n: int)
    requires n < 0
    ensures ParseDecimal(IntToDecimal(n)) == Some(n)
  {
    var m: nat := -n;
    var d := NatToDecimal(m);
    assert IntToDecimal(n) == "-" + d;
    ParseNegative(d);
    NatToDecimalValue(m);
  }

  /** A minus sign before a digit string reads as the negated value. */
  lemma ParseNegative(d: string)
    requires |d| >= 1 && AllDigits(d)
    ensures ParseDecimal("-" + d) == Some(-(DecimalValue(d) as int))
  {
    assert ("-" + d)[1..] == d;
  }

  lemma NatRoundTrip(n: nat)
    ensures ParseDecimal(IntToDecimal(n)) == Some(n)
  {
    var d := NatToDecimal(n);
    NatToDecimalValue(n);
    assert IntToDecimal(n) == d && d[0] != '-';
    assert AllDigits(d);
  }

  /** ASCII upper-casing of one character. */
  function UpperChar(c: char): char {
    if 'a' <= c <= 'z' then (c as int - 32) as char else c
  }

  /** The repository's `StringUtil.toUpper`, taken to upper-case ASCII
      letters and leave every other character alone. */
  function ToUpper(s: string): (r: string)
    ensures |r| == |s|
    ensures forall i :: 0 <= i < |s| ==> r[i] == UpperChar(s[i])
  {
    seq(|s|, i requires 0 <= i < |s| => UpperChar(s[i]))
  }

  /** Upper-casing an upper-cased string changes nothing. */
  lemma ToUpperIdempotent(s: string)
    ensures ToUpper(ToUpper(s)) == ToUpper(s)
  {
  }

  /** A string without lower-case ASCII letters is its own upper-casing. */
  lemma ToUpperOfUpper(s: string)
    requires forall i :: 0 <= i < |s| ==> !('a' <= s[i] <= 'z')
    ensures ToUpper(s) == s
  {
  }
}
