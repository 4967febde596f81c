/**
 * The string handling the persistence layer borrows from JavaScript: prefix tests and
 * `slice`, `String(n)` and `parseInt` for integers, `split` on a separator, and the
 * `pattern.split(/[#+]/)[0]` that cuts a topic pattern at its first wildcard.
 */
module Text {
  import opened Wrappers

  /** `s` begins with `prefix`. */
  predicate StartsWith(s: string, prefix: string) {
    |prefix| <= |s| && s[..|prefix|] == prefix
  }

  /** JavaScript's `s.slice(n)`: `s` without its first `n` characters. */
  function Drop(s: string, n: nat): string {
    if n <= |s| then s[n..] else ""
  }

  lemma DropPrefix(p: string, t: string)
    ensures StartsWith(p + t, p)
    ensures Drop(p + t, |p|) == t
  {
    assert (p + t)[..|p|] == p;
    assert (p + t)[|p|..] == t;
  }

  /** A string that starts with `p` is `p` followed by the rest of it. */
  lemma PrefixDrop(s: string, p: string)
    requires StartsWith(s, p)
    ensures s == p + Drop(s, |p|)
  {
    assert s == s[..|p|] + s[|p|..];
  }

  /** A string that starts with `p + q` starts with `p`. */
  lemma StartsWithShorter(s: string, p: string, q: string)
    requires StartsWith(s, p + q)
    ensures StartsWith(s, p)
  {
    assert s[..|p|] == s[..|p + q|][..|p|];
  }

  /** Past a prefix `p`, a text starting with `p + q` starts with `q`. */
  lemma StartsWithDrop(s: string, p: string, q: string)
    requires StartsWith(s, p + q)
    ensures StartsWith(Drop(s, |p|), q)
  {
    assert s[|p|..][..|q|] == s[..|p + q|][|p|..];
  }

  /** Putting the same text in front of both sides keeps a prefix a prefix. */
  lemma StartsWithPrepend(p: string, t: string, q: string)
    requires StartsWith(t, q)
    ensures StartsWith(p + t, p + q)
  {
    assert (p + t)[..|p + q|] == p + t[..|q|];
  }

  /** `s` starts with `p` iff their first characters agree and the rest of `s` starts with the rest of `p`. */
  lemma StartsWithCons(s: string, p: string)
    requires 0 < |s| && 0 < |p|
    ensures StartsWith(s, p) <==> s[0] == p[0] && StartsWith(s[1..], p[1..])
  {
    if StartsWith(s, p) {
      assert s[1..][..|p| - 1] == s[..|p|][1..];
    }
    if s[0] == p[0] && StartsWith(s[1..], p[1..]) {
      assert s[..|p|] == [s[0]] + s[1..][..|p| - 1];
      assert p == [p[0]] + p[1..];
    }
  }

  // ---------------------------------------------------------------- integers

  predicate IsDigit(c: char) {
    '0' <= c <= '9'
  }

  predicate AllDigits(s: string) {
    forall i :: 0 <= i < |s| ==> IsDigit(s[i])
  }

  function DigitChar(d: nat): (c: char)
    requires d < 10
    ensures IsDigit(c)
    ensures c as int - '0' as int == d
  {
    ('0' as int + d) as char
  }

  function DigitValue(c: char): nat
    requires IsDigit(c)
  {
    c as int - '0' as int
  }

  /** Decimal text of `n` without leading zeros, as JavaScript's `String(n)` writes it. */
  function NatText(n: nat): (s: string)
    ensures 0 < |s| && AllDigits(s)
    ensures s[0] == '0' ==> n == 0
    decreases n
  {
    if n < 10 then [DigitChar(n)] else NatText(n / 10) + [DigitChar(n % 10)]
  }

  /** Decimal text of an integer, as JavaScript's `String(i)` writes it. */
  function IntText(i: int): string {
    if i < 0 then "-" + NatText(-i) else NatText(i)
  }

  /** Value of a run of decimal digits, most significant first. */
  function DigitsValue(s: string): nat
    requires AllDigits(s)
    decreases |s|
  {
    if |s| == 0 then 0 else DigitsValue(s[..|s| - 1]) * 10 + DigitValue(s[|s| - 1])
  }

  lemma {:induction false} DigitsValueOfNatText(n: nat)
    ensures DigitsValue(NatText(n)) == n
    decreases n
  {
    var s := NatText(n);
    if n >= 10 {
      assert s[..|s| - 1] == NatText(n / 10);
      DigitsValueOfNatText(n / 10);
    }
  }

  /** JavaScript's whitespace as far as `parseInt` skips it (the ASCII part). */
  predicate IsSpace(c: char) {
    c == ' ' || c == '\t' || c == '\n' || c == '\r' || c == '\U{000B}' || c == '\U{000C}'
  }

  function TrimStart(s: string): string {
    if 0 < |s| && IsSpace(s[0]) then TrimStart(s[1..]) else s
  }

  /** The longest prefix of `s` made of decimal digits. */
  function LeadingDigits(s: string): (r: string)
    ensures StartsWith(s, r) && AllDigits(r)
    ensures |r| < |s| ==> !IsDigit(s[|r|])
  {
    if 0 < |s| && IsDigit(s[0]) then [s[0]] + LeadingDigits(s[1..]) else ""
  }

  lemma {:induction false} LeadingDigitsOfDigits(s: string)
    requires AllDigits(s)
    ensures LeadingDigits(s) == s
  {
    if 0 < |s| {
      LeadingDigitsOfDigits(s[1..]);
      assert [s[0]] + s[1..] == s;
    }
  }

  /**
   * JavaScript's `parseInt(s)` on decimal text: skip leading whitespace, read an optional
   * sign and the longest run of digits after it. `None` stands for `NaN` (no digits).
   */
  function ParseInt(s: string): (r: Option<int>)
    ensures |s| == 0 ==> r.None?
    ensures 0 < |s| && IsDigit(s[0]) ==> r.Some? && 0 <= r.value
  {
    var t := TrimStart(s);
    var signed := 0 < |t| && (t[0] == '-' || t[0] == '+');
    var digits := LeadingDigits(if signed then t[1..] else t);
    if |digits| == 0 then None
    else if signed && t[0] == '-' then Some(-(DigitsValue(digits) as int))
    else Some(DigitsValue(digits))
  }

  /** `parseInt(String(i)) === i`: the text a number is stored as reads back as that number. */
  lemma ParseIntText(i: int)
    ensures ParseInt(IntText(i)) == Some(i)
  {
    var n: nat := if i < 0 then -i else i;
    DigitsValueOfNatText(n);
    if i < 0 {
      ParseNegative(NatText(n));
    } else {
      ParsePositive(NatText(n));
    }
  }

  /**
   * `parseInt` reads the number at the head of the text and stops at the first character that
   * is not a digit: `parseInt(String(i) + rest) === i`.
   */
  lemma ParseIntLeadingNumber(i: int, rest: string)
    requires |rest| == 0 || !IsDigit(rest[0])
    ensures ParseInt(IntText(i) + rest) == Some(i)
  {
    var n: nat := if i < 0 then -i else i;
    DigitsValueOfNatText(n);
    if i < 0 {
      assert IntText(i) + rest == "-" + (NatText(n) + rest);
      ParseNegativeThen(NatText(n), rest);
    } else {
      ParsePositiveThen(NatText(n), rest);
    }
  }

  /** Text that starts with a run of digits followed by a non-digit parses as the digits' value. */
  lemma ParsePositiveThen(digits: string, rest: string)
    requires 0 < |digits| && AllDigits(digits) && (|rest| == 0 || !IsDigit(rest[0]))
    ensures ParseInt(digits + rest) == Some(DigitsValue(digits))
  {
    LeadingDigitsStops(digits, rest);
    ParseLeading(digits + rest, digits);
  }

  /** A `-`, a run of digits and then a non-digit parses as the digits' value, negated. */
  lemma ParseNegativeThen(digits: string, rest: string)
    requires 0 < |digits| && AllDigits(digits) && (|rest| == 0 || !IsDigit(rest[0]))
    ensures ParseInt("-" + (digits + rest)) == Some(-(DigitsValue(digits) as int))
  {
    LeadingDigitsStops(digits, rest);
    ParseLeadingNegative(digits + rest, digits);
  }

  /** Text whose leading digits are non-empty parses as their value. */
  lemma ParseLeading(u: string, digits: string)
    requires 0 < |digits| && LeadingDigits(u) == digits
    ensures ParseInt(u) == Some(DigitsValue(digits))
  {
    assert IsDigit(u[0]) && !IsSpace(u[0]);
    assert TrimStart(u) == u;
  }

  /** The same behind a `-`, negated. */
  lemma ParseLeadingNegative(u: string, digits: string)
    requires 0 < |digits| && LeadingDigits(u) == digits
    ensures ParseInt("-" + u) == Some(-(DigitsValue(digits) as int))
  {
    var s := "-" + u;
    assert s[0] == '-' && !IsSpace(s[0]);
    assert TrimStart(s) == s;
    assert s[1..] == u;
  }

  /** The leading digits of a run of digits followed by a non-digit are that run. */
  lemma {:induction false} LeadingDigitsStops(digits: string, rest: string)
    requires AllDigits(digits) && (|rest| == 0 || !IsDigit(rest[0]))
    ensures LeadingDigits(digits + rest) == digits
    decreases |digits|
  {
    if 0 < |digits| {
      assert (digits + rest)[1..] == digits[1..] + rest;
      LeadingDigitsStops(digits[1..], rest);
      assert [digits[0]] + digits[1..] == digits;
    } else {
      assert digits + rest == rest;
    }
  }

  /** A non-empty run of digits parses as its value. */
  lemma ParsePositive(digits: string)
    requires 0 < |digits| && AllDigits(digits)
    ensures ParseInt(digits) == Some(DigitsValue(digits))
  {
    LeadingDigitsOfDigits(digits);
    assert IsDigit(digits[0]) && !IsSpace(digits[0]);
    assert TrimStart(digits) == digits;
  }

  /** A `-` and a non-empty run of digits parses as the digits' value, negated. */
  lemma ParseNegative(digits: string)
    requires 0 < |digits| && AllDigits(digits)
    ensures ParseInt("-" + digits) == Some(-(DigitsValue(digits) as int))
  {
    var neg := "-" + digits;
    assert neg[0] == '-' && !IsSpace(neg[0]);
    assert TrimStart(neg) == neg;
    assert neg[1..] == digits;
    LeadingDigitsOfDigits(digits);
  }

  /** `String` is one-to-one on integers. */
  lemma IntTextInjective(i: int, j: int)
    requires IntText(i) == IntText(j)
    ensures i == j
  {
    ParseIntText(i);
    ParseIntText(j);
  }

  /** The integers Redis accepts as counters: text that is exactly `String(n)` of some `n`. */
  function CanonicalInt(s: string): (r: Option<int>)
    ensures r.Some? ==> IntText(r.value) == s
    ensures forall i :: IntText(i) == s ==> r == Some(i)
  {
    match ParseInt(s)
    case Some(n) =>
      assert forall i :: IntText(i) == s ==> i == n by {
        forall i | IntText(i) == s ensures i == n {
          ParseIntText(i);
        }
      }
      if IntText(n) == s then Some(n) else None
    case None =>
      assert forall i :: IntText(i) == s ==> false by {
        forall i | IntText(i) == s ensures false {
          ParseIntText(i);
        }
      }
      None
  }

  // ----------------------------------------------------------- topic patterns

  /**
   * `pattern.split(/[#+]/)[0]`: the text of a topic pattern before its first wildcard
   * character, or the whole pattern when it has none.
   */
  function BeforeWildcard(pattern: string): (r: string)
    ensures StartsWith(pattern, r)
    ensures forall i :: 0 <= i < |r| ==> r[i] != '#' && r[i] != '+'
    ensures |r| < |pattern| ==> pattern[|r|] == '#' || pattern[|r|] == '+'
  {
    if |pattern| == 0 || pattern[0] == '#' || pattern[0] == '+' then ""
    else [pattern[0]] + BeforeWildcard(pattern[1..])
  }

  // ------------------------------------------------------------------ split

  /** The text of `s` before its first `sep`, or all of `s`. */
  function UpTo(s: string, sep: char): (r: string)
    ensures StartsWith(s, r) && sep !in r
    ensures |r| < |s| ==> s[|r|] == sep
  {
    if |s| == 0 || s[0] == sep then "" else [s[0]] + UpTo(s[1..], sep)
  }

  /** JavaScript's `s.split(sep)[k]`: the `k`-th field, or `None` (`undefined`) past the last. */
  function SplitField(s: string, sep: char, k: nat): Option<string>
    decreases k
  {
    var head := UpTo(s, sep);
    if k == 0 then Some(head)
    else if |head| == |s| then None
    else SplitField(s[|head| + 1..], sep, k - 1)
  }

  lemma {:induction false} UpToJoin(a: string, sep: char, rest: string)
    requires sep !in a
    ensures UpTo(a + [sep] + rest, sep) == a
  {
    if 0 < |a| {
      assert (a + [sep] + rest)[1..] == a[1..] + [sep] + rest;
      UpToJoin(a[1..], sep, rest);
      assert [a[0]] + a[1..] == a;
    }
  }

  /** What follows a separator placed after `a` never reaches the text before the first separator. */
  lemma {:induction false} UpToExtend(a: string, sep: char, rest: string)
    ensures UpTo(a + [sep] + rest, sep) == UpTo(a, sep)
  {
    if 0 < |a| && a[0] != sep {
      assert (a + [sep] + rest)[1..] == a[1..] + [sep] + rest;
      UpToExtend(a[1..], sep, rest);
    }
  }

  /** Splitting `a + sep + rest` with no `sep` in `a`: field `k + 1` is field `k` of `rest`. */
  lemma SplitFieldJoin(a: string, sep: char, rest: string, k: nat)
    requires sep !in a
    ensures SplitField(a + [sep] + rest, sep, k + 1) == SplitField(rest, sep, k)
  {
    UpToJoin(a, sep, rest);
    assert (a + [sep] + rest)[|a| + 1..] == rest;
  }

  /** Field 0 of `a + sep + rest` is `a` when `a` holds no `sep`. */
  lemma SplitFieldHead(a: string, sep: char, rest: string)
    requires sep !in a
    ensures SplitField(a + [sep] + rest, sep, 0) == Some(a)
  {
    UpToJoin(a, sep, rest);
  }
}
