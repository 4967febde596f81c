/**
 * Glob-style matching as Redis applies it to the `MATCH` option of `SCAN`:
 * `*` matches any run of characters, `?` any one character, `[...]` one character of a
 * class (with `^` negation, `a-z` ranges and backslash escapes; an unclosed class runs to
 * the end of the pattern), and a backslash makes the next character literal.
 */
module Glob {
  import opened Text

  function Match(pattern: string, s: string): bool
    decreases |pattern| + |s|
  {
    if |pattern| == 0 then |s| == 0
    else if pattern[0] == '*' then Match(pattern[1..], s) || (0 < |s| && Match(pattern, s[1..]))
    else if |s| == 0 then false
    else if pattern[0] == '?' then Match(pattern[1..], s[1..])
    else if pattern[0] == '[' then
      var (hit, rest) := Class(pattern[1..], s[0]);
      hit && Match(rest, s[1..])
    else if pattern[0] == '\\' && 2 <= |pattern| then
      pattern[1] == s[0] && Match(pattern[2..], s[1..])
    else
      pattern[0] == s[0] && Match(pattern[1..], s[1..])
  }

  /** A class body after `[`: whether `c` is in the class, and the pattern after the closing `]`. */
  function Class(body: string, c: char): (r: (bool, string))
    ensures |r.1| <= |body|
  {
    if 0 < |body| && body[0] == '^' then
      var (hit, rest) := ClassItems(body[1..], c);
      (!hit, rest)
    else
      ClassItems(body, c)
  }

  function ClassItems(items: string, c: char): (r: (bool, string))
    ensures |r.1| <= |items|
    decreases |items|
  {
    if |items| == 0 then (false, "")
    else if items[0] == '\\' && 2 <= |items| then
      var (hit, rest) := ClassItems(items[2..], c);
      (hit || items[1] == c, rest)
    else if items[0] == ']' then (false, items[1..])
    else if 3 <= |items| && items[1] == '-' then
      var (hit, rest) := ClassItems(items[3..], c);
      (hit || InRange(items[0], items[2], c), rest)
    else
      var (hit, rest) := ClassItems(items[1..], c);
      (hit || items[0] == c, rest)
  }

  /** A range `a-b` of a class; Redis accepts the bounds in either order. */
  predicate InRange(a: char, b: char, c: char) {
    if a <= b then a <= c <= b else b <= c <= a
  }

  /** The characters that have a meaning in a glob pattern. */
  predicate IsMeta(c: char) {
    c == '*' || c == '?' || c == '[' || c == ']' || c == '\\'
  }

  /** Glob text that matches exactly the literal `lit`: each special character behind a backslash. */
  function Escape(lit: string): string {
    if |lit| == 0 then "" else (if IsMeta(lit[0]) then ['\\', lit[0]] else [lit[0]]) + Escape(lit[1..])
  }

  /** An escaped literal followed by `rest` matches `s` iff `s` starts with the literal and `rest` matches what follows. */
  lemma {:induction false} EscapedThen(lit: string, rest: string, s: string)
    ensures Match(Escape(lit) + rest, s) <==> StartsWith(s, lit) && Match(rest, s[|lit|..])
    decreases |lit|
  {
    if |lit| == 0 {
      assert Escape(lit) + rest == rest;
      assert s[|lit|..] == s;
    } else {
      EscapedHead(lit, rest, s);
      if 0 < |s| {
        EscapedThen(lit[1..], rest, s[1..]);
        if |lit| <= |s| {
          assert s[1..][|lit| - 1..] == s[|lit|..];
        }
        StartsWithCons(s, lit);
      }
    }
  }

  /** The first character of an escaped literal matches only itself, and no empty text. */
  lemma EscapedHead(lit: string, rest: string, s: string)
    requires 0 < |lit|
    ensures |s| == 0 ==> !Match(Escape(lit) + rest, s)
    ensures 0 < |s| ==> (Match(Escape(lit) + rest, s) <==> s[0] == lit[0] && Match(Escape(lit[1..]) + rest, s[1..]))
  {
    var c := lit[0];
    var tail := Escape(lit[1..]) + rest;
    if IsMeta(c) {
      assert Escape(lit) + rest == ['\\', c] + tail;
      EscapedCharHead(c, tail, s);
    } else {
      assert Escape(lit) + rest == [c] + tail;
      PlainCharHead(c, tail, s);
    }
  }

  /** A backslash and a character match that character alone. */
  lemma EscapedCharHead(c: char, tail: string, s: string)
    ensures |s| == 0 ==> !Match(['\\', c] + tail, s)
    ensures 0 < |s| ==> (Match(['\\', c] + tail, s) <==> s[0] == c && Match(tail, s[1..]))
  {
    var p := ['\\', c] + tail;
    assert p[0] == '\\' && p[1] == c && p[2..] == tail;
  }

  /** A character without a glob meaning matches itself alone. */
  lemma PlainCharHead(c: char, tail: string, s: string)
    requires !IsMeta(c)
    ensures |s| == 0 ==> !Match([c] + tail, s)
    ensures 0 < |s| ==> (Match([c] + tail, s) <==> s[0] == c && Match(tail, s[1..]))
  {
    var p := [c] + tail;
    assert p[0] == c && p[1..] == tail;
  }

  lemma {:induction false} StarMatchesAll(s: string)
    ensures Match("*", s)
    decreases |s|
  {
    if 0 < |s| {
      StarMatchesAll(s[1..]);
    }
  }

  /** The scan glob `Escape(lit) + "*"` selects exactly the keys that start with `lit`. */
  lemma EscapedScan(lit: string, s: string)
    ensures Match(Escape(lit) + "*", s) <==> StartsWith(s, lit)
  {
    EscapedThen(lit, "*", s);
    if StartsWith(s, lit) {
      StarMatchesAll(s[|lit|..]);
    }
  }

  /** Text without special characters is its own escape. */
  lemma {:induction false} EscapePlain(lit: string)
    requires forall i :: 0 <= i < |lit| ==> !IsMeta(lit[i])
    ensures Escape(lit) == lit
  {
    if 0 < |lit| {
      EscapePlain(lit[1..]);
      assert [lit[0]] + lit[1..] == lit;
    }
  }

  /** Text with no special character in it. */
  predicate Plain(lit: string) {
    forall i :: 0 <= i < |lit| ==> !IsMeta(lit[i])
  }

  /** Plain text at the head of a glob must appear literally at the head of the key. */
  lemma PlainThen(lit: string, rest: string, s: string)
    requires Plain(lit)
    ensures Match(lit + rest, s) <==> StartsWith(s, lit) && Match(rest, s[|lit|..])
  {
    EscapePlain(lit);
    EscapedThen(lit, rest, s);
  }

  /** A glob made of plain text and a final `*` selects exactly the keys starting with that text. */
  lemma PlainScan(lit: string, s: string)
    requires forall i :: 0 <= i < |lit| ==> !IsMeta(lit[i])
    ensures Match(lit + "*", s) <==> StartsWith(s, lit)
  {
    EscapePlain(lit);
    EscapedScan(lit, s);
  }
}
