/** Character classes of the regular expressions in `Liquid::Tag::Parser`,
    written out as predicates (Ruby's `\s`, `\w` and `\d` are ASCII), and the
    one `gsub` shape the parser uses three times: drop a backslash in front of
    a character from a given set. */
module Text {

  /** Text with a tail, read from its first character. */
  lemma HeadSplit(s: string, y: string)
    requires s != []
    ensures s + y == [s[0]] + (s[1..] + y)
  {
  }

  /** The first character and the rest of text with a tail. */
  lemma HeadTail(s: string, y: string)
    requires s != []
    ensures (s + y)[0] == s[0] && (s + y)[1..] == s[1..] + y
  {
  }

  /** Text with a tail, read from its first two characters. */
  lemma TwoSplit(s: string, y: string)
    requires |s| >= 2
    ensures s + y == [s[0], s[1]] + (s[2..] + y)
  {
  }

  /** `\s`: space, tab, newline, vertical tab, form feed, carriage return. */
  predicate IsSpace(c: char) {
    c == ' ' || c == '\t' || c == '\n' || c == '\U{B}' || c == '\U{C}' || c == '\r'
  }

  /** `\w`: `[A-Za-z0-9_]`. */
  predicate IsWord(c: char) {
    ('a' <= c <= 'z') || ('A' <= c <= 'Z') || ('0' <= c <= '9') || c == '_'
  }

  /** `\d`. */
  predicate IsDigit(c: char) {
    '0' <= c <= '9'
  }

  /** The characters of the `SPECIAL` pattern: `@ ! : =`. */
  const Specials: set<char> := {'@', '!', ':', '='}

  predicate IsSpecial(c: char) {
    c in Specials
  }

  /** Whether line 215 really puts a backslash in front of a separator `c`.
      Its replacement string is a backslash and `c`, and `gsub` reads `\+`
      as the last group, `\&` as the whole match and `\\` as one backslash:
      for these three separators each match is replaced by itself. */
  predicate MarksSep(c: char) {
    c != '+' && c != '&' && c != '\\'
  }

  /** A separator the escaping lemmas admit: one character that is not a word
      character (so that `\b` in front of it means "a word character comes
      before it"), that line 215 marks with a backslash, and not `'` or
      `` ` ``, which after a backslash in a replacement string stand for the
      text after or before the match. */
  predicate ValidSep(c: char) {
    !IsWord(c) && MarksSep(c) && c != '\'' && c != '`'
  }

  /** `\b(?<!\\)(c)` matches at `p`: for a non-word `c`, the character in
      front of it is a word character. */
  predicate LiveAt(t: string, p: int, c: char) {
    0 < p < |t| && t[p] == c && IsWord(t[p - 1])
  }

  predicate NoLive(t: string, c: char) {
    forall p :: 0 <= p < |t| ==> !LiveAt(t, p, c)
  }

  /** `\s*`: the number of leading blanks. */
  function Blanks(s: string): (n: nat)
    ensures n <= |s|
    ensures forall j :: 0 <= j < n ==> IsSpace(s[j])
    ensures n < |s| ==> !IsSpace(s[n])
    decreases |s|
  {
    if s != [] && IsSpace(s[0]) then 1 + Blanks(s[1..]) else 0
  }

  /** The index of the first `c` in `s`, or `|s|` when there is none. */
  function IndexOf(s: string, c: char): (n: nat)
    ensures n <= |s|
    ensures forall j :: 0 <= j < n ==> s[j] != c
    ensures n < |s| ==> s[n] == c
    decreases |s|
  {
    if s == [] || s[0] == c then 0 else 1 + IndexOf(s[1..], c)
  }

  predicate BackslashFree(s: string) {
    forall j :: 0 <= j < |s| ==> s[j] != '\\'
  }

  predicate NewlineFree(s: string) {
    forall j :: 0 <= j < |s| ==> s[j] != '\n'
  }

  /** `s.gsub(/\\([X])/, '\1')`: scanning left to right, a backslash followed
      by a character of `chars` is dropped and that character is kept; every
      other character is copied. */
  function Unbackslash(s: string, chars: set<char>): (r: string)
    ensures |r| <= |s|
    decreases |s|
  {
    if s == [] then []
    else if |s| >= 2 && s[0] == '\\' && s[1] in chars then [s[1]] + Unbackslash(s[2..], chars)
    else [s[0]] + Unbackslash(s[1..], chars)
  }

  /** Every character of `Unbackslash(s, chars)` is a character of `s`. */
  lemma {:induction false} UnbackslashChars(s: string, chars: set<char>, c: char)
    requires c in Unbackslash(s, chars)
    ensures c in s
    decreases |s|
  {
    if s == [] {
    } else if |s| >= 2 && s[0] == '\\' && s[1] in chars {
      if c != s[1] {
        UnbackslashChars(s[2..], chars, c);
      }
    } else if c != s[0] {
      UnbackslashChars(s[1..], chars, c);
    }
  }

  /** On text without backslashes the `gsub` changes nothing. */
  lemma {:induction false} UnbackslashFree(s: string, chars: set<char>)
    requires BackslashFree(s)
    ensures Unbackslash(s, chars) == s
    decreases |s|
  {
    if s != [] {
      UnbackslashFree(s[1..], chars);
    }
  }

  lemma UnbackslashAppend(a: string, b: string, chars: set<char>)
    requires a == [] || a[|a| - 1] != '\\'
    ensures Unbackslash(a + b, chars) == Unbackslash(a, chars) + Unbackslash(b, chars)
    decreases |a|
  {
    if a == [] {
      assert a + b == b;
    } else if |a| >= 2 && a[0] == '\\' && a[1] in chars {
      assert (a + b)[2..] == a[2..] + b;
      UnbackslashAppend(a[2..], b, chars);
    } else {
      assert (a + b)[1..] == a[1..] + b;
      if |a| == 1 {
        assert a[0] != '\\';
      }
      UnbackslashAppend(a[1..], b, chars);
    }
  }

  /** Decimal digits of a natural number, most significant first, without
      leading zeros (Ruby's `Integer#to_s`). */
  function NatToString(n: nat): (r: string)
    ensures |r| > 0 && forall j :: 0 <= j < |r| ==> IsDigit(r[j])
    decreases n
  {
    if n < 10 then [DigitChar(n)] else NatToString(n / 10) + [DigitChar(n % 10)]
  }

  function DigitChar(d: nat): (c: char)
    requires d < 10
    ensures IsDigit(c)
  {
    ['0', '1', '2', '3', '4', '5', '6', '7', '8', '9'][d]
  }

  function DigitValue(c: char): (d: nat)
    requires IsDigit(c)
    ensures d < 10 && DigitChar(d) == c
  {
    (c as int - '0' as int) as nat
  }

  /** `String#to_i` on a string of digits. */
  function DigitsValue(s: string): nat
    requires forall j :: 0 <= j < |s| ==> IsDigit(s[j])
    decreases |s|
  {
    if s == [] then 0 else 10 * DigitsValue(s[..|s| - 1]) + DigitValue(s[|s| - 1])
  }

  /** Reading the digits of `n` back gives `n`. */
  lemma {:induction false} DigitsRoundTrip(n: nat)
    ensures DigitsValue(NatToString(n)) == n
    decreases n
  {
    if n >= 10 {
      DigitsRoundTrip(n / 10);
      var s := NatToString(n);
      assert s[..|s| - 1] == NatToString(n / 10);
    }
  }

  /** `Integer#to_s`. */
  function IntToString(i: int): string {
    if i < 0 then "-" + NatToString(-i) else NatToString(i)
  }
}
