/** Character classes of JavaScript regular expressions (non-Unicode mode) and
    a small string toolkit shared by the date-of-birth extractor and the label
    formatter. JavaScript strings are sequences of UTF-16 code units; here a
    string is a `seq<char>` of Unicode scalar values, which changes nothing for
    the ASCII patterns matched below. */
module Text {

  datatype Option<T> = None | Some(value: T)

  /** `\d`: an ASCII decimal digit. */
  predicate IsDigit(c: char) {
    '0' <= c <= '9'
  }

  /** `\s`: the ECMAScript WhiteSpace and LineTerminator code points. */
  predicate IsSpace(c: char)
    ensures IsSpace(c) ==> !IsDigit(c) && !IsSeparator(c) && c != ':'
    ensures c == ' ' || c == '\t' || c == '\n' || c == '\r' ==> IsSpace(c)
  {
    c == '\t' || c == '\n' || c == '\U{B}' || c == '\U{C}' || c == '\r' || c == ' '
    || c == '\U{A0}' || c == '\U{1680}' || ('\U{2000}' <= c <= '\U{200A}')
    || c == '\U{2028}' || c == '\U{2029}' || c == '\U{202F}' || c == '\U{205F}'
    || c == '\U{3000}' || c == '\U{FEFF}'
  }

  /** `[\/-]`: the date separators. */
  predicate IsSeparator(c: char) {
    c == '/' || c == '-'
  }

  /** `[A-Z]`. */
  predicate IsUpper(c: char) {
    'A' <= c <= 'Z'
  }

  /** Case folding as the `i` flag, without the `u` flag, applies it when
      every letter of the pattern is ASCII. The flag also folds non-ASCII
      letters onto one another (`é` matches `É`), but it never maps a
      non-ASCII character onto an ASCII one. So against an ASCII pattern
      letter, folding the ASCII capitals alone decides every comparison. */
  function Fold(c: char): (f: char)
    ensures IsUpper(c) ==> 'a' <= f <= 'z' && f as int == c as int + 32
    ensures !IsUpper(c) ==> f == c
    ensures !IsUpper(f)
  {
    if IsUpper(c) then (c as int + 32) as char else c
  }

  /** `s` spells `w` up to the case of its ASCII letters. */
  predicate SameLetters(s: string, w: string) {
    |s| == |w| && forall k :: 0 <= k < |s| ==> Fold(s[k]) == Fold(w[k])
  }

  predicate AllDigits(s: string) {
    forall k :: 0 <= k < |s| ==> IsDigit(s[k])
  }

  /** `10` to the power `n`. */
  function Ten(n: nat): (p: nat)
    ensures p >= 1
  {
    if n == 0 then 1 else 10 * Ten(n - 1)
  }

  /** Decimal value of a run of digits, as `parseInt(s, 10)` reads it. */
  function DigitsValue(s: string): nat
    requires AllDigits(s)
    decreases |s|
  {
    if s == [] then 0
    else DigitsValue(s[..|s| - 1]) * 10 + (s[|s| - 1] as int - '0' as int)
  }

  /** A run of `n` digits reads as less than `10` to the power `n`. */
  lemma {:induction false} DigitsBelow(s: string)
    requires AllDigits(s)
    ensures DigitsValue(s) < Ten(|s|)
    decreases |s|
  {
    if s != [] {
      DigitsBelow(s[..|s| - 1]);
    }
  }

  /** The fields of `s` between occurrences of `sep`, as `s.split(sep)`
      returns them. */
  function Split(s: string, sep: char): (fields: seq<string>)
    ensures |fields| >= 1
    decreases |s|
  {
    if s == [] then [[]]
    else
      var rest := Split(s[1..], sep);
      if s[0] == sep then [[]] + rest
      else [[s[0]] + rest[0]] + rest[1..]
  }

  lemma {:induction false} SplitWithoutSeparator(s: string, sep: char)
    requires sep !in s
    ensures Split(s, sep) == [s]
    decreases |s|
  {
    if s != [] {
      SplitWithoutSeparator(s[1..], sep);
      assert [s[0]] + s[1..] == s;
    }
  }

  lemma {:induction false} SplitAfterField(a: string, sep: char, b: string)
    requires sep !in a
    ensures Split(a + [sep] + b, sep) == [a] + Split(b, sep)
    decreases |a|
  {
    var s := a + [sep] + b;
    if a == [] {
      assert s[1..] == b;
    } else {
      assert s[1..] == a[1..] + [sep] + b;
      SplitAfterField(a[1..], sep, b);
      assert [a[0]] + a[1..] == a;
    }
  }
}
