/** Character classes and small string helpers shared by the extractor:
    the `\s`, `\d`, `\w` classes of Python's `re`, `str.strip()` and `int()` on digit strings. */
module Lexical {

  /** Python's `str.isspace()`, which is also what `\s` matches in a str pattern. */
  predicate IsSpace(c: char) {
    var n := c as int;
    (9 <= n <= 13) || (0x1C <= n <= 0x20) || n == 0x85 || n == 0xA0 || n == 0x1680
    || (0x2000 <= n <= 0x200A) || n == 0x2028 || n == 0x2029 || n == 0x202F
    || n == 0x205F || n == 0x3000
  }

  /** `\d`, restricted to ASCII digits. */
  predicate IsDigit(c: char) {
    '0' <= c <= '9'
  }

  /** `\w`, restricted to ASCII letters, digits and the underscore. */
  predicate IsWordChar(c: char) {
    ('a' <= c <= 'z') || ('A' <= c <= 'Z') || IsDigit(c) || c == '_'
  }

  predicate AllSpace(s: string) {
    forall i :: 0 <= i < |s| ==> IsSpace(s[i])
  }

  predicate AllDigits(s: string) {
    forall i :: 0 <= i < |s| ==> IsDigit(s[i])
  }

  predicate AllWordChars(s: string) {
    forall i :: 0 <= i < |s| ==> IsWordChar(s[i])
  }

  function DigitValue(c: char): (v: nat)
    requires IsDigit(c)
    ensures v <= 9
  {
    (c as int) - ('0' as int)
  }

  function DigitChar(v: nat): (c: char)
    requires v <= 9
    ensures IsDigit(c) && DigitValue(c) == v
  {
    (('0' as int) + v) as char
  }

  /** `int(s)` for a non-empty string of ASCII digits: the number it spells in base 10. */
  function DecimalValue(s: string): nat
    requires AllDigits(s)
  {
    if s == [] then 0 else 10 * DecimalValue(s[..|s| - 1]) + DigitValue(s[|s| - 1])
  }

  lemma DecimalAppend(s: string, c: char)
    requires AllDigits(s) && IsDigit(c)
    ensures AllDigits(s + [c]) && DecimalValue(s + [c]) == 10 * DecimalValue(s) + DigitValue(c)
  {
    assert (s + [c])[..|s|] == s;
  }

  /** The base-10 rendering of n, without leading zeros. */
  function DecimalDigits(n: nat): (s: string)
    ensures AllDigits(s) && |s| >= 1
  {
    if n < 10 then [DigitChar(n)] else DecimalDigits(n / 10) + [DigitChar(n % 10)]
  }

  /** Reading back the rendering of a number gives that number. */
  lemma {:induction false} DecimalRoundTrip(n: nat)
    ensures DecimalValue(DecimalDigits(n)) == n
  {
    if n >= 10 {
      var s := DecimalDigits(n);
      assert s[..|s| - 1] == DecimalDigits(n / 10);
      DecimalRoundTrip(n / 10);
    }
  }

  /** Leading zeros do not change the value, as with `int("08") == 8`. */
  lemma {:induction false} LeadingZeroIgnored(s: string)
    requires AllDigits(s)
    ensures DecimalValue("0" + s) == DecimalValue(s)
  {
    if s != [] {
      assert ("0" + s)[..|"0" + s| - 1] == "0" + s[..|s| - 1];
      LeadingZeroIgnored(s[..|s| - 1]);
    }
  }

  /** Number of whitespace characters at the start of s. */
  function SpanSpace(s: string): (k: nat)
    ensures k <= |s|
    ensures forall i :: 0 <= i < k ==> IsSpace(s[i])
    ensures k < |s| ==> !IsSpace(s[k])
  {
    if s == [] || !IsSpace(s[0]) then 0 else 1 + SpanSpace(s[1..])
  }

  /** Number of `\w` characters at the start of s. */
  function SpanWord(s: string): (k: nat)
    ensures k <= |s|
    ensures forall i :: 0 <= i < k ==> IsWordChar(s[i])
    ensures k < |s| ==> !IsWordChar(s[k])
  {
    if s == [] || !IsWordChar(s[0]) then 0 else 1 + SpanWord(s[1..])
  }

  /** Length of s once its trailing whitespace is cut off. */
  function TrimmedEnd(s: string): (e: nat)
    ensures e <= |s|
    ensures forall i :: e <= i < |s| ==> IsSpace(s[i])
    ensures e > 0 ==> !IsSpace(s[e - 1])
  {
    if s == [] || !IsSpace(s[|s| - 1]) then |s| else TrimmedEnd(s[..|s| - 1])
  }

  /** Python's `str.strip()` with no argument. */
  function Strip(s: string): string
  {
    var a := SpanSpace(s);
    s[a..][..TrimmedEnd(s[a..])]
  }

  /** A string that neither starts nor ends with whitespace. */
  predicate Stripped(s: string) {
    s == [] || (!IsSpace(s[0]) && !IsSpace(s[|s| - 1]))
  }

  lemma {:induction false} SpanSpacePadded(pre: string, rest: string)
    requires AllSpace(pre)
    ensures SpanSpace(pre + rest) == |pre| + SpanSpace(rest)
  {
    if pre != [] {
      assert (pre + rest)[0] == pre[0] && (pre + rest)[1..] == pre[1..] + rest;
      SpanSpacePadded(pre[1..], rest);
    } else {
      assert pre + rest == rest;
    }
  }

  /** Text appended after a character that is not whitespace does not lengthen the leading run. */
  lemma {:induction false} SpanSpaceAppend(x: string, f: string)
    requires x != [] && !IsSpace(x[|x| - 1])
    ensures SpanSpace(x) < |x|
    ensures SpanSpace(x + f) == SpanSpace(x)
  {
    assert (x + f)[0] == x[0];
    if IsSpace(x[0]) {
      assert (x + f)[1..] == x[1..] + f;
      SpanSpaceAppend(x[1..], f);
    }
  }

  /** Text that starts with a non-word character does not lengthen a leading `\w` run. */
  lemma {:induction false} SpanWordAppend(x: string, f: string)
    requires f != [] && !IsWordChar(f[0])
    ensures SpanWord(x + f) == SpanWord(x)
  {
    if x == [] {
      assert x + f == f;
    } else {
      assert (x + f)[0] == x[0];
      if IsWordChar(x[0]) {
        assert (x + f)[1..] == x[1..] + f;
        SpanWordAppend(x[1..], f);
      }
    }
  }

  lemma {:induction false} TrimmedEndPadded(s: string, post: string)
    requires AllSpace(post)
    ensures TrimmedEnd(s + post) == TrimmedEnd(s)
  {
    if post != [] {
      var p := post[..|post| - 1];
      assert (s + post)[|s + post| - 1] == post[|post| - 1];
      assert (s + post)[..|s + post| - 1] == s + p;
      TrimmedEndPadded(s, p);
    } else {
      assert s + post == s;
    }
  }

  /** Strip removes exactly the whitespace padding around a stripped core:
      every string is such a padded core, so this pins Strip down completely. */
  lemma StripPadded(pre: string, core: string, post: string)
    requires AllSpace(pre) && AllSpace(post) && Stripped(core)
    ensures Strip(pre + core + post) == core
  {
    var s := pre + core + post;
    SpanSpacePadded(pre, core + post);
    assert s == pre + (core + post);
    if core == [] {
      assert SpanSpace(core + post) == |post| by {
        assert core + post == post + [];
        SpanSpacePadded(post, []);
      }
    } else {
      assert SpanSpace(core + post) == 0;
      assert s[|pre|..] == core + post;
      TrimmedEndPadded(core, post);
    }
  }

  /** A string without padding is left as it is. */
  lemma StripStripped(s: string)
    requires Stripped(s)
    ensures Strip(s) == s
  {
    StripPadded([], s, []);
    assert [] + s + [] == s;
  }
}
