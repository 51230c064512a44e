/** The few JavaScript string operations the role forms and the table rely on:
    `String.prototype.trim`, the decimal text of an integer (`Number.prototype.toString`)
    and its inverse (`Number(text)` on integer text), and the `<` relation on strings. */
module Strings {

  /** JavaScript's WhiteSpace and LineTerminator code points, the set `trim` removes. */
  predicate IsWhitespace(c: char)
  {
    || c == '\t' || c == '\n' || c == '\U{000B}' || c == '\U{000C}' || c == '\r'
    || c == ' ' || c == '\U{00A0}' || c == '\U{1680}'
    || ('\U{2000}' <= c <= '\U{200A}')
    || c == '\U{2028}' || c == '\U{2029}' || c == '\U{202F}' || c == '\U{205F}'
    || c == '\U{3000}' || c == '\U{FEFF}'
  }

  predicate AllWhitespace(s: string)
  {
    forall i :: 0 <= i < |s| ==> IsWhitespace(s[i])
  }

  /** Drops leading whitespace: the result is the suffix of `s` that starts at its first
      non-whitespace character. */
  function TrimStart(s: string): (r: string)
    ensures |r| <= |s| && r == s[|s| - |r|..]
    ensures forall i :: 0 <= i < |s| - |r| ==> IsWhitespace(s[i])
    ensures r != [] ==> !IsWhitespace(r[0])
  {
    if s == [] || !IsWhitespace(s[0]) then s else TrimStart(s[1..])
  }

  /** Drops trailing whitespace: the result is the prefix of `s` that ends at its last
      non-whitespace character. */
  function TrimEnd(s: string): (r: string)
    ensures |r| <= |s| && r == s[..|r|]
    ensures forall i :: |r| <= i < |s| ==> IsWhitespace(s[i])
    ensures r != [] ==> !IsWhitespace(r[|r| - 1])
  {
    if s == [] || !IsWhitespace(s[|s| - 1]) then s else TrimEnd(s[..|s| - 1])
  }

  /** `r` is `s` with a whitespace prefix of length `i` and a whitespace suffix cut off. */
  predicate CutFrom(s: string, r: string, i: int)
  {
    && 0 <= i <= |s| - |r|
    && (forall j :: 0 <= j < |r| ==> r[j] == s[i + j])
    && (forall j :: 0 <= j < i ==> IsWhitespace(s[j]))
    && (forall j :: i + |r| <= j < |s| ==> IsWhitespace(s[j]))
  }

  lemma TrimIsCut(s: string)
    ensures CutFrom(s, TrimEnd(TrimStart(s)), |s| - |TrimStart(s)|)
  {
    CutCompose(s, TrimStart(s), TrimEnd(TrimStart(s)));
  }

  /** A suffix `t` of `s` left after a whitespace prefix, less a whitespace tail, is a
      cut of `s`. */
  lemma CutCompose(s: string, t: string, r: string)
    requires |t| <= |s| && t == s[|s| - |t|..]
    requires forall i :: 0 <= i < |s| - |t| ==> IsWhitespace(s[i])
    requires |r| <= |t| && r == t[..|r|]
    requires forall i :: |r| <= i < |t| ==> IsWhitespace(t[i])
    ensures CutFrom(s, r, |s| - |t|)
  {
    var k := |s| - |t|;
    assert t == s[k..k + |t|];
    SlicePointwise(s, t, k);
    SlicePointwise(t, r, 0);
    InnerSlice(s, t, r, k);
    WhitespaceShift(s, t, k, |r|);
  }

  /** A slice of `s` starting at `k`, read one position at a time. */
  lemma SlicePointwise(s: string, t: string, k: nat)
    requires k + |t| <= |s| && t == s[k..k + |t|]
    ensures forall j :: 0 <= j < |t| ==> t[j] == s[k + j]
  {
  }

  /** A prefix `r` of the part `t` of `s` that starts at `k` starts at `k` in `s`. */
  lemma InnerSlice(s: string, t: string, r: string, k: nat)
    requires k + |t| == |s| && forall j :: 0 <= j < |t| ==> t[j] == s[k + j]
    requires |r| <= |t| && forall j :: 0 <= j < |r| ==> r[j] == t[j]
    ensures forall j :: 0 <= j < |r| ==> r[j] == s[k + j]
  {
  }

  /** Whitespace from position `from` of a suffix `t` of `s` starting at `k` is
      whitespace from `k + from` in `s`. */
  lemma WhitespaceShift(s: string, t: string, k: nat, from: nat)
    requires k + |t| == |s| && forall j :: 0 <= j < |t| ==> t[j] == s[k + j]
    requires forall i :: from <= i < |t| ==> IsWhitespace(t[i])
    ensures forall j :: k + from <= j < |s| ==> IsWhitespace(s[j])
  {
    forall j | k + from <= j < |s| ensures IsWhitespace(s[j]) {
      assert s[j] == t[j - k];
    }
  }

  /** `s.trim()`: `s` with its leading and trailing whitespace cut off. It is empty
      exactly when `s` holds nothing but whitespace; otherwise it neither starts nor
      ends with whitespace. */
  function Trim(s: string): (r: string)
    ensures r == [] <==> AllWhitespace(s)
    ensures r != [] ==> !IsWhitespace(r[0]) && !IsWhitespace(r[|r| - 1])
    ensures exists i :: 0 <= i <= |s| - |r| && r == s[i..][..|r|]
  {
    var t := TrimStart(s);
    var r := TrimEnd(t);
    var k := |s| - |t|;
    TrimIsCut(s);
    assert r == s[k..][..|r|];
    r
  }

  /** What `trim` cuts off is whitespace: the result is `s` less a whitespace prefix and
      a whitespace suffix. */
  lemma TrimCutsWhitespace(s: string)
    ensures exists i :: CutFrom(s, Trim(s), i)
  {
    TrimIsCut(s);
    assert CutFrom(s, Trim(s), |s| - |TrimStart(s)|);
  }

  // ---------------------------------------------------------------------------
  // Integer text

  predicate IsDigit(c: char)
  {
    '0' <= c <= '9'
  }

  predicate AllDigits(s: string)
  {
    forall i :: 0 <= i < |s| ==> IsDigit(s[i])
  }

  /** The integer texts that a number input hands back: an optional minus sign followed
      by one or more decimal digits (leading zeros allowed). */
  predicate IsIntText(s: string)
  {
    if |s| > 0 && s[0] == '-' then |s| > 1 && AllDigits(s[1..])
    else |s| > 0 && AllDigits(s)
  }

  function DigitValue(c: char): (d: nat)
    requires IsDigit(c)
    ensures d < 10
  {
    (c as int) - ('0' as int)
  }

  function DigitChar(d: nat): (c: char)
    requires d < 10
    ensures IsDigit(c) && DigitValue(c) == d
  {
    (('0' as int) + d) as char
  }

  /** The value of a string of decimal digits, most significant first. */
  function DigitsValue(s: string): nat
    requires AllDigits(s)
  {
    if s == [] then 0 else DigitsValue(s[..|s| - 1]) * 10 + DigitValue(s[|s| - 1])
  }

  /** `Number(s)` for integer text. */
  function NumberOf(s: string): int
    requires IsIntText(s)
  {
    if s[0] == '-' then 0 - DigitsValue(s[1..]) else DigitsValue(s)
  }

  /** The shortest decimal digits of a natural number. */
  function NatText(n: nat): (s: string)
    ensures |s| > 0 && AllDigits(s)
    ensures s[0] == '0' <==> n == 0
    ensures n == 0 ==> s == "0"
  {
    if n < 10 then [DigitChar(n)] else NatText(n / 10) + [DigitChar(n % 10)]
  }

  /** The decimal text of an integer `n`: `n.toString()` for `|n| < 10^21`; JavaScript
      writes larger magnitudes in exponent form. */
  function IntText(n: int): string
  {
    if n < 0 then "-" + NatText(-n) else NatText(n)
  }

  lemma {:induction false} NatTextValue(n: nat)
    ensures DigitsValue(NatText(n)) == n
  {
    if n >= 10 {
      var s := NatText(n);
      NatTextValue(n / 10);
      assert s[..|s| - 1] == NatText(n / 10);
    }
  }

  /** `Number(n.toString()) == n`: the decimal text of every integer is integer text
      and reads back as the same integer. */
  lemma IntTextRoundTrip(n: int)
    ensures IsIntText(IntText(n))
    ensures NumberOf(IntText(n)) == n
  {
    if n < 0 {
      assert IntText(n)[1..] == NatText(-n);
      NatTextValue(-n);
    } else {
      NatTextValue(n);
    }
  }

  // ---------------------------------------------------------------------------
  // String order

  /** JavaScript's `a < b` on strings: lexicographic by character, a proper prefix
      comes first. */
  predicate Less(a: string, b: string)
  {
    if a == [] then b != []
    else if b == [] then false
    else if a[0] != b[0] then a[0] < b[0]
    else Less(a[1..], b[1..])
  }

  /** Exactly one of `a < b`, `a == b`, `b < a` holds. */
  lemma {:induction false} LessTrichotomy(a: string, b: string)
    ensures Less(a, b) || a == b || Less(b, a)
    ensures !(Less(a, b) && Less(b, a))
    ensures Less(a, b) ==> a != b
  {
    if a != [] && b != [] && a[0] == b[0] {
      LessTrichotomy(a[1..], b[1..]);
      assert a == [a[0]] + a[1..] && b == [b[0]] + b[1..];
    }
  }

  lemma {:induction false} LessTransitive(a: string, b: string, c: string)
    requires Less(a, b) && Less(b, c)
    ensures Less(a, c)
  {
    if a != [] && a[0] == b[0] && b[0] == c[0] {
      LessTransitive(a[1..], b[1..], c[1..]);
    }
  }
}
