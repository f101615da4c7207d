/**
  String operations of the JavaScript runtime that the services rely on:
  substring search (`includes` and the store's `contains` filter),
  `split` on one character, whitespace as a regular expression's `\s`
  sees it, and the decimal text of a non-negative integer.
 */
module Text {
  import opened Wrappers

  /** `needle` occurs in `hay` starting at position `i`. */
  ghost predicate OccursAt(hay: string, needle: string, i: int)
  {
    0 <= i && i + |needle| <= |hay| && hay[i..i + |needle|] == needle
  }

  /** Substring search, as `hay.includes(needle)`. */
  function Contains(hay: string, needle: string): (r: bool)
    ensures r <==> exists i :: OccursAt(hay, needle, i)
    decreases |hay|
  {
    if needle <= hay then
      assert OccursAt(hay, needle, 0);
      true
    else if |hay| <= |needle| then
      false
    else
      var r := Contains(hay[1..], needle);
      forall i
        ensures OccursAt(hay[1..], needle, i) <==> OccursAt(hay, needle, i + 1)
      {
        if 0 <= i && i + |needle| <= |hay[1..]| {
          assert hay[1..][i..i + |needle|] == hay[i + 1..i + 1 + |needle|];
        }
      }
      assert !OccursAt(hay, needle, 0);
      assert (exists i :: OccursAt(hay, needle, i)) ==> exists i :: OccursAt(hay[1..], needle, i) by {
        if i :| OccursAt(hay, needle, i) {
          assert OccursAt(hay[1..], needle, i - 1);
        }
      }
      r
  }

  /** The pieces of `s` between occurrences of `c`, as `s.split(c)` for a one-character separator. */
  function Split(s: string, c: char): (r: seq<string>)
    ensures |r| >= 1
    ensures forall k :: 0 <= k < |r| ==> c !in r[k]
    decreases |s|
  {
    if c !in s then [s]
    else
      var i := IndexOf(s, c);
      [s[..i]] + Split(s[i + 1..], c)
  }

  /** Position of the first `c` in `s`. */
  function IndexOf(s: string, c: char): (i: nat)
    requires c in s
    ensures i < |s| && s[i] == c && c !in s[..i]
  {
    if s[0] == c then 0 else IndexOf(s[1..], c) + 1
  }

  /** The pieces joined back with the separator, as `pieces.join(c)`. */
  function Join(pieces: seq<string>, c: char): string
  {
    if |pieces| <= 1 then (if pieces == [] then "" else pieces[0])
    else pieces[0] + [c] + Join(pieces[1..], c)
  }

  /** Splitting loses nothing: joining the pieces with the separator gives the input back. */
  lemma {:induction false} JoinSplit(s: string, c: char)
    ensures Join(Split(s, c), c) == s
    decreases |s|
  {
    if c in s {
      var i := IndexOf(s, c);
      JoinSplit(s[i + 1..], c);
      assert s == s[..i] + [c] + s[i + 1..];
    }
  }

  /** A string with no separator is one piece. */
  lemma SplitWithoutSeparator(s: string, c: char)
    requires c !in s
    ensures Split(s, c) == [s]
  {
  }

  /** The first separator ends the first piece. */
  lemma SplitAtFirst(a: string, c: char, b: string)
    requires c !in a
    ensures Split(a + [c] + b, c) == [a] + Split(b, c)
  {
    var s := a + [c] + b;
    assert s[|a|] == c;
    var i := IndexOf(s, c);
    assert s[..i] == a;
    assert s[i + 1..] == b;
  }

  /**
    Whitespace as `\s` matches it: the ASCII and Unicode space separators,
    line terminators and the byte-order mark.
   */
  predicate IsSpace(ch: char)
  {
    var c := ch as int;
    (0x09 <= c <= 0x0D) || c == 0x20 || c == 0xA0 || c == 0x1680 || (0x2000 <= c <= 0x200A) ||
    c == 0x2028 || c == 0x2029 || c == 0x202F || c == 0x205F || c == 0x3000 || c == 0xFEFF
  }

  predicate IsDigit(ch: char)
  {
    '0' <= ch <= '9'
  }

  predicate AllDigits(s: string)
  {
    forall k :: 0 <= k < |s| ==> IsDigit(s[k])
  }

  /** The decimal text of `n`, as a template literal prints it. */
  function DecimalText(n: nat): (s: string)
    ensures |s| >= 1
    ensures AllDigits(s)
    ensures |s| > 1 ==> s[0] != '0'
  {
    if n < 10 then [DigitChar(n)] else DecimalText(n / 10) + [DigitChar(n % 10)]
  }

  function DigitChar(d: nat): (ch: char)
    requires d < 10
    ensures IsDigit(ch)
  {
    ['0', '1', '2', '3', '4', '5', '6', '7', '8', '9'][d]
  }

  function DigitValue(ch: char): nat
    requires IsDigit(ch)
  {
    (ch as int - '0' as int) as nat
  }

  /** The number a string of digits denotes. */
  function ParseDecimal(s: string): nat
    requires AllDigits(s)
  {
    if s == [] then 0 else ParseDecimal(s[..|s| - 1]) * 10 + DigitValue(s[|s| - 1])
  }

  /** Printing then parsing gives the number back. */
  lemma {:induction false} ParseDecimalText(n: nat)
    ensures ParseDecimal(DecimalText(n)) == n
  {
    var s := DecimalText(n);
    if n >= 10 {
      ParseDecimalText(n / 10);
      assert s[..|s| - 1] == DecimalText(n / 10);
    }
  }

  /** Distinct numbers print differently. */
  lemma DecimalTextInjective(m: nat, n: nat)
    requires DecimalText(m) == DecimalText(n)
    ensures m == n
  {
    ParseDecimalText(m);
    ParseDecimalText(n);
  }

  /** Ten to the power `k`. */
  function Pow10(k: nat): (p: nat)
    ensures p >= 1
  {
    if k == 0 then 1 else 10 * Pow10(k - 1)
  }

  /** A larger exponent gives a larger power. */
  lemma {:induction false} Pow10Monotone(a: nat, b: nat)
    requires a <= b
    ensures Pow10(a) <= Pow10(b)
    decreases b - a
  {
    if a < b {
      Pow10Monotone(a + 1, b);
    }
  }

  /** Multiplying by a non-negative number keeps an inequality. */
  lemma MulLe(a: int, b: int, c: nat)
    requires a <= b
    ensures a * c <= b * c
  {
  }

  /** The two powers the ten-digit bounds use. */
  lemma TenPowers()
    ensures Pow10(9) == 1000000000 && Pow10(10) == 10000000000
  {
  }

  lemma ScaleByTen(a: nat, b: nat)
    ensures a * (10 * b) == 10 * (a * b)
  {
  }

  /**
    The leading digit bounds the number: `m` digits led by `d` denote a
    number at least `d * 10^(m-1)` and below `(d + 1) * 10^(m-1)`.
   */
  lemma {:induction false} ParseDecimalBounds(s: string)
    requires AllDigits(s) && |s| >= 1
    ensures DigitValue(s[0]) * Pow10(|s| - 1) <= ParseDecimal(s) < (DigitValue(s[0]) + 1) * Pow10(|s| - 1)
  {
    if |s| > 1 {
      var init := s[..|s| - 1];
      ParseDecimalBounds(init);
      assert init[0] == s[0];
      var p, d := Pow10(|init| - 1), DigitValue(s[0]);
      var lo, hi := d * p, (d + 1) * p;
      assert lo <= ParseDecimal(init) < hi;
      assert ParseDecimal(s) == ParseDecimal(init) * 10 + DigitValue(s[|s| - 1]);
      ScaleByTen(d, p);
      ScaleByTen(d + 1, p);
    }
  }
}
