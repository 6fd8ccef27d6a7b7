/** String operations the Python code relies on: decimal formatting with
    zero padding (`f"{n:03d}"`), substring and suffix tests (`"time" in c`,
    `v.endswith(...)`), and the code-point order `sorted` uses on strings.
 */
module Text {

  predicate IsDigit(c: char) {
    '0' <= c <= '9'
  }

  predicate AllDigits(s: string) {
    forall i :: 0 <= i < |s| ==> IsDigit(s[i])
  }

  function DigitChar(d: nat): (c: char)
    requires d < 10
    ensures IsDigit(c)
  {
    ('0' as int + d) as char
  }

  function DigitValue(c: char): (d: nat)
    requires IsDigit(c)
    ensures d < 10
  {
    c as int - '0' as int
  }

  /** `str(n)` for a non-negative integer: no leading zeros, "0" for zero. */
  function Digits(n: nat): (s: string)
    ensures 1 <= |s|
    ensures AllDigits(s)
    ensures n < 10 <==> |s| == 1
    decreases n
  {
    if n < 10 then [DigitChar(n)] else Digits(n / 10) + [DigitChar(n % 10)]
  }

  /** The value of a string of decimal digits, read most significant first. */
  function ParseDigits(s: string): nat
    requires AllDigits(s)
  {
    if |s| == 0 then 0 else ParseDigits(s[..|s| - 1]) * 10 + DigitValue(s[|s| - 1])
  }

  function Zeros(k: nat): (s: string)
    ensures |s| == k
    ensures forall i :: 0 <= i < k ==> s[i] == '0'
  {
    if k == 0 then "" else Zeros(k - 1) + "0"
  }

  /** `f"{n:0{width}d}"` for a non-negative `n`: the digits of `n`, left-padded
      with zeros to at least `width` characters. */
  function ZeroPad(n: nat, width: nat): (s: string)
    ensures AllDigits(s)
    ensures |s| == if width <= |Digits(n)| then |Digits(n)| else width
  {
    var d := Digits(n);
    if width <= |d| then d else Zeros(width - |d|) + d
  }

  /** `f"{n:0{width}d}"` for any integer: a negative number keeps its sign in
      front and the zeros go between the sign and the digits, the sign
      counting towards the width. */
  function FormatInt(n: int, width: nat): (s: string)
    ensures 1 <= |s|
    ensures n >= 0 <==> s[0] != '-'
  {
    if n >= 0 then ZeroPad(n, width) else "-" + ZeroPad(-n, if width == 0 then 0 else width - 1)
  }

  lemma {:induction false} ParseDigitsOfDigits(n: nat)
    ensures ParseDigits(Digits(n)) == n
    decreases n
  {
    if n >= 10 {
      var d := Digits(n);
      assert d[..|d| - 1] == Digits(n / 10);
      ParseDigitsOfDigits(n / 10);
    }
  }

  lemma {:induction false} ParseZeros(k: nat)
    ensures AllDigits(Zeros(k))
    ensures ParseDigits(Zeros(k)) == 0
  {
    if k > 0 {
      var z := Zeros(k);
      assert z[..|z| - 1] == Zeros(k - 1);
      ParseZeros(k - 1);
    }
  }

  lemma {:induction false} ParseDigitsIgnoresLeadingZeros(k: nat, t: string)
    requires AllDigits(t)
    ensures AllDigits(Zeros(k) + t)
    ensures ParseDigits(Zeros(k) + t) == ParseDigits(t)
    decreases |t|
  {
    var z := Zeros(k);
    if |t| == 0 {
      assert z + t == z;
      ParseZeros(k);
    } else {
      var t' := t[..|t| - 1];
      assert (z + t)[..|z + t| - 1] == z + t';
      ParseDigitsIgnoresLeadingZeros(k, t');
    }
  }

  /** Zero padding loses nothing: the padded text reads back as the number. */
  lemma ParseZeroPad(n: nat, width: nat)
    ensures ParseDigits(ZeroPad(n, width)) == n
  {
    var d := Digits(n);
    ParseDigitsOfDigits(n);
    if width > |d| {
      assert ZeroPad(n, width) == Zeros(width - |d|) + d;
      ParseDigitsIgnoresLeadingZeros(width - |d|, d);
    } else {
      assert ZeroPad(n, width) == d;
    }
  }

  /** Two different numbers never share a padded rendering. */
  lemma FormatIntInjective(a: int, b: int, width: nat)
    requires FormatInt(a, width) == FormatInt(b, width)
    ensures a == b
  {
    if a >= 0 {
      assert b >= 0;
      ZeroPadInjective(a, b, width);
    } else {
      assert b < 0;
      var w := if width == 0 then 0 else width - 1;
      SignedTail(-a, w);
      SignedTail(-b, w);
      ZeroPadInjective(-a, -b, w);
    }
  }

  lemma ZeroPadInjective(a: nat, b: nat, width: nat)
    requires ZeroPad(a, width) == ZeroPad(b, width)
    ensures a == b
  {
    ParseZeroPad(a, width);
    ParseZeroPad(b, width);
  }

  lemma SignedTail(n: nat, w: nat)
    ensures ("-" + ZeroPad(n, w))[1..] == ZeroPad(n, w)
  {
  }

  /** `sub` occurs in `s` starting at index `i`. */
  predicate OccursAt(sub: string, s: string, i: int) {
    0 <= i && i + |sub| <= |s| && s[i..i + |sub|] == sub
  }

  /** Python's `sub in s` on strings, scanning the start positions left to right. */
  function Contains(sub: string, s: string): bool
    decreases |s|
  {
    if |s| < |sub| then false
    else s[..|sub|] == sub || (0 < |s| && Contains(sub, s[1..]))
  }

  /** The scan agrees with the window definition of substring. */
  lemma {:induction false} ContainsIff(sub: string, s: string)
    ensures Contains(sub, s) <==> exists i :: OccursAt(sub, s, i)
    decreases |s|
  {
    if |s| >= |sub| && 0 < |s| {
      ContainsIff(sub, s[1..]);
      if Contains(sub, s[1..]) {
        var i :| OccursAt(sub, s[1..], i);
        assert s[i + 1..i + 1 + |sub|] == s[1..][i..i + |sub|];
        assert OccursAt(sub, s, i + 1);
      }
      if s[..|sub|] == sub {
        assert OccursAt(sub, s, 0);
      }
      if exists i :: OccursAt(sub, s, i) {
        var i :| OccursAt(sub, s, i);
        if i > 0 {
          assert s[1..][i - 1..i - 1 + |sub|] == s[i..i + |sub|];
          assert OccursAt(sub, s[1..], i - 1);
        }
      }
    } else if |s| >= |sub| {
      assert OccursAt(sub, s, 0);
    }
  }

  /** Python's `s.endswith(suffix)`. */
  predicate EndsWith(s: string, suffix: string) {
    |suffix| <= |s| && s[|s| - |suffix|..] == suffix
  }

  /** Python's `a <= b` on strings: code-point lexicographic order, a proper
      prefix sorting first. */
  function LexLe(a: string, b: string): bool
    decreases |a|
  {
    if |a| == 0 then true
    else if |b| == 0 then false
    else if a[0] != b[0] then a[0] < b[0]
    else LexLe(a[1..], b[1..])
  }

  lemma {:induction false} LexLeTotal(a: string, b: string)
    ensures LexLe(a, b) || LexLe(b, a)
    decreases |a|
  {
    if |a| > 0 && |b| > 0 && a[0] == b[0] {
      LexLeTotal(a[1..], b[1..]);
    }
  }

  lemma {:induction false} LexLeTransitive(a: string, b: string, c: string)
    requires LexLe(a, b) && LexLe(b, c)
    ensures LexLe(a, c)
    decreases |a|
  {
    if |a| > 0 && |b| > 0 && |c| > 0 && a[0] == b[0] == c[0] {
      LexLeTransitive(a[1..], b[1..], c[1..]);
    }
  }
}
