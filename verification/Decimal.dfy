/** Decimal text: fmt's %d and zero-padded %0nd, and strconv.Atoi. */
module Decimal {
  import opened Bytes

  function DigitChar(d: nat): (c: char)
    requires d < 10
    ensures '0' <= c <= '9'
  {
    '0' + d as char
  }

  predicate IsDigit(c: char) {
    '0' <= c <= '9'
  }

  function DigitValue(c: char): (d: nat)
    requires IsDigit(c)
    ensures d < 10
  {
    c as int - '0' as int
  }

  function Digits(n: nat): (s: string)
    ensures s != [] && forall c :: c in s ==> IsDigit(c)
  {
    if n < 10 then [DigitChar(n)] else Digits(n / 10) + [DigitChar(n % 10)]
  }

  function Zeros(k: nat): (s: string)
    ensures |s| == k && forall c :: c in s ==> c == '0'
  {
    seq(k, i => '0')
  }

  /** fmt.Sprintf("%0<width>d", n). */
  function Padded(n: nat, width: nat): (s: string)
    ensures |s| >= width && forall c :: c in s ==> IsDigit(c)
  {
    var d := Digits(n);
    if |d| < width then Zeros(width - |d|) + d else d
  }

  function Value(s: string): nat
    requires forall c :: c in s ==> IsDigit(c)
  {
    if s == [] then 0 else Value(s[..|s| - 1]) * 10 + DigitValue(s[|s| - 1])
  }

  /** strconv.Atoi on a short string: an optional sign, then one or more digits. */
  function Atoi(s: string): Option<int> {
    var digits := if s != [] && (s[0] == '-' || s[0] == '+') then s[1..] else s;
    if digits == [] || exists c :: c in digits && !IsDigit(c) then None
    else
      var n: int := Value(digits);
      Some(if s[0] == '-' then -n else n)
  }

  lemma {:induction false} ValueAppend(s: string, c: char)
    requires forall x :: x in s + [c] ==> IsDigit(x)
    ensures (forall x :: x in s ==> IsDigit(x)) && IsDigit(c)
    ensures Value(s + [c]) == Value(s) * 10 + DigitValue(c)
  {
    assert forall x :: x in s ==> x in s + [c];
    assert c in s + [c];
    assert (s + [c])[..|s|] == s;
  }

  lemma ValueOfDigit(d: nat)
    requires d < 10
    ensures DigitValue(DigitChar(d)) == d && Value([DigitChar(d)]) == d
  {
    ValueAppend([], DigitChar(d));
    assert [] + [DigitChar(d)] == [DigitChar(d)];
  }

  lemma {:induction false} ValueOfDigits(n: nat)
    ensures Value(Digits(n)) == n
  {
    if n < 10 {
      ValueOfDigit(n);
    } else {
      var most, last := n / 10, n % 10;
      ValueOfDigits(most);
      ValueOfDigit(last);
      ValueAppend(Digits(most), DigitChar(last));
    }
  }

  lemma {:induction false} ValueOfZeros(k: nat, s: string)
    requires forall c :: c in s ==> IsDigit(c)
    ensures forall c :: c in Zeros(k) + s ==> IsDigit(c)
    ensures Value(Zeros(k) + s) == Value(s)
  {
    if s == [] {
      assert Zeros(k) + s == Zeros(k);
      if k > 0 {
        assert Zeros(k) == Zeros(k - 1) + ['0'];
        ValueOfZeros(k - 1, s);
        assert Zeros(k - 1) + s == Zeros(k - 1);
        ValueAppend(Zeros(k - 1), '0');
      }
    } else {
      var front, last := s[..|s| - 1], s[|s| - 1];
      assert Zeros(k) + s == (Zeros(k) + front) + [last];
      ValueOfZeros(k, front);
      ValueAppend(Zeros(k) + front, last);
    }
  }

  /** The number can be read back, whatever the padding. */
  lemma ValueOfPadded(n: nat, width: nat)
    ensures Value(Padded(n, width)) == n
  {
    ValueOfDigits(n);
    if |Digits(n)| < width {
      ValueOfZeros(width - |Digits(n)|, Digits(n));
    }
  }

  function Pow10(k: nat): (r: nat)
    ensures r > 0
  {
    if k == 0 then 1 else 10 * Pow10(k - 1)
  }

  lemma {:induction false} DigitsFit(n: nat, width: nat)
    requires width > 0
    ensures |Digits(n)| <= width <==> n < Pow10(width)
  {
    if width == 1 {
    } else if n >= 10 {
      DigitsFit(n / 10, width - 1);
    }
  }

  /** The padded text has exactly the asked width when the number fits, and more when it does not. */
  lemma {:induction false} PaddedWidth(n: nat, width: nat)
    requires width > 0
    ensures |Padded(n, width)| == width <==> n < Pow10(width)
  {
    DigitsFit(n, width);
  }

  /** Atoi reads back what %0nd wrote. */
  lemma AtoiOfPadded(n: nat, width: nat)
    ensures Atoi(Padded(n, width)) == Some(n)
  {
    var s := Padded(n, width);
    ValueOfPadded(n, width);
    assert s[0] in s;
  }

  /** Every digit counted from the right, by its ASCII code: 48 for 0, up to 57 for 9. */
  lemma {:induction false} DigitAt(n: nat, width: nat, k: nat)
    requires k < |Padded(n, width)|
    ensures var s := Padded(n, width); s[|s| - 1 - k] as int == 48 + n / Pow10(k) % 10
  {
    PaddedFromRight(n, width, k);
    if k < |Digits(n)| {
      DigitOfDigits(n, k);
    } else {
      DigitsFit(n, |Digits(n)|);
      PowGrows(|Digits(n)|, k);
      QuotientIs(n, Pow10(k), 0, n);
    }
  }

  lemma {:induction false} PaddedFromRight(n: nat, width: nat, k: nat)
    requires k < |Padded(n, width)|
    ensures var s, d := Padded(n, width), Digits(n);
            s[|s| - 1 - k] == if k < |d| then d[|d| - 1 - k] else '0'
  {
    var s, d := Padded(n, width), Digits(n);
    if |d| < width {
      var zeros := Zeros(width - |d|);
      assert s == zeros + d;
      if k >= |d| {
        assert s[|s| - 1 - k] == zeros[|s| - 1 - k] && zeros[|s| - 1 - k] in zeros;
      }
    }
  }

  lemma {:induction false} DigitOfDigits(n: nat, k: nat)
    requires k < |Digits(n)|
    ensures var s := Digits(n); s[|s| - 1 - k] as int == 48 + n / Pow10(k) % 10
    decreases k
  {
    if n >= 10 && k > 0 {
      DigitOfDigits(n / 10, k - 1);
      TenthFirst(n, Pow10(k - 1));
    }
  }

  lemma TenthFirst(n: nat, d: nat)
    requires d > 0
    ensures n / 10 / d == n / (10 * d)
  {
    var q, r := n / (10 * d), n % (10 * d);
    assert n == 10 * (d * q) + r;
    assert n / 10 == d * q + r / 10 && 0 <= r / 10 < d;
    QuotientIs(n / 10, d, q, r / 10);
  }

  lemma {:induction false} PowGrows(a: nat, b: nat)
    requires a <= b
    ensures Pow10(a) <= Pow10(b)
  {
    if a < b {
      PowGrows(a, b - 1);
    }
  }

  /** A sign is taken in front of the digits, and nothing but digits behind it. */
  lemma AtoiOfSigned(s: string)
    requires s != [] && s[0] !in {'-', '+'}
    ensures Atoi(['+'] + s) == Atoi(s)
    ensures Atoi(['-'] + s) == match Atoi(s) case Some(n) => Some(-n) case None => None
    ensures Atoi(s).Some? <==> forall i :: 0 <= i < |s| ==> 48 <= s[i] as int <= 57
  {
    assert (['+'] + s)[1..] == s && (['-'] + s)[1..] == s;
    if Atoi(s).Some? {
      forall i | 0 <= i < |s| ensures IsDigit(s[i]) {
        assert s[i] in s;
      }
    }
  }

  lemma {:induction false} ValueBound(s: string)
    requires forall c :: c in s ==> IsDigit(c)
    ensures Value(s) < Pow10(|s|)
  {
    if s != [] {
      ValueBound(s[..|s| - 1]);
    }
  }

  /** What Atoi reads from three characters is below 1000. */
  lemma AtoiOfThree(s: string)
    requires |s| == 3 && Atoi(s).Some?
    ensures Atoi(s).value < 1000
  {
    assert Pow10(3) == 1000 && Pow10(2) == 100;
    var digits := if s[0] == '-' || s[0] == '+' then s[1..] else s;
    ValueBound(digits);
  }
}
