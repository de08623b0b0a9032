/** Decimal text of unsigned machine integers: `to_string`, `{:0w}` and `str::parse::<usize>`. */
module Decimal {
  import opened Prelude
  import Text

  /** usize is 64 bits wide on every platform the archiver is built for. */
  const USIZE_MAX: nat := 0xFFFF_FFFF_FFFF_FFFF

  predicate IsDigit(c: char) {
    '0' <= c <= '9'
  }

  predicate AllDigits(s: string) {
    forall i :: 0 <= i < |s| ==> IsDigit(s[i])
  }

  function Digit(d: nat): (c: char)
    requires d < 10
    ensures IsDigit(c) && DigitValue(c) == d
  {
    (d + '0' as int) as char
  }

  function DigitValue(c: char): nat
    requires IsDigit(c)
  {
    c as int - '0' as int
  }

  /** The shortest decimal text. */
  function Render(n: nat): (s: string)
    ensures |s| > 0 && AllDigits(s)
  {
    if n < 10 then [Digit(n)] else Render(n / 10) + [Digit(n % 10)]
  }

  /** The number a string of digits denotes, leading zeros included. */
  function Value(s: string): nat
    requires AllDigits(s)
  {
    if s == [] then 0 else 10 * Value(s[..|s| - 1]) + DigitValue(s[|s| - 1])
  }

  /** An optional plus sign and at least one digit, without regard to the machine width. */
  function ParseNat(s: string): Option<nat> {
    var digits := if |s| > 1 && s[0] == '+' then s[1..] else s;
    if digits == [] || !AllDigits(digits) then None else Some(Value(digits))
  }

  /** `str::parse::<usize>`: the same texts, provided the number fits the width. */
  function ParseUsize(s: string): Option<nat> {
    match ParseNat(s)
    case None => None
    case Some(n) => if n > USIZE_MAX then None else Some(n)
  }

  function Zeros(k: nat): (s: string)
    ensures |s| == k && AllDigits(s)
  {
    seq(k, _ => '0')
  }

  /** `{:0w}`: zero-padded to at least `width` characters. */
  function Pad(n: nat, width: nat): (s: string)
    ensures |s| == Max(width, |Render(n)|) && AllDigits(s)
  {
    var r := Render(n);
    Zeros(Max(0, width - |r|)) + r
  }

  lemma {:induction false} ValueOfRender(n: nat)
    ensures Value(Render(n)) == n
  {
    if n >= 10 {
      ValueOfRender(n / 10);
      assert Render(n)[..|Render(n)| - 1] == Render(n / 10);
    }
  }

  lemma {:induction false} ValueOfZeros(k: nat, s: string)
    requires AllDigits(s)
    ensures Value(Zeros(k) + s) == Value(s)
    decreases k + |s|
  {
    var t := Zeros(k) + s;
    if s != [] {
      ValueOfZeros(k, s[..|s| - 1]);
      assert t[..|t| - 1] == Zeros(k) + s[..|s| - 1];
    } else if k > 0 {
      ValueOfZeros(k - 1, s);
      assert t[..|t| - 1] == Zeros(k - 1) + s;
    }
  }

  lemma ValueOfPad(n: nat, width: nat)
    ensures Value(Pad(n, width)) == n
  {
    ValueOfRender(n);
    ValueOfZeros(Max(0, width - |Render(n)|), Render(n));
  }

  /** Reading back a printed number gives the number, padded or not. */
  lemma ParsePad(n: nat, width: nat)
    ensures ParseNat(Pad(n, width)) == Some(n)
    ensures ParseUsize(Pad(n, width)) == if n <= USIZE_MAX then Some(n) else None
  {
    ValueOfPad(n, width);
    assert IsDigit(Pad(n, width)[0]);
  }

  lemma ParseRender(n: nat)
    ensures ParseUsize(Render(n)) == if n <= USIZE_MAX then Some(n) else None
  {
    ParsePad(n, 0);
    assert Zeros(0) + Render(n) == Render(n);
  }

  /** A larger number never has a shorter text. */
  lemma {:induction false} RenderLengthMonotone(a: nat, b: nat)
    requires a <= b
    ensures |Render(a)| <= |Render(b)|
  {
    if a >= 10 {
      RenderLengthMonotone(a / 10, b / 10);
    }
  }

  function Power10(k: nat): nat {
    if k == 0 then 1 else 10 * Power10(k - 1)
  }

  /** The numbers below a power of ten are those that fit its columns. */
  lemma {:induction false} LengthIs(n: nat, columns: nat)
    requires columns > 0
    ensures |Render(n)| <= columns <==> n < Power10(columns)
    ensures columns == 10 ==> Power10(columns) == 10_000_000_000
  {
    if columns > 1 && n >= 10 {
      LengthIs(n / 10, columns - 1);
    }
    TenTens(columns);
  }

  lemma TenTens(columns: nat)
    ensures columns == 10 ==> Power10(columns) == 10_000_000_000
    ensures columns > 0 ==> Power10(columns) >= 10
  {
    assert Power10(5) == 100_000;
    assert Power10(10) == 100_000 * Power10(5);
    if columns > 1 {
      TenTens(columns - 1);
    }
  }

  /** Exactly the numbers up to 999 fit the three columns of a file index. */
  lemma ThreeDigits(n: nat)
    ensures n <= 999 <==> |Pad(n, 3)| == 3
  {
    assert Render(999) == Render(99) + [Digit(9)] && Render(99) == Render(9) + [Digit(9)];
    assert |Render(999)| == 3;
    assert |Render(100)| == 3 && |Render(1000)| == 4 by {
      assert Render(1000) == Render(100) + [Digit(0)];
      assert Render(100) == Render(10) + [Digit(0)];
      assert Render(10) == Render(1) + [Digit(0)];
    }
    if n <= 999 {
      RenderLengthMonotone(n, 999);
    } else {
      RenderLengthMonotone(1000, n);
    }
  }

  /** Among texts of one length, numeric order is the order of the texts. */
  lemma {:induction false} SameLengthOrder(a: string, b: string)
    requires AllDigits(a) && AllDigits(b) && |a| == |b|
    ensures Value(a) <= Value(b) <==> Text.LexLeq(a, b)
    decreases |a|
  {
    if a != [] {
      var s, x, t, y := a[..|a| - 1], a[|a| - 1], b[..|b| - 1], b[|b| - 1];
      assert a == s + [x] && b == t + [y];
      SameLengthOrder(s, t);
      SameLengthOrder(t, s);
      if Text.LexLeq(s, t) && Text.LexLeq(t, s) {
        Text.LexAntisymmetric(s, t);
      }
      Text.LexTotal(s, t);
      Text.LexSnoc(s, x, t, y);
    }
  }
}
