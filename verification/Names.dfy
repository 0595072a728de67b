/** Decimal numbers inside file names. */
module Names {
  import opened Decimal

  predicate IsDecimalDigit(c: char) { '0' <= c <= '9' }

  function Digit(d: nat): (c: char)
    requires d < 10
    ensures IsDecimalDigit(c)
  {
    '0' + d as char
  }

  /** A number without leading zeros, as it is formatted into names. */
  function NatText(n: nat): (text: string)
    ensures text != [] && forall c <- text :: IsDecimalDigit(c)
  {
    if n < 10 then [Digit(n)] else NatText(n / 10) + [Digit(n % 10)]
  }

  lemma {:induction false} NatTextIsInjective(m: nat, n: nat)
    requires NatText(m) == NatText(n)
    ensures m == n
  {
    var s := NatText(m);
    var last := |s| - 1;
    if m < 10 && n < 10 {
      assert s[0] == Digit(m) == Digit(n);
    } else if m >= 10 && n >= 10 {
      assert s[last] == Digit(m % 10) == Digit(n % 10);
      assert s[..last] == NatText(m / 10) == NatText(n / 10);
      NatTextIsInjective(m / 10, n / 10);
    }
  }

  function IntText(n: int): string { if n < 0 then "-" + NatText(-n) else NatText(n) }

  lemma DashOnlyInFront(n: int)
    ensures IntText(n) != [] && forall i | 0 < i < |IntText(n)| :: IsDecimalDigit(IntText(n)[i])
    ensures IntText(n)[0] == '-' <==> n < 0
  {
    assert NatText(if n < 0 then -n else n)[0] in NatText(if n < 0 then -n else n);
    forall i | 0 < i < |IntText(n)|
      ensures IsDecimalDigit(IntText(n)[i])
    {
      assert n < 0 ==> IntText(n)[i] == NatText(-n)[i - 1];
      assert n >= 0 ==> IntText(n)[i] in NatText(n);
    }
  }

  lemma IntTextIsInjective(m: int, n: int)
    requires IntText(m) == IntText(n)
    ensures m == n
  {
    DashOnlyInFront(m);
    DashOnlyInFront(n);
    if m < 0 {
      assert NatText(-m) == IntText(m)[1..] == NatText(-n);
      NatTextIsInjective(-m, -n);
    } else {
      NatTextIsInjective(m, n);
    }
  }

  /** The last `width` digits of a number, with leading zeros. */
  function Padded(n: nat, width: nat): (text: string)
    ensures |text| == width && forall c <- text :: IsDecimalDigit(c)
  {
    if width == 0 then [] else Padded(n / 10, width - 1) + [Digit(n % 10)]
  }

  lemma {:induction false} PaddedIsInjective(m: nat, n: nat, width: nat)
    requires m < Pow10(width) && n < Pow10(width) && Padded(m, width) == Padded(n, width)
    ensures m == n
  {
    if width > 0 {
      assert Digit(m % 10) == Padded(m, width)[width - 1] == Digit(n % 10);
      assert Padded(m / 10, width - 1) == Padded(m, width)[..width - 1] == Padded(n / 10, width - 1);
      PaddedIsInjective(m / 10, n / 10, width - 1);
    }
  }

  // A name that ends in a separator and a part free of that separator splits in only one way.
  lemma {:induction false} LastPartIsUnique(a: string, x: string, b: string, y: string, separator: char)
    requires a + [separator] + x == b + [separator] + y
    requires separator !in x && separator !in y
    ensures a == b && x == y
  {
    var whole := a + [separator] + x;
    assert whole[|a|] == separator && whole == b + [separator] + y && whole[|b|] == separator;
    assert |a| == |b|;
    assert a == whole[..|a|] == b;
    assert x == whole[|a| + 1..] == y;
  }

  // A name that starts with a part free of a separator, and the separator, splits in only one way.
  lemma FirstPartIsUnique(x: string, a: string, y: string, b: string, separator: char)
    requires x + [separator] + a == y + [separator] + b
    requires separator !in x && separator !in y
    ensures x == y && a == b
  {
    var whole := x + [separator] + a;
    assert whole[|x|] == separator && whole == y + [separator] + b && whole[|y|] == separator;
    assert |x| == |y|;
    assert x == whole[..|x|] == y;
    assert a == whole[|x| + 1..] == b;
  }
}
