/** Fixed-width decimal text and byte-lexicographic order. */
module Decimal {
  import opened Wrappers

  const ZERO: byte := 48

  predicate IsDigit(b: byte) { ZERO <= b <= ZERO + 9 }

  predicate AllDigits(s: seq<byte>) { forall i | 0 <= i < |s| :: IsDigit(s[i]) }

  function Pow10(n: nat): (p: nat)
    ensures p > 0
  {
    if n == 0 then 1 else 10 * Pow10(n - 1)
  }

  /** The number a digit string denotes. */
  function Value(s: seq<byte>): nat
    requires AllDigits(s)
  {
    if s == [] then 0 else Value(s[..|s| - 1]) * 10 + (s[|s| - 1] - ZERO)
  }

  /** `n` as exactly `width` digits. */
  function Dec(n: nat, width: nat): (s: seq<byte>)
    ensures |s| == width && AllDigits(s)
  {
    if width == 0 then [] else Dec(n / 10, width - 1) + [ZERO + n % 10]
  }

  lemma {:induction false} ValueOfDec(n: nat, width: nat)
    requires n < Pow10(width)
    ensures Value(Dec(n, width)) == n
  {
    if width > 0 {
      ValueOfDec(n / 10, width - 1);
      assert Dec(n, width)[..width - 1] == Dec(n / 10, width - 1);
    }
  }

  lemma {:induction false} DecOfValue(s: seq<byte>)
    requires AllDigits(s)
    ensures Value(s) < Pow10(|s|)
    ensures Dec(Value(s), |s|) == s
  {
    if s != [] {
      var init := s[..|s| - 1];
      DecOfValue(init);
      assert Value(s) / 10 == Value(init) && Value(s) % 10 == s[|s| - 1] - ZERO;
      assert s == init + [s[|s| - 1]];
    }
  }

  lemma {:induction false} ValueOfConcat(a: seq<byte>, b: seq<byte>)
    requires AllDigits(a) && AllDigits(b)
    ensures Value(a + b) == Value(a) * Pow10(|b|) + Value(b)
  {
    if b == [] {
      assert a + b == a;
    } else {
      var init := b[..|b| - 1];
      assert (a + b)[..|a + b| - 1] == a + init;
      ValueOfConcat(a, init);
      assert (a + b)[|a + b| - 1] == b[|b| - 1];
      NextDigit(Value(a), Pow10(|init|), Value(init), b[|b| - 1] - ZERO);
    }
  }

  lemma NextDigit(v: nat, p: nat, w: nat, digit: nat)
    ensures (v * p + w) * 10 + digit == v * (10 * p) + (w * 10 + digit)
  {
    assert v * (10 * p) == 10 * (v * p);
  }

  /** `count` zero digits. */
  function Zeros(count: nat): (s: seq<byte>)
    ensures |s| == count && AllDigits(s)
  {
    seq(count, _ => ZERO)
  }

  lemma {:induction false} ValueOfZeros(s: seq<byte>)
    requires forall i | 0 <= i < |s| :: s[i] == ZERO
    ensures Value(s) == 0
  {
    if s != [] {
      ValueOfZeros(s[..|s| - 1]);
    }
  }

  lemma {:induction false} PowAdds(a: nat, b: nat)
    ensures Pow10(a + b) == Pow10(a) * Pow10(b)
  {
    if a > 0 {
      PowAdds(a - 1, b);
      assert Pow10(a + b) == 10 * (Pow10(a - 1) * Pow10(b)) == 10 * Pow10(a - 1) * Pow10(b);
    }
  }

  // --- Byte-lexicographic order, as a binary text comparison decides it. ---

  predicate LexLess(a: seq<byte>, b: seq<byte>) {
    b != [] && (a == [] || a[0] < b[0] || (a[0] == b[0] && LexLess(a[1..], b[1..])))
  }

  predicate LexAtMost(a: seq<byte>, b: seq<byte>) { a == b || LexLess(a, b) }

  lemma {:induction false} LexOfConcat(a1: seq<byte>, a2: seq<byte>, b1: seq<byte>, b2: seq<byte>)
    requires |a1| == |b1|
    ensures LexLess(a1 + a2, b1 + b2) <==> LexLess(a1, b1) || (a1 == b1 && LexLess(a2, b2))
  {
    if a1 == [] {
      assert a1 + a2 == a2 && b1 + b2 == b2;
    } else {
      assert (a1 + a2)[1..] == a1[1..] + a2 && (b1 + b2)[1..] == b1[1..] + b2;
      LexOfConcat(a1[1..], a2, b1[1..], b2);
      assert a1 == [a1[0]] + a1[1..] && b1 == [b1[0]] + b1[1..];
    }
  }

  // For texts of one width, text order is number order.
  lemma {:induction false} LexOfDec(m: nat, n: nat, width: nat)
    requires m < Pow10(width) && n < Pow10(width)
    ensures LexLess(Dec(m, width), Dec(n, width)) <==> m < n
    ensures Dec(m, width) == Dec(n, width) <==> m == n
  {
    ValueOfDec(m, width);
    ValueOfDec(n, width);
    if width > 0 {
      LexOfDec(m / 10, n / 10, width - 1);
      LexOfConcat(Dec(m / 10, width - 1), [ZERO + m % 10], Dec(n / 10, width - 1), [ZERO + n % 10]);
    }
  }
}
