/** Positional notation, most significant digit first: the arithmetic behind the Base58, hexadecimal and decimal codecs. */
module Radix {
  function Pow(b: nat, n: nat): (p: nat)
    ensures b > 0 ==> p > 0
  {
    if n == 0 then 1 else Pow(b, n - 1) * b
  }

  ghost predicate AllBelow(s: seq<nat>, b: nat) {
    forall i | 0 <= i < |s| :: s[i] < b
  }

  // The number the digits s denote in base b.
  function Value(s: seq<nat>, b: nat): nat {
    if s == [] then 0 else Value(s[..|s| - 1], b) * b + s[|s| - 1]
  }

  lemma MulLess(x: nat, y: nat, r: nat, b: nat)
    requires x < y && r < b
    ensures x * b + r < y * b
  {
    assert (x + 1) * b <= y * b;
  }

  lemma MulMonotone(x: int, y: int, b: nat)
    requires x <= y
    ensures x * b <= y * b
  {
  }

  lemma {:induction false} PowMonotone(b: nat, m: nat, n: nat)
    requires b > 0 && m <= n
    ensures Pow(b, m) <= Pow(b, n)
    decreases n
  {
    if m < n {
      PowMonotone(b, m, n - 1);
      assert Pow(b, n) == Pow(b, n - 1) * b;
      MulMonotone(1, b, Pow(b, n - 1));
    }
  }

  lemma QuotientBounds(v: nat, b: nat, q: int, r: nat)
    requires r < b && v == q * b + r
    ensures 0 <= q <= v
    ensures b > 1 && v > 0 ==> q < v
  {
  }

  function Quotient(v: nat, b: nat): (q: nat)
    requires b > 0
    ensures v == q * b + v % b
    ensures q <= v
    ensures b > 1 && v > 0 ==> q < v
  {
    QuotientBounds(v, b, v / b, v % b);
    v / b
  }

  // The n low digits of v in base b.
  function Digits(v: nat, b: nat, n: nat): (s: seq<nat>)
    requires b > 0
    ensures |s| == n
  {
    if n == 0 then [] else Digits(Quotient(v, b), b, n - 1) + [v % b]
  }

  lemma {:induction false} DigitsBelow(v: nat, b: nat, n: nat)
    requires b > 0
    ensures AllBelow(Digits(v, b, n), b)
  {
    if n > 0 {
      DigitsBelow(Quotient(v, b), b, n - 1);
    }
  }

  lemma DivMod(q: nat, r: nat, b: nat)
    requires r < b
    ensures Quotient(q * b + r, b) == q && (q * b + r) % b == r
  {
    hide Quotient;
    var v := q * b + r;
    var p := Quotient(v, b);
    if p < q {
      MulLess(p, q, v % b, b);
    } else if p > q {
      MulLess(q, p, r, b);
    }
  }

  lemma {:induction false} ValueBound(s: seq<nat>, b: nat)
    requires AllBelow(s, b)
    ensures Value(s, b) < Pow(b, |s|)
  {
    if s != [] {
      ValueBound(s[..|s| - 1], b);
      MulLess(Value(s[..|s| - 1], b), Pow(b, |s| - 1), s[|s| - 1], b);
    }
  }

  // The digits of the value are the digits.
  lemma {:induction false} DigitsOfValue(s: seq<nat>, b: nat)
    requires b > 0 && AllBelow(s, b)
    ensures Digits(Value(s, b), b, |s|) == s
  {
    hide Quotient;
    if s != [] {
      var front, last := s[..|s| - 1], s[|s| - 1];
      DigitsOfValue(front, b);
      DivMod(Value(front, b), last, b);
      assert s == front + [last];
    }
  }

  // The value of the digits is the number, when they have room for it.
  lemma {:induction false} ValueOfDigits(v: nat, b: nat, n: nat)
    requires b > 0 && v < Pow(b, n)
    ensures Value(Digits(v, b, n), b) == v
  {
    hide Quotient;
    if n > 0 {
      var s, q := Digits(v, b, n), Quotient(v, b);
      assert s[..n - 1] == Digits(q, b, n - 1);
      if q >= Pow(b, n - 1) {
        MulMonotone(Pow(b, n - 1), q, b);
      }
      ValueOfDigits(q, b, n - 1);
    }
  }

  lemma Distribute(x: nat, p: nat, y: nat, b: nat, d: nat)
    ensures (x * p + y) * b + d == x * (p * b) + (y * b + d)
  {
  }

  lemma {:induction false} ValueConcat(s: seq<nat>, t: seq<nat>, b: nat)
    ensures Value(s + t, b) == Value(s, b) * Pow(b, |t|) + Value(t, b)
  {
    if t == [] {
      assert s + t == s;
    } else {
      var front, last := t[..|t| - 1], t[|t| - 1];
      assert (s + t)[..|s + t| - 1] == s + front;
      ValueConcat(s, front, b);
      Distribute(Value(s, b), Pow(b, |front|), Value(front, b), b, last);
    }
  }

  function MulAdd(x: nat, y: nat, z: nat): nat {
    x * y + z
  }

  lemma ValueOfFirst(s: seq<nat>, b: nat)
    requires s != []
    ensures Value(s, b) == MulAdd(Pow(b, |s| - 1), s[0], Value(s[1..], b))
  {
    assert s == s[..1] + s[1..];
    ValueConcat(s[..1], s[1..], b);
    assert Value(s[..1], b) == Value([], b) * b + s[0];
  }

  lemma {:induction false} ZeroDigits(b: nat, n: nat)
    requires b > 0
    ensures Digits(0, b, n) == seq(n, _ => 0)
  {
    if n > 0 {
      ZeroDigits(b, n - 1);
    }
  }
}
