/**
 * Printing and parsing amounts (html/js/cn_util.js). An amount is a whole number of smallest units; a coin has 10^places
 * of them. JSBigInt is modelled by the integers.
 */
module Money {
  import opened Radix

  predicate IsDigit(c: char) {
    '0' <= c <= '9'
  }

  predicate AllDigits(s: string) {
    forall i | 0 <= i < |s| :: IsDigit(s[i])
  }

  function DigitValues(s: string): (d: seq<nat>)
    requires AllDigits(s)
    ensures |d| == |s| && forall i | 0 <= i < |s| :: d[i] == s[i] as int - '0' as int
  {
    seq(|s|, i requires 0 <= i < |s| => s[i] as int - '0' as int)
  }

  // The number that a string of decimal digits denotes; "" is read as 0.
  function NumberOf(s: string): nat
    requires AllDigits(s)
  {
    Value(DigitValues(s), 10)
  }

  // n.toString() of a natural number
  function Decimal(n: nat): (s: string)
    ensures |s| > 0 && AllDigits(s)
  {
    if n < 10 then [(n + '0' as int) as char] else Decimal(n / 10) + [(n % 10 + '0' as int) as char]
  }

  function Size(units: int): nat {
    if units < 0 then -units else units
  }

  function Sign(units: int): string {
    if units < 0 then "-" else ""
  }

  // units.toString()
  function ToString(units: int): (s: string)
    ensures |s| > 0
  {
    if units < 0 then "-" + Decimal(-units) else Decimal(units)
  }

  function Repeat(c: char, n: nat): (s: string)
    ensures |s| == n
  {
    seq(n, _ => c)
  }

  // str, filled up with c in front to at least len characters
  function PadLeft(str: string, len: nat, c: char): (s: string) {
    if |str| < len then Repeat(c, len - |str|) + str else str
  }

  // str without the copies of c at its end
  function TrimRight(str: string, c: char): string {
    if str != "" && str[|str| - 1] == c then TrimRight(str[..|str| - 1], c) else str
  }

  // padLeft
  method PadLeftLoop(s: string, len: nat, c: char) returns (str: string)
    ensures str == PadLeft(s, len, c)
  {
    str := s;
    ghost var added := 0;
    while |str| < len
      invariant added >= 0 && str == Repeat(c, added) + s
      invariant added == 0 || |str| <= len
    {
      assert [c] + Repeat(c, added) == Repeat(c, added + 1);
      str := [c] + str;
      added := added + 1;
    }
  }

  // trimRight
  method TrimRightLoop(s: string, c: char) returns (str: string)
    ensures str == TrimRight(s, c)
  {
    str := s;
    while str != "" && str[|str| - 1] == c
      invariant TrimRight(str, c) == TrimRight(s, c)
      decreases |str|
    {
      str := str[..|str| - 1];
    }
  }

  // The digits in front of the point and those behind it.
  function Parts(digits: string, places: nat): (string, string) {
    (if |digits| > places then digits[..|digits| - places] else "0",
     if |digits| >= places then digits[|digits| - places..] else PadLeft(digits, places, '0'))
  }

  // formatMoneyFull
  function FormatMoneyFull(units: int, places: nat): string {
    var text := ToString(units);
    var symbol := if text[0] == '-' then "-" else "";
    var (whole, decimal) := Parts(if symbol == "-" then text[1..] else text, places);
    symbol + whole + "." + decimal
  }

  // formatMoney
  function FormatMoney(units: int, places: nat): string {
    var f := TrimRight(FormatMoneyFull(units, places), '0');
    if f != "" && f[|f| - 1] == '.' then f[..|f| - 1] else f
  }

  // str.indexOf('.')
  function DotIndex(s: string): (i: int)
    ensures -1 <= i < |s|
    ensures i >= 0 ==> s[i] == '.' && '.' !in s[..i]
    ensures i < 0 ==> '.' !in s
  {
    if s == "" then -1
    else if s[0] == '.' then 0
    else
      var i := DotIndex(s[1..]);
      if i < 0 then -1 else i + 1
  }

  // What parseMoney returns: an amount; for a negative amount with a decimal point the method `negate` itself, which the
  // code names without calling it; or whatever JSBigInt makes of parts that are not all decimal digits.
  datatype Parsed = Amount(units: int) | NegateMethod | NotDecimal

  // parseMoney
  function ParseMoney(text: string, places: nat): Parsed {
    if text == "" then Amount(0)
    else
      var negative := text[0] == '-';
      ParseUnsigned(if negative then text[1..] else text, negative, places)
  }

  // parseMoney, behind the sign
  function ParseUnsigned(str: string, negative: bool, places: nat): Parsed {
    var dot := DotIndex(str);
    if dot < 0 then
      if !AllDigits(str) then NotDecimal
      else if negative then Amount(-(Scaled(NumberOf(str), places) as int))
      else Amount(Scaled(NumberOf(str), places))
    else
      var cut := Truncated(str, dot, places);
      var whole, decimal := cut[..dot], cut[dot + 1..];
      if !AllDigits(whole) || !AllDigits(decimal) then NotDecimal
      else if negative then NegateMethod
      else Amount(Scaled(NumberOf(whole), places) + Scaled(NumberOf(decimal), dot + places - |cut| + 1))
  }

  // str up to the last digit that counts
  function Truncated(str: string, dot: nat, places: nat): (cut: string)
    requires dot < |str|
    ensures dot < |cut| <= dot + places + 1
  {
    if dot + places + 1 < |str| then str[..dot + places + 1] else str
  }

  // n.exp10(e)
  function Scaled(n: nat, e: nat): (r: nat) {
    n * Pow(10, e)
  }

  // ---------- numbers and their digits ----------

  lemma NumberOfConcat(s: string, t: string)
    requires AllDigits(s) && AllDigits(t)
    ensures AllDigits(s + t) && NumberOf(s + t) == Scaled(NumberOf(s), |t|) + NumberOf(t)
  {
    hide Pow;
    ValueConcat(DigitValues(s), DigitValues(t), 10);
    assert DigitValues(s + t) == DigitValues(s) + DigitValues(t);
  }

  lemma NumberBound(s: string)
    requires AllDigits(s)
    ensures NumberOf(s) < Pow(10, |s|)
  {
    ValueBound(DigitValues(s), 10);
  }

  lemma OneDigit(d: nat)
    requires d < 10
    ensures var s := [(d + '0' as int) as char];
            AllDigits(s) && NumberOf(s) == d
  {
    var v := DigitValues([(d + '0' as int) as char]);
    assert v[..|v| - 1] == [] && v[|v| - 1] == d;
    assert Value(v, 10) == Value(v[..|v| - 1], 10) * 10 + d;
  }

  lemma {:induction false} NumberOfDecimal(n: nat)
    ensures NumberOf(Decimal(n)) == n
  {
    hide NumberOf;
    OneDigit(n % 10);
    if n >= 10 {
      NumberOfDecimal(n / 10);
      NumberOfConcat(Decimal(n / 10), [(n % 10 + '0' as int) as char]);
      assert Pow(10, 1) == 10;
    }
  }

  lemma {:induction false} Zeros(n: nat)
    ensures AllDigits(Repeat('0', n)) && NumberOf(Repeat('0', n)) == 0
  {
    if n > 0 {
      Zeros(n - 1);
      var v := DigitValues(Repeat('0', n));
      assert v[..n - 1] == DigitValues(Repeat('0', n - 1));
    }
  }

  lemma {:induction false} ScaledTwice(n: nat, d: nat, e: nat)
    ensures Scaled(Scaled(n, d), e) == Scaled(n, d + e)
  {
    if e == 0 {
    } else {
      ScaledTwice(n, d, e - 1);
      assert Scaled(n, d + e) == Scaled(n, d + e - 1) * 10 by {
        MulAssoc(n, Pow(10, d + e - 1), 10);
      }
      MulAssoc(Scaled(n, d), Pow(10, e - 1), 10);
    }
  }

  lemma MulAssoc(a: nat, b: nat, c: nat)
    ensures a * (b * c) == (a * b) * c
  {
  }

  // ---------- what is printed ----------

  lemma {:induction false} DecimalStart(n: nat)
    ensures n == 0 ==> Decimal(n) == "0"
    ensures n > 0 ==> Decimal(n)[0] != '0'
  {
    if n >= 10 {
      DecimalStart(n / 10);
    }
  }

  // The only digits of a number without a leading zero.
  lemma {:induction false} DecimalUnique(s: string)
    requires AllDigits(s) && s != "" && (|s| > 1 ==> s[0] != '0')
    ensures s == Decimal(NumberOf(s))
  {
    hide NumberOf, Scaled;
    var front, last := s[..|s| - 1], s[|s| - 1];
    var d := last as int - '0' as int;
    OneDigit(d);
    assert s == front + [last];
    if front == "" {
      assert s == [last];
    } else {
      NumberOfConcat(front, [last]);
      ScaledOnce(NumberOf(front));
      DecimalUnique(front);
      DecimalStart(NumberOf(front));
    }
  }

  function DigitChar(d: nat): char
    requires d < 10
  {
    (d + '0' as int) as char
  }

  // The last k decimal digits of n, with leading zeros.
  function FixedDigits(n: nat, k: nat): (s: string)
    ensures |s| == k
  {
    DigitsBelow(n, 10, k);
    seq(k, i requires 0 <= i < k => DigitChar(Digits(n, 10, k)[i]))
  }

  lemma FixedUnique(s: string)
    requires AllDigits(s)
    ensures s == FixedDigits(NumberOf(s), |s|)
  {
    DigitsOfValue(DigitValues(s), 10);
  }

  // ---------- parsing ----------

  lemma {:induction false} DotBetween(w: string, f: string)
    requires '.' !in w
    ensures DotIndex(w + "." + f) == |w|
  {
    var s := w + "." + f;
    if w != "" {
      assert s[1..] == w[1..] + "." + f;
      DotBetween(w[1..], f);
    }
  }

  lemma NoDot(w: string)
    requires AllDigits(w)
    ensures DotIndex(w) == -1 && '.' !in w
  {
  }

  // The digits of f that count.
  function Kept(f: string, places: nat): (k: string)
    ensures |k| <= places
  {
    if |f| <= places then f else f[..places]
  }

  lemma CutParts(w: string, f: string, places: nat)
    ensures var kept := Kept(f, places);
            && Truncated(w + "." + f, |w|, places) == w + "." + kept
            && (w + "." + kept)[..|w|] == w && (w + "." + kept)[|w| + 1..] == kept
  {
  }

  // What the parts of a text with a decimal point count for: whole coins, and the first `places` digits behind the point;
  // anything may follow these.
  lemma ParseParts(w: string, f: string, places: nat)
    requires AllDigits(w) && AllDigits(Kept(f, places))
    ensures var kept := Kept(f, places);
            && ParseMoney(w + "." + f, places)
               == Amount(Scaled(NumberOf(w), places) + Scaled(NumberOf(kept), places - |kept|))
            && ParseMoney("-" + w + "." + f, places) == NegateMethod
  {
    hide NumberOf, Scaled, ParseUnsigned, ParseMoney;
    UnsignedParts(w, f, true, places);
    UnsignedParts(w, f, false, places);
    assert (w + "." + f)[0] == if w == "" then '.' else w[0];
    Signed(w + "." + f, places);
    assert "-" + (w + "." + f) == "-" + w + "." + f;
  }

  lemma Signed(str: string, places: nat)
    requires str != "" && str[0] != '-'
    ensures ParseMoney(str, places) == ParseUnsigned(str, false, places)
    ensures ParseMoney("-" + str, places) == ParseUnsigned(str, true, places)
  {
    hide ParseUnsigned;
    assert ("-" + str)[1..] == str;
  }

  lemma UnsignedParts(w: string, f: string, negative: bool, places: nat)
    requires AllDigits(w) && AllDigits(Kept(f, places))
    ensures var kept := Kept(f, places);
            ParseUnsigned(w + "." + f, negative, places)
            == if negative then NegateMethod
                  else Amount(Scaled(NumberOf(w), places) + Scaled(NumberOf(kept), places - |kept|))
  {
    NoDot(w);
    hide NumberOf, Scaled, DotIndex, IsDigit, Truncated, Kept;
    DotBetween(w, f);
    CutParts(w, f, places);
  }

  // A text is not read as decimal exactly when one of the characters that count, all before the first point and `places`
  // behind it, is no digit.
  lemma NotDecimalExactly(str: string, negative: bool, places: nat)
    ensures var dot := DotIndex(str);
            ParseUnsigned(str, negative, places) == NotDecimal
            <==> exists i | 0 <= i < |str| :: i != dot && (dot < 0 || i <= dot + places) && !IsDigit(str[i])
  {
    hide NumberOf, Scaled, DotIndex, IsDigit;
    var dot := DotIndex(str);
    if dot >= 0 {
      var cut := Truncated(str, dot, places);
      forall i | dot < i < |cut| ensures str[i] in cut[dot + 1..] {
        assert cut[dot + 1..][i - dot - 1] == str[i];
      }
      assert cut <= str;
    }
  }

  lemma ParseWhole(w: string, places: nat)
    requires AllDigits(w)
    ensures ParseMoney(w, places) == Amount(Scaled(NumberOf(w), places))
    ensures ParseMoney("-" + w, places) == Amount(-(Scaled(NumberOf(w), places) as int))
  {
  }

  // Scaling by 10^|f| turns w.f into the number wf. A parsed amount is w.f coins in smallest units, rounded down.
  lemma ParsedIsFloor(w: string, f: string, places: nat)
    requires AllDigits(w) && AllDigits(f)
    ensures AllDigits(w + f)
    ensures var r := ParseMoney(w + "." + f, places);
            && r.Amount? && r.units >= 0
            && Scaled(r.units, |f|) <= Scaled(NumberOf(w + f), places) < Scaled(r.units + 1, |f|)
  {
    hide NumberOf, Scaled, ParseMoney;
    ParseParts(w, f, places);
    NumberOfConcat(w, f);
    var kept := Kept(f, places);
    var lost := f[|kept|..];
    assert f == kept + lost;
    NumberOfConcat(kept, lost);
    NumberBound(lost);
    Floor(NumberOf(w), NumberOf(kept), NumberOf(lost), places, |kept|, |lost|);
  }

  // (w * 10^(k + l) + f) * 10^p against r * 10^(k + l), where f = kept * 10^l + lost and r = w * 10^p + kept * 10^(p - k).
  lemma Floor(w: nat, kept: nat, lost: nat, p: nat, k: nat, l: nat)
    requires k <= p && lost < Pow(10, l) && (l > 0 ==> k == p)
    ensures var number := Scaled(w, k + l) + (Scaled(kept, l) + lost);
            var r := Scaled(w, p) + Scaled(kept, p - k);
            Scaled(r, k + l) <= Scaled(number, p) < Scaled(r + 1, k + l)
  {
    var number := Scaled(w, k + l) + (Scaled(kept, l) + lost);
    var r := Scaled(w, p) + Scaled(kept, p - k);
    ScaledSum(Scaled(w, k + l), Scaled(kept, l) + lost, p);
    ScaledSum(Scaled(kept, l), lost, p);
    ScaledTwice(w, k + l, p);
    ScaledTwice(kept, l, p);
    ScaledSum(Scaled(w, p), Scaled(kept, p - k), k + l);
    ScaledTwice(w, p, k + l);
    ScaledTwice(kept, p - k, k + l);
    ScaledSum(r, 1, k + l);
    hide Scaled;
    assert Scaled(number, p) == Scaled(r, k + l) + Scaled(lost, p);
    LostIsLess(lost, p, k, l);
  }

  lemma LostIsLess(lost: nat, p: nat, k: nat, l: nat)
    requires lost < Pow(10, l) && k <= p && (l > 0 ==> k == p)
    ensures Scaled(lost, p) < Scaled(1, k + l)
  {
    if l == 0 {
      assert lost == 0 && Scaled(lost, p) == 0;
    } else {
      hide Pow;
      MulLess(lost, Pow(10, l), 0, Pow(10, p));
      ScaledTwice(1, l, p);
    }
  }

  lemma ScaledSum(a: nat, b: nat, e: nat)
    ensures Scaled(a + b, e) == Scaled(a, e) + Scaled(b, e)
  {
  }

  // ---------- round trips ----------

  lemma PartsNumber(digits: string, places: nat)
    requires AllDigits(digits) && |digits| > 0
    ensures var (whole, decimal) := Parts(digits, places);
            && AllDigits(whole) && AllDigits(decimal) && |decimal| == places
            && Scaled(NumberOf(whole), places) + NumberOf(decimal) == NumberOf(digits)
  {
    hide NumberOf, Scaled, IsDigit;
    var (whole, decimal) := Parts(digits, places);
    if |digits| > places {
      assert digits == whole + decimal;
      NumberOfConcat(whole, decimal);
    } else {
      var zeros := Repeat('0', places - |digits|);
      assert decimal == zeros + digits;
      Zeros(places - |digits|);
      NumberOfConcat(zeros, digits);
      OneDigit(0);
      ScaledZero(places);
      ScaledZero(|digits|);
    }
  }

  lemma ScaledZero(e: nat)
    ensures Scaled(0, e) == 0
  {
  }

  lemma SignOf(units: int)
    ensures var text := ToString(units);
            var digits := Decimal(Size(units));
            if units < 0 then text[0] == '-' && text[1..] == digits else text == digits && text[0] != '-'
  {
  }

  lemma WholeIsDecimal(u: nat, places: nat)
    ensures var whole := Parts(Decimal(u), places).0;
            AllDigits(whole) && whole == Decimal(NumberOf(whole))
  {
    var digits, whole := Decimal(u), Parts(Decimal(u), places).0;
    DecimalStart(u);
    PartsNumber(digits, places);
    hide NumberOf, Decimal, IsDigit;
    DecimalUnique(whole);
  }

  // An amount is so many whole coins and so many smallest units.
  function Coins(u: nat, places: nat): nat {
    u / Pow(10, places)
  }

  function Units(u: nat, places: nat): nat {
    u % Pow(10, places)
  }

  lemma CoinParts(whole: nat, decimal: nat, places: nat)
    requires decimal < Pow(10, places)
    ensures Coins(Scaled(whole, places) + decimal, places) == whole
    ensures Units(Scaled(whole, places) + decimal, places) == decimal
  {
    hide Pow;
    DivMod(whole, decimal, Pow(10, places));
  }

  lemma UnitsBelow(u: nat, places: nat)
    ensures Units(u, places) < Pow(10, places)
  {
    hide Pow;
  }

  // formatMoneyFull prints the sign, the whole coins without leading zeros, the point, and all the decimals.
  lemma FullText(units: int, places: nat)
    ensures var u := Size(units);
            FormatMoneyFull(units, places)
            == Sign(units) + Decimal(Coins(u, places)) + "." + FixedDigits(Units(u, places), places)
  {
    hide NumberOf, Decimal, Parts, ToString, AllDigits, FixedDigits, Coins, Units, Scaled, Pow;
    var u := Size(units);
    var parts := Parts(Decimal(u), places);
    SignOf(units);
    NumberOfDecimal(u);
    PartsNumber(Decimal(u), places);
    WholeIsDecimal(u, places);
    NumberBound(parts.1);
    FixedUnique(parts.1);
    CoinParts(NumberOf(parts.0), NumberOf(parts.1), places);
  }

  // trimRight removes all copies of c at the end, and nothing else.
  lemma {:induction false} TrimRightIs(s: string, c: char)
    ensures var t := TrimRight(s, c);
            && |t| <= |s| && s == t + Repeat(c, |s| - |t|)
            && (t == "" || t[|t| - 1] != c)
  {
    if s != "" && s[|s| - 1] == c {
      var front := s[..|s| - 1];
      TrimRightIs(front, c);
      var t := TrimRight(front, c);
      assert Repeat(c, |s| - |t|) == Repeat(c, |front| - |t|) + [c];
    }
  }

  // formatMoney prints the same without the decimals' trailing zeros, and without the point when no decimals are left.
  lemma ShortText(units: int, places: nat)
    ensures var u := Size(units);
            var whole, decimals := Sign(units) + Decimal(Coins(u, places)), FixedDigits(Units(u, places), places);
            && FormatMoney(units, places) != ""
            && FormatMoney(units, places)
               == if Units(u, places) == 0 then whole else whole + "." + TrimRight(decimals, '0')
  {
    hide FormatMoneyFull, FormatMoney, Decimal, FixedDigits, NumberOf, TrimRight, Pow, Scaled, Coins, Units;
    var u := Size(units);
    var whole, fixed := Sign(units) + Decimal(Coins(u, places)), FixedDigits(Units(u, places), places);
    FullText(units, places);
    UnitsBelow(u, places);
    FixedNumber(Units(u, places), places);
    TrimPoint(whole, fixed);
    TrimmedNumber(fixed);
    PointDropped(units, places, whole, TrimRight(fixed, '0'));
  }

  lemma PointDropped(units: int, places: nat, whole: string, trimmed: string)
    requires AllDigits(trimmed) && TrimRight(FormatMoneyFull(units, places), '0') == whole + "." + trimmed
    ensures FormatMoney(units, places) == if trimmed == "" then whole else whole + "." + trimmed
  {
    hide FormatMoneyFull, TrimRight;
    var f := whole + "." + trimmed;
    if trimmed == "" {
      assert f[..|f| - 1] == whole;
    } else {
      assert f[|f| - 1] == trimmed[|trimmed| - 1];
    }
  }

  lemma FixedNumber(n: nat, k: nat)
    requires n < Pow(10, k)
    ensures AllDigits(FixedDigits(n, k)) && NumberOf(FixedDigits(n, k)) == n
  {
    DigitsBelow(n, 10, k);
    ValueOfDigits(n, 10, k);
    var s := FixedDigits(n, k);
    assert AllDigits(s);
    assert DigitValues(s) == Digits(n, 10, k);
  }

  // parseMoney gives back what formatMoneyFull printed, exactly for the amounts that are not negative.
  lemma FullRoundTrip(units: int, places: nat)
    ensures ParseMoney(FormatMoneyFull(units, places), places) == Amount(units) <==> units >= 0
  {
    hide FormatMoneyFull, ParseMoney, NumberOf, Scaled, Pow, Decimal, FixedDigits, Coins, Units;
    var u := Size(units);
    var whole, fixed := Decimal(Coins(u, places)), FixedDigits(Units(u, places), places);
    FullText(units, places);
    UnitsBelow(u, places);
    FixedNumber(Units(u, places), places);
    NumberOfDecimal(Coins(u, places));
    CoinSum(u, places);
    ScaledOnce(NumberOf(fixed));
    assert "" + whole == whole;
    ParseParts(whole, fixed, places);
  }

  // trimRight stops at the point.
  lemma {:induction false} TrimPoint(a: string, b: string)
    ensures TrimRight(a + "." + b, '0') == a + "." + TrimRight(b, '0')
  {
    var s := a + "." + b;
    if b != "" && b[|b| - 1] == '0' {
      assert s[..|s| - 1] == a + "." + b[..|b| - 1];
      TrimPoint(a, b[..|b| - 1]);
    }
  }

  // Trimmed zeros are what scaling puts back.
  lemma {:induction false} TrimmedNumber(s: string)
    requires AllDigits(s)
    ensures var t := TrimRight(s, '0');
            && |t| <= |s| && AllDigits(t) && NumberOf(s) == Scaled(NumberOf(t), |s| - |t|)
            && (t == "" <==> NumberOf(s) == 0)
  {
    hide NumberOf, Scaled;
    ScaledOnce(NumberOf(s));
    if s != "" {
      var front, last := s[..|s| - 1], s[|s| - 1];
      assert s == front + [last];
      OneDigit(last as int - '0' as int);
      NumberOfConcat(front, [last]);
      ScaledOnce(NumberOf(front));
      if last == '0' {
        TrimmedNumber(front);
        var t := TrimRight(front, '0');
        ScaledTwice(NumberOf(t), |front| - |t|, 1);
      }
    } else {
      Zeros(0);
      assert s == Repeat('0', 0);
    }
  }

  lemma ScaledOnce(n: nat)
    ensures Scaled(n, 0) == n && Scaled(n, 1) == 10 * n
  {
  }

  // parseMoney gives back what formatMoney printed, exactly for amounts that are not negative or are whole coins: for
  // other negative amounts it returns a method.
  lemma ShortRoundTrip(units: int, places: nat)
    ensures ParseMoney(FormatMoney(units, places), places) == Amount(units) <==> units >= 0 || -units % Pow(10, places) == 0
  {
    hide FormatMoney, ParseMoney, NumberOf, Scaled, Pow, Decimal, FixedDigits, TrimRight, Coins, Units;
    var u := Size(units);
    var whole, fixed := Decimal(Coins(u, places)), FixedDigits(Units(u, places), places);
    ShortText(units, places);
    UnitsBelow(u, places);
    FixedNumber(Units(u, places), places);
    NumberOfDecimal(Coins(u, places));
    TrimmedNumber(fixed);
    CoinSum(u, places);
    assert "" + whole == whole;
    ParseWhole(whole, places);
    ParseParts(whole, TrimRight(fixed, '0'), places);
  }

  lemma CoinSum(u: nat, places: nat)
    ensures u == Scaled(Coins(u, places), places) + Units(u, places)
    ensures Units(u, places) == 0 <==> u % Pow(10, places) == 0
  {
    hide Pow;
  }
}
