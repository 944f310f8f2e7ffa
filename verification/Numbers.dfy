/** Numbers in text: how they are read, how they are printed, and what every digit string stands for. */
module Numbers {
  import opened Wrappers
  import opened Bytes
  import opened Texts

  // ----- Reading -----

  function DigitValue(c: char): Option<nat> {
    if '0' <= c <= '9' then Some((c - '0') as int)
    else if 'a' <= c <= 'f' then Some((c - 'a') as int + 10)
    else if 'A' <= c <= 'F' then Some((c - 'A') as int + 10)
    else None
  }

  /** Value of a digit string in the given radix, or None at the first bad digit or beyond 64 bits. */
  function Digits(s: string, radix: nat, acc: u64): Option<u64>
    requires 2 <= radix <= 16
  {
    if s == [] then Some(acc) else
    var d :- DigitValue(s[0]);
    if d >= radix || acc * radix + d >= TWO64 then None else Digits(s[1..], radix, acc * radix + d)
  }

  /** `u64::from_str_radix`: at least one digit, optionally after a plus sign. */
  function FromRadix(s: string, radix: nat): Option<u64>
    requires 2 <= radix <= 16
  {
    var digits := if |s| > 1 && s[0] == '+' then s[1..] else s;
    if digits == [] then None else Digits(digits, radix, 0)
  }

  // ----- Printing -----

  predicate IsHexDigit(c: char) { '0' <= c <= '9' || 'A' <= c <= 'F' }

  function DigitChar(d: nat): (c: char)
    requires d < 16
    ensures IsHexDigit(c)
  {
    "0123456789ABCDEF"[d]
  }

  /** A number in the given radix, without leading zeros. */
  function Numeral(n: nat, radix: nat): (s: string)
    requires 2 <= radix <= 16
    ensures s != [] && forall i :: 0 <= i < |s| ==> IsHexDigit(s[i])
    decreases n
  {
    if n < radix then [DigitChar(n)] else Numeral(n / radix, radix) + [DigitChar(n % radix)]
  }

  lemma DigitRoundTrip(d: nat)
    requires d < 16
    ensures DigitValue(DigitChar(d)) == Some(d)
  {}

  lemma {:induction false} DigitsSnoc(s: string, last: char, radix: nat, acc: u64)
    requires 2 <= radix <= 16
    ensures Digits(s + [last], radix, acc) == Longer(Digits(s, radix, acc), DigitValue(last), radix)
  {
    NoDigits(radix);
    hide Digits, DigitValue;
    if s == [] {
      DigitsCons(last, [], radix, acc);
      assert [] + [last] == [last] + [];
    } else {
      var c, rest := s[0], s[1..];
      assert s == [c] + rest && s + [last] == [c] + (rest + [last]);
      DigitsCons(c, rest, radix, acc);
      DigitsCons(c, rest + [last], radix, acc);
      var v := DigitValue(c);
      if v.Some? {
        var next: int := acc * radix + v.value;
        ProductIsNatural(acc, radix);
        if v.value < radix && next < TWO64 {
          DigitsSnoc(rest, last, radix, next);
        }
      }
    }
  }

  /** A value with one more digit behind it, while it fits 64 bits. */
  function Longer(v: Option<u64>, d: Option<nat>, radix: nat): Option<u64> {
    if v.None? || d.None? || d.value >= radix || v.value * radix + d.value >= TWO64 then None
    else
      ProductIsNatural(v.value, radix);
      Some(v.value * radix + d.value)
  }

  lemma LongerIs(q: u64, d: nat, radix: nat, n: u64)
    requires d < radix && n == q * radix + d
    ensures Longer(Some(q), Some(d), radix) == Some(n)
  {}

  lemma ProductIsNatural(a: nat, b: nat)
    ensures a * b >= 0
  {}

  lemma NoDigits(radix: nat)
    requires 2 <= radix <= 16
    ensures forall acc: u64 :: Digits("", radix, acc) == Some(acc)
  {}

  lemma DigitsCons(c: char, rest: string, radix: nat, acc: u64)
    requires 2 <= radix <= 16
    ensures Digits([c] + rest, radix, acc) ==
            match DigitValue(c)
            case None => None
            case Some(v) =>
              var next := acc * radix + v;
              if v >= radix || next >= TWO64 then None else Digits(rest, radix, next)
  {
    assert ([c] + rest)[1..] == rest;
  }

  lemma {:induction false} DigitsOfNumeral(n: u64, radix: nat)
    requires 2 <= radix <= 16
    ensures Digits(Numeral(n, radix), radix, 0) == Some(n)
    decreases n
  {
    hide Numeral, Digits;
    NumeralSteps(n, radix);
    if n < radix {
      OneDigit(n, radix);
    } else {
      var q: u64, r: nat := n / radix, n % radix;
      Quotient(n, radix);
      DigitsOfNumeral(q, radix);
      OneDigitMore(q, r, radix, n);
    }
  }

  lemma NumeralSteps(n: nat, radix: nat)
    requires 2 <= radix <= 16
    ensures Numeral(n, radix)
            == if n < radix then [DigitChar(n)] else Numeral(n / radix, radix) + [DigitChar(n % radix)]
  {}

  lemma OneDigitMore(q: u64, d: nat, radix: nat, n: u64)
    requires 2 <= radix <= 16 && d < radix && n == q * radix + d && Digits(Numeral(q, radix), radix, 0) == Some(q)
    ensures Digits(Numeral(q, radix) + [DigitChar(d)], radix, 0) == Some(n)
  {
    LongerIs(q, d, radix, n);
    DigitRoundTrip(d);
    DigitsSnoc(Numeral(q, radix), DigitChar(d), radix, 0);
    hide Digits, DigitChar, DigitValue, Numeral, Longer;
  }

  lemma OneDigit(d: nat, radix: nat)
    requires d < radix && 2 <= radix <= 16
    ensures Digits([DigitChar(d)], radix, 0) == Some(d)
  {
    DigitRoundTrip(d);
    hide DigitChar, DigitValue;
    assert [DigitChar(d)][1..] == [];
  }

  lemma Quotient(n: nat, radix: nat)
    requires radix >= 2
    ensures (n / radix) * radix + n % radix == n && n / radix <= n
  {}

  // ----- What a digit string stands for -----

  /** The sixteen digits, in either case, and nothing else. */
  lemma DigitValueTable(c: char, d: nat)
    requires d < 16
    ensures DigitValue(c) == Some(d) <==> c == "0123456789ABCDEF"[d] || c == "0123456789abcdef"[d]
    ensures DigitValue(c).Some? ==> DigitValue(c).value < 16
  {
    UpperDigit(d);
    LowerCaseDigit(d);
  }

  lemma UpperDigit(d: nat)
    requires d < 16
    ensures "0123456789ABCDEF"[d] == if d < 10 then '0' + d as char else 'A' + (d - 10) as char
  {}

  lemma LowerCaseDigit(d: nat)
    requires d < 16
    ensures "0123456789abcdef"[d] == if d < 10 then '0' + d as char else 'a' + (d - 10) as char
  {}

  /** The positional value, read from the right; None when some character is no digit of the radix. */
  function PositionalValue(s: string, radix: nat): Option<nat>
    requires 2 <= radix <= 16
  {
    if s == [] then Some(0) else
    var higher :- PositionalValue(s[..|s| - 1], radix);
    var last :- DigitValue(s[|s| - 1]);
    if last >= radix then None
    else
      ProductIsNatural(higher, radix);
      Some(higher * radix + last)
  }

  /** Reading from the left gives the positional value, if it fits 64 bits. */
  lemma {:induction false} DigitsArePositional(s: string, radix: nat)
    requires 2 <= radix <= 16
    ensures Digits(s, radix, 0)
            == match PositionalValue(s, radix) case Some(v) => if v < TWO64 then Some(v) else None case None => None
  {
    NoDigits(radix);
    hide Digits, DigitValue;
    if s != [] {
      var before, last := s[..|s| - 1], s[|s| - 1];
      assert s == before + [last];
      DigitsSnoc(before, last, radix, 0);
      DigitsArePositional(before, radix);
      var v := PositionalValue(before, radix);
      if v.Some? && v.value >= TWO64 {
        ProductGrows(v.value, radix);
      }
    }
  }

  lemma ProductGrows(a: nat, b: nat)
    requires b >= 2
    ensures a * b >= a
  {}

  /** A number is read if and only if it is one or more digits, perhaps after a plus sign, whose value fits. */
  lemma FromRadixExact(s: string, radix: nat, n: u64)
    requires 2 <= radix <= 16
    ensures FromRadix(s, radix) == Some(n) <==>
              || (s != [] && PositionalValue(s, radix) == Some(n))
              || (|s| > 1 && s[0] == '+' && PositionalValue(s[1..], radix) == Some(n))
  {
    DigitsArePositional(s, radix);
    if |s| > 1 && s[0] == '+' {
      DigitsArePositional(s[1..], radix);
      SignIsNoDigit(s, radix);
    }
    hide Digits, PositionalValue;
  }

  lemma {:induction false} SignIsNoDigit(s: string, radix: nat)
    requires 2 <= radix <= 16 && s != [] && s[0] == '+'
    ensures PositionalValue(s, radix) == None
  {
    if |s| > 1 {
      SignIsNoDigit(s[..|s| - 1], radix);
    }
  }

  /** Reading does not depend on the case of the digits. */
  lemma {:induction false} CaseIsIgnored(s: string, radix: nat, acc: u64)
    requires 2 <= radix <= 16
    ensures Digits(ToLower(s), radix, acc) == Digits(s, radix, acc)
  {
    hide DigitValue;
    if s != [] {
      LowerDigit(s[0]);
      assert ToLower(s)[1..] == ToLower(s[1..]);
      var d := DigitValue(s[0]);
      if d.Some? {
        var next: int := acc * radix + d.value;
        ProductIsNatural(acc, radix);
        if d.value < radix && next < TWO64 {
          CaseIsIgnored(s[1..], radix, next);
        }
      }
    }
  }

  lemma LowerDigit(c: char)
    ensures DigitValue(ToLower([c])[0]) == DigitValue(c)
  {}
}
