/**
 * How the dashboard turns numbers into text: `int(x)` of a value,
 * `f"{n}"` (plain decimal) and `f"€{n:,}"` (comma-grouped thousands after a
 * euro sign), as used for the metric cards (idealista_app.py, lines 183, 193,
 * 203) and for the price columns of the data table (lines 484-485).
 *
 * Alongside each formatter there is a parser that reads its output back;
 * the round-trip lemmas tie the two together.
 */
module Formatting {
  import opened Wrappers

  // ---------------------------------------------------------------------
  // int(x): truncation toward zero
  // ---------------------------------------------------------------------

  /** `int(x)` of a number: drop the fractional part, rounding toward zero. */
  function Trunc(x: real): (i: int)
    ensures x >= 0.0 ==> i as real <= x < i as real + 1.0
    ensures x < 0.0 ==> i as real - 1.0 < x <= i as real
  {
    if x >= 0.0 then x.Floor else -((-x).Floor)
  }

  /** Truncating a value that lies between two integers gives an integer
      between them as well, whatever the sign of the value. */
  lemma TruncWithin(x: real, lo: int, hi: int)
    requires lo as real <= x <= hi as real
    ensures lo <= Trunc(x) <= hi
  {
  }

  // ---------------------------------------------------------------------
  // Decimal digits
  // ---------------------------------------------------------------------

  predicate IsDigit(c: char)
  {
    '0' <= c <= '9'
  }

  predicate AllDigits(s: string)
  {
    forall i :: 0 <= i < |s| ==> IsDigit(s[i])
  }

  function DigitChar(d: nat): (c: char)
    requires d < 10
    ensures IsDigit(c) && c as int - '0' as int == d
  {
    ('0' as int + d) as char
  }

  /** The number a string of decimal digits denotes. */
  function DigitsValue(s: string): nat
    requires AllDigits(s)
  {
    if s == [] then 0 else DigitsValue(s[..|s| - 1]) * 10 + (s[|s| - 1] as int - '0' as int)
  }

  /** `f"{n}"` for a natural number: its decimal digits, without leading zeros. */
  function Decimal(n: nat): (s: string)
    ensures |s| >= 1 && AllDigits(s)
    ensures s[0] == '0' ==> s == "0"
    ensures DigitsValue(s) == n
  {
    if n < 10 then [DigitChar(n)]
    else
      var s := Decimal(n / 10) + [DigitChar(n % 10)];
      assert s[..|s| - 1] == Decimal(n / 10);
      s
  }

  // ---------------------------------------------------------------------
  // Thousands grouping
  // ---------------------------------------------------------------------

  /** The string with every comma removed. */
  function StripCommas(s: string): (r: string)
  {
    if s == [] then [] else (if s[0] == ',' then [] else [s[0]]) + StripCommas(s[1..])
  }

  lemma {:induction false} StripCommasConcat(a: string, b: string)
    ensures StripCommas(a + b) == StripCommas(a) + StripCommas(b)
  {
    if a == [] {
      assert a + b == b;
    } else {
      assert (a + b)[0] == a[0];
      assert (a + b)[1..] == a[1..] + b;
      StripCommasConcat(a[1..], b);
    }
  }

  lemma {:induction false} StripCommasOfDigits(s: string)
    requires AllDigits(s)
    ensures StripCommas(s) == s
  {
    if s != [] {
      StripCommasOfDigits(s[1..]);
    }
  }

  /** Commas stand exactly at every fourth place counting from the right end. */
  predicate CommasEveryFourth(g: string)
  {
    forall k :: 0 <= k < |g| ==> (g[|g| - 1 - k] == ',' <==> k % 4 == 3)
  }

  /** Every character is a digit or a comma. */
  predicate DigitsAndCommas(g: string)
  {
    forall k :: 0 <= k < |g| ==> g[k] == ',' || IsDigit(g[k])
  }

  /** Appending a comma and three digits to a grouped string keeps it grouped. */
  lemma AppendGroup(head: string, tail: string)
    requires CommasEveryFourth(head) && DigitsAndCommas(head)
    requires |tail| == 3 && AllDigits(tail)
    ensures CommasEveryFourth(head + [','] + tail)
    ensures DigitsAndCommas(head + [','] + tail)
  {
    var g := head + [','] + tail;
    assert |g| == |head| + 4;
    forall k | 0 <= k < |g| ensures g[|g| - 1 - k] == ',' <==> k % 4 == 3 {
      if k < 3 {
        assert g[|g| - 1 - k] == tail[2 - k] && IsDigit(tail[2 - k]);
      } else if k == 3 {
        assert g[|g| - 1 - k] == g[|head|] == ',';
      } else {
        var k' := k - 4;
        assert g[|g| - 1 - k] == head[|head| - 1 - k'];
        assert head[|head| - 1 - k'] == ',' <==> k' % 4 == 3;
        assert k % 4 == k' % 4;
      }
    }
    forall k | 0 <= k < |g| ensures g[k] == ',' || IsDigit(g[k]) {
      if k < |head| {
        assert g[k] == head[k];
      } else if k > |head| {
        assert g[k] == tail[k - |head| - 1];
      }
    }
  }

  /** The comma before an appended group of digits is dropped with the others. */
  lemma StripAppendedGroup(head: string, tail: string)
    requires AllDigits(tail)
    ensures StripCommas(head + [','] + tail) == StripCommas(head) + tail
  {
    StripCommasConcat(head + [','], tail);
    StripCommasConcat(head, [',']);
    StripCommasOfDigits(tail);
  }

  /** The `,` format option applied to a string of digits: a comma before every
      group of three digits, counting from the right. */
  function GroupThousands(s: string): (g: string)
    requires AllDigits(s)
    ensures |s| > 0 ==> |g| == |s| + (|s| - 1) / 3
    ensures CommasEveryFourth(g) && DigitsAndCommas(g)
    ensures StripCommas(g) == s
    ensures |g| > 0 ==> g[0] != ','
  {
    if |s| <= 3 then
      StripCommasOfDigits(s);
      s
    else
      var init, tail := s[..|s| - 3], s[|s| - 3..];
      var head := GroupThousands(init);
      AppendGroup(head, tail);
      StripAppendedGroup(head, tail);
      assert s == init + tail;
      assert |init| == |s| - 3 && |head| == |init| + (|init| - 1) / 3;
      assert (head + [','] + tail)[0] == head[0];
      head + [','] + tail
  }

  /** `g` is the digits `d` with commas at every fourth place from the right,
      and no comma in front. */
  predicate Grouped(g: string, d: string)
  {
    CommasEveryFourth(g) && DigitsAndCommas(g) && StripCommas(g) == d && (|g| > 0 ==> g[0] != ',')
  }

  /** `t` is `n` in plain decimal: a minus sign for a negative number, then
      the digits of its magnitude without leading zeros. */
  predicate WrittenInDecimal(t: string, n: int)
  {
    if n < 0 then |t| > 1 && t[0] == '-' && t[1..] == Decimal(-n) else t == Decimal(n)
  }

  /** `t` is `n` grouped in thousands: a minus sign for a negative number,
      then the digits of its magnitude with a comma before every group of
      three. */
  predicate WrittenInThousands(t: string, n: int)
  {
    if n < 0 then |t| > 1 && t[0] == '-' && Grouped(t[1..], Decimal(-n)) else Grouped(t, Decimal(n))
  }

  /** `t` is a euro sign followed by `n` grouped in thousands. */
  predicate WrittenInEuros(t: string, n: int)
  {
    |t| > 0 && t[0] == '€' && WrittenInThousands(t[1..], n)
  }

  /** `f"{n}"` for any integer. */
  function IntText(n: int): (t: string)
    ensures WrittenInDecimal(t, n)
  {
    var sign := if n < 0 then "-" else "";
    var t := sign + Decimal(if n < 0 then -n else n);
    assert n < 0 ==> t[1..] == Decimal(-n);
    t
  }

  /** `f"{n:,}"`: the sign, then the digits grouped in threes by commas. */
  function ThousandsText(n: int): (t: string)
    ensures WrittenInThousands(t, n)
  {
    var sign := if n < 0 then "-" else "";
    var g := GroupThousands(Decimal(if n < 0 then -n else n));
    var t := sign + g;
    assert if n < 0 then t[1..] == g else t == g;
    t
  }

  /** `f"€{n:,}"`. */
  function CurrencyText(n: int): (t: string)
    ensures WrittenInEuros(t, n)
  {
    var t := "€" + ThousandsText(n);
    assert t[1..] == ThousandsText(n);
    t
  }

  /** Reads back an optionally signed, possibly comma-grouped, decimal integer. */
  function ParseInt(t: string): Option<int>
  {
    var negative := |t| > 0 && t[0] == '-';
    var digits := StripCommas(if negative then t[1..] else t);
    if |digits| == 0 || !AllDigits(digits) then None
    else
      var value: int := DigitsValue(digits);
      Some(if negative then -value else value)
  }

  /** Reads back an amount written as `€` followed by a grouped integer. */
  function ParseCurrency(t: string): Option<int>
  {
    if |t| > 0 && t[0] == '€' then ParseInt(t[1..]) else None
  }

  /** Any text of the form `f"{n:,}"` produces, reads back as `n`. */
  lemma ReadThousands(t: string, n: int)
    requires WrittenInThousands(t, n)
    ensures ParseInt(t) == Some(n)
  {
    if n < 0 {
      assert StripCommas(t[1..]) == Decimal(-n);
    } else {
      var d := Decimal(n);
      assert StripCommas(t) == d;
      assert |t| > 0 && t[0] != '-' by {
        assert |StripCommas(t)| > 0;
        assert t[0] == ',' || IsDigit(t[0]);
      }
    }
  }

  /** Any text of the form `f"{n}"` produces, reads back as `n`. */
  lemma ReadDecimal(t: string, n: int)
    requires WrittenInDecimal(t, n)
    ensures ParseInt(t) == Some(n)
  {
    var d := Decimal(if n < 0 then -n else n);
    StripCommasOfDigits(d);
    if n < 0 {
      assert t[1..] == d;
    } else {
      assert t == d && IsDigit(t[0]);
    }
  }

  /** Any text of the form `f"€{n:,}"` produces, reads back as `n`. */
  lemma ReadEuros(t: string, n: int)
    requires WrittenInEuros(t, n)
    ensures ParseCurrency(t) == Some(n)
  {
    ReadThousands(t[1..], n);
  }

  lemma ThousandsRoundTrip(n: int)
    ensures ParseInt(ThousandsText(n)) == Some(n)
  {
    ReadThousands(ThousandsText(n), n);
  }

  lemma IntTextRoundTrip(n: int)
    ensures ParseInt(IntText(n)) == Some(n)
  {
    ReadDecimal(IntText(n), n);
  }

  lemma CurrencyRoundTrip(n: int)
    ensures ParseCurrency(CurrencyText(n)) == Some(n)
  {
    ReadEuros(CurrencyText(n), n);
  }

  /** Three digits need no comma, and none is put in front of them. */
  lemma ThreeDigitAmount()
    ensures CurrencyText(123) == "€123"
    ensures !WrittenInEuros("€,123", 123)
  {
    assert Decimal(12) == "12";
    assert Decimal(123) == "123";
    assert "€,123"[1..][0] == ',';
  }
}
