/**
 * The 'yyyy-MM-dd' date text that the dashboard formats with luxon's
 * toFormat('yyyy-MM-dd') and reads back with DateTime.fromISO, and that the
 * browser's date input produces.
 */
module IsoDate {
  import opened Wrappers
  import opened Calendar

  predicate IsDigit(c: char) { '0' <= c <= '9' }

  predicate AllDigits(s: string) {
    forall i :: 0 <= i < |s| ==> IsDigit(s[i])
  }

  function DigitChar(n: int): (c: char)
    requires 0 <= n < 10
    ensures IsDigit(c) && c as int - '0' as int == n
  {
    ('0' as int + n) as char
  }

  /** The decimal digits of n, without leading zeros. */
  function Digits(n: nat): (s: string)
    ensures 1 <= |s| && AllDigits(s)
    ensures n < 10 <==> |s| == 1
  {
    if n < 10 then [DigitChar(n)] else Digits(n / 10) + [DigitChar(n % 10)]
  }

  /** The value of a string of decimal digits; "" reads as 0. */
  function ParseDigits(s: string): nat
    requires AllDigits(s)
  {
    if s == [] then 0 else ParseDigits(s[..|s| - 1]) * 10 + (s[|s| - 1] as int - '0' as int)
  }

  function Zeros(k: nat): (s: string)
    ensures |s| == k && AllDigits(s)
  {
    seq(k, _ => '0')
  }

  /** JavaScript's padStart(width, '0') on the digits of n. */
  function ZeroPad(s: string, width: nat): (r: string)
    ensures |r| == if |s| < width then width else |s|
  {
    if |s| < width then Zeros(width - |s|) + s else s
  }

  /** luxon's fixed-width number formatting: zero-filled to `width`, a '-' before negative numbers. */
  function PadNumber(n: int, width: nat): string {
    if n < 0 then "-" + ZeroPad(Digits(-n), width) else ZeroPad(Digits(n), width)
  }

  /** toFormat('yyyy-MM-dd'). */
  function FormatIsoDate(d: Date): string {
    PadNumber(d.year, 4) + "-" + PadNumber(d.month, 2) + "-" + PadNumber(d.day, 2)
  }

  /**
   * DateTime.fromISO on the calendar-date form: exactly four year digits, two
   * month digits and two day digits separated by '-', naming a real date;
   * anything else is an invalid DateTime (None).
   */
  function ParseIsoDate(s: string): (r: Option<Date>)
    ensures r.Some? ==> ValidDate(r.value) && 0 <= r.value.year <= 9999
  {
    if |s| == 10 && s[4] == '-' && s[7] == '-'
       && AllDigits(s[..4]) && AllDigits(s[5..7]) && AllDigits(s[8..])
    then
      var d := Date(ParseDigits(s[..4]), ParseDigits(s[5..7]), ParseDigits(s[8..]));
      LessThanPower(s[..4]);
      if ValidDate(d) then Some(d) else None
    else None
  }

  lemma {:induction false} LessThanPower(s: string)
    requires AllDigits(s) && |s| <= 4
    ensures ParseDigits(s) < if |s| == 0 then 1 else if |s| == 1 then 10 else if |s| == 2 then 100
                             else if |s| == 3 then 1000 else 10000
  {
    if s != [] {
      LessThanPower(s[..|s| - 1]);
    }
  }

  lemma {:induction false} ParseDigitsAppend(s: string, c: char)
    requires AllDigits(s) && IsDigit(c)
    ensures AllDigits(s + [c])
    ensures ParseDigits(s + [c]) == ParseDigits(s) * 10 + (c as int - '0' as int)
  {
    assert (s + [c])[..|s + [c]| - 1] == s;
  }

  lemma {:induction false} ParseDigitsOfDigits(n: nat)
    ensures ParseDigits(Digits(n)) == n
  {
    if n >= 10 {
      ParseDigitsOfDigits(n / 10);
      ParseDigitsAppend(Digits(n / 10), DigitChar(n % 10));
    }
  }

  lemma {:induction false} ParseLeadingZeros(k: nat, s: string)
    requires AllDigits(s)
    ensures AllDigits(Zeros(k) + s) && ParseDigits(Zeros(k) + s) == ParseDigits(s)
  {
    if s == [] {
      assert Zeros(k) + s == Zeros(k);
      ZerosParseToZero(k);
    } else {
      var init := s[..|s| - 1];
      var c := s[|s| - 1];
      assert s == init + [c];
      assert Zeros(k) + s == (Zeros(k) + init) + [c];
      ParseLeadingZeros(k, init);
      ParseDigitsAppend(Zeros(k) + init, c);
      ParseDigitsAppend(init, c);
    }
  }

  lemma {:induction false} ZerosParseToZero(k: nat)
    ensures ParseDigits(Zeros(k)) == 0
  {
    if k > 0 {
      assert Zeros(k)[..k - 1] == Zeros(k - 1);
      ZerosParseToZero(k - 1);
    }
  }

  lemma PadNumberParses(n: nat, width: nat)
    ensures AllDigits(PadNumber(n, width)) && ParseDigits(PadNumber(n, width)) == n
  {
    var ds := Digits(n);
    ParseDigitsOfDigits(n);
    if |ds| < width {
      ParseLeadingZeros(width - |ds|, ds);
      assert PadNumber(n, width) == Zeros(width - |ds|) + ds;
    } else {
      assert PadNumber(n, width) == ds;
    }
  }

  lemma PadNumberLength(n: nat, width: nat, bound: nat)
    requires width >= 1 && n < bound
    requires (width == 2 && bound == 100) || (width == 4 && bound == 10000)
    ensures |PadNumber(n, width)| == width
  {
    if n >= 10 {
      assert Digits(n) == Digits(n / 10) + [DigitChar(n % 10)];
      if n / 10 >= 10 {
        assert Digits(n / 10) == Digits(n / 100) + [DigitChar(n / 10 % 10)];
        if n / 100 >= 10 {
          assert Digits(n / 100) == Digits(n / 1000) + [DigitChar(n / 100 % 10)];
        }
      }
    }
  }

  /** Round trip: every date with a four-digit year is read back from its formatted text. */
  lemma ParseFormatIsoDate(d: Date)
    requires ValidDate(d) && 0 <= d.year <= 9999
    ensures ParseIsoDate(FormatIsoDate(d)) == Some(d)
  {
    var y := PadNumber(d.year, 4);
    var m := PadNumber(d.month, 2);
    var dd := PadNumber(d.day, 2);
    PadNumberLength(d.year, 4, 10000);
    PadNumberLength(d.month, 2, 100);
    PadNumberLength(d.day, 2, 100);
    PadNumberParses(d.year, 4);
    PadNumberParses(d.month, 2);
    PadNumberParses(d.day, 2);
    var s := FormatIsoDate(d);
    assert s == y + "-" + m + "-" + dd;
    assert s[..4] == y && s[5..7] == m && s[8..] == dd;
  }
}
