/** Reading decimal numbers the way `strconv.Atoi` does, on 64-bit integers. */
module Numerals {
  import opened Prelude

  const MAX_INT := 0x7fff_ffff_ffff_ffff

  predicate IsDigit(c: char) {
    '0' <= c <= '9'
  }

  predicate AllDigits(s: string) {
    forall i :: 0 <= i < |s| ==> IsDigit(s[i])
  }

  /** The number a text of digits stands for. */
  function Decimal(s: string): nat
    requires AllDigits(s)
  {
    if s == "" then 0 else 10 * Decimal(s[..|s| - 1]) + (s[|s| - 1] as int - '0' as int)
  }

  /** An optional sign and at least one digit, within the range of the type. */
  function Atoi(s: string): Option<int> {
    var negative := s != "" && s[0] == '-';
    var digits := if s != "" && (s[0] == '-' || s[0] == '+') then s[1..] else s;
    if digits == "" || !AllDigits(digits) then None
    else
      var n: int := Decimal(digits);
      if negative then (if n <= MAX_INT + 1 then Some(-n) else None)
      else if n <= MAX_INT then Some(n)
      else None
  }

  /** The digits of a number, without leading zeros. */
  function Digits(n: nat): string {
    (if n < 10 then "" else Digits(n / 10)) + [('0' as int + n % 10) as char]
  }

  lemma OneMoreDigit(s: string, c: char)
    requires AllDigits(s) && IsDigit(c)
    ensures AllDigits(s + [c]) && Decimal(s + [c]) == 10 * Decimal(s) + (c as int - '0' as int)
  {
    assert (s + [c])[..|s|] == s;
  }

  lemma {:induction false} DecimalOfDigits(n: nat)
    ensures Digits(n) != "" && AllDigits(Digits(n)) && Decimal(Digits(n)) == n
  {
    if n >= 10 {
      DecimalOfDigits(n / 10);
    }
    OneMoreDigit(if n < 10 then "" else Digits(n / 10), ('0' as int + n % 10) as char);
  }

  lemma AtoiOfDigits(s: string)
    requires s != "" && AllDigits(s)
    ensures Atoi(s) == if Decimal(s) <= MAX_INT then Some(Decimal(s)) else None
    ensures Atoi("+" + s) == if Decimal(s) <= MAX_INT then Some(Decimal(s)) else None
    ensures var n: int := Decimal(s);
            Atoi("-" + s) == if n <= MAX_INT + 1 then Some(-n) else None
  {
    assert IsDigit(s[0]);
    assert ("+" + s)[1..] == s && ("-" + s)[1..] == s;
  }

  /** A number that is written out, with or without a sign, is read as itself if an integer can hold it. */
  lemma AtoiRoundTrip(n: nat)
    ensures Atoi(Digits(n)) == if n < 0x8000_0000_0000_0000 then Some(n) else None
    ensures Atoi("+" + Digits(n)) == if n < 0x8000_0000_0000_0000 then Some(n) else None
    ensures var m: int := n;
            Atoi("-" + Digits(n)) == if m <= 0x8000_0000_0000_0000 then Some(-m) else None
  {
    DecimalOfDigits(n);
    AtoiOfDigits(Digits(n));
  }

  /** Anything but an optional sign and at least one digit is refused. */
  lemma AtoiRefuses(s: string)
    ensures Atoi(s).Some? ==>
              exists sign, digits ::
                s == sign + digits && (sign == "" || sign == "+" || sign == "-") && digits != "" && AllDigits(digits)
  {
    if Atoi(s).Some? {
      var n := if s[0] == '-' || s[0] == '+' then 1 else 0;
      assert s == s[..n] + s[n..] && (n == 1 ==> s[..n] == [s[0]]);
      assert s[0..] == s;
      assert s[n..] != "" && AllDigits(s[n..]);
    }
  }

  /** The two digits of a number below 100. */
  function TwoDigits(n: nat): string
    requires n < 100
  {
    [('0' as int + n / 10) as char, ('0' as int + n % 10) as char]
  }

  /** Two digits are read back as their number, with or without the leading zero. */
  lemma TwoDigitsRoundTrip(n: nat)
    requires n < 100
    ensures Atoi(TwoDigits(n)) == Some(n)
    ensures n < 10 ==> Atoi(TwoDigits(n)[1..]) == Some(n)
  {
    var s := TwoDigits(n);
    assert s[..1] == [s[0]] && [s[0]][..0] == "" && s[1..][..0] == "";
    assert Decimal(s[..1]) == 10 * Decimal([s[0]][..0]) + n / 10;
    assert Decimal(s) == n;
    if n < 10 {
      assert s[1..] == [s[1]];
      assert Decimal(s[1..]) == n;
    }
  }
}
