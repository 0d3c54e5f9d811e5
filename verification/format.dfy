/** The `MM:SS` text the controller shows in the status bar and on the Touch Bar: the
    minutes and the seconds of `timeLeft`, each printed with `%.2i` and joined by a colon,
    where minutes and seconds come from Swift's truncating division and remainder by 60. */
module Format {

  datatype Option<T> = None | Some(value: T)

  /** Swift's `/` on `Int`: the quotient truncated toward zero. */
  function Quot(a: int, b: int): int
    requires b > 0
  {
    if a >= 0 then a / b else -((-a) / b)
  }

  /** Swift's `%` on `Int`: the remainder takes the sign of the dividend. */
  function Rem(a: int, b: int): int
    requires b > 0
  {
    if a >= 0 then a % b else -((-a) % b)
  }

  /** Truncated division: `a == q * b + r`, `|r| < b`, and `r` has the sign of `a`;
      on a non-negative dividend it agrees with Dafny's Euclidean operators. */
  lemma QuotRem(a: int, b: int)
    requires b > 0
    ensures Quot(a, b) * b + Rem(a, b) == a
    ensures a >= 0 ==> 0 <= Rem(a, b) < b && Quot(a, b) == a / b && Rem(a, b) == a % b
    ensures a < 0 ==> -b < Rem(a, b) <= 0 && Quot(a, b) <= 0
  {
  }

  predicate IsDigit(c: char) { '0' <= c <= '9' }

  predicate AllDigits(s: string) { forall i :: 0 <= i < |s| ==> IsDigit(s[i]) }

  function DigitValue(c: char): nat
    requires IsDigit(c)
  {
    c as int - '0' as int
  }

  function DigitChar(d: nat): (c: char)
    requires d < 10
    ensures IsDigit(c) && DigitValue(c) == d
  {
    ('0' as int + d) as char
  }

  /** The number a string of decimal digits denotes (most significant first). */
  function ValueOf(s: string): nat
    requires AllDigits(s)
    decreases |s|
  {
    if s == [] then 0 else 10 * ValueOf(s[..|s| - 1]) + DigitValue(s[|s| - 1])
  }

  /** The decimal digits of `n`, most significant first, without leading zeros. */
  function Decimal(n: nat): (s: string)
    ensures AllDigits(s) && 1 <= |s|
    ensures |s| == 1 <==> n < 10
    ensures |s| <= 2 <==> n < 100
    ensures |s| > 1 ==> s[0] != '0'
    decreases n
  {
    if n < 10 then [DigitChar(n)] else Decimal(n / 10) + [DigitChar(n % 10)]
  }

  function Zeros(k: nat): (z: string)
  {
    seq(k, _ => '0')
  }

  /** printf's `%.<precision>i`: a minus sign for a negative value, then the digits of
      its magnitude, filled with zeros on the left up to `precision` digits. */
  function FormatInt(n: int, precision: nat): string
  {
    var digits := Decimal(if n < 0 then -n else n);
    var padded := if |digits| < precision then Zeros(precision - |digits|) + digits else digits;
    if n < 0 then "-" + padded else padded
  }

  /** The `timeLeftString` computed property. */
  function TimeLeftString(timeLeft: int): string
  {
    FormatInt(Quot(timeLeft, 60), 2) + ":" + FormatInt(Rem(timeLeft, 60), 2)
  }

  /** Reads an `MM:SS` text back: at least two minute digits, a colon, then two
      second digits denoting less than 60. */
  function ParseTimeLeft(s: string): Option<nat>
  {
    if |s| >= 5 && s[|s| - 3] == ':' && AllDigits(s[..|s| - 3]) && AllDigits(s[|s| - 2..])
       && ValueOf(s[|s| - 2..]) < 60
    then Some(60 * ValueOf(s[..|s| - 3]) + ValueOf(s[|s| - 2..]))
    else None
  }

  lemma {:induction false} DecimalRoundTrip(n: nat)
    ensures ValueOf(Decimal(n)) == n
    decreases n
  {
    if n >= 10 {
      var s := Decimal(n);
      assert s[..|s| - 1] == Decimal(n / 10);
      DecimalRoundTrip(n / 10);
    }
  }

  lemma {:induction false} ZerosDenoteZero(k: nat)
    ensures AllDigits(Zeros(k)) && ValueOf(Zeros(k)) == 0
  {
    if k > 0 {
      assert Zeros(k)[..k - 1] == Zeros(k - 1);
      ZerosDenoteZero(k - 1);
    }
  }

  /** Leading zeros do not change the value a digit string denotes. */
  lemma {:induction false} LeadingZeros(k: nat, s: string)
    requires AllDigits(s)
    ensures AllDigits(Zeros(k) + s) && ValueOf(Zeros(k) + s) == ValueOf(s)
    decreases |s|
  {
    ZerosDenoteZero(k);
    var z := Zeros(k) + s;
    assert AllDigits(z);
    if s == [] {
      assert z == Zeros(k);
    } else {
      assert z[..|z| - 1] == Zeros(k) + s[..|s| - 1];
      LeadingZeros(k, s[..|s| - 1]);
    }
  }

  /** What `%.<precision>i` prints: for a non-negative value, exactly
      max(precision, number of digits) digits denoting the value; for a negative one,
      a minus sign followed by the same for its magnitude. */
  lemma FormatIntValue(n: int, precision: nat)
    ensures var r := FormatInt(n, precision);
      var m := if n < 0 then -n else n;
      var body := if n < 0 then r[1..] else r;
      |r| >= 1 && (n < 0 <==> r[0] == '-') &&
      AllDigits(body) && ValueOf(body) == m &&
      |body| == (if |Decimal(m)| < precision then precision else |Decimal(m)|)
  {
    var m := if n < 0 then -n else n;
    var digits := Decimal(m);
    DecimalRoundTrip(m);
    if |digits| < precision {
      LeadingZeros(precision - |digits|, digits);
    }
    var padded := if |digits| < precision then Zeros(precision - |digits|) + digits else digits;
    if n < 0 {
      assert ("-" + padded)[1..] == padded;
    } else {
      assert padded[0] != '-' by {
        assert IsDigit(padded[0]);
      }
    }
  }

  /** For a non-negative time: minutes `t / 60` as at least two digits, a colon, then
      the seconds `t % 60` as exactly two digits; the minutes take exactly two digits
      below 100 minutes. */
  lemma TimeLeftStringShape(t: int)
    requires t >= 0
    ensures var r := TimeLeftString(t);
      |r| >= 5 && r[|r| - 3] == ':' &&
      AllDigits(r[..|r| - 3]) && AllDigits(r[|r| - 2..]) &&
      ValueOf(r[..|r| - 3]) == t / 60 && ValueOf(r[|r| - 2..]) == t % 60 &&
      (|r| == 5 <==> t < 6000)
  {
    QuotRem(t, 60);
    var mm := FormatInt(t / 60, 2);
    var ss := FormatInt(t % 60, 2);
    FormatIntValue(t / 60, 2);
    FormatIntValue(t % 60, 2);
    assert |ss| == 2;
    var r := TimeLeftString(t);
    assert r == mm + ":" + ss;
    assert r[..|r| - 3] == mm;
    assert r[|r| - 2..] == ss;
    assert t / 60 < 100 <==> t < 6000;
  }

  /** Below 100 minutes the text is exactly `MM:SS`, one character per digit. */
  lemma TimeLeftStringDigits(t: int)
    requires 0 <= t < 6000
    ensures var m, sec := t / 60, t % 60;
      TimeLeftString(t) == [DigitChar(m / 10), DigitChar(m % 10), ':', DigitChar(sec / 10), DigitChar(sec % 10)]
  {
    QuotRem(t, 60);
    var m, sec := t / 60, t % 60;
    assert m < 100;
    assert FormatInt(m, 2) == [DigitChar(m / 10), DigitChar(m % 10)] by {
      if m >= 10 {
        assert Decimal(m / 10) == [DigitChar(m / 10)];
      }
    }
    assert FormatInt(sec, 2) == [DigitChar(sec / 10), DigitChar(sec % 10)] by {
      if sec >= 10 {
        assert Decimal(sec / 10) == [DigitChar(sec / 10)];
      }
    }
  }

  /** Reading the text back yields the time it was built from. */
  lemma TimeLeftStringRoundTrip(t: int)
    requires t >= 0
    ensures ParseTimeLeft(TimeLeftString(t)) == Some(t)
  {
    TimeLeftStringShape(t);
    QuotRem(t, 60);
  }

  /** Two different non-negative times never show the same text. */
  lemma TimeLeftStringInjective(t1: int, t2: int)
    requires t1 >= 0 && t2 >= 0 && TimeLeftString(t1) == TimeLeftString(t2)
    ensures t1 == t2
  {
    TimeLeftStringRoundTrip(t1);
    TimeLeftStringRoundTrip(t2);
  }
}
