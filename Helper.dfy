/** The SMART helper program of freecusd/smart/helper.c: it reads a disk's
    overall SMART verdict and temperature through libatasmart and prints a
    status code and the temperature in whole degrees Celsius, one per line.
    The library calls are not part of this model: their outcome is an input. */
module Helper {
  import opened Common

  /** The status codes of freecusd/smart/status.h that the helper prints. */
  const SmartOk: int := 0
  const SmartWarn: int := 1
  const SmartFail: int := 2

  /** 0 degrees Celsius in millikelvin. */
  const ZeroCelsius: int := 273150

  const IntMax: int := 0x7fff_ffff

  /** libatasmart's overall verdict; `Other` is any value outside the enum. */
  datatype Overall =
    | Good
    | BadAttributeInThePast
    | BadSector
    | BadAttributeNow
    | BadSectorMany
    | BadStatus
    | Other(value: int)

  /** The status printed for a verdict, or None for the exit with failure. */
  function StatusOf(o: Overall): Option<int>
  {
    match o
    case Good | BadAttributeInThePast => Some(SmartOk)
    case BadSector | BadAttributeNow => Some(SmartWarn)
    case BadSectorMany | BadStatus => Some(SmartFail)
    case Other(_) => None
  }

  /** Every verdict the library defines gets one of the three codes, and the
      severity only grows along the enum's order. */
  lemma StatusOfMeaning(o: Overall)
    ensures StatusOf(o).None? <==> o.Other?
    ensures StatusOf(o) == Some(SmartOk) <==> o == Good || o == BadAttributeInThePast
    ensures StatusOf(o) == Some(SmartWarn) <==> o == BadSector || o == BadAttributeNow
    ensures StatusOf(o) == Some(SmartFail) <==> o == BadSectorMany || o == BadStatus
  {
  }

  /** C's int division by a positive divisor: the quotient truncated toward
      zero. */
  function CDiv(a: int, b: int): (q: int)
    requires b > 0
    ensures a >= 0 ==> q * b <= a < q * b + b
    ensures a < 0 ==> q * b - b < a <= q * b
  {
    if a >= 0 then a / b else -((-a) / b)
  }

  /** The temperature in whole degrees for a reading that passed the range
      check. */
  function Celsius(mkelvin: nat): int
    requires mkelvin <= IntMax
  {
    CDiv(mkelvin - ZeroCelsius, 1000)
  }

  /** The conversion rounds toward 0 degrees: up to a degree is dropped on
      either side of freezing, so 0.999 degrees below freezing reads 0. */
  lemma CelsiusBounds(mkelvin: nat)
    requires mkelvin <= IntMax
    ensures -273 <= Celsius(mkelvin) <= (IntMax - ZeroCelsius) / 1000
    ensures mkelvin >= ZeroCelsius ==>
              Celsius(mkelvin) * 1000 <= mkelvin - ZeroCelsius < Celsius(mkelvin) * 1000 + 1000
    ensures mkelvin < ZeroCelsius ==>
              Celsius(mkelvin) * 1000 - 1000 < mkelvin - ZeroCelsius <= Celsius(mkelvin) * 1000
    ensures Celsius(ZeroCelsius - 999) == 0
  {
    var t := Celsius(mkelvin);
    if mkelvin < ZeroCelsius {
      assert -1000 * 274 < mkelvin - ZeroCelsius <= t * 1000;
    } else {
      assert t * 1000 <= IntMax - ZeroCelsius;
    }
  }

  /** What the helper does: print "status\ntemperature\n" and exit with
      success, or exit with failure and print nothing. */
  datatype Outcome = Printed(text: seq<char>) | ExitFailure

  /** main: `readOk` is whether opening the disk and reading its SMART data,
      verdict and temperature all succeeded. */
  function Run(readOk: bool, overall: Overall, mkelvin: nat): Outcome
  {
    if !readOk then ExitFailure
    else match StatusOf(overall)
      case None => ExitFailure
      case Some(status) =>
        if mkelvin > IntMax then ExitFailure
        else Printed(Decimal(status) + "\n" + Decimal(Celsius(mkelvin)) + "\n")
  }

  // ---------------------------------------------------------------------
  // Reading the output back

  /** The text before the first newline and the text after it. */
  function SplitLine(s: seq<char>): (r: (seq<char>, seq<char>))
    ensures |r.0| + |r.1| < |s| || (r.0 == s && r.1 == [])
  {
    if s == [] then ([], [])
    else if s[0] == '\n' then ([], s[1..])
    else var rest := SplitLine(s[1..]); ([s[0]] + rest.0, rest.1)
  }

  lemma {:induction false} SplitLineJoin(a: seq<char>, b: seq<char>)
    requires forall i :: 0 <= i < |a| ==> a[i] != '\n'
    ensures SplitLine(a + "\n" + b) == (a, b)
  {
    if a == [] {
      assert a + "\n" + b == ['\n'] + b;
    } else {
      assert (a + "\n" + b)[1..] == a[1..] + "\n" + b;
      SplitLineJoin(a[1..], b);
      assert [a[0]] + a[1..] == a;
    }
  }

  lemma DecimalHasNoNewline(n: int)
    ensures forall i :: 0 <= i < |Decimal(n)| ==> Decimal(n)[i] != '\n'
  {
    if n < 0 {
      assert forall i :: 1 <= i < |Decimal(n)| ==> Decimal(n)[i] == Digits(-n)[i - 1];
    }
  }

  predicate DecimalLine(s: seq<char>)
  {
    && 1 <= |s|
    && (s[0] == '-' ==> forall i :: 1 <= i < |s| ==> IsDigit(s[i]))
    && (s[0] != '-' ==> forall i :: 0 <= i < |s| ==> IsDigit(s[i]))
  }

  /** The output read back as two decimal lines (status code, then degrees);
      the reader of this output is not part of this model. */
  function ParseOutput(s: seq<char>): Option<(int, int)>
  {
    var (l1, rest) := SplitLine(s);
    var (l2, _) := SplitLine(rest);
    if DecimalLine(l1) && DecimalLine(l2) then Some((ParseDecimal(l1), ParseDecimal(l2))) else None
  }

  lemma DecimalIsLine(n: int)
    ensures DecimalLine(Decimal(n))
  {
    if n < 0 {
      assert forall i :: 1 <= i < |Decimal(n)| ==> Decimal(n)[i] == Digits(-n)[i - 1];
    }
  }

  /** Whatever the helper prints reads back as its status and temperature,
      and the status is one of the three codes. */
  lemma RunRoundTrip(readOk: bool, overall: Overall, mkelvin: nat)
    requires Run(readOk, overall, mkelvin).Printed?
    ensures readOk && StatusOf(overall).Some? && mkelvin <= IntMax
    ensures ParseOutput(Run(readOk, overall, mkelvin).text) ==
              Some((StatusOf(overall).value, Celsius(mkelvin)))
    ensures StatusOf(overall).value in {SmartOk, SmartWarn, SmartFail}
  {
    var status := StatusOf(overall).value;
    var temp := Celsius(mkelvin);
    var a, b := Decimal(status), Decimal(temp);
    DecimalHasNoNewline(status);
    DecimalHasNoNewline(temp);
    assert a + "\n" + b + "\n" == a + "\n" + (b + "\n");
    SplitLineJoin(a, b + "\n");
    SplitLineJoin(b, []);
    assert b + "\n" + [] == b + "\n";
    DecimalIsLine(status);
    DecimalIsLine(temp);
    DecimalRoundTrip(status);
    DecimalRoundTrip(temp);
  }

  /** The helper prints nothing for a verdict outside the enum or an
      out-of-range temperature. */
  lemma RunFailures(readOk: bool, overall: Overall, mkelvin: nat)
    ensures Run(readOk, overall, mkelvin).ExitFailure? <==>
              !readOk || overall.Other? || mkelvin > IntMax
  {
  }
}
