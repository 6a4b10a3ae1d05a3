/** Definitions shared by the daemon's monitors: the configured disk table,
    the fixed sizes from the daemon's header, and the decimal rendering
    that the C code gets from sprintf("%d"). */
module Common {

  datatype Option<T> = None | Some(value: T)

  datatype Result<T, E> = Success(value: T) | Failure(error: E)

  /** Number of RAID disk bays (the length of disk_alerts in the monitor record). */
  const MaxDiskCount: nat := 5

  /** Size of a disk name buffer: "/dev/sdX" plus its terminating NUL. */
  const DiskNameSize: nat := 9

  /** One configured RAID disk, as the monitors read it after start-up. */
  datatype DiskConf = DiskConf(
    name: seq<char>,     // "/dev/sdX", without the terminating NUL
    portNo: int,         // bay number; the disk's LED is portNo - 2
    tempIgnore: bool,    // hddtemp_monitor_ignore
    smartIgnore: bool,   // smart_monitor_ignore
    tempWarn: int,       // hdd_temp_warn
    tempCrit: int)       // hdd_temp_crit

  /** The letter that identifies a disk: the character before the NUL. */
  function Letter(d: DiskConf): char
    requires |d.name| == DiskNameSize - 1
  {
    d.name[DiskNameSize - 2]
  }

  /** The LED (and display cell) index of a disk. */
  function Led(d: DiskConf): int { d.portNo - 2 }

  /** What every monitor assumes of the configured table: at most five disks,
      names of the validated length, and one bay per disk. */
  predicate DiskTableOk(disks: seq<DiskConf>)
  {
    && |disks| <= MaxDiskCount
    && (forall i :: 0 <= i < |disks| ==> |disks[i].name| == DiskNameSize - 1)
    && (forall i :: 0 <= i < |disks| ==> 0 <= Led(disks[i]) < MaxDiskCount)
    && (forall i, j :: 0 <= i < j < |disks| ==> Led(disks[i]) != Led(disks[j]))
  }

  // ---------------------------------------------------------------------
  // Decimal rendering (sprintf "%d" / "%u") and its inverse

  predicate IsDigit(c: char) { '0' <= c <= '9' }

  function DigitChar(d: nat): (c: char)
    requires d < 10
    ensures IsDigit(c)
  {
    ['0','1','2','3','4','5','6','7','8','9'][d]
  }

  function DigitValue(c: char): nat
    requires IsDigit(c)
  {
    (c as int - '0' as int) as nat
  }

  /** "%u": the shortest decimal rendering of n, most significant digit first. */
  function Digits(n: nat): (r: seq<char>)
    ensures 1 <= |r|
    ensures forall i :: 0 <= i < |r| ==> IsDigit(r[i])
  {
    if n < 10 then [DigitChar(n)] else Digits(n / 10) + [DigitChar(n % 10)]
  }

  /** "%d": a minus sign for negative values, then the digits of the magnitude. */
  function Decimal(n: int): (r: seq<char>)
    ensures 1 <= |r|
    ensures (n < 0) == (r[0] == '-')
  {
    if n < 0 then ['-'] + Digits(-n) else Digits(n)
  }

  /** Reads back a string of decimal digits. */
  function ParseDigits(s: seq<char>): nat
    requires forall i :: 0 <= i < |s| ==> IsDigit(s[i])
  {
    if |s| == 0 then 0 else ParseDigits(s[..|s| - 1]) * 10 + DigitValue(s[|s| - 1])
  }

  /** Reads back an optionally signed decimal. */
  function ParseDecimal(s: seq<char>): int
    requires 1 <= |s|
    requires s[0] == '-' ==> forall i :: 1 <= i < |s| ==> IsDigit(s[i])
    requires s[0] != '-' ==> forall i :: 0 <= i < |s| ==> IsDigit(s[i])
  {
    if s[0] == '-' then -(ParseDigits(s[1..]) as int) else ParseDigits(s)
  }

  lemma DigitCharValue(d: nat)
    requires d < 10
    ensures DigitValue(DigitChar(d)) == d
  {
  }

  lemma {:induction false} DigitsRoundTrip(n: nat)
    ensures ParseDigits(Digits(n)) == n
  {
    if n < 10 {
      DigitCharValue(n);
    } else {
      var s := Digits(n);
      assert s[..|s| - 1] == Digits(n / 10);
      DigitsRoundTrip(n / 10);
      DigitCharValue(n % 10);
    }
  }

  /** sprintf("%d") can be read back: the rendering loses nothing. */
  lemma DecimalRoundTrip(n: int)
    ensures ParseDecimal(Decimal(n)) == n
  {
    if n < 0 {
      var d := Digits(-n);
      var s := ['-'] + d;
      assert s == Decimal(n);
      assert s[1..] == d;
      assert forall i :: 1 <= i < |s| ==> IsDigit(s[i]);
      DigitsRoundTrip(-n);
      assert ParseDecimal(s) == -(ParseDigits(s[1..]) as int);
    } else {
      DigitsRoundTrip(n);
    }
  }

  /** Width of the rendering: one digit below 10, two below 100, three below 1000. */
  lemma {:induction false} DigitsWidth(n: nat)
    ensures n < 10 ==> |Digits(n)| == 1
    ensures 10 <= n < 100 ==> |Digits(n)| == 2
    ensures 100 <= n < 1000 ==> |Digits(n)| == 3
    ensures n >= 1000 ==> |Digits(n)| >= 4
  {
    if n >= 10 {
      DigitsWidth(n / 10);
    }
  }

  /** Every value the three-character display cells show fits in three characters. */
  lemma DecimalFitsCell(n: int)
    requires -99 <= n <= 999
    ensures |Decimal(n)| <= 3
  {
    if n < 0 { DigitsWidth(-n); } else { DigitsWidth(n); }
  }

  /** Length of the display field a disk monitor fills (its buf[21]). */
  const DisplaySize: nat := 21

  /** s with t written over it from position off on. */
  function Overlay(s: seq<char>, off: nat, t: seq<char>): (r: seq<char>)
    requires off + |t| <= |s|
    ensures |r| == |s|
    ensures forall p :: 0 <= p < |s| ==> r[p] == if off <= p < off + |t| then t[p - off] else s[p]
  {
    s[..off] + t + s[off + |t|..]
  }
}
