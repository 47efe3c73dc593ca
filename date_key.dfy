/** The names the lambda gives its archive, both built from the time of the
    last event record: the S3 key `mp3-magic-machine/archive/%Y/%m-%d.zip` and
    the staging file `/tmp/%Y-%m-%d.zip`. Only chrono's `%Y`, `%m` and `%d`
    take part. */
module DateKey {

  import opened Wrappers
  import opened Text
  import opened StdPath

  /** The calendar date (UTC) of an event time; the time of day reaches no name. */
  datatype Date = Date(year: int, month: nat, day: nat)

  /** A date chrono can hold: month 1 to 12, day 1 to 31. */
  type CalendarDate = d: Date | 1 <= d.month <= 12 && 1 <= d.day <= 31 witness Date(1970, 1, 1)

  const ArchiveKeyBase := "mp3-magic-machine/archive"
  const ArchiveExtension := "zip"
  const StagingDir: Path := "/tmp"

  // ---------------------------------------------------------------------------
  // Decimal digits

  predicate IsDigit(c: char) {
    '0' <= c <= '9'
  }

  predicate AllDigits(s: string) {
    forall i :: 0 <= i < |s| ==> IsDigit(s[i])
  }

  function Pow10(k: nat): (r: nat)
    ensures r >= 1
  {
    if k == 0 then 1 else 10 * Pow10(k - 1)
  }

  function DigitChar(d: nat): (c: char)
    requires d < 10
    ensures IsDigit(c)
  {
    ('0' as int + d) as char
  }

  /** The number a string of digits denotes. */
  function ValueOf(s: string): nat
    requires AllDigits(s)
    decreases |s|
  {
    if s == [] then 0 else 10 * ValueOf(s[..|s| - 1]) + (s[|s| - 1] as int - '0' as int)
  }

  /** `n` written with exactly `width` digits, zero-padded on the left (the
      formatting `{:0width$}` for an `n` below `10^width`). */
  function Padded(n: nat, width: nat): (r: string)
    ensures |r| == width && AllDigits(r)
  {
    if width == 0 then "" else Padded(n / 10, width - 1) + [DigitChar(n % 10)]
  }

  /** How many digits `n` has in decimal. */
  function DigitCount(n: nat): (r: nat)
    ensures r >= 1
  {
    if n < 10 then 1 else 1 + DigitCount(n / 10)
  }

  /** `n` in decimal, zero-padded to at least `width` digits. */
  function Decimal(n: nat, width: nat): (r: string)
    ensures AllDigits(r) && |r| >= width
  {
    Padded(n, if DigitCount(n) < width then width else DigitCount(n))
  }

  /** Padding loses nothing when the number fits the width. */
  lemma {:induction false} PaddedRoundTrip(n: nat, width: nat)
    requires n < Pow10(width)
    ensures ValueOf(Padded(n, width)) == n
  {
    if width > 0 {
      assert n / 10 < Pow10(width - 1);
      PaddedRoundTrip(n / 10, width - 1);
      var r := Padded(n, width);
      assert r[..|r| - 1] == Padded(n / 10, width - 1);
    }
  }

  /** A number fits in its own digit count. */
  lemma {:induction false} DigitCountFits(n: nat)
    ensures n < Pow10(DigitCount(n))
  {
    if n >= 10 {
      DigitCountFits(n / 10);
    }
  }

  lemma PowMonotone(a: nat, b: nat)
    requires a <= b
    ensures Pow10(a) <= Pow10(b)
  {
  }

  /** `Decimal` writes the number it is given. */
  lemma DecimalRoundTrip(n: nat, width: nat)
    ensures ValueOf(Decimal(n, width)) == n
  {
    DigitCountFits(n);
    PowMonotone(DigitCount(n), if DigitCount(n) < width then width else DigitCount(n));
    PaddedRoundTrip(n, if DigitCount(n) < width then width else DigitCount(n));
  }

  // ---------------------------------------------------------------------------
  // chrono's fields

  /** `%Y`: a year from 0 to 9999 is four zero-padded digits; any other year
      carries its sign and at least four digits. */
  function YearText(year: int): (r: string)
    ensures |r| >= 4 && Separator !in r && '.' !in r && '-' !in r[1..]
  {
    if 0 <= year <= 9999 then Padded(year, 4)
    else if year < 0 then "-" + Decimal(-year, 4)
    else "+" + Decimal(year, 4)
  }

  /** Reads a year back from its `%Y` text. */
  function ParseYear(s: string): Option<int> {
    if s == [] then None
    else if (s[0] == '-' || s[0] == '+') && AllDigits(s[1..]) then
      var magnitude: int := ValueOf(s[1..]);
      Some(if s[0] == '-' then -magnitude else magnitude)
    else if AllDigits(s) then Some(ValueOf(s))
    else None
  }

  /** `%Y` loses nothing, whatever the year. */
  lemma YearTextRoundTrip(year: int)
    ensures ParseYear(YearText(year)) == Some(year)
  {
    var r := YearText(year);
    if 0 <= year <= 9999 {
      PowMonotone(4, 4);
      PaddedRoundTrip(year, 4);
      assert IsDigit(r[0]);
    } else if year < 0 {
      DecimalRoundTrip(-year, 4);
      assert r[1..] == Decimal(-year, 4);
    } else {
      DecimalRoundTrip(year, 4);
      assert r[1..] == Decimal(year, 4);
    }
  }

  /** `%m-%d`: month and day as two zero-padded digits each. */
  function MonthDay(d: CalendarDate): (r: string)
    ensures |r| == 5 && r[2] == '-'
  {
    Padded(d.month, 2) + "-" + Padded(d.day, 2)
  }

  /** `format!("{ARCHIVE_KEY_BASE}/{}.zip", t.format("%Y/%m-%d"))` */
  function OutputKey(d: CalendarDate): string {
    ArchiveKeyBase + "/" + YearText(d.year) + "/" + MonthDay(d) + "." + ArchiveExtension
  }

  /** `t.format("%Y-%m-%d")` */
  function DateStamp(d: CalendarDate): (r: string)
    ensures r != "" && Separator !in r && '.' !in r
  {
    YearText(d.year) + "-" + MonthDay(d)
  }

  /** `Path::new("/tmp").join(t.format("%Y-%m-%d")).with_extension("zip")`:
      the final component is the date stamp, which has no dot, so
      `with_extension` only appends `.zip` to it. */
  function StagingArchivePath(d: CalendarDate): Path {
    Join(StagingDir, WithExtension(DateStamp(d), ArchiveExtension))
  }

  /** Reads a date back from its `%Y/%m-%d` text. */
  function ParseDateFields(middle: string): Option<Date> {
    var n := |middle|;
    if n < 6 then None
    else
      var month, day := middle[n - 5..n - 3], middle[n - 2..];
      if middle[n - 6] != '/' || middle[n - 3] != '-' || !AllDigits(month) || !AllDigits(day) then None
      else
        match ParseYear(middle[..n - 6])
        case None => None
        case Some(year) => Some(Date(year, ValueOf(month), ValueOf(day)))
  }

  /** Reads the date back from an archive key. */
  function ParseOutputKey(key: string): Option<Date> {
    var prefix := ArchiveKeyBase + "/";
    var suffix := "." + ArchiveExtension;
    if |key| < |prefix| + |suffix| || key[..|prefix|] != prefix || key[|key| - |suffix|..] != suffix then None
    else ParseDateFields(key[|prefix|..|key| - |suffix|])
  }

  /** The archive key is the prefix, then `%Y/%m-%d`, then `.zip`. */
  lemma OutputKeyFrame(d: CalendarDate)
    ensures var key, prefix := OutputKey(d), ArchiveKeyBase + "/";
      && |key| == |prefix| + |YearText(d.year)| + 6 + 4
      && key[..|prefix|] == prefix && key[|key| - 4..] == ".zip"
      && key[|prefix|..|key| - 4] == YearText(d.year) + "/" + MonthDay(d)
  {
    var key, prefix := OutputKey(d), ArchiveKeyBase + "/";
    var middle := YearText(d.year) + "/" + MonthDay(d);
    assert key == prefix + middle + ".zip";
  }

  /** Where the parser finds the fields inside `%Y/%m-%d`. */
  lemma MiddleFields(year: string, d: CalendarDate)
    ensures var middle := year + "/" + MonthDay(d); var n := |middle|;
      && n == |year| + 6 && middle[n - 6] == '/' && middle[n - 3] == '-'
      && middle[..n - 6] == year
      && middle[n - 5..n - 3] == Padded(d.month, 2)
      && middle[n - 2..] == Padded(d.day, 2)
  {
    var middle := year + "/" + MonthDay(d);
    assert middle == year + "/" + Padded(d.month, 2) + "-" + Padded(d.day, 2);
  }

  /** `%Y/%m-%d` loses nothing. */
  lemma DateFieldsRoundTrip(d: CalendarDate)
    ensures ParseDateFields(YearText(d.year) + "/" + MonthDay(d)) == Some(d)
  {
    MiddleFields(YearText(d.year), d);
    YearTextRoundTrip(d.year);
    PaddedRoundTrip(d.month, 2);
    PaddedRoundTrip(d.day, 2);
  }

  /** The archive key names its date unambiguously: parsing it gives the date
      back, for every year chrono can print. */
  lemma OutputKeyRoundTrip(d: CalendarDate)
    ensures ParseOutputKey(OutputKey(d)) == Some(d)
  {
    OutputKeyFrame(d);
    DateFieldsRoundTrip(d);
  }

  /** Two different days never share an archive key (so an archive is
      replaced only by a later batch on the same day). */
  lemma OutputKeyInjective(d1: CalendarDate, d2: CalendarDate)
    ensures OutputKey(d1) == OutputKey(d2) <==> d1 == d2
  {
    OutputKeyRoundTrip(d1);
    OutputKeyRoundTrip(d2);
  }

  /** A year from 0 to 9999 gives the fixed-width key
      `mp3-magic-machine/archive/YYYY/MM-DD.zip`. */
  lemma OutputKeyWidth(d: CalendarDate)
    requires 0 <= d.year <= 9999
    ensures |OutputKey(d)| == |ArchiveKeyBase| + 15
  {
  }

  /** The staging archive is `/tmp/<date stamp>.zip`, and `file_name` of it is
      `<date stamp>.zip`. */
  lemma StagingArchivePathShape(d: CalendarDate)
    ensures StagingArchivePath(d) == StagingDir + "/" + DateStamp(d) + "." + ArchiveExtension
    ensures FileName(StagingArchivePath(d)) == Some(DateStamp(d) + "." + ArchiveExtension)
  {
    var stamp := DateStamp(d);
    var name := stamp + "." + ArchiveExtension;
    assert StagingArchivePath(d) == Join(StagingDir, name) by {
      WithExtensionOfDotless(stamp, ArchiveExtension);
    }
    assert Separator !in name && |name| > 2 && name[0] != Separator;
    assert Join(StagingDir, name) == StagingDir + "/" + name;
    FileNameOfJoin(StagingDir, name);
  }
}
