/**
 * Time helpers: the breakdown of an elapsed time into calendar-like
 * units (365-day years, 30-day months), its human-readable rendering, and
 * the parsing of a DICOM TM value (section 6.2 of DICOM PS3.5) into a
 * time of day.
 */
module DicomTime {
  import opened Wrappers
  import PyText

  // ------------------------------------------------ delta breakdown

  const SECONDS_PER_DAY: nat := 86400
  const DAYS_PER_YEAR: nat := 365
  const DAYS_PER_MONTH: nat := 30

  /** `(years, months, days, hours, minutes, seconds)` */
  datatype Delta = Delta(years: nat, months: nat, days: nat, hours: nat, minutes: nat, seconds: nat)

  /** The number of seconds a breakdown stands for. */
  function TotalSeconds(d: Delta): nat {
    ((d.years * DAYS_PER_YEAR + d.months * DAYS_PER_MONTH + d.days) * SECONDS_PER_DAY)
    + d.hours * 3600 + d.minutes * 60 + d.seconds
  }

  /** Every unit below its carry, and the months and days of a year below 365 days. */
  predicate Normalized(d: Delta) {
    && d.hours < 24 && d.minutes < 60 && d.seconds < 60
    && d.days < DAYS_PER_MONTH && d.months <= 12
    && d.months * DAYS_PER_MONTH + d.days < DAYS_PER_YEAR
  }

  function Abs(x: int): nat {
    if x < 0 then -x else x
  }

  /**
   * The integer fallback of `detailed_delta_components`, given the
   * whole-second difference `now - dt` (the clock is not part of this model).
   */
  method DetailedDeltaComponents(elapsed: int) returns (d: Delta)
    ensures Normalized(d)
    ensures TotalSeconds(d) == Abs(elapsed)
  {
    var total: nat := Abs(elapsed);
    var days: nat := total / SECONDS_PER_DAY;
    ghost var wholeDays := days;
    var years: nat := days / DAYS_PER_YEAR;
    days := days - years * DAYS_PER_YEAR;
    var months: nat := days / DAYS_PER_MONTH;
    days := days - months * DAYS_PER_MONTH;
    var hours := (total % SECONDS_PER_DAY) / 3600;
    var minutes := (total % 3600) / 60;
    var seconds := total % 60;
    d := Delta(years, months, days, hours, minutes, seconds);
    ghost var rem := total % SECONDS_PER_DAY;
    assert total == wholeDays * SECONDS_PER_DAY + rem;
    DivModUnique(total, 3600, total / 3600, total % 3600, 24 * wholeDays + hours, rem % 3600);
    DivModUnique(total, 60, total / 60, total % 60, 60 * (total / 3600) + minutes, (total % 3600) % 60);
    assert wholeDays == years * DAYS_PER_YEAR + months * DAYS_PER_MONTH + days;
  }

  /** A normalized breakdown is determined by its total: it is unique. */
  lemma NormalizedUnique(a: Delta, b: Delta)
    requires Normalized(a) && Normalized(b)
    requires TotalSeconds(a) == TotalSeconds(b)
    ensures a == b
  {
    var da := a.years * DAYS_PER_YEAR + a.months * DAYS_PER_MONTH + a.days;
    var db := b.years * DAYS_PER_YEAR + b.months * DAYS_PER_MONTH + b.days;
    var ra := a.hours * 3600 + a.minutes * 60 + a.seconds;
    var rb := b.hours * 3600 + b.minutes * 60 + b.seconds;
    assert da == db && ra == rb by {
      assert TotalSeconds(a) == da * SECONDS_PER_DAY + ra;
      assert TotalSeconds(b) == db * SECONDS_PER_DAY + rb;
      DivModUnique(TotalSeconds(a), SECONDS_PER_DAY, da, ra, db, rb);
    }
    DivModUnique(da, DAYS_PER_YEAR, a.years, a.months * DAYS_PER_MONTH + a.days,
                 b.years, b.months * DAYS_PER_MONTH + b.days);
    DivModUnique(a.months * DAYS_PER_MONTH + a.days, DAYS_PER_MONTH, a.months, a.days, b.months, b.days);
    DivModUnique(ra, 3600, a.hours, a.minutes * 60 + a.seconds, b.hours, b.minutes * 60 + b.seconds);
    DivModUnique(a.minutes * 60 + a.seconds, 60, a.minutes, a.seconds, b.minutes, b.seconds);
  }

  /** Quotient and remainder are unique. */
  lemma DivModUnique(x: nat, m: nat, q1: nat, r1: nat, q2: nat, r2: nat)
    requires m > 0 && r1 < m && r2 < m
    requires x == q1 * m + r1 && x == q2 * m + r2
    ensures q1 == q2 && r1 == r2
  {
    if q1 < q2 {
      assert q2 * m == q1 * m + (q2 - q1) * m;
      MulAtLeast(q2 - q1, m);
    } else if q2 < q1 {
      assert q1 * m == q2 * m + (q1 - q2) * m;
      MulAtLeast(q1 - q2, m);
    }
  }

  lemma {:induction false} MulAtLeast(k: nat, m: nat)
    requires k >= 1
    ensures k * m >= m
  {
    if k > 1 {
      MulAtLeast(k - 1, m);
      assert k * m == (k - 1) * m + m;
    }
  }

  // ------------------------------------------------ human-readable delta

  /** The count, a space and the unit, with an 's' unless the count is 1. */
  function Quantity(n: nat, unit: string): (r: string)
    ensures PyText.IntToStr(n) + " " + unit <= r
    ensures |r| == |PyText.IntToStr(n)| + 1 + |unit| + (if n != 1 then 1 else 0)
  {
    PyText.IntToStr(n) + " " + unit + (if n != 1 then "s" else "")
  }

  /** How many of years, months, days, hours and minutes are non-zero. */
  function NonZeroUnits(d: Delta): nat {
    (if d.years != 0 then 1 else 0) + (if d.months != 0 then 1 else 0) + (if d.days != 0 then 1 else 0)
    + (if d.hours != 0 then 1 else 0) + (if d.minutes != 0 then 1 else 0)
  }

  /** One part per non-zero unit from years to minutes, largest first. */
  function Parts(d: Delta): (r: seq<string>)
    ensures |r| == NonZeroUnits(d)
  {
    Part(d.years, "year") + Part(d.months, "month") + Part(d.days, "day")
    + Part(d.hours, "hour") + Part(d.minutes, "minute")
  }

  /** The part for `n` units, or none for zero. */
  function Part(n: nat, unit: string): (r: seq<string>)
    ensures |r| == if n == 0 then 0 else 1
    ensures forall i :: 0 <= i < |r| ==> r[i] == Quantity(n, unit)
  {
    if n != 0 then [Quantity(n, unit)] else []
  }

  /**
   * Every non-zero unit contributes its quantity, every part is the
   * quantity of a non-zero unit, and the first part is that of the largest
   * non-zero unit.
   */
  lemma PartsOfUnits(d: Delta)
    ensures d.years != 0 ==> Quantity(d.years, "year") in Parts(d)
    ensures d.months != 0 ==> Quantity(d.months, "month") in Parts(d)
    ensures d.days != 0 ==> Quantity(d.days, "day") in Parts(d)
    ensures d.hours != 0 ==> Quantity(d.hours, "hour") in Parts(d)
    ensures d.minutes != 0 ==> Quantity(d.minutes, "minute") in Parts(d)
    ensures forall p :: p in Parts(d) ==>
              (d.years != 0 && p == Quantity(d.years, "year"))
              || (d.months != 0 && p == Quantity(d.months, "month"))
              || (d.days != 0 && p == Quantity(d.days, "day"))
              || (d.hours != 0 && p == Quantity(d.hours, "hour"))
              || (d.minutes != 0 && p == Quantity(d.minutes, "minute"))
    ensures Parts(d) != [] ==> Parts(d)[0] == Leading(d)
  {
    var y, mo, dd, h, mi := Part(d.years, "year"), Part(d.months, "month"), Part(d.days, "day"),
                            Part(d.hours, "hour"), Part(d.minutes, "minute");
    assert Parts(d) == y + mo + dd + h + mi;
    forall p | p in Parts(d)
      ensures (d.years != 0 && p == Quantity(d.years, "year"))
              || (d.months != 0 && p == Quantity(d.months, "month"))
              || (d.days != 0 && p == Quantity(d.days, "day"))
              || (d.hours != 0 && p == Quantity(d.hours, "hour"))
              || (d.minutes != 0 && p == Quantity(d.minutes, "minute"))
    {
      assert p in y || p in mo || p in dd || p in h || p in mi;
    }
  }

  /** The quantity of the largest non-zero unit, years to minutes. */
  function Leading(d: Delta): string
    requires NonZeroUnits(d) > 0
  {
    if d.years != 0 then Quantity(d.years, "year")
    else if d.months != 0 then Quantity(d.months, "month")
    else if d.days != 0 then Quantity(d.days, "day")
    else if d.hours != 0 then Quantity(d.hours, "hour")
    else Quantity(d.minutes, "minute")
  }

  /** The rendering of a breakdown: "just now", or its first four parts. */
  function Rendered(d: Delta): string {
    Shown(Parts(d))
  }

  /** "just now" for no parts, else the first four joined by ", ". */
  function Shown(parts: seq<string>): (r: string)
    ensures parts == [] ==> r == "just now"
    ensures parts != [] ==> parts[0] <= r
  {
    if parts == [] then "just now"
    else
      var shown := parts[..if |parts| < 4 then |parts| else 4];
      PyText.JoinStartsWithFirst(shown, ", ");
      PyText.Join(shown, ", ")
  }

  /**
   * `human_readable_delta(dt, now)`, given the whole-second difference
   * `now - dt`; the result renders the breakdown of that difference.
   */
  method HumanReadableDelta(elapsed: int) returns (s: string)
    ensures forall d :: Normalized(d) && TotalSeconds(d) == Abs(elapsed) ==> s == Rendered(d)
  {
    var c := DetailedDeltaComponents(elapsed);
    var parts: seq<string> := [];
    if c.years != 0 { parts := parts + [Quantity(c.years, "year")]; }
    assert parts == Part(c.years, "year");
    ghost var p1 := parts;
    if c.months != 0 { parts := parts + [Quantity(c.months, "month")]; }
    assert parts == p1 + Part(c.months, "month");
    ghost var p2 := parts;
    if c.days != 0 { parts := parts + [Quantity(c.days, "day")]; }
    assert parts == p2 + Part(c.days, "day");
    ghost var p3 := parts;
    if c.hours != 0 { parts := parts + [Quantity(c.hours, "hour")]; }
    assert parts == p3 + Part(c.hours, "hour");
    ghost var p4 := parts;
    if c.minutes != 0 { parts := parts + [Quantity(c.minutes, "minute")]; }
    assert parts == p4 + Part(c.minutes, "minute");
    assert parts == Parts(c);
    if parts == [] {
      s := "just now";
    } else {
      s := PyText.Join(parts[..if |parts| < 4 then |parts| else 4], ", ");
    }
    assert s == Shown(parts);
    RenderedOfTotal(c);
  }

  /** Every normalized breakdown of the same total renders alike. */
  lemma RenderedOfTotal(c: Delta)
    requires Normalized(c)
    ensures forall d :: Normalized(d) && TotalSeconds(d) == TotalSeconds(c) ==> Rendered(d) == Rendered(c)
  {
    forall d | Normalized(d) && TotalSeconds(d) == TotalSeconds(c)
      ensures Rendered(d) == Rendered(c)
    {
      NormalizedUnique(c, d);
    }
  }

  /** "just now" exactly when every unit from years to minutes is zero. */
  lemma JustNowIff(d: Delta)
    ensures Rendered(d) == "just now"
            <==> d.years == 0 && d.months == 0 && d.days == 0 && d.hours == 0 && d.minutes == 0
  {
    var parts := Parts(d);
    if parts != [] {
      var shown := parts[..if |parts| < 4 then |parts| else 4];
      PyText.JoinStartsWithFirst(shown, ", ");
      assert PyText.IsDigit(shown[0][0]);
      assert Rendered(d)[0] == shown[0][0];
    }
  }

  /** With every unit non-zero, the minutes are cut: only four parts are shown. */
  lemma FiveUnitsShowFour(d: Delta)
    requires d.years != 0 && d.months != 0 && d.days != 0 && d.hours != 0 && d.minutes != 0
    ensures |Parts(d)| == 5
    ensures Rendered(d) == PyText.Join([Quantity(d.years, "year"), Quantity(d.months, "month"),
                                        Quantity(d.days, "day"), Quantity(d.hours, "hour")], ", ")
  {
    assert Parts(d)[..4] == [Quantity(d.years, "year"), Quantity(d.months, "month"),
                             Quantity(d.days, "day"), Quantity(d.hours, "hour")];
  }

  /** Zero units are skipped and a count of 1 is singular. */
  lemma RenderingExample()
    ensures Rendered(Delta(2, 0, 1, 0, 5, 30)) == "2 years" + ", " + "1 day" + ", " + "5 minutes"
  {
    var parts := Parts(Delta(2, 0, 1, 0, 5, 30));
    ExampleParts();
    assert Shown(parts) == PyText.Join(parts, ", ") by {
      assert parts[..3] == parts;
    }
    JoinThree("2 years", "1 day", "5 minutes", ", ");
  }

  /** Two years, one day and five minutes give three parts, "1 day" singular. */
  lemma ExampleParts()
    ensures Parts(Delta(2, 0, 1, 0, 5, 30)) == ["2 years", "1 day", "5 minutes"]
  {
    assert Quantity(2, "year") == "2 years" by {
      assert PyText.IntToStr(2) == [PyText.DigitChar(2)] == "2";
    }
    assert Quantity(1, "day") == "1 day" by {
      assert PyText.IntToStr(1) == [PyText.DigitChar(1)] == "1";
    }
    assert Quantity(5, "minute") == "5 minutes" by {
      assert PyText.IntToStr(5) == [PyText.DigitChar(5)] == "5";
    }
  }

  /** Joining three parts puts the separator between each pair. */
  lemma JoinThree(a: string, b: string, c: string, sep: string)
    ensures PyText.Join([a, b, c], sep) == a + sep + b + sep + c
  {
    assert [a, b, c][1..] == [b, c];
    assert [b, c][1..] == [c];
    assert PyText.Join([c], sep) == c;
    assert PyText.Join([b, c], sep) == b + sep + c;
    assert PyText.Join([a, b, c], sep) == a + sep + (b + sep + c);
    assert (a + sep) + ((b + sep) + c) == ((a + sep) + (b + sep)) + c;
    assert (a + sep) + (b + sep) == ((a + sep) + b) + sep;
  }

  /** A part is plural exactly when its count is not 1. */
  lemma PluralIffNotOne(n: nat, unit: string)
    requires unit != "" && !PyText.EndsWith(unit, 's')
    ensures PyText.EndsWith(Quantity(n, unit), 's') <==> n != 1
  {
  }

  /** The seconds never show: only minutes and larger units are rendered. */
  lemma SecondsIgnored(d: Delta, s: nat)
    ensures Rendered(d.(seconds := s)) == Rendered(d)
  {
    assert Parts(d.(seconds := s)) == Parts(d);
  }

  // ------------------------------------------------ DICOM TM parsing

  /** A time of day, as `datetime.time` holds it (without microseconds). */
  datatype TimeOfDay = TimeOfDay(hour: nat, minute: nat, second: nat)

  predicate ValidTime(t: TimeOfDay) {
    t.hour < 24 && t.minute < 60 && t.second < 60
  }

  /** The text before the first '.', padded on the right with '0' and cut to six characters. */
  function NormalizeTime(t: string): (r: string)
    ensures |r| == 6
  {
    var whole := PyText.BeforeFirst(t, '.');
    PyText.PadRight(whole, 6, '0')[..6]
  }

  /** The value of two ASCII digits at `s[i..i+2]`. */
  function TwoDigits(s: string, i: nat): nat
    requires i + 2 <= |s| && PyText.IsDigit(s[i]) && PyText.IsDigit(s[i + 1])
  {
    PyText.DigitValue(s[i]) * 10 + PyText.DigitValue(s[i + 1])
  }

  /**
   * `datetime.strptime(s, "%H%M%S").time()` on six characters: each field
   * is then exactly two digits; hours above 23, minutes above 59 and
   * seconds above 59 are rejected.
   */
  function StrptimeHMS(s: string): (r: Option<TimeOfDay>)
    requires |s| == 6
    ensures r.Some? ==> ValidTime(r.value)
    ensures r.Some? ==> FormatTime(r.value) == s
  {
    if forall i :: 0 <= i < 6 ==> PyText.IsDigit(s[i]) then
      var t := TimeOfDay(TwoDigits(s, 0), TwoDigits(s, 2), TwoDigits(s, 4));
      if ValidTime(t) then FormatsBack(s, t); Some(t) else None
    else None
  }

  /** Two digits read by `TwoDigits` render back as themselves. */
  lemma Pad2OfTwoDigits(s: string, i: nat)
    requires i + 2 <= |s| && PyText.IsDigit(s[i]) && PyText.IsDigit(s[i + 1])
    ensures TwoDigits(s, i) < 100 && Pad2(TwoDigits(s, i)) == s[i..i + 2]
  {
    var n := TwoDigits(s, i);
    assert n / 10 == PyText.DigitValue(s[i]) && n % 10 == PyText.DigitValue(s[i + 1]);
  }

  /** The fields read from six digits render back as those six digits. */
  lemma FormatsBack(s: string, t: TimeOfDay)
    requires |s| == 6 && forall i :: 0 <= i < 6 ==> PyText.IsDigit(s[i])
    requires t == TimeOfDay(TwoDigits(s, 0), TwoDigits(s, 2), TwoDigits(s, 4)) && ValidTime(t)
    ensures FormatTime(t) == s
  {
    Pad2OfTwoDigits(s, 0);
    Pad2OfTwoDigits(s, 2);
    Pad2OfTwoDigits(s, 4);
    assert s == s[0..2] + s[2..4] + s[4..6];
  }

  /** `parse_dicom_time_str(t)` */
  function ParseDicomTime(t: Option<string>): (r: Option<TimeOfDay>)
    ensures t.None? || t.value == "" ==> r.None?
    ensures r.Some? ==> ValidTime(r.value)
    ensures r.Some? ==> t.Some? && FormatTime(r.value) == NormalizeTime(t.value)
  {
    if t.None? || t.value == "" then None
    else StrptimeHMS(NormalizeTime(t.value))
  }

  /** Two-digit, zero-padded rendering of a number below 100. */
  function Pad2(n: nat): (r: string)
    requires n < 100
    ensures |r| == 2 && PyText.IsDigit(r[0]) && PyText.IsDigit(r[1])
  {
    [PyText.DigitChar(n / 10), PyText.DigitChar(n % 10)]
  }

  /** The DICOM TM rendering `HHMMSS`. */
  function FormatTime(t: TimeOfDay): (r: string)
    requires ValidTime(t)
    ensures |r| == 6
  {
    Pad2(t.hour) + Pad2(t.minute) + Pad2(t.second)
  }

  /** Parsing a rendered time gives the time back. */
  lemma ParseFormatted(t: TimeOfDay)
    requires ValidTime(t)
    ensures ParseDicomTime(Some(FormatTime(t))) == Some(t)
  {
    var s := FormatTime(t);
    assert '.' !in s;
    assert PyText.BeforeFirst(s, '.') == s;
    assert NormalizeTime(s) == s;
    assert TwoDigits(s, 0) == t.hour && TwoDigits(s, 2) == t.minute && TwoDigits(s, 4) == t.second;
  }

  /** A fractional part after '.' is ignored, as long as something precedes it. */
  lemma FractionIgnored(whole: string, fraction: string)
    requires whole != "" && '.' !in whole
    ensures ParseDicomTime(Some(whole + "." + fraction)) == ParseDicomTime(Some(whole))
  {
    PyText.SplitAtFirst(whole, '.', fraction);
    assert whole + "." + fraction == whole + ['.'] + fraction;
    assert PyText.BeforeFirst(whole, '.') == whole by {
      BeforeFirstAbsent(whole, '.');
    }
  }

  /** Without `c`, the text before the first `c` is everything. */
  lemma {:induction false} BeforeFirstAbsent(s: string, c: char)
    requires c !in s
    ensures PyText.BeforeFirst(s, c) == s
  {
    if |s| > 0 {
      assert c !in s[1..];
      BeforeFirstAbsent(s[1..], c);
    }
  }

  /** The short form `HHMM` reads as that hour and minute with zero seconds. */
  lemma ShortFormHHMM(h: nat, m: nat)
    requires h < 24 && m < 60
    ensures ParseDicomTime(Some(Pad2(h) + Pad2(m))) == Some(TimeOfDay(h, m, 0))
  {
    var s := Pad2(h) + Pad2(m);
    BeforeFirstAbsent(s, '.');
    var n := NormalizeTime(s);
    assert n == s + "00";
    assert TwoDigits(n, 0) == h && TwoDigits(n, 2) == m && TwoDigits(n, 4) == 0;
  }

  /** A lone '.' has no digits before it and pads to midnight. */
  lemma DotIsMidnight()
    ensures ParseDicomTime(Some(".")) == Some(TimeOfDay(0, 0, 0))
  {
    assert NormalizeTime(".") == "000000";
  }
}
