/**
 * The UTC calendar behind the daily caps and the monthly draw.
 * An instant is a number of microseconds whose quotient by DAY is the proleptic
 * Gregorian ordinal (`date.toordinal`), so instants order as datetimes do.
 */
module Calendar {
  import opened Basics
  import opened Decimal

  const MINUTE: int := 60_000_000
  const DAY: int := 86_400_000_000

  // ---- Days ----

  function DayOf(t: int): int {
    t / DAY
  }

  /** `now.replace(hour=0, minute=0, second=0, microsecond=0)` */
  function StartOfDay(t: int): int {
    t - t % DAY
  }

  /** `now.replace(second=0, microsecond=0)` */
  function StartOfMinute(t: int): int {
    t - t % MINUTE
  }

  lemma StartOfDayIsDay(t: int)
    ensures StartOfDay(t) == DayOf(t) * DAY
    ensures StartOfDay(t) <= t < StartOfDay(t) + DAY
  {
  }

  // ---- Years and months ----

  predicate IsLeap(y: int) {
    y % 4 == 0 && (y % 100 != 0 || y % 400 == 0)
  }

  function DaysBeforeYear(y: int): int {
    (y - 1) * 365 + (y - 1) / 4 - (y - 1) / 100 + (y - 1) / 400
  }

  function DaysInMonth(y: int, m: int): int
    requires 1 <= m <= 12
  {
    if m == 2 then (if IsLeap(y) then 29 else 28)
    else if m == 4 || m == 6 || m == 9 || m == 11 then 30
    else 31
  }

  function DaysBeforeMonth(y: int, m: int): int
    requires 1 <= m <= 12
  {
    if m == 1 then 0 else DaysBeforeMonth(y, m - 1) + DaysInMonth(y, m - 1)
  }

  datatype DateTime = DateTime(year: int, month: int, day: int, micros: int) {
    predicate Valid() {
      && 1 <= year <= 9999 && 1 <= month <= 12
      && 1 <= day <= DaysInMonth(year, month)
      && 0 <= micros < DAY
    }

    function Instant(): int
      requires Valid()
    {
      (DaysBeforeYear(year) + DaysBeforeMonth(year, month) + day) * DAY + micros
    }
  }

  // Months are numbered 12 * year + (month - 1), so the next month is the next number.

  function YearOf(k: int): int {
    k / 12
  }

  function MonthOf(k: int): int {
    k % 12 + 1
  }

  function MonthNumber(y: int, m: int): int {
    12 * y + m - 1
  }

  /** The ordinal of the first day of month k. */
  function FirstDay(k: int): int {
    DaysBeforeYear(YearOf(k)) + DaysBeforeMonth(YearOf(k), MonthOf(k)) + 1
  }

  /** First instant of the month, and first instant after it (`month_bounds`, where December rolls the year). */
  function MonthBounds(y: int, m: int): (int, int)
    requires 1 <= m <= 12
  {
    var start := (DaysBeforeYear(y) + DaysBeforeMonth(y, m) + 1) * DAY;
    if m == 12 then (start, (DaysBeforeYear(y + 1) + 1) * DAY)
    else (start, (DaysBeforeYear(y) + DaysBeforeMonth(y, m + 1) + 1) * DAY)
  }

  lemma DaysBeforeNextYear(y: int)
    ensures DaysBeforeYear(y + 1) == DaysBeforeYear(y) + (if IsLeap(y) then 366 else 365)
  {
    FourthYear(y);
    HundredthYear(y);
    FourHundredthYear(y);
  }

  lemma FourthYear(y: int)
    ensures y / 4 == (y - 1) / 4 + (if y % 4 == 0 then 1 else 0)
  {
  }

  lemma HundredthYear(y: int)
    ensures y / 100 == (y - 1) / 100 + (if y % 100 == 0 then 1 else 0)
    ensures y % 100 == 0 ==> y % 4 == 0
  {
  }

  lemma FourHundredthYear(y: int)
    ensures y / 400 == (y - 1) / 400 + (if y % 400 == 0 then 1 else 0)
    ensures y % 400 == 0 ==> y % 100 == 0
  {
  }

  lemma DaysBeforeDecember(y: int)
    ensures DaysBeforeMonth(y, 12) == (if IsLeap(y) then 335 else 334)
  {
    var feb := if IsLeap(y) then 29 else 28;
    assert DaysBeforeMonth(y, 2) == 31;
    assert DaysBeforeMonth(y, 4) == 62 + feb;
    assert DaysBeforeMonth(y, 6) == 123 + feb;
    assert DaysBeforeMonth(y, 8) == 184 + feb;
    assert DaysBeforeMonth(y, 10) == 245 + feb;
  }

  /** Apart from February the months have 31 days, but for April, June, September and November. */
  lemma MonthLengths(y: int, m: int)
    requires 1 <= m <= 12
    ensures m != 2 ==> DaysInMonth(y, m) == 30 + (m + m / 8) % 2
    ensures m == 2 ==> DaysInMonth(y, m) == DaysBeforeYear(y + 1) - DaysBeforeYear(y) - 337
  {
    DaysBeforeNextYear(y);
  }

  /** Every year begins on the day after those before it; year 1 begins on day 1, and 1970 on day 719163. */
  lemma NewYear(y: int)
    requires 1 <= y <= 9999
    ensures DaysBeforeYear(1) == 0 && DaysBeforeYear(1970) == 719162
    ensures DateTime(y, 1, 1, 0).Valid() && DateTime(y, 1, 1, 0).Instant() == (DaysBeforeYear(y) + 1) * DAY
    ensures FirstDay(MonthNumber(y, 1)) == DaysBeforeYear(y) + 1
  {
    MonthNumberInverse(y, 1);
  }

  /** Consecutive months abut: month k + 1 starts exactly where the days of month k end. */
  lemma MonthsAbut(k: int)
    ensures FirstDay(k + 1) == FirstDay(k) + DaysInMonth(YearOf(k), MonthOf(k))
    ensures MonthBounds(YearOf(k), MonthOf(k)) == (FirstDay(k) * DAY, FirstDay(k + 1) * DAY)
  {
    var y := YearOf(k);
    if MonthOf(k) == 12 {
      assert YearOf(k + 1) == y + 1 && MonthOf(k + 1) == 1;
      DaysBeforeNextYear(y);
      DaysBeforeDecember(y);
    } else {
      assert YearOf(k + 1) == y && MonthOf(k + 1) == MonthOf(k) + 1;
    }
  }

  lemma {:induction false} FirstDayMonotone(j: int, k: int)
    requires j <= k
    ensures FirstDay(j) + 28 * (k - j) <= FirstDay(k)
    decreases k - j
  {
    if j < k {
      FirstDayMonotone(j, k - 1);
      MonthsAbut(k - 1);
    }
  }

  predicate InMonth(k: int, t: int) {
    FirstDay(k) * DAY <= t < FirstDay(k + 1) * DAY
  }

  /** The month an instant of the common era falls in: the (year, month) of `cycle_key`. */
  function CycleOf(t: int): (k: int)
    requires DAY <= t
    ensures InMonth(k, t)
  {
    CycleFrom(12, t)
  }

  function CycleFrom(k: int, t: int): (r: int)
    requires FirstDay(k) * DAY <= t
    ensures InMonth(r, t)
    decreases t - FirstDay(k) * DAY
  {
    if t < FirstDay(k + 1) * DAY then k
    else
      MonthsAbut(k);
      CycleFrom(k + 1, t)
  }

  /** Months partition time: an instant is inside the bounds of one month and of no other. */
  lemma MonthsPartitionTime(j: int, k: int, t: int)
    requires InMonth(j, t)
    ensures InMonth(k, t) <==> j == k
  {
    if j < k {
      FirstDayMonotone(j + 1, k);
    } else if k < j {
      FirstDayMonotone(k + 1, j);
    }
  }

  lemma MonthNumberInverse(y: int, m: int)
    requires 1 <= m <= 12
    ensures YearOf(MonthNumber(y, m)) == y && MonthOf(MonthNumber(y, m)) == m
  {
  }

  /** Every datetime lies in exactly the bounds of its own (year, month). */
  lemma DateTimeInItsCycle(dt: DateTime)
    requires dt.Valid()
    ensures DAY <= dt.Instant()
    ensures CycleOf(dt.Instant()) == MonthNumber(dt.year, dt.month)
    ensures forall k :: InMonth(k, dt.Instant()) <==> k == MonthNumber(dt.year, dt.month)
  {
    var k := MonthNumber(dt.year, dt.month);
    MonthNumberInverse(dt.year, dt.month);
    MonthsAbut(k);
    FirstDayMonotone(12, k);
    assert FirstDay(12) == 1;
    assert InMonth(k, dt.Instant());
    forall j ensures InMonth(j, dt.Instant()) <==> j == k {
      MonthsPartitionTime(k, j, dt.Instant());
    }
  }

  // ---- Period keys ----

  /** `f"{year}-{month:02d}"`, which `strftime("%Y-%m")` also prints for years of four digits. */
  function FormatKey(y: nat, m: nat): string
    requires 1 <= m <= 12
  {
    ShowNat(y) + "-" + (if m < 10 then "0" else "") + ShowNat(m)
  }

  /** `prev_cycle_key`, from the fields of a datetime. */
  function PrevCycleKey(y: nat, m: nat): string
    requires y >= 1 && 1 <= m <= 12
  {
    if m == 1 then FormatKey(y - 1, 12) else FormatKey(y, m - 1)
  }

  /** The key `close_cycle` opens next. */
  function NextCycleKey(y: nat, m: nat): string
    requires 1 <= m <= 12
  {
    if m == 12 then FormatKey(y + 1, 1) else FormatKey(y, m + 1)
  }

  /** `\d{4}-(0[1-9]|1[0-2])`: the year may be in decimal digits of any script, the month is in ASCII. */
  predicate WellFormedKey(s: string) {
    && |s| == 7 && AllDecimal(s[..4]) && s[4] == '-' && AllDigits(s[5..])
    && 1 <= ReadDigits(s[5..]) <= 12
  }

  /** `re.match` with a final `$` also accepts one newline after the key. */
  function StripNewline(s: string): string {
    if |s| == 8 && s[7] == '\n' then s[..7] else s
  }

  /** The (year, month) of an accepted key; None is a key `is_valid_period_key` turns away. */
  function ParseKey(s: string): Option<(nat, nat)> {
    var key := StripNewline(s);
    if !WellFormedKey(key) then None
    else
      var y, m := ReadDecimal(key[..4]), ReadDigits(key[5..]);
      // datetime(0, ...) and datetime(10000, ...) cannot be built
      if y < 1 || (y == 9999 && m == 12) then None else Some((y, m))
  }

  /** The key of a month with four ASCII year digits. */
  function Canonical(y: nat, m: nat): string {
    Pad(ShowNat(y), 4) + "-" + Pad(ShowNat(m), 2)
  }

  lemma PowersOfTen()
    ensures Power10(2) == 100 && Power10(3) == 1000 && Power10(4) == 10000
  {
    assert Power10(1) == 10 * Power10(0) && Power10(2) == 10 * Power10(1);
  }

  lemma CanonicalParts(y: nat, m: nat)
    requires y <= 9999 && 1 <= m <= 12
    ensures |Pad(ShowNat(y), 4)| == 4 && |Pad(ShowNat(m), 2)| == 2
    ensures AllDigits(Pad(ShowNat(y), 4)) && ReadDigits(Pad(ShowNat(y), 4)) == y
    ensures AllDigits(Pad(ShowNat(m), 2)) && ReadDigits(Pad(ShowNat(m), 2)) == m
    ensures var s := Canonical(y, m);
            |s| == 7 && s[..4] == Pad(ShowNat(y), 4) && s[4] == '-' && s[5..] == Pad(ShowNat(m), 2)
  {
    PowersOfTen();
    ShowLength(y, 4, 10000);
    ShowLength(m, 2, 100);
    PadReads(ShowNat(y), 4);
    PadReads(ShowNat(m), 2);
    ReadShowNat(y);
    ReadShowNat(m);
  }

  /** The canonical key of every month whose bounds can be built is accepted as that month. */
  lemma ParseCanonical(y: nat, m: nat)
    requires 1 <= y <= 9999 && 1 <= m <= 12 && !(y == 9999 && m == 12)
    ensures ParseKey(Canonical(y, m)) == Some((y, m))
  {
    CanonicalParts(y, m);
    DigitsAreDecimal(Pad(ShowNat(y), 4));
  }

  lemma FormatIsCanonical(y: nat, m: nat)
    requires 1000 <= y <= 9999 && 1 <= m <= 12
    ensures FormatKey(y, m) == Canonical(y, m)
  {
    PowersOfTen();
    ShowLength(y, 3, 1000);
    ShowLength(y, 4, 10000);
    ShowLength(m, 2, 100);
    assert Pad(ShowNat(y), 4) == ShowNat(y);
    assert m >= 10 ==> |ShowNat(m)| == 2;
    assert m < 10 ==> Pad("0" + ShowNat(m), 2) == "0" + ShowNat(m);
  }

  /** A printed key has seven characters exactly when its year has four digits, and otherwise is turned away. */
  lemma FormatLength(y: nat, m: nat)
    requires 1 <= m <= 12
    ensures |FormatKey(y, m)| == 7 <==> 1000 <= y <= 9999
    ensures FormatKey(y, m)[|FormatKey(y, m)| - 1] != '\n'
  {
    PowersOfTen();
    ShowLength(y, 3, 1000);
    ShowLength(y, 4, 10000);
    ShowLength(m, 2, 100);
    assert m >= 10 ==> |ShowNat(m)| == 2;
    assert FormatKey(y, m)[|FormatKey(y, m)| - 1] == ShowNat(m)[|ShowNat(m)| - 1];
  }

  /**
   * Reading a printed key gives back the year and month it was printed from, for exactly the months of
   * four-digit years whose end can be built; every other printed key is turned away.
   */
  lemma ParseFormatKey(y: nat, m: nat)
    requires 1 <= m <= 12
    ensures ParseKey(FormatKey(y, m)) ==
            if 1000 <= y <= 9999 && !(y == 9999 && m == 12) then Some((y, m)) else None
  {
    FormatLength(y, m);
    if 1000 <= y <= 9999 {
      FormatIsCanonical(y, m);
      CanonicalParts(y, m);
      DigitsAreDecimal(Pad(ShowNat(y), 4));
    } else {
      assert StripNewline(FormatKey(y, m)) == FormatKey(y, m);
    }
  }

  function MonthBefore(y: nat, m: nat): (nat, nat)
    requires y >= 1 && m >= 1
  {
    if m == 1 then (y - 1, 12) else (y, m - 1)
  }

  function MonthAfter(y: nat, m: nat): (nat, nat) {
    if m == 12 then (y + 1, 1) else (y, m + 1)
  }

  /** The previous key of every datetime names the month before where it is accepted, and leads back to its own key. */
  lemma PrevKey(y: nat, m: nat)
    requires 1 <= y <= 9999 && 1 <= m <= 12
    ensures var p := MonthBefore(y, m);
            && MonthNumber(p.0, p.1) + 1 == MonthNumber(y, m) && NextCycleKey(p.0, p.1) == FormatKey(y, m)
            && ParseKey(PrevCycleKey(y, m)) == if p.0 >= 1000 then Some(p) else None
  {
    var p := MonthBefore(y, m);
    assert PrevCycleKey(y, m) == FormatKey(p.0, p.1);
    ParseFormatKey(p.0, p.1);
  }

  /** Likewise the next key and the month after. */
  lemma NextKey(y: nat, m: nat)
    requires 1 <= y <= 9999 && 1 <= m <= 12
    ensures var n := MonthAfter(y, m);
            && MonthNumber(n.0, n.1) == MonthNumber(y, m) + 1 && PrevCycleKey(n.0, n.1) == FormatKey(y, m)
            && ParseKey(NextCycleKey(y, m)) == if 1000 <= n.0 <= 9999 && n != (9999, 12) then Some(n) else None
  {
    var n := MonthAfter(y, m);
    assert NextCycleKey(y, m) == FormatKey(n.0, n.1);
    ParseFormatKey(n.0, n.1);
  }

  // ---- A month does not have one accepted key ----

  /** Two accepted keys of one month differ at most in a final newline and in the script of the year digits. */
  lemma KeysOfOneMonth(s: string, u: string)
    requires ParseKey(s).Some? && ParseKey(s) == ParseKey(u)
    ensures s == u <==> |s| == |u| && s[..4] == u[..4]
  {
    var a, b := StripNewline(s), StripNewline(u);
    DigitsInjective(a[5..], b[5..]);
    assert a == a[..4] + "-" + a[5..];
    assert b == b[..4] + "-" + b[5..];
    assert |s| == 8 ==> s == a + "\n";
    assert |u| == 8 ==> u == b + "\n";
    assert a[..4] == s[..4] && b[..4] == u[..4];
  }

  /** An accepted key is the canonical one of its month exactly when it is seven characters long with an ASCII year. */
  lemma KeyIsCanonical(s: string)
    requires ParseKey(s).Some?
    ensures var (y, m) := ParseKey(s).value;
            s == Canonical(y, m) <==> |s| == 7 && AllDigits(s[..4])
  {
    var (y, m) := ParseKey(s).value;
    DecimalBound(StripNewline(s)[..4]);
    CanonicalParts(y, m);
    ParseCanonical(y, m);
    KeysOfOneMonth(s, Canonical(y, m));
    if |s| == 7 && AllDigits(s[..4]) {
      DigitsAreDecimal(s[..4]);
      DigitsInjective(s[..4], Pad(ShowNat(y), 4));
    }
  }

  lemma {:induction false} DecimalBound(s: string)
    requires AllDecimal(s)
    ensures ReadDecimal(s) < Power10(|s|)
  {
    if |s| > 0 {
      DecimalBound(s[..|s| - 1]);
      DecimalBelowTen(s[|s| - 1] as int, 0);
    }
  }

  lemma {:induction false} DecimalBelowTen(c: int, d: nat)
    requires d <= 10
    ensures DecimalFrom(c, d).Some? ==> DecimalFrom(c, d).value < 10
    decreases 10 - d
  {
    if d < 10 {
      DecimalBelowTen(c, d + 1);
    }
  }

  /** A key and the same key followed by a newline are both accepted and name the same month. */
  lemma NewlineAlias(y: nat, m: nat)
    requires 1 <= y <= 9999 && 1 <= m <= 12 && !(y == 9999 && m == 12)
    ensures var key := Canonical(y, m);
            ParseKey(key) == ParseKey(key + "\n") == Some((y, m)) && key != key + "\n"
  {
    CanonicalParts(y, m);
    ParseCanonical(y, m);
    var key := Canonical(y, m);
    assert (key + "\n")[..7] == key;
    assert |key + "\n"| == |key| + 1;
  }

  /** So is the key whose year is written in fullwidth digits, of the same length. */
  lemma ScriptAlias(y: nat, m: nat)
    requires 1 <= y <= 9999 && 1 <= m <= 12 && !(y == 9999 && m == 12)
    ensures var year := Pad(ShowNat(y), 4);
            && AllDigits(year)
            && var key, wide := Canonical(y, m), Fullwidth(year) + "-" + Pad(ShowNat(m), 2);
            && |wide| == |key| && wide != key && ParseKey(wide) == ParseKey(key) == Some((y, m))
  {
    CanonicalParts(y, m);
    ParseCanonical(y, m);
    var year, key := Pad(ShowNat(y), 4), Canonical(y, m);
    var wide := Fullwidth(year) + "-" + Pad(ShowNat(m), 2);
    FullwidthReads(year);
    FullwidthDigitReads(year[0]);
    assert wide[..4] == Fullwidth(year) && wide[5..] == key[5..] && wide[4] == key[4];
    assert wide[0] != key[0];
  }

  lemma {:induction false} DigitsInjective(a: string, b: string)
    requires AllDigits(a) && AllDigits(b) && |a| == |b| && ReadDigits(a) == ReadDigits(b)
    ensures a == b
  {
    if |a| > 0 {
      var n := |a| - 1;
      DigitsInjective(a[..n], b[..n]);
      assert a == a[..n] + [a[n]] && b == b[..n] + [b[n]];
    }
  }
}
