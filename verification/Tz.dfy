/** tzset (src/libc/time.c): glibc's timezone and daylight globals are computed by sampling the local time of
    past Junes and Decembers. The C library's localtime_r is any function; that it never fails is assumed. */
module Tz {

  /** What is read of a struct tm: tm_isdst and tm_gmtoff. */
  datatype LocalTime = LocalTime(isdst: int, gmtoff: int)

  /** localtime_r of the 21st of a month, by tm_year and tm_mon. */
  type Clock = (int, int) -> LocalTime

  const JUNE := 5
  const DECEMBER := 11

  /** A moment that is looked at: in June or December, from 1970 up to the current month. */
  predicate IsSample(currentYear: int, currentMonth: int, year: int, month: int) {
    && 70 <= year <= currentYear && (month == JUNE || month == DECEMBER)
    && (year == currentYear ==> month <= currentMonth)
  }

  predicate Later(year: int, month: int, thanYear: int, thanMonth: int) {
    year > thanYear || (year == thanYear && month > thanMonth)
  }

  /** The latest sample whose flag is as wanted. */
  ghost predicate IsLatest(local: Clock, currentYear: int, currentMonth: int, flag: int, year: int, month: int) {
    && IsSample(currentYear, currentMonth, year, month) && local(year, month).isdst == flag
    && forall y, m :: IsSample(currentYear, currentMonth, y, m) && Later(y, m, year, month) ==> local(y, m).isdst != flag
  }

  ghost predicate Occurs(local: Clock, currentYear: int, currentMonth: int, flag: int) {
    exists y, m :: IsSample(currentYear, currentMonth, y, m) && local(y, m).isdst == flag
  }

  class Cell {
    var value: int
  }

  /** find_offset: true exactly when a sample has the flag, and then *offset is that of the latest one. */
  method FindOffset(local: Clock, currentYear: int, currentMonth: int, isDst: int, offset: Cell?) returns (found: bool)
    modifies if offset == null then {} else {offset}
    ensures found <==> Occurs(local, currentYear, currentMonth, isDst)
    ensures found && offset != null ==>
      exists y, m :: IsLatest(local, currentYear, currentMonth, isDst, y, m) && offset.value == local(y, m).gmtoff
    ensures !found && offset != null ==> offset.value == old(offset.value)
  {
    var year := currentYear;
    while year >= 70
      invariant year <= currentYear
      invariant offset != null ==> offset.value == old(offset.value)
      invariant forall y, m :: IsSample(currentYear, currentMonth, y, m) && y > year ==> local(y, m).isdst != isDst
    {
      var month := DECEMBER;
      while month >= JUNE
        invariant month == DECEMBER || month == JUNE || month == -1
        invariant offset != null ==> offset.value == old(offset.value)
        invariant forall y, m :: IsSample(currentYear, currentMonth, y, m) && Later(y, m, year, month) ==> local(y, m).isdst != isDst
        decreases month
      {
        if !(year == currentYear && month > currentMonth) {
          var out := local(year, month);
          if out.isdst == isDst {
            assert IsLatest(local, currentYear, currentMonth, isDst, year, month);
            if offset != null { offset.value := out.gmtoff; }
            return true;
          }
        }
        month := month - 6;
      }
      year := year - 1;
    }
    found := false;
  }

  /** Only one sample is the latest, so find_offset has no choice. */
  lemma LatestIsUnique(local: Clock, cy: int, cm: int, flag: int, y: int, m: int, y': int, m': int)
    requires IsLatest(local, cy, cm, flag, y, m) && IsLatest(local, cy, cm, flag, y', m')
    ensures y == y' && m == m'
  {
  }

  /** The program's globals, under both of their names. */
  class Globals {
    var timezone: int
    var altTimezone: int
    var daylight: int
    var altDaylight: int
    var name0: string
    var name1: string

    constructor ()
      ensures timezone == altTimezone == daylight == altDaylight == 0 && name0 == name1 == "GMT"
    {
      timezone, altTimezone, daylight, altDaylight, name0, name1 := 0, 0, 0, 0, "GMT", "GMT";
    }
  }

  /** sizeof(shim_tzname_0) */
  const NAME_SIZE := 6

  /** strlcpy into a buffer of the given size */
  function Cut(s: string, size: nat): (r: string)
    requires size > 0
    ensures r <= s && |r| == if |s| < size then |s| else size - 1
  {
    if |s| < size then s else s[..size - 1]
  }

  /** What the globals mean: seconds west of UTC of the latest standard time, 0 if there is none, and
      whether daylight saving time occurs in any sample. */
  ghost predicate Reflects(g: Globals, local: Clock, currentYear: int, currentMonth: int)
    reads g
  {
    && g.timezone == g.altTimezone && g.daylight == g.altDaylight
    && g.daylight == (if Occurs(local, currentYear, currentMonth, 1) then 1 else 0)
    && (!Occurs(local, currentYear, currentMonth, 0) ==> g.timezone == 0)
    && (forall y, m :: IsLatest(local, currentYear, currentMonth, 0, y, m) ==> g.timezone == -local(y, m).gmtoff)
  }

  /** shim_tzset_impl, at the given local time and with the names the C library found. */
  method Tzset(g: Globals, local: Clock, currentYear: int, currentMonth: int, names: (string, string))
    modifies g
    ensures Reflects(g, local, currentYear, currentMonth)
    ensures g.name0 == Cut(names.0, 6) && g.name1 == Cut(names.1, 6)
  {
    g.name0, g.name1 := Cut(names.0, NAME_SIZE), Cut(names.1, NAME_SIZE);
    var timezone := new Cell;
    var found := FindOffset(local, currentYear, currentMonth, 0, timezone);
    if found {
      LatestOffset(local, currentYear, currentMonth, timezone.value);
      timezone.value := -timezone.value;
    } else {
      timezone.value := 0;
    }
    g.timezone, g.altTimezone := timezone.value, timezone.value;
    found := FindOffset(local, currentYear, currentMonth, 1, null);
    g.daylight := if found then 1 else 0;
    g.altDaylight := g.daylight;
  }

  lemma LatestOffset(local: Clock, cy: int, cm: int, offset: int)
    requires exists y, m :: IsLatest(local, cy, cm, 0, y, m) && offset == local(y, m).gmtoff
    ensures forall y, m :: IsLatest(local, cy, cm, 0, y, m) ==> offset == local(y, m).gmtoff
  {
  }

  /** Where the clocks are set forward in one half of every year, the sampling finds both the standard offset
      and daylight saving time, on either hemisphere, as soon as a whole year has passed. */
  lemma SeasonalZone(g: Globals, local: Clock, currentYear: int, currentMonth: int, standard: int, summer: int)
    requires currentYear > 70 && summer in {JUNE, DECEMBER}
    requires forall y, m :: local(y, m).isdst == if m == summer then 1 else 0
    requires forall y, m :: m != summer ==> local(y, m).gmtoff == standard
    requires Reflects(g, local, currentYear, currentMonth)
    ensures g.daylight == 1 && g.timezone == -standard
  {
    var winter := JUNE + DECEMBER - summer;
    var year := if winter <= currentMonth then currentYear else currentYear - 1;
    assert IsSample(currentYear, currentMonth, currentYear - 1, summer) && local(currentYear - 1, summer).isdst == 1;
    assert IsLatest(local, currentYear, currentMonth, 0, year, winter);
  }
}
