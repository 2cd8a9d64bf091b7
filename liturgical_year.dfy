/**
 * The liturgical-season engine: the date of Easter by the Anonymous Gregorian
 * computus, the marker dates of a year derived from it, and the ordered
 * classification of a calendar date into one of the five seasons.
 *
 * Dates are JsDate day numbers (UTC midnights); comparing two dates is
 * comparing their day numbers.
 */
module LiturgicalYear {
  import opened JsDate
  import opened LiturgicalTypes

  /** createDate: the UTC midnight of a date given with a 1-based month. */
  function CreateDate(year: int, month: int, day: int): int {
    Utc(year, month - 1, day)
  }

  /** addDays: a copy of the date whose day of the month is moved by `days`
      (setUTCDate), which carries over month and year ends. */
  function AddDays(date: int, days: int): (r: int)
    ensures r == date + days
  {
    var y, m, d := YearFromTime(date), MonthFromTime(date), DateFromTime(date);
    MakeDayInYear(y, m, d + days);
    MakeDay(y, m, d + days)
  }

  datatype MonthDay = MonthDay(month: int, day: int)

  /** The Anonymous Gregorian (Meeus/Jones/Butcher) computus up to its last
      step: h + l - 7m, the number of days from March 22 to Easter Sunday.
      `Math.floor(x / n)` is Dafny's `/` (n > 0); `%` is JavaScript's
      truncated Rem. From year 0 on every dividend is non-negative, and the
      offset lies between 0 and 34. */
  function EasterOffset(year: int): (n: int)
    ensures year >= 0 ==> 0 <= n <= 34
  {
    var a := Rem(year, 19);
    var b := year / 100;
    var c := Rem(year, 100);
    var d := b / 4;
    var e := Rem(b, 4);
    var f := (b + 8) / 25;
    var g := (b - f + 1) / 3;
    var h := Rem(19 * a + b - d - g + 15, 30);
    var i := c / 4;
    var k := Rem(c, 4);
    var l := Rem(32 + 2 * e + 2 * i - h - k, 7);
    var m := (a + 11 * h + 22 * l) / 451;
    h + l - 7 * m
  }

  /** The computus's month and day of Easter Sunday, from the offset: Easter
      falls between March 22 and April 25. */
  function Computus(year: int): (md: MonthDay)
    ensures year >= 0 ==>
      || (md.month == 3 && 22 <= md.day <= 31)
      || (md.month == 4 && 1 <= md.day <= 25)
  {
    var n := EasterOffset(year);
    MonthDay((n + 114) / 31, Rem(n + 114, 31) + 1)
  }

  /** getEaster: Easter Sunday of the year, as a date. */
  function GetEaster(year: int): int {
    var md := Computus(year);
    CreateDate(year, md.month, md.day)
  }

  /** The first Sunday of Advent, as the source computes it from Christmas:
      `-(christmas.getUTCDay() + 21 % 7) % 7 - 21`. Since `21 % 7` is 0 and a
      JavaScript remainder keeps the dividend's sign, the offset is
      -weekday - 21: three weeks before the Sunday on or before December 25.
      When Christmas is itself a Sunday this is December 4, not the liturgical
      November 27 (see CanonicalFirstSundayOfAdvent). */
  function FirstSundayOfAdvent(christmas: int): (r: int)
    ensures r == christmas - WeekDay(christmas) - 21
  {
    var offset := Rem(-(WeekDay(christmas) + Rem(21, 7)), 7) - 21;
    assert Rem(21, 7) == 0;
    assert offset == -WeekDay(christmas) - 21;
    AddDays(christmas, offset)
  }

  /** The Baptism of the Lord: the next Sunday strictly after Epiphany, a full
      week later when Epiphany is itself a Sunday. */
  function BaptismOfLord(epiphany: int): (r: int)
    ensures epiphany < r <= epiphany + 7
  {
    var daysUntilSunday := Rem(7 - WeekDay(epiphany), 7);
    AddDays(epiphany, if daysUntilSunday > 0 then daysUntilSunday else 7)
  }

  /** Every date the classification of one year reads. */
  datatype SeasonMarkers = SeasonMarkers(
    easter: int,
    ashWednesday: int,
    palmSunday: int,
    pentecost: int,
    christmas: int,
    firstSundayOfAdvent: int,
    epiphany: int,
    baptismOfLord: int,
    prevYearChristmas: int)

  /** The marker dates of a year, as getLiturgicalInfo derives them. */
  function MarkerDates(year: int): (mk: SeasonMarkers)
    ensures mk.ashWednesday == mk.easter - 46
    ensures mk.palmSunday == mk.easter - 7
    ensures mk.pentecost == mk.easter + 49
  {
    var easter := GetEaster(year);
    var christmas := CreateDate(year, 12, 25);
    var epiphany := CreateDate(year, 1, 6);
    SeasonMarkers(
      easter := easter,
      ashWednesday := AddDays(easter, -46),
      palmSunday := AddDays(easter, -7),
      pentecost := AddDays(easter, 49),
      christmas := christmas,
      firstSundayOfAdvent := FirstSundayOfAdvent(christmas),
      epiphany := epiphany,
      baptismOfLord := BaptismOfLord(epiphany),
      prevYearChristmas := CreateDate(year - 1, 12, 25))
  }

  const AdventDescription: string := "Tempo de preparação para o Natal."
  const ChristmasDescription: string := "Tempo de celebração do nascimento de Jesus."
  const HolyWeekDescription: string := "Semana Santa, o ápice da Quaresma."
  const LentDescription: string := "Tempo de penitência, oração e conversão."
  const EasterDescription: string := "Tempo de celebração da Ressurreição de Cristo."
  const OrdinaryTimeDescription: string := "Tempo Comum, vivendo o mistério de Cristo no dia a dia."

  /** The tag of the last week of Lent, from Palm Sunday on. */
  const HolyWeek: string := "Semana Santa"

  /** The ordered season tests: the first that matches decides. Every result
      has its season's colour, and only the last days of Lent carry a tag. */
  function Classify(today: int, mk: SeasonMarkers): (r: LiturgicalInfo)
    ensures r.color == SeasonColor(r.season)
    ensures r.dayName.Some? <==> r.season == Lent && today >= mk.palmSunday
    ensures r.dayName.Some? ==> r.dayName.value == HolyWeek
  {
    if today >= mk.firstSundayOfAdvent && today < mk.christmas then
      LiturgicalInfo(Advent, None, Purple, AdventDescription)
    else if (today >= mk.prevYearChristmas && today < mk.baptismOfLord) || today >= mk.christmas then
      LiturgicalInfo(Christmas, None, White, ChristmasDescription)
    else if today >= mk.ashWednesday && today < mk.easter then
      if today >= mk.palmSunday then
        LiturgicalInfo(Lent, Some(HolyWeek), Purple, HolyWeekDescription)
      else
        LiturgicalInfo(Lent, None, Purple, LentDescription)
    else if today >= mk.easter && today <= mk.pentecost then
      LiturgicalInfo(Easter, None, White, EasterDescription)
    else
      LiturgicalInfo(OrdinaryTime, None, Green, OrdinaryTimeDescription)
  }

  /** A calendar date as the host's local-time getters give it (1-based month). */
  datatype CalendarDate = CalendarDate(year: int, month: int, day: int)

  /** getLiturgicalInfo: the date is rebuilt as a UTC midnight, its year read
      back, and the markers of that year classify it. */
  function GetLiturgicalInfo(current: CalendarDate): (r: LiturgicalInfo)
    ensures r.color == SeasonColor(r.season)
    ensures r.color != Red && r.color != Rose
  {
    var today := CreateDate(current.year, current.month, current.day);
    var year := YearFromTime(today);
    Classify(today, MarkerDates(year))
  }

  // The liturgical rule for the start of Advent, beside the source's value.

  /** The fourth Sunday before Christmas Day: three weeks before the last
      Sunday strictly before December 25. */
  function CanonicalFirstSundayOfAdvent(christmas: int): (r: int)
    ensures christmas - 28 <= r <= christmas - 22
  {
    var w := WeekDay(christmas);
    christmas - (if w == 0 then 7 else w) - 21
  }

  /** The marker dates with Advent starting on its fourth Sunday before Christmas. */
  function CanonicalMarkerDates(year: int): SeasonMarkers {
    var mk := MarkerDates(year);
    mk.(firstSundayOfAdvent := CanonicalFirstSundayOfAdvent(mk.christmas))
  }

  /** getLiturgicalInfo with Advent starting on the fourth Sunday before Christmas. */
  function GetLiturgicalInfoCanonical(current: CalendarDate): (r: LiturgicalInfo)
    ensures r.color == SeasonColor(r.season)
  {
    var today := CreateDate(current.year, current.month, current.day);
    Classify(today, CanonicalMarkerDates(YearFromTime(today)))
  }
}
