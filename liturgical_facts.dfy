/**
 * What the liturgical calendar guarantees: where and on which weekday its
 * marker dates fall, and which dates each season covers.
 */
module LiturgicalFacts {
  import opened JsDate
  import opened LiturgicalTypes
  import opened LiturgicalYear

  /** Easter lies 0 to 34 days after March 22, i.e. between March 22 and
      April 25 of the same calendar year. */
  lemma EasterWindow(year: int)
    requires year >= 0
    ensures CreateDate(year, 3, 22) <= GetEaster(year) <= CreateDate(year, 4, 25)
  {
    MonthStarts(MakeFullYear(year));
    var md := Computus(year);
    UtcInYear(year, md.month - 1, md.day);
    UtcInYear(year, 2, 22);
    UtcInYear(year, 3, 25);
  }

  /** March 22 in closed form: with year == 100 * b + 4 * i + k and
      b == 4 * d + e, its day number plus 36 + 2e + 2i - k is a multiple of 7
      (the Gregorian weekday cycle the computus relies on). */
  lemma March22Weekday(year: int)
    requires year >= 100
    ensures var b := year / 100; var c := year % 100;
      var d, e, i, k := b / 4, b % 4, c / 4, c % 4;
      CreateDate(year, 3, 22) + 4 + (32 + 2 * e + 2 * i - k)
        == 7 * (20871 * d + 5218 * e + 209 * i + 52 * k - 102773)
  {
    MonthStarts(MakeFullYear(year));
    var b, c := year / 100, year % 100;
    var d, e, i, k := b / 4, b % 4, c / 4, c % 4;
    UtcInYear(year, 2, 22);
    NextYear(year);
    DayFromYearAfter(year);
    assert CreateDate(year, 3, 22) == DayFromYear(year + 1) - 285;
    assert year == 100 * b + 4 * i + k;
    assert b == 4 * d + e;
  }

  /** The weekday arithmetic of the computus's last steps: l is x modulo 7,
      so adding l and taking away 7m moves h by x plus a multiple of 7. */
  lemma WeekStepArith(x: int, h: int, l: int, m: int)
    requires x >= 0 && l == x % 7
    ensures (h + l - 7 * m - (x + h)) % 7 == 0
  {
    assert h + l - 7 * m - (x + h) == 7 * (-(x / 7) - m);
  }

  /** The computus puts Easter 32 + 2e + 2i - k days after March 22, modulo 7
      (its l term is exactly the step to the next Sunday). */
  lemma ComputusWeekStep(year: int)
    requires year >= 0
    ensures var b := year / 100; var c := year % 100;
      var e, i, k := b % 4, c / 4, c % 4;
      (EasterOffset(year) - (32 + 2 * e + 2 * i - k)) % 7 == 0
  {
    var a := Rem(year, 19);
    var b := year / 100;
    var c := Rem(year, 100);
    var d := b / 4;
    var e := Rem(b, 4);
    var f := (b + 8) / 25;
    var g := (b - f + 1) / 3;
    var h := Rem(19 * a + b - d - g + 15, 30);
    var i := c / 4;
    var k := Rem(c, 4);
    var x := 32 + 2 * e + 2 * i - h - k;
    var l := Rem(x, 7);
    var m := (a + 11 * h + 22 * l) / 451;
    assert EasterOffset(year) == h + l - 7 * m;
    assert c == year % 100 && e == b % 4 && k == c % 4;
    assert 0 <= h < 30 && 0 <= e < 4 && 0 <= k < 4 && 0 <= i;
    assert x >= 0;
    assert l == x % 7;
    WeekStepArith(x, h, l, m);
  }

  /** getEaster is March 22 moved by the computus's offset. */
  lemma EasterFromMarch22(year: int)
    requires year >= 0
    ensures GetEaster(year) == CreateDate(year, 3, 22) + EasterOffset(year)
  {
    MonthStarts(MakeFullYear(year));
    var n, md := EasterOffset(year), Computus(year);
    assert md == MonthDay((n + 114) / 31, Rem(n + 114, 31) + 1);
    UtcInYear(year, 2, 22);
    if n < 10 {
      assert md.month == 3 && md.day == n + 22;
      UtcInYear(year, 2, n + 22);
    } else {
      assert md.month == 4 && md.day == n - 9;
      UtcInYear(year, 3, n - 9);
    }
  }

  /** Two day numbers that each complete a multiple of 7 with the same
      remainder-free offset: the weekday arithmetic of EasterIsSunday. */
  lemma SundayBySum(easter: int, march22: int, s: int, x: int)
    requires march22 + 4 + s == 7 * x
    requires (easter - march22 - s) % 7 == 0
    ensures WeekDay(easter) == 0
  {
    var z := easter - march22 - s;
    assert z == 7 * (z / 7);
    assert easter + 4 == 7 * (x + z / 7);
  }

  /** The computus lands on a Sunday in every year Date.UTC takes literally. */
  lemma EasterIsSunday(year: int)
    requires year >= 100
    ensures WeekDay(GetEaster(year)) == 0
  {
    var b, c := year / 100, year % 100;
    var d, e, i, k := b / 4, b % 4, c / 4, c % 4;
    March22Weekday(year);
    ComputusWeekStep(year);
    EasterFromMarch22(year);
    SundayBySum(GetEaster(year), CreateDate(year, 3, 22), 32 + 2 * e + 2 * i - k,
                20871 * d + 5218 * e + 209 * i + 52 * k - 102773);
  }

  /** The marker dates of a year, field by field. */
  lemma MarkerDatesFields(year: int)
    ensures var mk := MarkerDates(year);
      && mk.easter == GetEaster(year)
      && mk.christmas == CreateDate(year, 12, 25)
      && mk.epiphany == CreateDate(year, 1, 6)
      && mk.firstSundayOfAdvent == FirstSundayOfAdvent(mk.christmas)
      && mk.baptismOfLord == BaptismOfLord(mk.epiphany)
      && mk.prevYearChristmas == CreateDate(year - 1, 12, 25)
  {
  }

  /** Counted from a Sunday: 46 days earlier is a Wednesday, 7 days earlier
      and 49 days later are Sundays. */
  lemma FromSunday(e: int)
    requires WeekDay(e) == 0
    ensures WeekDay(e - 46) == 3 && WeekDay(e - 7) == 0 && WeekDay(e + 49) == 0
  {
    WeekDayShift(e - 46, 46);
    WeekDayShift(e - 7, 7);
    WeekDayShift(e, 49);
  }

  /** Ash Wednesday is a Wednesday, Palm Sunday and Pentecost are Sundays, and
      they lie exactly 46 days before, 7 days before and 49 days after Easter. */
  lemma MovableFeasts(year: int)
    requires year >= 100
    ensures var mk := MarkerDates(year);
      && mk.ashWednesday == GetEaster(year) - 46
      && mk.palmSunday == GetEaster(year) - 7
      && mk.pentecost == GetEaster(year) + 49
      && WeekDay(mk.ashWednesday) == 3
      && WeekDay(mk.palmSunday) == 0
      && WeekDay(mk.pentecost) == 0
  {
    var mk, easter := MarkerDates(year), GetEaster(year);
    MarkerDatesFields(year);
    assert mk.easter == easter;
    EasterIsSunday(year);
    FromSunday(easter);
  }

  /** Weekday facts about the day `off` days after ep, for the offset the
      source adds to Epiphany. */
  lemma NextSundayAfter(ep: int, off: int)
    requires off == (if Rem(7 - WeekDay(ep), 7) > 0 then Rem(7 - WeekDay(ep), 7) else 7)
    ensures WeekDay(ep + off) == 0
    ensures forall t :: ep < t < ep + off ==> WeekDay(t) != 0
    ensures off == 7 <==> WeekDay(ep) == 0
  {
    WeekDayShift(ep, off);
    forall t | ep < t < ep + off
      ensures WeekDay(t) != 0
    {
      WeekDayShift(ep, t - ep);
    }
  }

  /** The Baptism of the Lord is the first Sunday strictly after Epiphany,
      a full week after it exactly when Epiphany is a Sunday. */
  lemma BaptismOfLordIsNextSunday(epiphany: int)
    ensures var r := BaptismOfLord(epiphany);
      && WeekDay(r) == 0
      && (forall t :: epiphany < t < r ==> WeekDay(t) != 0)
      && (r == epiphany + 7 <==> WeekDay(epiphany) == 0)
  {
    var d := Rem(7 - WeekDay(epiphany), 7);
    var off := if d > 0 then d else 7;
    assert BaptismOfLord(epiphany) == epiphany + off;
    NextSundayAfter(epiphany, off);
  }

  /** In the calendar: the Baptism of the Lord falls between January 7 and
      January 13, on January 13 exactly when Epiphany is a Sunday. */
  lemma BaptismOfLordInJanuary(year: int)
    ensures var mk := MarkerDates(year);
      && CreateDate(year, 1, 7) <= mk.baptismOfLord <= CreateDate(year, 1, 13)
      && (mk.baptismOfLord == CreateDate(year, 1, 13) <==> WeekDay(mk.epiphany) == 0)
  {
    MonthStarts(MakeFullYear(year));
    MarkerDatesFields(year);
    BaptismOfLordIsNextSunday(CreateDate(year, 1, 6));
    UtcInYear(year, 0, 6);
    UtcInYear(year, 0, 7);
    UtcInYear(year, 0, 13);
  }

  /** Three weeks before the Sunday on or before day c is a Sunday. */
  lemma SundayThreeWeeksBefore(c: int)
    ensures WeekDay(c - WeekDay(c) - 21) == 0
  {
    WeekDayShift(c - WeekDay(c) - 21, WeekDay(c) + 21);
  }

  /** The source's first Sunday of Advent is the Sunday three weeks before the
      Sunday on or before Christmas: 21 to 27 days before Christmas, and 21
      exactly when Christmas is a Sunday. */
  lemma FirstSundayOfAdventAsWritten(christmas: int)
    ensures var r := FirstSundayOfAdvent(christmas);
      && WeekDay(r) == 0
      && christmas - 27 <= r <= christmas - 21
      && (r == christmas - 21 <==> WeekDay(christmas) == 0)
  {
    var r, w := FirstSundayOfAdvent(christmas), WeekDay(christmas);
    assert r == christmas - w - 21;
    SundayThreeWeeksBefore(christmas);
  }

  /** The late-November and early-December dates, counted back from
      Christmas Day. */
  lemma DaysBeforeChristmas(year: int)
    ensures var c := CreateDate(year, 12, 25);
      && CreateDate(year, 11, 27) == c - 28
      && CreateDate(year, 11, 28) == c - 27
      && CreateDate(year, 12, 3) == c - 22
      && CreateDate(year, 12, 4) == c - 21
  {
    MonthStarts(MakeFullYear(year));
    UtcInYear(year, 11, 25);
    UtcInYear(year, 10, 27);
    UtcInYear(year, 10, 28);
    UtcInYear(year, 11, 3);
    UtcInYear(year, 11, 4);
  }

  /** In the calendar: between November 28 and December 4, and December 4
      exactly when Christmas is a Sunday. */
  lemma FirstSundayOfAdventInCalendar(year: int)
    ensures var mk := MarkerDates(year);
      && CreateDate(year, 11, 28) <= mk.firstSundayOfAdvent <= CreateDate(year, 12, 4)
      && (mk.firstSundayOfAdvent == CreateDate(year, 12, 4) <==> WeekDay(mk.christmas) == 0)
  {
    var c := CreateDate(year, 12, 25);
    MarkerDatesFields(year);
    FirstSundayOfAdventAsWritten(c);
    DaysBeforeChristmas(year);
  }

  /** The liturgical rule: the fourth Sunday before Christmas Day is a Sunday
      with exactly four Sundays from it up to Christmas Eve. It differs from
      the source's date only when Christmas is a Sunday, and then by a week. */
  lemma CanonicalFirstSundayOfAdventRule(christmas: int)
    ensures var r := CanonicalFirstSundayOfAdvent(christmas);
      && WeekDay(r) == 0
      && r + 21 < christmas <= r + 28
      && (r == FirstSundayOfAdvent(christmas) <==> WeekDay(christmas) != 0)
      && (WeekDay(christmas) == 0 ==> r == FirstSundayOfAdvent(christmas) - 7)
  {
    var r := CanonicalFirstSundayOfAdvent(christmas);
    WeekDayShift(r, christmas - r);
  }

  /** In the calendar: between November 27 and December 3. */
  lemma CanonicalFirstSundayOfAdventInCalendar(year: int)
    ensures var r := CanonicalMarkerDates(year).firstSundayOfAdvent;
      CreateDate(year, 11, 27) <= r <= CreateDate(year, 12, 3)
  {
    MarkerDatesFields(year);
    DaysBeforeChristmas(year);
  }

  /** The order of the marker dates that makes the season windows disjoint. */
  predicate WellOrdered(mk: SeasonMarkers) {
    && mk.prevYearChristmas < mk.baptismOfLord
    && mk.baptismOfLord < mk.ashWednesday
    && mk.ashWednesday < mk.palmSunday
    && mk.palmSunday < mk.easter
    && mk.easter <= mk.pentecost
    && mk.pentecost + 1 < mk.firstSundayOfAdvent
    && mk.firstSundayOfAdvent < mk.christmas
  }

  /** The dates of its season window, independently of the order of the tests. */
  predicate InWindow(s: LiturgicalSeason, t: int, mk: SeasonMarkers) {
    match s
    case Advent => mk.firstSundayOfAdvent <= t < mk.christmas
    case Christmas => (mk.prevYearChristmas <= t < mk.baptismOfLord) || mk.christmas <= t
    case Lent => mk.ashWednesday <= t < mk.easter
    case Easter => mk.easter <= t <= mk.pentecost
    case OrdinaryTime =>
      || t < mk.prevYearChristmas
      || mk.baptismOfLord <= t < mk.ashWednesday
      || mk.pentecost < t < mk.firstSundayOfAdvent
  }

  /** With well-ordered markers the windows do not overlap, so the first-match
      chain puts every date in the one season whose window holds it. */
  lemma ClassifyByWindows(t: int, mk: SeasonMarkers, s: LiturgicalSeason)
    requires WellOrdered(mk)
    ensures Classify(t, mk).season == s <==> InWindow(s, t, mk)
  {
  }

  /** The day numbers of the calendar dates the markers are compared with,
      counted from January 1 (L is 1 in a leap year). */
  lemma CalendarPositions(year: int)
    requires year >= 100
    ensures var j, L := DayFromYear(year), if InLeapYear(year) then 1 else 0;
      && CreateDate(year, 1, 13) == j + 12
      && CreateDate(year, 3, 22) == j + 80 + L
      && CreateDate(year, 4, 25) == j + 114 + L
      && CreateDate(year, 6, 14) == j + 164 + L
      && CreateDate(year, 11, 27) == j + 330 + L
      && CreateDate(year, 11, 28) == j + 331 + L
      && CreateDate(year, 12, 25) == j + 358 + L
      && DayFromYear(year + 1) == j + 365 + L
  {
    MonthStarts(MakeFullYear(year));
    UtcInYear(year, 0, 13);
    UtcInYear(year, 2, 22);
    UtcInYear(year, 3, 25);
    UtcInYear(year, 5, 14);
    UtcInYear(year, 10, 27);
    UtcInYear(year, 10, 28);
    UtcInYear(year, 11, 25);
    NextYear(year);
  }

  /** From year 101 on (the previous year is then not moved by Date.UTC), the
      markers of a year are well ordered, the previous Christmas falls before
      January 1, this year's Christmas before next January 1, and the day
      after Pentecost before November 27. */
  lemma MarkersWellOrdered(year: int)
    requires year >= 101
    ensures WellOrdered(MarkerDates(year))
    ensures MarkerDates(year).prevYearChristmas < DayFromYear(year)
    ensures MarkerDates(year).christmas < DayFromYear(year + 1)
    ensures MarkerDates(year).pentecost + 1 < CreateDate(year, 11, 27)
  {
    var mk := MarkerDates(year);
    var c := CreateDate(year, 12, 25);
    MarkerDatesFields(year);
    YearLandmarks(year);
    BaptismOfLordInJanuary(year);
    EasterWindow(year);
    SummerBounds(year);
    FirstSundayOfAdventAsWritten(c);
    assert mk.baptismOfLord + 46 < GetEaster(year);
    assert mk.pentecost + 1 < CreateDate(year, 11, 27);
  }

  /** The markers with the liturgical Advent start are well ordered too: that
      Advent start also falls between November 27 and Christmas. */
  lemma CanonicalMarkersWellOrdered(year: int)
    requires year >= 101
    ensures WellOrdered(CanonicalMarkerDates(year))
  {
    var mk, cmk := MarkerDates(year), CanonicalMarkerDates(year);
    MarkersWellOrdered(year);
    CanonicalFirstSundayOfAdventInCalendar(year);
    DaysBeforeChristmas(year);
    MarkerDatesFields(year);
    assert mk.pentecost + 1 < cmk.firstSundayOfAdvent < mk.christmas;
    assert cmk == mk.(firstSundayOfAdvent := cmk.firstSundayOfAdvent);
  }

  /** The calendar dates the marker order rests on, in order: last year's
      Christmas, January 1, the Baptism window, March 22, June 14,
      November 27, Christmas and next January 1. */
  lemma YearLandmarks(year: int)
    requires year >= 101
    ensures CreateDate(year - 1, 12, 25) < DayFromYear(year) < CreateDate(year, 1, 7)
    ensures CreateDate(year, 1, 13) + 46 < CreateDate(year, 3, 22)
    ensures CreateDate(year, 6, 14) < CreateDate(year, 11, 27)
    ensures CreateDate(year, 12, 25) < DayFromYear(year + 1)
  {
    MonthStarts(MakeFullYear(year));
    CalendarPositions(year);
    CalendarPositions(year - 1);
    UtcInYear(year, 0, 7);
  }

  /** Each season's window inside the date's own year: Christmas before the
      Baptism of the Lord and from December 25 on, Ordinary Time between the
      Baptism and Ash Wednesday and between the day after Pentecost and
      Advent, and the Holy Week tag from Palm Sunday to Easter Eve. */
  predicate SeasonWindows(r: LiturgicalInfo, t: int, mk: SeasonMarkers) {
    && (r.season == Advent <==> mk.firstSundayOfAdvent <= t < mk.christmas)
    && (r.season == Christmas <==> t < mk.baptismOfLord || mk.christmas <= t)
    && (r.season == Lent <==> mk.ashWednesday <= t < mk.easter)
    && (r.season == Easter <==> mk.easter <= t <= mk.pentecost)
    && (r.season == OrdinaryTime <==>
          || mk.baptismOfLord <= t < mk.ashWednesday
          || mk.pentecost < t < mk.firstSundayOfAdvent)
    && (r.dayName.Some? <==> mk.palmSunday <= t < mk.easter)
  }

  /** Inside its own year a date is classified by the season windows. */
  lemma SeasonWithinYear(r: LiturgicalInfo, t: int, year: int, mk: SeasonMarkers)
    requires r == Classify(t, mk) && WellOrdered(mk)
    requires mk.prevYearChristmas < DayFromYear(year) <= t < DayFromYear(year + 1)
    ensures SeasonWindows(r, t, mk)
  {
    ClassifyByWindows(t, mk, r.season);
  }

  /** A valid date lies inside its own year, as getUTCFullYear reads it back. */
  lemma InOwnYear(year: int, month: int, day: int)
    requires ValidCivil(year, month, day) && !(0 <= year <= 99)
    ensures YearFromTime(CreateDate(year, month, day)) == year
    ensures DayFromYear(year) <= CreateDate(year, month, day) < DayFromYear(year + 1)
  {
    UtcRoundTrip(year, month, day);
  }

  /** getLiturgicalInfo classifies a valid date by the markers of its own year. */
  lemma ClassifiesOwnYear(year: int, month: int, day: int)
    requires ValidCivil(year, month, day) && !(0 <= year <= 99)
    ensures GetLiturgicalInfo(CalendarDate(year, month, day))
         == Classify(CreateDate(year, month, day), MarkerDates(year))
  {
    InOwnYear(year, month, day);
  }

  /** So does its variant with the liturgical Advent start. */
  lemma ClassifiesOwnYearCanonical(year: int, month: int, day: int)
    requires ValidCivil(year, month, day) && !(0 <= year <= 99)
    ensures GetLiturgicalInfoCanonical(CalendarDate(year, month, day))
         == Classify(CreateDate(year, month, day), CanonicalMarkerDates(year))
  {
    InOwnYear(year, month, day);
  }

  /** A valid date of year 101 or later lies in its own year, between the
      previous Christmas and the next January 1, and that year's markers are
      well ordered. */
  lemma DateInMarkedYear(year: int, month: int, day: int)
    requires ValidCivil(year, month, day) && year >= 101
    ensures var t, mk := CreateDate(year, month, day), MarkerDates(year);
      && YearFromTime(t) == year && WellOrdered(mk)
      && mk.prevYearChristmas < DayFromYear(year) <= t < DayFromYear(year + 1)
  {
    InOwnYear(year, month, day);
    MarkersWellOrdered(year);
  }

  /** So does the date with the markers of the liturgical Advent start. */
  lemma DateInCanonicalMarkedYear(year: int, month: int, day: int)
    requires ValidCivil(year, month, day) && year >= 101
    ensures var t, mk := CreateDate(year, month, day), CanonicalMarkerDates(year);
      && YearFromTime(t) == year && WellOrdered(mk)
      && mk.prevYearChristmas < DayFromYear(year) <= t < DayFromYear(year + 1)
  {
    DateInMarkedYear(year, month, day);
    CanonicalMarkersWellOrdered(year);
  }

  /** The season getLiturgicalInfo gives a valid date of year 101 or later,
      in terms of that year's marker dates. */
  lemma SeasonOfDate(year: int, month: int, day: int)
    requires ValidCivil(year, month, day) && year >= 101
    ensures SeasonWindows(GetLiturgicalInfo(CalendarDate(year, month, day)),
                          CreateDate(year, month, day), MarkerDates(year))
  {
    DateInMarkedYear(year, month, day);
    SeasonWithinYear(GetLiturgicalInfo(CalendarDate(year, month, day)), CreateDate(year, month, day),
                     year, MarkerDates(year));
  }

  /** The same with Advent opening on the fourth Sunday before Christmas. */
  lemma SeasonOfDateCanonical(year: int, month: int, day: int)
    requires ValidCivil(year, month, day) && year >= 101
    ensures SeasonWindows(GetLiturgicalInfoCanonical(CalendarDate(year, month, day)),
                          CreateDate(year, month, day), CanonicalMarkerDates(year))
  {
    DateInCanonicalMarkedYear(year, month, day);
    SeasonWithinYear(GetLiturgicalInfoCanonical(CalendarDate(year, month, day)),
                     CreateDate(year, month, day), year, CanonicalMarkerDates(year));
  }

  /** The edges of Lent and Eastertide for any well-ordered markers: the eve
      of Ash Wednesday is Ordinary Time, Ash Wednesday is Lent, the eve of
      Easter is Lent in Holy Week, Easter Sunday and Pentecost are Easter, the
      day after Pentecost is Ordinary Time. */
  lemma WindowEdges(mk: SeasonMarkers)
    requires WellOrdered(mk)
    ensures Classify(mk.ashWednesday - 1, mk).season == OrdinaryTime
    ensures Classify(mk.ashWednesday, mk) == LiturgicalInfo(Lent, None, Purple, LentDescription)
    ensures Classify(mk.easter - 1, mk) == LiturgicalInfo(Lent, Some(HolyWeek), Purple, HolyWeekDescription)
    ensures Classify(mk.easter, mk).season == Easter
    ensures Classify(mk.pentecost, mk).season == Easter
    ensures Classify(mk.pentecost + 1, mk).season == OrdinaryTime
  {
  }

  /** The same edges for the markers of any year from 101 on. */
  lemma LentAndEasterEdges(year: int)
    requires year >= 101
    ensures var mk := MarkerDates(year);
      && Classify(mk.ashWednesday - 1, mk).season == OrdinaryTime
      && Classify(mk.ashWednesday, mk) == LiturgicalInfo(Lent, None, Purple, LentDescription)
      && Classify(mk.easter - 1, mk) == LiturgicalInfo(Lent, Some(HolyWeek), Purple, HolyWeekDescription)
      && Classify(mk.easter, mk).season == Easter
      && Classify(mk.pentecost, mk).season == Easter
      && Classify(mk.pentecost + 1, mk).season == OrdinaryTime
  {
    var mk := MarkerDates(year);
    MarkersWellOrdered(year);
    WindowEdges(mk);
  }

  /** Easter 2024 by the computus: March 31. */
  lemma Computus2024()
    ensures Computus(2024) == MonthDay(3, 31)
    ensures GetEaster(2024) == CreateDate(2024, 3, 31)
  {
    assert Rem(2024, 19) == 10;
    assert Rem(2024, 100) == 24;
    assert Rem(20, 4) == 0;
    assert Rem(214, 30) == 4;
    assert Rem(24, 4) == 0;
    assert Rem(40, 7) == 5;
    assert Rem(123, 31) == 30;
  }

  /** Easter 2025 by the computus: April 20. */
  lemma Computus2025()
    ensures Computus(2025) == MonthDay(4, 20)
    ensures GetEaster(2025) == CreateDate(2025, 4, 20)
  {
    assert Rem(2025, 19) == 11;
    assert Rem(2025, 100) == 25;
    assert Rem(20, 4) == 0;
    assert Rem(233, 30) == 23;
    assert Rem(25, 4) == 1;
    assert Rem(20, 7) == 6;
    assert Rem(143, 31) == 19;
  }

  /** Easter 1981 by the computus: April 19. This year takes the m = 1
      correction of the computus's last step. */
  lemma Computus1981()
    ensures Computus(1981) == MonthDay(4, 19)
    ensures GetEaster(1981) == CreateDate(1981, 4, 19)
  {
    assert Rem(1981, 19) == 5;
    assert Rem(1981, 100) == 81;
    assert Rem(19, 4) == 3;
    assert Rem(119, 30) == 29;
    assert Rem(81, 4) == 1;
    assert Rem(48, 7) == 6;
    assert Rem(142, 31) == 18;
  }

  /** Every date from Palm Sunday up to Easter Eve is in Lent and tagged
      Semana Santa. */
  lemma HolyWeekIsTagged(year: int, month: int, day: int)
    requires ValidCivil(year, month, day) && year >= 101
    requires MarkerDates(year).palmSunday <= CreateDate(year, month, day) < MarkerDates(year).easter
    ensures var r := GetLiturgicalInfo(CalendarDate(year, month, day));
      r.season == Lent && r.dayName == Some(HolyWeek) && r.color == Purple
  {
    SeasonOfDate(year, month, day);
  }

  /** In a year whose Easter is March 31, March 28 lies in Holy Week. */
  lemma ThursdayBeforeEasterMarch31(year: int)
    requires GetEaster(year) == CreateDate(year, 3, 31)
    ensures MarkerDates(year).palmSunday <= CreateDate(year, 3, 28) < MarkerDates(year).easter
  {
    MarkerDatesFields(year);
    LaterInMonth(year, 2, 28, 31);
  }

  /** In a year whose Easter is March 31, March 28 is Lent, tagged Semana Santa. */
  lemma HolyThursdayBeforeEasterMarch31(year: int)
    requires year >= 101 && GetEaster(year) == CreateDate(year, 3, 31)
    ensures var r := GetLiturgicalInfo(CalendarDate(year, 3, 28));
      r.season == Lent && r.dayName == Some(HolyWeek) && r.color == Purple
  {
    ThursdayBeforeEasterMarch31(year);
    HolyWeekIsTagged(year, 3, 28);
  }

  /** Holy Thursday 2024, March 28, is in Lent and tagged Semana Santa. */
  lemma HolyThursday2024()
    ensures var r := GetLiturgicalInfo(CalendarDate(2024, 3, 28));
      r.season == Lent && r.dayName == Some(HolyWeek) && r.color == Purple
  {
    Computus2024();
    HolyThursdayBeforeEasterMarch31(2024);
  }

  /** Pentecost falls at the latest on June 13, and the source's Advent opens
      at the earliest on November 28. */
  lemma SummerBounds(year: int)
    requires year >= 101
    ensures MarkerDates(year).pentecost < CreateDate(year, 6, 14)
    ensures CreateDate(year, 11, 27) < MarkerDates(year).firstSundayOfAdvent
  {
    var mk := MarkerDates(year);
    MarkerDatesFields(year);
    CalendarPositions(year);
    EasterWindow(year);
    FirstSundayOfAdventInCalendar(year);
  }

  /** From June 14 to November 27 every day is Ordinary Time. */
  lemma SummerIsOrdinaryTime(year: int, month: int, day: int)
    requires ValidCivil(year, month, day) && year >= 101
    requires CreateDate(year, 6, 14) <= CreateDate(year, month, day) <= CreateDate(year, 11, 27)
    ensures GetLiturgicalInfo(CalendarDate(year, month, day)).season == OrdinaryTime
    ensures GetLiturgicalInfo(CalendarDate(year, month, day)).color == Green
  {
    SeasonOfDate(year, month, day);
    SummerBounds(year);
  }

  /** Within one month, a later day of the month is a later date. */
  lemma LaterInMonth(year: int, month: int, d1: int, d2: int)
    requires 0 <= month <= 11 && d1 <= d2
    ensures Utc(year, month, d1) + (d2 - d1) == Utc(year, month, d2)
  {
    UtcInYear(year, month, d1);
    UtcInYear(year, month, d2);
  }

  /** Christmas Day falls on or before each of the last days of December. */
  lemma ChristmasOnOrBefore(year: int, day: int)
    requires 25 <= day <= 31
    ensures MarkerDates(year).christmas <= CreateDate(year, 12, day)
  {
    MarkerDatesFields(year);
    LaterInMonth(year, 11, 25, day);
  }

  /** The Baptism of the Lord falls after each of the first six days of January. */
  lemma BaptismOfLordAfter(year: int, day: int)
    requires 1 <= day <= 6
    ensures CreateDate(year, 1, day) < MarkerDates(year).baptismOfLord
  {
    BaptismOfLordInJanuary(year);
    LaterInMonth(year, 0, day, 7);
  }

  /** From December 25 to December 31 every day is Christmastide. */
  lemma ChristmastideAtYearEnd(year: int, day: int)
    requires year >= 101 && 25 <= day <= 31
    ensures GetLiturgicalInfo(CalendarDate(year, 12, day)).season == Christmas
    ensures GetLiturgicalInfo(CalendarDate(year, 12, day)).color == White
  {
    SeasonOfDate(year, 12, day);
    ChristmasOnOrBefore(year, day);
  }

  /** From January 1 to January 6 every day is Christmastide: the Baptism of
      the Lord falls at the earliest on January 7. */
  lemma ChristmastideAtYearStart(year: int, day: int)
    requires year >= 101 && 1 <= day <= 6
    ensures GetLiturgicalInfo(CalendarDate(year, 1, day)).season == Christmas
    ensures GetLiturgicalInfo(CalendarDate(year, 1, day)).color == White
  {
    SeasonOfDate(year, 1, day);
    BaptismOfLordAfter(year, day);
  }

  /** In a year whose Christmas is a Sunday, the source opens Advent on
      December 4, a week after the fourth Sunday before Christmas
      (November 27). */
  lemma AdventWhenChristmasIsSunday(year: int)
    requires WeekDay(CreateDate(year, 12, 25)) == 0
    ensures MarkerDates(year).firstSundayOfAdvent == CreateDate(year, 12, 4)
    ensures CanonicalMarkerDates(year).firstSundayOfAdvent == CreateDate(year, 11, 27)
  {
    MarkerDatesFields(year);
    AdventOffsetsWhenChristmasIsSunday(year);
  }

  /** The two Advent rules applied to a Sunday Christmas Day. */
  lemma AdventOffsetsWhenChristmasIsSunday(year: int)
    requires WeekDay(CreateDate(year, 12, 25)) == 0
    ensures FirstSundayOfAdvent(CreateDate(year, 12, 25)) == CreateDate(year, 12, 4)
    ensures CanonicalFirstSundayOfAdvent(CreateDate(year, 12, 25)) == CreateDate(year, 11, 27)
  {
    var c := CreateDate(year, 12, 25);
    var r, cr := FirstSundayOfAdvent(c), CanonicalFirstSundayOfAdvent(c);
    FirstSundayOfAdventAsWritten(c);
    CanonicalFirstSundayOfAdventRule(c);
    assert r == c - 21 && cr == c - 28;
    DaysBeforeChristmas(year);
  }

  /** Then November 27 is the first day of Advent by the liturgical rule. */
  lemma CanonicalAdventOnNovember27(year: int)
    requires year >= 101 && WeekDay(CreateDate(year, 12, 25)) == 0
    ensures GetLiturgicalInfoCanonical(CalendarDate(year, 11, 27)).season == Advent
  {
    SeasonOfDateCanonical(year, 11, 27);
    AdventWhenChristmasIsSunday(year);
    MarkerDatesFields(year);
    DaysBeforeChristmas(year);
  }

  /** In such a year the source and the liturgical rule disagree about
      November 27: the source reads it as Ordinary Time, the rule as the first
      day of Advent. */
  lemma AdventStartDisagreement(year: int)
    requires year >= 101 && WeekDay(CreateDate(year, 12, 25)) == 0
    ensures MarkerDates(year).firstSundayOfAdvent == CreateDate(year, 12, 4)
    ensures CanonicalMarkerDates(year).firstSundayOfAdvent == CreateDate(year, 11, 27)
    ensures GetLiturgicalInfo(CalendarDate(year, 11, 27)).season == OrdinaryTime
    ensures GetLiturgicalInfoCanonical(CalendarDate(year, 11, 27)).season == Advent
  {
    AdventWhenChristmasIsSunday(year);
    YearLandmarks(year);
    SummerIsOrdinaryTime(year, 11, 27);
    CanonicalAdventOnNovember27(year);
  }

  /** Christmas 2022 fell on a Sunday, so 2022 is such a year. */
  lemma AdventStartFinding()
    ensures WeekDay(CreateDate(2022, 12, 25)) == 0
    ensures MarkerDates(2022).firstSundayOfAdvent == CreateDate(2022, 12, 4)
    ensures CanonicalMarkerDates(2022).firstSundayOfAdvent == CreateDate(2022, 11, 27)
    ensures GetLiturgicalInfo(CalendarDate(2022, 11, 27)).season == OrdinaryTime
    ensures GetLiturgicalInfoCanonical(CalendarDate(2022, 11, 27)).season == Advent
  {
    ChristmasSunday2022();
    AdventStartDisagreement(2022);
  }

  /** December 25, 2022 is day 19351, a Sunday. */
  lemma ChristmasSunday2022()
    ensures CreateDate(2022, 12, 25) == 19351
    ensures WeekDay(CreateDate(2022, 12, 25)) == 0
  {
    UtcInYear(2022, 11, 25);
  }
}
