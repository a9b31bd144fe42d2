/**
 * Worked examples of the epoch resolver on fixed clock readings.
 */
module Scenarios {
  import opened Wrappers
  import opened Decimal
  import opened Calendar
  import opened GpsProducts

  /** Two days before 2024-03-10 is 2024-03-08. */
  lemma March2024Target()
    ensures SubDays(Date(2024, 3, 10), 2) == Ok(Date(2024, 3, 8))
  {
    var y := 2024;
    DaysBeforeYearClosedForm(y);
    var today := Date(y, 3, 10);
    var t := Date(y, 3, 8);
    assert DayNumber(today) == DayNumber(t) + 2;
    DayNumberBounds(t);
    DayNumberInjective(SubDays(today, 2).value, t);
  }

  /** 2024-03-08 is day 068 of its year. */
  lemma March2024DayOfYear()
    ensures Pad3(DayOfYear(Date(2024, 3, 8))) == "068"
  {
    assert DayOfYear(Date(2024, 3, 8)) == 68;
    assert NatToString(68) == "68";
  }

  /** 2024-03-08 lies in GPS week 2304. */
  lemma March2024Week()
    ensures GpsWeek(Date(2024, 3, 8)) == 2304
  {
    var y := 2024;
    DaysBeforeYearClosedForm(y);
  }

  /** Every candidate for 2024-03-08 starts with the year and the day of year run together. */
  lemma March2024Name(hour: string)
    ensures CandidateName(Prefix, 2024, "068", hour, Suffix) == Prefix + "2024068" + hour + Suffix
  {
    var w := IntToString(2024);
    assert w == "2024" by {
      assert NatToString(20) == "20";
      assert NatToString(202) == "202";
    }
    assert CandidateName(Prefix, 2024, "068", hour, Suffix) == Prefix + w + "068" + hour + Suffix;
  }

  /** The four candidates for 2024-03-08, in hour order. */
  lemma March2024Names()
    ensures TargetEntries(Date(2024, 3, 8)) == [
      [Prefix + "2024068" + "0000" + Suffix],
      [Prefix + "2024068" + "0600" + Suffix],
      [Prefix + "2024068" + "1200" + Suffix],
      [Prefix + "2024068" + "1800" + Suffix]]
  {
    var t := Date(2024, 3, 8);
    March2024DayOfYear();
    forall i | 0 <= i < 4
      ensures TargetEntries(t)[i] == [Prefix + "2024068" + HourList[i] + Suffix]
    {
      CandidateEntriesAt(Prefix, t.year, Pad3(DayOfYear(t)), HourList, Suffix, i);
      March2024Name(HourList[i]);
    }
  }

  /**
   * `GpsTime(2).form_info()` with the clock reading 2024-03-10: the object
   * returns itself with day 068, week 2304, year 2024 and the four names.
   */
  method March2024Resolution() returns (g: GpsTime, r: Result<GpsTime, CalendarError>)
    ensures r == Ok(g)
    ensures g.year == Some(2024) && g.totalDays == Some("068") && g.noWeeks == Some(2304)
    ensures g.dateStringArray == TargetEntries(Date(2024, 3, 8))
    ensures g.dateStringArray == [
      [Prefix + "2024068" + "0000" + Suffix],
      [Prefix + "2024068" + "0600" + Suffix],
      [Prefix + "2024068" + "1200" + Suffix],
      [Prefix + "2024068" + "1800" + Suffix]]
  {
    var today := Date(2024, 3, 10);
    g := new GpsTime(2, today);
    March2024Target();
    r := g.FormInfo(today);
    March2024DayOfYear();
    March2024Week();
    March2024Names();
  }

  /** The URL for week 2304: the site already ends in a slash, so the path gets a doubled one. */
  lemma Week2304Url(name: string)
    ensures Site[|Site| - 1] == '/'
    ensures FetchUrl(Site, 2304, name) == Site + "/2304/" + name
  {
    var w := IntToString(2304);
    assert w == "2304" by {
      assert NatToString(23) == "23";
      assert NatToString(230) == "230";
    }
    assert FetchUrl(Site, 2304, name) == Site + "/" + w + "/" + name;
  }

  /** One day before 2025-01-01 is 2024-12-31: the year is the target's, not today's. */
  lemma NewYearTarget()
    ensures SubDays(Date(2025, 1, 1), 1) == Ok(Date(2024, 12, 31))
  {
    var y := 2024;
    DaysBeforeYearClosedForm(y);
    var today := Date(y + 1, 1, 1);
    var t := Date(y, 12, 31);
    assert DayNumber(today) == DayNumber(t) + 1;
    DayNumberBounds(t);
    DayNumberInjective(SubDays(today, 1).value, t);
  }

  /** 2024-12-31 is day 366 of the leap year 2024. */
  lemma NewYearDayOfYear()
    ensures Pad3(DayOfYear(Date(2024, 12, 31))) == "366"
  {
    assert DayOfYear(Date(2024, 12, 31)) == 366;
    assert NatToString(366) == "366";
  }
}
