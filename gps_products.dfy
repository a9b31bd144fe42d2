/**
 * The epoch resolver of main.py: the `GpsTime` object that turns a day
 * offset into the target date, its day-of-year, its GPS week and the four
 * ultra-rapid orbit file names (one per synoptic hour), and the archive
 * URL that `IGU.get_file` builds from the GPS week and a file name.
 */
module GpsProducts {
  import opened Wrappers
  import opened Decimal
  import opened Calendar

  const Prefix: string := "IGS0OPSULT_"
  const Suffix: string := "_02D_15M_ORB.SP3.gz"

  /** The synoptic hours, in the order the candidates are appended. */
  const HourList: seq<string> := ["0000", "0600", "1200", "1800"]

  /** The first (and only) archive root of `IGU.site`. */
  const Site: string := "https://cddis.nasa.gov/archive/gnss/products/"

  /** One candidate file name: prefix, `str(year)`, the `%j` text, the hour, suffix. */
  function CandidateName(prefix: string, year: int, totalDays: string, hour: string, suffix: string): string {
    prefix + IntToString(year) + totalDays + hour + suffix
  }

  /** The one-element lists appended for `hours`, in order. */
  function CandidateEntries(prefix: string, year: int, totalDays: string, hours: seq<string>, suffix: string): (r: seq<seq<string>>)
    ensures |r| == |hours|
  {
    if hours == [] then []
    else
      CandidateEntries(prefix, year, totalDays, hours[..|hours| - 1], suffix)
        + [[CandidateName(prefix, year, totalDays, hours[|hours| - 1], suffix)]]
  }

  /** Entry `i` holds exactly the candidate name for the i-th hour. */
  lemma {:induction false} CandidateEntriesAt(prefix: string, year: int, totalDays: string, hours: seq<string>, suffix: string, i: int)
    requires 0 <= i < |hours|
    ensures CandidateEntries(prefix, year, totalDays, hours, suffix)[i] == [CandidateName(prefix, year, totalDays, hours[i], suffix)]
  {
    if i < |hours| - 1 {
      CandidateEntriesAt(prefix, year, totalDays, hours[..|hours| - 1], suffix, i);
    }
  }

  /** The entries one resolution for target date `t` appends. */
  function TargetEntries(t: Date): seq<seq<string>>
    requires ValidDate(t)
  {
    CandidateEntries(Prefix, t.year, Pad3(DayOfYear(t)), HourList, Suffix)
  }

  /** What a candidate file name encodes. */
  datatype Candidate = Candidate(year: int, dayOfYear: int, hour: string)

  /**
   * Reads a candidate file name back: the fixed prefix and suffix around the
   * year digits, three day-of-year digits and one of the synoptic hours.
   */
  function ParseCandidateName(s: string): (r: Option<Candidate>)
    ensures r.Some? ==> r.value.hour in HourList && 0 <= r.value.dayOfYear < 1000
  {
    if |s| < |Prefix| + 8 + |Suffix| || s[..|Prefix|] != Prefix || s[|s| - |Suffix|..] != Suffix then None
    else
      var middle := s[|Prefix|..|s| - |Suffix|];
      var yearText := middle[..|middle| - 7];
      var dayText := middle[|middle| - 7..|middle| - 4];
      var hour := middle[|middle| - 4..];
      if AllDigits(yearText) && (|yearText| == 1 || yearText[0] != '0') && AllDigits(dayText) && hour in HourList then
        assert DigitsValue(dayText) < 1000 by {
          DigitsValueBound(dayText);
          assert |dayText| == 3 && Pow10(3) == 1000;
        }
        Some(Candidate(DigitsValue(yearText), DigitsValue(dayText), hour))
      else None
  }

  /** A candidate name determines its year, day-of-year and hour. */
  lemma CandidateNameRoundTrip(year: int, day: int, hour: string)
    requires 0 <= year && 0 <= day < 1000 && hour in HourList
    ensures ParseCandidateName(CandidateName(Prefix, year, Pad3(day), hour, Suffix)) == Some(Candidate(year, day, hour))
  {
    var yearText := IntToString(year);
    var dayText := Pad3(day);
    var s := CandidateName(Prefix, year, dayText, hour, Suffix);
    assert |hour| == 4;
    assert s == Prefix + (yearText + dayText + hour) + Suffix;
    assert s[..|Prefix|] == Prefix;
    assert s[|s| - |Suffix|..] == Suffix;
    var middle := s[|Prefix|..|s| - |Suffix|];
    assert middle == yearText + dayText + hour;
    assert middle[..|middle| - 7] == yearText;
    assert middle[|middle| - 7..|middle| - 4] == dayText;
    assert middle[|middle| - 4..] == hour;
    NatToStringValue(year);
    Pad3Value(day);
  }

  /** Every entry of a resolution decodes to the target's year, its day-of-year and the i-th synoptic hour. */
  lemma TargetEntriesDecode(t: Date, i: int)
    requires ValidDate(t) && 0 <= i < 4
    ensures |TargetEntries(t)| == 4 && |TargetEntries(t)[i]| == 1
    ensures ParseCandidateName(TargetEntries(t)[i][0]) == Some(Candidate(t.year, DayOfYear(t), HourList[i]))
  {
    CandidateEntriesAt(Prefix, t.year, Pad3(DayOfYear(t)), HourList, Suffix, i);
    CandidateNameRoundTrip(t.year, DayOfYear(t), HourList[i]);
  }

  /** The archive URL of `IGU.get_file`: site, GPS week and file name joined by slashes. */
  function FetchUrl(site: string, week: int, filename: string): string {
    site + "/" + IntToString(week) + "/" + filename
  }

  /** Splits a path at its last slash into the part before and the part after it. */
  function SplitAtLastSlash(s: string): (r: Option<(string, string)>)
    ensures r.None? <==> '/' !in s
    ensures r.Some? ==> s == r.value.0 + "/" + r.value.1 && '/' !in r.value.1
  {
    if s == [] then None
    else if s[|s| - 1] == '/' then
      assert s == s[..|s| - 1] + "/" + [];
      Some((s[..|s| - 1], []))
    else
      var last := s[|s| - 1];
      assert s == s[..|s| - 1] + [last];
      match SplitAtLastSlash(s[..|s| - 1])
      case None => None
      case Some((dir, name)) =>
        assert s == dir + "/" + (name + [last]);
        Some((dir, name + [last]))
  }

  lemma {:induction false} SplitAfterSlash(dir: string, name: string)
    requires '/' !in name
    ensures SplitAtLastSlash(dir + "/" + name) == Some((dir, name))
  {
    var s := dir + "/" + name;
    if name == [] {
      assert s[..|s| - 1] == dir;
    } else {
      var init := name[..|name| - 1];
      assert s[..|s| - 1] == dir + "/" + init;
      assert init + [name[|name| - 1]] == name;
      SplitAfterSlash(dir, init);
    }
  }

  /** The GPS week is the path component just before the file name, and reads back as the week. */
  lemma UrlWeekComponent(site: string, week: int, filename: string)
    requires '/' !in filename
    ensures SplitAtLastSlash(FetchUrl(site, week, filename)) == Some((site + "/" + IntToString(week), filename))
    ensures SplitAtLastSlash(site + "/" + IntToString(week)) == Some((site, IntToString(week)))
    ensures ParseInt(IntToString(week)) == Some(week)
  {
    assert FetchUrl(site, week, filename) == (site + "/" + IntToString(week)) + "/" + filename;
    SplitAfterSlash(site + "/" + IntToString(week), filename);
    IntToStringNoSlash(week);
    SplitAfterSlash(site, IntToString(week));
    IntToStringRoundTrip(week);
  }

  /** Candidate names are single path components. */
  lemma CandidateNameNoSlash(year: int, day: int, hour: string)
    requires 0 <= day < 1000 && hour in HourList
    ensures '/' !in CandidateName(Prefix, year, Pad3(day), hour, Suffix)
  {
    IntToStringNoSlash(year);
    var dayText := Pad3(day);
    assert forall k :: 0 <= k < |dayText| ==> IsDigit(dayText[k]);
  }

  /**
   * The URL of any candidate of a resolution names the target's GPS week as
   * the directory just above the file.
   */
  lemma CandidateUrl(t: Date, i: int)
    requires ValidDate(t) && 0 <= i < 4
    ensures |TargetEntries(t)[i]| == 1
    ensures var name := TargetEntries(t)[i][0];
      SplitAtLastSlash(FetchUrl(Site, GpsWeek(t), name)) == Some((Site + "/" + IntToString(GpsWeek(t)), name))
  {
    TargetEntriesDecode(t, i);
    CandidateEntriesAt(Prefix, t.year, Pad3(DayOfYear(t)), HourList, Suffix, i);
    CandidateNameNoSlash(t.year, DayOfYear(t), HourList[i]);
    UrlWeekComponent(Site, GpsWeek(t), TargetEntries(t)[i][0]);
  }

  /** Every entry is a one-element list holding a well-formed candidate name. */
  ghost predicate WellFormedEntries(a: seq<seq<string>>) {
    forall i :: 0 <= i < |a| ==> |a[i]| == 1 && ParseCandidateName(a[i][0]).Some?
  }

  /** Appending a resolution's entries keeps the list well formed and ends it with those entries. */
  lemma AppendTargetEntries(a: seq<seq<string>>, t: Date)
    requires WellFormedEntries(a) && ValidDate(t)
    ensures WellFormedEntries(a + TargetEntries(t))
    ensures |a + TargetEntries(t)| == |a| + 4
    ensures (a + TargetEntries(t))[|a|..] == TargetEntries(t)
  {
    var b := a + TargetEntries(t);
    forall k | 0 <= k < |b|
      ensures |b[k]| == 1 && ParseCandidateName(b[k][0]).Some?
    {
      if k >= |a| {
        TargetEntriesDecode(t, k - |a|);
      }
    }
    assert b[|a|..] == TargetEntries(t);
  }

  /**
   * The resolver object. Before `FormInfo` runs, the derived fields are
   * unset; `target` is the resolved date the derived fields come from,
   * and `earlier` the entries that were there before it was resolved.
   */
  class GpsTime {
    var epoch: Date
    var today: Date
    var noWeeks: Option<int>
    var totalDays: Option<string>
    var year: Option<int>
    var daysCount: int
    var prefix: string
    var suffix: string
    var hourList: seq<string>
    var dateStringArray: seq<seq<string>>
    ghost var target: Option<Date>
    ghost var earlier: seq<seq<string>>

    ghost predicate Valid()
      reads this
    {
      && epoch == GpsEpoch && prefix == Prefix && suffix == Suffix && hourList == HourList
      && (target.Some? ==>
            && ValidDate(target.value)
            && year == Some(target.value.year)
            && totalDays == Some(Pad3(DayOfYear(target.value)))
            && noWeeks == Some(GpsWeek(target.value))
            && dateStringArray == earlier + TargetEntries(target.value))
      && WellFormedEntries(dateStringArray)
    }

    /** `GpsTime(days)`, with the clock reading for `today` passed in. */
    constructor (days: int, clock: Date)
      ensures Valid() && target.None?
      ensures year.None? && totalDays.None? && noWeeks.None?
      ensures daysCount == days && today == clock && dateStringArray == []
    {
      epoch := GpsEpoch;
      today := clock;
      noWeeks := None;
      totalDays := None;
      year := None;
      daysCount := days;
      prefix := Prefix;
      suffix := Suffix;
      hourList := HourList;
      dateStringArray := [];
      target := None;
      earlier := [];
    }

    /**
     * `form_info`, with the clock reading `now` passed in: resolves the date
     * `daysCount` days before `now` and records it. When that date leaves
     * years 1..9999 it fails before changing anything.
     */
    method FormInfo(now: Date) returns (r: Result<GpsTime, CalendarError>)
      requires Valid() && ValidDate(now)
      modifies this
      ensures Valid()
      ensures epoch == old(epoch) && today == old(today) && daysCount == old(daysCount)
      ensures prefix == old(prefix) && suffix == old(suffix) && hourList == old(hourList)
      ensures SubDays(now, daysCount).Err? ==> r == Err(DateOutOfRange) && unchanged(this)
      ensures SubDays(now, daysCount).Ok? ==>
        var t := SubDays(now, daysCount).value;
        && r == Ok(this)
        && target == Some(t)
        && year == Some(t.year)
        && totalDays == Some(Pad3(DayOfYear(t)))
        && noWeeks == Some(GpsWeek(t))
        && dateStringArray == old(dateStringArray) + TargetEntries(t)
    {
      var buffer := SubDays(now, daysCount);
      if buffer.Err? {
        return Err(buffer.error);
      }
      Record(buffer.value);
      r := Ok(this);
    }

    /**
     * The body of `form_info` once the target date `t` is known: sets the
     * day-of-year text, the GPS week and the year, then appends one
     * one-element list per synoptic hour, in order.
     */
    method Record(t: Date)
      requires Valid() && ValidDate(t)
      modifies this
      ensures Valid()
      ensures epoch == old(epoch) && today == old(today) && daysCount == old(daysCount)
      ensures prefix == old(prefix) && suffix == old(suffix) && hourList == old(hourList)
      ensures target == Some(t)
      ensures year == Some(t.year)
      ensures totalDays == Some(Pad3(DayOfYear(t)))
      ensures noWeeks == Some(GpsWeek(t))
      ensures dateStringArray == old(dateStringArray) + TargetEntries(t)
    {
      totalDays := Some(Pad3(DayOfYear(t)));
      noWeeks := Some(GpsWeek(t));
      year := Some(t.year);
      target := Some(t);
      earlier := dateStringArray;

      AppendCandidates();
      AppendTargetEntries(earlier, t);
    }

    /** The `for hour in self.hour_list` loop: one one-element list per hour, appended in order. */
    method AppendCandidates()
      requires year.Some? && totalDays.Some?
      modifies this`dateStringArray
      ensures dateStringArray == old(dateStringArray) + CandidateEntries(prefix, year.value, totalDays.value, hourList, suffix)
    {
      var i := 0;
      while i < |hourList|
        invariant 0 <= i <= |hourList|
        invariant dateStringArray == old(dateStringArray) + CandidateEntries(prefix, year.value, totalDays.value, hourList[..i], suffix)
      {
        dateStringArray := dateStringArray + [[prefix + IntToString(year.value) + totalDays.value + hourList[i] + suffix]];
        assert hourList[..i + 1][..i] == hourList[..i];
        i := i + 1;
      }
      assert hourList[..i] == hourList;
    }
  }

  /**
   * Resolving twice with the same clock reading appends the same four
   * candidates twice: earlier entries are kept, never replaced.
   */
  method ResolveTwice(g: GpsTime, now: Date)
    requires g.Valid() && ValidDate(now) && SubDays(now, g.daysCount).Ok?
    modifies g
    ensures g.Valid()
    ensures |g.dateStringArray| == |old(g.dateStringArray)| + 8
    ensures g.dateStringArray[..|old(g.dateStringArray)|] == old(g.dateStringArray)
    ensures var n := |old(g.dateStringArray)|; g.dateStringArray[n..n + 4] == g.dateStringArray[n + 4..]
  {
    var first := g.FormInfo(now);
    var second := g.FormInfo(now);
  }
}
