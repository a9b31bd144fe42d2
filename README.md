# GPS ultra-rapid orbit epoch resolver

This project models the epoch resolver of the GNSS product downloader in
`main.py`: the `GpsTime` object, whose `form_info` turns a day offset
("N days before today") into a target date, that date's three-digit
day-of-year text (`strftime("%j")`), its GPS week and its year, and then
appends one candidate ultra-rapid orbit file name per synoptic hour
(`0000`, `0600`, `1200`, `1800`) to `date_string_array`. It also models the
archive URL that `IGU.get_file` builds from the GPS week and a file name.

Layout:

- `wrappers.dfy`: `Option` and `Result`.
- `decimal.dfy`: `str()` of an integer, the zero padding of `%j`, and the
  reading back of digit strings.
- `calendar.dfy`: the proleptic Gregorian calendar of Python's `date`
  (years 1 to 9999), day numbers counted from 0001-01-01, subtraction of a
  day offset with Python's `OverflowError` as `Err(DateOutOfRange)`, the
  day of the year, the weekday and the GPS week counted from 1980-01-06.
- `gps_products.dfy`: the candidate file names, a parser that reads a
  name back, the `GpsTime` class with its `FormInfo` method, and the URL.
- `examples_scenarios.dfy`: fixed clock readings worked through the model.

The clock is a parameter. `date.today()` becomes the constructor's `clock`
argument, and the `datetime.today()` reading of `form_info` becomes
`FormInfo`'s `now` argument. The time of day of that reading has no
effect on the fields the model keeps, because GPS weeks start at midnight.

Behaviour of the code that the model keeps:

- A negative `days_count` is accepted and moves the target date forward.
- The hours are the four-digit texts `0000` to `1800`.
- `form_info` can fail. When the target date leaves years 1..9999 the
  date subtraction raises before any field changes.
- A second call appends four more names instead of replacing the first
  four.
- The site string already ends in `/` and the f-string adds another, so
  the URL has `products//<week>/`. The model keeps the doubled slash.

## Model

| member | source | states |
|---|---|---|
| Calendar.SubDays | main.py:40-41 | the target date exists exactly when today's day number minus the offset stays within years 1..9999; then it is a valid date and target + offset days = today |
| Calendar.SubThenAdd | main.py:40-41 | adding the offset back to the target gives today again |
| Calendar.FromDayNumber | main.py:40-41 | every day number in range names a valid date with that day number |
| Calendar.DayNumberRoundTrip | main.py:40-41 | every valid date's day number is in range and converts back to the same date |
| Calendar.DayNumberInjective | main.py:40-41 | two valid dates with the same day number are equal |
| Calendar.DayNumber | main.py:40-41 | the days elapsed since 0001-01-01, on which the date subtraction works; NextDateDayNumber states that it counts calendar days one by one |
| Calendar.NextDateDayNumber | main.py:40-41 | the calendar's next day (next day of the month, first of the next month, or 1 January) exists except after 9999-12-31 and has the next day number |
| Calendar.AddOneDay | main.py:40-41 | adding one day gives the calendar's next day, and fails exactly after 9999-12-31 |
| Calendar.DayOfYear | main.py:43 | the `%j` ordinal lies in 1..366, and is at most 365 outside leap years |
| Calendar.DayOfYearOrdinal | main.py:43 | the ordinal is one more than the number of days since 1 January of the same year |
| Decimal.Pad3 | main.py:43 | the `%j` text is exactly three digits |
| Decimal.Pad3Value | main.py:43 | the three digits read back as the ordinal: leading zeros followed by its plain decimal form |
| Calendar.EpochDayNumber | main.py:22 | 1980-01-06 is a valid date, 722819 days after 0001-01-01 |
| Calendar.EpochIsSunday | main.py:22 | the GPS epoch is a Sunday and lies in week 0 |
| Calendar.GpsWeek | main.py:44-45 | the GPS week of the target date; GpsWeekBounds and GpsWeekTurnsOnSunday state its meaning |
| Calendar.GpsWeekBounds | main.py:44-45 | the week number is the floor of the days elapsed since the epoch divided by 7, and is non-negative exactly from the epoch on |
| Calendar.GpsWeekTurnsOnSunday | main.py:44-45 | going to the next day raises the week by one if that day is a Sunday and otherwise keeps it |
| Decimal.NatToString | main.py:50 | the decimal digits of a non-negative integer: at least one digit, no leading zero, a single digit exactly below 10 |
| Decimal.IntToString | main.py:50 | `str(year)`: digits for a non-negative integer, a minus sign and digits otherwise |
| Decimal.IntToStringRoundTrip | main.py:50 | `str(year)` reads back as the year |
| Decimal.NatToStringValue | main.py:50 | the decimal digits of a non-negative integer read back as that integer |
| GpsProducts.CandidateName | main.py:50-51 | one file name; CandidateNameRoundTrip states that the year, day-of-year and hour can be read back from it |
| GpsProducts.CandidateEntries | main.py:48-52 | one entry per hour; CandidateEntriesAt states what entry i holds |
| GpsProducts.TargetEntries | main.py:48-52 | the entries of one resolution; TargetEntriesDecode states that they are four names of the target date, in hour order |
| GpsProducts.CandidateEntriesAt | main.py:48-52 | the i-th appended entry is the one-element list holding prefix, year, `%j` text, i-th hour and suffix |
| GpsProducts.CandidateNameRoundTrip | main.py:50-51 | a candidate name determines its year, day-of-year and hour |
| GpsProducts.TargetEntriesDecode | main.py:48-52 | one resolution yields four one-element entries, and entry i decodes to the target's year, its day-of-year and the i-th hour |
| GpsProducts.CandidateNameNoSlash | main.py:50-51 | a candidate name contains no slash, so it is a single path component |
| GpsProducts.AppendTargetEntries | main.py:48-52 | appending a resolution keeps every entry a well-formed candidate, adds exactly four entries and leaves the earlier ones in place |
| GpsProducts.GpsTime.constructor | main.py:21-37 | the epoch is 1980-01-06, prefix, suffix and hours are the product constants, the derived fields are unset and the name list is empty |
| GpsProducts.GpsTime.FormInfo | main.py:39-54 | either the target date is out of range and nothing changes, or the object returns itself with year, `%j` text and GPS week of today minus `days_count`, the four names appended, and epoch, today, offset, prefix, suffix and hours unchanged |
| GpsProducts.GpsTime.Record | main.py:43-52 | once the target date is known, the derived fields describe that date and its four names are appended after the earlier entries |
| GpsProducts.GpsTime.AppendCandidates | main.py:48-52 | the loop appends one one-element list per hour, in the order of the hour list |
| GpsProducts.ResolveTwice | main.py:48-52 | two resolutions with the same clock reading append the same four names twice and keep the earlier entries |
| GpsProducts.FetchUrl | main.py:68 | the archive URL; UrlWeekComponent and CandidateUrl state its shape |
| GpsProducts.CandidateUrl | main.py:68 | for every name a resolution appends, the URL built with the target's GPS week ends in that name, and the directory just above it is that week |
| GpsProducts.UrlWeekComponent | main.py:68 | the file name is the last path component of the URL, the GPS week is the one before it, and that component reads back as the week |
| Scenarios.March2024Target | main.py:40-41 | two days before 2024-03-10 is 2024-03-08 |
| Scenarios.March2024DayOfYear | main.py:43 | 2024-03-08 has `%j` text `068` |
| Scenarios.March2024Week | main.py:44-45 | 2024-03-08 lies in GPS week 2304 |
| Scenarios.March2024Names | main.py:48-52 | the names for 2024-03-08 are `IGS0OPSULT_2024068` followed by `0000`, `0600`, `1200` and `1800`, in that order, and then `_02D_15M_ORB.SP3.gz` |
| Scenarios.March2024Resolution | main.py:39-54 | a new `GpsTime(2)` resolved at 2024-03-10 returns itself with year 2024, day `068`, week 2304 and exactly those four names |
| Scenarios.Week2304Url | main.py:68 | the site ends in a slash, so the week-2304 URL has the form `products//2304/<name>` |
| Scenarios.NewYearTarget | main.py:40-46 | one day before 2025-01-01 is 2024-12-31, so the year in the names is 2024 |
| Scenarios.NewYearDayOfYear | main.py:43 | 2024-12-31 has `%j` text `366` |

## Left out

- The HTTP session, the redirect handling and the file write of `IGU.get_file` (main.py:69-78) are network and file I/O. Only the URL string is modelled.
- `IGU.__init__` (main.py:59-65) is not modelled as an object. Its fixed site is the constant `Site`, and the offset of 2 it passes to `GpsTime` appears only in the examples.
- Credentials, environment loading, logging, `print` and the script's entry point are glue around the resolver.
- `mail_routine.py` is not part of this model.
- The clock readings `date.today()` and `datetime.today()` are parameters.
- Calendar.GpsWeek: the third-party `gps_time.GPSTime.from_datetime` is not part of this model. Its week number is modelled as whole days since 1980-01-06 divided by 7, rounded down. Leap seconds and the time of day are not modelled. The model does not say what that library does for dates before the epoch.
- The `gps_time` field keeps the library's object. `epochMonday` and `todayMonday` are never read. None of the three is modelled.
- GpsProducts.GpsTime.FormInfo: its effect is split over the helper methods `Record` and `AppendCandidates`. The helpers keep the proof obligations small.
- GpsProducts.GpsTime.FormInfo: the ghost fields `target` and `earlier` remember the resolved date and the entries before it. They carry the class invariant and do not exist in the source.
