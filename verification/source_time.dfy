/** Publication times of source articles (`parse_source_datetime`,
    `to_wordpress_dates`). An aware `datetime` is a UTC instant, in whole
    seconds since 0001-01-01T00:00:00, together with its UTC offset; its wall
    clock reads `instant + offset`. `datetime` keeps that wall-clock reading
    within years 1 to 9999, and any arithmetic that leaves that range raises
    OverflowError. */
module SourceTime {
  import opened Basics
  import opened Calendar
  import opened IsoFormat

  /** `SOURCE_TZ`: UTC+09:00, nine hours in seconds. */
  const SourceOffset: int := 32400

  datatype ZonedTime = ZonedTime(instant: int, offset: int)

  function LocalSeconds(z: ZonedTime): int {
    z.instant + z.offset
  }

  /** A `datetime` in `SOURCE_TZ` whose wall clock lies in years 1 to 9999. */
  predicate IsSourceTime(z: ZonedTime) {
    z.offset == SourceOffset && 0 <= LocalSeconds(z) < MaxSeconds
  }

  /** A reading of `datetime.now(SOURCE_TZ)`. */
  type SourceNow = z: ZonedTime | IsSourceTime(z) witness ZonedTime(0, SourceOffset)

  /** `text.replace("Z", "+00:00")` */
  function ReplaceZ(s: string): (r: string)
    ensures 'Z' !in r
    ensures 'Z' !in s ==> r == s
    ensures |r| >= |s|
    decreases |s|
  {
    if |s| == 0 then []
    else (if s[0] == 'Z' then "+00:00" else [s[0]]) + ReplaceZ(s[1..])
  }

  /** `astimezone(SOURCE_TZ)` of a wall-clock reading `local` at UTC offset
      `offset` (a zone other than `SOURCE_TZ` itself): first to UTC, then to
      +09:00, either step raising OverflowError when it leaves the range. */
  function ViaUtc(local: int, offset: int): Option<ZonedTime> {
    var utc := local - offset;
    if 0 <= utc < MaxSeconds && utc + SourceOffset < MaxSeconds then Some(ZonedTime(utc, SourceOffset))
    else None
  }

  /** The `date_gmt` branch: a naive reading is taken as UTC. None is an exception. */
  function ReadGmt(text: string): Option<ZonedTime> {
    match ReadIso(ReplaceZ(text))
    case None => None
    case Some(st) => ViaUtc(SecondsOf(st.civil), if st.offset.Some? then st.offset.value else 0)
  }

  /** The +09:00 time whose wall clock reads `local`. */
  function AtSourceOffset(local: int): ZonedTime {
    ZonedTime(local - SourceOffset, SourceOffset)
  }

  /** The `date` branch: a naive reading is given `SOURCE_TZ` itself, so the
      following `astimezone(SOURCE_TZ)` returns it unchanged. */
  function ReadLocal(text: string): Option<ZonedTime> {
    match ReadIso(ReplaceZ(text))
    case None => None
    case Some(st) =>
      if st.offset.None? then Some(AtSourceOffset(SecondsOf(st.civil)))
      else ViaUtc(SecondsOf(st.civil), st.offset.value)
  }

  /** `parse_source_datetime(date, date_gmt)`; an absent field is the empty
      string and `now` is the clock reading `datetime.now(SOURCE_TZ)` would
      give. A non-empty `date_gmt` decides alone: when it cannot be read the
      result is `now`, and `date` is not consulted. Every path yields a
      +09:00 time. */
  function ParseSourceDatetime(date: string, dateGmt: string, now: ZonedTime): (r: ZonedTime)
    requires IsSourceTime(now)
    ensures IsSourceTime(r)
    ensures r == now || (dateGmt != [] && ReadGmt(dateGmt) == Some(r))
                     || (dateGmt == [] && date != [] && ReadLocal(date) == Some(r))
  {
    if dateGmt != [] then
      match ReadGmt(dateGmt)
      case Some(z) => z
      case None => now
    else if date != [] then
      match ReadLocal(date)
      case Some(z) => z
      case None => now
    else now
  }

  /** Whenever `date_gmt` is present, `date` plays no part. */
  lemma GmtTakesPrecedence(date: string, otherDate: string, dateGmt: string, now: ZonedTime)
    requires IsSourceTime(now) && dateGmt != []
    ensures ParseSourceDatetime(date, dateGmt, now) == ParseSourceDatetime(otherDate, dateGmt, now)
  {
  }

  /** A naive `date_gmt` is a UTC reading: the result is that instant, or
      `now` when the +09:00 reading would pass the year 9999. */
  lemma NaiveGmtIsUtc(date: string, dateGmt: string, c: Civil, now: ZonedTime)
    requires IsSourceTime(now) && dateGmt != []
    requires ReadIso(ReplaceZ(dateGmt)) == Some(Stamp(c, None))
    ensures var r := ParseSourceDatetime(date, dateGmt, now);
            if SecondsOf(c) + SourceOffset < MaxSeconds then r.instant == SecondsOf(c) else r == now
  {
  }

  /** A naive `date` (with no `date_gmt`) is a +09:00 reading: the result's
      wall clock shows exactly that reading. */
  lemma NaiveDateIsSourceLocal(date: string, c: Civil, now: ZonedTime)
    requires IsSourceTime(now) && date != []
    requires ReadIso(ReplaceZ(date)) == Some(Stamp(c, None))
    ensures var r := ParseSourceDatetime(date, [], now);
            r.instant == SecondsOf(c) - SourceOffset && CivilOf(LocalSeconds(r)) == c
  {
    CivilOfSecondsOf(c);
  }

  /** A value with an explicit offset keeps its instant when it can be
      converted, in either field. */
  lemma AwareKeepsInstant(text: string, c: Civil, offset: int, now: ZonedTime)
    requires IsSourceTime(now) && text != []
    requires ReadIso(ReplaceZ(text)) == Some(Stamp(c, Some(offset)))
    requires 0 <= SecondsOf(c) - offset && SecondsOf(c) - offset + SourceOffset < MaxSeconds
    ensures ParseSourceDatetime(text, [], now).instant == SecondsOf(c) - offset
    ensures ParseSourceDatetime([], text, now).instant == SecondsOf(c) - offset
  {
  }

  /** A `date_gmt` that cannot be read gives `now`, however good `date` is. */
  lemma UnreadableGmtGivesNow(date: string, dateGmt: string, now: ZonedTime)
    requires IsSourceTime(now) && dateGmt != [] && ReadIso(ReplaceZ(dateGmt)).None?
    ensures ParseSourceDatetime(date, dateGmt, now) == now
  {
  }

  /** `to_wordpress_dates`: the +09:00 and the UTC wall clock of the same
      instant. None is the OverflowError raised when the UTC reading falls
      before year 1. */
  function ToWordPressDates(z: ZonedTime): (r: Option<(string, string)>)
    requires IsSourceTime(z)
    ensures r.None? <==> z.instant < 0
    ensures r.Some? ==> |r.value.0| == 19 && |r.value.1| == 19
  {
    if z.instant < 0 then None
    else Some((FormatIso(CivilOf(LocalSeconds(z))), FormatIso(CivilOf(z.instant))))
  }

  /** The two emitted strings name the same instant: read as +09:00 and as
      UTC respectively, each gives back z, and their readings are exactly
      nine hours apart. */
  lemma WordPressDatesAgree(z: ZonedTime, now: ZonedTime)
    requires IsSourceTime(z) && IsSourceTime(now) && z.instant >= 0
    ensures var (local, gmt) := ToWordPressDates(z).value;
            && ReadIso(local).Some? && ReadIso(gmt).Some?
            && SecondsOf(ReadIso(local).value.civil) == SecondsOf(ReadIso(gmt).value.civil) + SourceOffset
            && ParseSourceDatetime(local, [], now) == z
            && ParseSourceDatetime([], gmt, now) == z
  {
    var lc, gc := CivilOf(LocalSeconds(z)), CivilOf(z.instant);
    assert ToWordPressDates(z).value == (FormatIso(lc), FormatIso(gc));
    ReadFormatIso(lc);
    ReadFormatIso(gc);
    LocalDateReadsBack(z, now);
    GmtDateReadsBack(z, now);
  }

  lemma LocalDateReadsBack(z: ZonedTime, now: ZonedTime)
    requires IsSourceTime(z) && IsSourceTime(now) && z.instant >= 0
    ensures ParseSourceDatetime(FormatIso(CivilOf(LocalSeconds(z))), [], now) == z
  {
    var lc := CivilOf(LocalSeconds(z));
    var local := FormatIso(lc);
    LocalStringReadsBack(lc);
    assert AtSourceOffset(SecondsOf(lc)) == z;
    assert ReadLocal(local) == Some(z);
    assert local != [];
  }

  lemma GmtDateReadsBack(z: ZonedTime, now: ZonedTime)
    requires IsSourceTime(z) && IsSourceTime(now) && z.instant >= 0
    ensures ParseSourceDatetime([], FormatIso(CivilOf(z.instant)), now) == z
  {
    var gc := CivilOf(z.instant);
    var gmt := FormatIso(gc);
    GmtStringReadsBack(gc);
    assert ZonedTime(SecondsOf(gc), SourceOffset) == z;
    assert ReadGmt(gmt) == Some(z);
    assert gmt != [];
  }

  lemma LocalStringReadsBack(c: Civil)
    requires ValidCivil(c)
    ensures ReadLocal(FormatIso(c)) == Some(AtSourceOffset(SecondsOf(c)))
  {
    var s := FormatIso(c);
    NoZInFormat(c);
    ReadFormatIso(c);
    assert ReadIso(ReplaceZ(s)) == Some(Stamp(c, None));
  }

  lemma GmtStringReadsBack(c: Civil)
    requires ValidCivil(c) && SecondsOf(c) + SourceOffset < MaxSeconds
    ensures ReadGmt(FormatIso(c)) == Some(ZonedTime(SecondsOf(c), SourceOffset))
  {
    var s := FormatIso(c);
    NoZInFormat(c);
    ReadFormatIso(c);
    assert ReadIso(ReplaceZ(s)) == Some(Stamp(c, None));
  }

  lemma NoZInFormat(c: Civil)
    requires ValidCivil(c)
    ensures ReplaceZ(FormatIso(c)) == FormatIso(c)
  {
    var s := FormatIso(c);
    forall k | 0 <= k < |s| ensures s[k] != 'Z' {
      if k != 10 {
        assert DateTimeShape(s) by { ReadFormatIso(c); }
        assert IsDigit(s[k]) || s[k] in "-:";
      }
    }
  }
}
