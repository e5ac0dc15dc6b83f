/** The two `strftime` layouts the script writes ("%Y-%m-%dT%H:%M:%S" for the
    publishing request, "%Y-%m-%d %H:%M" for the byline) and the subset of
    `datetime.fromisoformat` that reads the timestamps the source API sends:
    "YYYY-MM-DD?HH:MM:SS", optionally followed by "+HH:MM" or "-HH:MM". */
module IsoFormat {
  import opened Basics
  import opened Calendar

  predicate IsDigit(c: char) {
    '0' <= c <= '9'
  }

  function DigitValue(c: char): int
    requires IsDigit(c)
  {
    c as int - '0' as int
  }

  function DigitChar(d: int): (c: char)
    requires 0 <= d < 10
    ensures IsDigit(c) && DigitValue(c) == d
  {
    ('0' as int + d) as char
  }

  /** k decimal digits start at position i of s. */
  predicate DigitsAt(s: string, i: int, k: int) {
    0 <= i && i + k <= |s| && forall j :: i <= j < i + k ==> IsDigit(s[j])
  }

  function Field2(s: string, i: int): int
    requires DigitsAt(s, i, 2)
  {
    10 * DigitValue(s[i]) + DigitValue(s[i + 1])
  }

  function Field4(s: string, i: int): int
    requires DigitsAt(s, i, 4)
  {
    100 * Field2(s, i) + Field2(s, i + 2)
  }

  /** `%m`, `%d`, `%H`, `%M`, `%S`: two digits, zero-padded. */
  function Pad2(n: int): (s: string)
    requires 0 <= n < 100
    ensures |s| == 2 && DigitsAt(s, 0, 2) && Field2(s, 0) == n
  {
    [DigitChar(n / 10), DigitChar(n % 10)]
  }

  /** `%Y`: four digits, zero-padded. */
  function Pad4(n: int): (s: string)
    requires 0 <= n < 10000
    ensures |s| == 4 && DigitsAt(s, 0, 4) && Field4(s, 0) == n
  {
    var s := [DigitChar(n / 1000), DigitChar(n / 100 % 10), DigitChar(n / 10 % 10), DigitChar(n % 10)];
    assert Field2(s, 0) == n / 100 && Field2(s, 2) == n % 100;
    s
  }

  /** `strftime("%Y-%m-%dT%H:%M:%S")` */
  function FormatIso(c: Civil): (s: string)
    requires ValidCivil(c)
    ensures |s| == 19
  {
    Pad4(c.year) + "-" + Pad2(c.month) + "-" + Pad2(c.day) + "T"
      + Pad2(c.hour) + ":" + Pad2(c.minute) + ":" + Pad2(c.second)
  }

  /** `strftime("%Y-%m-%d %H:%M")`: the same reading to the minute, with a
      blank instead of the "T". */
  function FormatMinutes(c: Civil): (s: string)
    requires ValidCivil(c)
    ensures s == FormatIso(c)[..10] + " " + FormatIso(c)[11..16]
  {
    Pad4(c.year) + "-" + Pad2(c.month) + "-" + Pad2(c.day) + " " + Pad2(c.hour) + ":" + Pad2(c.minute)
  }

  /** A `datetime` as `fromisoformat` returns it: a wall-clock reading and,
      for an aware value, its UTC offset in seconds. */
  datatype Stamp = Stamp(civil: Civil, offset: Option<int>)

  /** The date and time fields in their places; position 10 may hold any character. */
  predicate DateTimeShape(s: string) {
    && |s| >= 19
    && DigitsAt(s, 0, 4) && s[4] == '-' && DigitsAt(s, 5, 2) && s[7] == '-' && DigitsAt(s, 8, 2)
    && DigitsAt(s, 11, 2) && s[13] == ':' && DigitsAt(s, 14, 2) && s[16] == ':' && DigitsAt(s, 17, 2)
  }

  predicate OffsetShape(s: string) {
    && |s| == 25
    && (s[19] == '+' || s[19] == '-')
    && DigitsAt(s, 20, 2) && s[22] == ':' && DigitsAt(s, 23, 2)
  }

  /** `datetime.fromisoformat(s)`, None standing for the ValueError it raises.
      The offset fields are not range-checked one by one; only the whole
      offset must lie strictly within a day, as `timezone` demands. */
  function ReadIso(s: string): (r: Option<Stamp>)
    ensures r.Some? ==> ValidCivil(r.value.civil)
    ensures r.Some? ==> (r.value.offset.None? <==> |s| == 19)
    ensures r.Some? && r.value.offset.Some? ==> -SecondsPerDay < r.value.offset.value < SecondsPerDay
    ensures r.Some? ==> DateTimeShape(s)
  {
    if |s| != 19 && |s| != 25 then None
    else if !DateTimeShape(s) then None
    else
      var c := Civil(Field4(s, 0), Field2(s, 5), Field2(s, 8), Field2(s, 11), Field2(s, 14), Field2(s, 17));
      if !ValidCivil(c) then None
      else if |s| == 19 then Some(Stamp(c, None))
      else if !OffsetShape(s) then None
      else
        var size := Field2(s, 20) * 3600 + Field2(s, 23) * 60;
        var offset := if s[19] == '-' then -size else size;
        if -SecondsPerDay < offset < SecondsPerDay then Some(Stamp(c, Some(offset))) else None
  }

  /** What `strftime` writes, `fromisoformat` reads back as the same naive value. */
  lemma ReadFormatIso(c: Civil)
    requires ValidCivil(c)
    ensures ReadIso(FormatIso(c)) == Some(Stamp(c, None))
  {
    var y, mo, d := Pad4(c.year), Pad2(c.month), Pad2(c.day);
    var h, mi, se := Pad2(c.hour), Pad2(c.minute), Pad2(c.second);
    var s := FormatIso(c);
    assert s[..4] == y;
    assert s[5..7] == mo && s[8..10] == d;
    assert s[11..13] == h && s[14..16] == mi && s[17..19] == se;
    assert DigitsAt(s, 0, 4) by {
      forall j | 0 <= j < 4 ensures IsDigit(s[j]) { assert s[j] == y[j]; }
    }
    assert Field4(s, 0) == Field4(y, 0) by {
      assert s[0] == y[0] && s[1] == y[1] && s[2] == y[2] && s[3] == y[3];
    }
    assert Field2(s, 5) == Field2(mo, 0) by { assert s[5] == mo[0] && s[6] == mo[1]; }
    assert Field2(s, 8) == Field2(d, 0) by { assert s[8] == d[0] && s[9] == d[1]; }
    assert Field2(s, 11) == Field2(h, 0) by { assert s[11] == h[0] && s[12] == h[1]; }
    assert Field2(s, 14) == Field2(mi, 0) by { assert s[14] == mi[0] && s[15] == mi[1]; }
    assert Field2(s, 17) == Field2(se, 0) by { assert s[17] == se[0] && s[18] == se[1]; }
  }
}
