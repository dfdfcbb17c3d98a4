/**
 * The "last updated" line: hidden unless enabled and the page has a
 * modification date; otherwise a calendar date in the configured style, or,
 * for the relative style, the whole days since then bucketed into today,
 * yesterday, days, months of 30 days or years of 365 days.
 */
module LastUpdated {
  import opened Wrappers
  import opened Strings

  datatype DateFormat = Long | Short | Relative

  datatype LastUpdatedConfig = LastUpdatedConfig(enabled: Option<bool>, format: Option<DateFormat>)

  /** What is shown after "Last updated:": a relative phrase, or the date written in a calendar style. */
  datatype Display = RelativeText(text: string) | CalendarDate(style: DateFormat)

  const MsPerDay: int := 1000 * 60 * 60 * 24

  /** `format || "long"`. */
  function FormatOf(config: LastUpdatedConfig): (r: DateFormat)
    ensures config.format.None? ==> r == Long
    ensures config.format.Some? ==> r == config.format.value
  {
    config.format.GetOr(Long)
  }

  /** `Math.floor(diffMs / 86400000)`: the greatest whole number of days not after the difference. */
  function DiffDays(nowMs: int, modifiedMs: int): (r: int)
    ensures r * MsPerDay <= nowMs - modifiedMs < (r + 1) * MsPerDay
  {
    (nowMs - modifiedMs) / MsPerDay
  }

  /**
   * The relative phrase for a whole number of days: "today" and "yesterday"
   * for 0 and 1, a count of days below 30 (negative counts included), of
   * months below 365 and of years from then on.
   */
  function RelativePhrase(days: int): (r: string)
    ensures r == "today" <==> days == 0
    ensures r == "yesterday" <==> days == 1
    ensures EndsWith(r, " days ago") <==> days < 30 && days != 0 && days != 1
    ensures EndsWith(r, " months ago") <==> 30 <= days < 365
    ensures EndsWith(r, " years ago") <==> 365 <= days
  {
    UnitsDiffer();
    if days == 0 then "today"
    else if days == 1 then "yesterday"
    else if days < 30 then
      CountThenUnit(days, " days ago");
      IntToString(days) + " days ago"
    else if days < 365 then
      CountThenUnit(days / 30, " months ago");
      IntToString(days / 30) + " months ago"
    else
      CountThenUnit(days / 365, " years ago");
      IntToString(days / 365) + " years ago"
  }

  /** No unit ends with another, and none fits in "today" or "yesterday". */
  lemma UnitsDiffer()
    ensures !EndsWith(" days ago", " months ago") && !EndsWith(" days ago", " years ago")
    ensures !EndsWith(" months ago", " days ago") && !EndsWith(" months ago", " years ago")
    ensures !EndsWith(" years ago", " days ago") && !EndsWith(" years ago", " months ago")
    ensures !EndsWith("today", " days ago") && !EndsWith("yesterday", " days ago")
    ensures !EndsWith("today", " months ago") && !EndsWith("yesterday", " months ago")
    ensures !EndsWith("today", " years ago") && !EndsWith("yesterday", " years ago")
  {
    assert " months ago"[2..][0] == 'o';
    assert " years ago"[1..][0] == 'y';
    assert " years ago"[0..][1] == 'y';
    assert "yesterday"[0] == 'y';
  }

  /**
   * A count written before a unit: the phrase ends with another unit only
   * when the unit does, since no digit or minus sign is a space.
   */
  lemma CountThenUnit(n: int, unit: string)
    requires |unit| >= 9
    ensures |IntToString(n) + unit| >= 10
    ensures forall v :: |v| > 0 && v[0] == ' ' ==> (EndsWith(IntToString(n) + unit, v) <==> EndsWith(unit, v))
  {
    var c := IntToString(n);
    IntToStringNoSpace(n);
    forall v | |v| > 0 && v[0] == ' '
      ensures EndsWith(c + unit, v) <==> EndsWith(unit, v)
    {
      var s := c + unit;
      if |v| <= |unit| {
        assert s[|s| - |v|..] == unit[|unit| - |v|..];
      } else if |v| <= |s| {
        assert s[|s| - |v|..][0] == c[|c| + |unit| - |v|];
      }
    }
  }

  lemma IntToStringNoSpace(n: int)
    ensures NoChar(IntToString(n), ' ')
  {
    var r := IntToString(n);
    var d := if n < 0 then r[1..] else r;
    forall k | 0 <= k < |r|
      ensures r[k] != ' '
    {
      if n >= 0 {
        assert IsDigit(d[k]);
      } else if k > 0 {
        assert r[k] == d[k - 1];
      }
    }
  }

  /**
   * The line shown, or none; the clock and the parsed modification time are
   * given in milliseconds.
   */
  function LastUpdatedDisplay(config: Option<LastUpdatedConfig>, lastModified: Option<string>,
                              modifiedMs: int, nowMs: int): (r: Option<Display>)
    ensures r.Some? <==> config.Some? && config.value.enabled == Some(true)
                         && lastModified.Some? && lastModified.value != ""
    ensures r.Some? ==> (r.value.RelativeText? <==> FormatOf(config.value) == Relative)
    ensures r.Some? && r.value.CalendarDate? ==> r.value.style == FormatOf(config.value)
    ensures r.Some? && r.value.RelativeText? ==> r.value.text == RelativePhrase(DiffDays(nowMs, modifiedMs))
  {
    if config.None? || config.value.enabled != Some(true) || lastModified.None? || lastModified.value == "" then None
    else
      var format := FormatOf(config.value);
      if format == Relative then Some(RelativeText(RelativePhrase(DiffDays(nowMs, modifiedMs))))
      else Some(CalendarDate(format))
  }

  // ---------------------------------------------------------------------------
  // The buckets
  // ---------------------------------------------------------------------------

  /** A modification less than a day ago reads "today", one to two days ago "yesterday". */
  lemma TodayAndYesterday(nowMs: int, modifiedMs: int)
    ensures 0 <= nowMs - modifiedMs < MsPerDay ==> RelativePhrase(DiffDays(nowMs, modifiedMs)) == "today"
    ensures MsPerDay <= nowMs - modifiedMs < 2 * MsPerDay ==> RelativePhrase(DiffDays(nowMs, modifiedMs)) == "yesterday"
  {
    var d := DiffDays(nowMs, modifiedMs);
    if 0 <= nowMs - modifiedMs < MsPerDay {
      assert d == 0 by { DaysOfInterval(nowMs - modifiedMs, 0, d); }
    }
    if MsPerDay <= nowMs - modifiedMs < 2 * MsPerDay {
      assert d == 1 by { DaysOfInterval(nowMs - modifiedMs, 1, d); }
    }
  }

  /** The whole-day count is unique: the one interval of a day containing the difference. */
  lemma DaysOfInterval(diff: int, n: int, d: int)
    requires n * MsPerDay <= diff < (n + 1) * MsPerDay
    requires d * MsPerDay <= diff < (d + 1) * MsPerDay
    ensures d == n
  {
    if d < n {
      assert false;
    } else if d > n {
      assert false;
    }
  }

  /** Any later date up to a day ahead reads "-1 days ago": future dates fall in the days bucket. */
  lemma SlightlyFuture(nowMs: int, modifiedMs: int)
    requires 0 < modifiedMs - nowMs <= MsPerDay
    ensures RelativePhrase(DiffDays(nowMs, modifiedMs)) == "-1 days ago"
  {
    var d := DiffDays(nowMs, modifiedMs);
    assert d == -1 by { DaysOfInterval(nowMs - modifiedMs, -1, d); }
    assert IntToString(-1) == "-1" by {
      assert NatToString(1) == "1";
    }
  }

  /** Between 2 and 29 days, and for any date in the future, the shown count is the day count itself. */
  lemma DaysBucket(days: int)
    requires days < 30 && days != 0 && days != 1
    ensures RelativePhrase(days) == IntToString(days) + " days ago"
  {
  }

  /**
   * From 30 up to 364 days the count is the completed 30-day months, with no
   * singular: 30 to 59 days read "1 months ago".
   */
  lemma MonthsBucket(days: int, months: nat)
    requires 30 <= days < 365
    requires 30 * months <= days < 30 * (months + 1)
    ensures 1 <= months <= 12
    ensures RelativePhrase(days) == NatToString(months) + " months ago"
  {
    assert days / 30 == months by { DivOfInterval(days, 30, months); }
  }

  /** From 365 days on the count is the completed 365-day years. */
  lemma YearsBucket(days: int, years: nat)
    requires 365 <= days
    requires 365 * years <= days < 365 * (years + 1)
    ensures years >= 1
    ensures RelativePhrase(days) == NatToString(years) + " years ago"
  {
    assert days / 365 == years by { DivOfInterval(days, 365, years); }
  }

  lemma DivOfInterval(x: int, k: int, q: nat)
    requires k > 0 && k * q <= x < k * (q + 1)
    ensures x / k == q
  {
    var d := x / k;
    assert x == k * d + x % k;
    assert k * (d - q) == k * d - k * q;
    MultipleBelow(k, d - q);
  }

  /** The only multiple of k strictly between -k and k is zero. */
  lemma MultipleBelow(k: int, m: int)
    requires k > 0 && -k < k * m < k
    ensures m == 0
  {
    if m != 0 {
      MultipleMagnitude(k, m);
      assert false;
    }
  }

  lemma MultipleMagnitude(k: int, m: int)
    requires k > 0 && m != 0
    ensures k * m >= k || k * m <= -k
  {
    if m > 0 {
      MultipleAtLeast(k, m);
    } else {
      MultipleAtLeast(k, -m);
      assert k * (-m) == -(k * m);
    }
  }

  lemma {:induction false} MultipleAtLeast(k: int, a: int)
    requires k > 0 && a >= 1
    ensures k * a >= k
    decreases a
  {
    if a > 1 {
      MultipleAtLeast(k, a - 1);
      assert k * a == k * (a - 1) + k;
    }
  }

  /** A month's worth of days reads "1 months ago". */
  lemma ThirtyDays()
    ensures RelativePhrase(30) == "1 months ago"
    ensures RelativePhrase(59) == "1 months ago"
  {
    assert NatToString(1) == "1";
    assert NatToString(1) + " months ago" == "1 months ago";
    MonthsBucket(30, 1);
    MonthsBucket(59, 1);
  }
}
