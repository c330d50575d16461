// The history panel's relative-time label: a translation key and the count
// it is rendered with.
module RelativeTime {
  datatype RelativeTime =
    | JustNow
    | MinutesAgo(n: int)
    | HoursAgo(n: int)
    | DaysAgo(n: int)
    | WeeksAgo(n: int)
    | MonthsAgo(n: int)

  const MINUTE_MS: int := 60 * 1000
  const HOUR_MS: int := 60 * MINUTE_MS
  const DAY_MS: int := 24 * HOUR_MS

  /** The translation key the label is looked up under. */
  function Key(r: RelativeTime): string
  {
    match r
    case JustNow => "time.justNow"
    case MinutesAgo(_) => "time.minutesAgo"
    case HoursAgo(_) => "time.hoursAgo"
    case DaysAgo(_) => "time.daysAgo"
    case WeeksAgo(_) => "time.weeksAgo"
    case MonthsAgo(_) => "time.monthsAgo"
  }

  /**
   * formatRelativeTime for a commit `timestamp` in seconds, at `now` in
   * milliseconds. Integer division by a positive divisor is floor division,
   * as Math.floor is on the quotients. Every label but the month one counts
   * at least one unit, and each count is the number of whole units elapsed.
   */
  function FormatRelativeTime(timestamp: int, now: int): (r: RelativeTime)
    ensures r.JustNow? <==> now - timestamp * 1000 < MINUTE_MS
    ensures r.MinutesAgo? ==>
      && 1 <= r.n < 60
      && r.n * MINUTE_MS <= now - timestamp * 1000 < (r.n + 1) * MINUTE_MS
    ensures r.HoursAgo? ==>
      && 1 <= r.n < 24
      && r.n * HOUR_MS <= now - timestamp * 1000 < (r.n + 1) * HOUR_MS
    ensures r.DaysAgo? ==>
      && 1 <= r.n < 7
      && r.n * DAY_MS <= now - timestamp * 1000 < (r.n + 1) * DAY_MS
    ensures r.WeeksAgo? ==>
      && 1 <= r.n < 4
      && r.n * 7 * DAY_MS <= now - timestamp * 1000 < (r.n + 1) * 7 * DAY_MS
    ensures r.MonthsAgo? ==>
      && now - timestamp * 1000 >= 28 * DAY_MS
      && r.n * 30 * DAY_MS <= now - timestamp * 1000 < (r.n + 1) * 30 * DAY_MS
  {
    var diff := now - timestamp * 1000;
    var seconds := diff / 1000;
    var minutes := seconds / 60;
    var hours := minutes / 60;
    var days := hours / 24;
    var weeks := days / 7;
    var months := days / 30;
    DaysOf(diff);
    if seconds < 60 then JustNow
    else if minutes < 60 then MinutesAgo(minutes)
    else if hours < 24 then HoursAgo(hours)
    else if days < 7 then DaysAgo(days)
    else if weeks < 4 then WeeksAgo(weeks)
    else MonthsAgo(months)
  }

  /** The chain of floor divisions is floor division by the product of the divisors. */
  lemma DaysOf(diff: int)
    ensures var minutes := diff / 1000 / 60;
      minutes * MINUTE_MS <= diff < (minutes + 1) * MINUTE_MS
    ensures var hours := diff / 1000 / 60 / 60;
      hours * HOUR_MS <= diff < (hours + 1) * HOUR_MS
    ensures var days := diff / 1000 / 60 / 60 / 24;
      && days * DAY_MS <= diff < (days + 1) * DAY_MS
      && days / 7 * 7 * DAY_MS <= diff < (days / 7 + 1) * 7 * DAY_MS
      && days / 30 * 30 * DAY_MS <= diff < (days / 30 + 1) * 30 * DAY_MS
  {
    var seconds := diff / 1000;
    var minutes := seconds / 60;
    var hours := minutes / 60;
    var days := hours / 24;
    assert 1000 * seconds <= diff < 1000 * seconds + 1000;
    assert 60 * minutes <= seconds < 60 * minutes + 60;
    assert 60 * hours <= minutes < 60 * hours + 60;
    assert 24 * days <= hours < 24 * days + 24;
    assert 7 * (days / 7) <= days < 7 * (days / 7) + 7;
    assert 30 * (days / 30) <= days < 30 * (days / 30) + 30;
  }

  /** A clock behind the commit time still reads as just now. */
  lemma FutureIsJustNow(timestamp: int, now: int)
    requires now < timestamp * 1000
    ensures FormatRelativeTime(timestamp, now) == JustNow
  {
  }

  /** 28 and 29 days fall past the week bucket but count zero months. */
  lemma FourWeeksIsZeroMonths(timestamp: int, now: int)
    requires 28 * DAY_MS <= now - timestamp * 1000 < 30 * DAY_MS
    ensures FormatRelativeTime(timestamp, now) == MonthsAgo(0)
  {
    DaysOf(now - timestamp * 1000);
  }
}
