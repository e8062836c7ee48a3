/** The dashboard card of web/src/components/AppCard.tsx: the relative date it shows under an
    app and the two links it offers. Times are integer milliseconds since the epoch; the
    locale date string (`toLocaleDateString`) is an opaque value passed in. */
module AppCard {
  import opened Text
  import opened AppStore

  /** `1000 * 60 * 60 * 24`. */
  const DayMs: int := 1000 * 60 * 60 * 24

  /** `Math.floor(diffMs / DayMs)`: the whole days elapsed from `date` to `now`, rounded down,
      so a date in the future gives a negative count. */
  function DiffDays(now: int, date: int): (d: int)
    ensures d * DayMs <= now - date < (d + 1) * DayMs
  {
    (now - date) / DayMs
  }

  /** formatDate. */
  function FormatDate(now: int, date: int, localeDate: string): string
  {
    var diffDays := DiffDays(now, date);
    if diffDays == 0 then "Today"
    else if diffDays == 1 then "Yesterday"
    else if diffDays < 7 then IntToDecimal(diffDays) + " days ago"
    else localeDate
  }

  /** The buckets in terms of the elapsed milliseconds: under one day is "Today", under two
      "Yesterday", then "N days ago" up to seven days, and the locale date from there on. */
  lemma FormatDateBuckets(now: int, date: int, localeDate: string)
    ensures 0 <= now - date < DayMs ==> FormatDate(now, date, localeDate) == "Today"
    ensures DayMs <= now - date < 2 * DayMs ==> FormatDate(now, date, localeDate) == "Yesterday"
    ensures 2 * DayMs <= now - date < 7 * DayMs ==>
      FormatDate(now, date, localeDate) == NatToDecimal((now - date) / DayMs) + " days ago"
    ensures 7 * DayMs <= now - date ==> FormatDate(now, date, localeDate) == localeDate
  {
    var d := DiffDays(now, date);
    if 2 * DayMs <= now - date < 7 * DayMs {
      assert 2 <= d;
    }
  }

  /** A date in the future is not "Today": it reads "-N days ago", N being the days still to come
      rounded up. */
  lemma FutureDatesGoNegative(now: int, date: int, localeDate: string)
    requires now < date
    ensures FormatDate(now, date, localeDate) ==
      "-" + NatToDecimal(-DiffDays(now, date)) + " days ago"
    ensures -DiffDays(now, date) >= 1
    ensures (-DiffDays(now, date) - 1) * DayMs < date - now <= -DiffDays(now, date) * DayMs
  {
  }

  /** The link copied by the Share button. */
  function ShareUrl(origin: string, app: App): (r: string)
    ensures |r| == |origin| + 3 + |app.id|
    ensures r[..|origin|] == origin && r[|origin|..] == OpenHref(app)
  {
    origin + OpenHref(app)
  }

  /** The href of the Open link. */
  function OpenHref(app: App): (r: string)
    ensures |r| == 3 + |app.id|
    ensures r[..3] == "/a/" && r[3..] == app.id
  {
    "/a/" + app.id
  }

  /** Both links name the app by its id and never by its slug: two apps get the same links
      exactly when their ids agree, whatever their slugs. */
  lemma LinksIdentifyApps(origin: string, a: App, b: App)
    ensures OpenHref(a) == OpenHref(b) <==> a.id == b.id
    ensures ShareUrl(origin, a) == ShareUrl(origin, b) <==> a.id == b.id
  {
    if OpenHref(a) == OpenHref(b) {
      assert a.id == OpenHref(a)[3..];
    }
    if ShareUrl(origin, a) == ShareUrl(origin, b) {
      assert OpenHref(a) == ShareUrl(origin, a)[|origin|..];
      assert a.id == OpenHref(a)[3..];
    }
  }
}
