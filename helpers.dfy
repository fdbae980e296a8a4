/** The theme toggle button (app.js:1126-1143). */
module Theme {
  import opened Wrappers

  /** The themes the button cycles through, in order. */
  const Themes: seq<string> := ["pink", "mint", "sky"]

  /** `themes.indexOf(t)`: the first position of t, or -1. */
  function IndexOfTheme(s: seq<string>, t: string): (i: int)
    ensures -1 <= i < |s|
    ensures i == -1 <==> t !in s
    ensures i >= 0 ==> s[i] == t && t !in s[..i]
  {
    if s == [] then -1
    else if s[0] == t then 0
    else
      var i := IndexOfTheme(s[1..], t);
      assert i >= 0 ==> s[..i + 1] == [s[0]] + s[1..][..i];
      if i == -1 then -1 else i + 1
  }

  /**
   * One click: `themes[(idx + 1) % themes.length]`. A theme outside the list
   * has index -1, so the click lands on the first theme.
   */
  function NextTheme(current: string): (r: string)
    ensures r in Themes
    ensures current !in Themes ==> r == "pink"
  {
    Themes[(IndexOfTheme(Themes, current) + 1) % |Themes|]
  }

  /** Each click moves one step along the list, from its last entry back to its first. */
  lemma NextThemeSteps()
    ensures NextTheme("pink") == "mint"
    ensures NextTheme("mint") == "sky"
    ensures NextTheme("sky") == "pink"
  {
    assert IndexOfTheme(Themes, "pink") == 0;
    assert IndexOfTheme(Themes, "mint") == 1;
    assert IndexOfTheme(Themes, "sky") == 2;
  }

  /** From a listed theme, the button reaches the two others before coming back on the third click. */
  lemma NextThemeCycles(t: string)
    requires t in Themes
    ensures NextTheme(t) != t && NextTheme(NextTheme(t)) != t
    ensures NextTheme(NextTheme(NextTheme(t))) == t
  {
    NextThemeSteps();
    assert t == "pink" || t == "mint" || t == "sky";
  }

  /** `(state.ui && state.ui.theme) ? state.ui.theme : 'pink'`: a missing or empty theme starts as pink. */
  function StartTheme(stored: Option<string>): (r: string)
    ensures r != ""
    ensures stored.Some? && stored.value != "" ==> r == stored.value
    ensures stored.None? || stored.value == "" ==> r == "pink"
  {
    match stored
    case Some(t) => if t != "" then t else "pink"
    case None => "pink"
  }
}

/**
 * The bucketing of timeAgo (app.js:282-297): how long ago a timestamp was,
 * by whole seconds, minutes, hours and days. The text of each bucket, and the
 * clock time shown for "yesterday" and for older dates, are not modelled.
 */
module Elapsed {
  import opened Wrappers

  /** Which phrase timeAgo picks. */
  datatype Ago =
    | NoTime          // '-': no timestamp
    | JustNow         // '刚刚'
    | Seconds(s: int) // 's 秒前'
    | Minutes(m: int) // 'm 分钟前'
    | Hours(h: int)   // 'h 小时前'
    | Yesterday       // '昨天 HH:MM'
    | Days(d: int)    // 'd 天前'
    | OnDate          // 'M-DD HH:MM'

  const Second: int := 1000
  const Minute: int := 60 * Second
  const Hour: int := 60 * Minute
  const Day: int := 24 * Hour

  /**
   * timeAgo for a timestamp at instant `ts` (milliseconds; None when the
   * timestamp is missing) seen at instant `nowMs`. Each step is JavaScript's
   * Math.floor of a division by a positive constant, which is Dafny's `/`.
   */
  function TimeAgo(ts: Option<int>, nowMs: int): (r: Ago)
    ensures r == NoTime <==> ts.None?
  {
    match ts
    case None => NoTime
    case Some(t) =>
      var s := (nowMs - t) / 1000;
      if s < 10 then JustNow
      else if s < 60 then Seconds(s)
      else
        var m := s / 60;
        if m < 60 then Minutes(m)
        else
          var h := m / 60;
          if h < 24 then Hours(h)
          else
            var day := h / 24;
            if day == 1 then Yesterday
            else if day < 7 then Days(day)
            else OnDate
  }

  /** The nested floors of timeAgo are floors of the elapsed time by a minute, an hour and a day. */
  lemma NestedFloors(diff: int)
    ensures diff / 1000 / 60 == diff / Minute
    ensures diff / 1000 / 60 / 60 == diff / Hour
    ensures diff / 1000 / 60 / 60 / 24 == diff / Day
  {
    var s := diff / 1000;
    var m := s / 60;
    var h := m / 60;
    assert diff == 1000 * s + diff % 1000;
    assert s == 60 * m + s % 60;
    assert m == 60 * h + m % 60;
    assert h == 24 * (h / 24) + h % 24;
  }

  /**
   * Each phrase covers one interval of elapsed time, and the number it shows
   * is the elapsed time in whole units of that phrase.
   */
  lemma TimeAgoBuckets(t: int, nowMs: int)
    ensures var r := TimeAgo(Some(t), nowMs);
      var diff := nowMs - t;
      && (r == JustNow <==> diff < 10 * Second)
      && (r.Seconds? <==> 10 * Second <= diff < Minute)
      && (r.Seconds? ==> r.s == diff / Second)
      && (r.Minutes? <==> Minute <= diff < Hour)
      && (r.Minutes? ==> r.m == diff / Minute)
      && (r.Hours? <==> Hour <= diff < Day)
      && (r.Hours? ==> r.h == diff / Hour)
      && (r == Yesterday <==> Day <= diff < 2 * Day)
      && (r.Days? <==> 2 * Day <= diff < 7 * Day)
      && (r.Days? ==> r.d == diff / Day)
      && (r == OnDate <==> 7 * Day <= diff)
  {
    NestedFloors(nowMs - t);
  }
}
