/**
  The conversion progress screen (`LoadingState`): the progress percentage,
  the elapsed-seconds counter, the clock timestamp, the rolling window of
  the last four log lines, the estimated time remaining and its `00:MM:SS`
  rendering. The clock and the interval timer are inputs.
 */
module LoadingState {
  import opened Text

  /** `current / total * 100`, or 0 without a page count. */
  function Progress(current: int, total: int): (p: real)
    ensures total <= 0 ==> p == 0.0
    ensures total > 0 ==> p * (total as real) == 100.0 * (current as real)
    ensures total > 0 && 0 <= current <= total ==> 0.0 <= p <= 100.0
    ensures total > 0 && current == total ==> p == 100.0
  {
    if total > 0 then ProgressBounds(current, total); (current as real / total as real) * 100.0 else 0.0
  }

  lemma ProgressBounds(current: int, total: int)
    requires total > 0
    ensures (current as real / total as real) * 100.0 * (total as real) == 100.0 * (current as real)
    ensures 0 <= current <= total ==> 0.0 <= current as real / total as real <= 1.0
  {
  }

  // ---- elapsed time ----

  datatype Screen = Screen(logs: seq<string>, elapsed: int)

  const InitialScreen := Screen([], 0)

  /** The one-second interval: the elapsed counter goes up by one, nothing else changes. */
  function Tick(s: Screen): (s': Screen)
    ensures s'.elapsed == s.elapsed + 1 && s'.logs == s.logs
  {
    s.(elapsed := s.elapsed + 1)
  }

  function Ticks(s: Screen, n: nat): Screen
    decreases n
  {
    if n == 0 then s else Ticks(Tick(s), n - 1)
  }

  /** From the first render, the elapsed counter is the number of intervals that fired. */
  lemma {:induction false} ElapsedCountsTicks(s: Screen, n: nat)
    ensures Ticks(s, n).elapsed == s.elapsed + n
    ensures Ticks(s, n).logs == s.logs
    decreases n
  {
    if n > 0 {
      ElapsedCountsTicks(Tick(s), n - 1);
    }
  }

  // ---- time rendering ----

  /** JavaScript's `a % 60`: the remainder takes the sign of `a`. */
  function JsRem60(a: int): (r: int)
    ensures (a - r) % 60 == 0
    ensures a >= 0 ==> 0 <= r < 60
    ensures a < 0 ==> -60 < r <= 0
  {
    if a >= 0 then a % 60 else NegativeRemainder(-a); -((-a) % 60)
  }

  /** For a positive `b`, `-b` differs from `-(b % 60)` by a multiple of 60. */
  lemma NegativeRemainder(b: int)
    requires b > 0
    ensures (-b + b % 60) % 60 == 0
  {
    var q := b / 60;
    assert -b + b % 60 == 60 * -q;
  }

  /**
    `formatTime`: the hour field is always `00`; minutes are `floor(s / 60)`
    and are not wrapped at 60; seconds are the JavaScript remainder.
   */
  function FormatTime(seconds: int): (r: string)
    ensures |r| >= 8 && r[..3] == "00:"
  {
    "00:" + PadInt2(seconds / 60) + ":" + PadInt2(JsRem60(seconds))
  }

  /**
    `r` reads as the clock `00:<mins>:<secs>`: after the `00:` prefix comes a
    run of digits worth `mins`, a colon, and two digits worth `secs`.
   */
  predicate ReadsAsClock(r: string, mins: nat, secs: nat) {
    && |r| >= 6 && r[..3] == "00:" && r[|r| - 3] == ':'
    && AllDigits(r[3..|r| - 3]) && ParseNat(r[3..|r| - 3]) == mins
    && AllDigits(r[|r| - 2..]) && ParseNat(r[|r| - 2..]) == secs
  }

  /**
    For a non-negative count of seconds, written as `mins * 60 + secs` with
    `secs` below 60 (every such count has exactly one such form), the
    rendering reads back as `mins` and `secs`: the minutes are not wrapped at
    60 and the seconds field always has two characters. Below 100 minutes the
    whole string has eight characters.
   */
  lemma FormatTimeReadsBack(mins: nat, secs: nat)
    requires secs < 60
    ensures ReadsAsClock(FormatTime(mins * 60 + secs), mins, secs)
    ensures mins < 100 ==> |FormatTime(mins * 60 + secs)| == 8
  {
    ClockOf(mins, secs);
    PadInt2ReadsBack(mins);
    PadInt2ReadsBack(secs);
    ClockFields(PadInt2(mins), PadInt2(secs), mins, secs);
  }

  /** For a non-negative count, floor division and the JavaScript remainder recover the two parts. */
  lemma ClockOf(mins: nat, secs: nat)
    requires secs < 60
    ensures FormatTime(mins * 60 + secs) == "00:" + PadInt2(mins) + ":" + PadInt2(secs)
  {
    SplitSixty(mins, secs);
  }

  lemma SplitSixty(mins: nat, secs: nat)
    requires secs < 60
    ensures (mins * 60 + secs) / 60 == mins && JsRem60(mins * 60 + secs) == secs
  {
    var n := mins * 60 + secs;
    assert n / 60 == mins && n % 60 == secs;
  }

  /** Two digit fields, the second of two characters, placed in `00:<m>:<s>` read back as their values. */
  lemma ClockFields(m: string, s: string, mins: nat, secs: nat)
    requires |s| == 2 && AllDigits(m) && AllDigits(s)
    requires ParseNat(m) == mins && ParseNat(s) == secs
    ensures |"00:" + m + ":" + s| == |m| + 6
    ensures ReadsAsClock("00:" + m + ":" + s, mins, secs)
  {
    var r := "00:" + m + ":" + s;
    assert r[3..|r| - 3] == m;
    assert r[|r| - 2..] == s;
  }

  /** A negative count (more pages done than announced) renders with minus signs in both fields. */
  lemma FormatTimeOfNegative()
    ensures FormatTime(-5) == "00:-1:-5"
  {
    assert -5 / 60 == -1;
    assert JsRem60(-5) == -5;
    assert NatToString(1) == "1";
    assert NatToString(5) == "5";
  }

  /** `getTimestamp`: the clock's hours, minutes and seconds, each padded to two digits. */
  function Timestamp(h: int, m: int, s: int): (t: string)
    ensures |t| >= 8
  {
    PadInt2(h) + ":" + PadInt2(m) + ":" + PadInt2(s)
  }

  /** `t` reads as `HH:MM:SS` with the fields worth `h`, `m` and `s`. */
  predicate ReadsAsTimestamp(t: string, h: nat, m: nat, s: nat) {
    && |t| == 8 && t[2] == ':' && t[5] == ':'
    && AllDigits(t[..2]) && ParseNat(t[..2]) == h
    && AllDigits(t[3..5]) && ParseNat(t[3..5]) == m
    && AllDigits(t[6..]) && ParseNat(t[6..]) == s
  }

  /** For clock values the timestamp is `HH:MM:SS` and each field reads back. */
  lemma TimestampReadsBack(h: nat, m: nat, s: nat)
    requires h < 24 && m < 60 && s < 60
    ensures ReadsAsTimestamp(Timestamp(h, m, s), h, m, s)
  {
    PadInt2ReadsBack(h);
    PadInt2ReadsBack(m);
    PadInt2ReadsBack(s);
    TimestampFields(PadInt2(h), PadInt2(m), PadInt2(s), h, m, s);
  }

  /** Three two-digit fields joined by colons read back as their values. */
  lemma TimestampFields(a: string, b: string, c: string, h: nat, m: nat, s: nat)
    requires |a| == 2 && |b| == 2 && |c| == 2
    requires AllDigits(a) && AllDigits(b) && AllDigits(c)
    requires ParseNat(a) == h && ParseNat(b) == m && ParseNat(c) == s
    ensures ReadsAsTimestamp(a + ":" + b + ":" + c, h, m, s)
  {
    var t := a + ":" + b + ":" + c;
    assert t[..2] == a;
    assert t[3..5] == b;
    assert t[6..] == c;
  }

  // ---- the log window ----

  /** One processed-page notification with the clock reading at the time. */
  datatype PageUpdate = PageUpdate(page: int, total: int, stamp: string)

  /** The line logged for one update: the clock in brackets, then `Processing page <page>/<total>...`. */
  function LogEntry(u: PageUpdate): (e: string)
    ensures var pre := "[" + u.stamp + "] Processing page ";
      |e| >= |pre| + 6 && e[..|pre|] == pre && e[|e| - 3..] == "..."
  {
    "[" + u.stamp + "] Processing page " + IntToString(u.page) + "/" + IntToString(u.total) + "..."
  }

  /**
    For non-negative counts the line reads back: after the prefix come the
    page's digits, a slash, the total's digits and the three dots, and the
    two digit fields parse as the page and the total.
   */
  lemma LogEntryReadsBack(u: PageUpdate)
    requires u.page >= 0 && u.total >= 0
    ensures var e, pre := LogEntry(u), "[" + u.stamp + "] Processing page ";
      var k := |pre| + |IntToString(u.page)|;
      && k + 4 < |e|
      && e[k] == '/'
      && AllDigits(e[|pre|..k]) && ParseNat(e[|pre|..k]) == u.page
      && AllDigits(e[k + 1..|e| - 3]) && ParseNat(e[k + 1..|e| - 3]) == u.total
  {
    var pre, p, t := "[" + u.stamp + "] Processing page ", IntToString(u.page), IntToString(u.total);
    var e := LogEntry(u);
    assert e == pre + p + "/" + t + "...";
    var k := |pre| + |p|;
    assert e[|pre|..k] == p;
    assert e[k + 1..|e| - 3] == t;
    ParseNatToString(u.page);
    ParseNatToString(u.total);
  }

  /** JavaScript's `xs.slice(-3)`: the last three elements, or all of them when fewer. */
  function LastThree<T>(xs: seq<T>): (r: seq<T>)
    ensures |r| == if |xs| < 3 then |xs| else 3
    ensures r == xs[|xs| - |r|..]
  {
    if |xs| <= 3 then xs else xs[|xs| - 3..]
  }

  /**
    The log effect: a positive page appends its entry after keeping at most
    the three previous ones; any other page leaves the log alone.
   */
  function AppendLog(logs: seq<string>, u: PageUpdate): (r: seq<string>)
    ensures u.page <= 0 ==> r == logs
    ensures u.page > 0 ==>
      && |r| == (if |logs| < 3 then |logs| else 3) + 1
      && r[|r| - 1] == LogEntry(u)
      && r[..|r| - 1] == logs[|logs| - (|r| - 1)..]
  {
    if u.page > 0 then LastThree(logs) + [LogEntry(u)] else logs
  }

  function Feed(logs: seq<string>, us: seq<PageUpdate>): seq<string>
    decreases |us|
  {
    if |us| == 0 then logs else AppendLog(Feed(logs, us[..|us| - 1]), us[|us| - 1])
  }

  /** The entries of the updates that log anything, in order: the reference for the window. */
  function Entries(us: seq<PageUpdate>): (es: seq<string>)
    ensures |es| <= |us|
    decreases |us|
  {
    if |us| == 0 then []
    else if us[|us| - 1].page > 0 then Entries(us[..|us| - 1]) + [LogEntry(us[|us| - 1])]
    else Entries(us[..|us| - 1])
  }

  function Min(a: nat, b: nat): nat {
    if a < b then a else b
  }

  /** Keeping the last three of a window of the last four keeps the last three. */
  lemma LastThreeOfWindow<T>(es: seq<T>)
    ensures LastThree(es[|es| - Min(|es|, 4)..]) == es[|es| - Min(|es|, 3)..]
  {
  }

  /** Appending one element moves the window of the last four along by one. */
  lemma WindowExtend<T>(es: seq<T>, x: T)
    ensures var es' := es + [x];
      es'[|es'| - Min(|es'|, 4)..] == es[|es| - Min(|es|, 3)..] + [x]
  {
    var es' := es + [x];
    assert es'[|es'| - Min(|es'|, 4)..] == es'[|es'| - Min(|es'|, 4)..|es|] + [x];
  }

  /**
    The rolling window: starting from an empty log, the log always holds
    the last (at most four) entries of the updates so far, newest last.
   */
  lemma {:induction false} LogIsLastFourEntries(us: seq<PageUpdate>)
    ensures var es := Entries(us);
      Feed([], us) == es[|es| - Min(|es|, 4)..]
    ensures |Feed([], us)| <= 4
    decreases |us|
  {
    if |us| > 0 {
      var init, u := us[..|us| - 1], us[|us| - 1];
      LogIsLastFourEntries(init);
      var es := Entries(init);
      assert Feed([], us) == AppendLog(Feed([], init), u);
      if u.page > 0 {
        assert Entries(us) == es + [LogEntry(u)];
        LastThreeOfWindow(es);
        WindowExtend(es, LogEntry(u));
      } else {
        assert Entries(us) == es;
      }
    }
  }

  // ---- estimated time remaining ----

  /** `Math.ceil`: the least integer not below `x`. */
  function Ceil(x: real): (c: int)
    ensures (c - 1) as real < x <= c as real
  {
    -((-x).Floor)
  }

  lemma CeilUnique(x: real, c: int)
    requires (c - 1) as real < x <= c as real
    ensures c == Ceil(x)
  {
  }

  /** The remaining pages at the average time per page so far, rounded up; 0 before the first page. */
  function EstimatedRemaining(total: int, current: int, elapsed: int): (r: int)
    ensures !(total > 0 && current > 0) ==> r == 0
    ensures total > 0 && current > 0 ==>
      var x := (total - current) as real * (elapsed as real / current as real);
      (r - 1) as real < x <= r as real
  {
    if total > 0 && current > 0 then
      Ceil((total - current) as real * (elapsed as real / current as real))
    else 0
  }

  /** While pages remain and time has passed, the estimate is never negative; at the last page it is 0. */
  lemma EstimateSign(total: int, current: int, elapsed: int)
    requires 0 < current <= total && elapsed >= 0
    ensures EstimatedRemaining(total, current, elapsed) >= 0
    ensures current == total ==> EstimatedRemaining(total, current, elapsed) == 0
  {
    var x := (total - current) as real * (elapsed as real / current as real);
    assert elapsed as real / current as real >= 0.0;
    assert x >= 0.0;
  }
}
