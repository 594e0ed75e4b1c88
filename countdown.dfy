/**
 * The countdown window's state: the resolved next mowing time, the poller
 * step of `log_reader_loop` that refreshes it, and the render step of
 * `update_countdown_display` that turns it into the label text.
 */
module Countdown {
  import opened Optional
  import opened Calendar
  import opened Digits
  import opened LogPatterns
  import opened Extractor

  const Running: string := "运行中..."
  const StartsSuffix: string := "后开始运行"
  const DaysWord: string := "天 "
  const DispatchPrefix: string := "跑单中……还有"
  const DispatchSuffix: string := "秒"

  // ---------------------------------------------------------------------
  // The generic countdown

  /** `diff.days` and the `divmod` breakdown of `diff.seconds`. */
  datatype Breakdown = Breakdown(days: nat, hours: nat, minutes: nat, seconds: nat)

  predicate Normal(b: Breakdown) {
    b.hours < 24 && b.minutes < 60 && b.seconds < 60
  }

  /**
   * The breakdown of a positive difference of `rem` microseconds: days,
   * then hours, minutes and seconds of the rest; the microseconds are
   * dropped, so the fields add up to the whole seconds remaining.
   */
  function Split(rem: nat): (b: Breakdown)
    ensures Normal(b)
    ensures b.days * SecondsPerDay + b.hours * 3600 + b.minutes * 60 + b.seconds == rem / MicrosPerSecond
  {
    var days := rem / MicrosPerDay;
    var secs := rem % MicrosPerDay / MicrosPerSecond;
    SplitSeconds(rem, days, secs);
    Breakdown(days, secs / 3600, secs % 3600 / 60, secs % 3600 % 60)
  }

  lemma SplitSeconds(rem: nat, days: nat, secs: nat)
    requires days == rem / MicrosPerDay && secs == rem % MicrosPerDay / MicrosPerSecond
    ensures secs < SecondsPerDay && days * SecondsPerDay + secs == rem / MicrosPerSecond
  {
    var r := rem % MicrosPerDay;
    var u := r % MicrosPerSecond;
    assert r == secs * MicrosPerSecond + u;
    assert rem == days * MicrosPerDay + r;
    assert rem == (days * SecondsPerDay + secs) * MicrosPerSecond + u;
  }

  /** `f"{days}天 {hours:02d}:{minutes:02d}:{seconds:02d}后开始运行"`, without the days when there are none. */
  function CountdownText(b: Breakdown): string
    requires Normal(b)
  {
    (if b.days > 0 then Decimal(b.days) + DaysWord else "") + ClockText(b) + StartsSuffix
  }

  function ClockText(b: Breakdown): (c: string)
    requires Normal(b)
    ensures ClockShape(c)
  {
    Pad2(b.hours) + ":" + Pad2(b.minutes) + ":" + Pad2(b.seconds)
  }

  /** The whole seconds a countdown text stands for; `None` for any other text. */
  function ReadCountdown(s: string): Option<nat> {
    if |s| < 8 + |StartsSuffix| || s[|s| - |StartsSuffix|..] != StartsSuffix then None
    else
      var c := s[|s| - |StartsSuffix| - 8..|s| - |StartsSuffix|];
      var p := s[..|s| - |StartsSuffix| - 8];
      if !ClockShape(c) then None
      else
        var secs := ClockSeconds(c);
        if p == [] then Some(secs)
        else if |p| > |DaysWord| && p[|p| - |DaysWord|..] == DaysWord && Canonical(p[..|p| - |DaysWord|]) then
          Some(Value(p[..|p| - |DaysWord|]) * SecondsPerDay + secs)
        else None
  }

  lemma ClockTextFields(b: Breakdown)
    requires Normal(b)
    ensures var c := ClockText(b);
      Field2(c, 0) == b.hours && Field2(c, 3) == b.minutes && Field2(c, 6) == b.seconds
  {
    var c := ClockText(b);
    assert c[0..2] == Pad2(b.hours) && c[3..5] == Pad2(b.minutes) && c[6..8] == Pad2(b.seconds);
    Field2OfPad2(c, 0, b.hours);
    Field2OfPad2(c, 3, b.minutes);
    Field2OfPad2(c, 6, b.seconds);
  }

  lemma ThreePieces(p: string, c: string, q: string)
    ensures var s := p + c + q;
      && s[|s| - |q|..] == q
      && s[|s| - |q| - |c|..|s| - |q|] == c
      && s[..|s| - |q| - |c|] == p
  {
    var s := p + c + q;
    assert s == (p + c) + q;
    assert s[..|s| - |q|] == p + c;
    assert s[|s| - |q| - |c|..|s| - |q|] == (p + c)[|p|..];
    assert s[..|s| - |q| - |c|] == (p + c)[..|p|];
  }

  /** A countdown text reads back as the breakdown's whole seconds: days are never lost or invented. */
  lemma {:induction false} CountdownReadBack(b: Breakdown)
    requires Normal(b)
    ensures ReadCountdown(CountdownText(b))
            == Some(b.days * SecondsPerDay + b.hours * 3600 + b.minutes * 60 + b.seconds)
  {
    var c := ClockText(b);
    ClockTextFields(b);
    if b.days > 0 {
      assert CountdownText(b) == (Decimal(b.days) + DaysWord) + c + StartsSuffix;
      ReadWithDays(Decimal(b.days), c);
    } else {
      assert CountdownText(b) == "" + c + StartsSuffix;
      ReadWithoutDays(c);
    }
  }

  function ClockSeconds(c: string): nat
    requires ClockShape(c)
  {
    Field2(c, 0) * 3600 + Field2(c, 3) * 60 + Field2(c, 6)
  }

  lemma ReadWithoutDays(c: string)
    requires ClockShape(c)
    ensures ReadCountdown("" + c + StartsSuffix) == Some(ClockSeconds(c))
  {
    ThreePieces("", c, StartsSuffix);
  }

  lemma ReadWithDays(d: string, c: string)
    requires ClockShape(c) && Canonical(d)
    ensures ReadCountdown((d + DaysWord) + c + StartsSuffix) == Some(Value(d) * SecondsPerDay + ClockSeconds(c))
  {
    var p := d + DaysWord;
    ThreePieces(p, c, StartsSuffix);
    assert p[|p| - |DaysWord|..] == DaysWord && p[..|p| - |DaysWord|] == d;
  }

  /** The countdown text of a positive remaining time reads back as its whole seconds. */
  lemma CountdownOfRemaining(rem: nat)
    ensures ReadCountdown(CountdownText(Split(rem))) == Some(rem / MicrosPerSecond)
  {
    var b := Split(rem);
    CountdownReadBack(b);
    ReadBackOfSplit(rem, b, ReadCountdown(CountdownText(b)));
  }

  lemma ReadBackOfSplit(rem: nat, b: Breakdown, read: Option<nat>)
    requires b.days * SecondsPerDay + b.hours * 3600 + b.minutes * 60 + b.seconds == rem / MicrosPerSecond
    requires read == Some(b.days * SecondsPerDay + b.hours * 3600 + b.minutes * 60 + b.seconds)
    ensures read == Some(rem / MicrosPerSecond)
  {
  }

  /** The days prefix appears exactly when at least a whole day remains. */
  lemma DaysShownIffWholeDay(rem: nat)
    ensures var s := CountdownText(Split(rem));
      (|s| > 8 + |StartsSuffix|) <==> rem >= MicrosPerDay
  {
  }

  // ---------------------------------------------------------------------
  // The dispatching countdown

  /** `f"跑单中……还有{n}秒"` */
  function DispatchText(n: nat): string {
    DispatchPrefix + Decimal(n) + DispatchSuffix
  }

  /** The seconds a dispatching text stands for; `None` for any other text. */
  function ReadDispatch(s: string): Option<nat> {
    if |s| > |DispatchPrefix| + |DispatchSuffix| && s[..|DispatchPrefix|] == DispatchPrefix
       && s[|s| - |DispatchSuffix|..] == DispatchSuffix && Canonical(s[|DispatchPrefix|..|s| - |DispatchSuffix|])
    then Some(Value(s[|DispatchPrefix|..|s| - |DispatchSuffix|]))
    else None
  }

  /** A dispatching text reads back as the seconds it was made from. */
  lemma DispatchReadBack(n: nat)
    ensures ReadDispatch(DispatchText(n)) == Some(n)
  {
    var s := DispatchText(n);
    var d := Decimal(n);
    assert s[..|DispatchPrefix|] == DispatchPrefix;
    assert s[|s| - |DispatchSuffix|..] == DispatchSuffix;
    assert s[|DispatchPrefix|..|s| - |DispatchSuffix|] == d;
  }

  /** The three label texts never read as one another. */
  lemma TextsDistinct(n: nat, b: Breakdown)
    requires Normal(b)
    ensures ReadDispatch(CountdownText(b)) == None && ReadCountdown(DispatchText(n)) == None
    ensures ReadDispatch(Running) == None && ReadCountdown(Running) == None
  {
    var c := CountdownText(b);
    var d := DispatchText(n);
    assert c[|c| - 1] == '行';
    assert d[|d| - 1] == '秒';
    if |c| >= |DispatchSuffix| {
      assert c[|c| - |DispatchSuffix|..] != DispatchSuffix by {
        assert c[|c| - |DispatchSuffix|..][0] == '行';
      }
    }
    if |d| >= |StartsSuffix| {
      assert d[|d| - |StartsSuffix|..] != StartsSuffix by {
        assert d[|d| - |StartsSuffix|..][|StartsSuffix| - 1] == '秒';
      }
    }
  }

  // ---------------------------------------------------------------------
  // update_countdown_display's text

  /**
   * What the render step puts in the label; `Aborted` where an
   * OverflowError escapes `update_countdown_display` and the label is left
   * as it was.
   */
  datatype Display = Shown(text: string) | Aborted

  /** The outcome of the check for a dispatch wait (`is_waiting_mowing`). */
  datatype WaitCheck = Dispatching | Generic | Overflowing

  /**
   * Only the last wait match, in text order, is looked at: the countdown
   * comes from a dispatch wait when its timestamp is valid and its target
   * lies strictly within a second of `target`.
   */
  function CheckLastWait(waits: seq<Announcement>, target: DateTime): WaitCheck
    requires Valid(target) && forall i :: 0 <= i < |waits| ==> WellFormed(WaitDispatch, waits[i])
  {
    if waits == [] then Generic
    else
      match WaitCandidate(waits[|waits| - 1])
      case Overflow => Overflowing
      case Dropped => Generic
      case Target(t) => if Dist(ToMicros(t), ToMicros(target)) < MicrosPerSecond then Dispatching else Generic
  }

  /**
   * The check says "dispatching" exactly when the last wait match has a
   * valid timestamp and ends strictly within a second of the target, on
   * either side, whatever the earlier matches say.
   */
  lemma DispatchingIffLastWaitNear(waits: seq<Announcement>, target: DateTime)
    requires Valid(target) && forall i :: 0 <= i < |waits| ==> WellFormed(WaitDispatch, waits[i])
    ensures CheckLastWait(waits, target) == Dispatching <==>
      (waits != [] && ParseStamp(waits[|waits| - 1].stamp).Some? &&
       var at := ToMicros(ParseStamp(waits[|waits| - 1].stamp).value)
                 + WaitMicros(waits[|waits| - 1].detail.whole, waits[|waits| - 1].detail.fraction);
       at < MicrosLimit && ToMicros(target) - MicrosPerSecond < at < ToMicros(target) + MicrosPerSecond)
    ensures CheckLastWait(waits, target) == Overflowing <==>
      (waits != [] && WaitCandidate(waits[|waits| - 1]) == Overflow)
  {
    if waits != [] {
      WaitCandidateIsStampPlusWait(waits[|waits| - 1]);
    }
  }

  /** The microseconds from `now` to a target ahead of it. */
  function Remaining(target: DateTime, now: DateTime): (rem: nat)
    requires Valid(target) && Valid(now) && LexBefore(now, target)
    ensures rem > 0 && rem == ToMicros(target) - ToMicros(now)
  {
    LexBeforeIffEarlier(now, target);
    ToMicros(target) - ToMicros(now)
  }

  /** The display while the target is still ahead of `now`, given the wait matches of the log content. */
  function PendingDisplay(target: DateTime, now: DateTime, waits: seq<Announcement>): Display
    requires Valid(target) && Valid(now) && LexBefore(now, target)
    requires forall i :: 0 <= i < |waits| ==> WellFormed(WaitDispatch, waits[i])
  {
    match CheckLastWait(waits, target)
    case Overflowing => Aborted
    case Dispatching => Shown(DispatchText(Remaining(target, now) / MicrosPerSecond))
    case Generic => Shown(CountdownText(Split(Remaining(target, now))))
  }

  /**
   * While the target is ahead, the label reads back as the whole seconds
   * still to go, as a dispatching text exactly when the check says so and
   * as a countdown otherwise; only an overflowing last wait match aborts.
   */
  lemma PendingReadsRemainingSeconds(target: DateTime, now: DateTime, waits: seq<Announcement>)
    requires Valid(target) && Valid(now) && LexBefore(now, target)
    requires forall i :: 0 <= i < |waits| ==> WellFormed(WaitDispatch, waits[i])
    ensures ToMicros(now) < ToMicros(target)
    ensures var secs := (ToMicros(target) - ToMicros(now)) / MicrosPerSecond;
      var check := CheckLastWait(waits, target);
      match PendingDisplay(target, now, waits)
      case Aborted => check == Overflowing
      case Shown(text) =>
        check != Overflowing
        && (ReadDispatch(text) == Some(secs) <==> check == Dispatching)
        && (ReadCountdown(text) == Some(secs) <==> check == Generic)
  {
    var rem := Remaining(target, now);
    assert rem == ToMicros(target) - ToMicros(now);
    var check := CheckLastWait(waits, target);
    if check == Dispatching {
      DispatchingShows(target, now, waits);
    } else if check == Generic {
      GenericShows(target, now, waits);
    }
  }

  lemma DispatchingShows(target: DateTime, now: DateTime, waits: seq<Announcement>)
    requires Valid(target) && Valid(now) && LexBefore(now, target)
    requires forall i :: 0 <= i < |waits| ==> WellFormed(WaitDispatch, waits[i])
    requires CheckLastWait(waits, target) == Dispatching
    ensures var secs := Remaining(target, now) / MicrosPerSecond;
      && PendingDisplay(target, now, waits) == Shown(DispatchText(secs))
      && ReadDispatch(DispatchText(secs)) == Some(secs) && ReadCountdown(DispatchText(secs)) == None
  {
    DispatchReads(Remaining(target, now) / MicrosPerSecond);
  }

  lemma GenericShows(target: DateTime, now: DateTime, waits: seq<Announcement>)
    requires Valid(target) && Valid(now) && LexBefore(now, target)
    requires forall i :: 0 <= i < |waits| ==> WellFormed(WaitDispatch, waits[i])
    requires CheckLastWait(waits, target) == Generic
    ensures var rem := Remaining(target, now);
      && PendingDisplay(target, now, waits) == Shown(CountdownText(Split(rem)))
      && ReadCountdown(CountdownText(Split(rem))) == Some(rem / MicrosPerSecond)
      && ReadDispatch(CountdownText(Split(rem))) == None
  {
    CountdownReads(Remaining(target, now));
  }

  lemma CountdownReads(rem: nat)
    ensures ReadCountdown(CountdownText(Split(rem))) == Some(rem / MicrosPerSecond)
    ensures ReadDispatch(CountdownText(Split(rem))) == None
  {
    CountdownOfRemaining(rem);
    TextsDistinct(0, Split(rem));
  }

  lemma DispatchReads(n: nat)
    ensures ReadDispatch(DispatchText(n)) == Some(n)
    ensures ReadCountdown(DispatchText(n)) == None
  {
    DispatchReadBack(n);
    TextsDistinct(n, Breakdown(0, 0, 0, 0));
  }

  /** The label text of a render step for the target `next`. */
  function Render(next: Option<DateTime>, now: DateTime, log: Option<string>): Display
    requires Valid(now) && (next.Some? ==> Valid(next.value))
  {
    if next.None? then Shown(Running)
    else if LexBefore(now, next.value) then
      PendingDisplay(next.value, now, Scan(WaitDispatch, if log.Some? then log.value else ""))
    else Shown(Running)
  }

  /** The target after a render step: re-read from the log once it is due. */
  function RenderNext(next: Option<DateTime>, now: DateTime, log: Option<string>): Option<DateTime>
    requires Valid(now) && (next.Some? ==> Valid(next.value))
  {
    if next.Some? && !LexBefore(now, next.value) then LogFileTarget(log) else next
  }

  /**
   * No target, or a target not after `now`, shows "运行中..." and never a
   * countdown; a due target is replaced by a fresh extraction, a missing one
   * is left missing, and a target still ahead is kept and never shows
   * "运行中...".
   */
  lemma RenderRunningIffNotAhead(next: Option<DateTime>, now: DateTime, log: Option<string>)
    requires Valid(now) && (next.Some? ==> Valid(next.value))
    ensures Render(next, now, log) == Shown(Running)
            <==> next.None? || ToMicros(next.value) <= ToMicros(now)
    ensures next.Some? && ToMicros(next.value) <= ToMicros(now) ==> RenderNext(next, now, log) == LogFileTarget(log)
    ensures next.None? || ToMicros(now) < ToMicros(next.value) ==> RenderNext(next, now, log) == next
  {
    if next.Some? {
      LexBeforeIffEarlier(now, next.value);
      if LexBefore(now, next.value) {
        var waits := Scan(WaitDispatch, if log.Some? then log.value else "");
        PendingReadsRemainingSeconds(next.value, now, waits);
        TextsDistinct(0, Breakdown(0, 0, 0, 0));
      }
    }
  }

  // ---------------------------------------------------------------------
  // log_reader_loop's decision

  /** The target after a poller step: re-read from the log when absent or due. */
  function PollerNext(next: Option<DateTime>, now: DateTime, log: Option<string>): Option<DateTime>
    requires Valid(now) && (next.Some? ==> Valid(next.value))
  {
    if next.None? then LogFileTarget(log)
    else if !LexBefore(now, next.value) then LogFileTarget(log)
    else next
  }

  /**
   * The poller keeps a target strictly after `now` and otherwise replaces it
   * by a fresh extraction.
   */
  lemma PollerKeepsOnlyFutureTarget(next: Option<DateTime>, now: DateTime, log: Option<string>)
    requires Valid(now) && (next.Some? ==> Valid(next.value))
    ensures next.Some? && ToMicros(now) < ToMicros(next.value) ==> PollerNext(next, now, log) == next
    ensures next.None? || ToMicros(next.value) <= ToMicros(now) ==> PollerNext(next, now, log) == LogFileTarget(log)
  {
    if next.Some? {
      LexBeforeIffEarlier(now, next.value);
    }
  }

  /** A second poller step at the same instant over the same log changes nothing. */
  lemma PollerSettles(next: Option<DateTime>, now: DateTime, log: Option<string>)
    requires Valid(now) && (next.Some? ==> Valid(next.value))
    ensures PollerNext(PollerNext(next, now, log), now, log) == PollerNext(next, now, log)
  {
  }

  // ---------------------------------------------------------------------
  // The window's state

  class MowerTimer {
    /** `self.next_mowing_time` */
    var nextMowingTime: Option<DateTime>

    ghost predicate Valid()
      reads this
    {
      nextMowingTime.Some? ==> Calendar.Valid(nextMowingTime.value)
    }

    /** The state `__init__` sets up: no target yet. */
    constructor ()
      ensures Valid() && nextMowingTime == None
    {
      nextMowingTime := None;
    }

    /** One pass of `log_reader_loop`'s body, before its sleep. */
    method LogReaderStep(now: DateTime, log: Option<string>)
      requires Valid() && Calendar.Valid(now)
      modifies this
      ensures Valid()
      ensures nextMowingTime == PollerNext(old(nextMowingTime), now, log)
    {
      if nextMowingTime.None? {
        nextMowingTime := ReadLogFile(log);
      } else if !LexBefore(now, nextMowingTime.value) {
        nextMowingTime := ReadLogFile(log);
      }
    }

    /**
     * `update_countdown_display()`: the label text for `now`, with the
     * log's content (`None` when it cannot be read) standing for both
     * reads of the file.
     */
    method UpdateCountdownDisplay(now: DateTime, log: Option<string>) returns (d: Display)
      requires Valid() && Calendar.Valid(now)
      modifies this
      ensures Valid()
      ensures d == Render(old(nextMowingTime), now, log)
      ensures nextMowingTime == RenderNext(old(nextMowingTime), now, log)
    {
      if nextMowingTime.None? {
        d := Shown(Running);
      } else {
        var target := nextMowingTime.value;
        if LexBefore(now, target) {
          var content := "";
          if log.Some? {
            content := log.value;
          }
          d := PendingDisplay(target, now, Scan(WaitDispatch, content));
        } else {
          d := Shown(Running);
          nextMowingTime := ReadLogFile(log);
        }
      }
    }
  }
}
