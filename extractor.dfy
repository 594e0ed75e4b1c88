/**
 * `parse_next_mowing_time`: every announcement in the log text becomes a
 * candidate start time (or is dropped when its timestamp or resume time is
 * not a real date or clock time), and the latest candidate is the next
 * mowing time. `read_log_file` turns an unreadable file, and an overflow
 * while adding a wait amount, into "no time".
 */
module Extractor {
  import opened Optional
  import opened Calendar
  import opened Digits
  import opened LogPatterns

  // ---------------------------------------------------------------------
  // strptime with "%Y-%m-%d %H:%M:%S" and "%H:%M:%S"

  /** The two-digit field at `i`. */
  function Field2(s: string, i: nat): nat
    requires i + 2 <= |s| && IsDigit(s[i]) && IsDigit(s[i + 1])
  {
    10 * DigitValue(s[i]) + DigitValue(s[i + 1])
  }

  /** `HH:MM:SS` read as a clock time; `None` where strptime raises ValueError. */
  function ParseClock(c: string): (r: Option<Time>)
    requires ClockShape(c)
    ensures r.Some? ==> ValidTime(r.value) && r.value.microsecond == 0
  {
    var t := Time(Field2(c, 0), Field2(c, 3), Field2(c, 6), 0);
    if ValidTime(t) then Some(t) else None
  }

  /** `YYYY-MM-DD HH:MM:SS` read as a date-time; `None` where strptime raises ValueError. */
  function ParseStamp(s: string): (r: Option<DateTime>)
    requires StampShape(s)
    ensures r.Some? ==> Valid(r.value) && r.value.time.microsecond == 0
  {
    var d := Date(100 * Field2(s, 0) + Field2(s, 2), Field2(s, 5), Field2(s, 8));
    match ParseClock(s[11..])
    case None => None
    case Some(t) => if Valid(DateTime(d, t)) then Some(DateTime(d, t)) else None
  }

  /** `t.strftime("%H:%M:%S")`, the inverse of `ParseClock`. */
  function FormatClock(t: Time): (r: string)
    requires ValidTime(t)
    ensures ClockShape(r)
  {
    Pad2(t.hour) + ":" + Pad2(t.minute) + ":" + Pad2(t.second)
  }

  /** `dt.strftime("%Y-%m-%d %H:%M:%S")`, the inverse of `ParseStamp`. */
  function FormatStamp(dt: DateTime): (r: string)
    requires Valid(dt)
    ensures StampShape(r)
  {
    var d := dt.date;
    var r := Pad2(d.year / 100) + Pad2(d.year % 100) + "-" + Pad2(d.month) + "-" + Pad2(d.day)
             + " " + FormatClock(dt.time);
    assert r[11..] == FormatClock(dt.time);
    r
  }

  lemma Field2OfPad2(s: string, i: nat, n: nat)
    requires n < 100 && i + 2 <= |s| && s[i..i + 2] == Pad2(n)
    ensures IsDigit(s[i]) && IsDigit(s[i + 1]) && Field2(s, i) == n
  {
    assert s[i] == Pad2(n)[0] && s[i + 1] == Pad2(n)[1];
  }

  lemma Pad2OfField2(s: string, i: nat)
    requires i + 2 <= |s| && IsDigit(s[i]) && IsDigit(s[i + 1])
    ensures Field2(s, i) < 100 && Pad2(Field2(s, i)) == s[i..i + 2]
  {
    DigitCharOfValue(s[i]);
    DigitCharOfValue(s[i + 1]);
  }

  /** Formatting a clock time and reading it back gives the same time. */
  lemma ClockRoundTrip(t: Time)
    requires ValidTime(t) && t.microsecond == 0
    ensures ParseClock(FormatClock(t)) == Some(t)
  {
    var c := FormatClock(t);
    Field2OfPad2(c, 0, t.hour);
    Field2OfPad2(c, 3, t.minute);
    Field2OfPad2(c, 6, t.second);
  }

  /** A clock text that reads as a time is that time's formatting. */
  lemma ClockReadBack(c: string)
    requires ClockShape(c) && ParseClock(c).Some?
    ensures FormatClock(ParseClock(c).value) == c
  {
    var t := ParseClock(c).value;
    Pad2OfField2(c, 0);
    Pad2OfField2(c, 3);
    Pad2OfField2(c, 6);
    var r := FormatClock(t);
    assert r[0..2] == c[0..2] && r[3..5] == c[3..5] && r[6..8] == c[6..8];
    assert r[2] == c[2] && r[5] == c[5];
    assert forall i | 0 <= i < 8 :: r[i] == c[i] by {
      forall i | 0 <= i < 8 ensures r[i] == c[i] {
        if i < 2 { assert r[i] == r[0..2][i]; assert c[i] == c[0..2][i]; }
        else if 3 <= i < 5 { assert r[i] == r[3..5][i - 3]; assert c[i] == c[3..5][i - 3]; }
        else if 6 <= i { assert r[i] == r[6..8][i - 6]; assert c[i] == c[6..8][i - 6]; }
      }
    }
  }

  /** Formatting a whole-second date-time and reading it back gives the same date-time. */
  lemma StampRoundTrip(dt: DateTime)
    requires Valid(dt) && dt.time.microsecond == 0
    ensures ParseStamp(FormatStamp(dt)) == Some(dt)
  {
    var s := FormatStamp(dt);
    var y := dt.date.year;
    Field2OfPad2(s, 0, y / 100);
    Field2OfPad2(s, 2, y % 100);
    Field2OfPad2(s, 5, dt.date.month);
    Field2OfPad2(s, 8, dt.date.day);
    ClockRoundTrip(dt.time);
  }

  /** A timestamp text is its digit pairs with the separators between them. */
  lemma StampPieces(s: string)
    requires StampShape(s)
    ensures s == s[0..2] + s[2..4] + "-" + s[5..7] + "-" + s[8..10] + " " + s[11..]
  {
    var r := s[0..2] + s[2..4] + "-" + s[5..7] + "-" + s[8..10] + " " + s[11..];
    assert |r| == 19;
    forall i | 0 <= i < 19 ensures r[i] == s[i] {
    }
  }

  /** A timestamp text that reads as a date-time is that date-time's formatting. */
  lemma StampReadBack(s: string)
    requires StampShape(s) && ParseStamp(s).Some?
    ensures FormatStamp(ParseStamp(s).value) == s
  {
    var dt := ParseStamp(s).value;
    Pad2OfField2(s, 0);
    Pad2OfField2(s, 2);
    Pad2OfField2(s, 5);
    Pad2OfField2(s, 8);
    ClockReadBack(s[11..]);
    assert dt.date.year / 100 == Field2(s, 0) && dt.date.year % 100 == Field2(s, 2);
    StampPieces(s);
  }

  /** strptime rejects month 13. */
  lemma MonthThirteenDropped()
    ensures ParseStamp("2023-13-01 08:00:00") == None
  {
  }

  /** strptime rejects 30 February of a common year. */
  lemma FebruaryThirtiethDropped()
    ensures ParseStamp("2023-02-30 08:00:00") == None
  {
  }

  /** strptime rejects hour 24. */
  lemma HourTwentyFourDropped()
    ensures ParseStamp("2023-05-01 24:00:00") == None
  {
  }

  /** strptime's pattern admits second 60, but the date-time it builds is rejected. */
  lemma SecondSixtyDropped()
    ensures ParseStamp("2023-05-01 08:00:60") == None
  {
  }

  /** 29 February of a leap year is a real date. */
  lemma LeapDayKept()
    ensures ParseStamp("2024-02-29 08:00:00") == Some(DateTime(Date(2024, 2, 29), Time(8, 0, 0, 0)))
  {
  }

  // ---------------------------------------------------------------------
  // Candidates

  /** What one match contributes to `all_times`. */
  datatype Candidate =
    | Target(at: DateTime)   // appended to `all_times`
    | Dropped                // ValueError, caught and skipped
    | Overflow               // OverflowError, which escapes the loop

  /** The announced wait in microseconds: `timedelta(seconds = WHOLE.FRACTION)`. */
  function WaitMicros(whole: string, fraction: string): nat
    requires AllDigits(whole) && AllDigits(fraction)
  {
    Value(whole) * MicrosPerSecond + FractionMicros(fraction)
  }

  /** A wait line: its timestamp plus the announced seconds. */
  function WaitCandidate(a: Announcement): (c: Candidate)
    requires WellFormed(WaitDispatch, a)
    ensures c.Target? ==> Valid(c.at)
  {
    match ParseStamp(a.stamp)
    case None => Dropped
    case Some(t) =>
      match AddMicros(t, WaitMicros(a.detail.whole, a.detail.fraction))
      case None => Overflow
      case Some(n) => Target(n)
  }

  /**
   * A wait match is dropped exactly when its timestamp is invalid; otherwise
   * its target is the timestamp plus the wait, to the microsecond, or it
   * overflows exactly when that sum is past the last representable instant.
   */
  lemma WaitCandidateIsStampPlusWait(a: Announcement)
    requires WellFormed(WaitDispatch, a)
    ensures WaitCandidate(a) == Dropped <==> ParseStamp(a.stamp).None?
    ensures WaitCandidate(a).Target? ==>
      ToMicros(WaitCandidate(a).at)
      == ToMicros(ParseStamp(a.stamp).value) + WaitMicros(a.detail.whole, a.detail.fraction)
    ensures WaitCandidate(a) == Overflow <==>
      (ParseStamp(a.stamp).Some? &&
       ToMicros(ParseStamp(a.stamp).value) + WaitMicros(a.detail.whole, a.detail.fraction) >= MicrosLimit)
  {
  }

  /** A rest line: its timestamp's date combined with the resume clock time. */
  function RestCandidate(a: Announcement): (c: Candidate)
    requires a.detail.ResumeAt? && StampShape(a.stamp) && ClockShape(a.detail.clock)
    ensures c.Target? ==> Valid(c.at)
  {
    match ParseStamp(a.stamp)
    case None => Dropped
    case Some(t) =>
      match ParseClock(a.detail.clock)
      case None => Dropped
      case Some(clock) => Target(DateTime(t.date, clock))
  }

  /**
   * A rest match never overflows; it is kept exactly when both its
   * timestamp and its resume time are valid, and then its target is the
   * timestamp's date at the resume time, with no roll-over to the next day:
   * a resume time earlier in the day than the timestamp gives a target
   * before the timestamp.
   */
  lemma RestCandidateIsSameDay(a: Announcement)
    requires a.detail.ResumeAt? && StampShape(a.stamp) && ClockShape(a.detail.clock)
    ensures RestCandidate(a) != Overflow
    ensures RestCandidate(a).Target? <==> ParseStamp(a.stamp).Some? && ParseClock(a.detail.clock).Some?
    ensures RestCandidate(a).Target? ==>
      RestCandidate(a).at == DateTime(ParseStamp(a.stamp).value.date, ParseClock(a.detail.clock).value)
    ensures RestCandidate(a).Target? && LexBefore(RestCandidate(a).at, ParseStamp(a.stamp).value)
            ==> Before(RestCandidate(a).at, ParseStamp(a.stamp).value)
  {
    if RestCandidate(a).Target? {
      LexBeforeIffEarlier(RestCandidate(a).at, ParseStamp(a.stamp).value);
    }
  }

  function CandidateOf(f: Family, a: Announcement): Candidate
    requires WellFormed(f, a)
  {
    if f == WaitDispatch then WaitCandidate(a) else RestCandidate(a)
  }

  predicate WellTargeted(c: Candidate) {
    c.Target? ==> Valid(c.at)
  }

  /** The candidates of a sequence of matches, in order. */
  function Candidates(f: Family, ms: seq<Announcement>): seq<Candidate>
    requires forall i :: 0 <= i < |ms| ==> WellFormed(f, ms[i])
  {
    seq(|ms|, i requires 0 <= i < |ms| => CandidateOf(f, ms[i]))
  }

  /** The times a loop over the candidates appends to `all_times`. */
  function Targets(cs: seq<Candidate>): seq<DateTime> {
    if cs == [] then []
    else
      var last := cs[|cs| - 1];
      Targets(cs[..|cs| - 1]) + (if last.Target? then [last.at] else [])
  }

  /** `all_times` holds exactly the times of the `Target` candidates. */
  lemma {:induction false} TargetsMember(cs: seq<Candidate>)
    ensures forall t :: t in Targets(cs) <==> Target(t) in cs
  {
    if cs != [] {
      var prefix := cs[..|cs| - 1];
      TargetsMember(prefix);
      assert cs == prefix + [cs[|cs| - 1]];
    }
  }

  lemma {:induction false} TargetsValid(cs: seq<Candidate>)
    requires forall i :: 0 <= i < |cs| ==> WellTargeted(cs[i])
    ensures forall i :: 0 <= i < |Targets(cs)| ==> Valid(Targets(cs)[i])
  {
    TargetsMember(cs);
    forall i | 0 <= i < |Targets(cs)| ensures Valid(Targets(cs)[i]) {
      var t := Targets(cs)[i];
      assert t in Targets(cs);
      var j :| 0 <= j < |cs| && cs[j] == Target(t);
      assert WellTargeted(cs[j]);
    }
  }

  // ---------------------------------------------------------------------
  // max(all_times)

  /**
   * `max(ts)`: the first element no later element is greater than, as
   * Python's `max` keeps the current maximum unless an item compares greater.
   */
  function Latest(ts: seq<DateTime>): (r: Option<DateTime>)
    requires forall i :: 0 <= i < |ts| ==> Valid(ts[i])
    ensures r.None? <==> ts == []
    ensures r.Some? ==> r.value in ts && forall i :: 0 <= i < |ts| ==> ToMicros(ts[i]) <= ToMicros(r.value)
  {
    if ts == [] then None
    else
      var prefix := ts[..|ts| - 1];
      var last := ts[|ts| - 1];
      var m := Latest(prefix);
      assert ts == prefix + [last];
      if m.None? then Some(last)
      else
        LexBeforeIffEarlier(m.value, last);
        if LexBefore(m.value, last) then Some(last) else m
  }

  /** The latest time depends only on which times occur, not on their order or repetition. */
  lemma LatestOfSameTimes(ts: seq<DateTime>, us: seq<DateTime>)
    requires forall i :: 0 <= i < |ts| ==> Valid(ts[i])
    requires forall i :: 0 <= i < |us| ==> Valid(us[i])
    requires forall t :: t in ts <==> t in us
    ensures Latest(ts) == Latest(us)
  {
    var a := Latest(ts);
    var b := Latest(us);
    if ts != [] {
      assert ts[0] in us;
      var i :| 0 <= i < |ts| && ts[i] == b.value;
      var j :| 0 <= j < |us| && us[j] == a.value;
      ToMicrosInjective(a.value, b.value);
    }
  }

  // ---------------------------------------------------------------------
  // parse_next_mowing_time and read_log_file

  /** How `parse_next_mowing_time` ends: by raising OverflowError, or by returning a time or `None`. */
  datatype Outcome = Raised | Returned(next: Option<DateTime>)

  /** The candidates of one pattern's matches in the text, in text order. */
  function CandidatesIn(f: Family, text: string): (cs: seq<Candidate>)
    ensures forall i :: 0 <= i < |cs| ==> WellTargeted(cs[i])
  {
    Candidates(f, Scan(f, text))
  }

  /** `all_times` after the three loops, when none of them raised. */
  function AllTargets(text: string): (ts: seq<DateTime>)
    ensures forall i :: 0 <= i < |ts| ==> Valid(ts[i])
  {
    var w := CandidatesIn(WaitDispatch, text);
    var h := CandidatesIn(RestHoursMinutes, text);
    var m := CandidatesIn(RestMinutes, text);
    TargetsValid(w);
    TargetsValid(h);
    TargetsValid(m);
    Targets(w) + Targets(h) + Targets(m)
  }

  /** A time is a candidate of the text: some match of some pattern yields it. */
  predicate IsCandidate(text: string, t: DateTime) {
    Target(t) in CandidatesIn(WaitDispatch, text)
    || Target(t) in CandidatesIn(RestHoursMinutes, text)
    || Target(t) in CandidatesIn(RestMinutes, text)
  }

  /** What `parse_next_mowing_time(text)` does. */
  function NextMowingTime(text: string): (r: Outcome)
    ensures r.Returned? && r.next.Some? ==> Valid(r.next.value)
  {
    if Overflow in CandidatesIn(WaitDispatch, text) then Raised
    else Returned(Latest(AllTargets(text)))
  }

  /** The times the three loops collect are exactly the candidates of the text. */
  lemma AllTargetsMember(text: string)
    ensures forall t :: t in AllTargets(text) <==> IsCandidate(text, t)
  {
    TargetsMember(CandidatesIn(WaitDispatch, text));
    TargetsMember(CandidatesIn(RestHoursMinutes, text));
    TargetsMember(CandidatesIn(RestMinutes, text));
  }

  /**
   * The extraction raises exactly when some wait match has a valid
   * timestamp whose sum with the announced seconds is past the last
   * representable instant.
   */
  lemma RaisedIffOverflow(text: string)
    ensures var ms := Scan(WaitDispatch, text);
      NextMowingTime(text) == Raised <==>
        exists i :: 0 <= i < |ms| && ParseStamp(ms[i].stamp).Some?
          && ToMicros(ParseStamp(ms[i].stamp).value) + WaitMicros(ms[i].detail.whole, ms[i].detail.fraction) >= MicrosLimit
  {
    OverflowIffSumPastLimit(Scan(WaitDispatch, text));
  }

  lemma OverflowIffSumPastLimit(ms: seq<Announcement>)
    requires forall i :: 0 <= i < |ms| ==> WellFormed(WaitDispatch, ms[i])
    ensures Overflow in Candidates(WaitDispatch, ms) <==>
      exists i :: 0 <= i < |ms| && ParseStamp(ms[i].stamp).Some?
        && ToMicros(ParseStamp(ms[i].stamp).value) + WaitMicros(ms[i].detail.whole, ms[i].detail.fraction) >= MicrosLimit
  {
    var cs := Candidates(WaitDispatch, ms);
    forall i | 0 <= i < |ms|
      ensures cs[i] == Overflow <==>
        (ParseStamp(ms[i].stamp).Some?
         && ToMicros(ParseStamp(ms[i].stamp).value) + WaitMicros(ms[i].detail.whole, ms[i].detail.fraction) >= MicrosLimit)
    {
      WaitCandidateIsStampPlusWait(ms[i]);
    }
  }

  /** Without overflow, the extraction returns `None` exactly when the text has no candidate. */
  lemma NoneIffNoCandidate(text: string)
    ensures NextMowingTime(text) == Returned(None)
            <==> Overflow !in CandidatesIn(WaitDispatch, text) && forall t :: !IsCandidate(text, t)
  {
    AllTargetsMember(text);
    var ts := AllTargets(text);
    if ts != [] {
      assert IsCandidate(text, ts[0]);
    }
  }

  /** A returned time is a candidate of the text, and no candidate is later. */
  lemma ReturnedIsLatestCandidate(text: string, t: DateTime)
    requires NextMowingTime(text) == Returned(Some(t))
    ensures IsCandidate(text, t)
    ensures forall u :: IsCandidate(text, u) ==> Valid(u) && ToMicros(u) <= ToMicros(t)
  {
    AllTargetsMember(text);
    var ts := AllTargets(text);
    forall u | IsCandidate(text, u)
      ensures Valid(u) && ToMicros(u) <= ToMicros(t)
    {
      var i :| 0 <= i < |ts| && ts[i] == u;
    }
  }

  /** Texts with the same lines have the same matches, whatever the order or repetition of the lines. */
  lemma ScanSameLines(f: Family, t1: string, t2: string)
    requires forall l :: l in Lines(t1) <==> l in Lines(t2)
    ensures forall a :: a in Scan(f, t1) <==> a in Scan(f, t2)
  {
    forall a | a in Scan(f, t1) ensures a in Scan(f, t2) {
      ScanIntoSameLines(f, t1, t2, a);
    }
    forall a | a in Scan(f, t2) ensures a in Scan(f, t1) {
      ScanIntoSameLines(f, t2, t1, a);
    }
  }

  lemma ScanIntoSameLines(f: Family, t1: string, t2: string, a: Announcement)
    requires forall l :: l in Lines(t1) ==> l in Lines(t2)
    requires a in Scan(f, t1)
    ensures a in Scan(f, t2)
  {
    ScanLinesMember(f, Lines(t1), a);
    ScanLinesMember(f, Lines(t2), a);
    var i :| 0 <= i < |Lines(t1)| && a in FindAll(f, Lines(t1)[i]);
    assert Lines(t1)[i] in Lines(t2);
    var j :| 0 <= j < |Lines(t2)| && Lines(t2)[j] == Lines(t1)[i];
  }

  /** Sequences with the same matches have the same candidates. */
  lemma CandidatesOfSameMatches(f: Family, ms: seq<Announcement>, ns: seq<Announcement>)
    requires forall i :: 0 <= i < |ms| ==> WellFormed(f, ms[i])
    requires forall i :: 0 <= i < |ns| ==> WellFormed(f, ns[i])
    requires forall a :: a in ms <==> a in ns
    ensures forall c :: c in Candidates(f, ms) <==> c in Candidates(f, ns)
  {
    forall c | c in Candidates(f, ms) ensures c in Candidates(f, ns) {
      var i :| 0 <= i < |ms| && Candidates(f, ms)[i] == c;
      assert ms[i] in ns;
      var j :| 0 <= j < |ns| && ns[j] == ms[i];
      assert Candidates(f, ns)[j] == c;
    }
    forall c | c in Candidates(f, ns) ensures c in Candidates(f, ms) {
      var j :| 0 <= j < |ns| && Candidates(f, ns)[j] == c;
      assert ns[j] in ms;
      var i :| 0 <= i < |ms| && ms[i] == ns[j];
      assert Candidates(f, ms)[i] == c;
    }
  }

  lemma CandidatesInSameLines(f: Family, t1: string, t2: string)
    requires forall l :: l in Lines(t1) <==> l in Lines(t2)
    ensures forall c :: c in CandidatesIn(f, t1) <==> c in CandidatesIn(f, t2)
  {
    ScanSameLines(f, t1, t2);
    CandidatesOfSameMatches(f, Scan(f, t1), Scan(f, t2));
  }

  /**
   * The next mowing time does not depend on where in the log an
   * announcement sits, nor on how often it is repeated: texts with the same
   * lines give the same result.
   */
  lemma SameLinesSameNextMowingTime(t1: string, t2: string)
    requires forall l :: l in Lines(t1) <==> l in Lines(t2)
    ensures NextMowingTime(t1) == NextMowingTime(t2)
  {
    CandidatesInSameLines(WaitDispatch, t1, t2);
    assert Overflow in CandidatesIn(WaitDispatch, t1) <==> Overflow in CandidatesIn(WaitDispatch, t2);
    SameLinesSameTargets(t1, t2);
    LatestOfSameTimes(AllTargets(t1), AllTargets(t2));
  }

  lemma SameLinesSameTargets(t1: string, t2: string)
    requires forall l :: l in Lines(t1) <==> l in Lines(t2)
    ensures forall t :: t in AllTargets(t1) <==> t in AllTargets(t2)
  {
    CandidatesInSameLines(WaitDispatch, t1, t2);
    CandidatesInSameLines(RestHoursMinutes, t1, t2);
    CandidatesInSameLines(RestMinutes, t1, t2);
    AllTargetsMember(t1);
    AllTargetsMember(t2);
  }

  lemma ReturnedIsCandidate(text: string)
    ensures NextMowingTime(text).Returned? && NextMowingTime(text).next.Some?
            ==> IsCandidate(text, NextMowingTime(text).next.value)
  {
    if NextMowingTime(text).Returned? && NextMowingTime(text).next.Some? {
      ReturnedIsLatestCandidate(text, NextMowingTime(text).next.value);
    }
  }

  lemma TargetsStep(cs: seq<Candidate>, i: nat)
    requires i < |cs|
    ensures cs[..i + 1] == cs[..i] + [cs[i]]
    ensures Targets(cs[..i + 1]) == Targets(cs[..i]) + (if cs[i].Target? then [cs[i].at] else [])
  {
    assert cs[..i + 1] == cs[..i] + [cs[i]];
    assert cs[..i + 1][..i] == cs[..i];
  }

  /**
   * The wait-pattern loop of `parse_next_mowing_time`: every match with a
   * valid timestamp appends timestamp plus wait to `all_times`; `None` when
   * an addition overflows, where the OverflowError leaves the loop.
   */
  method CollectWaitTargets(waits: seq<Announcement>) returns (r: Option<seq<DateTime>>)
    requires forall i :: 0 <= i < |waits| ==> WellFormed(WaitDispatch, waits[i])
    ensures r.None? <==> Overflow in Candidates(WaitDispatch, waits)
    ensures r.Some? ==> r.value == Targets(Candidates(WaitDispatch, waits))
  {
    var allTimes: seq<DateTime> := [];
    ghost var w := Candidates(WaitDispatch, waits);
    for i := 0 to |waits|
      invariant allTimes == Targets(w[..i])
      invariant Overflow !in w[..i]
    {
      var c := WaitCandidate(waits[i]);
      assert c == w[i];
      TargetsStep(w, i);
      if c == Overflow {
        return None;
      }
      if c.Target? {
        allTimes := allTimes + [c.at];
      }
    }
    assert w[..|waits|] == w;
    return Some(allTimes);
  }

  /**
   * One of the two rest-pattern loops of `parse_next_mowing_time` (they are
   * the same loop over different matches): every match whose timestamp and
   * resume time are valid appends its target to `all_times`.
   */
  method AppendRestTargets(f: Family, rests: seq<Announcement>, allTimes: seq<DateTime>) returns (r: seq<DateTime>)
    requires f != WaitDispatch && forall i :: 0 <= i < |rests| ==> WellFormed(f, rests[i])
    ensures r == allTimes + Targets(Candidates(f, rests))
  {
    r := allTimes;
    ghost var cs := Candidates(f, rests);
    for i := 0 to |rests|
      invariant r == allTimes + Targets(cs[..i])
    {
      var c := RestCandidate(rests[i]);
      assert c == cs[i];
      TargetsStep(cs, i);
      if c.Target? {
        r := r + [c.at];
      }
    }
    assert cs[..|rests|] == cs;
  }

  lemma AllTargetsInOrder(text: string)
    ensures AllTargets(text) == Targets(CandidatesIn(WaitDispatch, text)) + Targets(CandidatesIn(RestHoursMinutes, text))
                                + Targets(CandidatesIn(RestMinutes, text))
  {
  }

  /** `parse_next_mowing_time(log_content)`. */
  method ParseNextMowingTime(text: string) returns (r: Outcome)
    ensures r == NextMowingTime(text)
  {
    var collected := CollectWaitTargets(Scan(WaitDispatch, text));
    if collected.None? {
      return Raised;
    }
    var allTimes := collected.value;
    allTimes := AppendRestTargets(RestHoursMinutes, Scan(RestHoursMinutes, text), allTimes);
    allTimes := AppendRestTargets(RestMinutes, Scan(RestMinutes, text), allTimes);
    AllTargetsInOrder(text);
    if |allTimes| > 0 {
      return Returned(Latest(allTimes));
    }
    return Returned(None);
  }

  /**
   * `read_log_file()`, given the file's content or `None` when the file is
   * missing or cannot be read: any exception, the OverflowError of a wait
   * amount included, gives `None`.
   */
  function LogFileTarget(log: Option<string>): (r: Option<DateTime>)
    ensures r.Some? ==> Valid(r.value) && log.Some? && IsCandidate(log.value, r.value)
    ensures log.None? ==> r.None?
  {
    match log
    case None => None
    case Some(text) =>
      ReturnedIsCandidate(text);
      match NextMowingTime(text)
      case Raised => None
      case Returned(next) => next
  }

  method ReadLogFile(log: Option<string>) returns (r: Option<DateTime>)
    ensures r == LogFileTarget(log)
  {
    if log.None? {
      return None;
    }
    var outcome := ParseNextMowingTime(log.value);
    if outcome.Raised? {
      return None;
    }
    return outcome.next;
  }
}
