/**
 * Hand-written recognisers for the three log-line patterns of the mower
 * timer, with the semantics of Python's `re.findall`:
 *
 *   wait:          STAMP,\d+ .*?: 等待跑单 (\d+\.?\d*) 秒
 *   rest (h + m):  STAMP,\d+ .*?: 休息 \d+ 小时 \d+ 分钟，到(CLOCK)开始工作
 *   rest (m):      STAMP,\d+ .*?: 休息 \d+ 分钟，到(CLOCK)开始工作
 *
 * where STAMP is `(\d{4}-\d{2}-\d{2} \d{2}:\d{2}:\d{2})` and CLOCK is
 * `\d{2}:\d{2}:\d{2}`. No part of a pattern matches a newline (`.` does
 * not), so every match lies inside one line and the text is scanned line
 * by line. Within a line the scan is exact: the leftmost match is taken,
 * the lazy `.*?` stops at the first position where the rest of the
 * pattern matches, and the scan resumes where the previous match ended.
 */
module LogPatterns {
  import opened Optional
  import opened Digits

  datatype Family = WaitDispatch | RestHoursMinutes | RestMinutes

  /** The captured groups of one match: the timestamp text and the family's second group. */
  datatype Announcement = Announcement(stamp: string, detail: Detail)

  datatype Detail =
    | Seconds(whole: string, fraction: string)  // `\d+\.?\d*` split at the point
    | ResumeAt(clock: string)                    // `\d{2}:\d{2}:\d{2}`

  const WaitMarker: string := ": 等待跑单 "
  const SecondsWord: string := " 秒"
  const RestMarker: string := ": 休息 "
  const HoursWord: string := " 小时 "
  const MinutesWord: string := " 分钟，到"
  const WorkWord: string := "开始工作"

  /** `\d{4}-\d{2}-\d{2} \d{2}:\d{2}:\d{2}` */
  predicate StampShape(s: string) {
    |s| == 19
    && IsDigit(s[0]) && IsDigit(s[1]) && IsDigit(s[2]) && IsDigit(s[3]) && s[4] == '-'
    && IsDigit(s[5]) && IsDigit(s[6]) && s[7] == '-'
    && IsDigit(s[8]) && IsDigit(s[9]) && s[10] == ' '
    && ClockShape(s[11..])
  }

  /** `\d{2}:\d{2}:\d{2}` */
  predicate ClockShape(s: string) {
    |s| == 8
    && IsDigit(s[0]) && IsDigit(s[1]) && s[2] == ':'
    && IsDigit(s[3]) && IsDigit(s[4]) && s[5] == ':'
    && IsDigit(s[6]) && IsDigit(s[7])
  }

  /** What the second group of family `f` captures. */
  predicate DetailFits(f: Family, d: Detail) {
    match d
    case Seconds(w, fr) => f == WaitDispatch && |w| >= 1 && AllDigits(w) && AllDigits(fr)
    case ResumeAt(c) => f != WaitDispatch && ClockShape(c)
  }

  /** What a match of family `f` captures. */
  predicate WellFormed(f: Family, a: Announcement) {
    StampShape(a.stamp) && DetailFits(f, a.detail)
  }

  predicate HasAt(l: string, i: nat, lit: string) {
    i + |lit| <= |l| && l[i..i + |lit|] == lit
  }

  /** The end of the run of digits starting at `i` (greedy `\d*`). */
  function DigitRunEnd(l: string, i: nat): (j: nat)
    requires i <= |l|
    ensures i <= j <= |l|
    ensures j == |l| || !IsDigit(l[j])
    decreases |l| - i
  {
    if i < |l| && IsDigit(l[i]) then DigitRunEnd(l, i + 1) else i
  }

  /** The run is all digits. */
  lemma {:induction false} DigitRun(l: string, i: nat)
    requires i <= |l|
    ensures AllDigits(l[i..DigitRunEnd(l, i)])
    decreases |l| - i
  {
    if i < |l| && IsDigit(l[i]) {
      var j := DigitRunEnd(l, i + 1);
      DigitRun(l, i + 1);
      assert l[i..j] == [l[i]] + l[i + 1..j];
    }
  }

  /**
   * `STAMP,\d+ ` at position `p`; the result is where `.*?` starts. The
   * `\d+` must be the whole run of digits, since a space follows it.
   */
  function PrefixEnd(l: string, p: nat): (r: Option<nat>)
    ensures r.Some? ==> p + 21 < r.value <= |l| && StampShape(l[p..p + 19])
  {
    if p + 20 <= |l| && StampShape(l[p..p + 19]) && l[p + 19] == ',' then
      var j := DigitRunEnd(l, p + 20);
      if j > p + 20 && j < |l| && l[j] == ' ' then Some(j + 1) else None
    else None
  }

  /** The part of family `f`'s pattern after `.*?`, tried at position `q`. */
  function TailAt(f: Family, l: string, q: nat): (r: Option<(Detail, nat)>)
    ensures r.Some? ==> q < r.value.1 <= |l| && DetailFits(f, r.value.0)
  {
    match f
    case WaitDispatch => WaitTail(l, q)
    case RestHoursMinutes => RestHoursTailAt(l, q)
    case RestMinutes => RestMinutesTailAt(l, q)
  }

  /** `: 休息 \d+ 小时 \d+ 分钟，到(CLOCK)开始工作` at position `q`. */
  function RestHoursTailAt(l: string, q: nat): (r: Option<(Detail, nat)>)
    ensures r.Some? ==> q < r.value.1 <= |l| && DetailFits(RestHoursMinutes, r.value.0)
  {
    if HasAt(l, q, RestMarker) then HoursFrom(l, q + |RestMarker|) else None
  }

  /** `: 休息 \d+ 分钟，到(CLOCK)开始工作` at position `q`. */
  function RestMinutesTailAt(l: string, q: nat): (r: Option<(Detail, nat)>)
    ensures r.Some? ==> q < r.value.1 <= |l| && DetailFits(RestMinutes, r.value.0)
  {
    if HasAt(l, q, RestMarker) then MinutesFrom(l, q + |RestMarker|) else None
  }

  /** `\d+ 小时 \d+ 分钟，到(CLOCK)开始工作` at position `i`. */
  function HoursFrom(l: string, i: nat): (r: Option<(Detail, nat)>)
    ensures r.Some? ==> i < r.value.1 <= |l| && r.value.0.ResumeAt? && ClockShape(r.value.0.clock)
  {
    if i <= |l| then
      var j := DigitRunEnd(l, i);
      if j > i && HasAt(l, j, HoursWord) then MinutesFrom(l, j + |HoursWord|) else None
    else None
  }

  /** `\d+ 分钟，到(CLOCK)开始工作` at position `i`. */
  function MinutesFrom(l: string, i: nat): (r: Option<(Detail, nat)>)
    ensures r.Some? ==> i < r.value.1 <= |l| && r.value.0.ResumeAt? && ClockShape(r.value.0.clock)
  {
    if i <= |l| then
      var k := DigitRunEnd(l, i);
      if k > i && HasAt(l, k, MinutesWord) then ClockTail(l, k + |MinutesWord|) else None
    else None
  }

  /** `: 等待跑单 (\d+\.?\d*) 秒` at position `q`. */
  function WaitTail(l: string, q: nat): (r: Option<(Detail, nat)>)
    ensures r.Some? ==> q < r.value.1 <= |l| && DetailFits(WaitDispatch, r.value.0)
  {
    if HasAt(l, q, WaitMarker) then AmountFrom(l, q + |WaitMarker|) else None
  }

  /** `(\d+\.?\d*) 秒` at position `i`: the digits are taken greedily, as nothing else lets ` 秒` follow. */
  function AmountFrom(l: string, i: nat): (r: Option<(Detail, nat)>)
    ensures r.Some? ==> i < r.value.1 <= |l| && DetailFits(WaitDispatch, r.value.0)
  {
    if i <= |l| then
      var j := DigitRunEnd(l, i);
      DigitRun(l, i);
      if j == i then None
      else if j < |l| && l[j] == '.' then FractionFrom(l, i, j)
      else if HasAt(l, j, SecondsWord) then Some((Seconds(l[i..j], []), j + |SecondsWord|))
      else None
    else None
  }

  /** The digits after the point at `j` and the closing ` 秒`. */
  function FractionFrom(l: string, i: nat, j: nat): (r: Option<(Detail, nat)>)
    requires i < j < |l| && AllDigits(l[i..j])
    ensures r.Some? ==> i < r.value.1 <= |l| && DetailFits(WaitDispatch, r.value.0)
  {
    var k := DigitRunEnd(l, j + 1);
    DigitRun(l, j + 1);
    if HasAt(l, k, SecondsWord) then Some((Seconds(l[i..j], l[j + 1..k]), k + |SecondsWord|)) else None
  }

  /** `(\d{2}:\d{2}:\d{2})开始工作` at position `c`. */
  function ClockTail(l: string, c: nat): (r: Option<(Detail, nat)>)
    ensures r.Some? ==> c < r.value.1 <= |l| && r.value.0.ResumeAt? && ClockShape(r.value.0.clock)
  {
    if c + 8 <= |l| && ClockShape(l[c..c + 8]) && HasAt(l, c + 8, WorkWord) then
      Some((ResumeAt(l[c..c + 8]), c + 8 + |WorkWord|))
    else None
  }

  /** The lazy `.*?`: the first position from `q` on where the tail matches. */
  function LazyTail(f: Family, l: string, q: nat): (r: Option<(Detail, nat)>)
    ensures r.Some? ==> q < r.value.1 <= |l| && DetailFits(f, r.value.0)
    decreases |l| - q
  {
    if q >= |l| then None
    else
      match TailAt(f, l, q)
      case Some(t) => Some(t)
      case None => LazyTail(f, l, q + 1)
  }

  /** The match of family `f` starting exactly at `p`, with the position where it ends. */
  function MatchAt(f: Family, l: string, p: nat): (r: Option<(Announcement, nat)>)
    ensures r.Some? ==> p < r.value.1 <= |l| && WellFormed(f, r.value.0)
  {
    match PrefixEnd(l, p)
    case None => None
    case Some(m) =>
      match LazyTail(f, l, m)
      case None => None
      case Some((d, e)) => Some((Announcement(l[p..p + 19], d), e))
  }

  /** `re.findall` over one line, from position `pos` on. */
  function FindAllFrom(f: Family, l: string, pos: nat): (r: seq<Announcement>)
    ensures forall i :: 0 <= i < |r| ==> WellFormed(f, r[i])
    decreases |l| - pos
  {
    if pos >= |l| then []
    else
      match MatchAt(f, l, pos)
      case Some((a, e)) => [a] + FindAllFrom(f, l, e)
      case None => FindAllFrom(f, l, pos + 1)
  }

  function FindAll(f: Family, l: string): (r: seq<Announcement>)
    ensures forall i :: 0 <= i < |r| ==> WellFormed(f, r[i])
  {
    FindAllFrom(f, l, 0)
  }

  // ---------------------------------------------------------------------
  // Lines

  /** The text cut at every newline; a text without newline is one line. */
  function Lines(text: string): (ls: seq<string>)
    ensures |ls| >= 1 && forall i :: 0 <= i < |ls| ==> '\n' !in ls[i]
  {
    if text == [] then [[]]
    else
      var rest := Lines(text[1..]);
      if text[0] == '\n' then [[]] + rest
      else [[text[0]] + rest[0]] + rest[1..]
  }

  /** The lines put back together, a newline between each two. */
  function Join(ls: seq<string>): string
    requires |ls| >= 1
  {
    if |ls| == 1 then ls[0] else ls[0] + "\n" + Join(ls[1..])
  }

  /** Cutting a text into lines loses nothing. */
  lemma {:induction false} JoinLines(text: string)
    ensures Join(Lines(text)) == text
  {
    if text != [] {
      var rest := Lines(text[1..]);
      JoinLines(text[1..]);
      if text[0] != '\n' {
        if |rest| == 1 {
        } else {
          assert Join(rest) == rest[0] + "\n" + Join(rest[1..]);
        }
      }
    }
  }

  /** Lines without newlines are exactly the lines of the text they make up. */
  lemma {:induction false} LinesJoin(ls: seq<string>)
    requires |ls| >= 1 && forall i :: 0 <= i < |ls| ==> '\n' !in ls[i]
    ensures Lines(Join(ls)) == ls
    decreases |ls|, |ls[0]|
  {
    var text := Join(ls);
    if ls[0] == [] {
      if |ls| > 1 {
        var rest := ls[1..];
        LinesJoin(rest);
        assert text == "\n" + Join(rest);
        assert text[0] == '\n' && text[1..] == Join(rest);
        assert Lines(text) == [[]] + Lines(Join(rest));
      }
    } else {
      var c := ls[0][0];
      var w := ls[0][1..];
      assert ls[0] == [c] + w;
      var tail := [w] + ls[1..];
      assert tail[1..] == ls[1..];
      LinesJoin(tail);
      assert text == [c] + Join(tail) by {
        if |ls| > 1 {
          assert Join(tail) == w + "\n" + Join(ls[1..]);
        }
      }
      assert text[0] == c && text[1..] == Join(tail);
      assert Lines(text) == [[c] + w] + ls[1..];
    }
  }

  /** All matches of family `f` in the lines, in text order. */
  function ScanLines(f: Family, ls: seq<string>): (r: seq<Announcement>)
    ensures forall i :: 0 <= i < |r| ==> WellFormed(f, r[i])
  {
    if ls == [] then [] else FindAll(f, ls[0]) + ScanLines(f, ls[1..])
  }

  /** `re.findall(pattern, text)` for the pattern of family `f`. */
  function Scan(f: Family, text: string): (r: seq<Announcement>)
    ensures forall i :: 0 <= i < |r| ==> WellFormed(f, r[i])
  {
    ScanLines(f, Lines(text))
  }

  /** A match is in the scan of some lines exactly when it is a match of one of them. */
  lemma {:induction false} ScanLinesMember(f: Family, ls: seq<string>, a: Announcement)
    ensures a in ScanLines(f, ls) <==> exists i :: 0 <= i < |ls| && a in FindAll(f, ls[i])
  {
    if ls != [] {
      ScanLinesMember(f, ls[1..], a);
      if a in ScanLines(f, ls) && a !in FindAll(f, ls[0]) {
        var i :| 0 <= i < |ls[1..]| && a in FindAll(f, ls[1..][i]);
        assert a in FindAll(f, ls[i + 1]);
      }
      if exists i :: 0 <= i < |ls| && a in FindAll(f, ls[i]) {
        var i :| 0 <= i < |ls| && a in FindAll(f, ls[i]);
        if i > 0 {
          assert ls[1..][i - 1] == ls[i];
        }
      }
    }
  }

  // ---------------------------------------------------------------------
  // Recognising well-formed announcement lines

  /** The text before `.*?`'s stretch of metadata: `STAMP,MILLIS `. */
  function Header(stamp: string, millis: string): string {
    stamp + "," + millis + " "
  }

  /** `STAMP,MILLIS META: 等待跑单 SECONDS 秒`, with or without a fractional part. */
  function WaitLine(stamp: string, millis: string, meta: string, whole: string, fraction: Option<string>): string {
    Concat(WaitParts(stamp, millis, meta, whole, fraction))
  }

  function WaitParts(stamp: string, millis: string, meta: string, whole: string, fraction: Option<string>): seq<string> {
    [Header(stamp, millis), meta, WaitMarker, whole, Point(fraction), SecondsWord]
  }

  /** The optional `.FRACTION` of a wait amount. */
  function Point(fraction: Option<string>): string {
    if fraction.Some? then "." + fraction.value else ""
  }

  /** `STAMP,MILLIS META: 休息 H 小时 M 分钟，到CLOCK开始工作` */
  function RestHoursLine(stamp: string, millis: string, meta: string, hours: string, minutes: string, clock: string): string {
    Concat(RestHoursParts(stamp, millis, meta, hours, minutes, clock))
  }

  /** The parts of an hours-and-minutes rest line. */
  function RestHoursParts(stamp: string, millis: string, meta: string, hours: string, minutes: string, clock: string): seq<string> {
    [Header(stamp, millis), meta, RestMarker, hours, HoursWord, minutes, MinutesWord, clock, WorkWord]
  }

  /** `STAMP,MILLIS META: 休息 M 分钟，到CLOCK开始工作` */
  function RestMinutesLine(stamp: string, millis: string, meta: string, minutes: string, clock: string): string {
    Concat(RestMinutesParts(stamp, millis, meta, minutes, clock))
  }

  function RestMinutesParts(stamp: string, millis: string, meta: string, minutes: string, clock: string): seq<string> {
    [Header(stamp, millis), meta, RestMarker, minutes, MinutesWord, clock, WorkWord]
  }

  function Concat(parts: seq<string>): string {
    if parts == [] then [] else parts[0] + Concat(parts[1..])
  }

  /** Where part `n` starts in `Concat(parts)`. */
  function Offset(parts: seq<string>, n: nat): nat
    requires n <= |parts|
  {
    if n == 0 then 0 else Offset(parts, n - 1) + |parts[n - 1]|
  }

  lemma {:induction false} OffsetTail(parts: seq<string>, n: nat)
    requires 1 <= n <= |parts|
    ensures Offset(parts, n) == |parts[0]| + Offset(parts[1..], n - 1)
  {
    if n > 1 {
      OffsetTail(parts, n - 1);
      assert parts[1..][n - 2] == parts[n - 1];
    }
  }

  /** `Concat(parts)` from the start of part `n` on is the concatenation of the parts from `n` on. */
  lemma {:induction false} ConcatFrom(parts: seq<string>, n: nat)
    requires n <= |parts|
    ensures Offset(parts, n) <= |Concat(parts)|
    ensures Concat(parts)[Offset(parts, n)..] == Concat(parts[n..])
  {
    if n > 0 {
      OffsetTail(parts, n);
      ConcatFrom(parts[1..], n - 1);
      assert parts[1..][n - 1..] == parts[n..];
      var c := Concat(parts);
      assert c == parts[0] + Concat(parts[1..]);
      assert c[|parts[0]|..] == Concat(parts[1..]);
    }
  }

  /** Part `n` sits at its offset. */
  lemma PartAt(parts: seq<string>, n: nat)
    requires n < |parts|
    ensures Offset(parts, n) + |parts[n]| <= |Concat(parts)|
    ensures Concat(parts)[Offset(parts, n)..Offset(parts, n) + |parts[n]|] == parts[n]
  {
    ConcatFrom(parts, n);
    ConcatFront(parts[n..]);
    var c, o := Concat(parts), Offset(parts, n);
    assert c[o..o + |parts[n]|] == c[o..][..|parts[n]|];
  }

  /** The concatenation starts with the first part. */
  lemma ConcatFront(parts: seq<string>)
    requires |parts| > 0
    ensures |parts[0]| <= |Concat(parts)| && Concat(parts)[..|parts[0]|] == parts[0]
  {
    var c := Concat(parts);
    assert c == parts[0] + Concat(parts[1..]);
  }

  predicate Digits1(s: string) {
    |s| >= 1 && AllDigits(s)
  }

  lemma {:induction false} DigitRunEndAt(l: string, i: nat, n: nat)
    requires i + n <= |l| && AllDigits(l[i..i + n]) && (i + n == |l| || !IsDigit(l[i + n]))
    ensures DigitRunEnd(l, i) == i + n
    decreases n
  {
    if n > 0 {
      assert IsDigit(l[i..i + n][0]);
      assert l[i + 1..i + n] == l[i..i + n][1..];
      DigitRunEndAt(l, i + 1, n - 1);
    }
  }

  /** Every tail starts with `": "`, so the lazy search skips stretches where none starts. */
  lemma {:induction false} LazySkip(f: Family, l: string, q: nat, q': nat)
    requires q <= q' <= |l| && forall k :: q <= k < q' ==> !TailStartAt(l, k)
    ensures LazyTail(f, l, q) == LazyTail(f, l, q')
    decreases q' - q
  {
    if q < q' {
      MarkerStartsTail(l, q, WaitMarker);
      MarkerStartsTail(l, q, RestMarker);
      LazySkip(f, l, q + 1, q');
    }
  }

  /** A tail's marker begins with `": "`. */
  lemma MarkerStartsTail(l: string, q: nat, marker: string)
    requires |marker| >= 2 && marker[0] == ':' && marker[1] == ' '
    ensures HasAt(l, q, marker) ==> TailStartAt(l, q)
  {
    if HasAt(l, q, marker) {
      assert l[q] == l[q..q + |marker|][0] && l[q + 1] == l[q..q + |marker|][1];
    }
  }

  lemma HeaderPrefix(l: string, stamp: string, millis: string)
    requires StampShape(stamp) && Digits1(millis)
    requires |l| > 21 + |millis| && l[..21 + |millis|] == Header(stamp, millis)
    ensures PrefixEnd(l, 0) == Some(21 + |millis|) && l[0..19] == stamp
  {
    var n := |millis|;
    var h := Header(stamp, millis);
    assert h[0..19] == stamp && h[19] == ',' && h[20..20 + n] == millis && h[20 + n] == ' ';
    assert l[0..19] == h[0..19];
    assert l[20..20 + n] == h[20..20 + n];
    DigitRunEndAt(l, 20, n);
  }

  /** The header at the front of a line built from parts: the prefix of a match ends right after it. */
  lemma LineHeader(parts: seq<string>, stamp: string, millis: string)
    requires |parts| >= 3 && parts[0] == Header(stamp, millis) && |parts[2]| > 0
    requires StampShape(stamp) && Digits1(millis)
    ensures var l := Concat(parts);
      PrefixEnd(l, 0) == Some(|Header(stamp, millis)|) && |l| >= 19 && l[0..19] == stamp
  {
    HeaderInLine(parts, stamp, millis);
    HeaderPrefix(Concat(parts), stamp, millis);
  }

  lemma HeaderInLine(parts: seq<string>, stamp: string, millis: string)
    requires |parts| >= 3 && parts[0] == Header(stamp, millis) && |parts[2]| > 0 && |stamp| == 19
    ensures var l := Concat(parts);
      |parts[0]| == 21 + |millis| && |l| > 21 + |millis| && l[..21 + |millis|] == Header(stamp, millis)
  {
    assert Offset(parts, 1) == |parts[0]|;
    assert Offset(parts, 2) == |parts[0]| + |parts[1]|;
    PartAt(parts, 0);
    PartAt(parts, 2);
  }

  /** `": "`, with which every tail starts, starts at `k`. */
  predicate TailStartAt(s: string, k: nat) {
    k + 1 < |s| && s[k] == ':' && s[k + 1] == ' '
  }

  /** No `": "` starts inside `s`. */
  predicate NoTailStart(s: string) {
    forall k: nat :: k < |s| ==> !TailStartAt(s, k)
  }

  /** Metadata after the header is skipped by the lazy search when no `": "` starts inside it. */
  lemma LineMeta(f: Family, parts: seq<string>, h: nat, meta: string, t: (Detail, nat))
    requires |parts| >= 3 && |parts[0]| == h && parts[1] == meta && NoTailStart(meta)
    requires |parts[2]| > 0 && parts[2][0] == ':'
    requires var l := Concat(parts); h + |meta| < |l| && TailAt(f, l, h + |meta|) == Some(t)
    ensures LazyTail(f, Concat(parts), h) == Some(t)
  {
    MetaInLine(parts, h, meta);
    SkipToTail(f, Concat(parts), h, h + |meta|, t);
  }

  /** The lazy search from `h` finds the tail at `q` when no tail starts in between. */
  lemma SkipToTail(f: Family, l: string, h: nat, q: nat, t: (Detail, nat))
    requires h <= q < |l| && forall k :: h <= k < q ==> !TailStartAt(l, k)
    requires TailAt(f, l, q) == Some(t)
    ensures LazyTail(f, l, h) == Some(t)
  {
    LazySkip(f, l, h, q);
    LazyFound(f, l, q, t);
  }

  /**
   * In the line, no `": "` starts inside the metadata: not within it, and
   * not at its last character, which the colon of the next part follows.
   */
  lemma MetaInLine(parts: seq<string>, m: nat, meta: string)
    requires |parts| >= 3 && |parts[0]| == m && parts[1] == meta && NoTailStart(meta)
    requires |parts[2]| > 0 && parts[2][0] == ':'
    ensures var l := Concat(parts);
      && m + |meta| <= |l|
      && forall k :: m <= k < m + |meta| ==> !TailStartAt(l, k)
  {
    var l := Concat(parts);
    var e := m + |meta|;
    assert Offset(parts, 1) == m;
    assert Offset(parts, 2) == e;
    PartAt(parts, 1);
    PartAt(parts, 2);
    assert l[e] == l[e..e + |parts[2]|][0] == ':';
    forall k | m <= k < e
      ensures !TailStartAt(l, k)
    {
      assert l[k] == l[m..e][k - m] == meta[k - m];
      if k + 1 < e {
        assert l[k + 1] == l[m..e][k + 1 - m] == meta[k + 1 - m];
        assert !TailStartAt(meta, k - m);
      }
    }
  }

  lemma FindAllSingle(f: Family, l: string, a: Announcement)
    requires |l| > 0 && MatchAt(f, l, 0) == Some((a, |l|))
    ensures FindAll(f, l) == [a]
  {
    assert FindAllFrom(f, l, |l|) == [];
    assert FindAllFrom(f, l, 0) == [a] + FindAllFrom(f, l, |l|);
  }

  /** The wait tail with an integral amount: `: 等待跑单 WHOLE 秒` up to the end of the line. */
  lemma WaitTailWhole(l: string, q: nat, whole: string)
    requires Digits1(whole) && q + |WaitMarker| + |whole| + |SecondsWord| == |l|
    requires l[q..q + |WaitMarker|] == WaitMarker
    requires l[q + |WaitMarker|..q + |WaitMarker| + |whole|] == whole
    requires l[q + |WaitMarker| + |whole|..] == SecondsWord
    ensures WaitTail(l, q) == Some((Seconds(whole, []), |l|))
  {
    var i := q + |WaitMarker|;
    var j := i + |whole|;
    assert HasAt(l, q, WaitMarker);
    assert l[j] == SecondsWord[0];
    DigitRunEndAt(l, i, |whole|);
    assert HasAt(l, j, SecondsWord);
    assert AmountFrom(l, i) == Some((Seconds(whole, []), |l|));
  }

  /** The wait tail with a point: `: 等待跑单 WHOLE.FRACTION 秒` up to the end of the line. */
  lemma WaitTailFraction(l: string, q: nat, whole: string, fraction: string)
    requires Digits1(whole) && AllDigits(fraction)
    requires q + |WaitMarker| + |whole| + 1 + |fraction| + |SecondsWord| == |l|
    requires l[q..q + |WaitMarker|] == WaitMarker
    requires l[q + |WaitMarker|..q + |WaitMarker| + |whole|] == whole
    requires l[q + |WaitMarker| + |whole|] == '.'
    requires l[q + |WaitMarker| + |whole| + 1..q + |WaitMarker| + |whole| + 1 + |fraction|] == fraction
    requires l[q + |WaitMarker| + |whole| + 1 + |fraction|..] == SecondsWord
    ensures WaitTail(l, q) == Some((Seconds(whole, fraction), |l|))
  {
    var i := q + |WaitMarker|;
    var j := i + |whole|;
    var k := j + 1 + |fraction|;
    assert HasAt(l, q, WaitMarker);
    DigitRunEndAt(l, i, |whole|);
    assert l[k] == SecondsWord[0];
    DigitRunEndAt(l, j + 1, |fraction|);
    assert HasAt(l, k, SecondsWord);
    assert FractionFrom(l, i, j) == Some((Seconds(whole, fraction), |l|));
    assert AmountFrom(l, i) == FractionFrom(l, i, j);
  }

  /**
   * A line made of a header, metadata in which no `": "` starts, and then a tail that runs
   * to the end of the line has exactly one match, stamped with the header's
   * timestamp.
   */
  lemma RecogniseParts(f: Family, parts: seq<string>, stamp: string, millis: string, meta: string, d: Detail)
    requires |parts| >= 3 && parts[0] == Header(stamp, millis) && parts[1] == meta
    requires |parts[2]| > 0 && parts[2][0] == ':'
    requires StampShape(stamp) && Digits1(millis) && NoTailStart(meta)
    requires var l := Concat(parts);
      |Header(stamp, millis)| + |meta| < |l| && TailAt(f, l, |Header(stamp, millis)| + |meta|) == Some((d, |l|))
    ensures FindAll(f, Concat(parts)) == [Announcement(stamp, d)]
  {
    LineHeader(parts, stamp, millis);
    RecogniseAfterHeader(f, parts, stamp, |Header(stamp, millis)|, meta, d);
  }

  /** The same, once the prefix of a match is known to end right after the first part. */
  lemma RecogniseAfterHeader(f: Family, parts: seq<string>, stamp: string, h: nat, meta: string, d: Detail)
    requires |parts| >= 3 && |parts[0]| == h && parts[1] == meta && NoTailStart(meta)
    requires |parts[2]| > 0 && parts[2][0] == ':'
    requires var l := Concat(parts);
      && PrefixEnd(l, 0) == Some(h) && |l| >= 19 && l[0..19] == stamp
      && h + |meta| < |l| && TailAt(f, l, h + |meta|) == Some((d, |l|))
    ensures FindAll(f, Concat(parts)) == [Announcement(stamp, d)]
  {
    LineMeta(f, parts, h, meta, (d, |Concat(parts)|));
    TailAfterPrefix(f, Concat(parts), stamp, h, d);
  }

  /** The line's only match, when the lazy search past the prefix finds a tail that runs to the end of the line. */
  lemma TailAfterPrefix(f: Family, l: string, stamp: string, m: nat, d: Detail)
    requires PrefixEnd(l, 0) == Some(m) && |l| >= 19 && l[0..19] == stamp
    requires LazyTail(f, l, m) == Some((d, |l|))
    ensures FindAll(f, l) == [Announcement(stamp, d)]
  {
    MatchFound(f, l, m, (d, |l|));
    FindAllSingle(f, l, Announcement(l[0..19], d));
  }

  lemma LazyFound(f: Family, l: string, q: nat, t: (Detail, nat))
    requires q < |l| && TailAt(f, l, q) == Some(t)
    ensures LazyTail(f, l, q) == Some(t)
  {
  }

  lemma MatchFound(f: Family, l: string, m: nat, t: (Detail, nat))
    requires PrefixEnd(l, 0) == Some(m) && LazyTail(f, l, m) == Some(t)
    ensures MatchAt(f, l, 0) == Some((Announcement(l[0..19], t.0), t.1))
  {
  }

  /** Where the tail of a wait line sits in it. */
  lemma WaitLineLayout(stamp: string, millis: string, meta: string, whole: string, fraction: Option<string>)
    ensures var l := WaitLine(stamp, millis, meta, whole, fraction);
      var q := |Header(stamp, millis)| + |meta|;
      var j := q + |WaitMarker| + |whole|;
      && |l| == j + |Point(fraction)| + |SecondsWord|
      && l[q..q + |WaitMarker|] == WaitMarker && l[q + |WaitMarker|..j] == whole
      && l[j..] == Point(fraction) + SecondsWord
  {
    var parts := WaitParts(stamp, millis, meta, whole, fraction);
    var q := |Header(stamp, millis)| + |meta|;
    assert Offset(parts, 1) == |Header(stamp, millis)|;
    assert Offset(parts, 2) == q;
    assert Offset(parts, 3) == q + |WaitMarker|;
    assert Offset(parts, 4) == q + |WaitMarker| + |whole|;
    PartAt(parts, 2);
    PartAt(parts, 3);
    ConcatFrom(parts, 4);
    assert parts[4..] == [Point(fraction), SecondsWord];
    assert Concat([SecondsWord]) == SecondsWord;
    assert Concat(parts[4..]) == Point(fraction) + SecondsWord;
  }

  /** `.FRACTION 秒` closing a wait line. */
  lemma WaitTailPoint(l: string, q: nat, whole: string, fraction: string)
    requires Digits1(whole) && AllDigits(fraction)
    requires q + |WaitMarker| + |whole| + 1 + |fraction| + |SecondsWord| == |l|
    requires l[q..q + |WaitMarker|] == WaitMarker
    requires l[q + |WaitMarker|..q + |WaitMarker| + |whole|] == whole
    requires l[q + |WaitMarker| + |whole|..] == "." + fraction + SecondsWord
    ensures WaitTail(l, q) == Some((Seconds(whole, fraction), |l|))
  {
    var j := q + |WaitMarker| + |whole|;
    var rest := "." + fraction + SecondsWord;
    assert rest[0] == '.' && rest[1..1 + |fraction|] == fraction && rest[1 + |fraction|..] == SecondsWord;
    assert l[j] == rest[0];
    assert l[j + 1..j + 1 + |fraction|] == rest[1..1 + |fraction|];
    assert l[j + 1 + |fraction|..] == rest[1 + |fraction|..];
    WaitTailFraction(l, q, whole, fraction);
  }

  /** The wait pattern's tail matches where the metadata of a wait line ends. */
  lemma WaitTailOf(stamp: string, millis: string, meta: string, whole: string, fraction: Option<string>)
    requires Digits1(whole) && (fraction.Some? ==> AllDigits(fraction.value))
    ensures var l := WaitLine(stamp, millis, meta, whole, fraction);
      |Header(stamp, millis)| + |meta| < |l| && TailAt(WaitDispatch, l, |Header(stamp, millis)| + |meta|)
      == Some((Seconds(whole, if fraction.Some? then fraction.value else []), |l|))
  {
    WaitLineLayout(stamp, millis, meta, whole, fraction);
    WaitTailAfter(WaitLine(stamp, millis, meta, whole, fraction), |Header(stamp, millis)| + |meta|, whole, fraction);
  }

  /** The wait tail at `q`, where the marker, the amount and ` 秒` follow up to the end of the line. */
  lemma WaitTailAfter(l: string, q: nat, whole: string, fraction: Option<string>)
    requires Digits1(whole) && (fraction.Some? ==> AllDigits(fraction.value))
    requires var j := q + |WaitMarker| + |whole|;
      && |l| == j + |Point(fraction)| + |SecondsWord|
      && l[q..q + |WaitMarker|] == WaitMarker && l[q + |WaitMarker|..j] == whole
      && l[j..] == Point(fraction) + SecondsWord
    ensures q < |l| && TailAt(WaitDispatch, l, q) == Some((Seconds(whole, if fraction.Some? then fraction.value else []), |l|))
  {
    if fraction.Some? {
      WaitTailPoint(l, q, whole, fraction.value);
    } else {
      WaitTailWhole(l, q, whole);
    }
  }

  /** A well-formed wait line is recognised, once, with its timestamp and amount. */
  lemma RecogniseWaitLine(stamp: string, millis: string, meta: string, whole: string, fraction: Option<string>)
    requires StampShape(stamp) && Digits1(millis) && NoTailStart(meta) && Digits1(whole)
    requires fraction.Some? ==> AllDigits(fraction.value)
    ensures FindAll(WaitDispatch, WaitLine(stamp, millis, meta, whole, fraction))
            == [Announcement(stamp, Seconds(whole, if fraction.Some? then fraction.value else []))]
  {
    WaitTailOf(stamp, millis, meta, whole, fraction);
    var fr := if fraction.Some? then fraction.value else [];
    RecogniseParts(WaitDispatch, WaitParts(stamp, millis, meta, whole, fraction), stamp, millis, meta, Seconds(whole, fr));
  }

  /** `(CLOCK)开始工作` up to the end of the line. */
  lemma ClockTailAt(l: string, c: nat, clock: string)
    requires ClockShape(clock) && c + 8 + |WorkWord| == |l|
    requires l[c..c + 8] == clock && l[c + 8..] == WorkWord
    ensures ClockTail(l, c) == Some((ResumeAt(clock), |l|))
  {
  }

  /** The run of minutes and the resume time, up to the end of the line. */
  lemma MinutesFromAt(l: string, i: nat, minutes: string, clock: string)
    requires Digits1(minutes) && ClockShape(clock)
    requires HasAt(l, i, minutes) && HasAt(l, i + |minutes|, MinutesWord)
    requires var c := i + |minutes| + |MinutesWord|;
      c + 8 + |WorkWord| == |l| && l[c..c + 8] == clock && l[c + 8..] == WorkWord
    ensures MinutesFrom(l, i) == Some((ResumeAt(clock), |l|))
  {
    var k := i + |minutes|;
    assert l[i..k] == minutes;
    assert l[k] == l[k..k + |MinutesWord|][0] == MinutesWord[0];
    DigitRunEndAt(l, i, |minutes|);
    ClockTailAt(l, k + |MinutesWord|, clock);
    assert ClockTail(l, k + |MinutesWord|) == Some((ResumeAt(clock), |l|));
  }

  /** The tail of the hours-and-minutes rest pattern, up to the end of the line. */
  lemma RestHoursTail(l: string, q: nat, hours: string, minutes: string, clock: string)
    requires Digits1(hours) && Digits1(minutes) && ClockShape(clock)
    requires HasAt(l, q, RestMarker)
    requires HasAt(l, q + |RestMarker|, hours)
    requires HasAt(l, q + |RestMarker| + |hours|, HoursWord)
    requires HasAt(l, q + |RestMarker| + |hours| + |HoursWord|, minutes)
    requires HasAt(l, q + |RestMarker| + |hours| + |HoursWord| + |minutes|, MinutesWord)
    requires var c := q + |RestMarker| + |hours| + |HoursWord| + |minutes| + |MinutesWord|;
      c + 8 + |WorkWord| == |l| && l[c..c + 8] == clock && l[c + 8..] == WorkWord
    ensures RestHoursTailAt(l, q) == Some((ResumeAt(clock), |l|))
  {
    var i := q + |RestMarker|;
    var j := i + |hours|;
    assert l[j] == l[j..j + |HoursWord|][0];
    DigitRunEndAt(l, i, |hours|);
    MinutesFromAt(l, j + |HoursWord|, minutes, clock);
  }

  /** The tail of the minutes-only rest pattern, up to the end of the line. */
  lemma RestMinutesTail(l: string, q: nat, minutes: string, clock: string)
    requires Digits1(minutes) && ClockShape(clock)
    requires HasAt(l, q, RestMarker)
    requires HasAt(l, q + |RestMarker|, minutes)
    requires HasAt(l, q + |RestMarker| + |minutes|, MinutesWord)
    requires var c := q + |RestMarker| + |minutes| + |MinutesWord|;
      c + 8 + |WorkWord| == |l| && l[c..c + 8] == clock && l[c + 8..] == WorkWord
    ensures RestMinutesTailAt(l, q) == Some((ResumeAt(clock), |l|))
  {
    MinutesFromAt(l, q + |RestMarker|, minutes, clock);
  }

  /** Where the tail of an hours-and-minutes rest line sits in it, up to the hours. */
  lemma RestHoursHead(stamp: string, millis: string, meta: string, hours: string, minutes: string, clock: string)
    ensures var l := RestHoursLine(stamp, millis, meta, hours, minutes, clock);
      var q := |Header(stamp, millis)| + |meta|;
      HasAt(l, q, RestMarker) && HasAt(l, q + |RestMarker|, hours)
  {
    var parts := RestHoursParts(stamp, millis, meta, hours, minutes, clock);
    var q := |Header(stamp, millis)| + |meta|;
    assert Offset(parts, 1) == |Header(stamp, millis)|;
    assert Offset(parts, 2) == q;
    assert Offset(parts, 3) == q + |RestMarker|;
    PartAt(parts, 2);
    PartAt(parts, 3);
  }

  /** Where the tail of an hours-and-minutes rest line sits in it, from the hours word on. */
  lemma RestHoursRest(stamp: string, millis: string, meta: string, hours: string, minutes: string, clock: string)
    requires |clock| == 8
    ensures var l := RestHoursLine(stamp, millis, meta, hours, minutes, clock);
      var j := |Header(stamp, millis)| + |meta| + |RestMarker| + |hours|;
      var c := j + |HoursWord| + |minutes| + |MinutesWord|;
      && HasAt(l, j, HoursWord)
      && HasAt(l, j + |HoursWord|, minutes)
      && HasAt(l, j + |HoursWord| + |minutes|, MinutesWord)
      && c + 8 + |WorkWord| == |l| && l[c..c + 8] == clock && l[c + 8..] == WorkWord
  {
    var parts := RestHoursParts(stamp, millis, meta, hours, minutes, clock);
    var h := |Header(stamp, millis)|;
    var j := h + |meta| + |RestMarker| + |hours|;
    assert Offset(parts, 1) == h;
    assert Offset(parts, 2) == h + |meta|;
    assert Offset(parts, 3) == h + |meta| + |RestMarker|;
    assert Offset(parts, 4) == j;
    assert Offset(parts, 5) == j + |HoursWord|;
    assert Offset(parts, 6) == Offset(parts, 5) + |minutes|;
    assert Offset(parts, 7) == Offset(parts, 6) + |MinutesWord|;
    assert Offset(parts, 8) == Offset(parts, 7) + 8;
    PartAt(parts, 4);
    PartAt(parts, 5);
    PartAt(parts, 6);
    PartAt(parts, 7);
    ConcatFrom(parts, 8);
    assert parts[8..] == [WorkWord];
    assert Concat([WorkWord]) == WorkWord;
  }

  /** The hours-and-minutes pattern's tail matches where the metadata of such a line ends. */
  lemma RestHoursTailOf(stamp: string, millis: string, meta: string, hours: string, minutes: string, clock: string)
    requires Digits1(hours) && Digits1(minutes) && ClockShape(clock)
    ensures var l := RestHoursLine(stamp, millis, meta, hours, minutes, clock);
      |Header(stamp, millis)| + |meta| < |l| && TailAt(RestHoursMinutes, l, |Header(stamp, millis)| + |meta|) == Some((ResumeAt(clock), |l|))
  {
    var l := RestHoursLine(stamp, millis, meta, hours, minutes, clock);
    RestHoursHead(stamp, millis, meta, hours, minutes, clock);
    RestHoursRest(stamp, millis, meta, hours, minutes, clock);
    RestHoursTail(l, |Header(stamp, millis)| + |meta|, hours, minutes, clock);
  }

  /** A well-formed hours-and-minutes rest line is recognised, once, with its timestamp and resume time. */
  lemma RecogniseRestHoursLine(stamp: string, millis: string, meta: string, hours: string, minutes: string, clock: string)
    requires StampShape(stamp) && Digits1(millis) && NoTailStart(meta)
    requires Digits1(hours) && Digits1(minutes) && ClockShape(clock)
    ensures FindAll(RestHoursMinutes, RestHoursLine(stamp, millis, meta, hours, minutes, clock))
            == [Announcement(stamp, ResumeAt(clock))]
  {
    RestHoursTailOf(stamp, millis, meta, hours, minutes, clock);
    RecogniseParts(RestHoursMinutes, RestHoursParts(stamp, millis, meta, hours, minutes, clock), stamp, millis, meta, ResumeAt(clock));
  }

  /** Where the tail of a minutes-only rest line sits in it. */
  lemma RestMinutesLayout(stamp: string, millis: string, meta: string, minutes: string, clock: string)
    requires |clock| == 8
    ensures var l := RestMinutesLine(stamp, millis, meta, minutes, clock);
      var q := |Header(stamp, millis)| + |meta|;
      var c := q + |RestMarker| + |minutes| + |MinutesWord|;
      && HasAt(l, q, RestMarker)
      && HasAt(l, q + |RestMarker|, minutes)
      && HasAt(l, q + |RestMarker| + |minutes|, MinutesWord)
      && c + 8 + |WorkWord| == |l| && l[c..c + 8] == clock && l[c + 8..] == WorkWord
  {
    var parts := RestMinutesParts(stamp, millis, meta, minutes, clock);
    var q := |Header(stamp, millis)| + |meta|;
    assert Offset(parts, 1) == |Header(stamp, millis)|;
    assert Offset(parts, 2) == q;
    assert Offset(parts, 3) == q + |RestMarker|;
    assert Offset(parts, 4) == q + |RestMarker| + |minutes|;
    assert Offset(parts, 5) == Offset(parts, 4) + |MinutesWord|;
    assert Offset(parts, 6) == Offset(parts, 5) + 8;
    PartAt(parts, 2);
    PartAt(parts, 3);
    PartAt(parts, 4);
    PartAt(parts, 5);
    ConcatFrom(parts, 6);
    assert parts[6..] == [WorkWord];
    assert Concat([WorkWord]) == WorkWord;
  }

  /** The minutes-only pattern's tail matches where the metadata of such a line ends. */
  lemma RestMinutesTailOf(stamp: string, millis: string, meta: string, minutes: string, clock: string)
    requires Digits1(minutes) && ClockShape(clock)
    ensures var l := RestMinutesLine(stamp, millis, meta, minutes, clock);
      |Header(stamp, millis)| + |meta| < |l| && TailAt(RestMinutes, l, |Header(stamp, millis)| + |meta|) == Some((ResumeAt(clock), |l|))
  {
    var l := RestMinutesLine(stamp, millis, meta, minutes, clock);
    RestMinutesLayout(stamp, millis, meta, minutes, clock);
    RestMinutesTail(l, |Header(stamp, millis)| + |meta|, minutes, clock);
  }

  /** A well-formed minutes-only rest line is recognised, once, with its timestamp and resume time. */
  lemma RecogniseRestMinutesLine(stamp: string, millis: string, meta: string, minutes: string, clock: string)
    requires StampShape(stamp) && Digits1(millis) && NoTailStart(meta)
    requires Digits1(minutes) && ClockShape(clock)
    ensures FindAll(RestMinutes, RestMinutesLine(stamp, millis, meta, minutes, clock))
            == [Announcement(stamp, ResumeAt(clock))]
  {
    RestMinutesTailOf(stamp, millis, meta, minutes, clock);
    RecogniseParts(RestMinutes, RestMinutesParts(stamp, millis, meta, minutes, clock), stamp, millis, meta, ResumeAt(clock));
  }

  /** Metadata with colons, such as a source location, is skipped by `.*?`. */
  lemma SourceLocationMetadata()
    ensures FindAll(WaitDispatch, WaitLine("2024-05-01 08:00:00", "123", "main.py:42", "90", Some("5")))
            == [Announcement("2024-05-01 08:00:00", Seconds("90", "5"))]
  {
    var meta := "main.py:42";
    assert NoTailStart(meta) by {
      forall k: nat | k < |meta| ensures !TailStartAt(meta, k) {
        if k == 7 { assert meta[k + 1] == '4'; }
      }
    }
    RecogniseWaitLine("2024-05-01 08:00:00", "123", meta, "90", Some("5"));
  }
}
