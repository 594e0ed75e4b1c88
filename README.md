# mower-timer countdown engine, in Dafny

This is a model of the log-driven countdown engine of the mower timer desktop overlay (`main.py`). The overlay reads a text log and finds every announcement of when the background job resumes. It reduces those announcements to one target time, and a once-per-second renderer turns the target into the label text. The model covers four parts:

- **Extractor** (`parse_next_mowing_time`). The three patterns are applied with the exact semantics of Python's `re.findall`, line by line: the leftmost match, the lazy `.*?`, and non-overlapping repeated matches. The patterns are:
  - the wait pattern `等待跑单 N 秒`;
  - the hours-and-minutes rest pattern `休息 H 小时 M 分钟，到HH:MM:SS开始工作`;
  - the minutes-only rest pattern `休息 M 分钟，到HH:MM:SS开始工作`.

  Each match becomes a candidate, and `strptime` rejections drop it. A wait target is the timestamp plus the announced seconds. A rest target is the timestamp's date combined with the resume time. The latest candidate wins.
- **`read_log_file`**. The file's content, or `None` for a missing or unreadable file, is a parameter. Any exception during extraction gives `None`.
- **The poller step of `log_reader_loop`**. It re-extracts only when the target is absent or no longer in the future.
- **`update_countdown_display`**. It produces one of three label texts:
  - `运行中...`;
  - `跑单中……还有N秒`, used when the last wait match lies within a second of the target;
  - `[D天 ]HH:MM:SS后开始运行`.

  A due target is re-extracted.

Files:

| file | module | contents |
|---|---|---|
| `optional.dfy` | `Optional` | `Option` |
| `digits.dfy` | `Digits` | ASCII digit strings, `{n:02d}` and `str(n)` renderings, decimal fraction to microseconds (half-even) |
| `calendar.dfy` | `Calendar` | Python's naive `datetime`, years 1–9999, as an exact microsecond count with its inverse; comparison; `+ timedelta` with OverflowError |
| `log_patterns.dfy` | `LogPatterns` | the three patterns as hand-written recognisers with `re.findall` semantics; cutting text into lines |
| `extractor.dfy` | `Extractor` | `strptime`, candidates, `max`, `parse_next_mowing_time` (its three loops as methods), `read_log_file` |
| `countdown.dfy` | `Countdown` | the `divmod` breakdown, the three label texts and their read-back, the render and poller decisions, the `MowerTimer` class holding `next_mowing_time` |

How the source's behaviour is modelled:

- **Datetimes.** A date-time is a record. `ToMicros` maps it to microseconds since 0001-01-01 00:00:00, using CPython's closed form for the days before a year. `FromMicros` inverts this mapping. Python compares date-times field by field (`LexBefore`), and the model proves that this order agrees with the microsecond order.
- **Wait amounts.** The amount `\d+\.?\d*` is read as an exact decimal. The fraction is rounded to microseconds with ties to even, as `timedelta` rounds.
- **Overflow.** A sum past 9999-12-31 23:59:59.999999 raises OverflowError. No `except ValueError` catches it:
  - In `parse_next_mowing_time` it escapes the loop (`Outcome.Raised`), and `read_log_file` turns it into `None`.
  - In `update_countdown_display` it escapes the method before the label is set (`Display.Aborted`).
- **Newlines.** No part of the three patterns matches a newline: `.` does not, and nor do `\d` or the literals. So every match lies within one line, and scanning line by line is exact. `JoinLines` and `LinesJoin` prove that cutting into lines loses nothing.
- **`.*?`.** Every pattern's tail starts with `": "`. So metadata after the header in which no `": "` starts is skipped (`LazySkip`), colons included, as in `main.py:42`.
- **Display overflow.** An OverflowError in the display check (main.py:392) escapes `update_countdown_display`, and with it ends `update_ui_loop` (main.py:182-186). The model returns `Aborted`.
- **Several matches per line.** `re.findall` can return several matches on one line, and the model returns all of them.

## Model

| member | source | states |
|---|---|---|
| LogPatterns.RecogniseWaitLine | main.py:291-292 | A well-formed wait line has exactly one match, which captures its timestamp and amount. The line is the timestamp, `,millis `, metadata in which no `": "` starts, and `: 等待跑单 W[.F] 秒`. |
| LogPatterns.SourceLocationMetadata | main.py:291-292 | A wait line whose metadata is `main.py:42` has exactly one match. |
| LogPatterns.RecogniseRestHoursLine | main.py:305-306 | A well-formed hours-and-minutes rest line, with metadata in which no `": "` starts, has exactly one match, which captures its timestamp and resume time. |
| LogPatterns.RecogniseRestMinutesLine | main.py:320-321 | A well-formed minutes-only rest line, with metadata in which no `": "` starts, has exactly one match, which captures its timestamp and resume time. |
| LogPatterns.FindAllFrom | main.py:292 | Every match `re.findall` returns has a timestamp of the stamp shape and a second group of its family's shape. |
| LogPatterns.JoinLines | main.py:292 | Joining a text's lines with newlines gives the text back. |
| LogPatterns.LinesJoin | main.py:292 | Newline-free lines joined with newlines are cut back into exactly those lines. |
| LogPatterns.ScanLinesMember | main.py:292 | A match is found in a text exactly when it is a match of one of the text's lines. |
| Extractor.ClockRoundTrip | main.py:313 | Formatting a valid clock time as `%H:%M:%S` and parsing it back gives the same time. |
| Extractor.ClockReadBack | main.py:313 | A clock text that `strptime` accepts is exactly the formatting of the time it yields. |
| Extractor.StampRoundTrip | main.py:297 | Formatting a valid whole-second date-time and parsing it back gives the same date-time. |
| Extractor.StampReadBack | main.py:297 | A timestamp text that `strptime` accepts is exactly the formatting of the date-time it yields. |
| Extractor.MonthThirteenDropped | main.py:297 | Month 13 is rejected. |
| Extractor.FebruaryThirtiethDropped | main.py:297 | 30 February of a common year is rejected. |
| Extractor.HourTwentyFourDropped | main.py:297 | Hour 24 is rejected. |
| Extractor.SecondSixtyDropped | main.py:297 | Second 60 is rejected. |
| Extractor.LeapDayKept | main.py:297 | 29 February of a leap year is accepted. |
| Extractor.WaitCandidateIsStampPlusWait | main.py:294-302 | A wait match is dropped exactly when its timestamp is invalid. Otherwise its target is the timestamp plus the announced seconds, to the microsecond, and it overflows exactly when that sum is past the last representable instant. |
| Extractor.RestCandidateIsSameDay | main.py:308-317 | A rest match never overflows. It is kept exactly when both its timestamp and its resume time are valid. Its target is then the timestamp's date at the resume time, with no roll-over: a resume time earlier than the timestamp gives an earlier target. |
| Extractor.TargetsMember | main.py:294-332 | The times appended to `all_times` are exactly those of the kept candidates. |
| Extractor.Latest | main.py:334-338 | `max` of the times is absent exactly for no times. Otherwise it is one of them, and none is later. |
| Extractor.LatestOfSameTimes | main.py:334-336 | `max` depends only on which times occur, not on their order or repetition. |
| Extractor.CollectWaitTargets | main.py:294-302 | The wait loop yields the targets of all kept wait matches, in order, or stops exactly when one of them overflows. |
| Extractor.AppendRestTargets | main.py:308-317 | A rest loop appends the targets of all kept rest matches, in order, to `all_times`. |
| Extractor.ParseNextMowingTime | main.py:281-338 | The three loops and the final `max` compute `NextMowingTime` of the text. |
| Extractor.AllTargetsMember | main.py:288-332 | `all_times` holds exactly the candidates of the text, whatever their pattern. |
| Extractor.RaisedIffOverflow | main.py:294-302 | The extraction raises exactly when some wait match has a valid timestamp, and that timestamp plus the announced seconds is past 9999-12-31 23:59:59.999999. |
| Extractor.NoneIffNoCandidate | main.py:334-338 | Without overflow, the extraction returns `None` exactly when the text has no valid candidate. |
| Extractor.ReturnedIsLatestCandidate | main.py:334-336 | A returned time is a candidate of the text, and no candidate is later. |
| Extractor.SameLinesSameNextMowingTime | main.py:288-338 | Texts with the same set of lines give the same result: the order of lines and repeated lines do not matter. |
| Extractor.LogFileTarget | main.py:340-350 | An unreadable log gives `None`. A time found is a valid candidate of the content. |
| Extractor.ReadLogFile | main.py:340-350 | `read_log_file` computes `LogFileTarget`. An OverflowError, caught by the blanket handler, gives `None`. |
| Calendar.LexBeforeIffEarlier | main.py:358 | Python's field-by-field date-time comparison orders exactly as the microsecond count does. |
| Calendar.ToMicrosInjective | main.py:336 | Different valid date-times have different microsecond counts. |
| Calendar.FromMicros | main.py:299 | The date-time of a microsecond count in range is valid and maps back to that count. |
| Calendar.FromMicrosToMicros | main.py:299 | Converting a date-time to microseconds and back gives the same date-time. |
| Calendar.AddMicros | main.py:299 | `dt + timedelta` is exact to the microsecond, and it fails exactly when the sum is past 9999-12-31 23:59:59.999999. |
| Calendar.NinetySecondsPastMidnight | main.py:299 | 90 seconds after 23:59:30 is 00:01:00 of the next calendar day, across any month or year boundary. |
| Digits.FractionMicros | main.py:299 | A fraction of up to six digits converts exactly. A longer one rounds to the nearest microsecond, with ties to even. |
| Digits.Decimal | main.py:397 | `str(n)` is a canonical digit string whose value is `n`. |
| Digits.DecimalOfValue | main.py:397 | A canonical digit string is `str` of its own value. |
| Digits.Pad2 | main.py:410 | `{n:02d}` of `n < 100` is two digits with value `n`. |
| Digits.Pad2OfValue | main.py:410 | Every two-digit string is `{n:02d}` of its value. |
| Countdown.Split | main.py:404-407 | The breakdown has hours below 24, and minutes and seconds below 60. Days·86400 + hours·3600 + minutes·60 + seconds equals the floor of the remaining seconds. |
| Countdown.CountdownReadBack | main.py:409-412 | A countdown text reads back as its breakdown's total seconds: days are never lost or invented, and the fields are zero-padded. |
| Countdown.CountdownOfRemaining | main.py:404-412 | The countdown text of a remaining time reads back as its whole seconds. |
| Countdown.DaysShownIffWholeDay | main.py:409-412 | The `D天 ` prefix appears exactly when at least a whole day remains. |
| Countdown.DispatchReadBack | main.py:397 | The dispatching text reads back as the seconds it shows. |
| Countdown.TextsDistinct | main.py:368-415 | The running, dispatching and countdown texts never read as one another. |
| Countdown.DispatchingIffLastWaitNear | main.py:385-397 | The dispatching phrasing is chosen exactly when the last wait match in text order has a valid timestamp, and its target lies strictly within one second of the resolved target, on either side. An overflow of that match aborts. |
| Countdown.Remaining | main.py:404 | A target ahead of `now` leaves a positive number of microseconds, the difference of the two. |
| Countdown.PendingReadsRemainingSeconds | main.py:371-412 | While the target is ahead, the label reads back as the whole seconds still to go. It uses the dispatching phrasing exactly when the check says so, and the countdown otherwise. Only an overflowing last wait match aborts. |
| Countdown.RenderRunningIffNotAhead | main.py:367-416 | No target, or a target at or before `now`, shows `运行中...`. A target ahead never does. A due target is replaced by a fresh extraction, and any other target is kept. |
| Countdown.PollerKeepsOnlyFutureTarget | main.py:356-360 | The poller keeps a target strictly after `now`. Otherwise it replaces the target by a fresh extraction. |
| Countdown.PollerSettles | main.py:356-360 | A second poller step at the same instant over the same log changes nothing. |
| Countdown.MowerTimer.constructor | main.py:89 | The window starts without a target. |
| Countdown.MowerTimer.LogReaderStep | main.py:356-360 | One pass of the poller loop sets `next_mowing_time` to `PollerNext` of its old value and keeps it a valid date-time. |
| Countdown.MowerTimer.UpdateCountdownDisplay | main.py:364-416 | The render step returns `Render` of the old target, sets `next_mowing_time` to `RenderNext`, and keeps it a valid date-time. |

## Left out

- Python floats. The model reads `float(seconds_str)` as an exact decimal and rounds it to microseconds with ties to even. Python rounds the nearest binary float instead, and the gap grows with the amount. For `300000000000.123456` the nearest float has the fraction 0.12347412109375, so Python adds 18 µs more than the model. Near the top of the date range the gap is tens of microseconds. Small amounts differ by at most a microsecond, at exact decimal halfway cases.
- LogPatterns.RecogniseWaitLine: not stated for metadata in which `": "` starts. Whether such a line matches there depends on what follows the `": "`. `FindAll` still handles those lines.
- LogPatterns.RecogniseRestHoursLine: not stated for metadata in which `": "` starts, for the same reason.
- LogPatterns.RecogniseRestMinutesLine: not stated for metadata in which `": "` starts, for the same reason.
- Countdown.DispatchingIffLastWaitNear: the `abs(...) < 1` test is stated on exact microseconds. For integral microsecond differences this agrees with Python's `total_seconds()` comparison.
- Countdown.PendingReadsRemainingSeconds: `int(diff_seconds)` is modelled as the floor of the exact remaining microseconds divided by 10^6. This differs from Python only where float division loses precision, for differences above about 285 years.
- The threads and `time.sleep` loops of `log_reader_loop` and `update_ui_loop`. Only one poller step and one render step are modelled, as methods of `MowerTimer`.
- File access (`os.path.exists`, `open`, `read`). The log content is a parameter: `None` for a missing or unreadable file. In the render step, one parameter stands for both reads of the file. For an unreadable file the display check uses the empty text, as the code does.
- `datetime.now()`: `now` is a parameter.
- `self.root.lift()` and setting the Tk label, including the caught `TclError`. The rendered text is the method's result.
- Unicode digits: `\d` is taken to be ASCII `0-9`.
- The rest of the program is not part of this model: `settings.py`, `build.py`, configuration loading and saving, window layout and dragging, and `quit_app`. None of these affects the countdown.
