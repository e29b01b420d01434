/** The part of the plugin's Google Calendar client that does not touch the
    network: the date, time and title scans `addEvent` runs over a note, the
    event record it builds from what they find, and the record `addReminder`
    builds. */
module GoogleCalendar {
  import opened Text

  datatype Result<T> = Success(value: T) | Failure(error: string)

  // ---------------------------------------------------------------------------
  // The three patterns

  /** `/(\d{4}年\d{1,2}月\d{1,2}日)/`, `/(\d{1,2}:\d{2})/` and `/^# (.+)$/m`. */
  datatype Pattern = DatePattern | TimePattern | TitlePattern

  const YEAR: char := '年'
  const MONTH: char := '月'
  const DAY: char := '日'

  predicate AllDigits(s: string) {
    forall k :: 0 <= k < |s| ==> IsDigit(s[k])
  }

  /** `w` is four digits, `年`, `m` digits, `月`, `d` digits and `日`. */
  predicate DateShape(w: string, m: nat, d: nat) {
    && |w| == 7 + m + d
    && AllDigits(w[..4]) && w[4] == YEAR
    && AllDigits(w[5..5 + m]) && w[5 + m] == MONTH
    && AllDigits(w[6 + m..6 + m + d]) && w[6 + m + d] == DAY
  }

  /** `w` as a whole is matched by `\d{4}年\d{1,2}月\d{1,2}日`. */
  predicate IsDateLiteral(w: string) {
    DateShape(w, 1, 1) || DateShape(w, 1, 2) || DateShape(w, 2, 1) || DateShape(w, 2, 2)
  }

  /** `w` as a whole is matched by `\d{1,2}:\d{2}`. */
  predicate IsTimeLiteral(w: string) {
    || (|w| == 4 && IsDigit(w[0]) && w[1] == ':' && IsDigit(w[2]) && IsDigit(w[3]))
    || (|w| == 5 && IsDigit(w[0]) && IsDigit(w[1]) && w[2] == ':' && IsDigit(w[3]) && IsDigit(w[4]))
  }

  /** `s[i..i + n]` is matched by `^# (.+)$` in multiline mode: it starts a
      line, begins with `# ` and one more character at least, and runs to the
      end of its line. */
  predicate IsTitleLine(s: string, i: nat, n: nat) {
    && i + n <= |s|
    && (i == 0 || IsLineTerminator(s[i - 1]))
    && n >= 3 && s[i] == '#' && s[i + 1] == ' '
    && (forall k :: i + 2 <= k < i + n ==> !IsLineTerminator(s[k]))
    && (i + n == |s| || IsLineTerminator(s[i + n]))
  }

  /** The pattern matches `n` characters of `s` starting at `i`. */
  predicate Matches(p: Pattern, s: string, i: nat, n: nat) {
    && i + n <= |s|
    && match p
       case DatePattern => IsDateLiteral(s[i..i + n])
       case TimePattern => IsTimeLiteral(s[i..i + n])
       case TitlePattern => IsTitleLine(s, i, n)
  }

  // ---------------------------------------------------------------------------
  // Matching at one position, as the backtracking matcher does

  /** `\d{1,2}` and then `mark` at `j`, greedy: two digits when `mark` follows
      them, else one. The result is the one digit count that fits. */
  function DigitsThen(s: string, j: nat, mark: char): (r: Option<nat>)
    requires !IsDigit(mark)
    ensures forall m :: (1 <= m <= 2 && j + m < |s| && AllDigits(s[j..j + m]) && s[j + m] == mark) <==>
                        r == Some(m)
    ensures r.Some? ==> 1 <= r.value <= 2 && j + r.value < |s| && AllDigits(s[j..j + r.value]) && s[j + r.value] == mark
  {
    if j + 2 < |s| && IsDigit(s[j]) && IsDigit(s[j + 1]) && s[j + 2] == mark then
      assert AllDigits(s[j..j + 2]);
      Some(2)
    else if j + 1 < |s| && IsDigit(s[j]) && s[j + 1] == mark then
      assert AllDigits(s[j..j + 1]);
      Some(1)
    else
      assert !(j + 2 < |s| && AllDigits(s[j..j + 2]) && s[j + 2] == mark) by {
        if j + 2 < |s| && AllDigits(s[j..j + 2]) {
          assert s[j..j + 2][0] == s[j] && s[j..j + 2][1] == s[j + 1];
        }
      }
      assert !(j + 1 < |s| && AllDigits(s[j..j + 1]) && s[j + 1] == mark) by {
        if j + 1 < |s| && AllDigits(s[j..j + 1]) {
          assert s[j..j + 1][0] == s[j];
        }
      }
      None
  }

  lemma SliceOfSlice(s: string, a: nat, b: nat, c: nat, d: nat)
    requires a <= b <= |s| && c <= d <= b - a
    ensures s[a..b][c..d] == s[a + c..a + d]
  {
    var l, r := s[a..b][c..d], s[a + c..a + d];
    forall k | 0 <= k < |l| ensures l[k] == r[k] {
      assert l[k] == s[a..b][c + k];
    }
  }

  function DateAt(s: string, i: nat): Option<nat> {
    if i + 4 < |s| && AllDigits(s[i..i + 4]) && s[i + 4] == YEAR then
      match DigitsThen(s, i + 5, MONTH)
      case None => None
      case Some(m) =>
        match DigitsThen(s, i + 6 + m, DAY)
        case None => None
        case Some(d) => Some(7 + m + d)
    else
      None
  }

  function TimeAt(s: string, i: nat): Option<nat> {
    if i + 5 <= |s| && IsDigit(s[i]) && IsDigit(s[i + 1]) && s[i + 2] == ':' && IsDigit(s[i + 3]) && IsDigit(s[i + 4]) then
      Some(5)
    else if i + 4 <= |s| && IsDigit(s[i]) && s[i + 1] == ':' && IsDigit(s[i + 2]) && IsDigit(s[i + 3]) then
      Some(4)
    else
      None
  }

  function TitleAt(s: string, i: nat): Option<nat>
    requires i <= |s|
  {
    if (i == 0 || IsLineTerminator(s[i - 1])) && i + 2 <= |s| && s[i] == '#' && s[i + 1] == ' ' then
      var e := LineEnd(s, i + 2);
      if e > i + 2 then Some(e - i) else None
    else
      None
  }

  /** Where the pattern matches at `i`: it matches `n` characters exactly when
      the result is `Some(n)`, so a match at a position is unique. */
  function MatchAt(p: Pattern, s: string, i: nat): (r: Option<nat>)
    requires i <= |s|
    ensures forall n: nat :: Matches(p, s, i, n) <==> r == Some(n)
  {
    match p
    case DatePattern => DateAtIff(s, i); DateAt(s, i)
    case TimePattern => TimeAtIff(s, i); TimeAt(s, i)
    case TitlePattern => TitleAtIff(s, i); TitleAt(s, i)
  }

  lemma DateAtIff(s: string, i: nat)
    ensures forall n: nat :: Matches(DatePattern, s, i, n) <==> DateAt(s, i) == Some(n)
  {
    forall n: nat | DateAt(s, i) == Some(n) ensures Matches(DatePattern, s, i, n) {
      DateAtSound(s, i);
    }
    forall n: nat | Matches(DatePattern, s, i, n) ensures DateAt(s, i) == Some(n) {
      DateAtComplete(s, i, n);
    }
  }

  lemma DateAtSound(s: string, i: nat)
    requires DateAt(s, i).Some?
    ensures Matches(DatePattern, s, i, DateAt(s, i).value)
  {
    assert i + 4 < |s| && AllDigits(s[i..i + 4]) && s[i + 4] == YEAR;
    var dm := DigitsThen(s, i + 5, MONTH);
    assert dm.Some?;
    var m := dm.value;
    assert 1 <= m <= 2 && AllDigits(s[i + 5..i + 5 + m]) && s[i + 5 + m] == MONTH;
    var dd := DigitsThen(s, i + 6 + m, DAY);
    assert dd.Some?;
    var d := dd.value;
    assert 1 <= d <= 2 && i + 7 + m + d <= |s| && AllDigits(s[i + 6 + m..i + 6 + m + d]) && s[i + 6 + m + d] == DAY;
    assert DateAt(s, i).value == 7 + m + d;
    DateFound(s, i, m, d);
  }

  lemma DateAtComplete(s: string, i: nat, n: nat)
    requires Matches(DatePattern, s, i, n)
    ensures DateAt(s, i) == Some(n)
  {
    var w := s[i..i + n];
    if DateShape(w, 1, 1) {
      DateRead(s, i, 1, 1);
    } else if DateShape(w, 1, 2) {
      DateRead(s, i, 1, 2);
    } else if DateShape(w, 2, 1) {
      DateRead(s, i, 2, 1);
    } else {
      DateRead(s, i, 2, 2);
    }
  }

  /** The shape read off `s` at `i` is a date literal. */
  lemma DateFound(s: string, i: nat, m: nat, d: nat)
    requires 1 <= m <= 2 && 1 <= d <= 2 && i + 7 + m + d <= |s|
    requires AllDigits(s[i..i + 4]) && s[i + 4] == YEAR
    requires AllDigits(s[i + 5..i + 5 + m]) && s[i + 5 + m] == MONTH
    requires AllDigits(s[i + 6 + m..i + 6 + m + d]) && s[i + 6 + m + d] == DAY
    ensures IsDateLiteral(s[i..i + 7 + m + d])
  {
    var w := s[i..i + 7 + m + d];
    SliceOfSlice(s, i, i + 7 + m + d, 0, 4);
    SliceOfSlice(s, i, i + 7 + m + d, 5, 5 + m);
    SliceOfSlice(s, i, i + 7 + m + d, 6 + m, 6 + m + d);
    assert DateShape(w, m, d);
  }

  /** A date literal at `i` is the one the matcher reads. */
  lemma DateRead(s: string, i: nat, m: nat, d: nat)
    requires 1 <= m <= 2 && 1 <= d <= 2 && i + 7 + m + d <= |s|
    requires DateShape(s[i..i + 7 + m + d], m, d)
    ensures DateAt(s, i) == Some(7 + m + d)
  {
    var w := s[i..i + 7 + m + d];
    DigitsShift(s, i, i + 7 + m + d, 0, 4);
    assert s[i + 4] == w[4];
    DigitsShift(s, i, i + 7 + m + d, 5, 5 + m);
    assert s[i + 5 + m] == w[5 + m];
    assert DigitsThen(s, i + 5, MONTH) == Some(m);
    DigitsShift(s, i, i + 7 + m + d, 6 + m, 6 + m + d);
    assert s[i + 6 + m + d] == w[6 + m + d];
    assert DigitsThen(s, i + 6 + m, DAY) == Some(d);
  }

  /** Digits inside a window of `s` are digits of `s`. */
  lemma DigitsShift(s: string, a: nat, b: nat, c: nat, e: nat)
    requires a <= b <= |s| && c <= e <= b - a
    requires AllDigits(s[a..b][c..e])
    ensures AllDigits(s[a + c..a + e])
  {
    SliceOfSlice(s, a, b, c, e);
  }

  lemma TimeAtIff(s: string, i: nat)
    ensures forall n: nat :: Matches(TimePattern, s, i, n) <==> TimeAt(s, i) == Some(n)
  {
    forall n | Matches(TimePattern, s, i, n) ensures TimeAt(s, i) == Some(n) {
      var w := s[i..i + n];
      assert forall k :: 0 <= k < n ==> w[k] == s[i + k];
    }
    forall n | TimeAt(s, i) == Some(n) ensures Matches(TimePattern, s, i, n) {
      var w := s[i..i + n];
      assert forall k :: 0 <= k < n ==> w[k] == s[i + k];
    }
  }

  lemma TitleAtIff(s: string, i: nat)
    requires i <= |s|
    ensures forall n: nat :: Matches(TitlePattern, s, i, n) <==> TitleAt(s, i) == Some(n)
  {
    forall n | Matches(TitlePattern, s, i, n) ensures TitleAt(s, i) == Some(n) {
      var e := LineEnd(s, i + 2);
      assert e == i + n;
    }
  }

  // ---------------------------------------------------------------------------
  // The leftmost match

  /** What `String.prototype.match` finds: the first position at or after
      `from` where the pattern matches, and the length it matches there. */
  function Scan(p: Pattern, s: string, from: nat): (r: Option<(nat, nat)>)
    requires from <= |s|
    ensures r.Some? ==> from <= r.value.0 && Matches(p, s, r.value.0, r.value.1)
    ensures r.Some? ==> forall j: nat, n: nat :: from <= j < r.value.0 ==> !Matches(p, s, j, n)
    ensures r.None? ==> forall j: nat, n: nat :: from <= j ==> !Matches(p, s, j, n)
    decreases |s| - from
  {
    match MatchAt(p, s, from)
    case Some(n) => Some((from, n))
    case None => if from == |s| then None else Scan(p, s, from + 1)
  }

  /** The scan finds the first match: a match at `i` with none between `from`
      and `i` is what it returns. */
  lemma ScanIs(p: Pattern, s: string, from: nat, i: nat, n: nat)
    requires from <= i && Matches(p, s, i, n)
    requires forall j: nat, m: nat :: from <= j < i ==> !Matches(p, s, j, m)
    ensures Scan(p, s, from) == Some((i, n))
  {
    var r := Scan(p, s, from);
    assert r.Some?;
    var i', n' := r.value.0, r.value.1;
    assert !(i' < i) && !(i < i');
    var unique := MatchAt(p, s, i);
  }

  function First(p: Pattern, s: string): Option<(nat, nat)> {
    Scan(p, s, 0)
  }

  // ---------------------------------------------------------------------------
  // The facts of an event

  datatype EventFacts = EventFacts(date: string, time: string, title: string)

  /** The three scans of `addEvent` and the text each keeps: the whole date
      and time matches, the title line without its `# `. It fails, as a whole,
      when any of the three scans finds nothing. */
  function ExtractFacts(content: string): (r: Option<EventFacts>)
    ensures r.None? <==>
            First(DatePattern, content).None? || First(TimePattern, content).None? ||
            First(TitlePattern, content).None?
    ensures r.Some? ==> IsDateLiteral(r.value.date) && IsTimeLiteral(r.value.time)
    ensures r.Some? ==> r.value.title != [] && OneLine(r.value.title)
  {
    var date, time, title := First(DatePattern, content), First(TimePattern, content), First(TitlePattern, content);
    if date.None? || time.None? || title.None? then
      None
    else
      var di, dn := date.value.0, date.value.1;
      var ti, tn := time.value.0, time.value.1;
      var hi, hn := title.value.0, title.value.1;
      var t := content[hi + 2..hi + hn];
      assert forall k :: 0 <= k < |t| ==> t[k] == content[hi + 2 + k];
      Some(EventFacts(content[di..di + dn], content[ti..ti + tn], t))
  }

  /** The date is the text of the leftmost date match. */
  lemma DateIsLeftmost(content: string)
    requires ExtractFacts(content).Some?
    ensures var f := ExtractFacts(content).value;
            exists i: nat :: OccursAt(content, f.date, i) && Matches(DatePattern, content, i, |f.date|) &&
                             forall j: nat, n: nat :: j < i ==> !Matches(DatePattern, content, j, n)
  {
    var f := ExtractFacts(content).value;
    var di := First(DatePattern, content).value.0;
    assert OccursAt(content, f.date, di) && Matches(DatePattern, content, di, |f.date|);
  }

  /** The time is the text of the leftmost time match. */
  lemma TimeIsLeftmost(content: string)
    requires ExtractFacts(content).Some?
    ensures var f := ExtractFacts(content).value;
            exists i: nat :: OccursAt(content, f.time, i) && Matches(TimePattern, content, i, |f.time|) &&
                             forall j: nat, n: nat :: j < i ==> !Matches(TimePattern, content, j, n)
  {
    var f := ExtractFacts(content).value;
    var ti := First(TimePattern, content).value.0;
    assert OccursAt(content, f.time, ti) && Matches(TimePattern, content, ti, |f.time|);
  }

  /** The title is the first title line, after its `# `. */
  lemma TitleIsLeftmost(content: string)
    requires ExtractFacts(content).Some?
    ensures var f := ExtractFacts(content).value;
            exists i: nat :: OccursAt(content, "# " + f.title, i) && Matches(TitlePattern, content, i, |f.title| + 2) &&
                             forall j: nat, n: nat :: j < i ==> !Matches(TitlePattern, content, j, n)
  {
    var f := ExtractFacts(content).value;
    var hi, hn := First(TitlePattern, content).value.0, First(TitlePattern, content).value.1;
    assert IsTitleLine(content, hi, hn);
    assert f.title == content[hi + 2..hi + hn];
    assert content[hi..hi + hn] == "# " + f.title by {
      assert content[hi..hi + 2] == "# " by {
        assert content[hi..hi + 2][0] == content[hi] && content[hi..hi + 2][1] == content[hi + 1];
      }
      assert content[hi..hi + hn] == content[hi..hi + 2] + content[hi + 2..hi + hn];
    }
    assert OccursAt(content, "# " + f.title, hi) && Matches(TitlePattern, content, hi, |f.title| + 2);
  }

  // ---------------------------------------------------------------------------
  // The date as written into the event

  predicate IsDateMark(c: char) {
    c == YEAR || c == MONTH || c == DAY
  }

  /** `date.replace(/年|月|日/g, '-')`. */
  function NormalizeDate(date: string): (r: string)
    ensures |r| == |date|
  {
    seq(|date|, k requires 0 <= k < |date| => if IsDateMark(date[k]) then '-' else date[k])
  }

  /** The normalised date is `Y-M-D-`: the digit groups as they were, without
      padding, each followed by `-`, the last one too. */
  lemma NormalizedDateShape(w: string, m: nat, d: nat)
    requires 1 <= m <= 2 && 1 <= d <= 2 && DateShape(w, m, d)
    ensures NormalizeDate(w) == w[..4] + "-" + w[5..5 + m] + "-" + w[6 + m..6 + m + d] + "-"
    ensures NormalizeDate(w)[|w| - 1] == '-'
  {
    var r := NormalizeDate(w);
    var shaped := w[..4] + "-" + w[5..5 + m] + "-" + w[6 + m..6 + m + d] + "-";
    assert |shaped| == |w|;
    forall k | 0 <= k < |w| ensures r[k] == shaped[k] {
      if k < 4 {
        assert IsDigit(w[..4][k]);
      } else if 5 <= k < 5 + m {
        assert IsDigit(w[5..5 + m][k - 5]);
      } else if 6 + m <= k < 6 + m + d {
        assert IsDigit(w[6 + m..6 + m + d][k - 6 - m]);
      }
    }
  }

  /** `2024年3月5日` becomes `2024-3-5-`, and the event of a note dated so at
      `99:99` starts at `2024-3-5-T99:99:00+09:00`. */
  lemma DateExample()
    ensures NormalizeDate("2024年3月5日") == "2024-3-5-"
    ensures EventDateTime("2024年3月5日", "99:99") == "2024-3-5-T99:99:00+09:00"
  {
    NormalizedDateShape("2024年3月5日", 1, 1);
  }

  /** Hours and minutes are not range-checked: `99:99` is a time. */
  lemma TimeWithoutRangeCheck(s: string, i: nat)
    requires i + 5 <= |s| && s[i..i + 5] == "99:99"
    ensures MatchAt(TimePattern, s, i) == Some(5)
  {
    assert s[i..i + 5][0] == s[i];
    assert Matches(TimePattern, s, i, 5);
  }

  // ---------------------------------------------------------------------------
  // Events

  datatype DeliveryMethod = Email | Popup

  datatype ReminderOverride = ReminderOverride(delivery: DeliveryMethod, minutes: int)

  datatype EventTime = EventTime(dateTime: string, timeZone: string)

  datatype CalendarEvent = CalendarEvent(
    summary: string,
    start: EventTime,
    end: EventTime,
    description: string,
    useDefault: bool,
    overrides: seq<ReminderOverride>)

  const TIME_ZONE: string := "Asia/Tokyo"

  /** An e-mail a day before and a pop-up thirty minutes before. */
  const DEFAULT_OVERRIDES: seq<ReminderOverride> := [ReminderOverride(Email, 24 * 60), ReminderOverride(Popup, 30)]

  /** The message `addEvent` throws when a fact is missing. */
  const MISSING_FACTS: string := "予定の日付、時間、またはタイトルが見つかりません"

  /** The event's start, Japan Standard Time. */
  function EventDateTime(date: string, time: string): (r: string)
    ensures |r| == |date| + |time| + 10
    ensures r[..|date|] == NormalizeDate(date)
    ensures r[|date|..] == "T" + time + ":00+09:00"
  {
    NormalizeDate(date) + "T" + time + ":00+09:00"
  }

  /** The record `addReminder` inserts: an event of no duration at the
      reminder time with the two default reminders. */
  function ReminderEvent(title: string, description: string, reminderTime: string): (e: CalendarEvent)
    ensures e.start == e.end && e.start == EventTime(reminderTime, TIME_ZONE)
    ensures e.summary == title && e.description == description
    ensures !e.useDefault && e.overrides == DEFAULT_OVERRIDES
  {
    var at := EventTime(reminderTime, TIME_ZONE);
    CalendarEvent(title, at, at, description, false, DEFAULT_OVERRIDES)
  }

  /** The event `addEvent` inserts for a note, given how many whole minutes
      before the event the requested reminder time lies, if one was requested
      and parsed. It is the `addReminder` record at the event's start with the
      note as its description, plus one more pop-up when the requested time is
      before the start. */
  method AddEvent(content: string, minutesDiff: Option<int>) returns (r: Result<CalendarEvent>)
    ensures r.Failure? <==> ExtractFacts(content).None?
    ensures r.Failure? ==> r.error == MISSING_FACTS
    ensures r.Success? ==>
            var f := ExtractFacts(content).value;
            r.value.(overrides := DEFAULT_OVERRIDES) == ReminderEvent(f.title, content, EventDateTime(f.date, f.time))
    ensures r.Success? ==> 2 <= |r.value.overrides| <= 3 && r.value.overrides[..2] == DEFAULT_OVERRIDES
    ensures r.Success? ==> (|r.value.overrides| == 3 <==> minutesDiff.Some? && minutesDiff.value > 0)
    ensures r.Success? && |r.value.overrides| == 3 ==> r.value.overrides[2] == ReminderOverride(Popup, minutesDiff.value)
  {
    var facts := ExtractFacts(content);
    if facts.None? {
      return Failure(MISSING_FACTS);
    }
    var date := NormalizeDate(facts.value.date);
    var time := facts.value.time;
    var title := facts.value.title;
    var dateTime := date + "T" + time + ":00+09:00";
    var overrides := DEFAULT_OVERRIDES;
    if minutesDiff.Some? {
      var minutes := minutesDiff.value;
      if minutes > 0 {
        overrides := overrides + [ReminderOverride(Popup, minutes)];
      }
    }
    var at := EventTime(dateTime, TIME_ZONE);
    r := Success(CalendarEvent(title, at, at, content, false, overrides));
  }
}
