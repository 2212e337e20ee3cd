/**
 The optional send time (main.py, lines 137-157): a 24-hour `HH:MM` string
 checked against `^(2[0-3]|[01]?[0-9]):([0-5]?[0-9])$`, parsed with
 `strptime(time, "%H:%M")`, combined with the chosen date, and turned into the
 number of seconds to block before the first send. Instants are whole seconds.
 */
module Schedule {
  import opened Wrappers

  predicate IsDigit(c: char)
  {
    '0' <= c <= '9'
  }

  predicate AllDigits(d: string)
  {
    forall i :: 0 <= i < |d| ==> IsDigit(d[i])
  }

  /** The decimal value of a string of digits. */
  function Number(d: string): nat
    requires AllDigits(d)
    decreases |d|
  {
    if d == [] then 0 else 10 * Number(d[..|d| - 1]) + ((d[|d| - 1] as int) - ('0' as int))
  }

  /** The hour group `2[0-3]|[01]?[0-9]`. */
  predicate HourGroup(h: string)
  {
    || (|h| == 2 && h[0] == '2' && '0' <= h[1] <= '3')
    || (|h| == 2 && (h[0] == '0' || h[0] == '1') && IsDigit(h[1]))
    || (|h| == 1 && IsDigit(h[0]))
  }

  /** The minute group `[0-5]?[0-9]`. */
  predicate MinuteGroup(m: string)
  {
    || (|m| == 2 && '0' <= m[0] <= '5' && IsDigit(m[1]))
    || (|m| == 1 && IsDigit(m[0]))
  }

  /** `s` is an hour group, the colon at index `i`, then a minute group. */
  predicate SplitsAt(s: string, i: int)
  {
    0 < i < |s| && s[i] == ':' && HourGroup(s[..i]) && MinuteGroup(s[i + 1..])
  }

  /**
   The whole of `s` matches the time pattern. An hour group is one or two
   characters long, so the colon can only be at index 1 or 2.
   */
  predicate ValidTime(s: string): (b: bool)
    ensures b ==> 3 <= |s| <= 5
  {
    SplitsAt(s, 1) || SplitsAt(s, 2)
  }

  /**
   The check as written (main.py:138-139): `re.match` with `^…$`, where `$`
   also matches just before a single final newline.
   */
  predicate MatchesTimePattern(s: string): (b: bool)
    ensures ValidTime(s) ==> b
    ensures b ==> 3 <= |s| <= 6
  {
    ValidTime(s) || (|s| > 0 && s[|s| - 1] == '\n' && ValidTime(s[..|s| - 1]))
  }

  /** `d` is one or two decimal digits whose value is at most `max`. */
  predicate Field(d: string, max: nat)
  {
    1 <= |d| <= 2 && AllDigits(d) && Number(d) <= max
  }

  /** `s` names an hour 0-23 and a minute 0-59, each with one or two digits. */
  predicate DenotesClock(s: string)
  {
    exists i :: 0 < i < |s| && s[i] == ':' && Field(s[..i], 23) && Field(s[i + 1..], 59)
  }

  lemma HourGroupMeaning(h: string)
    ensures HourGroup(h) <==> Field(h, 23)
  {
    if |h| == 2 && AllDigits(h) {
      assert h[..1][..0] == [];
      assert Number(h) == 10 * Number(h[..1]) + ((h[1] as int) - ('0' as int));
    }
    if |h| == 1 && AllDigits(h) {
      assert h[..0] == [];
      assert Number(h) == (h[0] as int) - ('0' as int);
    }
  }

  lemma MinuteGroupMeaning(m: string)
    ensures MinuteGroup(m) <==> Field(m, 59)
  {
    if |m| == 2 && AllDigits(m) {
      assert m[..1][..0] == [];
      assert Number(m) == 10 * Number(m[..1]) + ((m[1] as int) - ('0' as int));
    }
    if |m| == 1 && AllDigits(m) {
      assert m[..0] == [];
      assert Number(m) == (m[0] as int) - ('0' as int);
    }
  }

  /** A string passes the pattern exactly when it names an hour 0-23 and a minute 0-59. */
  lemma ValidTimeMeaning(s: string)
    ensures ValidTime(s) <==> DenotesClock(s)
  {
    forall i | 0 < i < |s|
      ensures SplitsAt(s, i) <==> (s[i] == ':' && Field(s[..i], 23) && Field(s[i + 1..], 59))
    {
      HourGroupMeaning(s[..i]);
      MinuteGroupMeaning(s[i + 1..]);
    }
    if DenotesClock(s) {
      var i :| 0 < i < |s| && s[i] == ':' && Field(s[..i], 23) && Field(s[i + 1..], 59);
      assert SplitsAt(s, i);
    }
  }

  /** Hour and minute of a day. */
  datatype Clock = Clock(hour: nat, minute: nat)

  /**
   `strptime(s, "%H:%M")` on the strings the time check lets through: the
   digits on each side of the colon, when the whole string is a time.
   */
  function ParseTime(s: string): (r: Option<Clock>)
    ensures r.Some? <==> ValidTime(s)
    ensures r.Some? ==> r.value.hour <= 23 && r.value.minute <= 59
    ensures r.Some? ==> exists i :: SplitsAt(s, i) && r.value == Clock(Number(s[..i]), Number(s[i + 1..]))
  {
    if SplitsAt(s, 1) then
      HourGroupMeaning(s[..1]);
      MinuteGroupMeaning(s[2..]);
      Some(Clock(Number(s[..1]), Number(s[2..])))
    else if SplitsAt(s, 2) then
      HourGroupMeaning(s[..2]);
      MinuteGroupMeaning(s[3..]);
      Some(Clock(Number(s[..2]), Number(s[3..])))
    else None
  }

  /** The one or two digits of a number below 100, without padding. */
  function Digits(n: nat): (d: string)
    requires n < 100
  {
    if n < 10 then [('0' as int + n) as char]
    else [('0' as int + n / 10) as char, ('0' as int + n % 10) as char]
  }

  /** A clock written `H:M` with no zero padding. */
  function Format(c: Clock): string
    requires c.hour <= 23 && c.minute <= 59
  {
    Digits(c.hour) + ":" + Digits(c.minute)
  }

  /** Every hour 0-23 and minute 0-59, written out, passes the check and parses back to itself. */
  lemma ParseFormat(c: Clock)
    requires c.hour <= 23 && c.minute <= 59
    ensures ValidTime(Format(c))
    ensures ParseTime(Format(c)) == Some(c)
  {
    var h, m, s := Digits(c.hour), Digits(c.minute), Format(c);
    DigitsValue(c.hour);
    DigitsValue(c.minute);
    HourGroupMeaning(h);
    MinuteGroupMeaning(m);
    assert s[..|h|] == h && s[|h|] == ':' && s[|h| + 1..] == m;
    assert SplitsAt(s, |h|);
  }

  lemma DigitsValue(n: nat)
    requires n < 100
    ensures 1 <= |Digits(n)| <= 2 && AllDigits(Digits(n)) && Number(Digits(n)) == n
  {
    var d := Digits(n);
    if n < 10 {
      assert d[..0] == [];
    } else {
      assert d[..1][..0] == [];
      assert Number(d) == 10 * Number(d[..1]) + n % 10;
    }
  }

  /** The examples the pattern is meant to reject and accept. */
  lemma TimeExamples()
    ensures !ValidTime("24:00") && !ValidTime("29:00") && !ValidTime("7:60")
    ensures ValidTime("7:5") && ParseTime("7:5") == Some(Clock(7, 5))
    ensures ParseTime("23:59") == Some(Clock(23, 59))
  {
    assert "7:5"[..1] == "7" && "7:5"[2..] == "5";
    assert "23:59"[..2] == "23" && "23:59"[3..] == "59";
    assert "23:59"[..2][..1] == "2";
    assert "23:59"[3..][..1] == "5";
  }

  /**
   The check as written lets a time followed by a newline through, and
   `strptime` then refuses it ("unconverted data remains").
   */
  lemma TrailingNewlineSlipsThrough()
    ensures MatchesTimePattern("7:05\n")
    ensures !ValidTime("7:05\n")
    ensures ParseTime("7:05\n") == None
  {
    assert "7:05\n"[..4] == "7:05";
    assert "7:05"[..1] == "7" && "7:05"[2..] == "05";
  }

  /** The newline is the only thing the check as written lets through beyond a parseable time. */
  lemma PatternBeyondValid(s: string)
    requires MatchesTimePattern(s) && !ValidTime(s)
    ensures ParseTime(s) == None
    ensures |s| > 0 && s[|s| - 1] == '\n' && ParseTime(s[..|s| - 1]).Some?
  {
  }

  const SecondsPerDay: nat := 86400

  /** `datetime.combine(day, clock)` in seconds, `day` counting days from an epoch. */
  function Moment(day: int, c: Clock): (t: int)
    ensures c.hour <= 23 && c.minute <= 59 ==> day * SecondsPerDay <= t < day * SecondsPerDay + SecondsPerDay
  {
    day * SecondsPerDay + c.hour * 3600 + c.minute * 60
  }

  /** Seconds to block before sending: dispatch starts at the later of `target` and `now`. */
  function Wait(target: int, now: int): (w: nat)
    ensures now + w >= target
    ensures w == 0 || now + w == target
    ensures w > 0 <==> target > now
  {
    if target > now then target - now else 0
  }

  datatype ScheduleError = Unparsable(time: string)

  /**
   The wait before the first send. With no time given the target is `now`
   itself, so there is no wait; otherwise the time is parsed and combined
   with `day`.
   */
  function ScheduleWait(day: int, time: string, now: int): (r: Result<nat, ScheduleError>)
    ensures time == "" ==> r == Ok(0)
    ensures time != "" ==> (r.Ok? <==> ValidTime(time))
    ensures time != "" && r.Ok? ==> now + r.value >= Moment(day, ParseTime(time).value)
    ensures time != "" && r.Ok? && r.value > 0 ==> now + r.value == Moment(day, ParseTime(time).value)
  {
    if time == "" then Ok(Wait(now, now))
    else match ParseTime(time)
      case None => Err(Unparsable(time))
      case Some(c) => Ok(Wait(Moment(day, c), now))
  }
}
