/** The time-slot suggester, `MeetingIntentDetector.suggest_times`: adopt
    the first extracted token that parses to an instant after the clock
    reading, otherwise the next weekday after it; then offer four slots on
    that date. */
module Suggester {
  import opened Optional
  import opened Calendar
  import opened Formatting

  /** `dateutil.parser.parse(token, fuzzy=True, dayfirst=True)` followed by
      the comparison with the aware clock reading: `Some(t)` when the token
      parses to an aware instant `t`, `None` when parsing raises or the
      result cannot be compared (a naive datetime raises `TypeError`, which
      the loop swallows like a parse failure). */
  type Parser = string -> Option<Instant>

  /** Token `tok` would be adopted: it parses, and to an instant strictly
      after `now`. */
  predicate Future(parse: Parser, now: Instant, tok: string) {
    parse(tok).Some? && parse(tok).value > now
  }

  /** Token `i` is the one the loop adopts: it is in the future and no
      earlier token is. */
  predicate AdoptedAt(tokens: seq<string>, parse: Parser, now: Instant, i: int) {
    0 <= i < |tokens| && Future(parse, now, tokens[i])
    && forall j :: 0 <= j < i ==> !Future(parse, now, tokens[j])
  }

  /** The parse loop: the first token in the future, or nothing. */
  function FirstFuture(tokens: seq<string>, parse: Parser, now: Instant): (r: Option<Instant>)
    ensures r.Some? ==> r.value > now
  {
    if tokens == [] then None
    else if Future(parse, now, tokens[0]) then parse(tokens[0])
    else FirstFuture(tokens[1..], parse, now)
  }

  /** The loop adopts `t` exactly when some token is the first one in the
      future and parses to `t`. */
  lemma {:induction false} FirstFutureMeaning(tokens: seq<string>, parse: Parser, now: Instant, t: Instant)
    ensures FirstFuture(tokens, parse, now) == Some(t) <==>
              exists i :: AdoptedAt(tokens, parse, now, i) && parse(tokens[i]) == Some(t)
  {
    if tokens != [] {
      var rest := tokens[1..];
      FirstFutureMeaning(rest, parse, now, t);
      if Future(parse, now, tokens[0]) {
        if exists i :: AdoptedAt(tokens, parse, now, i) && parse(tokens[i]) == Some(t) {
          var i :| AdoptedAt(tokens, parse, now, i) && parse(tokens[i]) == Some(t);
          assert i == 0;
        }
        if parse(tokens[0]) == Some(t) {
          assert AdoptedAt(tokens, parse, now, 0);
        }
      } else {
        if exists i :: AdoptedAt(tokens, parse, now, i) && parse(tokens[i]) == Some(t) {
          var i :| AdoptedAt(tokens, parse, now, i) && parse(tokens[i]) == Some(t);
          assert AdoptedAt(rest, parse, now, i - 1) && parse(rest[i - 1]) == Some(t);
        }
        if exists i :: AdoptedAt(rest, parse, now, i) && parse(rest[i]) == Some(t) {
          var i :| AdoptedAt(rest, parse, now, i) && parse(rest[i]) == Some(t);
          assert AdoptedAt(tokens, parse, now, i + 1) && parse(tokens[i + 1]) == Some(t);
        }
      }
    }
  }

  /** The loop falls through exactly when no token is in the future. */
  lemma {:induction false} FirstFutureNone(tokens: seq<string>, parse: Parser, now: Instant)
    ensures FirstFuture(tokens, parse, now).None? <==>
              forall i :: 0 <= i < |tokens| ==> !Future(parse, now, tokens[i])
  {
    if tokens != [] {
      FirstFutureNone(tokens[1..], parse, now);
      assert forall i :: 1 <= i < |tokens| ==> tokens[i] == tokens[1..][i - 1];
    }
  }

  /** `break` on the first adopted token: whatever follows a list that
      already holds a future token has no effect, and a list without one
      leaves the choice to what follows. */
  lemma {:induction false} FirstFutureAppend(pre: seq<string>, post: seq<string>, parse: Parser, now: Instant)
    ensures FirstFuture(pre + post, parse, now)
         == if FirstFuture(pre, parse, now).Some? then FirstFuture(pre, parse, now)
            else FirstFuture(post, parse, now)
  {
    if pre == [] {
      assert pre + post == post;
    } else {
      assert (pre + post)[0] == pre[0];
      assert (pre + post)[1..] == pre[1..] + post;
      FirstFutureAppend(pre[1..], post, parse, now);
    }
  }

  // ---------------------------------------------------------------------
  // The fallback: the next weekday
  // ---------------------------------------------------------------------

  /** `now + timedelta(days=1)`, moved on to Monday when that lands on a
      Saturday or Sunday. */
  function Fallback(now: Instant): Instant {
    var t := AddDays(now, 1);
    var w := Weekday(DayOf(t));
    if w >= 5 then AddDays(t, 7 - w) else t
  }

  /** The first weekday strictly after day `n`. */
  ghost predicate FirstWeekdayAfter(n: int, d: int) {
    n < d && Weekday(d) < 5 && forall e :: n < e < d ==> Weekday(e) >= 5
  }

  /** The day the fallback lands on, from the weekday of the day after. */
  lemma FallbackDay(now: Instant)
    ensures var n := DayOf(now); var w := Weekday(n + 1);
            DayOf(Fallback(now)) == if w >= 5 then n + 8 - w else n + 1
  {
    var t := AddDays(now, 1);
    AddDaysMeaning(now, 1);
    var w := Weekday(DayOf(t));
    if w >= 5 {
      AddDaysMeaning(t, 7 - w);
    }
  }

  /** The fallback falls on the first weekday after the date of `now`. */
  lemma FallbackIsNextWeekday(now: Instant)
    ensures FirstWeekdayAfter(DayOf(now), DayOf(Fallback(now)))
  {
    var n := DayOf(now);
    FallbackDay(now);
    var d := DayOf(Fallback(now));
    WeekdayStep(n + 1);
    WeekdayStep(n + 2);
    forall e | n < e < d
      ensures Weekday(e) >= 5
    {
      assert e == n + 1 || e == n + 2;
    }
  }

  /** The fallback is never on a weekend and lies one to three days after
      the date of `now`: Friday and Saturday and Sunday move to Monday, any
      other day to the next day. */
  lemma FallbackDays(now: Instant)
    ensures Weekday(DayOf(Fallback(now))) < 5
    ensures DayOf(now) + 1 <= DayOf(Fallback(now)) <= DayOf(now) + 3
    ensures Weekday(DayOf(now)) == 4 ==> DayOf(Fallback(now)) == DayOf(now) + 3
    ensures Weekday(DayOf(now)) == 5 ==> DayOf(Fallback(now)) == DayOf(now) + 2
    ensures Weekday(DayOf(now)) == 6 || Weekday(DayOf(now)) < 4 ==> DayOf(Fallback(now)) == DayOf(now) + 1
  {
    var n := DayOf(now);
    FallbackIsNextWeekday(now);
    FallbackDay(now);
    WeekdayStep(n);
  }

  /** Friday 2024-06-14 falls back to Monday 2024-06-17. */
  lemma FallbackFromFriday(now: Instant)
    requires DayOf(now) == ToOrdinal(Date(2024, 6, 14))
    ensures FromOrdinal(DayOf(Fallback(now))) == Date(2024, 6, 17)
  {
    assert ToOrdinal(Date(2024, 6, 14)) == 739051;
    assert Weekday(739051) == 4;
    FallbackDays(now);
    assert ToOrdinal(Date(2024, 6, 17)) == 739054;
    FromOrdinalToOrdinal(Date(2024, 6, 17));
  }

  // ---------------------------------------------------------------------
  // The slots
  // ---------------------------------------------------------------------

  /** The hours after midnight the slots are offered at. */
  const SlotHours: seq<nat> := [9, 11, 14, 16]

  /** The date the slots go on: the adopted token's, or the fallback's. */
  function TargetDay(tokens: seq<string>, now: Instant, parse: Parser): (n: int)
    ensures n >= 1
  {
    match FirstFuture(tokens, parse, now)
    case Some(t) => DayOf(t)
    case None => DayOf(Fallback(now))
  }

  lemma Regroup(a: string, b: string, c: string)
    ensures a + (b + c) == a + b + c
  {
  }

  /** `(midnight of day n + timedelta(hours=h)).isoformat()`. */
  function Slot(n: int, h: nat): string
    requires n >= 1
  {
    IsoFormat(Midnight(n) + h * MicrosPerHour)
  }

  /** A slot is day `n` at `h` o'clock sharp, with no minutes, seconds or
      fraction, in UTC. */
  lemma SlotMeaning(n: int, h: int)
    requires n >= 1 && 0 <= h < 24
    ensures Slot(n, h) == FormatDate(FromOrdinal(n)) + "T" + ZeroPad(h, 2) + ":00:00" + "+00:00"
  {
    IsoFormatOnTheHour(n, h);
    Regroup(FormatDate(FromOrdinal(n)) + "T", ZeroPad(h, 2), ":00:00");
  }

  /** The slots go on the date of the first token in the future, or on
      the fallback's date when there is none. */
  lemma TargetDayMeaning(tokens: seq<string>, now: Instant, parse: Parser)
    ensures forall i :: AdoptedAt(tokens, parse, now, i) ==>
              TargetDay(tokens, now, parse) == DayOf(parse(tokens[i]).value)
    ensures (forall i :: 0 <= i < |tokens| ==> !Future(parse, now, tokens[i])) ==>
              TargetDay(tokens, now, parse) == DayOf(Fallback(now))
  {
    FirstFutureNone(tokens, parse, now);
    forall i | AdoptedAt(tokens, parse, now, i)
      ensures TargetDay(tokens, now, parse) == DayOf(parse(tokens[i]).value)
    {
      FirstFutureMeaning(tokens, parse, now, parse(tokens[i]).value);
    }
  }

  /** `suggest_times(extracted_times)` with the clock reading `now`: the
      chosen instant is cut back to midnight and each slot hour is added to
      it. */
  function SuggestTimes(tokens: seq<string>, now: Instant, parse: Parser): (r: seq<string>)
    ensures |r| == |SlotHours|
  {
    var n := TargetDay(tokens, now, parse);
    seq(|SlotHours|, i requires 0 <= i < |SlotHours| => Slot(n, SlotHours[i]))
  }

  /** Tokens after the adopted one have no effect on the slots, and tokens
      before the first future one have none either. */
  lemma SuggestTimesIgnoresRest(pre: seq<string>, post: seq<string>, now: Instant, parse: Parser)
    ensures FirstFuture(pre, parse, now).Some? ==>
              SuggestTimes(pre + post, now, parse) == SuggestTimes(pre, now, parse)
    ensures FirstFuture(pre, parse, now).None? ==>
              SuggestTimes(pre + post, now, parse) == SuggestTimes(post, now, parse)
  {
    FirstFutureAppend(pre, post, parse, now);
  }

  /** Slot `i` is the target date at `SlotHours[i]` o'clock sharp, with no
      minutes, seconds or fraction, in UTC. */
  lemma SuggestTimesMeaning(tokens: seq<string>, now: Instant, parse: Parser, i: int)
    requires 0 <= i < |SlotHours|
    ensures SuggestTimes(tokens, now, parse)[i]
         == FormatDate(FromOrdinal(TargetDay(tokens, now, parse))) + "T"
            + ZeroPad(SlotHours[i], 2) + ":00:00" + "+00:00"
  {
    SlotMeaning(TargetDay(tokens, now, parse), SlotHours[i]);
  }

  /** The two-digit hours of the four slots. */
  lemma SlotHoursWritten()
    ensures ZeroPad(SlotHours[0], 2) == "09"
    ensures ZeroPad(SlotHours[1], 2) == "11"
    ensures ZeroPad(SlotHours[2], 2) == "14"
    ensures ZeroPad(SlotHours[3], 2) == "16"
  {
    assert SlotHours[0] == 9 && SlotHours[1] == 11 && SlotHours[2] == 14 && SlotHours[3] == 16;
    assert ZeroPad(9, 2) == "09" by {
      assert Zeros(1) == "0";
    }
    TwoDigits(11);
    TwoDigits(14);
    TwoDigits(16);
  }

  /** A two-digit number is written as its two digits, without padding. */
  lemma TwoDigits(n: nat)
    requires 10 <= n < 100
    ensures ZeroPad(n, 2) == [DigitChar(n / 10), DigitChar(n % 10)]
  {
    DecimalStep(n);
  }

  /** 2024-06-17 is written "2024-06-17". */
  lemma June17Written()
    ensures FormatDate(Date(2024, 6, 17)) == "2024-06-17"
  {
    DecimalStep(2024);
    DecimalStep(202);
    DecimalStep(20);
    assert ZeroPad(2024, 4) == "2024";
    DecimalStep(17);
    assert ZeroPad(17, 2) == "17";
    assert ZeroPad(6, 2) == "06" by {
      assert Zeros(1) == "0";
    }
  }

  /** The four slot texts on 2024-06-17, spelled out. */
  lemma June17Slots()
    ensures "2024-06-17" + "T" + "09" + ":00:00" + "+00:00" == "2024-06-17T09:00:00+00:00"
    ensures "2024-06-17" + "T" + "11" + ":00:00" + "+00:00" == "2024-06-17T11:00:00+00:00"
    ensures "2024-06-17" + "T" + "14" + ":00:00" + "+00:00" == "2024-06-17T14:00:00+00:00"
    ensures "2024-06-17" + "T" + "16" + ":00:00" + "+00:00" == "2024-06-17T16:00:00+00:00"
  {
  }

  /** With no tokens on Friday 2024-06-14 the slots go on Monday
      2024-06-17. */
  lemma SuggestFromFriday(now: Instant, parse: Parser)
    requires DayOf(now) == ToOrdinal(Date(2024, 6, 14))
    ensures SuggestTimes([], now, parse)
         == ["2024-06-17T09:00:00+00:00", "2024-06-17T11:00:00+00:00",
             "2024-06-17T14:00:00+00:00", "2024-06-17T16:00:00+00:00"]
  {
    FallbackFromFriday(now);
    var d := TargetDay([], now, parse);
    assert d == DayOf(Fallback(now));
    June17Written();
    assert FormatDate(FromOrdinal(d)) == "2024-06-17";
    SlotHoursWritten();
    June17Slots();
    var r := SuggestTimes([], now, parse);
    SuggestTimesMeaning([], now, parse, 0);
    SuggestTimesMeaning([], now, parse, 1);
    SuggestTimesMeaning([], now, parse, 2);
    SuggestTimesMeaning([], now, parse, 3);
    assert r[0] == "2024-06-17T09:00:00+00:00";
    assert r[1] == "2024-06-17T11:00:00+00:00";
    assert r[2] == "2024-06-17T14:00:00+00:00";
    assert r[3] == "2024-06-17T16:00:00+00:00";
    FourItems(r, "2024-06-17T09:00:00+00:00", "2024-06-17T11:00:00+00:00",
              "2024-06-17T14:00:00+00:00", "2024-06-17T16:00:00+00:00");
  }

  lemma FourItems(r: seq<string>, a: string, b: string, c: string, d: string)
    requires |r| == 4 && r[0] == a && r[1] == b && r[2] == c && r[3] == d
    ensures r == [a, b, c, d]
  {
  }
}
