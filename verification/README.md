# Meeting-intent detector, modelled in Dafny

This project models `MeetingIntentDetector` from `backend/chat/nlp.py`, the
chat backend's message analyser. It turns one chat message into a record with
three fields:

- `has_meeting_intent`: whether the message is about arranging a meeting;
- `time_info`: the temporal expressions found in it;
- `suggested_times`: four ISO-8601 slots on the date the message points at.

The model is split the way the class is.

- `Text`: ASCII `str.lower()`, the regex word class `\w` and assertion `\b`,
  Python's `in` on strings, and `str.strip()`.
- `Classifier`: `detect_meeting_intent`. The negation-guard regex is a
  reference predicate (`NegationGuard`) with a one-pass scanner proved equal
  to it. The keyword test is a substring search over `MEETING_KEYWORDS`.
- `Extractor`: `extract_time_info`. Pattern 1 of `TIME_PATTERNS` (the
  relative-day words) is modelled as the left-to-right `re.findall` scan with
  ordered alternation. Patterns 2 to 6 are parameters. The outer and inner
  loops, the tuple-to-first-group rule, `strip()`, and the three additive
  relative-day checks are modelled in full.
- `Calendar` and `Formatting`: the proleptic Gregorian calendar as Python's
  `datetime` numbers it (ordinal 1 is 0001-01-01, Monday is weekday 0).
  Also `strftime('%Y-%m-%d')` with a reader that undoes it, and
  `isoformat()` of an aware UTC datetime.
- `Suggester`: `suggest_times`. It covers the first-future-token loop, the
  next-weekday fallback, truncation to midnight and the four slots.
- `Processor`: `process_message`.

An instant is a count of microseconds since 0001-01-01T00:00:00 UTC. The two
`datetime.now(pytz.UTC)` reads (nlp.py:33 and nlp.py:68) are separate
parameters of `ProcessMessage`. `dateutil.parser.parse` is an oracle
`Parser = string -> Option<Instant>`. `None` stands for any exception the loop
swallows. That includes the `TypeError` from comparing a naive result with the
aware clock reading.

`isoformat()` of a `pytz.UTC` datetime ends in `+00:00`, which is what `Slot`
writes. The code reads the clock twice (nlp.py:33, nlp.py:68), so the
extractor's and the suggester's readings are separate inputs.

## Model

| member | source | states |
|---|---|---|
| Text.Contains | backend/chat/nlp.py:28 | `w in s` holds exactly when `w` occurs in `s` at some index |
| Text.LowerMeaning | backend/chat/nlp.py:23 | `Lower`, the model of `str.lower()`, leaves no upper-case letter, keeps every other character, and moves each upper-case letter 32 code points up |
| Text.StripMeaning | backend/chat/nlp.py:41 | `Strip`, the model of `str.strip()`, returns a slice of the input with only white space cut off either side, and that slice neither starts nor ends with white space |
| Text.StripIdempotent | backend/chat/nlp.py:41 | stripping a stripped token changes nothing |
| Classifier.HasNegationGuard | backend/chat/nlp.py:25 | the one-pass scan succeeds exactly when some guard word is followed, later on the same line, by "meet" or "meeting", both as whole words |
| Classifier.DetectMeetingIntent | backend/chat/nlp.py:21-28 | false whenever the guard matches the lower-cased text; otherwise true exactly when some keyword occurs in it; false for the empty message |
| Classifier.GuardedMention | backend/chat/nlp.py:25 | a guard word and then a meet word, each set off by spaces, with no line break between them, make the guard match |
| Classifier.GuardedMentionHasNoIntent | backend/chat/nlp.py:25-26 | such a message has no intent, whatever keywords it contains |
| Classifier.GuardNeedsMeet | backend/chat/nlp.py:25 | the guard can only match text containing "meet" |
| Classifier.IntentWithoutMeet | backend/chat/nlp.py:25-28 | without "meet" in the lower-cased text, intent is exactly the presence of a keyword |
| Extractor.AlternativeAtMeaning | backend/chat/nlp.py:13 | an alternative of pattern 1 matches at a position exactly when the text there, lower-cased, is that word and a word boundary lies on either side |
| Extractor.FirstAlternativeMeaning | backend/chat/nlp.py:13 | the alternative chosen at a position matches there as a whole word, ignoring case; when none is chosen, none of the remaining ones matches |
| Extractor.FirstAlternativeIsFirst | backend/chat/nlp.py:13 | no alternative listed before the chosen one matches at that position |
| Extractor.RelativeDaySpans | backend/chat/nlp.py:36 | `re.findall` of pattern 1 from a position: every reported match lies inside the text, starts at or after that position, and is one of the four words |
| Extractor.RelativeDaySpansSound | backend/chat/nlp.py:13 | every match of pattern 1 that the scan reports starts where the first matching alternative is taken |
| Extractor.RelativeDaySpansComplete | backend/chat/nlp.py:36 | no whole-word occurrence of the four words is skipped: some reported match covers its position |
| Extractor.RelativeDaySpansOrdered | backend/chat/nlp.py:36 | the matches of pattern 1 do not overlap and come in text order |
| Extractor.RelativeDaySpansEmpty | backend/chat/nlp.py:36-37 | pattern 1 finds nothing exactly when none of its four words occurs anywhere as a whole word, ignoring case |
| Extractor.RelativeDayMatches | backend/chat/nlp.py:36 | `RelativeDayMatches`, the match strings of pattern 1, has one entry per reported match |
| Extractor.RelativeDayMatchesText | backend/chat/nlp.py:36 | the `n`-th pattern-1 match is the message's own text under the `n`-th reported span, in the message's case, and lower-cased it is an alternative matching there; with `RelativeDaySpansOrdered` the matches come in text order |
| Extractor.RelativeDayMatchesWords | backend/chat/nlp.py:13 | each pattern-1 match is a whole `findall` string which, lower-cased, is one of the four words |
| Extractor.HarvestMeaning | backend/chat/nlp.py:38-41 | `Harvest` gives one token per match, in match order, each being the match or its first group with white space stripped |
| Extractor.ScanPatternsAppend | backend/chat/nlp.py:35-41 | scanning two lists of patterns in turn concatenates their tokens |
| Extractor.ExtractTimeInfoOrder | backend/chat/nlp.py:30-53 | `ExtractTimeInfo` returns pattern 1's tokens, then pattern 2's, and so on to pattern 6's, then the resolved relative dates |
| Extractor.ExtractTimeInfoCount | backend/chat/nlp.py:35-51 | nothing is deduplicated or dropped: the length is the total match count plus the number of relative dates |
| Extractor.RelativeOffsetsMeaning | backend/chat/nlp.py:44-51 | offset 2, 1 or 0 is listed exactly when its phrase occurs in the lower-cased text; at most three, each at most 2, in strictly decreasing order |
| Extractor.RelativeDatesInOrder | backend/chat/nlp.py:43-51 | `RelativeDates` has one date per offset, the `n`-th being the date the `n`-th offset days on, so +2 comes before +1 before +0 |
| Extractor.RelativeDatesDistinct | backend/chat/nlp.py:44-51 | no date is appended twice |
| Extractor.RelativeDatesMeaning | backend/chat/nlp.py:44-51 | the date `k` days on is appended exactly when the phrase for `k` occurs in the lower-cased text |
| Extractor.RelativeDatesBound | backend/chat/nlp.py:43-51 | at most three dates are appended, and only those for today, tomorrow and the day after |
| Extractor.DayAfterTomorrowAlsoTomorrow | backend/chat/nlp.py:44-49 | "day after tomorrow" yields the +2 date and then the +1 date |
| Extractor.ResolvedDateInjective | backend/chat/nlp.py:45-51 | different day offsets are written as different dates |
| Calendar.AddDaysMeaning | backend/chat/nlp.py:45 | adding `k` days moves the date `k` days on |
| Calendar.FromOrdinal | backend/chat/nlp.py:46 | the date computed for an ordinal is a valid date whose ordinal is that number |
| Calendar.FromOrdinalToOrdinal | backend/chat/nlp.py:46 | round trip: the date of a date's ordinal is the date itself |
| Calendar.OrdinalInjective | backend/chat/nlp.py:46 | distinct valid dates have distinct ordinals |
| Formatting.ParseFormatDate | backend/chat/nlp.py:46 | reading back `FormatDate`'s `%Y-%m-%d` rendering gives the date |
| Formatting.FormatDateInjective | backend/chat/nlp.py:46 | distinct dates are rendered differently |
| Formatting.IsoFormatOnTheHour | backend/chat/nlp.py:93-94 | `IsoFormat` of midnight plus `h` hours is the date, `T`, `HH:00:00` and `+00:00` |
| Suggester.FirstFuture | backend/chat/nlp.py:73-80 | an adopted instant is strictly after the clock reading |
| Suggester.FirstFutureMeaning | backend/chat/nlp.py:73-80 | the loop adopts `t` exactly when some token is the first in the future and parses to `t` |
| Suggester.FirstFutureNone | backend/chat/nlp.py:73-82 | the loop adopts nothing exactly when no token parses to an instant in the future |
| Suggester.FirstFutureAppend | backend/chat/nlp.py:76-78 | after the first future token, further tokens change nothing; before one, the choice is left to what follows |
| Suggester.FallbackDay | backend/chat/nlp.py:84-86 | `Fallback` is the next day, or the Monday after when the next day falls at the weekend |
| Suggester.FallbackIsNextWeekday | backend/chat/nlp.py:82-86 | `Fallback` lands on the first weekday strictly after the clock's date |
| Suggester.FallbackDays | backend/chat/nlp.py:82-86 | never a Saturday or Sunday; 1 to 3 days on; Friday goes +3, Saturday +2, Sunday and Monday to Thursday +1 |
| Suggester.FallbackFromFriday | backend/chat/nlp.py:82-86 | Friday 2024-06-14 falls back to Monday 2024-06-17 |
| Suggester.TargetDayMeaning | backend/chat/nlp.py:72-89 | `TargetDay`, the slot date, is the adopted token's date, or the fallback's when no token is in the future |
| Suggester.SlotMeaning | backend/chat/nlp.py:89-94 | `Slot` writes its date, `T`, the two-digit hour, `:00:00` and `+00:00` |
| Suggester.SuggestTimes | backend/chat/nlp.py:92-96 | exactly four slots |
| Suggester.SuggestTimesIgnoresRest | backend/chat/nlp.py:73-78 | first match wins: tokens after the adopted one do not change the slots |
| Suggester.SuggestTimesMeaning | backend/chat/nlp.py:88-96 | slot `i` is on the target date at hour `[9, 11, 14, 16][i]` sharp, in UTC |
| Suggester.SlotHoursWritten | backend/chat/nlp.py:92 | the four hours are written "09", "11", "14", "16" |
| Suggester.SuggestFromFriday | backend/chat/nlp.py:66-96 | with no tokens on Friday 2024-06-14 the slots are 09:00, 11:00, 14:00 and 16:00 on 2024-06-17, `+00:00` |
| Processor.ProcessMessage | backend/chat/nlp.py:55-64 | the intent flag is the classifier's verdict; `time_info` is empty without intent and the extractor's output with it; the four slots are always computed from `time_info` |
| Processor.NoIntentFallsBack | backend/chat/nlp.py:57-63 | without intent, nothing is extracted and the slots go on the first weekday after the clock's date |
| Processor.GuardedMessageFallsBack | backend/chat/nlp.py:55-58 | a message the guard matches reports no intent and no time info |

## Left out

- `backend/chat/views.py`, `backend/chat/serializers.py`, `backend/chat/urls.py` and the React front end are not part of this model. They are I/O and presentation around `process_message`.
- `dateutil.parser.parse(fuzzy=True, dayfirst=True)` is an oracle parameter. It is a foreign library whose grammar is out of scope.
- Patterns 2 to 6 of `TIME_PATTERNS` are parameters, not regexes. Their tokens flow through the model unchanged. What is proved about them is order, count and stripping, not which substrings they match.
- Case folding and `\w` are ASCII only. Python lower-cases and classifies all of Unicode, which would change results only for non-ASCII word characters (letters, digits and other numerals): in "today²" Python sees no word boundary after "today", the model does.
- `Text.LowerMeaning`: states only the ASCII behaviour, because that is all the model lower-cases.
- A token that parses to an aware datetime with a non-UTC offset is read as a UTC instant. In the source the slots would then follow that offset's local date and print that offset.
- `Formatting.FormatDate`: always pads the year to four digits. The C library's `%Y` may leave years below 1000 unpadded; such years cannot come from a current clock.
- Years beyond 9999, which raise `OverflowError` in `datetime`, are not bounded. Instants are unbounded naturals.
- `Calendar.FromOrdinal`: finds the year by walking one year at a time rather than by CPython's 400/100/4-year division. The result is the same date, and that is what its contract states.
- The two `datetime.now` reads are independent parameters. Nothing relates them, since the clock can move between them.
