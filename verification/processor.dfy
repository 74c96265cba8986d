/** The message pipeline, `MeetingIntentDetector.process_message`: classify,
    extract only when there is intent, and always suggest slots. */
module Processor {
  import opened Calendar
  import opened Classifier
  import opened Extractor
  import opened Suggester

  /** The dictionary `process_message` returns. */
  datatype ExtractionResult = ExtractionResult(
    hasMeetingIntent: bool,
    timeInfo: seq<string>,
    suggestedTimes: seq<string>)

  /** `process_message(text)`. The extractor and the suggester each read the
      clock: `extractNow` and `suggestNow` are those two readings. */
  function ProcessMessage(text: string, extractNow: Instant, suggestNow: Instant,
                          patterns: ClockAndDatePatterns, parse: Parser): (r: ExtractionResult)
    ensures r.hasMeetingIntent <==> DetectMeetingIntent(text)
    ensures !r.hasMeetingIntent ==> r.timeInfo == []
    ensures r.hasMeetingIntent ==> r.timeInfo == ExtractTimeInfo(text, extractNow, patterns)
    ensures r.suggestedTimes == SuggestTimes(r.timeInfo, suggestNow, parse)
    ensures |r.suggestedTimes| == 4
  {
    var hasIntent := DetectMeetingIntent(text);
    var timeInfo := if hasIntent then ExtractTimeInfo(text, extractNow, patterns) else [];
    ExtractionResult(hasIntent, timeInfo, SuggestTimes(timeInfo, suggestNow, parse))
  }

  /** Without intent nothing is extracted, yet four slots are still
      suggested, on the next weekday after the suggester's clock reading. */
  lemma NoIntentFallsBack(text: string, extractNow: Instant, suggestNow: Instant,
                          patterns: ClockAndDatePatterns, parse: Parser)
    requires !DetectMeetingIntent(text)
    ensures ProcessMessage(text, extractNow, suggestNow, patterns, parse).timeInfo == []
    ensures ProcessMessage(text, extractNow, suggestNow, patterns, parse).suggestedTimes
         == SuggestTimes([], suggestNow, parse)
    ensures forall i :: 0 <= i < |SlotHours| ==>
              SuggestTimes([], suggestNow, parse)[i] == Slot(DayOf(Fallback(suggestNow)), SlotHours[i])
    ensures FirstWeekdayAfter(DayOf(suggestNow), DayOf(Fallback(suggestNow)))
  {
    TargetDayMeaning([], suggestNow, parse);
    FallbackIsNextWeekday(suggestNow);
  }

  /** A message whose negation guard fires is treated like one without
      intent, however many meeting keywords it holds. */
  lemma GuardedMessageFallsBack(text: string, extractNow: Instant, suggestNow: Instant,
                                patterns: ClockAndDatePatterns, parse: Parser)
    requires NegationGuard(Text.Lower(text))
    ensures !ProcessMessage(text, extractNow, suggestNow, patterns, parse).hasMeetingIntent
    ensures ProcessMessage(text, extractNow, suggestNow, patterns, parse).timeInfo == []
  {
  }
}
