/** The temporal expression extractor, `MeetingIntentDetector.extract_time_info`:
    every match of the six `TIME_PATTERNS` in list order, then the relative
    days resolved against the clock. */
module Extractor {
  import opened Optional
  import opened Text
  import opened Calendar
  import opened Formatting

  /** One element of the list `re.findall` returns: the match itself when
      the pattern has one group, or the tuple of all groups when it has
      several. */
  datatype FindAllItem = Whole(text: string) | Groups(first: string, rest: seq<string>)

  /** `re.findall(pattern, text, re.IGNORECASE)` for one pattern. */
  type Matcher = string -> seq<FindAllItem>

  /** Patterns 2 to 6 of `TIME_PATTERNS`, whose regexes are not modelled:
      clock time with minutes and meridiem, hour with meridiem, a
      "between ... and ..." range, "on <day> <word> <year>", and a numeric
      day/month/year date. */
  datatype ClockAndDatePatterns = ClockAndDatePatterns(
    clockWithMinutes: Matcher,
    clockHour: Matcher,
    hourRange: Matcher,
    dayMonthYear: Matcher,
    numericDate: Matcher)

  // ---------------------------------------------------------------------
  // Pattern 1: \b(today|tomorrow|day after tomorrow|yesterday)\b
  // ---------------------------------------------------------------------

  /** The alternatives of the first pattern, in the order the regex tries
      them. */
  const RelativeDayWords: seq<string> := ["today", "tomorrow", "day after tomorrow", "yesterday"]

  /** Alternative `w` matches at position `i` of `t`, ignoring case, between
      word boundaries (read on the lower-cased text; `AlternativeAtMeaning`
      shows they are the boundaries of `t` itself). */
  predicate AlternativeAt(t: string, i: int, w: string) {
    WordAt(Lower(t), i, w)
  }

  /** `\bw\b` under `re.IGNORECASE` at `i`: the text there is `w` once
      lower-cased, and `t` itself has a word boundary on either side. */
  lemma AlternativeAtMeaning(t: string, i: int, w: string)
    ensures AlternativeAt(t, i, w) <==>
              && 0 <= i && i + |w| <= |t|
              && Lower(t[i..i + |w|]) == w
              && Boundary(t, i) && Boundary(t, i + |w|)
  {
    if 0 <= i && i + |w| <= |t| {
      var lt := Lower(t);
      LowerSlice(t, i, i + |w|);
      assert OccursAt(lt, i, w) <==> Lower(t[i..i + |w|]) == w;
      LowerKeepsWordChars(t, i);
      LowerKeepsWordChars(t, i + |w|);
    }
  }

  /** The first alternative, from the `k`-th on, that matches at `i`. */
  function FirstAlternative(t: string, i: int, k: nat): (r: Option<nat>)
    requires k <= |RelativeDayWords|
    ensures r.Some? ==> k <= r.value < |RelativeDayWords| && 0 <= i && i + |RelativeDayWords[r.value]| <= |t|
    decreases |RelativeDayWords| - k
  {
    if k == |RelativeDayWords| then None
    else if AlternativeAt(t, i, RelativeDayWords[k]) then Some(k)
    else FirstAlternative(t, i, k + 1)
  }

  /** The alternative taken matches at `i`; when none is taken, none of the
      remaining ones matches there. */
  lemma {:induction false} FirstAlternativeMeaning(t: string, i: int, k: nat)
    requires k <= |RelativeDayWords|
    ensures FirstAlternative(t, i, k).Some? ==> AlternativeAt(t, i, RelativeDayWords[FirstAlternative(t, i, k).value])
    ensures FirstAlternative(t, i, k).None? ==>
              forall m :: k <= m < |RelativeDayWords| ==> !AlternativeAt(t, i, RelativeDayWords[m])
    decreases |RelativeDayWords| - k
  {
    if k < |RelativeDayWords| && !AlternativeAt(t, i, RelativeDayWords[k]) {
      FirstAlternativeMeaning(t, i, k + 1);
    }
  }

  /** Alternation tries the words in order: no word before the one taken
      matches at `i`. */
  lemma {:induction false} FirstAlternativeIsFirst(t: string, i: int, k: nat)
    requires k <= |RelativeDayWords|
    ensures FirstAlternative(t, i, k).Some? ==>
              forall m :: k <= m < FirstAlternative(t, i, k).value ==> !AlternativeAt(t, i, RelativeDayWords[m])
    decreases |RelativeDayWords| - k
  {
    if k < |RelativeDayWords| && !AlternativeAt(t, i, RelativeDayWords[k]) {
      FirstAlternativeIsFirst(t, i, k + 1);
    }
  }

  /** A match of the first pattern: where it starts and which alternative
      matched. */
  datatype Span = Span(start: nat, word: nat)

  /** `sp` names one of the four words and lies within `t`, at or after
      position `i`. */
  predicate InRange(t: string, i: int, sp: Span) {
    i <= sp.start && sp.word < |RelativeDayWords| && sp.start + |RelativeDayWords[sp.word]| <= |t|
  }

  /** `sp` is a match the scan takes at or after `i`: its alternative is the
      first of the four that matches at its start. By
      `FirstAlternativeMeaning` it matches there between word boundaries. */
  predicate SpanAt(t: string, i: int, sp: Span) {
    i <= sp.start <= |t| && FirstAlternative(t, sp.start, 0) == Some(sp.word)
  }

  /** Where the span ends. */
  function SpanEnd(sp: Span): int
    requires sp.word < |RelativeDayWords|
  {
    sp.start + |RelativeDayWords[sp.word]|
  }

  /** Some relative-day word occurs at `p` of `t` as a whole word, ignoring
      case. */
  ghost predicate RelativeDayWordAt(t: string, p: int) {
    exists k :: 0 <= k < |RelativeDayWords| && AlternativeAt(t, p, RelativeDayWords[k])
  }

  /** The scan `re.findall` makes with the first pattern from position `i`
      on: at each position the first alternative that matches is taken and
      the scan resumes after it; where none matches, it moves on one
      character. */
  function RelativeDaySpans(t: string, i: nat): (r: seq<Span>)
    requires i <= |t|
    ensures forall n :: 0 <= n < |r| ==> InRange(t, i, r[n])
    decreases |t| - i
  {
    if i == |t| then []
    else
      match FirstAlternative(t, i, 0)
      case Some(k) =>
        var rest := RelativeDaySpans(t, i + |RelativeDayWords[k]|);
        assert forall n :: 0 <= n < |rest| ==> InRange(t, i, rest[n]);
        [Span(i, k)] + rest
      case None =>
        RelativeDaySpans(t, i + 1)
  }

  /** One step of the scan where an alternative matches at `i`. */
  lemma RelativeDaySpansHit(t: string, i: nat, k: nat)
    requires i < |t| && FirstAlternative(t, i, 0) == Some(k)
    ensures RelativeDaySpans(t, i) == [Span(i, k)] + RelativeDaySpans(t, i + |RelativeDayWords[k]|)
  {
  }

  /** One step of the scan where no alternative matches at `i`. */
  lemma RelativeDaySpansMiss(t: string, i: nat)
    requires i < |t| && FirstAlternative(t, i, 0).None?
    ensures RelativeDaySpans(t, i) == RelativeDaySpans(t, i + 1)
  {
  }

  /** Span `x` ends before span `y` starts. */
  predicate Precedes(x: Span, y: Span) {
    x.word < |RelativeDayWords| && SpanEnd(x) <= y.start
  }

  /** Each span of `r` ends before any later one starts. */
  predicate Ordered(r: seq<Span>) {
    forall a, b :: 0 <= a < b < |r| ==> Precedes(r[a], r[b])
  }

  /** A span put in front of ordered spans that all start after its end
      keeps them ordered. */
  lemma OrderedCons(sp: Span, rest: seq<Span>)
    requires Ordered(rest)
    requires forall n :: 0 <= n < |rest| ==> Precedes(sp, rest[n])
    ensures Ordered([sp] + rest)
  {
    var r := [sp] + rest;
    forall a, b | 0 <= a < b < |r|
      ensures Precedes(r[a], r[b])
    {
      assert r[b] == rest[b - 1];
      if a > 0 {
        assert r[a] == rest[a - 1];
      }
    }
  }

  /** Matches do not overlap: each span starts where or after the previous
      one ends. */
  lemma {:induction false} RelativeDaySpansOrdered(t: string, i: nat)
    requires i <= |t|
    ensures Ordered(RelativeDaySpans(t, i))
    decreases |t| - i
  {
    if i < |t| {
      match FirstAlternative(t, i, 0)
      case Some(k) =>
        RelativeDaySpansOrdered(t, i + |RelativeDayWords[k]|);
        OrderedHit(t, i, k);
      case None =>
        RelativeDaySpansOrdered(t, i + 1);
        RelativeDaySpansMiss(t, i);
    }
  }

  /** A match taken at `i` ends where the rest of the scan starts. */
  lemma OrderedHit(t: string, i: nat, k: nat)
    requires i < |t| && FirstAlternative(t, i, 0) == Some(k)
    requires Ordered(RelativeDaySpans(t, i + |RelativeDayWords[k]|))
    ensures Ordered(RelativeDaySpans(t, i))
  {
    var j := i + |RelativeDayWords[k]|;
    RelativeDaySpansHit(t, i, k);
    OrderedCons(Span(i, k), RelativeDaySpans(t, j));
  }

  /** The scan finds nothing exactly when none of the four words occurs as
      a whole word at any position from `i` on. */
  lemma {:induction false} RelativeDaySpansEmpty(t: string, i: nat)
    requires i <= |t|
    ensures RelativeDaySpans(t, i) == [] <==> forall p :: i <= p < |t| ==> !RelativeDayWordAt(t, p)
    decreases |t| - i
  {
    if i < |t| {
      match FirstAlternative(t, i, 0)
      case Some(k) =>
        FirstAlternativeMeaning(t, i, 0);
        RelativeDaySpansHit(t, i, k);
        assert RelativeDayWordAt(t, i);
      case None =>
        FirstAlternativeMeaning(t, i, 0);
        assert !RelativeDayWordAt(t, i);
        RelativeDaySpansEmpty(t, i + 1);
        RelativeDaySpansMiss(t, i);
        assert (forall p :: i <= p < |t| ==> !RelativeDayWordAt(t, p))
           <==> (forall p :: i + 1 <= p < |t| ==> !RelativeDayWordAt(t, p));
    }
  }

  /** Every span of `r` is one the scan takes at or after `i`. */
  predicate AllAt(t: string, i: int, r: seq<Span>) {
    forall n :: 0 <= n < |r| ==> SpanAt(t, i, r[n])
  }

  /** The span taken at `i` followed by spans taken from its end on are all
      taken at or after `i`. */
  lemma AllAtCons(t: string, i: nat, k: nat, rest: seq<Span>)
    requires i < |t| && FirstAlternative(t, i, 0) == Some(k)
    requires AllAt(t, i + |RelativeDayWords[k]|, rest)
    ensures AllAt(t, i, [Span(i, k)] + rest)
  {
    var r := [Span(i, k)] + rest;
    forall n | 0 <= n < |r|
      ensures SpanAt(t, i, r[n])
    {
      if n > 0 {
        assert r[n] == rest[n - 1];
      }
    }
  }

  /** Spans taken at or after `i + 1` are taken at or after `i`. */
  lemma AllAtEarlier(t: string, i: nat, r: seq<Span>)
    requires AllAt(t, i + 1, r)
    ensures AllAt(t, i, r)
  {
  }

  /** Every span the scan finds is one it takes where the first matching
      alternative starts, so by `FirstAlternativeMeaning` a genuine
      whole-word match. */
  lemma {:induction false} RelativeDaySpansSound(t: string, i: nat)
    requires i <= |t|
    ensures AllAt(t, i, RelativeDaySpans(t, i))
    decreases |t| - i
  {
    if i < |t| {
      match FirstAlternative(t, i, 0)
      case Some(k) =>
        var j := i + |RelativeDayWords[k]|;
        RelativeDaySpansSound(t, j);
        RelativeDaySpansHit(t, i, k);
        AllAtCons(t, i, k, RelativeDaySpans(t, j));
      case None =>
        RelativeDaySpansSound(t, i + 1);
        RelativeDaySpansMiss(t, i);
        AllAtEarlier(t, i, RelativeDaySpans(t, i + 1));
    }
  }

  /** Position `p` lies inside one of the spans of `r`. */
  ghost predicate Covers(r: seq<Span>, p: int) {
    exists n :: 0 <= n < |r| && r[n].word < |RelativeDayWords| && r[n].start <= p < SpanEnd(r[n])
  }

  /** A position inside the first span is covered. */
  lemma CoversHead(sp: Span, rest: seq<Span>, p: int)
    requires sp.word < |RelativeDayWords| && sp.start <= p < SpanEnd(sp)
    ensures Covers([sp] + rest, p)
  {
    assert ([sp] + rest)[0] == sp;
  }

  /** A position covered by the later spans stays covered. */
  lemma CoversTail(sp: Span, rest: seq<Span>, p: int)
    requires Covers(rest, p)
    ensures Covers([sp] + rest, p)
  {
    var n :| 0 <= n < |rest| && rest[n].word < |RelativeDayWords| && rest[n].start <= p < SpanEnd(rest[n]);
    assert ([sp] + rest)[n + 1] == rest[n];
  }

  /** One covering step where the scan takes alternative `k` at `i`: `p`
      is inside that match, or covered by the spans after it. */
  lemma ReachHit(t: string, i: nat, k: nat, p: int)
    requires i < |t| && FirstAlternative(t, i, 0) == Some(k) && i <= p
    requires p < i + |RelativeDayWords[k]| || Covers(RelativeDaySpans(t, i + |RelativeDayWords[k]|), p)
    ensures Covers(RelativeDaySpans(t, i), p)
  {
    var j := i + |RelativeDayWords[k]|;
    RelativeDaySpansHit(t, i, k);
    if p < j {
      CoversHead(Span(i, k), RelativeDaySpans(t, j), p);
    } else {
      CoversTail(Span(i, k), RelativeDaySpans(t, j), p);
    }
  }

  /** One covering step where the scan takes nothing at `i`. */
  lemma ReachMiss(t: string, i: nat, p: int)
    requires i < |t| && FirstAlternative(t, i, 0).None?
    requires Covers(RelativeDaySpans(t, i + 1), p)
    ensures Covers(RelativeDaySpans(t, i), p)
  {
    RelativeDaySpansMiss(t, i);
  }

  /** Where the scan would take a match at `p`, the spans it reports from
      `i` on cover `p`. */
  lemma {:induction false} RelativeDaySpansReach(t: string, i: nat, p: int)
    requires i <= p < |t| && FirstAlternative(t, p, 0).Some?
    ensures Covers(RelativeDaySpans(t, i), p)
    decreases |t| - i
  {
    match FirstAlternative(t, i, 0)
    case Some(k) =>
      if p >= i + |RelativeDayWords[k]| {
        RelativeDaySpansReach(t, i + |RelativeDayWords[k]|, p);
      }
      ReachHit(t, i, k, p);
    case None =>
      assert i < p;
      RelativeDaySpansReach(t, i + 1, p);
      ReachMiss(t, i, p);
  }

  /** Where some alternative matches, the scan takes one. */
  lemma WordAtTaken(t: string, p: int)
    requires RelativeDayWordAt(t, p)
    ensures FirstAlternative(t, p, 0).Some?
  {
    FirstAlternativeMeaning(t, p, 0);
  }

  /** No match is skipped: wherever one of the four words occurs as a whole
      word at or after `i`, ignoring case, the scan reports a span over that
      position (the word itself, or an earlier match that overlaps it). */
  lemma RelativeDaySpansComplete(t: string, i: nat, p: int)
    requires i <= p < |t| && RelativeDayWordAt(t, p)
    ensures Covers(RelativeDaySpans(t, i), p)
  {
    WordAtTaken(t, p);
    RelativeDaySpansReach(t, i, p);
  }

  /** `re.findall` of the first pattern over the whole message: the text of
      each span, as written in the message. */
  function RelativeDayMatches(text: string): (r: seq<FindAllItem>)
    ensures |r| == |RelativeDaySpans(text, 0)|
  {
    var spans := RelativeDaySpans(text, 0);
    seq(|spans|, n requires 0 <= n < |spans| => Whole(text[spans[n].start..SpanEnd(spans[n])]))
  }

  /** Each match of the first pattern is one of its four words as written
      in the message: lower-cased, it is that word. */
  lemma RelativeDayMatchesWords(text: string, n: int)
    requires 0 <= n < |RelativeDayMatches(text)|
    ensures RelativeDayMatches(text)[n].Whole?
    ensures Lower(RelativeDayMatches(text)[n].text) in RelativeDayWords
  {
    var spans := RelativeDaySpans(text, 0);
    var sp := spans[n];
    RelativeDaySpansSound(text, 0);
    assert SpanAt(text, 0, sp);
    FirstAlternativeMeaning(text, sp.start, 0);
    var w := RelativeDayWords[sp.word];
    assert WordAt(Lower(text), sp.start, w);
    LowerSlice(text, sp.start, SpanEnd(sp));
    assert Lower(text[sp.start..SpanEnd(sp)]) == w;
  }

  /** The `n`-th match is the message's own text under the `n`-th span, and
      that text is an alternative matching there; with
      `RelativeDaySpansOrdered` the matches come in text order. */
  lemma RelativeDayMatchesText(text: string, n: int)
    requires 0 <= n < |RelativeDayMatches(text)|
    ensures var sp := RelativeDaySpans(text, 0)[n];
            var m := RelativeDayMatches(text)[n];
            && sp.word < |RelativeDayWords|
            && m == Whole(text[sp.start..SpanEnd(sp)])
            && AlternativeAt(text, sp.start, Lower(m.text))
  {
    var sp := RelativeDaySpans(text, 0)[n];
    RelativeDaySpansSound(text, 0);
    assert SpanAt(text, 0, sp);
    FirstAlternativeMeaning(text, sp.start, 0);
    LowerSlice(text, sp.start, SpanEnd(sp));
  }

  // ---------------------------------------------------------------------
  // The scan over TIME_PATTERNS
  // ---------------------------------------------------------------------

  /** `TIME_PATTERNS`, in list order. */
  function TimePatterns(p: ClockAndDatePatterns): seq<Matcher> {
    [RelativeDayMatches, p.clockWithMinutes, p.clockHour, p.hourRange, p.dayMonthYear, p.numericDate]
  }

  /** The group that is kept for one `findall` element: the element itself,
      or the first group of a tuple. */
  function Primary(item: FindAllItem): string {
    match item
    case Whole(s) => s
    case Groups(first, _) => first
  }

  /** The strings the inner loop appends for one pattern's matches, one per
      match, in match order. */
  function Harvest(items: seq<FindAllItem>): seq<string> {
    if items == [] then []
    else Harvest(items[..|items| - 1]) + [Strip(Primary(items[|items| - 1]))]
  }

  /** Each match contributes exactly one string, in match order: its kept
      group with the surrounding white space removed. Nothing is dropped or
      merged. */
  lemma {:induction false} HarvestMeaning(items: seq<FindAllItem>)
    ensures |Harvest(items)| == |items|
    ensures forall n :: 0 <= n < |items| ==> Harvest(items)[n] == Strip(Primary(items[n]))
  {
    if items != [] {
      var front, last := items[..|items| - 1], items[|items| - 1];
      HarvestMeaning(front);
      assert items == front + [last];
      MapSnoc(front, Harvest(front), last, item => Strip(Primary(item)));
    }
  }

  /** Appending an element and its image to a sequence and its pointwise
      image keeps the second the pointwise image of the first. */
  lemma MapSnoc<A, B>(xs: seq<A>, ys: seq<B>, x: A, f: A -> B)
    requires |ys| == |xs| && forall n :: 0 <= n < |xs| ==> ys[n] == f(xs[n])
    ensures forall n :: 0 <= n < |xs| + 1 ==> (ys + [f(x)])[n] == f((xs + [x])[n])
  {
    forall n | 0 <= n < |xs| + 1
      ensures (ys + [f(x)])[n] == f((xs + [x])[n])
    {
      if n < |xs| {
        assert (xs + [x])[n] == xs[n];
      }
    }
  }

  /** What the outer loop appends for the patterns `ps`, in list order. */
  function ScanPatterns(ps: seq<Matcher>, text: string): seq<string> {
    if ps == [] then []
    else Harvest(ps[0](text)) + ScanPatterns(ps[1..], text)
  }

  /** Scanning two lists of patterns one after the other appends their
      matches one after the other. */
  lemma {:induction false} ScanPatternsAppend(ps: seq<Matcher>, qs: seq<Matcher>, text: string)
    ensures ScanPatterns(ps + qs, text) == ScanPatterns(ps, text) + ScanPatterns(qs, text)
  {
    if ps == [] {
      assert ps + qs == qs;
    } else {
      assert (ps + qs)[0] == ps[0];
      assert (ps + qs)[1..] == ps[1..] + qs;
      ScanPatternsAppend(ps[1..], qs, text);
    }
  }

  // ---------------------------------------------------------------------
  // Relative days resolved against the clock
  // ---------------------------------------------------------------------

  /** `(now + timedelta(days=k)).strftime('%Y-%m-%d')`. */
  function ResolvedDate(now: Instant, k: nat): string {
    DateText(DayOf(AddDays(now, k)))
  }

  /** The day offsets whose phrase occurs in the lower-cased message:
      2 for "day after tomorrow", 1 for "tomorrow", 0 for "today", each
      checked on its own, in that order. */
  function RelativeOffsets(text: string): seq<nat> {
    var t := Lower(text);
    (if Contains(t, "day after tomorrow") then [2] else [])
    + (if Contains(t, "tomorrow") then [1] else [])
    + (if Contains(t, "today") then [0] else [])
  }

  /** The tokens `resolve` gives the offsets `offsets`, in order. */
  function ResolveAll(offsets: seq<nat>, resolve: nat -> string): seq<string> {
    if offsets == [] then []
    else [resolve(offsets[0])] + ResolveAll(offsets[1..], resolve)
  }

  /** The dates appended after the pattern scan, one per offset found. */
  function RelativeDates(text: string, now: Instant): seq<string> {
    ResolveAll(RelativeOffsets(text), Resolver(now))
  }

  /** The resolver for the clock reading `now`: offset `k` to the date `k`
      days on. */
  function Resolver(now: Instant): nat -> string {
    (k: nat) => ResolvedDate(now, k)
  }

  /** `extract_time_info(text)` with the clock reading `now`. */
  function ExtractTimeInfo(text: string, now: Instant, p: ClockAndDatePatterns): seq<string> {
    ScanPatterns(TimePatterns(p), text) + RelativeDates(text, now)
  }

  /** Different offsets give different resolved tokens. */
  lemma ResolvedDateInjective(now: Instant, j: nat, k: nat)
    requires ResolvedDate(now, j) == ResolvedDate(now, k)
    ensures j == k
  {
    var a, b := DayOf(AddDays(now, j)), DayOf(AddDays(now, k));
    DateTextInjective(a, b);
    AddDaysMeaning(now, j);
    AddDaysMeaning(now, k);
  }

  /** The resolver tells offsets apart. */
  lemma ResolverInjective(now: Instant)
    ensures forall j, k :: Resolver(now)(j) == Resolver(now)(k) ==> j == k
  {
    forall j, k | Resolver(now)(j) == Resolver(now)(k)
      ensures j == k
    {
      ResolvedDateInjective(now, j, k);
    }
  }

  /** One token per offset, the `n`-th resolving the `n`-th offset. */
  lemma {:induction false} ResolveAllMeaning(offsets: seq<nat>, resolve: nat -> string)
    ensures |ResolveAll(offsets, resolve)| == |offsets|
    ensures forall n :: 0 <= n < |offsets| ==> ResolveAll(offsets, resolve)[n] == resolve(offsets[n])
  {
    if offsets != [] {
      ResolveAllMeaning(offsets[1..], resolve);
    }
  }

  /** For a resolver that tells offsets apart, the token for `k` is among
      the resolved tokens exactly when `k` is among the offsets. */
  lemma ResolveAllMember(offsets: seq<nat>, resolve: nat -> string, k: nat)
    requires forall j :: resolve(j) == resolve(k) ==> j == k
    ensures resolve(k) in ResolveAll(offsets, resolve) <==> k in offsets
  {
    var tokens := ResolveAll(offsets, resolve);
    ResolveAllMeaning(offsets, resolve);
    if resolve(k) in tokens {
      var n :| 0 <= n < |tokens| && tokens[n] == resolve(k);
      assert resolve(offsets[n]) == resolve(k);
    }
    if k in offsets {
      var n :| 0 <= n < |offsets| && offsets[n] == k;
      assert tokens[n] == resolve(k);
    }
  }

  /** Offsets of at most two resolve to the tokens for 2, 1 or 0. */
  lemma ResolveAllBound(offsets: seq<nat>, resolve: nat -> string)
    requires forall n :: 0 <= n < |offsets| ==> offsets[n] <= 2
    ensures forall s :: s in ResolveAll(offsets, resolve) ==>
              s == resolve(2) || s == resolve(1) || s == resolve(0)
  {
    ResolveAllMeaning(offsets, resolve);
    forall s | s in ResolveAll(offsets, resolve)
      ensures s == resolve(2) || s == resolve(1) || s == resolve(0)
    {
      var n :| 0 <= n < |offsets| && ResolveAll(offsets, resolve)[n] == s;
      assert offsets[n] == 2 || offsets[n] == 1 || offsets[n] == 0;
    }
  }

  /** Each relative-day check is independent: offset `k` is found exactly
      when the phrase for `k` occurs in the lower-cased message. */
  lemma RelativeOffsetsMeaning(text: string, k: nat)
    ensures k in RelativeOffsets(text) <==>
              || (k == 2 && Occurs(Lower(text), "day after tomorrow"))
              || (k == 1 && Occurs(Lower(text), "tomorrow"))
              || (k == 0 && Occurs(Lower(text), "today"))
    ensures forall n :: 0 <= n < |RelativeOffsets(text)| ==> RelativeOffsets(text)[n] <= 2
    ensures |RelativeOffsets(text)| <= 3
    ensures forall a, b :: 0 <= a < b < |RelativeOffsets(text)| ==> RelativeOffsets(text)[a] > RelativeOffsets(text)[b]
  {
  }

  /** The date `k` days on is appended exactly when the phrase for `k`
      occurs in the lower-cased message. */
  lemma RelativeDatesMeaning(text: string, now: Instant, k: nat)
    ensures ResolvedDate(now, k) in RelativeDates(text, now) <==>
              || (k == 2 && Occurs(Lower(text), "day after tomorrow"))
              || (k == 1 && Occurs(Lower(text), "tomorrow"))
              || (k == 0 && Occurs(Lower(text), "today"))
  {
    ResolverInjective(now);
    ResolveAllMember(RelativeOffsets(text), Resolver(now), k);
    RelativeOffsetsMeaning(text, k);
  }

  /** The dates are appended in the order of their offsets, +2 before +1
      before +0: the `n`-th date resolves the `n`-th offset. */
  lemma RelativeDatesInOrder(text: string, now: Instant)
    ensures |RelativeDates(text, now)| == |RelativeOffsets(text)|
    ensures forall n :: 0 <= n < |RelativeOffsets(text)| ==>
              RelativeDates(text, now)[n] == ResolvedDate(now, RelativeOffsets(text)[n])
  {
    ResolveAllMeaning(RelativeOffsets(text), Resolver(now));
  }

  /** No date is appended twice. */
  lemma RelativeDatesDistinct(text: string, now: Instant)
    ensures forall a, b :: 0 <= a < b < |RelativeDates(text, now)| ==>
              RelativeDates(text, now)[a] != RelativeDates(text, now)[b]
  {
    ResolverInjective(now);
    RelativeOffsetsMeaning(text, 0);
    ResolveAllDistinct(RelativeOffsets(text), Resolver(now));
  }

  /** Resolving distinct offsets through an injective map gives distinct
      tokens, position by position. */
  lemma ResolveAllDistinct(offsets: seq<nat>, resolve: nat -> string)
    requires forall j, k :: resolve(j) == resolve(k) ==> j == k
    requires forall a, b :: 0 <= a < b < |offsets| ==> offsets[a] > offsets[b]
    ensures |ResolveAll(offsets, resolve)| == |offsets|
    ensures forall n :: 0 <= n < |offsets| ==> ResolveAll(offsets, resolve)[n] == resolve(offsets[n])
    ensures forall a, b :: 0 <= a < b < |offsets| ==> ResolveAll(offsets, resolve)[a] != ResolveAll(offsets, resolve)[b]
  {
    ResolveAllMeaning(offsets, resolve);
    forall a, b | 0 <= a < b < |offsets|
      ensures ResolveAll(offsets, resolve)[a] != ResolveAll(offsets, resolve)[b]
    {
      assert offsets[a] != offsets[b];
    }
  }

  /** Only those three dates are ever appended, and never more than three. */
  lemma RelativeDatesBound(text: string, now: Instant)
    ensures |RelativeDates(text, now)| <= 3
    ensures forall s :: s in RelativeDates(text, now) ==>
              s == ResolvedDate(now, 2) || s == ResolvedDate(now, 1) || s == ResolvedDate(now, 0)
  {
    ResolveAllMeaning(RelativeOffsets(text), Resolver(now));
    RelativeOffsetsMeaning(text, 0);
    ResolveAllBound(RelativeOffsets(text), Resolver(now));
  }

  /** "day after tomorrow" contains "tomorrow", so a message mentioning it
      gets both the date two days on and the date one day on, in that
      order. */
  lemma DayAfterTomorrowAlsoTomorrow(text: string, now: Instant)
    requires Occurs(Lower(text), "day after tomorrow")
    ensures |RelativeDates(text, now)| >= 2
    ensures RelativeDates(text, now)[0] == ResolvedDate(now, 2)
    ensures RelativeDates(text, now)[1] == ResolvedDate(now, 1)
  {
    assert OccursAt("day after tomorrow", 10, "tomorrow");
    OccursTransitive(Lower(text), "day after tomorrow", "tomorrow");
    var offsets := RelativeOffsets(text);
    assert offsets[..2] == [2, 1];
    ResolveAllMeaning(offsets, Resolver(now));
  }

  /** Scanning one more pattern in front appends its matches in front. */
  lemma ScanCons(m: Matcher, ps: seq<Matcher>, text: string)
    ensures ScanPatterns([m] + ps, text) == Harvest(m(text)) + ScanPatterns(ps, text)
  {
    assert ([m] + ps)[1..] == ps;
  }

  lemma Concat6(h1: seq<string>, h2: seq<string>, h3: seq<string>, h4: seq<string>, h5: seq<string>, h6: seq<string>)
    ensures h1 + (h2 + (h3 + (h4 + (h5 + (h6 + []))))) == h1 + h2 + h3 + h4 + h5 + h6
  {
  }

  /** Scanning six patterns appends the first one's matches, then the
      second one's, and so on. */
  lemma ScanSix(m1: Matcher, m2: Matcher, m3: Matcher, m4: Matcher, m5: Matcher, m6: Matcher, text: string)
    ensures ScanPatterns([m1, m2, m3, m4, m5, m6], text)
         == Harvest(m1(text)) + Harvest(m2(text)) + Harvest(m3(text))
            + Harvest(m4(text)) + Harvest(m5(text)) + Harvest(m6(text))
  {
    assert [m1, m2, m3, m4, m5, m6] == [m1] + ([m2] + ([m3] + ([m4] + ([m5] + ([m6] + [])))));
    ScanCons(m1, [m2] + ([m3] + ([m4] + ([m5] + ([m6] + [])))), text);
    ScanCons(m2, [m3] + ([m4] + ([m5] + ([m6] + []))), text);
    ScanCons(m3, [m4] + ([m5] + ([m6] + [])), text);
    ScanCons(m4, [m5] + ([m6] + []), text);
    ScanCons(m5, [m6] + [], text);
    ScanCons(m6, [], text);
    Concat6(Harvest(m1(text)), Harvest(m2(text)), Harvest(m3(text)),
            Harvest(m4(text)), Harvest(m5(text)), Harvest(m6(text)));
  }

  /** The extracted tokens are the first pattern's matches, then the second
      pattern's, and so on to the sixth, then the resolved relative days. */
  lemma ExtractTimeInfoOrder(text: string, now: Instant, p: ClockAndDatePatterns)
    ensures ExtractTimeInfo(text, now, p)
         == Harvest(RelativeDayMatches(text)) + Harvest(p.clockWithMinutes(text))
            + Harvest(p.clockHour(text)) + Harvest(p.hourRange(text))
            + Harvest(p.dayMonthYear(text)) + Harvest(p.numericDate(text))
            + RelativeDates(text, now)
  {
    ScanSix(RelativeDayMatches, p.clockWithMinutes, p.clockHour, p.hourRange, p.dayMonthYear, p.numericDate, text);
  }

  /** Nothing is deduplicated or dropped: one token per match of each
      pattern plus one per relative-day phrase found. */
  lemma ExtractTimeInfoCount(text: string, now: Instant, p: ClockAndDatePatterns)
    ensures |ExtractTimeInfo(text, now, p)|
         == |RelativeDayMatches(text)| + |p.clockWithMinutes(text)| + |p.clockHour(text)|
            + |p.hourRange(text)| + |p.dayMonthYear(text)| + |p.numericDate(text)|
            + |RelativeDates(text, now)|
  {
    ExtractTimeInfoOrder(text, now, p);
    HarvestMeaning(RelativeDayMatches(text));
    HarvestMeaning(p.clockWithMinutes(text));
    HarvestMeaning(p.clockHour(text));
    HarvestMeaning(p.hourRange(text));
    HarvestMeaning(p.dayMonthYear(text));
    HarvestMeaning(p.numericDate(text));
  }
}
