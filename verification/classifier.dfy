/** The intent classifier, `MeetingIntentDetector.detect_meeting_intent`: a
    negation guard over the lower-cased message, then a keyword search. */
module Classifier {
  import opened Text

  /** `MEETING_KEYWORDS`, matched as plain substrings. */
  const MeetingKeywords: seq<string> :=
    ["meet", "meeting", "schedule", "call", "discussion", "sync up",
     "catch up", "connect", "conference", "appointment", "gather"]

  /** The retrospective/conditional words of the guard regex. The second one
      is spelled with U+2019 (right single quotation mark), not an ASCII
      apostrophe. */
  const GuardWords: seq<string> :=
    ["should have", "should\U{2019}ve", "had", "was", "were", "used to"]

  /** The words the guard regex looks for after a guard word. */
  const MeetWords: seq<string> := ["meet", "meeting"]

  /** Some guard word ends at position `e` of `t`, as a whole word. */
  predicate GuardEndsAt(t: string, e: int) {
    exists k :: 0 <= k < |GuardWords| && WordAt(t, e - |GuardWords[k]|, GuardWords[k])
  }

  /** "meet" or "meeting" starts at position `j` of `t`, as a whole word. */
  predicate MeetWordAt(t: string, j: int) {
    exists k :: 0 <= k < |MeetWords| && WordAt(t, j, MeetWords[k])
  }

  /** No line break in `t[e..j]`: the regex `.` matches anything but '\n'. */
  predicate NoNewline(t: string, e: int, j: int)
    requires 0 <= e <= j <= |t|
  {
    forall k :: e <= k < j ==> t[k] != '\n'
  }

  /** A guard word ending at `e`, then `.*`, then a meet word at `j`. */
  ghost predicate GuardThenMeet(t: string, e: int, j: int) {
    0 <= e <= j <= |t| && GuardEndsAt(t, e) && NoNewline(t, e, j) && MeetWordAt(t, j)
  }

  /** Reference meaning of `re.search(r'\b(should have|should’ve|had|was|were|used to)\b.*\b(meet|meeting)\b', t)`
      succeeding. */
  ghost predicate NegationGuard(t: string) {
    exists e, j :: GuardThenMeet(t, e, j)
  }

  /** The guard regex matches with its meet word at `p` or later. */
  ghost predicate MatchFrom(t: string, p: int) {
    exists e, j :: p <= j && GuardThenMeet(t, e, j)
  }

  /** A guard word has ended at or before `p` and no line break follows it
      up to `p`. */
  ghost predicate Armed(t: string, p: int)
    requires 0 <= p <= |t|
  {
    exists e :: 0 <= e <= p && GuardEndsAt(t, e) && NoNewline(t, e, p)
  }

  /** Armed one step on without a guard word ending there means it was
      already armed and the step was not a line break. */
  lemma ArmedShrinks(t: string, p: int)
    requires 0 <= p < |t|
    requires Armed(t, p + 1) && !GuardEndsAt(t, p + 1)
    ensures Armed(t, p) && t[p] != '\n'
  {
    var e :| 0 <= e <= p + 1 && GuardEndsAt(t, e) && NoNewline(t, e, p + 1);
    assert e <= p && NoNewline(t, e, p);
  }

  /** Stepping over a character other than a line break stays armed. */
  lemma ArmedGrows(t: string, p: int)
    requires 0 <= p < |t|
    requires Armed(t, p) && t[p] != '\n'
    ensures Armed(t, p + 1)
  {
    var e :| 0 <= e <= p && GuardEndsAt(t, e) && NoNewline(t, e, p);
    assert NoNewline(t, e, p + 1);
  }

  /** How `Armed` changes by one step: it holds after the step exactly when
      it held before and the character is not a line break, or a guard word
      ends there. */
  lemma ArmedStep(t: string, p: int)
    requires 0 <= p < |t|
    ensures Armed(t, p + 1) <==> (Armed(t, p) && t[p] != '\n') || GuardEndsAt(t, p + 1)
  {
    if Armed(t, p + 1) && !GuardEndsAt(t, p + 1) {
      ArmedShrinks(t, p);
    }
    if Armed(t, p) && t[p] != '\n' {
      ArmedGrows(t, p);
    }
    if GuardEndsAt(t, p + 1) {
      assert NoNewline(t, p + 1, p + 1);
    }
  }

  lemma ScanHit(t: string, p: int)
    requires 0 <= p <= |t|
    requires Armed(t, p) && MeetWordAt(t, p)
    ensures MatchFrom(t, p)
  {
    var e :| 0 <= e <= p && GuardEndsAt(t, e) && NoNewline(t, e, p);
    assert GuardThenMeet(t, e, p);
  }

  lemma ScanStep(t: string, p: int)
    requires 0 <= p <= |t|
    requires !(Armed(t, p) && MeetWordAt(t, p))
    ensures MatchFrom(t, p) <==> MatchFrom(t, p + 1)
    ensures p == |t| ==> !MatchFrom(t, p)
  {
    if MatchFrom(t, p) {
      var e, j :| p <= j && GuardThenMeet(t, e, j);
      if j == p {
        assert Armed(t, p);
        assert false;
      }
    }
  }

  /** Scans positions `p`, `p + 1`, ... for a meet word while remembering,
      in `armed`, whether a guard word is still in reach on the current
      line. */
  function GuardScan(t: string, p: int, armed: bool): (r: bool)
    requires 0 <= p <= |t|
    requires armed <==> Armed(t, p)
    ensures r <==> MatchFrom(t, p)
    decreases |t| - p
  {
    if armed && MeetWordAt(t, p) then
      ScanHit(t, p);
      true
    else
      ScanStep(t, p);
      if p == |t| then false
      else
        ArmedStep(t, p);
        GuardScan(t, p + 1, (armed && t[p] != '\n') || GuardEndsAt(t, p + 1))
  }

  /** Whether the negation guard regex finds a match in `t`. */
  function HasNegationGuard(t: string): (r: bool)
    ensures r <==> NegationGuard(t)
  {
    assert Armed(t, 0) <==> GuardEndsAt(t, 0) by {
      if GuardEndsAt(t, 0) { assert NoNewline(t, 0, 0); }
    }
    assert MatchFrom(t, 0) <==> NegationGuard(t);
    GuardScan(t, 0, GuardEndsAt(t, 0))
  }

  /** Some meeting keyword occurs in `t`. */
  ghost predicate HasKeyword(t: string) {
    exists k :: 0 <= k < |MeetingKeywords| && Occurs(t, MeetingKeywords[k])
  }

  /** `detect_meeting_intent(text)`: false when the negation guard matches
      the lower-cased text, otherwise whether some keyword occurs in it. */
  function DetectMeetingIntent(text: string): (r: bool)
    ensures NegationGuard(Lower(text)) ==> !r
    ensures !NegationGuard(Lower(text)) ==> (r <==> HasKeyword(Lower(text)))
    ensures text == [] ==> !r
  {
    var t := Lower(text);
    if HasNegationGuard(t) then false
    else exists k :: 0 <= k < |MeetingKeywords| && Contains(t, MeetingKeywords[k])
  }

  /** A word set off by spaces is a whole word of the text. */
  lemma SpacedWord(pre: string, w: string, post: string)
    requires |w| > 0 && IsWordChar(w[0]) && IsWordChar(w[|w| - 1])
    ensures WordAt(pre + " " + w + " " + post, |pre| + 1, w)
  {
    var t := pre + " " + w + " " + post;
    var i := |pre| + 1;
    assert t[i - 1] == ' ' && t[i + |w|] == ' ';
    assert t[i..i + |w|] == w;
  }

  /** Between the end of `x` and the start of `m`, a line `b` without line
      breaks set off by spaces holds no line break either. */
  lemma SpacedLine(x: string, b: string, m: string, c: string)
    requires forall k :: 0 <= k < |b| ==> b[k] != '\n'
    ensures NoNewline(x + " " + b + " " + m + " " + c, |x|, |x| + 1 + |b| + 1)
  {
    var t := x + " " + b + " " + m + " " + c;
    forall k | |x| <= k < |x| + 1 + |b| + 1
      ensures t[k] != '\n'
    {
      if |x| < k <= |x| + |b| {
        assert t[k] == b[k - |x| - 1];
      }
    }
  }

  /** A guard word and, later on the same line, "meet" or "meeting", each
      set off by spaces, make the guard match ("we had a meeting ..."). */
  lemma GuardedMention(a: string, gk: int, b: string, mk: int, c: string)
    requires 0 <= gk < |GuardWords| && 0 <= mk < |MeetWords|
    requires forall k :: 0 <= k < |b| ==> b[k] != '\n'
    ensures NegationGuard(a + " " + GuardWords[gk] + " " + b + " " + MeetWords[mk] + " " + c)
  {
    var g, m := GuardWords[gk], MeetWords[mk];
    var t := a + " " + g + " " + b + " " + m + " " + c;
    var e := |a| + 1 + |g|;
    var j := e + 1 + |b| + 1;
    assert GuardEndsAt(t, e) by {
      assert t == a + " " + g + " " + (b + " " + m + " " + c);
      SpacedWord(a, g, b + " " + m + " " + c);
    }
    assert MeetWordAt(t, j) by {
      SpacedWord(a + " " + g + " " + b, m, c);
    }
    SpacedLine(a + " " + g, b, m, c);
    assert GuardThenMeet(t, e, j);
  }

  /** So such a message is never classified as meeting intent, whatever
      keywords it contains. */
  lemma GuardedMentionHasNoIntent(text: string, a: string, gk: int, b: string, mk: int, c: string)
    requires 0 <= gk < |GuardWords| && 0 <= mk < |MeetWords|
    requires forall k :: 0 <= k < |b| ==> b[k] != '\n'
    requires Lower(text) == a + " " + GuardWords[gk] + " " + b + " " + MeetWords[mk] + " " + c
    ensures !DetectMeetingIntent(text)
  {
    GuardedMention(a, gk, b, mk, c);
  }

  /** Both meet words begin with "meet". */
  lemma MeetWordOccurs(t: string, j: int)
    requires MeetWordAt(t, j)
    ensures OccursAt(t, j, "meet")
  {
    var k :| 0 <= k < |MeetWords| && WordAt(t, j, MeetWords[k]);
    var w := MeetWords[k];
    assert w[..4] == "meet";
    assert t[j..j + 4] == t[j..j + |w|][..4];
  }

  /** The guard can only fire on text that contains "meet". */
  lemma GuardNeedsMeet(t: string)
    requires NegationGuard(t)
    ensures Occurs(t, "meet")
  {
    var e, j :| GuardThenMeet(t, e, j);
    MeetWordOccurs(t, j);
  }

  /** Without "meet" in the lower-cased text, intent is exactly the presence
      of a keyword. */
  lemma IntentWithoutMeet(text: string)
    requires !Occurs(Lower(text), "meet")
    ensures DetectMeetingIntent(text) <==> HasKeyword(Lower(text))
  {
    if NegationGuard(Lower(text)) {
      GuardNeedsMeet(Lower(text));
    }
  }
}
