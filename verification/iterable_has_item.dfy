/** LoggingEventIterableHasItem: a matcher over a list of events that asks
    whether some event (hasItem) or no event (hasNoItem) satisfies an element
    matcher, reporting the events it inspected. */
module LoggingEventIterableHasItem {
  import opened Wrappers
  import opened Events
  import opened MatcherTypes
  import Text

  datatype Matcher = Matcher(elementMatcher: EventMatcher, negated: bool)

  function HasItem(itemMatcher: EventMatcher): Matcher
  {
    Matcher(itemMatcher, false)
  }

  function HasNoItem(itemMatcher: EventMatcher): Matcher
  {
    Matcher(itemMatcher, true)
  }

  /** Whether the list matched, and the text appended to the mismatch
      description while deciding it. */
  datatype Verdict = Verdict(matched: bool, mismatch: string)

  const Contained := "iterable contained "

  /** Some event of the list can be handed to the element matcher and
      satisfies it. */
  ghost predicate SomeMatch(em: EventMatcher, events: seq<LogEvent>)
  {
    exists i :: 0 <= i < |events| && Accepts(em, events[i])
  }

  /** The position of the first event the element matcher accepts, if any. */
  function FirstMatch(em: EventMatcher, events: seq<LogEvent>): (r: Option<nat>)
    requires EvaluableUntilMatch(em, events)
    ensures r.Some? ==> r.value < |events| && Accepts(em, events[r.value])
    ensures r.Some? ==> forall j :: 0 <= j < r.value ==> Rejects(em, events[j])
    ensures r.None? ==> forall j :: 0 <= j < |events| ==> Rejects(em, events[j])
    decreases |events|
  {
    if |events| == 0 then None
    else if em.accepts(events[0]) then Some(0)
    else
      match FirstMatch(em, events[1..])
      case None => None
      case Some(k) => Some(k + 1)
  }

  /** Once the first i events have been rejected, event i can be handed to
      the element matcher. */
  lemma {:induction false} EvaluableAt(em: EventMatcher, events: seq<LogEvent>, i: nat)
    requires EvaluableUntilMatch(em, events)
    requires i < |events|
    requires forall j :: 0 <= j < i ==> Rejects(em, events[j])
    ensures em.accepts.requires(events[i])
    decreases i
  {
    if i > 0 {
      assert Rejects(em, events[0]);
      forall j | 0 <= j < i - 1
        ensures Rejects(em, events[1..][j])
      {
        assert events[1..][j] == events[j + 1];
      }
      EvaluableAt(em, events[1..], i - 1);
      assert events[1..][i - 1] == events[i];
    }
  }

  /** A list whose events before position k are rejected and whose event k
      is accepted can be walked, whatever follows event k. */
  lemma {:induction false} EvaluableThroughMatch(em: EventMatcher, events: seq<LogEvent>, k: nat)
    requires k < |events| && Accepts(em, events[k])
    requires forall j :: 0 <= j < k ==> Rejects(em, events[j])
    ensures EvaluableUntilMatch(em, events)
    decreases k
  {
    if k > 0 {
      assert Rejects(em, events[0]);
      forall j | 0 <= j < k - 1
        ensures Rejects(em, events[1..][j])
      {
        assert events[1..][j] == events[j + 1];
      }
      assert events[1..][k - 1] == events[k];
      EvaluableThroughMatch(em, events[1..], k - 1);
    }
  }

  /** A list whose every event is rejected can be walked to its end. */
  lemma {:induction false} EvaluableAllRejected(em: EventMatcher, events: seq<LogEvent>)
    requires forall j :: 0 <= j < |events| ==> Rejects(em, events[j])
    ensures EvaluableUntilMatch(em, events)
    decreases |events|
  {
    if |events| > 0 {
      assert Rejects(em, events[0]);
      forall j | 0 <= j < |events| - 1
        ensures Rejects(em, events[1..][j])
      {
        assert events[1..][j] == events[j + 1];
      }
      EvaluableAllRejected(em, events[1..]);
    }
  }

  /** The element matcher's mismatch text for each event, in order. */
  function Mismatches(em: EventMatcher, events: seq<LogEvent>): (r: seq<string>)
    ensures |r| == |events|
    ensures forall i :: 0 <= i < |events| ==> r[i] == em.mismatch(events[i])
  {
    seq(|events|, i requires 0 <= i < |events| => em.mismatch(events[i]))
  }

  /** What positiveMatches appends: an opening bracket and the mismatches of
      the events before the first match, and the closing bracket when there
      is no match at all. */
  function PositiveVerdict(em: EventMatcher, events: seq<LogEvent>): Verdict
    requires EvaluableUntilMatch(em, events)
  {
    match FirstMatch(em, events)
    case Some(k) => Verdict(true, "[" + Text.Join(", ", Mismatches(em, events[..k])))
    case None => Verdict(false, "[" + Text.Join(", ", Mismatches(em, events)) + "]")
  }

  /** What negativeMatches appends: the mismatch of the first matching event,
      or nothing when no event matches. */
  function NegativeVerdict(em: EventMatcher, events: seq<LogEvent>): Verdict
    requires EvaluableUntilMatch(em, events)
  {
    match FirstMatch(em, events)
    case Some(k) => Verdict(false, em.mismatch(events[k]))
    case None => Verdict(true, "")
  }

  /** The reference behaviour of matchesSafely. */
  function Evaluate(m: Matcher, events: seq<LogEvent>): Verdict
    requires EvaluableUntilMatch(m.elementMatcher, events)
  {
    var v := if m.negated then NegativeVerdict(m.elementMatcher, events)
             else PositiveVerdict(m.elementMatcher, events);
    Verdict(v.matched, Contained + v.mismatch)
  }

  /** Once the first i events have been rejected, event i is the first match
      exactly when the element matcher accepts it. */
  lemma FirstMatchAt(em: EventMatcher, events: seq<LogEvent>, i: nat)
    requires EvaluableUntilMatch(em, events)
    requires i < |events| && Accepts(em, events[i])
    requires forall j :: 0 <= j < i ==> Rejects(em, events[j])
    ensures FirstMatch(em, events) == Some(i)
  {
  }

  /** A first match is a witness that some event matches. */
  lemma FirstMatchWitnesses(em: EventMatcher, events: seq<LogEvent>)
    requires EvaluableUntilMatch(em, events)
    ensures FirstMatch(em, events).Some? <==> SomeMatch(em, events)
  {
    var r := FirstMatch(em, events);
    if r.Some? {
      assert Accepts(em, events[r.value]);
    }
  }

  /** One more rejected event: its mismatch follows the ones before it,
      after a comma from the second event on. */
  lemma AppendMismatch(em: EventMatcher, events: seq<LogEvent>, i: nat, opening: string, text: string)
    requires i < |events|
    requires text == opening + Text.Join(", ", Mismatches(em, events[..i]))
    ensures (if i > 0 then text + ", " else text) + em.mismatch(events[i])
         == opening + Text.Join(", ", Mismatches(em, events[..i + 1]))
  {
    var before, x := Mismatches(em, events[..i]), em.mismatch(events[i]);
    assert Mismatches(em, events[..i + 1]) == before + [x];
    Text.JoinSnoc(", ", before, x);
    if i == 0 {
      assert Text.Join(", ", before) == "";
      assert text == opening;
    } else {
      var J := Text.Join(", ", before);
      assert (opening + J) + ", " + x == opening + (J + ", " + x);
    }
  }

  /** positiveMatches: walks the list, returning at the first event the
      element matcher accepts and otherwise appending each event's mismatch,
      comma-separated, inside brackets. */
  method PositiveMatches(em: EventMatcher, events: seq<LogEvent>, description: string)
    returns (matched: bool, text: string)
    requires EvaluableUntilMatch(em, events)
    ensures matched == PositiveVerdict(em, events).matched
    ensures text == description + PositiveVerdict(em, events).mismatch
  {
    text := description + "[";
    var isPastFirst := false;
    var i := 0;
    while i < |events|
      invariant 0 <= i <= |events|
      invariant forall j :: 0 <= j < i ==> Rejects(em, events[j])
      invariant isPastFirst <==> i > 0
      invariant text == (description + "[") + Text.Join(", ", Mismatches(em, events[..i]))
    {
      EvaluableAt(em, events, i);
      if em.accepts(events[i]) {
        FirstMatchAt(em, events, i);
        return true, text;
      }
      AppendMismatch(em, events, i, description + "[", text);
      if isPastFirst {
        text := text + ", ";
      }
      text := text + em.mismatch(events[i]);
      isPastFirst := true;
      i := i + 1;
    }
    assert events[..i] == events;
    text := text + "]";
    matched := false;
  }

  /** negativeMatches: returns false at the first event the element matcher
      accepts, appending that event's mismatch, and true otherwise. */
  method NegativeMatches(em: EventMatcher, events: seq<LogEvent>, description: string)
    returns (matched: bool, text: string)
    requires EvaluableUntilMatch(em, events)
    ensures matched == NegativeVerdict(em, events).matched
    ensures text == description + NegativeVerdict(em, events).mismatch
  {
    var i := 0;
    while i < |events|
      invariant 0 <= i <= |events|
      invariant forall j :: 0 <= j < i ==> Rejects(em, events[j])
    {
      EvaluableAt(em, events, i);
      if em.accepts(events[i]) {
        FirstMatchAt(em, events, i);
        return false, description + em.mismatch(events[i]);
      }
      i := i + 1;
    }
    return true, description;
  }

  /** matchesSafely: the common prefix, then the walk the polarity selects. */
  method MatchesSafely(m: Matcher, events: seq<LogEvent>) returns (matched: bool, text: string)
    requires EvaluableUntilMatch(m.elementMatcher, events)
    ensures Verdict(matched, text) == Evaluate(m, events)
  {
    if m.negated {
      matched, text := NegativeMatches(m.elementMatcher, events, Contained);
    } else {
      matched, text := PositiveMatches(m.elementMatcher, events, Contained);
    }
  }

  function DescribeTo(m: Matcher): (r: string)
    ensures m.negated ==> r == "an iterable not containing " + m.elementMatcher.description
    ensures !m.negated ==> r == "an iterable containing " + m.elementMatcher.description
  {
    (if m.negated then "an iterable not containing " else "an iterable containing ")
    + m.elementMatcher.description
  }

  // ----- Properties -----

  /** hasItem matches exactly when some event satisfies the element matcher,
      and hasNoItem exactly when none does. */
  lemma HasItemIffSomeMatch(em: EventMatcher, events: seq<LogEvent>)
    requires EvaluableUntilMatch(em, events)
    ensures Evaluate(HasItem(em), events).matched <==> SomeMatch(em, events)
    ensures Evaluate(HasNoItem(em), events).matched <==> !SomeMatch(em, events)
  {
    FirstMatchWitnesses(em, events);
  }

  /** Events after the first match are never looked at: appending more
      events, even ones the element matcher cannot be handed, leaves the
      list walkable and both verdicts and their texts unchanged. */
  lemma {:induction false} StopsAtFirstMatch(m: Matcher, events: seq<LogEvent>, rest: seq<LogEvent>)
    requires EvaluableUntilMatch(m.elementMatcher, events)
    requires FirstMatch(m.elementMatcher, events).Some?
    ensures EvaluableUntilMatch(m.elementMatcher, events + rest)
    ensures Evaluate(m, events + rest) == Evaluate(m, events)
  {
    var em := m.elementMatcher;
    var k := FirstMatch(em, events).value;
    assert (events + rest)[k] == events[k];
    forall j | 0 <= j < k
      ensures Rejects(em, (events + rest)[j])
    {
      assert (events + rest)[j] == events[j];
    }
    EvaluableThroughMatch(em, events + rest, k);
    FirstMatchAt(em, events + rest, k);
    assert (events + rest)[..k] == events[..k];
  }

  /** With no event at all, hasItem fails on an empty bracket pair and
      hasNoItem succeeds. */
  lemma EmptyList(em: EventMatcher)
    ensures Evaluate(HasItem(em), []) == Verdict(false, "iterable contained []")
    ensures Evaluate(HasNoItem(em), []) == Verdict(true, "iterable contained ")
  {
    assert "[" + "" + "]" == "[]";
    assert Contained + "[]" == "iterable contained []";
    assert Contained + "" == "iterable contained ";
  }

  /** When every event is rejected, the whole list is walked: hasItem
      reports every event's mismatch in list order, and hasNoItem nothing
      beyond the prefix. */
  lemma NoMatchReportsEveryEvent(em: EventMatcher, events: seq<LogEvent>)
    requires forall j :: 0 <= j < |events| ==> Rejects(em, events[j])
    ensures EvaluableUntilMatch(em, events)
    ensures Evaluate(HasItem(em), events)
         == Verdict(false, Contained + "[" + Text.Join(", ", Mismatches(em, events)) + "]")
    ensures Evaluate(HasNoItem(em), events) == Verdict(true, Contained)
  {
    EvaluableAllRejected(em, events);
    FirstMatchWitnesses(em, events);
  }

  /** When event k is the first match, hasNoItem reports exactly that
      event, and hasItem the events rejected before it; the events after
      it are never handed to the element matcher. */
  lemma MatchReportsFirstMatchingEvent(em: EventMatcher, events: seq<LogEvent>, k: nat)
    requires k < |events| && Accepts(em, events[k])
    requires forall j :: 0 <= j < k ==> Rejects(em, events[j])
    ensures EvaluableUntilMatch(em, events)
    ensures Evaluate(HasNoItem(em), events) == Verdict(false, Contained + em.mismatch(events[k]))
    ensures Evaluate(HasItem(em), events)
         == Verdict(true, Contained + "[" + Text.Join(", ", Mismatches(em, events[..k])))
  {
    EvaluableThroughMatch(em, events, k);
    FirstMatchAt(em, events, k);
  }
}
