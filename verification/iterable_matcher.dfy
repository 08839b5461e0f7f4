/** LoggingEventIterableMatcher: the earlier, positive-only iterable matcher.
    Its walk is the one hasItem of LoggingEventIterableHasItem performs. */
module LoggingEventIterableMatcher {
  import opened Events
  import opened MatcherTypes
  import Text
  import HI = LoggingEventIterableHasItem

  datatype Matcher = Matcher(elementMatcher: EventMatcher)

  function HasItem(itemMatcher: EventMatcher): Matcher
  {
    Matcher(itemMatcher)
  }

  /** matchesSafely: the bracketed, comma-separated mismatches of the events
      before the first accepted one; it behaves exactly like hasItem of
      LoggingEventIterableHasItem on every list. */
  method MatchesSafely(m: Matcher, events: seq<LogEvent>) returns (matched: bool, text: string)
    requires EvaluableUntilMatch(m.elementMatcher, events)
    ensures HI.Verdict(matched, text) == HI.Evaluate(HI.HasItem(m.elementMatcher), events)
    ensures matched <==> HI.SomeMatch(m.elementMatcher, events)
  {
    var em := m.elementMatcher;
    text := "iterable contained [";
    var isPastFirst := false;
    var i := 0;
    while i < |events|
      invariant 0 <= i <= |events|
      invariant forall j :: 0 <= j < i ==> Rejects(em, events[j])
      invariant isPastFirst <==> i > 0
      invariant text == "iterable contained [" + Text.Join(", ", HI.Mismatches(em, events[..i]))
    {
      HI.EvaluableAt(em, events, i);
      if em.accepts(events[i]) {
        HI.FirstMatchAt(em, events, i);
        HI.FirstMatchWitnesses(em, events);
        return true, text;
      }
      HI.AppendMismatch(em, events, i, "iterable contained [", text);
      if isPastFirst {
        text := text + ", ";
      }
      text := text + em.mismatch(events[i]);
      isPastFirst := true;
      i := i + 1;
    }
    assert events[..i] == events;
    HI.FirstMatchWitnesses(em, events);
    assert HI.Contained + "[" == "iterable contained [";
    text := text + "]";
    matched := false;
  }

  function DescribeTo(m: Matcher): (r: string)
    ensures r == HI.DescribeTo(HI.HasItem(m.elementMatcher))
  {
    "an iterable containing " + m.elementMatcher.description
  }
}
