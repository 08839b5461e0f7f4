/** The list scenarios of the iterable matchers, with level matchers as the
    element matchers, as the project's examples for hasItem and hasNoItem
    set them up: events carrying only a level. */
module IterableScenarios {
  import opened Wrappers
  import opened Events
  import opened MatcherTypes
  import Text
  import DM = DescribingMatcher
  import HL = LoggingEventHasLevel
  import HI = LoggingEventIterableHasItem

  function LevelOnly(l: Level): LogEvent
  {
    LogEvent(Some(l), None, None, None)
  }

  /** The rendering of a level-only event. */
  function Rendered(l: Level): string
  {
    "ILoggingEvent{level=" + LevelName(l) + ", formattedMessage='null', loggedBy=null, throwable=null}"
  }

  lemma JoinTwo(sep: string, a: string, b: string)
    ensures Text.Join(sep, [a, b]) == a + sep + b
  {
    assert [a, b][..1] == [a];
  }

  /** withLevel(ERROR) with the intended polarity, as an element matcher. */
  function IntendedErrorItem(): EventMatcher
  {
    HL.AsEventMatcher(HL.IntendedWithLevel(Some(ERROR)).value)
  }

  /** hasItem(withLevel(ERROR)) on [INFO, WARN] fails and lists both events,
      without the "was " of a single-event mismatch; hasNoItem succeeds. */
  lemma NoErrorAmongInfoAndWarn()
    ensures EvaluableUntilMatch(IntendedErrorItem(), [LevelOnly(INFO), LevelOnly(WARN)])
    ensures HI.Evaluate(HI.HasItem(IntendedErrorItem()), [LevelOnly(INFO), LevelOnly(WARN)])
         == HI.Verdict(false, "iterable contained " + "[" + Rendered(INFO) + ", " + Rendered(WARN) + "]")
    ensures HI.Evaluate(HI.HasNoItem(IntendedErrorItem()), [LevelOnly(INFO), LevelOnly(WARN)])
         == HI.Verdict(true, "iterable contained ")
  {
    var em, events := IntendedErrorItem(), [LevelOnly(INFO), LevelOnly(WARN)];
    InfoWarnMismatches();
    InfoWarnNoMatch();
    HI.NoMatchReportsEveryEvent(em, events);
    Bracketed(Rendered(INFO), Rendered(WARN));
  }

  lemma Bracketed(a: string, b: string)
    ensures HI.Contained + "[" + (a + ", " + b) + "]" == "iterable contained " + "[" + a + ", " + b + "]"
  {
  }

  lemma InfoWarnMismatches()
    ensures Text.Join(", ", HI.Mismatches(IntendedErrorItem(), [LevelOnly(INFO), LevelOnly(WARN)]))
         == Rendered(INFO) + ", " + Rendered(WARN)
  {
    var em, events := IntendedErrorItem(), [LevelOnly(INFO), LevelOnly(WARN)];
    ItemMismatch(INFO);
    ItemMismatch(WARN);
    assert HI.Mismatches(em, events) == [Rendered(INFO), Rendered(WARN)];
    JoinTwo(", ", Rendered(INFO), Rendered(WARN));
  }

  lemma InfoWarnNoMatch()
    ensures forall i :: 0 <= i < 2 ==> Rejects(IntendedErrorItem(), [LevelOnly(INFO), LevelOnly(WARN)][i])
  {
    var em, events := IntendedErrorItem(), [LevelOnly(INFO), LevelOnly(WARN)];
    forall i | 0 <= i < |events|
      ensures Rejects(em, events[i])
    {
    }
  }

  /** The descriptions of hasItem and hasNoItem around withLevel(ERROR). */
  lemma ErrorItemDescriptions()
    ensures HI.DescribeTo(HI.HasItem(IntendedErrorItem()))
         == "an iterable containing " + "an ILoggingEvent with level: " + "ERROR"
    ensures HI.DescribeTo(HI.HasNoItem(IntendedErrorItem()))
         == "an iterable not containing " + "an ILoggingEvent with level: " + "ERROR"
  {
  }

  /** On [INFO, ERROR], hasItem(withLevel(ERROR)) matches, and hasNoItem
      fails reporting the ERROR event alone. */
  lemma ErrorAfterInfo()
    ensures EvaluableUntilMatch(IntendedErrorItem(), [LevelOnly(INFO), LevelOnly(ERROR)])
    ensures HI.Evaluate(HI.HasItem(IntendedErrorItem()), [LevelOnly(INFO), LevelOnly(ERROR)]).matched
    ensures HI.Evaluate(HI.HasNoItem(IntendedErrorItem()), [LevelOnly(INFO), LevelOnly(ERROR)])
         == HI.Verdict(false, "iterable contained " + Rendered(ERROR))
  {
    var em, events := IntendedErrorItem(), [LevelOnly(INFO), LevelOnly(ERROR)];
    ItemMismatch(ERROR);
    assert Rejects(em, events[0]);
    assert Accepts(em, events[1]);
    HI.MatchReportsFirstMatchingEvent(em, events, 1);
  }

  /** Inside a list, the element matcher reports a level-only event by its
      rendering alone. */
  lemma ItemMismatch(l: Level)
    ensures IntendedErrorItem().mismatch(LevelOnly(l)) == Rendered(l)
  {
    var m := HL.IntendedWithLevel(Some(ERROR)).value;
    assert HL.DescribeMismatch(m, LevelOnly(l)) == DM.RenderEvent(LevelOnly(l));
    DM.BareEventRendering(Some(l));
  }

  /** With withLevel as written (negated), hasItem(withLevel(ERROR)) matches
      [INFO, WARN], where a failure is expected: the INFO event is accepted
      as "other than ERROR". */
  lemma AsWrittenWithLevelAcceptsInfo()
    ensures EvaluableUntilMatch(HL.AsEventMatcher(HL.WithLevel(Some(ERROR)).value), [LevelOnly(INFO), LevelOnly(WARN)])
    ensures HI.Evaluate(HI.HasItem(HL.AsEventMatcher(HL.WithLevel(Some(ERROR)).value)), [LevelOnly(INFO), LevelOnly(WARN)])
         == HI.Verdict(true, "iterable contained " + "[")
  {
    var em, events := HL.AsEventMatcher(HL.WithLevel(Some(ERROR)).value), [LevelOnly(INFO), LevelOnly(WARN)];
    assert Accepts(em, events[0]);
    HI.MatchReportsFirstMatchingEvent(em, events, 0);
    assert events[..0] == [];
  }

  /** An event without a level, which the level matcher cannot be handed,
      placed after the ERROR event: neither walk reaches it, so hasItem
      matches with only the opening bracket reported and hasNoItem fails on
      the ERROR event. */
  lemma LevelLessEventAfterMatch()
    ensures EvaluableUntilMatch(IntendedErrorItem(), [LevelOnly(ERROR), LogEvent(None, None, None, None)])
    ensures HI.Evaluate(HI.HasItem(IntendedErrorItem()), [LevelOnly(ERROR), LogEvent(None, None, None, None)])
         == HI.Verdict(true, "iterable contained " + "[")
    ensures HI.Evaluate(HI.HasNoItem(IntendedErrorItem()), [LevelOnly(ERROR), LogEvent(None, None, None, None)])
         == HI.Verdict(false, "iterable contained " + Rendered(ERROR))
  {
    var em, events := IntendedErrorItem(), [LevelOnly(ERROR), LogEvent(None, None, None, None)];
    ItemMismatch(ERROR);
    assert Accepts(em, events[0]);
    HI.MatchReportsFirstMatchingEvent(em, events, 0);
    assert events[..0] == [];
  }
}
