/** LoggingEventHasLevel: compares the event's level with an expected level.

    As written, the class sits between two versions of its base class: its
    factories pass true as the base's isNegated for hasLevel and withLevel
    (its constructor still calls the parameter shouldMatch), and it
    overrides describePositiveMatch / describeNegativeMatch, which the base
    does not declare. Here describePositiveMatch is the expectation and
    describeNegativeMatch the negated expectation, and HasLevel, WithLevel and
    DoesNotHaveLevel pass the flags exactly as the factories do. The
    Intended* factories pass the flags the Javadoc and the tests call for. */
module LoggingEventHasLevel {
  import opened Wrappers
  import opened Events
  import opened MatcherTypes
  import DM = DescribingMatcher

  datatype Matcher = Matcher(level: Level, flags: DM.Flags)

  /** The private constructor: rejects a null level. */
  function New(level: Option<Level>, flags: DM.Flags): (r: Result<Matcher>)
    ensures r.Failure? <==> level.None?
    ensures r.Failure? ==> r.message == "level must not be null."
    ensures r.Success? ==> r.value == Matcher(level.value, flags)
  {
    if level.None? then Failure("level must not be null.")
    else Success(Matcher(level.value, flags))
  }

  /** hasLevel as written: isNegated = true. */
  function HasLevel(level: Option<Level>): Result<Matcher>
  {
    New(level, DM.Flags(true, false))
  }

  /** doesNotHaveLevel as written: isNegated = false. */
  function DoesNotHaveLevel(level: Option<Level>): Result<Matcher>
  {
    New(level, DM.Flags(false, false))
  }

  /** withLevel as written: isNegated = true, used on iterables. */
  function WithLevel(level: Option<Level>): Result<Matcher>
  {
    New(level, DM.Flags(true, true))
  }

  /** hasLevel with the polarity its Javadoc and tests describe. */
  function IntendedHasLevel(level: Option<Level>): Result<Matcher>
  {
    New(level, DM.Flags(false, false))
  }

  function IntendedDoesNotHaveLevel(level: Option<Level>): Result<Matcher>
  {
    New(level, DM.Flags(true, false))
  }

  function IntendedWithLevel(level: Option<Level>): Result<Matcher>
  {
    New(level, DM.Flags(false, true))
  }

  /** internalMatches: event.getLevel().equals(level); a null level on the
      event would throw, so it is excluded. */
  predicate InternalMatches(m: Matcher, e: LogEvent)
    requires e.level.Some?
  {
    e.level.value == m.level
  }

  /** describePositiveMatch. */
  function Expectation(m: Matcher): string
  {
    "an ILoggingEvent with level: " + LevelName(m.level)
  }

  /** describeNegativeMatch. */
  function NegatedExpectation(m: Matcher): string
  {
    "an ILoggingEvent with level other than: " + LevelName(m.level)
  }

  predicate Matches(m: Matcher, e: LogEvent)
    requires e.level.Some?
  {
    DM.Matches(m.flags, InternalMatches(m, e))
  }

  function DescribeTo(m: Matcher): string
  {
    DM.DescribeTo(m.flags, Expectation(m), NegatedExpectation(m))
  }

  function DescribeMismatch(m: Matcher, e: LogEvent): string
  {
    DM.DescribeMismatch(m.flags, e)
  }

  function AsEventMatcher(m: Matcher): EventMatcher
  {
    EventMatcher((e: LogEvent) requires e.level.Some? => Matches(m, e),
                 (e: LogEvent) => DescribeMismatch(m, e), DescribeTo(m))
  }

  // ----- Properties of the code as written -----

  /** Every factory fails on a null level with the same message. */
  lemma NullLevelRejected()
    ensures HasLevel(None) == Failure("level must not be null.")
    ensures DoesNotHaveLevel(None) == Failure("level must not be null.")
    ensures WithLevel(None) == Failure("level must not be null.")
  {
  }

  /** hasLevel and doesNotHaveLevel get opposite isNegated flags, so they
      disagree on every event. */
  lemma HasAndDoesNotHaveDisagree(l: Level, e: LogEvent)
    requires e.level.Some?
    ensures Matches(DoesNotHaveLevel(Some(l)).value, e) == !Matches(HasLevel(Some(l)).value, e)
    ensures Matches(DoesNotHaveLevel(Some(l)).value, e) <==> e.level == Some(l)
  {
  }

  /** withLevel matches what hasLevel matches and describes itself the same
      way; only the iterable flag, and with it the "was " prefix, differs. */
  lemma WithLevelLikeHasLevel(l: Level, e: LogEvent)
    requires e.level.Some?
    ensures Matches(WithLevel(Some(l)).value, e) == Matches(HasLevel(Some(l)).value, e)
    ensures DescribeTo(WithLevel(Some(l)).value) == DescribeTo(HasLevel(Some(l)).value)
    ensures DescribeMismatch(HasLevel(Some(l)).value, e) == "was " + DescribeMismatch(WithLevel(Some(l)).value, e)
  {
  }

  /** The two templates; as written, hasLevel describes itself with the
      "other than" template and doesNotHaveLevel with the plain one. */
  lemma DescriptionTemplates(l: Level)
    ensures DescribeTo(DoesNotHaveLevel(Some(l)).value) == "an ILoggingEvent with level: " + LevelName(l)
    ensures DescribeTo(HasLevel(Some(l)).value) == "an ILoggingEvent with level other than: " + LevelName(l)
  {
  }

  /** The discrepancy: as written, hasLevel(l) rejects every event whose level
      is l, and accepts every other one. */
  lemma AsWrittenHasLevelRejectsItsLevel(l: Level, e: LogEvent)
    requires e.level.Some?
    ensures Matches(HasLevel(Some(l)).value, e) <==> e.level != Some(l)
    ensures e.level == Some(l) ==> !Matches(HasLevel(Some(l)).value, e)
  {
  }

  /** hasLevel(ERROR) against an event with level ERROR, as the test that
      expects a match sets it up: as written it does not match. */
  lemma AsWrittenHasLevelCounterexample()
    ensures !Matches(HasLevel(Some(ERROR)).value, LogEvent(Some(ERROR), None, None, None))
  {
  }

  // ----- Properties of the intended polarity -----

  /** The intended hasLevel(l) matches exactly the events of level l and is
      described with the plain template; the intended doesNotHaveLevel(l) is
      its complement with the "other than" template; the intended withLevel
      matches like hasLevel. */
  lemma IntendedHasLevelMatchesLevel(l: Level, e: LogEvent)
    requires e.level.Some?
    ensures Matches(IntendedHasLevel(Some(l)).value, e) <==> e.level == Some(l)
    ensures Matches(IntendedDoesNotHaveLevel(Some(l)).value, e) == !Matches(IntendedHasLevel(Some(l)).value, e)
    ensures Matches(IntendedWithLevel(Some(l)).value, e) == Matches(IntendedHasLevel(Some(l)).value, e)
    ensures DescribeTo(IntendedHasLevel(Some(l)).value) == "an ILoggingEvent with level: " + LevelName(l)
    ensures DescribeTo(IntendedDoesNotHaveLevel(Some(l)).value) == "an ILoggingEvent with level other than: " + LevelName(l)
  {
  }

  /** The error-description scenario: hasLevel(ERROR) against an INFO event
      fails, describing the expectation and the event. */
  lemma IntendedDescribesError()
    ensures var m, e := IntendedHasLevel(Some(ERROR)).value, LogEvent(Some(INFO), None, None, None);
      && !Matches(m, e)
      && DescribeTo(m) == "an ILoggingEvent with level: ERROR"
      && DescribeMismatch(m, e) == "was " + "ILoggingEvent{level=" + "INFO" + ", formattedMessage='null', loggedBy=null, throwable=null}"
  {
    assert "an ILoggingEvent with level: " + "ERROR" == "an ILoggingEvent with level: ERROR";
    DM.BareEventRendering(Some(INFO));
  }
}
