/** LoggingEventLoggedBy: compares the event's logger name with an expected
    name, given directly or as a class whose name is used. */
module LoggingEventLoggedBy {
  import opened Wrappers
  import opened Events
  import opened MatcherTypes
  import DM = DescribingMatcher

  datatype Matcher = Matcher(loggerName: string, flags: DM.Flags)

  /** The String constructor: rejects a null logger name. */
  function FromName(loggerName: Option<string>, flags: DM.Flags): (r: Result<Matcher>)
    ensures r.Failure? <==> loggerName.None?
    ensures r.Failure? ==> r.message == "loggerName must not be null."
    ensures r.Success? ==> r.value == Matcher(loggerName.value, flags)
  {
    if loggerName.None? then Failure("loggerName must not be null.")
    else Success(Matcher(loggerName.value, flags))
  }

  /** The Class constructor: rejects a null class, then uses its name. */
  function FromType(loggerType: Option<JavaClass>, flags: DM.Flags): (r: Result<Matcher>)
    ensures r.Failure? <==> loggerType.None?
    ensures r.Failure? ==> r.message == "loggerType must not be null."
    ensures r.Success? ==> r.value == Matcher(loggerType.value.name, flags)
  {
    if loggerType.None? then Failure("loggerType must not be null.")
    else Success(Matcher(loggerType.value.name, flags))
  }

  function WasLoggedBy(loggerName: Option<string>): Result<Matcher>
  {
    FromName(loggerName, DM.Flags(false, false))
  }

  function WasNotLoggedBy(loggerName: Option<string>): Result<Matcher>
  {
    FromName(loggerName, DM.Flags(true, false))
  }

  function LoggedBy(loggerName: Option<string>): Result<Matcher>
  {
    FromName(loggerName, DM.Flags(false, true))
  }

  function WasLoggedByType(loggerType: Option<JavaClass>): Result<Matcher>
  {
    FromType(loggerType, DM.Flags(false, false))
  }

  function WasNotLoggedByType(loggerType: Option<JavaClass>): Result<Matcher>
  {
    FromType(loggerType, DM.Flags(true, false))
  }

  function LoggedByType(loggerType: Option<JavaClass>): Result<Matcher>
  {
    FromType(loggerType, DM.Flags(false, true))
  }

  /** internalMatches: event.getLoggerName().equals(loggerName); a null
      logger name on the event would throw, so it is excluded. */
  predicate InternalMatches(m: Matcher, e: LogEvent)
    requires e.loggerName.Some?
  {
    e.loggerName.value == m.loggerName
  }

  function Expectation(m: Matcher): string
  {
    "an ILoggingEvent logged by: " + m.loggerName
  }

  function NegatedExpectation(m: Matcher): string
  {
    "an ILoggingEvent not logged by: " + m.loggerName
  }

  predicate Matches(m: Matcher, e: LogEvent)
    requires e.loggerName.Some?
  {
    DM.Matches(m.flags, InternalMatches(m, e))
  }

  function DescribeTo(m: Matcher): string
  {
    DM.DescribeTo(m.flags, Expectation(m), NegatedExpectation(m))
  }

  function DescribeMismatch(m: Matcher, e: LogEvent): string
  {
    DM.DescribeMismatch(m.flags, e)
  }

  // ----- Properties -----

  /** wasLoggedBy(n) matches exactly the events logged by n, and
      wasNotLoggedBy(n) exactly the others. */
  lemma WasAndWasNotDisagree(n: string, e: LogEvent)
    requires e.loggerName.Some?
    ensures Matches(WasLoggedBy(Some(n)).value, e) <==> e.loggerName == Some(n)
    ensures Matches(WasNotLoggedBy(Some(n)).value, e) == !Matches(WasLoggedBy(Some(n)).value, e)
  {
  }

  /** loggedBy matches what wasLoggedBy matches; its mismatch is the
      rendered event alone. */
  lemma LoggedByLikeWasLoggedBy(n: string, e: LogEvent)
    requires e.loggerName.Some?
    ensures Matches(LoggedBy(Some(n)).value, e) == Matches(WasLoggedBy(Some(n)).value, e)
    ensures DescribeMismatch(LoggedBy(Some(n)).value, e) == DM.RenderEvent(e)
    ensures DescribeMismatch(WasLoggedBy(Some(n)).value, e) == "was " + DM.RenderEvent(e)
  {
  }

  /** Each Class overload builds the matcher the String overload builds from
      the class's name; only the null check's message differs. */
  lemma TypeOverloadsUseClassName(t: JavaClass)
    ensures WasLoggedByType(Some(t)) == WasLoggedBy(Some(t.name))
    ensures WasNotLoggedByType(Some(t)) == WasNotLoggedBy(Some(t.name))
    ensures LoggedByType(Some(t)) == LoggedBy(Some(t.name))
    ensures WasLoggedByType(None) == Failure("loggerType must not be null.")
    ensures WasLoggedBy(None) == Failure("loggerName must not be null.")
  {
  }

  /** The two description templates. */
  lemma DescriptionTemplates(n: string)
    ensures DescribeTo(WasLoggedBy(Some(n)).value) == "an ILoggingEvent logged by: " + n
    ensures DescribeTo(LoggedBy(Some(n)).value) == "an ILoggingEvent logged by: " + n
    ensures DescribeTo(WasNotLoggedBy(Some(n)).value) == "an ILoggingEvent not logged by: " + n
  {
  }
}
