/** LoggingEventLoggerNameMatcher: the earlier logger-name matcher, a plain
    TypeSafeMatcher comparing the event's logger name with an expected one. */
module LoggingEventLoggerNameMatcher {
  import opened Wrappers
  import opened Events
  import LB = LoggingEventLoggedBy

  datatype Matcher = Matcher(loggerName: string)

  /** The constructor: rejects a null logger name. */
  function New(loggerName: Option<string>): (r: Result<Matcher>)
    ensures r.Failure? <==> loggerName.None?
    ensures r.Failure? ==> r.message == "loggerName must not be null."
    ensures r.Success? ==> Some(r.value.loggerName) == loggerName
  {
    if loggerName.None? then Failure("loggerName must not be null.")
    else Success(Matcher(loggerName.value))
  }

  function UsesLogger(loggerName: Option<string>): Result<Matcher>
  {
    New(loggerName)
  }

  /** usesLogger(Class): the class's name handed to the constructor. */
  function UsesLoggerType(loggerType: JavaClass): (r: Result<Matcher>)
    ensures r.Success?
  {
    New(Some(loggerType.name))
  }

  /** matchesSafely: event.getLoggerName().equals(loggerName); a null
      logger name on the event would throw, so it is excluded. */
  predicate MatchesSafely(m: Matcher, e: LogEvent)
    requires e.loggerName.Some?
  {
    e.loggerName.value == m.loggerName
  }

  function DescribeTo(m: Matcher): string
  {
    "a LoggingEvent for logger with name: '" + m.loggerName + "'"
  }

  // ----- Properties -----

  /** usesLogger(n) matches exactly the events logged by n, with the verdict
      of wasLoggedBy(n) of LoggingEventLoggedBy. */
  lemma MatchesExactlyLogger(n: string, e: LogEvent)
    requires e.loggerName.Some?
    ensures MatchesSafely(UsesLogger(Some(n)).value, e) <==> e.loggerName == Some(n)
    ensures MatchesSafely(UsesLogger(Some(n)).value, e) == LB.Matches(LB.WasLoggedBy(Some(n)).value, e)
  {
  }

  /** The class overload is the name overload applied to the class's name,
      and agrees with wasLoggedBy(Class). */
  lemma TypeOverloadUsesClassName(c: JavaClass, e: LogEvent)
    requires e.loggerName.Some?
    ensures UsesLoggerType(c) == UsesLogger(Some(c.name))
    ensures MatchesSafely(UsesLoggerType(c).value, e) == LB.Matches(LB.WasLoggedByType(Some(c)).value, e)
  {
  }

  /** usesLogger(null) fails with the message wasLoggedBy(null) uses. */
  lemma NullLoggerNameRejected()
    ensures UsesLogger(None) == Failure("loggerName must not be null.")
    ensures LB.WasLoggedBy(None).Failure? && LB.WasLoggedBy(None).message == UsesLogger(None).message
  {
  }

  /** The description quotes the logger name. */
  lemma DescribesLoggerName(n: string)
    ensures DescribeTo(UsesLogger(Some(n)).value) == "a LoggingEvent for logger with name: '" + n + "'"
  {
  }
}
