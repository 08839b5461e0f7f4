/** LoggingEventHasThrowable: matches the event's throwable against an
    expected one by class name and message. */
module LoggingEventHasThrowable {
  import opened Wrappers
  import opened Events
  import opened MatcherTypes
  import DM = DescribingMatcher

  /** The expected throwable may be null: the constructor does not check it. */
  datatype Matcher = Matcher(throwable: Option<ThrowableInfo>, flags: DM.Flags)

  function HasThrowable(throwable: Option<ThrowableInfo>): Matcher
  {
    Matcher(throwable, DM.Flags(false, false))
  }

  function DoesNotHaveThrowable(throwable: Option<ThrowableInfo>): Matcher
  {
    Matcher(throwable, DM.Flags(true, false))
  }

  function WithThrowable(throwable: Option<ThrowableInfo>): Matcher
  {
    Matcher(throwable, DM.Flags(false, true))
  }

  /** Guava's Objects.equal on two possibly-null strings: the same reference
      (in particular both null), or a non-null first one equal to the second. */
  predicate ObjectsEqual(a: Option<string>, b: Option<string>)
    ensures ObjectsEqual(a, b) <==> a == b
  {
    (a.None? && b.None?) || (a.Some? && b.Some? && a.value == b.value)
  }

  /** internalMatches: when either side is null, whether both are; otherwise
      equal class names and null-safe equal messages. Altogether this is
      structural equality of the two possibly-absent throwables. */
  predicate InternalMatches(m: Matcher, e: LogEvent)
    ensures InternalMatches(m, e) <==> e.throwable == m.throwable
  {
    if e.throwable.None? || m.throwable.None? then
      e.throwable.None? && m.throwable.None?
    else
      var proxy, expected := e.throwable.value, m.throwable.value;
      proxy.className == expected.className && ObjectsEqual(proxy.message, expected.message)
  }

  function Expectation(m: Matcher): string
  {
    "an ILoggingEvent with a throwable matching: " + DM.RenderThrowable(m.throwable)
  }

  function NegatedExpectation(m: Matcher): string
  {
    "an ILoggingEvent with a throwable not matching: " + DM.RenderThrowable(m.throwable)
  }

  predicate Matches(m: Matcher, e: LogEvent)
  {
    DM.Matches(m.flags, InternalMatches(m, e))
  }

  function DescribeTo(m: Matcher): string
  {
    DM.DescribeTo(m.flags, Expectation(m), NegatedExpectation(m))
  }

  function DescribeMismatch(m: Matcher, e: LogEvent): string
  {
    DM.DescribeMismatch(m.flags, e)
  }

  // ----- Properties -----

  /** hasThrowable(t) matches exactly the events whose throwable equals t in
      class name and message; hasThrowable(null) matches exactly the events
      without a throwable. */
  lemma HasThrowableMatchesEqualThrowable(t: Option<ThrowableInfo>, e: LogEvent)
    ensures Matches(HasThrowable(t), e) <==> e.throwable == t
    ensures t.None? ==> (Matches(HasThrowable(t), e) <==> e.throwable.None?)
  {
  }

  /** hasThrowable and doesNotHaveThrowable disagree on every event. */
  lemma HasAndDoesNotHaveDisagree(t: Option<ThrowableInfo>, e: LogEvent)
    ensures Matches(DoesNotHaveThrowable(t), e) == !Matches(HasThrowable(t), e)
  {
  }

  /** withThrowable matches the same events as hasThrowable and describes
      itself the same way; its mismatch only lacks the "was " prefix. */
  lemma WithThrowableLikeHasThrowable(t: Option<ThrowableInfo>, e: LogEvent)
    ensures Matches(WithThrowable(t), e) == Matches(HasThrowable(t), e)
    ensures DescribeTo(WithThrowable(t)) == DescribeTo(HasThrowable(t))
    ensures DescribeMismatch(HasThrowable(t), e) == "was " + DescribeMismatch(WithThrowable(t), e)
    ensures DescribeMismatch(WithThrowable(t), e) == DM.RenderEvent(e)
  {
  }

  /** The two description templates, followed by the expected throwable in
      the base class's rendering. */
  lemma DescriptionTemplates(t: Option<ThrowableInfo>)
    ensures DescribeTo(HasThrowable(t)) == "an ILoggingEvent with a throwable matching: " + DM.RenderThrowable(t)
    ensures DescribeTo(DoesNotHaveThrowable(t)) == "an ILoggingEvent with a throwable not matching: " + DM.RenderThrowable(t)
  {
  }
}
