/** LoggingEventHasMessage: applies a string matcher to the event's
    formatted message. */
module LoggingEventHasMessage {
  import opened Wrappers
  import opened Events
  import opened MatcherTypes
  import DM = DescribingMatcher

  datatype Matcher = Matcher(matcher: StringMatcher, flags: DM.Flags)

  /** The private constructor: rejects a null sub-matcher. */
  function New(matcher: Option<StringMatcher>, flags: DM.Flags): (r: Result<Matcher>)
    ensures r.Failure? <==> matcher.None?
    ensures r.Failure? ==> r.message == "matcher must not be null."
    ensures r.Success? ==> r.value == Matcher(matcher.value, flags)
  {
    if matcher.None? then Failure("matcher must not be null.")
    else Success(Matcher(matcher.value, flags))
  }

  function HasMessage(matcher: Option<StringMatcher>): Result<Matcher>
  {
    New(matcher, DM.Flags(false, false))
  }

  function DoesNotHaveMessage(matcher: Option<StringMatcher>): Result<Matcher>
  {
    New(matcher, DM.Flags(true, false))
  }

  function WithMessage(matcher: Option<StringMatcher>): Result<Matcher>
  {
    New(matcher, DM.Flags(false, true))
  }

  /** internalMatches: the sub-matcher applied to the possibly-null
      formatted message. */
  predicate InternalMatches(m: Matcher, e: LogEvent)
  {
    m.matcher.accepts(e.formattedMessage)
  }

  function Expectation(m: Matcher): string
  {
    "an ILoggingEvent with a formattedMessage matching: " + m.matcher.description
  }

  function NegatedExpectation(m: Matcher): string
  {
    "an ILoggingEvent with a formattedMessage not matching: " + m.matcher.description
  }

  predicate Matches(m: Matcher, e: LogEvent)
  {
    DM.Matches(m.flags, InternalMatches(m, e))
  }

  function DescribeTo(m: Matcher): string
  {
    DM.DescribeTo(m.flags, Expectation(m), NegatedExpectation(m))
  }

  function DescribeMismatch(m: Matcher, e: LogEvent): string
  {
    DM.DescribeMismatch(m.flags, e)
  }

  // ----- Properties -----

  /** Every factory fails on a null sub-matcher, with the same message, and
      succeeds otherwise. */
  lemma NullMatcherRejected(matcher: Option<StringMatcher>)
    ensures HasMessage(matcher).Failure? <==> matcher.None?
    ensures DoesNotHaveMessage(matcher).Failure? <==> matcher.None?
    ensures WithMessage(matcher).Failure? <==> matcher.None?
    ensures matcher.None? ==> HasMessage(matcher).message == "matcher must not be null."
    ensures matcher.None? ==> DoesNotHaveMessage(matcher).message == "matcher must not be null."
    ensures matcher.None? ==> WithMessage(matcher).message == "matcher must not be null."
  {
  }

  /** hasMessage(s) matches exactly the events whose formatted message s
      accepts; doesNotHaveMessage(s) matches exactly the others. */
  lemma HasAndDoesNotHaveDisagree(s: StringMatcher, e: LogEvent)
    ensures Matches(HasMessage(Some(s)).value, e) <==> s.accepts(e.formattedMessage)
    ensures Matches(DoesNotHaveMessage(Some(s)).value, e) == !Matches(HasMessage(Some(s)).value, e)
  {
  }

  /** withMessage matches what hasMessage matches; its mismatch lacks "was ". */
  lemma WithMessageLikeHasMessage(s: StringMatcher, e: LogEvent)
    ensures Matches(WithMessage(Some(s)).value, e) == Matches(HasMessage(Some(s)).value, e)
    ensures DescribeMismatch(HasMessage(Some(s)).value, e) == "was " + DescribeMismatch(WithMessage(Some(s)).value, e)
    ensures DescribeMismatch(WithMessage(Some(s)).value, e) == DM.RenderEvent(e)
  {
  }

  /** The two description templates, followed by the sub-matcher's own
      description. */
  lemma DescriptionTemplates(s: StringMatcher)
    ensures DescribeTo(HasMessage(Some(s)).value) == "an ILoggingEvent with a formattedMessage matching: " + s.description
    ensures DescribeTo(WithMessage(Some(s)).value) == DescribeTo(HasMessage(Some(s)).value)
    ensures DescribeTo(DoesNotHaveMessage(Some(s)).value) == "an ILoggingEvent with a formattedMessage not matching: " + s.description
  {
  }
}
