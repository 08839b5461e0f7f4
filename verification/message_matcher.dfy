/** LoggingEventMessageMatcher: the earlier message matcher, a plain
    TypeSafeMatcher with its own polarity flag and its own event rendering. */
module LoggingEventMessageMatcher {
  import opened Wrappers
  import opened Events
  import opened MatcherTypes
  import DM = DescribingMatcher
  import HM = LoggingEventHasMessage
  import SC = StringContains

  /** shouldMatch is true for hasMessage and false for doesNotHaveMessage. */
  datatype Matcher = Matcher(matcher: StringMatcher, shouldMatch: bool)

  /** The private constructor: rejects a null sub-matcher. */
  function New(matcher: Option<StringMatcher>, shouldMatch: bool): (r: Result<Matcher>)
    ensures r.Failure? <==> matcher.None?
    ensures r.Failure? ==> r.message == "matcher must not be null."
    ensures r.Success? ==> r.value.shouldMatch == shouldMatch && Some(r.value.matcher) == matcher
  {
    if matcher.None? then Failure("matcher must not be null.")
    else Success(Matcher(matcher.value, shouldMatch))
  }

  function HasMessage(matcher: Option<StringMatcher>): Result<Matcher>
  {
    New(matcher, true)
  }

  function DoesNotHaveMessage(matcher: Option<StringMatcher>): Result<Matcher>
  {
    New(matcher, false)
  }

  /** The text the String overloads search for: the message itself when no
      argument is given, otherwise String.format (the parameter format) of
      the message with the arguments. */
  function Needle<A>(message: string, args: seq<A>, format: (string, seq<A>) -> string): string
  {
    if |args| == 0 then message else format(message, args)
  }

  /** hasMessage(message, args...): hasMessage(containsString(...)). */
  function HasMessageContaining<A>(message: string, args: seq<A>, format: (string, seq<A>) -> string): (r: Matcher)
    ensures r.shouldMatch
    ensures forall s :: r.matcher.accepts(Some(s)) <==> SC.Contains(s, Needle(message, args, format))
    ensures !r.matcher.accepts(None)
  {
    HasMessage(Some(SC.Containing(Needle(message, args, format)))).value
  }

  /** doesNotHaveMessage(message, args...): doesNotHaveMessage(containsString(...)). */
  function DoesNotHaveMessageContaining<A>(message: string, args: seq<A>, format: (string, seq<A>) -> string): (r: Matcher)
    ensures !r.shouldMatch
    ensures forall s :: r.matcher.accepts(Some(s)) <==> SC.Contains(s, Needle(message, args, format))
    ensures !r.matcher.accepts(None)
  {
    DoesNotHaveMessage(Some(SC.Containing(Needle(message, args, format)))).value
  }

  /** matchesSafely as written: the flag is conjoined with the sub-matcher's
      verdict, so a matcher built with shouldMatch false never matches. */
  predicate MatchesSafely(m: Matcher, e: LogEvent)
  {
    m.shouldMatch && m.matcher.accepts(e.formattedMessage)
  }

  /** matchesSafely as the doesNotHaveMessage factory evidently intends: the
      sub-matcher's verdict when shouldMatch holds, its negation otherwise. */
  predicate CorrectedMatchesSafely(m: Matcher, e: LogEvent)
  {
    m.shouldMatch == m.matcher.accepts(e.formattedMessage)
  }

  function DescribeTo(m: Matcher): string
  {
    (if m.shouldMatch then "an ILoggingEvent with a formattedMessage matching: "
     else "an ILoggingEvent with a formattedMessage not matching: ")
    + m.matcher.description
  }

  /** This class's rendering of a throwable proxy: the text StringBuilder.append
      gives the cause proxy (getCause(), the parameter causeText, itself
      "null" when there is no cause) followed by the message in quotes,
      "null" when absent. The cause is not part of ThrowableInfo, so the
      parameter sees only the outer proxy's class name and message. */
  function RenderThrowable(t: Option<ThrowableInfo>, causeText: ThrowableInfo -> string): (r: string)
    ensures t.None? ==> r == "null"
  {
    if t.None? then "null"
    else causeText(t.value) + "{message='" + NullText(t.value.message) + "'}"
  }

  function RenderEvent(e: LogEvent, causeText: ThrowableInfo -> string): string
  {
    "ILoggingEvent{" + "level=" + LevelText(e.level)
    + ", formattedMessage='" + NullText(e.formattedMessage) + "'"
    + ", loggedBy=" + NullText(e.loggerName)
    + ", throwable=" + RenderThrowable(e.throwable, causeText) + "}"
  }

  function DescribeMismatch(e: LogEvent, causeText: ThrowableInfo -> string): string
  {
    "was " + RenderEvent(e, causeText)
  }

  // ----- Properties of the code as written -----

  lemma NullMatcherRejected(matcher: Option<StringMatcher>)
    ensures HasMessage(matcher).Failure? <==> matcher.None?
    ensures DoesNotHaveMessage(matcher).Failure? <==> matcher.None?
    ensures matcher.None? ==> HasMessage(matcher).message == "matcher must not be null."
    ensures matcher.None? ==> DoesNotHaveMessage(matcher).message == "matcher must not be null."
  {
  }

  /** hasMessage(s) matches exactly the events whose formatted message s
      accepts, and agrees in verdict and description with hasMessage of
      LoggingEventHasMessage. */
  lemma HasMessageAgreesWithHasMessage(s: StringMatcher, e: LogEvent)
    ensures MatchesSafely(HasMessage(Some(s)).value, e) <==> s.accepts(e.formattedMessage)
    ensures MatchesSafely(HasMessage(Some(s)).value, e) == HM.Matches(HM.HasMessage(Some(s)).value, e)
    ensures DescribeTo(HasMessage(Some(s)).value) == HM.DescribeTo(HM.HasMessage(Some(s)).value)
    ensures DescribeTo(DoesNotHaveMessage(Some(s)).value) == HM.DescribeTo(HM.DoesNotHaveMessage(Some(s)).value)
  {
  }

  /** As written, doesNotHaveMessage matches no event at all, whatever its
      sub-matcher. */
  lemma DoesNotHaveMessageNeverMatches(s: StringMatcher, e: LogEvent)
    ensures !MatchesSafely(DoesNotHaveMessage(Some(s)).value, e)
  {
  }

  /** doesNotHaveMessage("foo") against an event logged with "bar": the
      message does not contain "foo", yet the matcher as written rejects it. */
  lemma DoesNotHaveMessageCounterexample()
    ensures var m, e := DoesNotHaveMessage(Some(SC.Containing("foo"))).value, LogEvent(None, Some("bar"), None, None);
      && !SC.Contains("bar", "foo")
      && !MatchesSafely(m, e)
      && CorrectedMatchesSafely(m, e)
  {
    SC.MissingCharacter("bar", "foo", 0);
  }

  // ----- Properties of the corrected polarity -----

  /** With the corrected polarity, hasMessage and doesNotHaveMessage are
      complements, agree with the matchers of LoggingEventHasMessage, and
      hasMessage is unchanged by the correction. */
  lemma CorrectedAgreesWithHasMessage(s: StringMatcher, e: LogEvent)
    ensures CorrectedMatchesSafely(HasMessage(Some(s)).value, e) == MatchesSafely(HasMessage(Some(s)).value, e)
    ensures CorrectedMatchesSafely(DoesNotHaveMessage(Some(s)).value, e) == !CorrectedMatchesSafely(HasMessage(Some(s)).value, e)
    ensures CorrectedMatchesSafely(DoesNotHaveMessage(Some(s)).value, e) == HM.Matches(HM.DoesNotHaveMessage(Some(s)).value, e)
  {
  }

  // ----- The String overloads and the rendering -----

  /** Without arguments the message is searched for verbatim: the formatter
      is never consulted. */
  lemma NoArgumentsSkipsFormatting<A>(message: string, f: (string, seq<A>) -> string, g: (string, seq<A>) -> string)
    ensures HasMessageContaining(message, [], f) == HasMessageContaining(message, [], g)
    ensures DoesNotHaveMessageContaining(message, [], f) == DoesNotHaveMessageContaining(message, [], g)
    ensures HasMessageContaining(message, [], f).matcher.description == "a string containing \"" + message + "\""
  {
  }

  /** Without a throwable this class renders an event exactly as the
      describing matchers do. */
  lemma RenderingAgreesWithoutThrowable(e: LogEvent, causeText: ThrowableInfo -> string)
    requires e.throwable.None?
    ensures RenderEvent(e, causeText) == DM.RenderEvent(e)
    ensures DescribeMismatch(e, causeText) == DM.DescribeMismatch(DM.Flags(false, false), e)
  {
  }

  /** This class's throwable rendering loses information the describing
      matchers keep: the class name never shows, and an absent message reads
      like the message "null". */
  lemma ThrowableRenderingIsLossy(c1: string, c2: string, causeText: ThrowableInfo -> string)
    requires causeText(ThrowableInfo(c1, None)) == causeText(ThrowableInfo(c2, Some("null")))
    ensures RenderThrowable(Some(ThrowableInfo(c1, None)), causeText)
         == RenderThrowable(Some(ThrowableInfo(c2, Some("null"))), causeText)
    ensures DM.RenderThrowable(Some(ThrowableInfo(c1, None))) != DM.RenderThrowable(Some(ThrowableInfo(c1, Some("null"))))
  {
    DM.RenderThrowableDistinguishesMessages(c1, None, Some("null"));
  }

  /** The rendered event follows the record layout of the describing
      matchers, field for field; only the throwable's own text differs. */
  lemma RenderEventLayout(e: LogEvent, causeText: ThrowableInfo -> string)
    ensures RenderEvent(e, causeText) == DM.RenderRecord("ILoggingEvent", [
      ("level", LevelText(e.level)),
      ("formattedMessage", "'" + NullText(e.formattedMessage) + "'"),
      ("loggedBy", NullText(e.loggerName)),
      ("throwable", RenderThrowable(e.throwable, causeText))])
  {
    var fields := [
      ("level", LevelText(e.level)),
      ("formattedMessage", "'" + NullText(e.formattedMessage) + "'"),
      ("loggedBy", NullText(e.loggerName)),
      ("throwable", RenderThrowable(e.throwable, causeText))];
    var L, M, N, T := LevelText(e.level), NullText(e.formattedMessage), NullText(e.loggerName), RenderThrowable(e.throwable, causeText);
    DM.FieldTextsFour(fields);
    DM.JoinFour(", ", "level" + "=" + L, "formattedMessage" + "=" + ("'" + M + "'"), "loggedBy" + "=" + N, "throwable" + "=" + T);
    DM.EventLayoutText(L, M, N, T);
  }

  /** Every mismatch starts with "was ILoggingEvent{level=". */
  lemma MismatchPrefix(e: LogEvent, causeText: ThrowableInfo -> string)
    ensures "was ILoggingEvent{level=" <= DescribeMismatch(e, causeText)
  {
    var L, M, N, T := LevelText(e.level), NullText(e.formattedMessage), NullText(e.loggerName), RenderThrowable(e.throwable, causeText);
    HeadThenTail("was ", "ILoggingEvent{" + "level=", L, ", formattedMessage='" + M + "'" + ", loggedBy=" + N + ", throwable=" + T + "}");
    assert "was " + ("ILoggingEvent{" + "level=") == "was ILoggingEvent{level=";
  }

  lemma HeadThenTail(w: string, h: string, L: string, t: string)
    ensures w + (h + L + t) == (w + h) + (L + t)
    ensures w + h <= w + (h + L + t)
  {
    assert w + (h + L + t) == (w + h) + (L + t);
  }
}
