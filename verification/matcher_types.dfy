/** The two Hamcrest matcher shapes the log-event matchers consume. */
module MatcherTypes {
  import opened Wrappers
  import opened Events

  /** A Hamcrest Matcher<String>: whether it accepts a possibly-null string,
      and the text its describeTo appends. */
  datatype StringMatcher = StringMatcher(accepts: Option<string> -> bool, description: string)

  /** A Hamcrest Matcher<ILoggingEvent> as an iterable matcher uses it:
      matches (partial, because some matchers dereference event fields),
      the text describeMismatch appends, and the text describeTo appends. */
  datatype EventMatcher = EventMatcher(
    accepts: LogEvent --> bool,
    mismatch: LogEvent -> string,
    description: string)

  /** The matcher can be handed e and accepts it. */
  ghost predicate Accepts(m: EventMatcher, e: LogEvent)
  {
    m.accepts.requires(e) && m.accepts(e)
  }

  /** The matcher can be handed e and rejects it. */
  ghost predicate Rejects(m: EventMatcher, e: LogEvent)
  {
    m.accepts.requires(e) && !m.accepts(e)
  }

  /** The matcher can be handed every event of the list up to and including
      the first one it accepts: exactly the events a walk that stops at the
      first match hands it. Events after that one may be anything. */
  ghost predicate EvaluableUntilMatch(m: EventMatcher, events: seq<LogEvent>)
    decreases |events|
  {
    |events| == 0
    || (m.accepts.requires(events[0])
        && (m.accepts(events[0]) || EvaluableUntilMatch(m, events[1..])))
  }
}
