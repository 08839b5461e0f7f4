/** LoggingEventThrowableMatcher: the earlier throwable matcher, a plain
    TypeSafeMatcher comparing the event's throwable proxy with an expected
    throwable by class name and message. */
module LoggingEventThrowableMatcher {
  import opened Wrappers
  import opened Events
  import HT = LoggingEventHasThrowable

  /** The expected throwable may be null: the constructor does not check it. */
  datatype Matcher = Matcher(throwable: Option<ThrowableInfo>)

  function ContainsThrowable(throwable: Option<ThrowableInfo>): Matcher
  {
    Matcher(throwable)
  }

  /** messageMatch: the same reference (in particular both null), or a
      non-null first message equal to the second. */
  predicate MessageMatch(first: Option<string>, second: Option<string>)
  {
    first == second || (first.Some? && second.Some? && first.value == second.value)
  }

  /** matchesSafely: when either side is null, whether both are; otherwise
      equal class names and matching messages. */
  predicate MatchesSafely(m: Matcher, e: LogEvent)
  {
    if e.throwable.None? || m.throwable.None? then
      e.throwable.None? && m.throwable.None?
    else
      var proxy, expected := e.throwable.value, m.throwable.value;
      proxy.className == expected.className && MessageMatch(proxy.message, expected.message)
  }

  /** describeTo: the expected throwable's toString (the parameter
      throwableText), "null" when there is none, in single quotes. */
  function DescribeTo(m: Matcher, throwableText: ThrowableInfo -> string): (r: string)
    ensures m.throwable.None? ==> r == "a LoggingEvent containing 'null'"
    ensures m.throwable.Some? ==> r == "a LoggingEvent containing '" + throwableText(m.throwable.value) + "'"
  {
    var shown := if m.throwable.None? then "null" else throwableText(m.throwable.value);
    "a LoggingEvent containing '" + shown + "'"
  }

  /** doesNotContainThrowable: Hamcrest's not() around containsThrowable. */
  predicate DoesNotContainThrowable(throwable: Option<ThrowableInfo>, e: LogEvent)
  {
    !MatchesSafely(ContainsThrowable(throwable), e)
  }

  /** hasItemWhichContainsThrowable: Hamcrest's hasItem() around
      containsThrowable, which matches when some event matches. */
  predicate HasItemWhichContainsThrowable(throwable: Option<ThrowableInfo>, events: seq<LogEvent>)
  {
    exists i :: 0 <= i < |events| && MatchesSafely(ContainsThrowable(throwable), events[i])
  }

  // ----- Properties -----

  /** messageMatch is null-safe equality. */
  lemma MessageMatchIsEquality(first: Option<string>, second: Option<string>)
    ensures MessageMatch(first, second) <==> first == second
  {
  }

  /** containsThrowable(t) matches exactly the events whose throwable is t
      (both absent, or the same class and message), the verdict of
      LoggingEventHasThrowable's internal comparison. */
  lemma MatchesExactlyEqualThrowable(t: Option<ThrowableInfo>, e: LogEvent)
    ensures MatchesSafely(ContainsThrowable(t), e) <==> e.throwable == t
    ensures MatchesSafely(ContainsThrowable(t), e) == HT.InternalMatches(HT.HasThrowable(t), e)
  {
  }

  /** doesNotContainThrowable(t) matches exactly the events whose throwable
      differs from t, as doesNotHaveThrowable(t) does. */
  lemma DoesNotContainThrowableIsComplement(t: Option<ThrowableInfo>, e: LogEvent)
    ensures DoesNotContainThrowable(t, e) <==> e.throwable != t
    ensures DoesNotContainThrowable(t, e) == HT.Matches(HT.DoesNotHaveThrowable(t), e)
  {
  }

  /** hasItemWhichContainsThrowable(t) holds exactly when t is the throwable
      of some event of the list. */
  lemma HasItemWhichContainsThrowableIffPresent(t: Option<ThrowableInfo>, events: seq<LogEvent>)
    ensures HasItemWhichContainsThrowable(t, events) <==> exists i :: 0 <= i < |events| && events[i].throwable == t
  {
    if exists i :: 0 <= i < |events| && events[i].throwable == t {
      var i :| 0 <= i < |events| && events[i].throwable == t;
      assert MatchesSafely(ContainsThrowable(t), events[i]);
    }
  }
}
