# hamcrest-logback matchers in Dafny

This project models the Hamcrest matchers of hamcrest-logback. They examine
logback `ILoggingEvent`s, one at a time or as a list. The project also models
the `StringContains` matcher of the companion hamcrest module, which the
message matchers use for their `String` overloads.

An event is the `Events.LogEvent` record:
- a level;
- a formatted message;
- a logger name;
- a throwable proxy, with a class name and a message.

Each of the four fields may be `null` (`None`).

A Hamcrest matcher becomes a value:
- `MatcherTypes.EventMatcher` for an event matcher: a verdict, a mismatch text and a description;
- `MatcherTypes.StringMatcher` for a string matcher: a verdict on a possibly-null string and a description.

The model has one module per Java class:

- `DescribingMatcher` (AbstractILoggingEventDescribingMatcher). It is the base
  of the newer matchers:
  - the verdict is `isNegated XOR internalMatches`;
  - the description is the expectation or the negated expectation;
  - the mismatch is "was " (left out for iterable use) followed by the
    `ILoggingEvent{...}` rendering.
- `LoggingEventHasThrowable`, `LoggingEventHasMessage`, `LoggingEventLoggedBy`,
  `LoggingEventHasLevel`: the four describing matchers. Each has its factories,
  its `checkArgument` guards as `Result` failures, its `internalMatches` and
  its description templates.
- `LoggingEventIterableHasItem` (hasItem / hasNoItem over a list of events).
  - `PositiveMatches`, `NegativeMatches` and `MatchesSafely` are loop methods.
  - They are proved equal to a declarative reference, `Evaluate`. It is built
    from the first matching position (`FirstMatch`) and the comma-joined
    mismatches (`Text.Join`).
- `LoggingEventIterableMatcher`, `LoggingEventMessageMatcher`,
  `LoggingEventThrowableMatcher`, `LoggingEventLevelMatcher`,
  `LoggingEventLoggerNameMatcher`: the older plain `TypeSafeMatcher`s. Each is
  related to its describing counterpart by lemmas.
- `StringContains`: `containsString` and its `indexOf`-based test.
- `IterableScenarios`: the concrete lists of the iterable matcher's tests,
  worked through the model.

Java conventions in the model:
- A `checkArgument` guard is a `Wrappers.Result` whose `Failure` carries the
  exception message.
- A `NullPointerException` on an event with no level or no logger name is a
  precondition (`requires`).
- Code outside these classes is a function parameter:
  - `String.format`;
  - the text `StringBuilder.append` gives a throwable proxy's cause proxy (`getCause()`);
  - the element matcher's own verdict, mismatch and description.

## Model

| member | source | states |
|---|---|---|
| DescribingMatcher.NegationComplement | hamcrest-logback/src/main/java/com/codereligion/cherry/test/hamcrest/logback/AbstractILoggingEventDescribingMatcher.java:47-50 | Flipping isNegated flips the verdict on every event: the result is isNegated XOR internalMatches. |
| DescribingMatcher.IterableFlagNeverChangesVerdict | hamcrest-logback/src/main/java/com/codereligion/cherry/test/hamcrest/logback/AbstractILoggingEventDescribingMatcher.java:47-50 | The verdict is internalMatches != isNegated whatever isIterableMatcher is; the iterable flag never changes a match result. |
| DescribingMatcher.DescriptionFollowsNegation | hamcrest-logback/src/main/java/com/codereligion/cherry/test/hamcrest/logback/AbstractILoggingEventDescribingMatcher.java:52-59 | describeTo yields the negated expectation if and only if the matcher is negated, and the plain expectation if and only if it is not. |
| DescribingMatcher.MismatchOnlyDiffersByPrefix | hamcrest-logback/src/main/java/com/codereligion/cherry/test/hamcrest/logback/AbstractILoggingEventDescribingMatcher.java:83-89 | The mismatch is the rendered event alone for an iterable matcher and "was " followed by it otherwise, independent of negation. |
| DescribingMatcher.RenderEventLayout | hamcrest-logback/src/main/java/com/codereligion/cherry/test/hamcrest/logback/AbstractILoggingEventDescribingMatcher.java:91-104 | The rendered event equals an independently defined record layout: ILoggingEvent{level=…, formattedMessage='…', loggedBy=…, throwable=…}, in that order, absent fields as null and the message always quoted. |
| DescribingMatcher.BareEventRendering | hamcrest-logback/src/main/java/com/codereligion/cherry/test/hamcrest/logback/AbstractILoggingEventDescribingMatcher.java:91-104 | An event without message, logger or throwable renders as ILoggingEvent{level=L, formattedMessage='null', loggedBy=null, throwable=null}. |
| DescribingMatcher.RenderThrowable | hamcrest-logback/src/main/java/com/codereligion/cherry/test/hamcrest/logback/AbstractILoggingEventDescribingMatcher.java:106-121 | A throwable renders as "null" exactly when it is absent. |
| DescribingMatcher.RenderThrowableLayout | hamcrest-logback/src/main/java/com/codereligion/cherry/test/hamcrest/logback/AbstractILoggingEventDescribingMatcher.java:106-121 | A present throwable renders as the record className{message=…} with the message quoted, or the bare word null when it is absent. |
| DescribingMatcher.RenderThrowableMessageRecoverable | hamcrest-logback/src/main/java/com/codereligion/cherry/test/hamcrest/logback/AbstractILoggingEventDescribingMatcher.java:110-120 | For a fixed class the rendered text determines the message: an absent message never renders like the message "null". |
| DescribingMatcher.RenderThrowableDistinguishesMessages | hamcrest-logback/src/main/java/com/codereligion/cherry/test/hamcrest/logback/AbstractILoggingEventDescribingMatcher.java:110-120 | For a fixed class two throwables render alike if and only if their messages are equal. |
| DescribingMatcher.MessageEntryInjective | hamcrest-logback/src/main/java/com/codereligion/cherry/test/hamcrest/logback/AbstractILoggingEventDescribingMatcher.java:114-118 | The message part of the throwable rendering is injective over possibly-absent messages. |
| LoggingEventHasThrowable.ObjectsEqual | hamcrest-logback/src/main/java/com/codereligion/cherry/test/hamcrest/logback/LoggingEventHasThrowable.java:88 | Guava's null-safe Objects.equal holds exactly when the two possibly-null strings are equal. |
| LoggingEventHasThrowable.InternalMatches | hamcrest-logback/src/main/java/com/codereligion/cherry/test/hamcrest/logback/LoggingEventHasThrowable.java:81-90 | When either side is absent, true if and only if both are; otherwise equal class names and null-safe equal messages. Altogether: the event's throwable equals the expected one. |
| LoggingEventHasThrowable.HasThrowableMatchesEqualThrowable | hamcrest-logback/src/main/java/com/codereligion/cherry/test/hamcrest/logback/LoggingEventHasThrowable.java:43-45 | hasThrowable(t) matches exactly the events whose throwable is t; hasThrowable(null) matches exactly the events without a throwable, since a null t is accepted at construction. |
| LoggingEventHasThrowable.HasAndDoesNotHaveDisagree | hamcrest-logback/src/main/java/com/codereligion/cherry/test/hamcrest/logback/LoggingEventHasThrowable.java:43-55 | hasThrowable(t) and doesNotHaveThrowable(t) give opposite results on every event. |
| LoggingEventHasThrowable.WithThrowableLikeHasThrowable | hamcrest-logback/src/main/java/com/codereligion/cherry/test/hamcrest/logback/LoggingEventHasThrowable.java:43-65 | withThrowable(t) matches the same events and has the same description as hasThrowable(t); its mismatch is the rendered event without "was ". |
| LoggingEventHasThrowable.DescriptionTemplates | hamcrest-logback/src/main/java/com/codereligion/cherry/test/hamcrest/logback/LoggingEventHasThrowable.java:93-117 | The two templates ("matching" / "not matching") followed by the expected throwable in the class-name-and-message rendering, "null" when absent. |
| LoggingEventHasMessage.New | hamcrest-logback/src/main/java/com/codereligion/cherry/test/hamcrest/logback/LoggingEventHasMessage.java:97-101 | Construction fails with "matcher must not be null." exactly when the sub-matcher is null, and otherwise keeps the flags. |
| LoggingEventHasMessage.NullMatcherRejected | hamcrest-logback/src/main/java/com/codereligion/cherry/test/hamcrest/logback/LoggingEventHasMessage.java:46-101 | All three factories fail on a null sub-matcher with the same message and succeed otherwise. |
| LoggingEventHasMessage.HasAndDoesNotHaveDisagree | hamcrest-logback/src/main/java/com/codereligion/cherry/test/hamcrest/logback/LoggingEventHasMessage.java:46-67 | hasMessage(m) matches exactly the events whose formatted message m accepts; doesNotHaveMessage(m) gives the opposite result on every event. |
| LoggingEventHasMessage.WithMessageLikeHasMessage | hamcrest-logback/src/main/java/com/codereligion/cherry/test/hamcrest/logback/LoggingEventHasMessage.java:83-85 | withMessage(m) has the result of hasMessage(m); its mismatch is the rendered event without "was ". |
| LoggingEventHasMessage.DescriptionTemplates | hamcrest-logback/src/main/java/com/codereligion/cherry/test/hamcrest/logback/LoggingEventHasMessage.java:108-116 | The two templates followed by the sub-matcher's own description; withMessage describes itself as hasMessage does. |
| LoggingEventLoggedBy.FromName | hamcrest-logback/src/main/java/com/codereligion/cherry/test/hamcrest/logback/LoggingEventLoggedBy.java:106-110 | The String constructor fails with "loggerName must not be null." exactly when the name is null. |
| LoggingEventLoggedBy.FromType | hamcrest-logback/src/main/java/com/codereligion/cherry/test/hamcrest/logback/LoggingEventLoggedBy.java:120-124 | The Class constructor fails with "loggerType must not be null." exactly when the class is null, and otherwise uses the class's name. |
| LoggingEventLoggedBy.WasAndWasNotDisagree | hamcrest-logback/src/main/java/com/codereligion/cherry/test/hamcrest/logback/LoggingEventLoggedBy.java:39-51 | wasLoggedBy(n) matches exactly the events logged by n (exact string equality), and wasNotLoggedBy(n) exactly the others. |
| LoggingEventLoggedBy.LoggedByLikeWasLoggedBy | hamcrest-logback/src/main/java/com/codereligion/cherry/test/hamcrest/logback/LoggingEventLoggedBy.java:59-61 | loggedBy(n) has the result of wasLoggedBy(n); its mismatch is the rendered event with no "was " prefix, wasLoggedBy's has it. |
| LoggingEventLoggedBy.TypeOverloadsUseClassName | hamcrest-logback/src/main/java/com/codereligion/cherry/test/hamcrest/logback/LoggingEventLoggedBy.java:71-93 | Each Class overload builds the same matcher as the String overload given the class's name; the two null checks carry different messages. |
| LoggingEventLoggedBy.DescriptionTemplates | hamcrest-logback/src/main/java/com/codereligion/cherry/test/hamcrest/logback/LoggingEventLoggedBy.java:132-140 | The descriptions "an ILoggingEvent logged by: n" and "an ILoggingEvent not logged by: n". |
| LoggingEventHasLevel.New | hamcrest-logback/src/main/java/com/codereligion/cherry/test/hamcrest/logback/LoggingEventHasLevel.java:72-76 | Construction fails with "level must not be null." exactly when the level is null, and otherwise keeps the level and flags. |
| LoggingEventHasLevel.NullLevelRejected | hamcrest-logback/src/main/java/com/codereligion/cherry/test/hamcrest/logback/LoggingEventHasLevel.java:40-76 | All three factories fail on a null level with the same message. |
| LoggingEventHasLevel.HasAndDoesNotHaveDisagree | hamcrest-logback/src/main/java/com/codereligion/cherry/test/hamcrest/logback/LoggingEventHasLevel.java:40-52 | hasLevel(l) and doesNotHaveLevel(l) get opposite isNegated flags and so disagree on every event; as written doesNotHaveLevel(l) is the one that matches the events of level l. |
| LoggingEventHasLevel.WithLevelLikeHasLevel | hamcrest-logback/src/main/java/com/codereligion/cherry/test/hamcrest/logback/LoggingEventHasLevel.java:40-62 | withLevel(l) has the result and description of hasLevel(l); only the "was " prefix of the mismatch differs. |
| LoggingEventHasLevel.DescriptionTemplates | hamcrest-logback/src/main/java/com/codereligion/cherry/test/hamcrest/logback/LoggingEventHasLevel.java:83-91 | As written, hasLevel describes itself with "an ILoggingEvent with level other than: l" and doesNotHaveLevel with "an ILoggingEvent with level: l". |
| LoggingEventHasLevel.AsWrittenHasLevelRejectsItsLevel | hamcrest-logback/src/main/java/com/codereligion/cherry/test/hamcrest/logback/LoggingEventHasLevel.java:40-42 | As written, hasLevel(l) matches an event if and only if its level is not l. |
| LoggingEventHasLevel.AsWrittenHasLevelCounterexample | hamcrest-logback/src/main/java/com/codereligion/cherry/test/hamcrest/logback/LoggingEventHasLevel.java:40-42 | As written, hasLevel(ERROR) does not match an event of level ERROR. |
| LoggingEventHasLevel.IntendedHasLevelMatchesLevel | hamcrest-logback/src/main/java/com/codereligion/cherry/test/hamcrest/logback/LoggingEventHasLevel.java:33-81 | With the flags the Javadoc describes, hasLevel(l) matches exactly the events of level l with the plain template, doesNotHaveLevel(l) is its complement with the "other than" template, withLevel(l) matches like hasLevel(l). |
| LoggingEventHasLevel.IntendedDescribesError | hamcrest-logback/src/test/java/com/codereligion/cherry/test/hamcrest/logback/LoggingEventHasLevelTest.java:70-88 | The intended hasLevel(ERROR) rejects an INFO event, describes itself as "an ILoggingEvent with level: ERROR" and reports "was ILoggingEvent{level=INFO, formattedMessage='null', loggedBy=null, throwable=null}". |
| LoggingEventIterableHasItem.FirstMatch | hamcrest-logback/src/main/java/com/codereligion/cherry/test/hamcrest/logback/LoggingEventIterableHasItem.java:92-95 | The position of the first event the element matcher accepts: every earlier event is rejected; when there is none, every event is rejected. |
| LoggingEventIterableHasItem.Mismatches | hamcrest-logback/src/main/java/com/codereligion/cherry/test/hamcrest/logback/LoggingEventIterableHasItem.java:99 | The element matcher's mismatch of each event, one per event, in list order. |
| LoggingEventIterableHasItem.PositiveMatches | hamcrest-logback/src/main/java/com/codereligion/cherry/test/hamcrest/logback/LoggingEventIterableHasItem.java:88-105 | The loop returns true at the first accepted event, having appended "[" and the comma-separated mismatches of the events before it; otherwise false with every mismatch and "]" (the reference PositiveVerdict). |
| LoggingEventIterableHasItem.NegativeMatches | hamcrest-logback/src/main/java/com/codereligion/cherry/test/hamcrest/logback/LoggingEventIterableHasItem.java:107-115 | The loop returns false at the first accepted event with that event's mismatch alone, and true with nothing appended when no event is accepted (the reference NegativeVerdict). |
| LoggingEventIterableHasItem.MatchesSafely | hamcrest-logback/src/main/java/com/codereligion/cherry/test/hamcrest/logback/LoggingEventIterableHasItem.java:76-86 | "iterable contained " followed by the walk the polarity selects; verdict and text equal the reference Evaluate. |
| LoggingEventIterableHasItem.DescribeTo | hamcrest-logback/src/main/java/com/codereligion/cherry/test/hamcrest/logback/LoggingEventIterableHasItem.java:117-125 | "an iterable containing " or, for hasNoItem, "an iterable not containing ", followed by the element matcher's description. |
| LoggingEventIterableHasItem.HasItemIffSomeMatch | hamcrest-logback/src/main/java/com/codereligion/cherry/test/hamcrest/logback/LoggingEventIterableHasItem.java:46-115 | hasItem matches if and only if some event satisfies the element matcher, hasNoItem if and only if none does: on every list exactly one of them matches. |
| LoggingEventIterableHasItem.StopsAtFirstMatch | hamcrest-logback/src/main/java/com/codereligion/cherry/test/hamcrest/logback/LoggingEventIterableHasItem.java:92-95 | Once an event matches, any further events, even ones the element matcher cannot be handed, leave the list walkable and change neither verdict nor text: later events are never examined or described. |
| LoggingEventIterableHasItem.EmptyList | hamcrest-logback/src/main/java/com/codereligion/cherry/test/hamcrest/logback/LoggingEventIterableHasItem.java:88-115 | On the empty list hasItem fails with "iterable contained []" and hasNoItem succeeds. |
| LoggingEventIterableHasItem.NoMatchReportsEveryEvent | hamcrest-logback/src/main/java/com/codereligion/cherry/test/hamcrest/logback/LoggingEventIterableHasItem.java:79-103 | When every event is rejected the whole list is walked: hasItem fails with "iterable contained [" + every mismatch joined by ", " in input order + "]", and hasNoItem succeeds. |
| LoggingEventIterableHasItem.MatchReportsFirstMatchingEvent | hamcrest-logback/src/main/java/com/codereligion/cherry/test/hamcrest/logback/LoggingEventIterableHasItem.java:107-112 | When event k is the first match, the list is walkable whatever follows event k; hasNoItem fails with "iterable contained " and event k's mismatch only, without brackets; hasItem succeeds. |
| LoggingEventIterableHasItem.EvaluableAt | hamcrest-logback/src/main/java/com/codereligion/cherry/test/hamcrest/logback/LoggingEventIterableHasItem.java:92-95 | The walk can always hand the next event to the element matcher: once events before position i are rejected, event i is one the list's precondition covers. |
| LoggingEventIterableHasItem.EvaluableThroughMatch | hamcrest-logback/src/main/java/com/codereligion/cherry/test/hamcrest/logback/LoggingEventIterableHasItem.java:107-112 | A list whose events before k are rejected and whose event k is accepted meets the walk's precondition whatever follows event k. |
| LoggingEventIterableHasItem.FirstMatchWitnesses | hamcrest-logback/src/main/java/com/codereligion/cherry/test/hamcrest/logback/LoggingEventIterableHasItem.java:92-95 | A first match exists if and only if some event matches. |
| LoggingEventIterableMatcher.MatchesSafely | hamcrest-logback/src/main/java/com/codereligion/cherry/test/hamcrest/logback/LoggingEventIterableMatcher.java:43-61 | Its verdict and mismatch text equal those of hasItem of LoggingEventIterableHasItem on every list; it matches if and only if some event matches. |
| LoggingEventIterableMatcher.DescribeTo | hamcrest-logback/src/main/java/com/codereligion/cherry/test/hamcrest/logback/LoggingEventIterableMatcher.java:63-66 | The description equals hasItem's: "an iterable containing " followed by the element description. |
| IterableScenarios.NoErrorAmongInfoAndWarn | hamcrest-logback/src/test/java/com/codereligion/cherry/test/hamcrest/logback/LoggingEventIterableHasItemTest.java:50-78 | hasItem(withLevel(ERROR)) on [INFO, WARN] fails with "iterable contained [" + both rendered events, comma-separated + "]"; hasNoItem succeeds. |
| IterableScenarios.ErrorItemDescriptions | hamcrest-logback/src/test/java/com/codereligion/cherry/test/hamcrest/logback/LoggingEventIterableHasItemTest.java:54-85 | The descriptions "an iterable containing an ILoggingEvent with level: ERROR" and "an iterable not containing …". |
| IterableScenarios.ErrorAfterInfo | hamcrest-logback/src/test/java/com/codereligion/cherry/test/hamcrest/logback/LoggingEventIterableHasItemTest.java:38-94 | On [INFO, ERROR] hasItem(withLevel(ERROR)) matches and hasNoItem fails reporting the rendered ERROR event alone. |
| IterableScenarios.AsWrittenWithLevelAcceptsInfo | hamcrest-logback/src/main/java/com/codereligion/cherry/test/hamcrest/logback/LoggingEventHasLevel.java:60-62 | With withLevel as written, hasItem(withLevel(ERROR)) matches [INFO, WARN], where the test expects a failure. |
| IterableScenarios.LevelLessEventAfterMatch | hamcrest-logback/src/main/java/com/codereligion/cherry/test/hamcrest/logback/LoggingEventIterableHasItem.java:88-112 | With the intended withLevel(ERROR) on [ERROR event, event without a level], hasItem matches reporting only "[", and hasNoItem fails reporting the ERROR event; the level-less event is never reached. |
| LoggingEventMessageMatcher.New | hamcrest-logback/src/main/java/com/codereligion/cherry/test/hamcrest/logback/LoggingEventMessageMatcher.java:80-84 | Construction fails with "matcher must not be null." exactly when the sub-matcher is null, and otherwise keeps it and shouldMatch. |
| LoggingEventMessageMatcher.NullMatcherRejected | hamcrest-logback/src/main/java/com/codereligion/cherry/test/hamcrest/logback/LoggingEventMessageMatcher.java:44-84 | Both Matcher factories fail on a null sub-matcher with the same message. |
| LoggingEventMessageMatcher.HasMessageContaining | hamcrest-logback/src/main/java/com/codereligion/cherry/test/hamcrest/logback/LoggingEventMessageMatcher.java:52-59 | hasMessage(s, args) accepts a non-null message exactly when it contains s (with no arguments) or the formatted s, and never accepts a null message. |
| LoggingEventMessageMatcher.DoesNotHaveMessageContaining | hamcrest-logback/src/main/java/com/codereligion/cherry/test/hamcrest/logback/LoggingEventMessageMatcher.java:61-68 | The same sub-matcher as the hasMessage overload, with shouldMatch false. |
| LoggingEventMessageMatcher.NoArgumentsSkipsFormatting | hamcrest-logback/src/main/java/com/codereligion/cherry/test/hamcrest/logback/LoggingEventMessageMatcher.java:52-56 | With zero arguments the overloads do not depend on String.format and describe the sub-matcher as a string containing the message verbatim. |
| LoggingEventMessageMatcher.HasMessageAgreesWithHasMessage | hamcrest-logback/src/main/java/com/codereligion/cherry/test/hamcrest/logback/LoggingEventMessageMatcher.java:44-99 | hasMessage(m) matches if and only if m accepts the formatted message, and agrees in verdict and description with LoggingEventHasMessage's hasMessage; the negative description agrees too. |
| LoggingEventMessageMatcher.DoesNotHaveMessageNeverMatches | hamcrest-logback/src/main/java/com/codereligion/cherry/test/hamcrest/logback/LoggingEventMessageMatcher.java:48-89 | As written, doesNotHaveMessage(m) matches no event at all. |
| LoggingEventMessageMatcher.DoesNotHaveMessageCounterexample | hamcrest-logback/src/main/java/com/codereligion/cherry/test/hamcrest/logback/LoggingEventMessageMatcher.java:88 | doesNotHaveMessage(containsString("foo")) rejects an event whose message is "bar", which the corrected predicate accepts. |
| LoggingEventMessageMatcher.CorrectedAgreesWithHasMessage | hamcrest-logback/src/main/java/com/codereligion/cherry/test/hamcrest/logback/LoggingEventMessageMatcher.java:86-89 | With the corrected polarity, hasMessage is unchanged, doesNotHaveMessage is its complement, and both agree with LoggingEventHasMessage. |
| LoggingEventMessageMatcher.RenderingAgreesWithoutThrowable | hamcrest-logback/src/main/java/com/codereligion/cherry/test/hamcrest/logback/LoggingEventMessageMatcher.java:101-119 | Without a throwable, the rendering and the mismatch are exactly those of the describing matchers. |
| LoggingEventMessageMatcher.RenderEventLayout | hamcrest-logback/src/main/java/com/codereligion/cherry/test/hamcrest/logback/LoggingEventMessageMatcher.java:106-119 | The rendered event follows the same record layout as the describing matchers, field for field. |
| LoggingEventMessageMatcher.MismatchPrefix | hamcrest-logback/src/main/java/com/codereligion/cherry/test/hamcrest/logback/LoggingEventMessageMatcher.java:101-110 | Every mismatch starts with "was ILoggingEvent{level=". |
| LoggingEventMessageMatcher.ThrowableRenderingIsLossy | hamcrest-logback/src/main/java/com/codereligion/cherry/test/hamcrest/logback/LoggingEventMessageMatcher.java:121-128 | This rendering shows the cause instead of the class name and prints an absent message as 'null', so throwables the describing matchers tell apart can render alike. |
| LoggingEventThrowableMatcher.MessageMatchIsEquality | hamcrest-logback/src/main/java/com/codereligion/cherry/test/hamcrest/logback/LoggingEventThrowableMatcher.java:74-76 | messageMatch is null-safe equality: true if and only if both are null or both are non-null and equal. |
| LoggingEventThrowableMatcher.MatchesExactlyEqualThrowable | hamcrest-logback/src/main/java/com/codereligion/cherry/test/hamcrest/logback/LoggingEventThrowableMatcher.java:61-72 | containsThrowable(t) matches exactly the events whose throwable is t (both absent, or equal class and message), and agrees with LoggingEventHasThrowable's internal predicate on every pair. |
| LoggingEventThrowableMatcher.DoesNotContainThrowableIsComplement | hamcrest-logback/src/main/java/com/codereligion/cherry/test/hamcrest/logback/LoggingEventThrowableMatcher.java:46-48 | doesNotContainThrowable(t) matches exactly the events whose throwable differs from t, as doesNotHaveThrowable(t) does. |
| LoggingEventThrowableMatcher.HasItemWhichContainsThrowableIffPresent | hamcrest-logback/src/main/java/com/codereligion/cherry/test/hamcrest/logback/LoggingEventThrowableMatcher.java:38-40 | hasItemWhichContainsThrowable(t) holds if and only if some event of the list carries t. |
| LoggingEventThrowableMatcher.DescribeTo | hamcrest-logback/src/main/java/com/codereligion/cherry/test/hamcrest/logback/LoggingEventThrowableMatcher.java:78-81 | "a LoggingEvent containing '…'" around the expected throwable's toString, or around null when there is none. |
| LoggingEventLevelMatcher.New | hamcrest-logback/src/main/java/com/codereligion/cherry/test/hamcrest/logback/LoggingEventLevelMatcher.java:50-53 | Construction fails with "level must not be null." exactly when the level is null. |
| LoggingEventLevelMatcher.MatchesExactlyLevel | hamcrest-logback/src/main/java/com/codereligion/cherry/test/hamcrest/logback/LoggingEventLevelMatcher.java:55-58 | hasLevel(l) matches exactly the events of level l: the verdict of the intended LoggingEventHasLevel.hasLevel, and the opposite of the one as written. |
| LoggingEventLevelMatcher.OnlyLevelMatters | hamcrest-logback/src/main/java/com/codereligion/cherry/test/hamcrest/logback/LoggingEventLevelMatcher.java:57 | Events of the same level get the same verdict, whatever their other fields. |
| LoggingEventLevelMatcher.NullLevelRejected | hamcrest-logback/src/main/java/com/codereligion/cherry/test/hamcrest/logback/LoggingEventLevelMatcher.java:50-53 | hasLevel(null) fails with the message LoggingEventHasLevel uses. |
| LoggingEventLevelMatcher.HasOnlyItemsOfLevelIffNoOther | hamcrest-logback/src/main/java/com/codereligion/cherry/test/hamcrest/logback/LoggingEventLevelMatcher.java:34-36 | With levels known only up to the first event of another level, hasOnlyItemsOfLevel(l) holds if and only if every event has level l (in particular on the empty list); when it fails, some event has a known level other than l. |
| LoggingEventLevelMatcher.OtherLevelStopsTheWalk | hamcrest-logback/src/main/java/com/codereligion/cherry/test/hamcrest/logback/LoggingEventLevelMatcher.java:34-36 | An event of another level at the head makes hasOnlyItemsOfLevel fail whatever follows it, even events without a level. |
| LoggingEventLevelMatcher.DescribesLevel | hamcrest-logback/src/main/java/com/codereligion/cherry/test/hamcrest/logback/LoggingEventLevelMatcher.java:60-63 | The description is "a LoggingEvent with level 'l'". |
| LoggingEventLoggerNameMatcher.New | hamcrest-logback/src/main/java/com/codereligion/cherry/test/hamcrest/logback/LoggingEventLoggerNameMatcher.java:48-51 | Construction fails with "loggerName must not be null." exactly when the name is null. |
| LoggingEventLoggerNameMatcher.UsesLoggerType | hamcrest-logback/src/main/java/com/codereligion/cherry/test/hamcrest/logback/LoggingEventLoggerNameMatcher.java:36-38 | The Class overload always succeeds: a class's name is never null. |
| LoggingEventLoggerNameMatcher.MatchesExactlyLogger | hamcrest-logback/src/main/java/com/codereligion/cherry/test/hamcrest/logback/LoggingEventLoggerNameMatcher.java:53-56 | usesLogger(n) matches exactly the events logged by n, with the verdict of LoggingEventLoggedBy's wasLoggedBy(n). |
| LoggingEventLoggerNameMatcher.TypeOverloadUsesClassName | hamcrest-logback/src/main/java/com/codereligion/cherry/test/hamcrest/logback/LoggingEventLoggerNameMatcher.java:36-38 | usesLogger(type) is usesLogger(type's name) and agrees with wasLoggedBy(type). |
| LoggingEventLoggerNameMatcher.NullLoggerNameRejected | hamcrest-logback/src/main/java/com/codereligion/cherry/test/hamcrest/logback/LoggingEventLoggerNameMatcher.java:48-51 | usesLogger(null) fails with the message wasLoggedBy(null) uses. |
| LoggingEventLoggerNameMatcher.DescribesLoggerName | hamcrest-logback/src/main/java/com/codereligion/cherry/test/hamcrest/logback/LoggingEventLoggerNameMatcher.java:58-61 | The description is "a LoggingEvent for logger with name: 'n'". |
| StringContains.IndexOfFrom | hamcrest/src/main/java/com/codereligion/cherry/test/hamcrest/StringContains.java:52 | String.indexOf: the first index at or after the start where the substring occurs, or -1 exactly when there is none. |
| StringContains.Containing | hamcrest/src/main/java/com/codereligion/cherry/test/hamcrest/StringContains.java:46-58 | The matcher accepts a non-null string exactly when the substring occurs contiguously in it, rejects null, and describes itself as a string containing "sub". |
| StringContains.ContainsString | hamcrest/src/main/java/com/codereligion/cherry/test/hamcrest/StringContains.java:41-44 | Fails with the checkArgument message "substring must not be null." exactly when the substring is null, before any formatting; otherwise accepts exactly the strings containing the formatted substring. |
| StringContains.EvalSubstringOfIffContains | hamcrest/src/main/java/com/codereligion/cherry/test/hamcrest/StringContains.java:50-53 | indexOf(sub) >= 0 holds if and only if sub occurs contiguously in the string. |
| StringContains.ContainsItself | hamcrest/src/test/java/com/codereligion/cherry/test/hamcrest/StringContainsTest.java:51-54 | Every string contains itself. |
| StringContains.ContainsPrefix | hamcrest/src/test/java/com/codereligion/cherry/test/hamcrest/StringContainsTest.java:74-77 | Every string contains each of its prefixes. |
| StringContains.ContainsSuffix | hamcrest/src/test/java/com/codereligion/cherry/test/hamcrest/StringContainsTest.java:79-82 | Every string contains each of its suffixes. |
| StringContains.EmptySubstringMatchesEverything | hamcrest/src/main/java/com/codereligion/cherry/test/hamcrest/StringContains.java:52 | The empty substring matches every string. |
| StringContains.ContainsTransitive | hamcrest/src/main/java/com/codereligion/cherry/test/hamcrest/StringContains.java:50-53 | Containment is transitive. |
| StringContains.MatchingIsCaseSensitive | hamcrest/src/test/java/com/codereligion/cherry/test/hamcrest/StringContainsTest.java:84-94 | Matching is case-sensitive: upper-casing a word makes the sentence not contain it. |
| StringContains.MissingCharacter | hamcrest/src/main/java/com/codereligion/cherry/test/hamcrest/StringContains.java:50-53 | A substring holding a character the string lacks never matches. |
| StringContains.SentenceExamples | hamcrest/src/test/java/com/codereligion/cherry/test/hamcrest/StringContainsTest.java:56-82 | The sentence contains an inner piece, its start and its end, and does not contain "nope!". |
| Text.JoinSnoc | hamcrest-logback/src/main/java/com/codereligion/cherry/test/hamcrest/logback/LoggingEventIterableHasItem.java:96-99 | Appending one more mismatch extends the text by ", " (from the second item on) and the mismatch. |

## Left out

- The logback JUnit support (`LogRecorder`, `LogbackLogging`, `RecordingAppender`, `LogSpec`, `LogbackLoggingException`): it records events from a live logback context (I/O and threads). It holds no matchers.
- The joda-time JUnit rules (`TimeMachine`, `JodaTimeMachine`): they set the clock for a test. They hold no matchers.
- `LoggingEventMatchers`: it only combines the matchers modelled here with Hamcrest's `not`, `hasItem` and `everyItem`. It also calls a one-argument `LoggingEventMessageMatcher` constructor, but that class declares only a private two-argument one.
- Hamcrest's `TypeSafeMatcher` handling of `null` and of items of the wrong type, and the `Description` sink: descriptions are plain strings.
- Hamcrest's `not`, `hasItem` and `everyItem`: only their verdicts are modelled (a negation, an existential and a universal over the list), not their description texts.
- `StringContains.Containing`: `SubstringMatcher`'s `appendValue` escaping of quotes and control characters is not modelled. The description quotes the substring verbatim.
- `LoggingEventMessageMatcher.HasMessageContaining` and `LoggingEventMessageMatcher.DoesNotHaveMessageContaining`: Hamcrest's own `CoreMatchers.containsString` is stood in for by `StringContains.Containing`. For a non-null substring the two match the same strings. A `null` message string (a `NullPointerException` in Hamcrest) is not modelled.
- `String.format`, `Class.getName`, the text `StringBuilder.append` gives a throwable proxy's cause proxy (`getCause()`) and `Level.toString` are parameters or fixed texts. The formatter's behaviour is not modelled.
- `LoggingEventMessageMatcher.RenderThrowable`: the cause text is a parameter applied to the outer proxy's class name and message only, because the model's throwable carries no cause. Two proxies with the same class and message but different causes therefore render alike here, where the source may render them differently.
- `LoggingEventHasLevel.AsEventMatcher`, `LoggingEventHasLevel.InternalMatches`, `LoggingEventLoggedBy.InternalMatches`, `LoggingEventLoggedBy.Matches`, `LoggingEventLevelMatcher.MatchesSafely` and `LoggingEventLoggerNameMatcher.MatchesSafely` require the event's level or logger name to be present. The source throws a `NullPointerException` there, and the model does not represent exceptions on events.
- `StringContains.ContainsString`: the exceptions `String.format` itself throws on a malformed pattern (such as "50%") are not modelled. The formatter is a total parameter.
- `LoggingEventIterableHasItem.MatchesSafely`: a `null` element matcher (unchecked in the source) and `null` list elements are not representable.
- `LoggingEventLoggerNameMatcher.UsesLoggerType`: a `null` class, which throws a `NullPointerException` in the source, is not representable.
- Some test expectations of the message-matcher test were written against other versions of the classes. Where a test text and the code disagree, the model follows the code.

## Findings

| source | as written | input that shows it | evidently intended | confidence | as-written member | corrected member |
|---|---|---|---|---|---|---|
| hamcrest-logback/src/main/java/com/codereligion/cherry/test/hamcrest/logback/LoggingEventHasLevel.java:40-62 | `hasLevel` and `withLevel` pass `true` as the base class's `isNegated` flag, and `doesNotHaveLevel` passes `false` | `hasLevel(ERROR)` against an event of level ERROR gives no match; `hasItem(withLevel(ERROR))` accepts a list of INFO and WARN events | `hasLevel` and `withLevel` match the events of the given level; `doesNotHaveLevel` matches the others | high, not executed | LoggingEventHasLevel.AsWrittenHasLevelCounterexample | LoggingEventHasLevel.IntendedHasLevelMatchesLevel |
| hamcrest-logback/src/main/java/com/codereligion/cherry/test/hamcrest/logback/LoggingEventMessageMatcher.java:86-89 | `matchesSafely` returns `shouldMatch && matcher.matches(message)`, so `doesNotHaveMessage` never matches | `doesNotHaveMessage(containsString("foo"))` against an event with the message "bar" gives no match | the sub-matcher's verdict when `shouldMatch`, its negation otherwise | high, not executed | LoggingEventMessageMatcher.DoesNotHaveMessageCounterexample | LoggingEventMessageMatcher.CorrectedAgreesWithHasMessage |

`LoggingEventHasLevel` also overrides `describePositiveMatch` and `describeNegativeMatch`. The base class declares no such hooks, only `describeExpectation` and `describeNegatedExpectation`, so as written the class does not compile. The model reads the two hooks as the expectation and the negated expectation.
