/** AbstractILoggingEventDescribingMatcher: the base of the newer log-event
    matchers. A subclass supplies internalMatches and the two expectation
    texts; the base applies negation, chooses the description, and renders
    the mismatch. */
module DescribingMatcher {
  import opened Wrappers
  import opened Events
  import Text

  /** The two construction-time flags of every describing matcher. */
  datatype Flags = Flags(isNegated: bool, isIterableMatcher: bool)

  /** matchesSafely: the subclass's verdict, inverted when negated. */
  predicate Matches(flags: Flags, internal: bool)
  {
    flags.isNegated != internal
  }

  /** describeTo: the negated expectation when negated, the plain one otherwise. */
  function DescribeTo(flags: Flags, expectation: string, negatedExpectation: string): string
  {
    if flags.isNegated then negatedExpectation else expectation
  }

  /** describeMismatchSafely: the rendered event, preceded by "was " unless the
      matcher is used inside an iterable matcher. */
  function DescribeMismatch(flags: Flags, e: LogEvent): string
  {
    (if flags.isIterableMatcher then "" else "was ") + RenderEvent(e)
  }

  /** toString(ILoggingEvent). */
  function RenderEvent(e: LogEvent): string
  {
    "ILoggingEvent{" + "level=" + LevelText(e.level)
    + ", formattedMessage='" + NullText(e.formattedMessage) + "'"
    + ", loggedBy=" + NullText(e.loggerName)
    + ", throwable=" + RenderThrowable(e.throwable)
    + "}"
  }

  /** toString(IThrowableProxy): "null" for no throwable, otherwise the class
      name and the message, quoted unless it is null. */
  function RenderThrowable(t: Option<ThrowableInfo>): (r: string)
    ensures r == "null" <==> t.None?
  {
    match t
    case None => "null"
    case Some(info) =>
      var r := info.className + "{" + MessageEntry(info.message) + "}";
      assert r[|r| - 1] == '}';
      r
  }

  /** The message part of a rendered throwable. */
  function MessageEntry(m: Option<string>): string
  {
    if m.None? then "message=null" else "message='" + m.value + "'"
  }

  // ----- An independent statement of the rendered layout -----

  /** Name{k1=v1, k2=v2, ...}: the record layout both renderers follow. */
  function RenderRecord(name: string, fields: seq<(string, string)>): string
  {
    name + "{" + Text.Join(", ", FieldTexts(fields)) + "}"
  }

  function FieldTexts(fields: seq<(string, string)>): seq<string>
  {
    seq(|fields|, i requires 0 <= i < |fields| => fields[i].0 + "=" + fields[i].1)
  }

  /** A possibly-null string as a quoted value, or the bare word null. */
  function QuotedOrNull(s: Option<string>): string
  {
    match s
    case None => "null"
    case Some(v) => "'" + v + "'"
  }

  /** The rendered event is the record ILoggingEvent with the fields level,
      formattedMessage (always quoted, so a null message shows as 'null'),
      loggedBy and throwable, in that order; absent fields print as null. */
  lemma RenderEventLayout(e: LogEvent)
    ensures RenderEvent(e) == RenderRecord("ILoggingEvent", [
      ("level", LevelText(e.level)),
      ("formattedMessage", "'" + NullText(e.formattedMessage) + "'"),
      ("loggedBy", NullText(e.loggerName)),
      ("throwable", RenderThrowable(e.throwable))])
  {
    var fields := [
      ("level", LevelText(e.level)),
      ("formattedMessage", "'" + NullText(e.formattedMessage) + "'"),
      ("loggedBy", NullText(e.loggerName)),
      ("throwable", RenderThrowable(e.throwable))];
    var L, M, N, T := LevelText(e.level), NullText(e.formattedMessage), NullText(e.loggerName), RenderThrowable(e.throwable);
    FieldTextsFour(fields);
    JoinFour(", ", "level" + "=" + L, "formattedMessage" + "=" + ("'" + M + "'"), "loggedBy" + "=" + N, "throwable" + "=" + T);
    EventLayoutText(L, M, N, T);
  }

  lemma EventLayoutText(L: string, M: string, N: string, T: string)
    ensures "ILoggingEvent{" + "level=" + L + ", formattedMessage='" + M + "'" + ", loggedBy=" + N + ", throwable=" + T + "}"
         == "ILoggingEvent" + "{" + (("level" + "=" + L) + ", " + ("formattedMessage" + "=" + ("'" + M + "'")) + ", "
                                   + ("loggedBy" + "=" + N) + ", " + ("throwable" + "=" + T)) + "}"
  {
    assert "ILoggingEvent" + "{" == "ILoggingEvent{";
    assert "level" + "=" == "level=";
    assert ", " + ("formattedMessage" + "=") + "'" == ", formattedMessage='";
    assert ", " + ("loggedBy" + "=") == ", loggedBy=";
    assert ", " + ("throwable" + "=") == ", throwable=";
    Regroup("ILoggingEvent{", "level=", L, "formattedMessage" + "=", "'", M, "loggedBy" + "=", N, "throwable" + "=", T, "}", ", ");
  }

  /** The flat concatenation of the event rendering, regrouped into the
      record name and the separated fields. */
  lemma Regroup(h: string, k0: string, L: string, k1: string, q: string, M: string,
                k2: string, N: string, k3: string, T: string, c: string, sep: string)
    ensures h + k0 + L + (sep + k1 + q) + M + q + (sep + k2) + N + (sep + k3) + T + c
         == h + ((k0 + L) + sep + (k1 + (q + M + q)) + sep + (k2 + N) + sep + (k3 + T)) + c
  {
  }

  lemma FieldTextsFour(fields: seq<(string, string)>)
    requires |fields| == 4
    ensures FieldTexts(fields) == [
      fields[0].0 + "=" + fields[0].1, fields[1].0 + "=" + fields[1].1,
      fields[2].0 + "=" + fields[2].1, fields[3].0 + "=" + fields[3].1]
  {
  }

  lemma JoinFour(sep: string, a: string, b: string, c: string, d: string)
    ensures Text.Join(sep, [a, b, c, d]) == a + sep + b + sep + c + sep + d
  {
    assert [a, b][..1] == [a];
    assert Text.Join(sep, [a, b]) == a + sep + b;
    assert [a, b, c][..2] == [a, b];
    assert Text.Join(sep, [a, b, c]) == a + sep + b + sep + c;
    assert [a, b, c, d][..3] == [a, b, c];
  }

  /** A present throwable renders as the record named by its class with the
      single field message. */
  lemma RenderThrowableLayout(info: ThrowableInfo)
    ensures RenderThrowable(Some(info)) == RenderRecord(info.className, [("message", QuotedOrNull(info.message))])
  {
  }

  /** For a fixed class, the rendered throwable determines its message: an
      absent message (message=null) never renders like the message "null"
      (message='null'). */
  lemma RenderThrowableMessageRecoverable(c: string, m1: Option<string>, m2: Option<string>)
    requires RenderThrowable(Some(ThrowableInfo(c, m1))) == RenderThrowable(Some(ThrowableInfo(c, m2)))
    ensures m1 == m2
  {
    var r1 := RenderThrowable(Some(ThrowableInfo(c, m1)));
    var r2 := RenderThrowable(Some(ThrowableInfo(c, m2)));
    assert r1[|c| + 1..|r1| - 1] == MessageEntry(m1);
    assert r2[|c| + 1..|r2| - 1] == MessageEntry(m2);
    MessageEntryInjective(m1, m2);
  }

  /** For a fixed class, two throwables render alike exactly when their
      messages agree. */
  lemma RenderThrowableDistinguishesMessages(c: string, m1: Option<string>, m2: Option<string>)
    ensures RenderThrowable(Some(ThrowableInfo(c, m1))) == RenderThrowable(Some(ThrowableInfo(c, m2))) <==> m1 == m2
  {
    if RenderThrowable(Some(ThrowableInfo(c, m1))) == RenderThrowable(Some(ThrowableInfo(c, m2))) {
      RenderThrowableMessageRecoverable(c, m1, m2);
    }
  }

  lemma MessageEntryInjective(m1: Option<string>, m2: Option<string>)
    requires MessageEntry(m1) == MessageEntry(m2)
    ensures m1 == m2
  {
    var t1, t2 := MessageEntry(m1), MessageEntry(m2);
    assert t1[8] == t2[8];
    if m1.Some? && m2.Some? {
      assert m1.value == t1[9..|t1| - 1];
      assert m2.value == t2[9..|t2| - 1];
    }
  }

  // ----- The laws of the two flags -----

  /** Flipping isNegated flips the verdict on every event. */
  lemma NegationComplement(flags: Flags, internal: bool)
    ensures Matches(Flags(!flags.isNegated, flags.isIterableMatcher), internal) == !Matches(flags, internal)
  {
  }

  /** The verdict is internalMatches XOR isNegated; isIterableMatcher plays no
      part in it. */
  lemma IterableFlagNeverChangesVerdict(isNegated: bool, internal: bool)
    ensures Matches(Flags(isNegated, true), internal) == Matches(Flags(isNegated, false), internal)
    ensures Matches(Flags(isNegated, false), internal) <==> (internal != isNegated)
  {
  }

  /** describeTo picks the negated expectation exactly when negated. */
  lemma DescriptionFollowsNegation(flags: Flags, expectation: string, negatedExpectation: string)
    requires expectation != negatedExpectation
    ensures DescribeTo(flags, expectation, negatedExpectation) == negatedExpectation <==> flags.isNegated
    ensures DescribeTo(flags, expectation, negatedExpectation) == expectation <==> !flags.isNegated
  {
  }

  /** The mismatch text is "was " plus the rendered event on a single event
      and the rendered event alone inside an iterable matcher, whatever the
      negation. */
  lemma MismatchOnlyDiffersByPrefix(single: Flags, iterable: Flags, e: LogEvent)
    requires !single.isIterableMatcher && iterable.isIterableMatcher
    ensures DescribeMismatch(iterable, e) == RenderEvent(e)
    ensures DescribeMismatch(single, e) == "was " + DescribeMismatch(iterable, e)
  {
  }

  /** An event with no message, logger or throwable renders those fields as
      null. */
  lemma BareEventRendering(level: Option<Level>)
    ensures RenderEvent(LogEvent(level, None, None, None))
         == "ILoggingEvent{level=" + LevelText(level) + ", formattedMessage='null', loggedBy=null, throwable=null}"
  {
    assert "ILoggingEvent{" + "level=" == "ILoggingEvent{level=";
    NullFieldsTail();
    RegroupTail("ILoggingEvent{level=" + LevelText(level), ", formattedMessage='", "null", "'", ", loggedBy=", "null", ", throwable=", "null", "}");
  }

  /** Regrouping a concatenation so that its literal tail can be evaluated on its own. */
  lemma RegroupTail(h: string, a: string, b: string, c: string, d: string, e: string, f: string, g: string, x: string)
    ensures h + a + b + c + d + e + f + g + x == h + (a + b + c + d + e + f + g + x)
  {
    assert a + b + c + d + e + f + g + x == a + (b + c + d + e + f + g + x);
  }

  lemma NullFieldsTail()
    ensures ", formattedMessage='" + "null" + "'" + ", loggedBy=" + "null" + ", throwable=" + "null" + "}"
         == ", formattedMessage='null', loggedBy=null, throwable=null}"
  {
    assert ", formattedMessage='" + "null" == ", formattedMessage='null";
    assert ", formattedMessage='null" + "'" == ", formattedMessage='null'";
    assert ", formattedMessage='null'" + ", loggedBy=" == ", formattedMessage='null', loggedBy=";
    assert ", formattedMessage='null', loggedBy=" + "null" == ", formattedMessage='null', loggedBy=null";
    assert ", formattedMessage='null', loggedBy=null" + ", throwable=" == ", formattedMessage='null', loggedBy=null, throwable=";
    assert ", formattedMessage='null', loggedBy=null, throwable=" + "null" == ", formattedMessage='null', loggedBy=null, throwable=null";
  }
}
