/** LoggingEventLevelMatcher: the earlier level matcher, a plain
    TypeSafeMatcher comparing the event's level with an expected one. */
module LoggingEventLevelMatcher {
  import opened Wrappers
  import opened Events
  import HL = LoggingEventHasLevel

  datatype Matcher = Matcher(level: Level)

  /** The constructor: rejects a null level. */
  function New(level: Option<Level>): (r: Result<Matcher>)
    ensures r.Failure? <==> level.None?
    ensures r.Failure? ==> r.message == "level must not be null."
    ensures r.Success? ==> Some(r.value.level) == level
  {
    if level.None? then Failure("level must not be null.")
    else Success(Matcher(level.value))
  }

  function HasLevel(level: Option<Level>): Result<Matcher>
  {
    New(level)
  }

  /** matchesSafely: event.getLevel().equals(level); a null level on the
      event would throw, so it is excluded. */
  predicate MatchesSafely(m: Matcher, e: LogEvent)
    requires e.level.Some?
  {
    e.level.value == m.level
  }

  function DescribeTo(m: Matcher): string
  {
    "a LoggingEvent with level '" + LevelName(m.level) + "'"
  }

  /** Every event up to and including the first one of another level has a
      level: exactly the events everyItem() hands to the level matcher
      before it stops. Events after that one may be anything. */
  ghost predicate LevelsKnownUntilOther(m: Matcher, events: seq<LogEvent>)
    decreases |events|
  {
    |events| == 0
    || (events[0].level.Some?
        && (!MatchesSafely(m, events[0]) || LevelsKnownUntilOther(m, events[1..])))
  }

  /** hasOnlyItemsOfLevel: Hamcrest's everyItem() around the level matcher,
      which walks the list and fails at the first event the matcher
      rejects. */
  predicate HasOnlyItemsOfLevel(m: Matcher, events: seq<LogEvent>)
    requires LevelsKnownUntilOther(m, events)
    decreases |events|
  {
    |events| == 0 || (MatchesSafely(m, events[0]) && HasOnlyItemsOfLevel(m, events[1..]))
  }

  // ----- Properties -----

  /** hasLevel(l) matches exactly the events of level l: the verdict of the
      intended hasLevel of LoggingEventHasLevel, not of the one as written. */
  lemma MatchesExactlyLevel(l: Level, e: LogEvent)
    requires e.level.Some?
    ensures MatchesSafely(HasLevel(Some(l)).value, e) <==> e.level == Some(l)
    ensures MatchesSafely(HasLevel(Some(l)).value, e) == HL.Matches(HL.IntendedHasLevel(Some(l)).value, e)
    ensures MatchesSafely(HasLevel(Some(l)).value, e) != HL.Matches(HL.HasLevel(Some(l)).value, e)
  {
  }

  /** Only the level is looked at: events of the same level get the same
      verdict, whatever their message, logger or throwable. */
  lemma OnlyLevelMatters(l: Level, e1: LogEvent, e2: LogEvent)
    requires e1.level.Some? && e1.level == e2.level
    ensures MatchesSafely(HasLevel(Some(l)).value, e1) == MatchesSafely(HasLevel(Some(l)).value, e2)
  {
  }

  /** hasLevel(null) fails with the message the describing matcher uses. */
  lemma NullLevelRejected()
    ensures HasLevel(None) == Failure("level must not be null.")
    ensures HL.HasLevel(None).Failure? && HL.HasLevel(None).message == HasLevel(None).message
  {
  }

  /** hasOnlyItemsOfLevel(l) holds exactly when every event has level l, in
      particular on the empty list; when it fails, some event has a level
      other than l, and the events after it were never looked at. */
  lemma {:induction false} HasOnlyItemsOfLevelIffNoOther(l: Level, events: seq<LogEvent>)
    requires LevelsKnownUntilOther(HasLevel(Some(l)).value, events)
    ensures HasOnlyItemsOfLevel(HasLevel(Some(l)).value, events)
        <==> (forall i :: 0 <= i < |events| ==> events[i].level == Some(l))
    ensures !HasOnlyItemsOfLevel(HasLevel(Some(l)).value, events)
        ==> exists i :: 0 <= i < |events| && events[i].level.Some? && events[i].level != Some(l)
    decreases |events|
  {
    var m := HasLevel(Some(l)).value;
    if |events| > 0 {
      if MatchesSafely(m, events[0]) {
        HasOnlyItemsOfLevelIffNoOther(l, events[1..]);
        if forall i :: 0 <= i < |events| - 1 ==> events[1..][i].level == Some(l) {
          forall i | 0 <= i < |events|
            ensures events[i].level == Some(l)
          {
            if i > 0 {
              assert events[i] == events[1..][i - 1];
            }
          }
        } else {
          var i :| 0 <= i < |events| - 1 && events[1..][i].level != Some(l);
          assert events[i + 1] == events[1..][i];
        }
        if !HasOnlyItemsOfLevel(m, events) {
          var i :| 0 <= i < |events| - 1 && events[1..][i].level.Some? && events[1..][i].level != Some(l);
          assert events[i + 1] == events[1..][i];
        }
      } else {
        assert events[0].level != Some(l);
      }
    }
  }

  /** An event of another level stops the walk: whatever follows it, even
      events without a level, hasOnlyItemsOfLevel fails. */
  lemma OtherLevelStopsTheWalk(l: Level, other: Level, rest: seq<LogEvent>)
    requires other != l
    ensures LevelsKnownUntilOther(HasLevel(Some(l)).value, [LogEvent(Some(other), None, None, None)] + rest)
    ensures !HasOnlyItemsOfLevel(HasLevel(Some(l)).value, [LogEvent(Some(other), None, None, None)] + rest)
  {
  }

  /** The description names the level in single quotes. */
  lemma DescribesLevel(l: Level)
    ensures DescribeTo(HasLevel(Some(l)).value) == "a LoggingEvent with level '" + LevelName(l) + "'"
  {
  }
}
