/** The read-only view of a Logback ILoggingEvent that the matchers inspect. */
module Events {
  import opened Wrappers

  /** Logback's Level constants. Level does not override equals, and its
      instances are singletons, so equality of levels is equality here. */
  datatype Level = ALL | TRACE | DEBUG | INFO | WARN | ERROR | OFF

  /** Level.toString(): the level's name. */
  function LevelName(l: Level): string
  {
    match l
    case ALL => "ALL"
    case TRACE => "TRACE"
    case DEBUG => "DEBUG"
    case INFO => "INFO"
    case WARN => "WARN"
    case ERROR => "ERROR"
    case OFF => "OFF"
  }

  /** An IThrowableProxy (or a Throwable) as far as the matchers look at it:
      the class name and the possibly-null message. */
  datatype ThrowableInfo = ThrowableInfo(className: string, message: Option<string>)

  /** The four event fields the matchers read; each may be null. */
  datatype LogEvent = LogEvent(
    level: Option<Level>,
    formattedMessage: Option<string>,
    loggerName: Option<string>,
    throwable: Option<ThrowableInfo>)

  /** A java.lang.Class, reduced to what Class.getName() returns. */
  datatype JavaClass = JavaClass(name: string)

  /** How StringBuilder.append and string concatenation print a
      possibly-null String. */
  function NullText(s: Option<string>): string
  {
    match s
    case None => "null"
    case Some(v) => v
  }

  /** How StringBuilder.append and string concatenation print a
      possibly-null Level. */
  function LevelText(l: Option<Level>): string
  {
    match l
    case None => "null"
    case Some(v) => LevelName(v)
  }
}
