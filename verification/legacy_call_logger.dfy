/** The older call-logging layer (lib/services/base/call_logger.rb): a START
    line, the exception header and raw backtrace when a StandardError escapes,
    and an END line on every outcome.  It does not follow causes. */
module LegacyCallLogger {
  import opened Errors
  import CallLogger

  function StartLine(argsText: string): string
  {
    "START with args: " + argsText
  }

  /** `"#{e.class}: #{e.message}"` followed by every backtrace line, unindented. */
  function ErrorLines(e: Exception): (r: seq<string>)
    ensures |r| == |e.backtrace| + 1
    ensures r[0] == ClassName(e.cls) + ": " + e.message
    ensures r[1..] == e.backtrace
  {
    [ClassName(e.cls) + ": " + e.message] + e.backtrace
  }

  /** The older logger's `call` around an inner layer that already wrote `inner.log`. */
  function LogCall<T>(argsText: string, inner: CallLogger.Logged<T>, duration: string): (r: CallLogger.Logged<T>)
    // the inner result (value or exception) is passed on unchanged
    ensures r.outcome == inner.outcome
    ensures |r.log| >= |inner.log| + 2
    ensures r.log[0] == StartLine(argsText)
    ensures r.log[1..1 + |inner.log|] == inner.log
    // END after ... is always the last line
    ensures r.log[|r.log| - 1] == CallLogger.EndLine(duration)
    // a StandardError: its class and message, then its whole backtrace in order, then END
    ensures inner.outcome.Raised? && IsStandard(inner.outcome.error.cls) ==>
              r.log[1 + |inner.log|..|r.log| - 1] == ErrorLines(inner.outcome.error)
    ensures !(inner.outcome.Raised? && IsStandard(inner.outcome.error.cls)) ==> |r.log| == |inner.log| + 2
  {
    var errorLines := match inner.outcome
      case Raised(e) => if IsStandard(e.cls) then ErrorLines(e) else []
      case Returned(_) => [];
    var log := [StartLine(argsText)] + inner.log + errorLines + [CallLogger.EndLine(duration)];
    assert log[1..1 + |inner.log|] == inner.log;
    assert log[1 + |inner.log|..|log| - 1] == errorLines;
    CallLogger.Logged(log, inner.outcome)
  }
}
