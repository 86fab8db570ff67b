/** The call-logging layer (current variant): START and CALLED BY lines before
    the call, the exception and its cause chain when a StandardError escapes,
    and an END line on every outcome. */
module CallLogger {
  import opened Values
  import opened Text
  import opened Errors

  /** What a layer produced: the log messages written, in order, and the outcome. */
  datatype Logged<+T> = Logged(log: seq<string>, outcome: Outcome<T>)

  function StartLine(argsText: string): string
  {
    "START with args " + argsText
  }

  function CalledByLine(callerText: string): string
  {
    "CALLED BY " + callerText
  }

  /** `duration` is the elapsed time already rounded and rendered (no clock in the model). */
  function EndLine(duration: string): string
  {
    "END after " + duration + " seconds"
  }

  /** Backtrace lines are logged with a two-space indent. */
  function Indent(lines: seq<string>): (r: seq<string>)
    ensures |r| == |lines|
    ensures forall i :: 0 <= i < |r| ==> r[i] == "  " + lines[i]
  {
    seq(|lines|, i requires 0 <= i < |lines| => "  " + lines[i])
  }

  /** `Array#take(n)`. */
  function Take<T>(s: seq<T>, n: nat): (r: seq<T>)
    ensures |r| <= n && |r| <= |s| && r == s[..|r|]
    ensures |s| <= n ==> r == s
  {
    if |s| <= n then s else s[..n]
  }

  function Header(e: Exception, cause: bool): string
  {
    (if cause then "caused by: " else "") + ClassName(e.cls) + ": " + e.message
  }

  /** `log_exception(e, cause)`: a header, then at most five backtrace lines
      and the cause's log when there is a cause, or the whole backtrace when
      there is none. */
  function ExceptionLog(e: Exception, cause: bool): (r: seq<string>)
    ensures |r| >= 1 && r[0] == Header(e, cause)
    decreases e
  {
    match e.cause
    case Some(c) => [Header(e, cause)] + Indent(Take(e.backtrace, 5)) + ExceptionLog(c, true)
    case None => [Header(e, cause)] + Indent(e.backtrace)
  }

  /** The lines one exception of a chain contributes, judged by its position:
      only the last one of the chain logs its full backtrace. */
  function Block(e: Exception, isCause: bool, isLast: bool): seq<string>
  {
    [Header(e, isCause)] + Indent(if isLast then e.backtrace else Take(e.backtrace, 5))
  }

  function Concat(blocks: seq<seq<string>>): seq<string>
    decreases |blocks|
  {
    if blocks == [] then [] else blocks[0] + Concat(blocks[1..])
  }

  /** One block per exception of `chain`; every block but possibly the first is a cause. */
  function ChainBlocks(chain: seq<Exception>, cause: bool): (r: seq<seq<string>>)
    ensures |r| == |chain|
  {
    seq(|chain|, i requires 0 <= i < |chain| => Block(chain[i], cause || i > 0, i == |chain| - 1))
  }

  /** The blocks of a chain whose head has a cause: the head's block, then the
      cause's chain, all of it logged as causes. */
  lemma ChainBlocksOfCause(e: Exception, c: Exception, cause: bool)
    requires e.cause == Some(c)
    ensures ChainBlocks(Chain(e), cause) == [Block(e, cause, false)] + ChainBlocks(Chain(c), true)
  {
    var chain := Chain(e);
    var tail := Chain(c);
    assert chain == [e] + tail;
    var lhs := ChainBlocks(chain, cause);
    var rhs := [Block(e, cause, false)] + ChainBlocks(tail, true);
    forall k | 0 <= k < |lhs|
      ensures lhs[k] == rhs[k]
    {
      if k > 0 {
        assert chain[k] == tail[k - 1];
        assert rhs[k] == ChainBlocks(tail, true)[k - 1];
      }
    }
    assert lhs == rhs;
  }

  /** The exception log read along the cause chain: one header per exception,
      every header after the first prefixed `caused by: `, five backtrace lines
      at most for an exception that has a cause, the full backtrace for the last. */
  lemma {:induction false} ExceptionLogFollowsChain(e: Exception, cause: bool)
    ensures ExceptionLog(e, cause) == Concat(ChainBlocks(Chain(e), cause))
    decreases e
  {
    match e.cause
    case None =>
      var blocks := ChainBlocks([e], cause);
      assert blocks == [Block(e, cause, true)];
      assert Concat(blocks) == Block(e, cause, true) + Concat([]);
    case Some(c) =>
      ExceptionLogFollowsChain(c, true);
      ChainBlocksOfCause(e, c, cause);
      var blocks := [Block(e, cause, false)] + ChainBlocks(Chain(c), true);
      assert blocks[1..] == ChainBlocks(Chain(c), true);
      assert Concat(blocks) == Block(e, cause, false) + ExceptionLog(c, true);
  }

  /** The current logger's `call` around an inner layer that already wrote `inner.log`. */
  function LogCall<T>(argsText: string, callerText: string, inner: Logged<T>, duration: string): (r: Logged<T>)
    // the inner result (value or exception) is passed on unchanged
    ensures r.outcome == inner.outcome
    // START, then CALLED BY, come first; END comes last on every outcome
    ensures |r.log| >= |inner.log| + 3
    ensures r.log[0] == StartLine(argsText) && r.log[1] == CalledByLine(callerText)
    ensures r.log[|r.log| - 1] == EndLine(duration)
    ensures r.log[2..2 + |inner.log|] == inner.log
    // a StandardError is logged between the inner lines and END, starting with its header
    ensures inner.outcome.Raised? && IsStandard(inner.outcome.error.cls) ==>
              r.log[2 + |inner.log|..|r.log| - 1] == ExceptionLog(inner.outcome.error, false)
              && r.log[2 + |inner.log|] == Header(inner.outcome.error, false)
    // a return value, or an exception that is not rescued, adds nothing but END
    ensures !(inner.outcome.Raised? && IsStandard(inner.outcome.error.cls)) ==> |r.log| == |inner.log| + 3
  {
    var errorLines := match inner.outcome
      case Raised(e) => if IsStandard(e.cls) then ExceptionLog(e, false) else []
      case Returned(_) => [];
    var log := [StartLine(argsText), CalledByLine(callerText)] + inner.log + errorLines + [EndLine(duration)];
    assert log[2..2 + |inner.log|] == inner.log;
    assert log[2 + |inner.log|..|log| - 1] == errorLines;
    Logged(log, inner.outcome)
  }

  /** `caller`: `path:lineno` with a leading `<Rails.root>/` removed when Rails is defined. */
  function CallerText(path: string, lineno: nat, railsRoot: Option<string>): (r: string)
    // the line number follows the last colon
    ensures EndsWith(r, ":" + NatToString(lineno))
    // without Rails, or outside the Rails root, the path is kept whole
    ensures (railsRoot.None? || !StartsWith(path, railsRoot.value + "/")) ==>
              r[..|r| - |NatToString(lineno)| - 1] == path
    // inside the Rails root, the root and one slash are removed and nothing else
    ensures railsRoot.Some? && StartsWith(path, railsRoot.value + "/") ==>
              railsRoot.value + "/" + r[..|r| - |NatToString(lineno)| - 1] == path
  {
    var shown := match railsRoot
      case Some(root) => if StartsWith(path, root + "/") then path[|root| + 1..] else path
      case None => path;
    assert railsRoot.Some? && StartsWith(path, railsRoot.value + "/") ==> railsRoot.value + "/" + shown == path;
    shown + ":" + NatToString(lineno)
  }
}
