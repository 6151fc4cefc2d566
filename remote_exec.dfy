/** Running one command over the SSH connection and collecting its output. */
module RemoteExec {
  import opened Wrappers
  import opened Strings

  /** How a remote command ended: it could not be started, or it closed with
      an exit code after printing `stdout` and `stderr` in chunks. */
  datatype Run = NotStarted | Closed(stdout: seq<string>, stderr: seq<string>, code: int)

  datatype CommandError = ExecError | ExitStatus(code: int, stderr: string)

  /** What `executeRemoteCommand` settles to: the trimmed standard output on
      exit code 0, an error carrying the code and the standard error otherwise. */
  function CommandResult(run: Run): Result<string, CommandError> {
    match run
    case NotStarted => Failure(ExecError)
    case Closed(out, err, code) =>
      if code != 0 then Failure(ExitStatus(code, Concat(err))) else Success(Trim(Concat(out)))
  }

  /** `executeRemoteCommand` with the `output +=` and `stderr_out +=`
      accumulators. */
  method ExecuteRemoteCommand(run: Run) returns (r: Result<string, CommandError>)
    ensures r == CommandResult(run)
  {
    if run.NotStarted? {
      return Failure(ExecError);
    }
    var output := "";
    var stderrOut := "";
    for i := 0 to |run.stdout|
      invariant output == Concat(run.stdout[..i])
    {
      assert run.stdout[..i + 1][..i] == run.stdout[..i];
      output := output + run.stdout[i];
    }
    for i := 0 to |run.stderr|
      invariant stderrOut == Concat(run.stderr[..i])
    {
      assert run.stderr[..i + 1][..i] == run.stderr[..i];
      stderrOut := stderrOut + run.stderr[i];
    }
    assert run.stdout[..|run.stdout|] == run.stdout;
    assert run.stderr[..|run.stderr|] == run.stderr;
    if run.code != 0 {
      return Failure(ExitStatus(run.code, stderrOut));
    }
    return Success(Trim(output));
  }

  /** `executeRemoteCommand(...).catch(e => '')`, as the telemetry uses it. */
  function OutputOrEmpty(run: Run): (out: string)
    ensures CommandResult(run).Failure? ==> out == ""
    ensures CommandResult(run).Success? ==> out == CommandResult(run).value
  {
    match CommandResult(run)
    case Success(v) => v
    case Failure(_) => ""
  }

  /** A failing command and a command that printed only white space look
      the same to the telemetry. */
  lemma FailureLooksLikeBlankOutput(out: seq<string>)
    requires forall i :: 0 <= i < |Concat(out)| ==> IsSpace(Concat(out)[i])
    ensures OutputOrEmpty(Closed(out, [], 0)) == OutputOrEmpty(NotStarted) == ""
  {
    TrimEmptyIffAllSpace(Concat(out));
  }

  /** The output arrives in chunks, here already decoded to text; how that
      text is cut does not matter. */
  lemma ChunkingIrrelevant(a: seq<string>, b: seq<string>, err: seq<string>, code: int)
    requires Concat(a) == Concat(b)
    ensures CommandResult(Closed(a, err, code)) == CommandResult(Closed(b, err, code))
  {
  }
}
