/** The result aggregation of a command pipeline. Starting the processes and
    wiring their pipes is left to the operating system; what is modelled is how
    the per-stage return codes and outputs, once every stage has finished,
    become the pipeline's result or its error. */
module Pipeline {
  import opened Results
  import opened Errors

  /** An argument vector. */
  type Command = seq<string>

  /** What one finished stage reported: its exit status, the output it
      delivered (None when its output went to a pipe or a caller's file rather
      than being captured) and what it wrote to its diagnostic stream. */
  datatype StageResult = StageResult(returnCode: int, stdout: Option<string>, stderr: string)

  /** The completed-process record handed back to callers. */
  datatype CompletedProcess = CompletedProcess(args: Command, returnCode: int, stdout: Option<string>, stderr: string)

  function Last<T>(s: seq<T>): T
    requires s != []
  {
    s[|s| - 1]
  }

  /** The position of the first occurrence of `x` in `s` (`list.index`). */
  function IndexOf(s: seq<int>, x: int): (k: nat)
    requires x in s
    ensures k < |s| && s[k] == x && forall j :: 0 <= j < k ==> s[j] != x
  {
    if s[0] == x then 0 else 1 + IndexOf(s[1..], x)
  }

  /** The first non-zero element of `s` (`next(c for c in s if c != 0)`). */
  function FirstNonZero(s: seq<int>): (c: int)
    requires exists k :: 0 <= k < |s| && s[k] != 0
    ensures c != 0 && c in s
  {
    if s[0] != 0 then s[0] else FirstNonZero(s[1..])
  }

  /** Looking up the value of the first non-zero code finds the first failing
      position: every earlier code is zero, so none of them equals it. */
  lemma {:induction false} IndexOfFirstNonZero(s: seq<int>)
    requires exists k :: 0 <= k < |s| && s[k] != 0
    ensures var k := IndexOf(s, FirstNonZero(s));
            s[k] != 0 && forall j :: 0 <= j < k ==> s[j] == 0
  {
    if s[0] == 0 {
      assert exists k :: 0 <= k < |s[1..]| && s[1..][k] != 0 by {
        var k :| 0 <= k < |s| && s[k] != 0;
        assert s[1..][k - 1] == s[k];
      }
      IndexOfFirstNonZero(s[1..]);
    }
  }

  /** Aggregates the finished stages of a pipeline, one per command: with
      checking on and some stage failing, the error names the command of the
      first failing stage but carries the last stage's code and outputs;
      otherwise the result is the last command with the last stage's code and
      output. Diagnostics come from the last stage only, and are empty when
      suppressed. */
  method RunPipeline(cmds: seq<Command>, stages: seq<StageResult>, check: bool, suppressStderr: bool)
    returns (r: Result<CompletedProcess, Error>)
    requires |stages| == |cmds|
    ensures cmds == [] ==> r == Failure(ValueError)
    ensures cmds != [] ==>
              var stderr := if suppressStderr then "" else Last(stages).stderr;
              && (check && (exists k :: 0 <= k < |stages| && stages[k].returnCode != 0) ==>
                    exists k :: 0 <= k < |stages|
                      && stages[k].returnCode != 0
                      && (forall j :: 0 <= j < k ==> stages[j].returnCode == 0)
                      && r == Failure(CalledProcessError(Last(stages).returnCode, cmds[k], Last(stages).stdout, stderr)))
              && (!check || (forall k :: 0 <= k < |stages| ==> stages[k].returnCode == 0) ==>
                    r == Success(CompletedProcess(Last(cmds), Last(stages).returnCode, Last(stages).stdout, stderr)))
  {
    if cmds == [] {
      return Failure(ValueError);
    }
    var stdout: Option<string> := None;
    var stderrOutput: string := "";
    var returnCodes: seq<int> := [];
    var i := 0;
    while i < |stages|
      invariant 0 <= i <= |stages|
      invariant |returnCodes| == i
      invariant forall j :: 0 <= j < i ==> returnCodes[j] == stages[j].returnCode
      invariant stdout == if i == |stages| then Last(stages).stdout else None
      invariant stderrOutput == if i == |stages| && !suppressStderr then Last(stages).stderr else ""
    {
      var stage := stages[i];
      returnCodes := returnCodes + [stage.returnCode];
      if i == |stages| - 1 && (stdout.None? || stdout == Some("")) {
        stdout := stage.stdout;
      }
      stderrOutput := "";
      if i == |stages| - 1 && !suppressStderr {
        stderrOutput := stage.stderr;
      }
      i := i + 1;
    }
    if check && exists k :: 0 <= k < |returnCodes| && returnCodes[k] != 0 {
      IndexOfFirstNonZero(returnCodes);
      var failed := IndexOf(returnCodes, FirstNonZero(returnCodes));
      return Failure(CalledProcessError(Last(returnCodes), cmds[failed], stdout, stderrOutput));
    }
    return Success(CompletedProcess(Last(cmds), Last(returnCodes), stdout, stderrOutput));
  }
}
