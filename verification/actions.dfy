/** What a backup run does to the outside world, as a log of actions. Every
    shell command the Python code launches becomes a `Command`; whether it
    succeeds is decided by an `Oracle` that sees the actions taken so far, so
    the same rsync may lose a vanishing file while the containers run and
    succeed after they are stopped. An exception that escapes the Python code
    becomes an `Aborted` outcome, after which nothing further is done. */
module Actions {
  import opened Wrappers

  datatype Status = Stop | Start

  datatype Command =
    | MariadbDump(container: string, user: string, password: string, database: string, outFile: string)
    | PgDump(container: string, user: string, password: string, database: string, outFile: string)
    | PgDumpAll(container: string, user: string, password: string, outFile: string)
    | Rsync(flags: seq<string>, linkDest: Option<string>, source: string, dest: string)
    | SetStatus(status: Status, containers: seq<string>)
    | Compose(argv: seq<string>, check: bool)

  /** A command's exit: success, or failure with the text of the raised exception. */
  datatype CmdResult = Succeeded | Failed(message: string)

  /** Directory creation (`mkdir -p`, never failing in this model) or a launched
      command together with how it ended. */
  datatype Action = Mkdir(path: string) | Exec(cmd: Command, result: CmdResult)

  datatype Error =
    | CommandFailed(cmd: Command, message: string)
    | NoComposeTool
    | MissingAttribute(name: string)

  datatype Outcome = Completed | Aborted(error: Error)

  /** The actions one piece of the program takes, and how it ends. */
  datatype Run = Run(log: seq<Action>, outcome: Outcome)

  /** Decides a command's result from the actions taken before it in the run. */
  type Oracle = (seq<Action>, Command) -> CmdResult

  const Done := Run([], Completed)

  /** Runs `b` after `a` unless `a` aborted. */
  function Then(a: Run, b: Run): Run {
    if a.outcome.Aborted? then a else Run(a.log + b.log, b.outcome)
  }

  /** A sequence that completes ends with the last action of its second part. */
  lemma ThenLast(a: Run, b: Run)
    requires |b.log| > 0
    ensures Then(a, b).outcome.Completed? ==> Then(a, b).log[|Then(a, b).log| - 1] == b.log[|b.log| - 1]
  {
  }

  /** Launches `cmd`; a failure raises, i.e. aborts. */
  function Step(cmd: Command, run: Oracle, hist: seq<Action>): Run {
    var res := run(hist, cmd);
    Run([Exec(cmd, res)], if res.Succeeded? then Completed else Aborted(CommandFailed(cmd, res.message)))
  }

  /** Every command succeeds, whatever came before. */
  ghost predicate AllSucceed(run: Oracle) {
    forall hist, cmd :: run(hist, cmd).Succeeded?
  }

  predicate IsDump(a: Action) {
    a.Exec? && (a.cmd.MariadbDump? || a.cmd.PgDump? || a.cmd.PgDumpAll?)
  }

  /** No dump in the log. */
  predicate NoDumps(log: seq<Action>) {
    forall i :: 0 <= i < |log| ==> !IsDump(log[i])
  }

  /** The container-visible part of a volume's file backup. */
  datatype Phase = Sync(dest: string) | StopAll(names: seq<string>) | StartAll(names: seq<string>)

  /** The rsync, stop and start commands of a log, in order; directory
      creation and dumps are dropped. */
  function Phases(log: seq<Action>): seq<Phase>
    decreases |log|
  {
    if |log| == 0 then []
    else
      var rest := Phases(log[1..]);
      match log[0]
      case Exec(Rsync(_, _, _, dest), _) => [Sync(dest)] + rest
      case Exec(SetStatus(Stop, names), _) => [StopAll(names)] + rest
      case Exec(SetStatus(Start, names), _) => [StartAll(names)] + rest
      case _ => rest
  }

  lemma {:induction false} PhasesAppend(a: seq<Action>, b: seq<Action>)
    ensures Phases(a + b) == Phases(a) + Phases(b)
    decreases |a|
  {
    if |a| == 0 {
      assert a + b == b;
    } else {
      assert (a + b)[0] == a[0] && (a + b)[1..] == a[1..] + b;
      PhasesAppend(a[1..], b);
    }
  }

  /** An rsync, stop or start: what `Phases` keeps. */
  predicate IsPhaseAction(a: Action) {
    a.Exec? && (a.cmd.Rsync? || a.cmd.SetStatus?)
  }

  /** No copy, stop or start in the log. */
  predicate NoPhaseActions(log: seq<Action>) {
    forall i :: 0 <= i < |log| ==> !IsPhaseAction(log[i])
  }

  /** A log without copies, stops and starts has no phases. */
  lemma {:induction false} NoPhases(log: seq<Action>)
    requires NoPhaseActions(log)
    ensures Phases(log) == []
    decreases |log|
  {
    if |log| > 0 { NoPhases(log[1..]); }
  }

  lemma ThenNoPhaseActions(a: Run, b: Run)
    requires NoPhaseActions(a.log) && NoPhaseActions(b.log)
    ensures NoPhaseActions(Then(a, b).log)
  {
    var log := Then(a, b).log;
    forall i | 0 <= i < |log| ensures !IsPhaseAction(log[i]) {
      if i >= |a.log| { assert log[i] == b.log[i - |a.log|]; }
    }
  }

  /** The phases of two runs in sequence. */
  lemma ThenPhases(a: Run, b: Run)
    ensures Phases(Then(a, b).log) == if a.outcome.Aborted? then Phases(a.log) else Phases(a.log) + Phases(b.log)
  {
    if a.outcome.Completed? { PhasesAppend(a.log, b.log); }
  }

  /** In a sequence whose first part has no copy, stop or start and whose
      second part has no dump, every dump comes before every copy, stop and
      start. */
  lemma DumpsBeforePhases(a: Run, b: Run)
    requires NoPhaseActions(a.log) && NoDumps(b.log)
    ensures var log := Then(a, b).log;
            forall i, j :: 0 <= i < j < |log| && IsPhaseAction(log[i]) ==> !IsDump(log[j])
  {
    var log := Then(a, b).log;
    if a.outcome.Completed? {
      forall i, j | 0 <= i < j < |log| && IsPhaseAction(log[i]) ensures !IsDump(log[j]) {
        assert |a.log| <= i;
        assert log[j] == b.log[j - |a.log|];
      }
    }
  }

  /** A `docker start` that succeeded: containers were brought back. */
  predicate Restarted(a: Action) {
    a.Exec? && a.cmd.SetStatus? && a.cmd.status == Start && a.result.Succeeded?
  }

  /** No container was successfully started in the log. */
  predicate NoneRestarted(log: seq<Action>) {
    forall i :: 0 <= i < |log| ==> !Restarted(log[i])
  }

  /** When neither part of a sequence restarts anything on the way to an
      abort, the sequence does not either. */
  lemma ThenAbortNoneRestarted(a: Run, b: Run)
    requires NoneRestarted(a.log)
    requires a.outcome.Completed? && b.outcome.Aborted? ==> NoneRestarted(b.log)
    ensures Then(a, b).outcome.Aborted? ==> NoneRestarted(Then(a, b).log)
  {
    var log := Then(a, b).log;
    if a.outcome.Completed? && b.outcome.Aborted? {
      forall i | |a.log| <= i < |log| ensures log[i] == b.log[i - |a.log|] { }
    }
  }

  /** Putting the same sequence in front keeps a prefix a prefix. */
  lemma PrefixAppend<T>(p: seq<T>, a: seq<T>, b: seq<T>)
    requires a <= b
    ensures p + a <= p + b
  {
    assert (p + b)[..|p| + |a|] == p + b[..|a|];
  }

  /** A prefix of `b` is a prefix of anything that starts with `b`. */
  lemma PrefixExtend<T>(a: seq<T>, b: seq<T>, c: seq<T>)
    requires a <= b
    ensures a <= b + c
  {
    assert (b + c)[..|a|] == b[..|a|];
  }
}
