/** The Docker Compose step that ends a backup run: building the compose
    command line, the hard restart of a project, and choosing which project
    directories get one. */
module Compose {
  import opened Wrappers
  import opened PosixPath
  import opened Actions

  /** One entry of `os.scandir(parent)`. */
  datatype DirEntry = DirEntry(name: string, isDir: bool)

  /** What the compose step sees of the machine: the entries of the parent
      directory, the paths that are regular files, `shutil.which`, and
      `Path.resolve`. */
  datatype ComposeHost = ComposeHost(entries: seq<DirEntry>, files: set<string>,
                                     which: string -> Option<string>, resolve: string -> string)

  /** The program a compose command runs: the `compose` wrapper, or the
      `docker` binary with its `compose` plugin. */
  datatype Tool = Wrapper(path: string) | DockerPlugin(path: string)

  /** A compose invocation: tool, project directory, and the arguments
      passed through to compose. */
  datatype ComposeCall = ComposeCall(tool: Tool, dir: string, args: seq<string>)

  /** Python truthiness of what `shutil.which` returns. */
  predicate Found(p: Option<string>) {
    p.Some? && p.value != ""
  }

  /** The argument vector of a call. Only the wrapper gets `--` before the
      passed-through arguments. */
  function Render(c: ComposeCall): seq<string> {
    match c.tool
    case Wrapper(w) => [w, "--chdir", c.dir, "--"] + c.args
    case DockerPlugin(d) => [d, "compose", "--chdir", c.dir] + c.args
  }

  /** Reads an argument vector back as a compose call. */
  function ParseComposeCmd(argv: seq<string>): Option<ComposeCall> {
    if |argv| >= 4 && argv[1] == "--chdir" && argv[3] == "--" then
      Some(ComposeCall(Wrapper(argv[0]), argv[2], argv[4..]))
    else if |argv| >= 4 && argv[1] == "compose" && argv[2] == "--chdir" then
      Some(ComposeCall(DockerPlugin(argv[0]), argv[3], argv[4..]))
    else None
  }

  /** Rendering loses nothing: the call can be read back from its argv. */
  lemma ParseRender(c: ComposeCall)
    ensures ParseComposeCmd(Render(c)) == Some(c)
  {
    var argv := Render(c);
    assert argv[4..] == c.args;
  }

  /** And every argv that reads as a call is that call's rendering. */
  lemma RenderParse(argv: seq<string>)
    ensures ParseComposeCmd(argv).Some? ==> Render(ParseComposeCmd(argv).value) == argv
  {
    if ParseComposeCmd(argv).Some? {
      var c := ParseComposeCmd(argv).value;
      assert argv == argv[..4] + argv[4..];
    }
  }

  /** `_build_compose_cmd(project_dir, passthrough)`: the wrapper when it is
      on the PATH, otherwise `docker compose`, otherwise an error. The
      project directory is resolved first. */
  function BuildComposeCmd(projectDir: string, passthrough: seq<string>,
                           which: string -> Option<string>, resolve: string -> string): (r: Result<seq<string>, Error>)
    ensures r.Failure? <==> !Found(which("compose")) && !Found(which("docker"))
    ensures r.Failure? ==> r.error == NoComposeTool
    ensures r.Success? ==> |r.value| == 4 + |passthrough| && r.value[4..] == passthrough
    ensures r.Success? ==> ParseComposeCmd(r.value).Some? && ParseComposeCmd(r.value).value.dir == resolve(projectDir)
    ensures Found(which("compose")) ==>
              r.Success? && ParseComposeCmd(r.value).value.tool == Wrapper(which("compose").value)
    ensures !Found(which("compose")) && Found(which("docker")) ==>
              r.Success? && ParseComposeCmd(r.value).value.tool == DockerPlugin(which("docker").value)
  {
    var pdir := resolve(projectDir);
    var wrapper := which("compose");
    if Found(wrapper) then
      var c := ComposeCall(Wrapper(wrapper.value), pdir, passthrough);
      ParseRender(c);
      Success(Render(c))
    else
      var docker := which("docker");
      if Found(docker) then
        var c := ComposeCall(DockerPlugin(docker.value), pdir, passthrough);
        ParseRender(c);
        Success(Render(c))
      else Failure(NoComposeTool)
  }

  /** The action is a checked compose call (`subprocess.run(..., check=True)`)
      on `dir` with arguments `args`. */
  predicate ComposeOn(a: Action, dir: string, args: seq<string>) {
    a.Exec? && a.cmd.Compose? && a.cmd.check
    && ParseComposeCmd(a.cmd.argv).Some?
    && ParseComposeCmd(a.cmd.argv).value.dir == dir
    && ParseComposeCmd(a.cmd.argv).value.args == args
  }

  /** `hard_restart_docker_services(dir_path)`: both command lines are built
      before anything runs; then `down`, then `up -d`, each raising on a
      non-zero exit. */
  function HardRestart(dir: string, host: ComposeHost, run: Oracle, hist: seq<Action>): (r: Run)
    ensures r.log == [] <==> !Found(host.which("compose")) && !Found(host.which("docker"))
    ensures r.log == [] ==> r.outcome == Aborted(NoComposeTool)
    ensures |r.log| <= 2
    ensures |r.log| > 0 ==> ComposeOn(r.log[0], host.resolve(dir), ["down"])
    ensures |r.log| > 1 ==> ComposeOn(r.log[1], host.resolve(dir), ["up", "-d"])
    ensures r.outcome.Completed? <==> |r.log| == 2 && r.log[0].result.Succeeded? && r.log[1].result.Succeeded?
  {
    var down := BuildComposeCmd(dir, ["down"], host.which, host.resolve);
    var up := BuildComposeCmd(dir, ["up", "-d"], host.which, host.resolve);
    if down.Failure? || up.Failure? then Run([], Aborted(NoComposeTool))
    else
      var first := Step(Compose(down.value, true), run, hist);
      Then(first, Step(Compose(up.value, true), run, hist + first.log))
  }

  /** `<dir>/docker-compose.yml` */
  function ComposeFile(dir: string): string {
    Join(dir, "docker-compose.yml")
  }

  /** The test `handle_docker_compose_services` applies to one entry: a
      directory holding a `docker-compose.yml` whose basename is listed. */
  predicate Restarts(parent: string, hardRestart: seq<string>, files: set<string>, e: DirEntry) {
    var path := Join(parent, e.name);
    e.isDir && ComposeFile(path) in files && Basename(path) in hardRestart
  }

  /** The loop of `handle_docker_compose_services` over `entries`. */
  function HandleEntries(parent: string, hardRestart: seq<string>, host: ComposeHost, entries: seq<DirEntry>,
                         run: Oracle, hist: seq<Action>): (r: Run)
    ensures forall i :: 0 <= i < |r.log| ==> r.log[i].Exec? && r.log[i].cmd.Compose? && r.log[i].cmd.check
    decreases |entries|
  {
    if |entries| == 0 then Done
    else
      var e := entries[0];
      var first := if Restarts(parent, hardRestart, host.files, e) then HardRestart(Join(parent, e.name), host, run, hist) else Done;
      Then(first, HandleEntries(parent, hardRestart, host, entries[1..], run, hist + first.log))
  }

  /** `handle_docker_compose_services(parent_directory, hard_restart_required)`. */
  function HandleComposeServices(parent: string, hardRestart: seq<string>, host: ComposeHost,
                                 run: Oracle, hist: seq<Action>): (r: Run)
    ensures forall i :: 0 <= i < |r.log| ==> r.log[i].Exec? && r.log[i].cmd.Compose? && r.log[i].cmd.check
  {
    HandleEntries(parent, hardRestart, host, host.entries, run, hist)
  }

  // ---------------------------------------------------------------------
  // The selection rule, stated separately from the loop
  // ---------------------------------------------------------------------

  /** For an entry whose name is a single path component the test reads:
      a directory, with a compose file, whose own name is listed. */
  lemma SelectionRule(parent: string, hardRestart: seq<string>, files: set<string>, e: DirEntry)
    requires IsSegment(e.name)
    ensures Restarts(parent, hardRestart, files, e)
            <==> e.isDir && ComposeFile(Join(parent, e.name)) in files && e.name in hardRestart
  {
    BasenameOfJoin(parent, e.name);
  }

  /** The project directories selected for a hard restart, in scan order. */
  function SelectedDirs(parent: string, hardRestart: seq<string>, files: set<string>, entries: seq<DirEntry>): seq<string>
    decreases |entries|
  {
    if |entries| == 0 then []
    else
      var rest := SelectedDirs(parent, hardRestart, files, entries[1..]);
      if Restarts(parent, hardRestart, files, entries[0]) then [Join(parent, entries[0].name)] + rest else rest
  }

  /** Exactly the directories of entries that pass the test are selected. */
  lemma {:induction false} SelectedDirsMembership(parent: string, hardRestart: seq<string>, files: set<string>,
                                                   entries: seq<DirEntry>, d: string)
    ensures d in SelectedDirs(parent, hardRestart, files, entries)
            <==> exists e :: e in entries && Restarts(parent, hardRestart, files, e) && d == Join(parent, e.name)
    decreases |entries|
  {
    if |entries| > 0 {
      SelectedDirsMembership(parent, hardRestart, files, entries[1..], d);
      assert forall e :: e in entries <==> e == entries[0] || e in entries[1..];
    }
  }

  /** What a run does when every compose command succeeds: down then up for
      each selected directory, in order. */
  function RestartPlan(dirs: seq<string>, host: ComposeHost): seq<Action>
    decreases |dirs|
  {
    if |dirs| == 0 then []
    else
      var down := BuildComposeCmd(dirs[0], ["down"], host.which, host.resolve);
      var up := BuildComposeCmd(dirs[0], ["up", "-d"], host.which, host.resolve);
      var pair := if down.Success? && up.Success?
                  then [Exec(Compose(down.value, true), Succeeded), Exec(Compose(up.value, true), Succeeded)]
                  else [];
      pair + RestartPlan(dirs[1..], host)
  }

  /** A run of the compose step that completes has done exactly the restart
      plan of the selected directories. */
  lemma {:induction false} CompletedFollowsPlan(parent: string, hardRestart: seq<string>, host: ComposeHost,
                                                 entries: seq<DirEntry>, run: Oracle, hist: seq<Action>)
    ensures var r := HandleEntries(parent, hardRestart, host, entries, run, hist);
            r.outcome.Completed? ==> r.log == RestartPlan(SelectedDirs(parent, hardRestart, host.files, entries), host)
    decreases |entries|
  {
    if |entries| > 0 {
      var e := entries[0];
      var first := if Restarts(parent, hardRestart, host.files, e) then HardRestart(Join(parent, e.name), host, run, hist) else Done;
      CompletedFollowsPlan(parent, hardRestart, host, entries[1..], run, hist + first.log);
      var dirs := SelectedDirs(parent, hardRestart, host.files, entries);
      if Restarts(parent, hardRestart, host.files, e) {
        assert dirs[1..] == SelectedDirs(parent, hardRestart, host.files, entries[1..]);
      }
    }
  }

  /** When every command succeeds, the compose step completes exactly when
      no directory is selected or a compose tool is on the PATH, and
      otherwise fails for want of a compose tool. */
  lemma {:induction false} ComposeStepSucceeds(parent: string, hardRestart: seq<string>, host: ComposeHost,
                                                entries: seq<DirEntry>, run: Oracle, hist: seq<Action>)
    requires AllSucceed(run)
    ensures var r := HandleEntries(parent, hardRestart, host, entries, run, hist);
            && (r.outcome.Completed? <==>
                  Found(host.which("compose")) || Found(host.which("docker"))
                  || |SelectedDirs(parent, hardRestart, host.files, entries)| == 0)
            && (r.outcome.Aborted? ==> r.outcome == Aborted(NoComposeTool))
    decreases |entries|
  {
    if |entries| > 0 {
      var e := entries[0];
      var first := if Restarts(parent, hardRestart, host.files, e) then HardRestart(Join(parent, e.name), host, run, hist) else Done;
      ComposeStepSucceeds(parent, hardRestart, host, entries[1..], run, hist + first.log);
    }
  }
}
