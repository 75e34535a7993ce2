/** The backup run of `baudolo.backup.app`: the image-pattern tests, the
    detection of database containers, what is done for each volume, and the
    run as a whole. Docker, the disk and the shell are the `Host`. */
module App {
  import opened Wrappers
  import opened Text
  import opened PosixPath
  import opened Actions
  import opened Credentials
  import Db
  import Volume
  import Compose

  /** The parsed command line, as far as the backup run reads it. */
  datatype Config = Config(
    backupsDir: string,
    repoName: string,
    databasesCsv: string,
    databaseContainers: seq<string>,
    imagesNoStopRequired: seq<string>,
    imagesNoBackupRequired: seq<string>,
    everything: bool,
    shutdown: bool,
    dumpOnlySql: bool,
    composeDir: string,
    hardRestartRequired: seq<string>)

  /** What the run reads from the machine: the machine id and time stamp,
      `docker volume ls`, `docker ps --filter volume=...`, each container's
      image, each volume's mountpoint, the listing of the versions directory,
      the paths that are directories, the rows of `databases.csv`, the result
      of every shell command, and what the compose step sees. */
  datatype Host = Host(
    machineId: string,
    backupTime: string,
    volumes: seq<string>,
    containersOf: string -> seq<string>,
    imageOf: string -> string,
    mountpointOf: string -> string,
    versions: seq<string>,
    dirs: set<string>,
    rows: seq<CredentialRow>,
    run: Oracle,
    compose: Compose.ComposeHost)

  // ---------------------------------------------------------------------
  // Image patterns
  // ---------------------------------------------------------------------

  /** `any(pat in img for pat in patterns)` */
  function AnyPatternIn(img: string, patterns: seq<string>): (r: bool)
    ensures r <==> exists p :: p in patterns && Contains(img, p)
    decreases |patterns|
  {
    if |patterns| == 0 then false
    else if Contains(img, patterns[0]) then
      assert patterns[0] in patterns;
      true
    else
      var rest := AnyPatternIn(img, patterns[1..]);
      assert forall p :: p in patterns <==> p == patterns[0] || p in patterns[1..];
      assert rest ==> exists p :: p in patterns && Contains(img, p) by {
        if rest {
          var p :| p in patterns[1..] && Contains(img, p);
          assert p in patterns;
        }
      }
      rest
  }

  /** `is_image_ignored(container, images_no_backup_required)` */
  function IsImageIgnored(container: string, noBackup: seq<string>, imageOf: string -> string): (r: bool)
    ensures |noBackup| == 0 ==> !r
    ensures r <==> exists p :: p in noBackup && Contains(imageOf(container), p)
  {
    if |noBackup| == 0 then false else AnyPatternIn(imageOf(container), noBackup)
  }

  /** The `all(...)` of `volume_is_fully_ignored`. */
  function AllIgnored(containers: seq<string>, noBackup: seq<string>, imageOf: string -> string): (r: bool)
    ensures r <==> forall c :: c in containers ==> IsImageIgnored(c, noBackup, imageOf)
    decreases |containers|
  {
    if |containers| == 0 then true
    else
      assert forall c :: c in containers <==> c == containers[0] || c in containers[1..];
      IsImageIgnored(containers[0], noBackup, imageOf) && AllIgnored(containers[1..], noBackup, imageOf)
  }

  /** `volume_is_fully_ignored(containers, images_no_backup_required)`: the
      file backup is skipped only when there are containers and every one of
      them runs an ignored image. */
  function VolumeIsFullyIgnored(containers: seq<string>, noBackup: seq<string>, imageOf: string -> string): (r: bool)
    ensures r <==> |containers| > 0 && forall c :: c in containers ==>
                     exists p :: p in noBackup && Contains(imageOf(c), p)
  {
    if |containers| == 0 then false else AllIgnored(containers, noBackup, imageOf)
  }

  /** `requires_stop(containers, images_no_stop_required)`: some container's
      image contains none of the no-stop patterns. */
  function RequiresStop(containers: seq<string>, noStop: seq<string>, imageOf: string -> string): (r: bool)
    ensures r <==> exists c :: c in containers && forall p :: p in noStop ==> !Contains(imageOf(c), p)
    ensures |containers| == 0 ==> !r
    ensures |containers| > 0 && |noStop| == 0 ==> r
    decreases |containers|
  {
    if |containers| == 0 then false
    else
      assert forall c :: c in containers <==> c == containers[0] || c in containers[1..];
      if !AnyPatternIn(imageOf(containers[0]), noStop) then true
      else RequiresStop(containers[1..], noStop, imageOf)
  }

  // ---------------------------------------------------------------------
  // Database containers
  // ---------------------------------------------------------------------

  /** `has_image(container, "mariadb")` or `has_image(container, "postgres")`. */
  predicate IsDbImage(img: string) {
    Contains(img, "mariadb") || Contains(img, "postgres")
  }

  /** The engine `backup_database` is called with: "mariadb" is tried first. */
  function EngineOf(img: string): Db.Engine {
    if Contains(img, "mariadb") then Db.MariaDB else Db.Postgres
  }

  /** The single-database dumps a container is due: the plan of its
      instance's rows when its image is a database image, nothing otherwise. */
  function ContainerPlan(container: string, volDir: string, rows: seq<CredentialRow>,
                         databaseContainers: seq<string>, imageOf: string -> string): seq<Command> {
    if IsDbImage(imageOf(container))
    then Db.RowsPlan(container, Db.SqlDir(volDir), EngineOf(imageOf(container)),
                     EntriesFor(rows, Db.GetInstance(container, databaseContainers)))
    else []
  }

  /** The single-database dumps a volume is due: each container's plan, in
      container order. */
  function VolumePlan(containers: seq<string>, volDir: string, rows: seq<CredentialRow>,
                      databaseContainers: seq<string>, imageOf: string -> string): seq<Command>
    decreases |containers|
  {
    if |containers| == 0 then []
    else ContainerPlan(containers[0], volDir, rows, databaseContainers, imageOf)
         + VolumePlan(containers[1..], volDir, rows, databaseContainers, imageOf)
  }

  /** `backup_mariadb_or_postgres`: "mariadb" is tried before "postgres", at
      most one `backup_database` call is made, and the answer is whether the
      container is a database container at all, matching rows or not. A
      database container's instance rows are dumped in table order, all of
      them when the call returns normally. */
  function BackupMariadbOrPostgres(container: string, volDir: string, rows: seq<CredentialRow>,
                                   databaseContainers: seq<string>, imageOf: string -> string,
                                   run: Oracle, hist: seq<Action>): (r: (Run, bool))
    ensures r.1 <==> IsDbImage(imageOf(container))
    ensures !r.1 ==> r.0 == Done
    ensures r.1 ==>
              forall i :: 0 <= i < |r.0.log| ==>
                r.0.log[i] == Mkdir(Db.SqlDir(volDir))
                || Db.DumpOfRows(r.0.log[i], container, Db.GetInstance(container, databaseContainers),
                                 Db.SqlDir(volDir), EngineOf(imageOf(container)), rows)
    ensures Db.SingleDumps(r.0.log) <= ContainerPlan(container, volDir, rows, databaseContainers, imageOf)
    ensures r.0.outcome.Completed? ==>
              Db.SingleDumps(r.0.log) == ContainerPlan(container, volDir, rows, databaseContainers, imageOf)
  {
    var img := imageOf(container);
    if Contains(img, "mariadb") || Contains(img, "postgres") then
      var engine := EngineOf(img);
      Db.BackupDatabaseOnlyDumps(container, volDir, engine, rows, databaseContainers, run, hist);
      Db.BackupDatabaseDumpsRows(container, volDir, engine, rows, databaseContainers, run, hist);
      (Db.BackupDatabase(container, volDir, engine, rows, databaseContainers, run, hist), true)
    else (Done, false)
  }

  /** A directory creation or a dump. */
  predicate DumpPhaseAction(a: Action) {
    a.Mkdir? || IsDump(a)
  }

  /** `_backup_dumps_for_volume`: every container is tried in order, with
      no early exit, so the single-database dumps run are a prefix of the
      volume's plan, and all of it when the loop runs to its end; the answer
      is then whether any container is a database container. */
  function DumpsForVolume(containers: seq<string>, volDir: string, rows: seq<CredentialRow>,
                          databaseContainers: seq<string>, imageOf: string -> string,
                          run: Oracle, hist: seq<Action>): (r: (Run, bool))
    ensures forall i :: 0 <= i < |r.0.log| ==> DumpPhaseAction(r.0.log[i])
    ensures Db.SingleDumps(r.0.log) <= VolumePlan(containers, volDir, rows, databaseContainers, imageOf)
    ensures r.0.outcome.Completed? ==>
              Db.SingleDumps(r.0.log) == VolumePlan(containers, volDir, rows, databaseContainers, imageOf)
    ensures r.0.outcome.Completed? ==> (r.1 <==> exists c :: c in containers && IsDbImage(imageOf(c)))
    decreases |containers|
  {
    if |containers| == 0 then (Done, false)
    else
      var first := BackupMariadbOrPostgres(containers[0], volDir, rows, databaseContainers, imageOf, run, hist);
      var rest := DumpsForVolume(containers[1..], volDir, rows, databaseContainers, imageOf, run, hist + first.0.log);
      var plan := ContainerPlan(containers[0], volDir, rows, databaseContainers, imageOf);
      var later := VolumePlan(containers[1..], volDir, rows, databaseContainers, imageOf);
      assert forall c :: c in containers <==> c == containers[0] || c in containers[1..];
      assert forall i :: 0 <= i < |first.0.log| ==> DumpPhaseAction(first.0.log[i]);
      if first.0.outcome.Completed? then
        Db.SingleDumpsAppend(first.0.log, rest.0.log);
        PrefixAppend(plan, Db.SingleDumps(rest.0.log), later);
        (Then(first.0, rest.0), first.1 || rest.1)
      else
        PrefixExtend(Db.SingleDumps(first.0.log), plan, later);
        (Then(first.0, rest.0), first.1 || rest.1)
  }

  // ---------------------------------------------------------------------
  // Directories and containers
  // ---------------------------------------------------------------------

  /** `os.path.join(backups_dir, machine_id, repo_name)` */
  function VersionsDir(backupsDir: string, machineId: string, repoName: string): string {
    JoinAll(backupsDir, [machineId, repoName])
  }

  /** The path of `create_version_directory(versions_dir, backup_time)`. */
  function VersionDir(versionsDir: string, backupTime: string): string {
    Join(versionsDir, backupTime)
  }

  /** The path of `create_volume_directory(version_dir, volume_name)`. */
  function VolumeDir(versionDir: string, volume: string): string {
    Join(versionDir, volume)
  }

  /** `change_containers_status(containers, status)`: one `docker stop` or
      `docker start` for all containers, and nothing for none. */
  function ChangeContainersStatus(containers: seq<string>, status: Status, run: Oracle, hist: seq<Action>): (r: Run)
    ensures |containers| == 0 ==> r == Done
    ensures |containers| > 0 ==> |r.log| == 1 && r.log[0].Exec? && r.log[0].cmd == SetStatus(status, containers)
    ensures r.outcome.Aborted? <==> |containers| > 0 && r.log[0].result.Failed?
  {
    if |containers| == 0 then Done else Step(SetStatus(status, containers), run, hist)
  }

  // ---------------------------------------------------------------------
  // One volume
  // ---------------------------------------------------------------------

  /** `backup_volume(versions_dir, volume_name, vol_dir)` on this host. */
  function SyncVolume(host: Host, versionsDir: string, volume: string, volDir: string, hist: seq<Action>): Run {
    Volume.BackupVolume(versionsDir, volume, volDir, host.mountpointOf(volume), host.versions, host.dirs, host.run, hist)
  }

  /** Stop the containers, copy again, and start them unless `shutdown`. */
  function StoppedSync(cfg: Config, host: Host, volume: string, versionsDir: string, volDir: string,
                       containers: seq<string>, hist: seq<Action>): Run {
    var stop := ChangeContainersStatus(containers, Stop, host.run, hist);
    var sync := SyncVolume(host, versionsDir, volume, volDir, hist + stop.log);
    var start := if cfg.shutdown then Done
                 else ChangeContainersStatus(containers, Start, host.run, hist + stop.log + sync.log);
    Then(stop, Then(sync, start))
  }

  /** How the loop body decides to skip a volume's file backup after its
      dumps: as the code is written (`args.dump_only`); as its comment reads,
      taking the flag alone, whatever the dumps did (`args.dump_only_sql`);
      or as the `--dump-only-sql` option is documented. */
  datatype DumpOnlyCheck = AsWritten | AsFlag | Intended

  /** A dump command that succeeded: a dump was produced. */
  predicate DumpProduced(log: seq<Action>) {
    exists i :: 0 <= i < |log| && IsDump(log[i]) && log[i].result.Succeeded?
  }

  /** The value the dump-only test computes from the volume's dumps. As
      written it reads `args.dump_only`, which raises; read as a plain flag
      it is the option alone; as documented it is "the option is set and a
      dump was produced for this volume". */
  function SkipFiles(cfg: Config, check: DumpOnlyCheck, dumps: seq<Action>): (r: Result<bool, Error>)
    ensures check.AsWritten? ==> r == Failure(MissingAttribute("dump_only"))
    ensures check.AsFlag? ==> r == Success(cfg.dumpOnlySql)
    ensures check.Intended? ==> r.Success? && (r.value <==> cfg.dumpOnlySql && DumpProduced(dumps))
  {
    match check
    case AsWritten =>
      DumpOnlyIsMissing(cfg);
      Truth(Attribute(cfg, "dump_only"))
    case AsFlag => Truth(Attribute(cfg, "dump_only_sql"))
    case Intended => Success(cfg.dumpOnlySql && DumpProduced(dumps))
  }

  lemma StoppedSyncNoDumps(cfg: Config, host: Host, volume: string, versionsDir: string, volDir: string,
                           containers: seq<string>, hist: seq<Action>)
    ensures NoDumps(StoppedSync(cfg, host, volume, versionsDir, volDir, containers, hist).log)
  {
    var stop := ChangeContainersStatus(containers, Stop, host.run, hist);
    var sync := SyncVolume(host, versionsDir, volume, volDir, hist + stop.log);
    var start := if cfg.shutdown then Done
                 else ChangeContainersStatus(containers, Start, host.run, hist + stop.log + sync.log);
    ThenKeeps(sync, start);
    ThenKeeps(stop, Then(sync, start));
  }

  /** The part of the loop body after the dumps: the dump-only and ignored
      skips, then the "everything" or the default file backup. The dump-only
      test is given as the value it computes. */
  function FileBackup(cfg: Config, host: Host, skip: Result<bool, Error>, volume: string,
                      versionsDir: string, volDir: string, containers: seq<string>, hist: seq<Action>): (r: Run)
    ensures NoDumps(r.log)
  {
    match skip
    case Failure(e) => Run([], Aborted(e))
    case Success(true) => Done
    case Success(false) =>
      if VolumeIsFullyIgnored(containers, cfg.imagesNoBackupRequired, host.imageOf) then Done
      else
        var live := SyncVolume(host, versionsDir, volume, volDir, hist);
        if cfg.everything || RequiresStop(containers, cfg.imagesNoStopRequired, host.imageOf) then
          var stopped := StoppedSync(cfg, host, volume, versionsDir, volDir, containers, hist + live.log);
          StoppedSyncNoDumps(cfg, host, volume, versionsDir, volDir, containers, hist + live.log);
          ThenKeeps(live, stopped);
          Then(live, stopped)
        else live
  }

  /** Two runs without dumps make a sequence without dumps. */
  lemma ThenKeeps(a: Run, b: Run)
    requires NoDumps(a.log) && NoDumps(b.log)
    ensures NoDumps(Then(a, b).log)
  {
    var log := Then(a, b).log;
    forall i | |a.log| <= i < |log| ensures log[i] == b.log[i - |a.log|] { }
  }

  /** The body of the loop of `main` for one volume: create its directory,
      run the dumps, then back up its files. */
  function VolumeRoutine(cfg: Config, host: Host, check: DumpOnlyCheck, volume: string, hist: seq<Action>): (r: Run)
    ensures |r.log| > 0
    ensures r.log[0] == Mkdir(VolumeDir(VersionDir(VersionsDir(cfg.backupsDir, host.machineId, cfg.repoName), host.backupTime), volume))
  {
    var versionsDir := VersionsDir(cfg.backupsDir, host.machineId, cfg.repoName);
    var volDir := VolumeDir(VersionDir(versionsDir, host.backupTime), volume);
    var containers := host.containersOf(volume);
    var made := Run([Mkdir(volDir)], Completed);
    var dumps := DumpsForVolume(containers, volDir, host.rows, cfg.databaseContainers, host.imageOf, host.run, hist + made.log).0;
    var pre := Then(made, dumps);
    Then(pre, FileBackup(cfg, host, SkipFiles(cfg, check, dumps.log), volume, versionsDir, volDir, containers, hist + pre.log))
  }

  // ---------------------------------------------------------------------
  // What a volume's containers see
  // ---------------------------------------------------------------------

  /** The phase `change_containers_status` contributes. */
  function StatusPhases(status: Status, containers: seq<string>): seq<Phase> {
    if |containers| == 0 then []
    else if status == Stop then [StopAll(containers)]
    else [StartAll(containers)]
  }

  /** The copies, stops and starts the policy calls for, written as a table
      of the three modes. */
  function PlannedPhases(skip: bool, ignored: bool, everything: bool, shutdown: bool, needsStop: bool,
                         containers: seq<string>, dest: string): seq<Phase> {
    var restart := if shutdown then [] else StatusPhases(Start, containers);
    var stopped := StatusPhases(Stop, containers) + [Sync(dest)] + restart;
    if skip || ignored then []
    else if everything then [Sync(dest)] + stopped
    else if needsStop then [Sync(dest)] + stopped
    else [Sync(dest)]
  }

  lemma SyncPhases(host: Host, versionsDir: string, volume: string, volDir: string, hist: seq<Action>)
    ensures Phases(SyncVolume(host, versionsDir, volume, volDir, hist).log) == [Sync(Volume.Destination(volDir))]
  {
    var log := SyncVolume(host, versionsDir, volume, volDir, hist).log;
    assert log[1..][1..] == [];
    assert Phases(log[1..]) == [Sync(Volume.Destination(volDir))];
  }

  lemma StatusPhasesOf(containers: seq<string>, status: Status, run: Oracle, hist: seq<Action>)
    ensures Phases(ChangeContainersStatus(containers, status, run, hist).log) == StatusPhases(status, containers)
  {
    if |containers| > 0 {
      assert ChangeContainersStatus(containers, status, run, hist).log[1..] == [];
    }
  }

  lemma StoppedSyncPhases(cfg: Config, host: Host, volume: string, versionsDir: string, volDir: string,
                          containers: seq<string>, hist: seq<Action>)
    ensures var r := StoppedSync(cfg, host, volume, versionsDir, volDir, containers, hist);
            r.outcome.Completed? ==>
              Phases(r.log) == StatusPhases(Stop, containers) + [Sync(Volume.Destination(volDir))]
                               + (if cfg.shutdown then [] else StatusPhases(Start, containers))
  {
    var stop := ChangeContainersStatus(containers, Stop, host.run, hist);
    var sync := SyncVolume(host, versionsDir, volume, volDir, hist + stop.log);
    var start := if cfg.shutdown then Done
                 else ChangeContainersStatus(containers, Start, host.run, hist + stop.log + sync.log);
    StatusPhasesOf(containers, Stop, host.run, hist);
    SyncPhases(host, versionsDir, volume, volDir, hist + stop.log);
    if !cfg.shutdown {
      StatusPhasesOf(containers, Start, host.run, hist + stop.log + sync.log);
    }
    ThenPhases(sync, start);
    ThenPhases(stop, Then(sync, start));
  }

  lemma DumpsHaveNoPhases(made: Run, dumps: Run)
    requires forall i :: 0 <= i < |made.log| ==> DumpPhaseAction(made.log[i])
    requires forall i :: 0 <= i < |dumps.log| ==> DumpPhaseAction(dumps.log[i])
    ensures Phases(Then(made, dumps).log) == []
  {
    var log := Then(made, dumps).log;
    forall i | 0 <= i < |log| ensures DumpPhaseAction(log[i]) {
      if i >= |made.log| { assert log[i] == dumps.log[i - |made.log|]; }
    }
    NoPhases(log);
  }

  /** Whether a dump was produced is decided by the dumps alone: the
      directory creations before them and the file backup after them are
      no dumps. */
  lemma DumpProducedAmong(a: seq<Action>, d: seq<Action>, f: seq<Action>)
    requires NoDumps(a) && NoDumps(f)
    ensures DumpProduced(a + d + f) <==> DumpProduced(d)
  {
    var l := a + d + f;
    if DumpProduced(l) {
      var i :| 0 <= i < |l| && IsDump(l[i]) && l[i].result.Succeeded?;
      assert |a| <= i < |a| + |d|;
      assert l[i] == d[i - |a|];
    }
    if DumpProduced(d) {
      var i :| 0 <= i < |d| && IsDump(d[i]) && d[i].result.Succeeded?;
      assert l[i + |a|] == d[i];
    }
  }

  /** A volume's loop body that runs to its end produced a dump exactly when
      its dumps did. */
  lemma RoutineDumpProduced(cfg: Config, host: Host, volume: string, hist: seq<Action>)
    ensures var volDir := VolumeDir(VersionDir(VersionsDir(cfg.backupsDir, host.machineId, cfg.repoName), host.backupTime), volume);
            var dumps := DumpsForVolume(host.containersOf(volume), volDir, host.rows, cfg.databaseContainers, host.imageOf,
                                        host.run, hist + [Mkdir(volDir)]).0;
            var r := VolumeRoutine(cfg, host, Intended, volume, hist);
            r.outcome.Completed? ==> (DumpProduced(r.log) <==> DumpProduced(dumps.log))
  {
    var versionsDir := VersionsDir(cfg.backupsDir, host.machineId, cfg.repoName);
    var volDir := VolumeDir(VersionDir(versionsDir, host.backupTime), volume);
    var containers := host.containersOf(volume);
    var made := Run([Mkdir(volDir)], Completed);
    var dumps := DumpsForVolume(containers, volDir, host.rows, cfg.databaseContainers, host.imageOf, host.run, hist + made.log).0;
    var pre := Then(made, dumps);
    var files := FileBackup(cfg, host, SkipFiles(cfg, Intended, dumps.log), volume, versionsDir, volDir, containers, hist + pre.log);
    if pre.outcome.Completed? {
      DumpProducedAmong(made.log, dumps.log, files.log);
      assert Then(pre, files).log == made.log + dumps.log + files.log;
    }
  }

  /** What the containers of a volume see, when the loop body runs to its end:
      the three modes' table of copies, stops and starts. A volume is skipped
      when `--dump-only-sql` is set and a dump was produced for it, or when
      it is fully ignored; otherwise "everything" always copies, stops and
      copies again, and the default copies live and stops and copies again
      exactly when some image is not in the no-stop list. */
  lemma VolumePhases(cfg: Config, host: Host, volume: string, hist: seq<Action>)
    ensures var versionsDir := VersionsDir(cfg.backupsDir, host.machineId, cfg.repoName);
            var volDir := VolumeDir(VersionDir(versionsDir, host.backupTime), volume);
            var containers := host.containersOf(volume);
            var r := VolumeRoutine(cfg, host, Intended, volume, hist);
            r.outcome.Completed? ==>
              Phases(r.log) == PlannedPhases(cfg.dumpOnlySql && DumpProduced(r.log),
                                             VolumeIsFullyIgnored(containers, cfg.imagesNoBackupRequired, host.imageOf),
                                             cfg.everything, cfg.shutdown,
                                             RequiresStop(containers, cfg.imagesNoStopRequired, host.imageOf),
                                             containers, Volume.Destination(volDir))
  {
    var versionsDir := VersionsDir(cfg.backupsDir, host.machineId, cfg.repoName);
    var volDir := VolumeDir(VersionDir(versionsDir, host.backupTime), volume);
    var containers := host.containersOf(volume);
    var made := Run([Mkdir(volDir)], Completed);
    var dumps := DumpsForVolume(containers, volDir, host.rows, cfg.databaseContainers, host.imageOf, host.run, hist + made.log).0;
    var pre := Then(made, dumps);
    var skip := cfg.dumpOnlySql && DumpProduced(dumps.log);
    var files := FileBackup(cfg, host, SkipFiles(cfg, Intended, dumps.log), volume, versionsDir, volDir, containers, hist + pre.log);
    DumpsHaveNoPhases(made, dumps);
    ThenPhases(pre, files);
    RoutineDumpProduced(cfg, host, volume, hist);
    var h := hist + pre.log;
    if !skip && !VolumeIsFullyIgnored(containers, cfg.imagesNoBackupRequired, host.imageOf) {
      var live := SyncVolume(host, versionsDir, volume, volDir, h);
      SyncPhases(host, versionsDir, volume, volDir, h);
      if cfg.everything || RequiresStop(containers, cfg.imagesNoStopRequired, host.imageOf) {
        StoppedSyncPhases(cfg, host, volume, versionsDir, volDir, containers, h + live.log);
        ThenPhases(live, StoppedSync(cfg, host, volume, versionsDir, volDir, containers, h + live.log));
      }
    }
  }

  /** Every stop is followed by a copy and, unless `shutdown`, by a start of
      the same containers; with `shutdown` nothing is ever started. */
  predicate RestartsFollowStops(ph: seq<Phase>, shutdown: bool) {
    (forall i :: 0 <= i < |ph| && ph[i].StopAll? ==>
       i + 1 < |ph| && ph[i + 1].Sync?
       && (shutdown || (i + 2 < |ph| && ph[i + 2] == StartAll(ph[i].names))))
    && (shutdown ==> forall i :: 0 <= i < |ph| ==> !ph[i].StartAll?)
  }

  /** Containers that are stopped are started again right after the copy
      they were stopped for, unless `shutdown` is set; with `shutdown` none
      is ever started. */
  lemma StoppedContainersRestart(cfg: Config, host: Host, volume: string, hist: seq<Action>)
    ensures var r := VolumeRoutine(cfg, host, Intended, volume, hist);
            r.outcome.Completed? ==> RestartsFollowStops(Phases(r.log), cfg.shutdown)
  {
    var versionsDir := VersionsDir(cfg.backupsDir, host.machineId, cfg.repoName);
    var volDir := VolumeDir(VersionDir(versionsDir, host.backupTime), volume);
    var containers := host.containersOf(volume);
    var r := VolumeRoutine(cfg, host, Intended, volume, hist);
    VolumePhases(cfg, host, volume, hist);
    PlanRestarts(cfg.dumpOnlySql && DumpProduced(r.log), VolumeIsFullyIgnored(containers, cfg.imagesNoBackupRequired, host.imageOf),
                 cfg.everything, cfg.shutdown, RequiresStop(containers, cfg.imagesNoStopRequired, host.imageOf),
                 containers, Volume.Destination(volDir));
  }

  /** In the plan, a stop is followed by a copy and, unless `shutdown`, a
      start of the same containers; with `shutdown` nothing is started. */
  lemma PlanRestarts(skip: bool, ignored: bool, everything: bool, shutdown: bool, needsStop: bool,
                     containers: seq<string>, dest: string)
    ensures RestartsFollowStops(PlannedPhases(skip, ignored, everything, shutdown, needsStop, containers, dest), shutdown)
  {
    var ph := PlannedPhases(skip, ignored, everything, shutdown, needsStop, containers, dest);
    if |containers| > 0 && !(skip || ignored) && (everything || needsStop) {
      var restart := if shutdown then [] else [StartAll(containers)];
      assert ph == [Sync(dest), StopAll(containers), Sync(dest)] + restart;
    } else {
      assert forall i :: 0 <= i < |ph| ==> ph[i].Sync?;
    }
  }

  /** In the corrected run (`Intended`), a volume no running container uses
      has no dumps, so it is copied, once (twice in "everything" mode), even
      with `--dump-only-sql`. */
  lemma UnusedVolumeIsCopied(cfg: Config, host: Host, volume: string, hist: seq<Action>)
    requires host.containersOf(volume) == []
    ensures var r := VolumeRoutine(cfg, host, Intended, volume, hist);
            var versionsDir := VersionsDir(cfg.backupsDir, host.machineId, cfg.repoName);
            var dest := Volume.Destination(VolumeDir(VersionDir(versionsDir, host.backupTime), volume));
            r.outcome.Completed? ==>
              Phases(r.log) == (if cfg.everything then [Sync(dest), Sync(dest)] else [Sync(dest)])
  {
    var versionsDir := VersionsDir(cfg.backupsDir, host.machineId, cfg.repoName);
    var volDir := VolumeDir(VersionDir(versionsDir, host.backupTime), volume);
    RoutineDumpProduced(cfg, host, volume, hist);
    VolumePhases(cfg, host, volume, hist);
  }

  /** With no credential rows, no container has anything to dump. */
  lemma {:induction false} NoRowsNoDumps(containers: seq<string>, volDir: string, databaseContainers: seq<string>,
                                         imageOf: string -> string, run: Oracle, hist: seq<Action>)
    ensures var r := DumpsForVolume(containers, volDir, [], databaseContainers, imageOf, run, hist).0;
            r.log == [] && r.outcome.Completed?
    decreases |containers|
  {
    if |containers| > 0 {
      var first := BackupMariadbOrPostgres(containers[0], volDir, [], databaseContainers, imageOf, run, hist);
      NoRowsNoDumps(containers[1..], volDir, databaseContainers, imageOf, run, hist + first.0.log);
    }
  }

  /** With `--dump-only-sql`, a volume that is not fully ignored is copied
      exactly when no dump was produced for it: skipped when its database
      was dumped, backed up as files otherwise. */
  lemma DumpOnlySqlSkipsExactlyDumpedVolumes(cfg: Config, host: Host, volume: string, hist: seq<Action>)
    requires cfg.dumpOnlySql
    requires !VolumeIsFullyIgnored(host.containersOf(volume), cfg.imagesNoBackupRequired, host.imageOf)
    ensures var r := VolumeRoutine(cfg, host, Intended, volume, hist);
            var versionsDir := VersionsDir(cfg.backupsDir, host.machineId, cfg.repoName);
            var dest := Volume.Destination(VolumeDir(VersionDir(versionsDir, host.backupTime), volume));
            r.outcome.Completed? ==> (Phases(r.log) == [] <==> DumpProduced(r.log))
                                     && (!DumpProduced(r.log) ==> Phases(r.log)[0] == Sync(dest))
  {
    VolumePhases(cfg, host, volume, hist);
  }

  /** With an empty `databases.csv`, no dump is produced, so even with
      `--dump-only-sql` every volume gets its usual file backup. */
  lemma EmptyTableFallsBackToFiles(cfg: Config, host: Host, volume: string, hist: seq<Action>)
    requires host.rows == []
    ensures var versionsDir := VersionsDir(cfg.backupsDir, host.machineId, cfg.repoName);
            var volDir := VolumeDir(VersionDir(versionsDir, host.backupTime), volume);
            var containers := host.containersOf(volume);
            var r := VolumeRoutine(cfg, host, Intended, volume, hist);
            r.outcome.Completed? ==>
              Phases(r.log) == PlannedPhases(false,
                                             VolumeIsFullyIgnored(containers, cfg.imagesNoBackupRequired, host.imageOf),
                                             cfg.everything, cfg.shutdown,
                                             RequiresStop(containers, cfg.imagesNoStopRequired, host.imageOf),
                                             containers, Volume.Destination(volDir))
  {
    var versionsDir := VersionsDir(cfg.backupsDir, host.machineId, cfg.repoName);
    var volDir := VolumeDir(VersionDir(versionsDir, host.backupTime), volume);
    var containers := host.containersOf(volume);
    var made := Run([Mkdir(volDir)], Completed);
    NoRowsNoDumps(containers, volDir, cfg.databaseContainers, host.imageOf, host.run, hist + made.log);
    RoutineDumpProduced(cfg, host, volume, hist);
    VolumePhases(cfg, host, volume, hist);
  }

  /** In a volume's loop body, whichever way the dump-only test is read,
      every dump comes before every copy, stop and start. */
  lemma DumpsBeforeFiles(cfg: Config, host: Host, check: DumpOnlyCheck, volume: string, hist: seq<Action>)
    ensures var r := VolumeRoutine(cfg, host, check, volume, hist);
            forall i, j :: 0 <= i < j < |r.log| && IsPhaseAction(r.log[i]) ==> !IsDump(r.log[j])
  {
    var versionsDir := VersionsDir(cfg.backupsDir, host.machineId, cfg.repoName);
    var volDir := VolumeDir(VersionDir(versionsDir, host.backupTime), volume);
    var containers := host.containersOf(volume);
    var made := Run([Mkdir(volDir)], Completed);
    var dumps := DumpsForVolume(containers, volDir, host.rows, cfg.databaseContainers, host.imageOf, host.run, hist + made.log).0;
    var pre := Then(made, dumps);
    var files := FileBackup(cfg, host, SkipFiles(cfg, check, dumps.log), volume, versionsDir, volDir, containers, hist + pre.log);
    assert NoPhaseActions(dumps.log) by {
      forall i | 0 <= i < |dumps.log| ensures !IsPhaseAction(dumps.log[i]) {
        assert DumpPhaseAction(dumps.log[i]);
      }
    }
    ThenNoPhaseActions(made, dumps);
    DumpsBeforePhases(pre, files);
  }

  /** The single-database dumps of a volume's loop body are its plan, in
      container order and then row order: a prefix of it always, and all of
      it when the dumps phase runs to its end. */
  lemma RoutineDumpsFollowPlan(cfg: Config, host: Host, check: DumpOnlyCheck, volume: string, hist: seq<Action>)
    ensures var volDir := VolumeDir(VersionDir(VersionsDir(cfg.backupsDir, host.machineId, cfg.repoName), host.backupTime), volume);
            var plan := VolumePlan(host.containersOf(volume), volDir, host.rows, cfg.databaseContainers, host.imageOf);
            var r := VolumeRoutine(cfg, host, check, volume, hist);
            && Db.SingleDumps(r.log) <= plan
            && (r.outcome.Completed? ==> Db.SingleDumps(r.log) == plan)
  {
    var versionsDir := VersionsDir(cfg.backupsDir, host.machineId, cfg.repoName);
    var volDir := VolumeDir(VersionDir(versionsDir, host.backupTime), volume);
    var containers := host.containersOf(volume);
    var made := Run([Mkdir(volDir)], Completed);
    var dumps := DumpsForVolume(containers, volDir, host.rows, cfg.databaseContainers, host.imageOf, host.run, hist + made.log).0;
    var pre := Then(made, dumps);
    var files := FileBackup(cfg, host, SkipFiles(cfg, check, dumps.log), volume, versionsDir, volDir, containers, hist + pre.log);
    var plan := VolumePlan(containers, volDir, host.rows, cfg.databaseContainers, host.imageOf);
    assert pre.log == made.log + dumps.log;
    Db.SingleDumpsAppend(made.log, dumps.log);
    assert made.log[1..] == [];
    if pre.outcome.Completed? {
      Db.SingleDumpsAppend(pre.log, files.log);
      NoSingleDumps(files.log);
      assert Then(pre, files).log == pre.log + files.log;
    }
  }

  /** A log without dumps has no single-database dumps. */
  lemma {:induction false} NoSingleDumps(log: seq<Action>)
    requires NoDumps(log)
    ensures Db.SingleDumps(log) == []
    decreases |log|
  {
    if |log| > 0 {
      assert !IsDump(log[0]);
      NoSingleDumps(log[1..]);
    }
  }

  /** A stop, copy and restart that raises has started nothing again. */
  lemma StoppedSyncAbortRestartsNothing(cfg: Config, host: Host, volume: string, versionsDir: string, volDir: string,
                                         containers: seq<string>, hist: seq<Action>)
    ensures var r := StoppedSync(cfg, host, volume, versionsDir, volDir, containers, hist);
            r.outcome.Aborted? ==> NoneRestarted(r.log)
  {
    var stop := ChangeContainersStatus(containers, Stop, host.run, hist);
    var sync := SyncVolume(host, versionsDir, volume, volDir, hist + stop.log);
    var start := if cfg.shutdown then Done
                 else ChangeContainersStatus(containers, Start, host.run, hist + stop.log + sync.log);
    assert NoneRestarted(sync.log) by {
      forall i | 0 <= i < |sync.log| ensures !Restarted(sync.log[i]) {
        assert i == 0 || i == 1;
      }
    }
    ThenAbortNoneRestarted(sync, start);
    ThenAbortNoneRestarted(stop, Then(sync, start));
  }

  /** A file backup that raises has started nothing again. */
  lemma FileBackupAbortRestartsNothing(cfg: Config, host: Host, skip: Result<bool, Error>, volume: string,
                                        versionsDir: string, volDir: string, containers: seq<string>, hist: seq<Action>)
    ensures var r := FileBackup(cfg, host, skip, volume, versionsDir, volDir, containers, hist);
            r.outcome.Aborted? ==> NoneRestarted(r.log)
  {
    if skip == Success(false) && !VolumeIsFullyIgnored(containers, cfg.imagesNoBackupRequired, host.imageOf) {
      var live := SyncVolume(host, versionsDir, volume, volDir, hist);
      assert NoneRestarted(live.log) by {
        forall i | 0 <= i < |live.log| ensures !Restarted(live.log[i]) {
          assert i == 0 || i == 1;
        }
      }
      if cfg.everything || RequiresStop(containers, cfg.imagesNoStopRequired, host.imageOf) {
        StoppedSyncAbortRestartsNothing(cfg, host, volume, versionsDir, volDir, containers, hist + live.log);
        ThenAbortNoneRestarted(live, StoppedSync(cfg, host, volume, versionsDir, volDir, containers, hist + live.log));
      }
    }
  }

  /** A volume's loop body that raises starts no container again: the code
      has no `try`/`finally`, so containers stopped for the second copy stay
      stopped when that copy or the start itself fails. */
  lemma AbortLeavesContainersStopped(cfg: Config, host: Host, check: DumpOnlyCheck, volume: string, hist: seq<Action>)
    ensures var r := VolumeRoutine(cfg, host, check, volume, hist);
            r.outcome.Aborted? ==> NoneRestarted(r.log)
  {
    var versionsDir := VersionsDir(cfg.backupsDir, host.machineId, cfg.repoName);
    var volDir := VolumeDir(VersionDir(versionsDir, host.backupTime), volume);
    var containers := host.containersOf(volume);
    var made := Run([Mkdir(volDir)], Completed);
    var dumps := DumpsForVolume(containers, volDir, host.rows, cfg.databaseContainers, host.imageOf, host.run, hist + made.log).0;
    var pre := Then(made, dumps);
    var skip := SkipFiles(cfg, check, dumps.log);
    assert NoneRestarted(pre.log) by {
      forall i | 0 <= i < |pre.log| ensures !Restarted(pre.log[i]) {
        if i > 0 { assert pre.log[i] == dumps.log[i - 1] && DumpPhaseAction(dumps.log[i - 1]); }
      }
    }
    FileBackupAbortRestartsNothing(cfg, host, skip, volume, versionsDir, volDir, containers, hist + pre.log);
    ThenAbortNoneRestarted(pre, FileBackup(cfg, host, skip, volume, versionsDir, volDir, containers, hist + pre.log));
  }

  /** Read as a plain flag, `--dump-only-sql` skips the file backup of every
      volume, whether or not anything was dumped for it. */
  lemma AsFlagCopiesNothing(cfg: Config, host: Host, volume: string, hist: seq<Action>)
    requires cfg.dumpOnlySql
    ensures Phases(VolumeRoutine(cfg, host, AsFlag, volume, hist).log) == []
  {
    var versionsDir := VersionsDir(cfg.backupsDir, host.machineId, cfg.repoName);
    var volDir := VolumeDir(VersionDir(versionsDir, host.backupTime), volume);
    var containers := host.containersOf(volume);
    var made := Run([Mkdir(volDir)], Completed);
    var dumps := DumpsForVolume(containers, volDir, host.rows, cfg.databaseContainers, host.imageOf, host.run, hist + made.log).0;
    var pre := Then(made, dumps);
    DumpsHaveNoPhases(made, dumps);
    ThenPhases(pre, Done);
  }

  /** Read as a plain flag, `--dump-only-sql` leaves a volume no container
      uses without any backup: nothing is dumped and nothing is copied, and
      the loop body still returns normally. With the documented reading the
      same volume is copied (`UnusedVolumeIsCopied`). */
  lemma AsFlagSkipsUnusedVolume(cfg: Config, host: Host, volume: string, hist: seq<Action>)
    requires cfg.dumpOnlySql && host.containersOf(volume) == []
    ensures var r := VolumeRoutine(cfg, host, AsFlag, volume, hist);
            r.outcome.Completed? && !DumpProduced(r.log) && Phases(r.log) == []
  {
    var r := VolumeRoutine(cfg, host, AsFlag, volume, hist);
    assert |r.log| == 1;
    AsFlagCopiesNothing(cfg, host, volume, hist);
  }

  // ---------------------------------------------------------------------
  // The whole run
  // ---------------------------------------------------------------------

  /** The loop of `main` over the volumes. */
  function VolumesLoop(cfg: Config, host: Host, check: DumpOnlyCheck, volumes: seq<string>,
                       hist: seq<Action>): Run
    decreases |volumes|
  {
    if |volumes| == 0 then Done
    else
      var first := VolumeRoutine(cfg, host, check, volumes[0], hist);
      Then(first, VolumesLoop(cfg, host, check, volumes[1..], hist + first.log))
  }

  /** Without `--dump-only-sql`, reading the option by its own name and
      applying the documented rule do the same for a volume: the mode table
      proved for the corrected run holds for the code with the name fixed. */
  lemma FlagAgreesWithoutDumpOnly(cfg: Config, host: Host, volume: string, hist: seq<Action>)
    requires !cfg.dumpOnlySql
    ensures VolumeRoutine(cfg, host, AsFlag, volume, hist) == VolumeRoutine(cfg, host, Intended, volume, hist)
  {
  }

  /** The same for the whole volume loop. */
  lemma {:induction false} FlagLoopAgreesWithoutDumpOnly(cfg: Config, host: Host, volumes: seq<string>, hist: seq<Action>)
    requires !cfg.dumpOnlySql
    ensures VolumesLoop(cfg, host, AsFlag, volumes, hist) == VolumesLoop(cfg, host, Intended, volumes, hist)
    decreases |volumes|
  {
    if |volumes| > 0 {
      var first := VolumeRoutine(cfg, host, Intended, volumes[0], hist);
      FlagAgreesWithoutDumpOnly(cfg, host, volumes[0], hist);
      FlagLoopAgreesWithoutDumpOnly(cfg, host, volumes[1..], hist + first.log);
    }
  }

  /** `main`: create the version directory, run the loop, then the compose
      step. */
  function MainWith(cfg: Config, host: Host, check: DumpOnlyCheck): Run {
    var versionDir := VersionDir(VersionsDir(cfg.backupsDir, host.machineId, cfg.repoName), host.backupTime);
    var made := Run([Mkdir(versionDir)], Completed);
    var volumes := VolumesLoop(cfg, host, check, host.volumes, made.log);
    var pre := Then(made, volumes);
    Then(pre, Compose.HandleComposeServices(cfg.composeDir, cfg.hardRestartRequired, host.compose, host.run, pre.log))
  }

  /** The value of a parsed option: a switch, a path or name, or a list of
      names. */
  datatype Value = Flag(flag: bool) | Text(text: string) | Names(names: seq<string>)

  /** The `dest` of every option `parse_args` defines. */
  const ParserDests: set<string> := {
    "compose_dir", "docker_compose_hard_restart_required", "repo_name", "databases_csv", "backups_dir",
    "database_containers", "images_no_stop_required", "images_no_backup_required",
    "everything", "shutdown", "dump_only_sql"}

  /** The namespace `parse_args` returns, attribute by attribute. */
  function Namespace(cfg: Config): map<string, Value> {
    map["compose_dir" := Text(cfg.composeDir),
        "docker_compose_hard_restart_required" := Names(cfg.hardRestartRequired),
        "repo_name" := Text(cfg.repoName),
        "databases_csv" := Text(cfg.databasesCsv),
        "backups_dir" := Text(cfg.backupsDir),
        "database_containers" := Names(cfg.databaseContainers),
        "images_no_stop_required" := Names(cfg.imagesNoStopRequired),
        "images_no_backup_required" := Names(cfg.imagesNoBackupRequired),
        "everything" := Flag(cfg.everything),
        "shutdown" := Flag(cfg.shutdown),
        "dump_only_sql" := Flag(cfg.dumpOnlySql)]
  }

  /** `args.<name>`: succeeds exactly for the options the parser defines,
      the switches reading back as given, and raises for any other name. */
  function Attribute(cfg: Config, name: string): (r: Result<Value, Error>)
    ensures r.Success? <==> name in ParserDests
    ensures r.Failure? ==> r.error == MissingAttribute(name)
    ensures name == "everything" ==> r == Success(Flag(cfg.everything))
    ensures name == "shutdown" ==> r == Success(Flag(cfg.shutdown))
    ensures name == "dump_only_sql" ==> r == Success(Flag(cfg.dumpOnlySql))
  {
    var ns := Namespace(cfg);
    if name in ns then Success(ns[name]) else Failure(MissingAttribute(name))
  }

  /** Python's truth value of an attribute used as an `if` condition; a
      raised exception passes through. */
  function Truth(a: Result<Value, Error>): Result<bool, Error> {
    match a
    case Failure(e) => Failure(e)
    case Success(Flag(b)) => Success(b)
    case Success(Text(t)) => Success(t != "")
    case Success(Names(ns)) => Success(|ns| > 0)
  }

  /** `main` as written: the dump-only test reads `args.dump_only`, a name
      the parser never defines. */
  function MainAsWritten(cfg: Config, host: Host): Run {
    MainWith(cfg, host, AsWritten)
  }

  /** `main` with `--dump-only-sql` as documented: a volume's file backup is
      skipped when a dump was produced for it. */
  function Main(cfg: Config, host: Host): Run {
    MainWith(cfg, host, Intended)
  }

  /** Without `--dump-only-sql`, `main` with the option read by its own name
      is the corrected `main`. */
  lemma FlagMainAgreesWithoutDumpOnly(cfg: Config, host: Host)
    requires !cfg.dumpOnlySql
    ensures MainWith(cfg, host, AsFlag) == Main(cfg, host)
  {
    var versionDir := VersionDir(VersionsDir(cfg.backupsDir, host.machineId, cfg.repoName), host.backupTime);
    FlagLoopAgreesWithoutDumpOnly(cfg, host, host.volumes, [Mkdir(versionDir)]);
  }

  /** When every command succeeds, the dumps of a volume all run. */
  lemma {:induction false} DumpsForVolumeSucceed(containers: seq<string>, volDir: string, rows: seq<CredentialRow>,
                                                  databaseContainers: seq<string>, imageOf: string -> string,
                                                  run: Oracle, hist: seq<Action>)
    requires AllSucceed(run)
    ensures DumpsForVolume(containers, volDir, rows, databaseContainers, imageOf, run, hist).0.outcome.Completed?
    decreases |containers|
  {
    if |containers| > 0 {
      var c := containers[0];
      var first := BackupMariadbOrPostgres(c, volDir, rows, databaseContainers, imageOf, run, hist);
      if IsDbImage(imageOf(c)) {
        var engine := if Contains(imageOf(c), "mariadb") then Db.MariaDB else Db.Postgres;
        Db.BackupDatabaseSucceeds(c, volDir, engine, rows, databaseContainers, run, hist);
      }
      DumpsForVolumeSucceed(containers[1..], volDir, rows, databaseContainers, imageOf, run, hist + first.0.log);
    }
  }

  /** As written, a volume's loop body makes its directory and dumps, then
      reading `args.dump_only` raises, before any copy, stop or start. */
  lemma UnreadableFlagAborts(cfg: Config, host: Host, volume: string, hist: seq<Action>)
    ensures var r := VolumeRoutine(cfg, host, AsWritten, volume, hist);
            r.outcome.Aborted? && (forall i :: 0 <= i < |r.log| ==> DumpPhaseAction(r.log[i]))
            && (AllSucceed(host.run) ==> r.outcome == Aborted(MissingAttribute("dump_only")))
  {
    var versionsDir := VersionsDir(cfg.backupsDir, host.machineId, cfg.repoName);
    var volDir := VolumeDir(VersionDir(versionsDir, host.backupTime), volume);
    var containers := host.containersOf(volume);
    var made := Run([Mkdir(volDir)], Completed);
    var dumps := DumpsForVolume(containers, volDir, host.rows, cfg.databaseContainers, host.imageOf, host.run, hist + made.log).0;
    var r := VolumeRoutine(cfg, host, AsWritten, volume, hist);
    forall i | 0 <= i < |r.log| ensures DumpPhaseAction(r.log[i]) {
      if i > 0 { assert r.log[i] == dumps.log[i - 1]; }
    }
    if AllSucceed(host.run) {
      DumpsForVolumeSucceed(containers, volDir, host.rows, cfg.databaseContainers, host.imageOf, host.run, hist + made.log);
    }
  }

  /** As written, the run never gets past the first volume: after its
      directory and dumps, reading `args.dump_only` raises, so no file is
      copied, no container is stopped, and the compose step never runs. When
      every command succeeds, that missing attribute is what ends the run. */
  lemma AsWrittenStopsAtFirstVolume(cfg: Config, host: Host)
    requires |host.volumes| > 0
    ensures var r := MainAsWritten(cfg, host);
            r.outcome.Aborted? && Phases(r.log) == []
            && (forall i :: 0 <= i < |r.log| ==> !(r.log[i].Exec? && r.log[i].cmd.Compose?))
    ensures AllSucceed(host.run) ==> MainAsWritten(cfg, host).outcome == Aborted(MissingAttribute("dump_only"))
  {
    var versionDir := VersionDir(VersionsDir(cfg.backupsDir, host.machineId, cfg.repoName), host.backupTime);
    var made := Run([Mkdir(versionDir)], Completed);
    var first := VolumeRoutine(cfg, host, AsWritten, host.volumes[0], made.log);
    UnreadableFlagAborts(cfg, host, host.volumes[0], made.log);
    var volumes := VolumesLoop(cfg, host, AsWritten, host.volumes, made.log);
    assert volumes == first;
    var compose := Compose.HandleComposeServices(cfg.composeDir, cfg.hardRestartRequired, host.compose, host.run,
                                                 Then(made, volumes).log);
    AbortedBeforeCompose(made, first, compose);
  }

  /** The parser defines no option `dump_only`, so reading it raises. */
  lemma DumpOnlyIsMissing(cfg: Config)
    ensures "dump_only" !in ParserDests
    ensures Attribute(cfg, "dump_only") == Failure(MissingAttribute("dump_only"))
  {
    assert "dump_only" != "dump_only_sql" by { assert |"dump_only"| != |"dump_only_sql"|; }
  }

  /** A run that aborts in its first volume with only directories and dumps
      done never reaches a copy, a stop, a start or the compose step. */
  lemma AbortedBeforeCompose(made: Run, first: Run, compose: Run)
    requires |made.log| == 1 && made.log[0].Mkdir? && made.outcome.Completed?
    requires first.outcome.Aborted?
    requires forall i :: 0 <= i < |first.log| ==> DumpPhaseAction(first.log[i])
    ensures var r := Then(Then(made, first), compose);
            r.outcome == first.outcome && Phases(r.log) == []
            && (forall i :: 0 <= i < |r.log| ==> !(r.log[i].Exec? && r.log[i].cmd.Compose?))
  {
    var r := Then(Then(made, first), compose);
    assert r.log == made.log + first.log;
    forall i | 0 <= i < |r.log| ensures DumpPhaseAction(r.log[i]) {
      if i > 0 { assert r.log[i] == first.log[i - 1]; }
    }
    NoPhases(r.log);
  }

  lemma SyncSucceeds(host: Host, versionsDir: string, volume: string, volDir: string, hist: seq<Action>)
    requires AllSucceed(host.run)
    ensures SyncVolume(host, versionsDir, volume, volDir, hist).outcome.Completed?
  {
  }

  lemma FileBackupSucceeds(cfg: Config, host: Host, skip: bool, volume: string,
                           versionsDir: string, volDir: string, containers: seq<string>, hist: seq<Action>)
    requires AllSucceed(host.run)
    ensures FileBackup(cfg, host, Success(skip), volume, versionsDir, volDir, containers, hist).outcome.Completed?
  {
    if !skip && !VolumeIsFullyIgnored(containers, cfg.imagesNoBackupRequired, host.imageOf) {
      var live := SyncVolume(host, versionsDir, volume, volDir, hist);
      SyncSucceeds(host, versionsDir, volume, volDir, hist);
      StoppedSyncSucceeds(cfg, host, volume, versionsDir, volDir, containers, hist + live.log);
    }
  }

  lemma StoppedSyncSucceeds(cfg: Config, host: Host, volume: string, versionsDir: string, volDir: string,
                            containers: seq<string>, hist: seq<Action>)
    requires AllSucceed(host.run)
    ensures StoppedSync(cfg, host, volume, versionsDir, volDir, containers, hist).outcome.Completed?
  {
    var stop := ChangeContainersStatus(containers, Stop, host.run, hist);
    SyncSucceeds(host, versionsDir, volume, volDir, hist + stop.log);
  }

  /** When every command succeeds, one volume's loop body runs to its end. */
  lemma VolumeRoutineSucceeds(cfg: Config, host: Host, volume: string, hist: seq<Action>)
    requires AllSucceed(host.run)
    ensures VolumeRoutine(cfg, host, Intended, volume, hist).outcome.Completed?
  {
    var versionsDir := VersionsDir(cfg.backupsDir, host.machineId, cfg.repoName);
    var volDir := VolumeDir(VersionDir(versionsDir, host.backupTime), volume);
    var containers := host.containersOf(volume);
    var made := Run([Mkdir(volDir)], Completed);
    var dumps := DumpsForVolume(containers, volDir, host.rows, cfg.databaseContainers, host.imageOf, host.run, hist + made.log).0;
    DumpsForVolumeSucceed(containers, volDir, host.rows, cfg.databaseContainers, host.imageOf, host.run, hist + made.log);
    var pre := Then(made, dumps);
    FileBackupSucceeds(cfg, host, SkipFiles(cfg, Intended, dumps.log).value, volume, versionsDir, volDir, containers, hist + pre.log);
  }

  lemma {:induction false} VolumesLoopSucceeds(cfg: Config, host: Host, volumes: seq<string>, hist: seq<Action>)
    requires AllSucceed(host.run)
    ensures VolumesLoop(cfg, host, Intended, volumes, hist).outcome.Completed?
    decreases |volumes|
  {
    if |volumes| > 0 {
      var first := VolumeRoutine(cfg, host, Intended, volumes[0], hist);
      VolumeRoutineSucceeds(cfg, host, volumes[0], hist);
      VolumesLoopSucceeds(cfg, host, volumes[1..], hist + first.log);
    }
  }

  /** A run in which every command succeeds ends normally exactly when no
      hard restart is due or a compose tool is on the PATH; otherwise it ends
      for want of a compose tool. */
  lemma MainSucceeds(cfg: Config, host: Host)
    requires AllSucceed(host.run)
    ensures var r := Main(cfg, host);
            var c := host.compose;
            && (r.outcome.Completed? <==>
                  Compose.Found(c.which("compose")) || Compose.Found(c.which("docker"))
                  || |Compose.SelectedDirs(cfg.composeDir, cfg.hardRestartRequired, c.files, c.entries)| == 0)
            && (r.outcome.Aborted? ==> r.outcome == Aborted(NoComposeTool))
  {
    var versionDir := VersionDir(VersionsDir(cfg.backupsDir, host.machineId, cfg.repoName), host.backupTime);
    var made := Run([Mkdir(versionDir)], Completed);
    var volumes := VolumesLoop(cfg, host, Intended, host.volumes, made.log);
    VolumesLoopSucceeds(cfg, host, host.volumes, made.log);
    var pre := Then(made, volumes);
    Compose.ComposeStepSucceeds(cfg.composeDir, cfg.hardRestartRequired, host.compose, host.compose.entries, host.run, pre.log);
  }
}
