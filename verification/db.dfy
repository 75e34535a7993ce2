/** The database dump dispatcher: deriving the instance key of a container,
    and planning one dump per credential row with the pg_dumpall fallback. */
module Db {
  import opened Text
  import opened PosixPath
  import opened Actions
  import opened Credentials

  datatype Engine = MariaDB | Postgres

  /** Position `i` starts a match of the regular expression
      `(_|-)(database|db|postgres)`. */
  predicate MarkerAt(s: string, i: nat) {
    i < |s| && (s[i] == '_' || s[i] == '-')
    && (OccursAt(s, "database", i + 1) || OccursAt(s, "db", i + 1) || OccursAt(s, "postgres", i + 1))
  }

  /** The prefix of `s` before the first marker at or after `i`. */
  function CutAtMarker(s: string, i: nat): (r: string)
    requires i <= |s|
    ensures i <= |r| <= |s| && r == s[..|r|]
    ensures forall j :: i <= j < |r| ==> !MarkerAt(s, j)
    ensures |r| == |s| || MarkerAt(s, |r|)
    decreases |s| - i
  {
    if i == |s| then s
    else if MarkerAt(s, i) then s[..i]
    else CutAtMarker(s, i + 1)
  }

  /** `get_instance(container, database_containers)`: a listed container is
      its own instance; otherwise the name is cut at the first `_` or `-`
      followed by `database`, `db` or `postgres`, i.e. `re.split(...)[0]`. */
  function GetInstance(container: string, databaseContainers: seq<string>): (r: string)
    ensures container in databaseContainers ==> r == container
    ensures |r| <= |container| && r == container[..|r|]
    ensures container !in databaseContainers ==>
              (forall j :: 0 <= j < |r| ==> !MarkerAt(container, j))
              && (|r| == |container| || MarkerAt(container, |r|))
  {
    if container in databaseContainers then container else CutAtMarker(container, 0)
  }

  /** `os.path.join(volume_dir, "sql")` */
  function SqlDir(volDir: string): string {
    Join(volDir, "sql")
  }

  /** `<out_dir>/<database>.backup.sql` */
  function DumpFile(outDir: string, database: string): string {
    Join(outDir, database + ".backup.sql")
  }

  /** `<out_dir>/<instance>.cluster.backup.sql` */
  function ClusterFile(outDir: string, instance: string): string {
    Join(outDir, instance + ".cluster.backup.sql")
  }

  function MariaCmd(container: string, outDir: string, row: CredentialRow): Command {
    MariadbDump(container, row.username, row.password, row.database, DumpFile(outDir, row.database))
  }

  function PgCmd(container: string, outDir: string, row: CredentialRow): Command {
    PgDump(container, row.username, row.password, row.database, DumpFile(outDir, row.database))
  }

  /** `fallback_pg_dumpall` for the credentials of `row`. */
  function ClusterCmd(container: string, instance: string, outDir: string, row: CredentialRow): Command {
    PgDumpAll(container, row.username, row.password, ClusterFile(outDir, instance))
  }

  /** One postgres row with a database name: pg_dump, and on its failure a
      pg_dumpall into the cluster file, whose own failure raises. */
  function PgSingle(container: string, instance: string, outDir: string, row: CredentialRow,
                    run: Oracle, hist: seq<Action>): (r: Run)
    ensures 1 <= |r.log| <= 2
    ensures r.log[0].Exec? && r.log[0].cmd == PgCmd(container, outDir, row)
    ensures |r.log| == 2 <==> r.log[0].result.Failed?
    ensures |r.log| == 2 ==> r.log[1].Exec? && r.log[1].cmd == ClusterCmd(container, instance, outDir, row)
    ensures r.outcome.Aborted? <==> |r.log| == 2 && r.log[1].result.Failed?
    ensures FallbackFollows(r.log, instance, outDir)
    ensures ClusterOnlyAfterFailure(r.log)
    ensures SingleDumps(r.log) == [PgCmd(container, outDir, row)]
  {
    var cmd := PgCmd(container, outDir, row);
    var res := run(hist, cmd);
    if res.Succeeded? then Run([Exec(cmd, res)], Completed)
    else
      var fallback := Step(ClusterCmd(container, instance, outDir, row), run, hist + [Exec(cmd, res)]);
      var log := [Exec(cmd, res)] + fallback.log;
      assert log[1..][1..] == [] && SingleDumps(log[1..]) == SingleDumps([]);
      Run(log, fallback.outcome)
  }

  /** The loop over the matching rows in `backup_database`. */
  function DumpRows(container: string, instance: string, outDir: string, engine: Engine,
                    rows: seq<CredentialRow>, run: Oracle, hist: seq<Action>): Run
    decreases |rows|
  {
    if |rows| == 0 then Done
    else match engine
      case MariaDB =>
        var first := Step(MariaCmd(container, outDir, rows[0]), run, hist);
        Then(first, DumpRows(container, instance, outDir, engine, rows[1..], run, hist + first.log))
      case Postgres =>
        if rows[0].database == "" then
          Step(ClusterCmd(container, instance, outDir, rows[0]), run, hist)
        else
          var first := PgSingle(container, instance, outDir, rows[0], run, hist);
          Then(first, DumpRows(container, instance, outDir, engine, rows[1..], run, hist + first.log))
  }

  /** `backup_database`: nothing at all when no row names the container's
      instance; otherwise create `sql/` and dump the matching rows. */
  function BackupDatabase(container: string, volDir: string, engine: Engine, rows: seq<CredentialRow>,
                          databaseContainers: seq<string>, run: Oracle, hist: seq<Action>): (r: Run)
    ensures var entries := EntriesFor(rows, GetInstance(container, databaseContainers));
            (|entries| == 0 <==> r.log == [])
            && (|entries| == 0 ==> r.outcome.Completed?)
            && (|entries| > 0 ==> r.log[0] == Mkdir(SqlDir(volDir)))
  {
    var instance := GetInstance(container, databaseContainers);
    var entries := EntriesFor(rows, instance);
    if |entries| == 0 then Done
    else
      var outDir := SqlDir(volDir);
      var made := Run([Mkdir(outDir)], Completed);
      Then(made, DumpRows(container, instance, outDir, engine, entries, run, hist + made.log))
  }

  // ---------------------------------------------------------------------
  // Properties of the dump loop
  // ---------------------------------------------------------------------

  /** `a` is a dump command of `container` for one of `rows`: its credentials
      come from a row, a single-database dump writes that row's
      `<database>.backup.sql`, and a cluster dump writes the instance's
      cluster file. Mariadb rows only ever give mariadb-dump, postgres rows
      only pg_dump and pg_dumpall. */
  predicate DumpOfRows(a: Action, container: string, instance: string, outDir: string, engine: Engine,
                       rows: seq<CredentialRow>) {
    a.Exec? &&
    match a.cmd
    case MariadbDump(c, u, p, db, f) =>
      engine == MariaDB && c == container && CredentialRow(instance, db, u, p) in rows && f == DumpFile(outDir, db)
    case PgDump(c, u, p, db, f) =>
      engine == Postgres && c == container && CredentialRow(instance, db, u, p) in rows && f == DumpFile(outDir, db)
    case PgDumpAll(c, u, p, f) =>
      engine == Postgres && c == container && f == ClusterFile(outDir, instance)
      && exists row :: row in rows && row.instance == instance && row.username == u && row.password == p
    case _ => false
  }

  predicate AllDumpsOfRows(log: seq<Action>, container: string, instance: string, outDir: string, engine: Engine,
                          rows: seq<CredentialRow>) {
    forall i :: 0 <= i < |log| ==> DumpOfRows(log[i], container, instance, outDir, engine, rows)
  }

  lemma {:induction false} DumpRowsOnlyDumpRows(container: string, instance: string, outDir: string, engine: Engine,
                                                 rows: seq<CredentialRow>, run: Oracle, hist: seq<Action>)
    requires forall row :: row in rows ==> row.instance == instance
    ensures AllDumpsOfRows(DumpRows(container, instance, outDir, engine, rows, run, hist).log, container, instance, outDir, engine, rows)
    decreases |rows|
  {
    if |rows| > 0 {
      var row := rows[0];
      assert row in rows;
      if engine == Postgres && row.database == "" {
        FirstRowDumps(Step(ClusterCmd(container, instance, outDir, row), run, hist), container, instance, outDir, engine, rows);
      } else {
        var first := if engine == MariaDB then Step(MariaCmd(container, outDir, row), run, hist)
                     else PgSingle(container, instance, outDir, row, run, hist);
        var rest := DumpRows(container, instance, outDir, engine, rows[1..], run, hist + first.log);
        assert DumpRows(container, instance, outDir, engine, rows, run, hist) == Then(first, rest);
        DumpRowsOnlyDumpRows(container, instance, outDir, engine, rows[1..], run, hist + first.log);
        AllDumpsOfMoreRows(rest.log, container, instance, outDir, engine, rows[1..], rows);
        FirstRowDumps(first, container, instance, outDir, engine, rows);
        ThenAllDumps(first, rest, container, instance, outDir, engine, rows);
      }
    }
  }

  /** The commands the loop runs for the first row are dumps of that row. */
  lemma FirstRowDumps(first: Run, container: string, instance: string, outDir: string, engine: Engine,
                      rows: seq<CredentialRow>)
    requires |rows| > 0 && rows[0].instance == instance
    requires forall i :: 0 <= i < |first.log| ==>
               first.log[i].Exec?
               && first.log[i].cmd in {MariaCmd(container, outDir, rows[0]), PgCmd(container, outDir, rows[0]),
                                       ClusterCmd(container, instance, outDir, rows[0])}
               && (first.log[i].cmd.MariadbDump? <==> engine == MariaDB)
    ensures AllDumpsOfRows(first.log, container, instance, outDir, engine, rows)
  {
    var row := rows[0];
    assert row in rows && row == CredentialRow(instance, row.database, row.username, row.password);
  }

  lemma ThenAllDumps(first: Run, rest: Run, container: string, instance: string, outDir: string, engine: Engine,
                     rows: seq<CredentialRow>)
    requires AllDumpsOfRows(first.log, container, instance, outDir, engine, rows)
    requires AllDumpsOfRows(rest.log, container, instance, outDir, engine, rows)
    ensures AllDumpsOfRows(Then(first, rest).log, container, instance, outDir, engine, rows)
  {
    var log := Then(first, rest).log;
    forall i | |first.log| <= i < |log| ensures log[i] == rest.log[i - |first.log|] { }
  }

  lemma AllDumpsOfMoreRows(log: seq<Action>, container: string, instance: string, outDir: string, engine: Engine,
                           fewer: seq<CredentialRow>, rows: seq<CredentialRow>)
    requires forall row :: row in fewer ==> row in rows
    requires AllDumpsOfRows(log, container, instance, outDir, engine, fewer)
    ensures AllDumpsOfRows(log, container, instance, outDir, engine, rows)
  {
    forall i | 0 <= i < |log|
      ensures DumpOfRows(log[i], container, instance, outDir, engine, rows)
    {
      DumpOfMoreRows(log[i], container, instance, outDir, engine, fewer, rows);
    }
  }

  lemma DumpOfMoreRows(a: Action, container: string, instance: string, outDir: string, engine: Engine,
                       fewer: seq<CredentialRow>, rows: seq<CredentialRow>)
    requires forall row :: row in fewer ==> row in rows
    requires DumpOfRows(a, container, instance, outDir, engine, fewer)
    ensures DumpOfRows(a, container, instance, outDir, engine, rows)
  {
    if a.cmd.PgDumpAll? {
      var row :| row in fewer && row.instance == instance && row.username == a.cmd.user && row.password == a.cmd.password;
      assert row in rows;
    }
  }

  /** Every action is a launched command, and the first `n` succeeded. */
  predicate SucceededBefore(log: seq<Action>, n: int) {
    forall i :: 0 <= i < |log| ==> log[i].Exec? && (i < n ==> log[i].result.Succeeded?)
  }

  /** The `i`-th action is the mariadb-dump of the `i`-th row. */
  predicate MariaLog(log: seq<Action>, container: string, outDir: string, rows: seq<CredentialRow>) {
    |log| <= |rows| && forall i :: 0 <= i < |log| ==> log[i].Exec? && log[i].cmd == MariaCmd(container, outDir, rows[i])
  }

  /** What a run of the dump loop over MariaDB rows looks like: one
      mariadb-dump per row in table order, every one but the last
      succeeded; the loop completes exactly when every row got its dump and
      all succeeded, and otherwise ends on the failed one. */
  predicate MariaRun(r: Run, container: string, outDir: string, rows: seq<CredentialRow>) {
    && MariaLog(r.log, container, outDir, rows)
    && SucceededBefore(r.log, |r.log| - 1)
    && (r.outcome.Completed? <==> |r.log| == |rows| && SucceededBefore(r.log, |r.log|))
    && (r.outcome.Aborted? ==> |r.log| > 0 && r.log[|r.log| - 1].result.Failed?)
  }

  /** MariaDB rows: exactly one mariadb-dump per row in table order, with no
      fallback; the first failure raises and ends the loop. */
  lemma {:induction false} MariadbOneDumpPerRow(container: string, instance: string, outDir: string,
                                                 rows: seq<CredentialRow>, run: Oracle, hist: seq<Action>)
    ensures MariaRun(DumpRows(container, instance, outDir, MariaDB, rows, run, hist), container, outDir, rows)
    decreases |rows|
  {
    if |rows| > 0 {
      var first := Step(MariaCmd(container, outDir, rows[0]), run, hist);
      var rest := DumpRows(container, instance, outDir, MariaDB, rows[1..], run, hist + first.log);
      MariadbOneDumpPerRow(container, instance, outDir, rows[1..], run, hist + first.log);
      MariaCons(first, rest, container, outDir, rows);
    }
  }

  /** One more row in front of a MariaDB loop run. */
  lemma MariaCons(first: Run, rest: Run, container: string, outDir: string, rows: seq<CredentialRow>)
    requires |rows| > 0
    requires |first.log| == 1 && first.log[0].Exec? && first.log[0].cmd == MariaCmd(container, outDir, rows[0])
    requires first.outcome.Completed? <==> first.log[0].result.Succeeded?
    requires MariaRun(rest, container, outDir, rows[1..])
    ensures MariaRun(Then(first, rest), container, outDir, rows)
  {
    var r := Then(first, rest);
    if first.outcome.Completed? {
      assert r.log == first.log + rest.log;
      forall i | 1 <= i < |r.log| ensures r.log[i] == rest.log[i - 1] && rows[i] == rows[1..][i - 1] { }
    }
  }

  /** The rows up to (not including) the first one with an empty database. */
  function UntilEmpty(rows: seq<CredentialRow>): (r: seq<CredentialRow>)
    ensures |r| <= |rows| && r == rows[..|r|]
    ensures forall i :: 0 <= i < |r| ==> r[i].database != ""
    ensures |r| == |rows| || rows[|r|].database == ""
    decreases |rows|
  {
    if |rows| == 0 || rows[0].database == "" then []
    else [rows[0]] + UntilEmpty(rows[1..])
  }

  /** The single-database dumps (mariadb-dump and pg_dump) of a log, in
      order; directory creations and cluster dumps are dropped. */
  function SingleDumps(log: seq<Action>): seq<Command>
    decreases |log|
  {
    if |log| == 0 then []
    else if log[0].Exec? && (log[0].cmd.MariadbDump? || log[0].cmd.PgDump?) then [log[0].cmd] + SingleDumps(log[1..])
    else SingleDumps(log[1..])
  }

  lemma {:induction false} SingleDumpsAppend(a: seq<Action>, b: seq<Action>)
    ensures SingleDumps(a + b) == SingleDumps(a) + SingleDumps(b)
    decreases |a|
  {
    if |a| == 0 {
      assert a + b == b;
    } else {
      assert (a + b)[0] == a[0] && (a + b)[1..] == a[1..] + b;
      SingleDumpsAppend(a[1..], b);
    }
  }

  /** The pg_dump commands the rows ask for, one per row. */
  function PgPlan(container: string, outDir: string, rows: seq<CredentialRow>): seq<Command>
    decreases |rows|
  {
    if |rows| == 0 then [] else [PgCmd(container, outDir, rows[0])] + PgPlan(container, outDir, rows[1..])
  }

  /** Every failed pg_dump is followed at once by the pg_dumpall of the same
      credentials into the instance's cluster file. */
  predicate FallbackFollows(log: seq<Action>, instance: string, outDir: string) {
    forall i :: 0 <= i < |log| && log[i].Exec? && log[i].cmd.PgDump? && log[i].result.Failed? ==>
      i + 1 < |log| && log[i + 1].Exec?
      && log[i + 1].cmd == PgDumpAll(log[i].cmd.container, log[i].cmd.user, log[i].cmd.password, ClusterFile(outDir, instance))
  }

  /** The pg_dumpall at `i` is the fallback of the failed pg_dump right
      before it, with the same container and credentials. */
  predicate ClusterAfterFailure(log: seq<Action>, i: int) {
    0 < i < |log| && log[i].Exec? && log[i].cmd.PgDumpAll?
    && log[i - 1].Exec? && log[i - 1].cmd.PgDump? && log[i - 1].result.Failed?
    && log[i - 1].cmd.container == log[i].cmd.container
    && log[i - 1].cmd.user == log[i].cmd.user && log[i - 1].cmd.password == log[i].cmd.password
  }

  /** Every pg_dumpall is the fallback of a failed pg_dump. */
  predicate ClusterOnlyAfterFailure(log: seq<Action>) {
    forall i :: 0 <= i < |log| && log[i].Exec? && log[i].cmd.PgDumpAll? ==> ClusterAfterFailure(log, i)
  }

  /** Every pg_dumpall is the fallback of a failed pg_dump, except that the
      very last action may be the pg_dumpall of a row without a database. */
  predicate ClusterOnlyAsFallback(log: seq<Action>) {
    forall i :: 0 <= i < |log| && log[i].Exec? && log[i].cmd.PgDumpAll? ==>
      ClusterAfterFailure(log, i) || i == |log| - 1
  }

  lemma ClusterOnlyAsFallbackAppend(a: seq<Action>, b: seq<Action>)
    requires ClusterOnlyAfterFailure(a) && ClusterOnlyAsFallback(b)
    ensures ClusterOnlyAsFallback(a + b)
  {
    var ab := a + b;
    forall i | 0 <= i < |ab| && ab[i].Exec? && ab[i].cmd.PgDumpAll?
      ensures ClusterAfterFailure(ab, i) || i == |ab| - 1
    {
      if i < |a| {
        assert a[i] == ab[i];
        assert ClusterAfterFailure(a, i);
        assert a[i - 1] == ab[i - 1];
      } else {
        var j := i - |a|;
        assert b[j] == ab[i];
        if j == |b| - 1 {
        } else {
          assert ClusterAfterFailure(b, j);
          assert b[j - 1] == ab[i - 1];
        }
      }
    }
  }

  lemma FallbackFollowsAppend(a: seq<Action>, b: seq<Action>, instance: string, outDir: string)
    requires FallbackFollows(a, instance, outDir) && FallbackFollows(b, instance, outDir)
    ensures FallbackFollows(a + b, instance, outDir)
  {
    forall i | 0 <= i < |a + b| && (a + b)[i].Exec? && (a + b)[i].cmd.PgDump? && (a + b)[i].result.Failed?
      ensures i + 1 < |a + b| && (a + b)[i + 1].Exec?
      ensures (a + b)[i + 1].cmd == PgDumpAll((a + b)[i].cmd.container, (a + b)[i].cmd.user, (a + b)[i].cmd.password, ClusterFile(outDir, instance))
    {
      if i < |a| { assert a[i] == (a + b)[i]; } else { assert b[i - |a|] == (a + b)[i]; }
    }
  }

  /** PostgreSQL rows, when the loop runs to its end: one pg_dump per row in
      table order up to the first row with an empty database, and nothing for
      the rows after it. */
  lemma {:induction false} PostgresDumpsUntilEmptyRow(container: string, instance: string, outDir: string,
                                                       rows: seq<CredentialRow>, run: Oracle, hist: seq<Action>)
    ensures var r := DumpRows(container, instance, outDir, Postgres, rows, run, hist);
            r.outcome.Completed? ==> SingleDumps(r.log) == PgPlan(container, outDir, UntilEmpty(rows))
    decreases |rows|
  {
    var r := DumpRows(container, instance, outDir, Postgres, rows, run, hist);
    if |rows| > 0 && rows[0].database != "" {
      var first := PgSingle(container, instance, outDir, rows[0], run, hist);
      var rest := DumpRows(container, instance, outDir, Postgres, rows[1..], run, hist + first.log);
      PostgresDumpsUntilEmptyRow(container, instance, outDir, rows[1..], run, hist + first.log);
      assert r == Then(first, rest);
      if r.outcome.Completed? {
        SingleDumpsAppend(first.log, rest.log);
      }
    }
  }

  /** PostgreSQL rows: a failed pg_dump always falls back to pg_dumpall into
      the cluster file; a pg_dumpall is run only as that fallback or, as the
      last action, for the row without a database; and only a failed
      pg_dumpall ends the loop early. */
  lemma {:induction false} PostgresFallback(container: string, instance: string, outDir: string,
                                             rows: seq<CredentialRow>, run: Oracle, hist: seq<Action>)
    ensures var r := DumpRows(container, instance, outDir, Postgres, rows, run, hist);
            && FallbackFollows(r.log, instance, outDir)
            && ClusterOnlyAsFallback(r.log)
            && (r.outcome.Aborted? ==> |r.log| > 0 && r.log[|r.log| - 1].Exec?
                                       && r.log[|r.log| - 1].cmd.PgDumpAll? && r.log[|r.log| - 1].result.Failed?)
    decreases |rows|
  {
    var r := DumpRows(container, instance, outDir, Postgres, rows, run, hist);
    if |rows| > 0 && rows[0].database != "" {
      var first := PgSingle(container, instance, outDir, rows[0], run, hist);
      var rest := DumpRows(container, instance, outDir, Postgres, rows[1..], run, hist + first.log);
      PostgresFallback(container, instance, outDir, rows[1..], run, hist + first.log);
      assert r == Then(first, rest);
      if first.outcome.Completed? {
        FallbackFollowsAppend(first.log, rest.log, instance, outDir);
        ClusterOnlyAsFallbackAppend(first.log, rest.log);
        if r.outcome.Aborted? {
          assert r.log[|r.log| - 1] == rest.log[|rest.log| - 1];
        }
      }
    }
  }

  /** PostgreSQL rows, when the loop runs to its end and some row has an empty
      database: the last thing done is the successful pg_dumpall with that
      row's credentials, so no later row is processed. */
  lemma {:induction false} PostgresEmptyRowStops(container: string, instance: string, outDir: string,
                                                  rows: seq<CredentialRow>, run: Oracle, hist: seq<Action>)
    requires |UntilEmpty(rows)| < |rows|
    ensures var r := DumpRows(container, instance, outDir, Postgres, rows, run, hist);
            r.outcome.Completed? ==>
              |r.log| > 0 && r.log[|r.log| - 1] == Exec(ClusterCmd(container, instance, outDir, rows[|UntilEmpty(rows)|]), Succeeded)
    decreases |rows|
  {
    if rows[0].database != "" {
      var first := PgSingle(container, instance, outDir, rows[0], run, hist);
      var rest := DumpRows(container, instance, outDir, Postgres, rows[1..], run, hist + first.log);
      PostgresEmptyRowStops(container, instance, outDir, rows[1..], run, hist + first.log);
      assert UntilEmpty(rows) == [rows[0]] + UntilEmpty(rows[1..]);
      assert rows[|UntilEmpty(rows)|] == rows[1..][|UntilEmpty(rows[1..])|];
      ThenLast(first, rest);
    }
  }

  /** The mariadb-dump commands the rows ask for, one per row. */
  function MariaPlan(container: string, outDir: string, rows: seq<CredentialRow>): seq<Command>
    decreases |rows|
  {
    if |rows| == 0 then [] else [MariaCmd(container, outDir, rows[0])] + MariaPlan(container, outDir, rows[1..])
  }

  /** The single-database dumps the rows ask for: a mariadb-dump for every
      row, or a pg_dump for every row before the first one with an empty
      database. */
  function RowsPlan(container: string, outDir: string, engine: Engine, rows: seq<CredentialRow>): seq<Command> {
    match engine
    case MariaDB => MariaPlan(container, outDir, rows)
    case Postgres => PgPlan(container, outDir, UntilEmpty(rows))
  }

  /** The dump loop works through the plan of its rows in order and never
      skips one: the single-database dumps it has run are a prefix of the
      plan, and all of it when the loop runs to its end. */
  lemma {:induction false} DumpRowsFollowPlan(container: string, instance: string, outDir: string, engine: Engine,
                                               rows: seq<CredentialRow>, run: Oracle, hist: seq<Action>)
    ensures var r := DumpRows(container, instance, outDir, engine, rows, run, hist);
            && SingleDumps(r.log) <= RowsPlan(container, outDir, engine, rows)
            && (r.outcome.Completed? ==> SingleDumps(r.log) == RowsPlan(container, outDir, engine, rows))
    decreases |rows|
  {
    if |rows| > 0 {
      var row := rows[0];
      if engine == Postgres && row.database == "" {
        var only := Step(ClusterCmd(container, instance, outDir, row), run, hist);
        assert only.log[1..] == [];
      } else {
        var first := if engine == MariaDB then Step(MariaCmd(container, outDir, row), run, hist)
                     else PgSingle(container, instance, outDir, row, run, hist);
        var cmd := if engine == MariaDB then MariaCmd(container, outDir, row) else PgCmd(container, outDir, row);
        var rest := DumpRows(container, instance, outDir, engine, rows[1..], run, hist + first.log);
        assert DumpRows(container, instance, outDir, engine, rows, run, hist) == Then(first, rest);
        if engine == MariaDB { assert first.log[1..] == []; }
        assert SingleDumps(first.log) == [cmd];
        if engine == Postgres {
          assert UntilEmpty(rows) == [row] + UntilEmpty(rows[1..]);
          assert ([row] + UntilEmpty(rows[1..]))[1..] == UntilEmpty(rows[1..]);
        }
        assert RowsPlan(container, outDir, engine, rows) == [cmd] + RowsPlan(container, outDir, engine, rows[1..]);
        DumpRowsFollowPlan(container, instance, outDir, engine, rows[1..], run, hist + first.log);
        if first.outcome.Completed? {
          SingleDumpsAppend(first.log, rest.log);
          PrefixAppend([cmd], SingleDumps(rest.log), RowsPlan(container, outDir, engine, rows[1..]));
        }
      }
    }
  }

  /** `backup_database` dumps the rows of the container's instance, in table
      order, without skipping one: the single-database dumps it runs are a
      prefix of the rows' plan and all of it when it returns normally. After
      `sql/`, the MariaDB loop is one mariadb-dump per row up to the first
      failure, and the PostgreSQL loop falls back to pg_dumpall after every
      failed pg_dump, runs pg_dumpall only as that fallback or last for a row
      without a database, and only ends early on a failed pg_dumpall. */
  lemma BackupDatabaseDumpsRows(container: string, volDir: string, engine: Engine, rows: seq<CredentialRow>,
                                databaseContainers: seq<string>, run: Oracle, hist: seq<Action>)
    ensures var r := BackupDatabase(container, volDir, engine, rows, databaseContainers, run, hist);
            var instance := GetInstance(container, databaseContainers);
            var entries := EntriesFor(rows, instance);
            && SingleDumps(r.log) <= RowsPlan(container, SqlDir(volDir), engine, entries)
            && (r.outcome.Completed? ==> SingleDumps(r.log) == RowsPlan(container, SqlDir(volDir), engine, entries))
            && (|entries| > 0 && engine == MariaDB ==> MariaRun(Run(r.log[1..], r.outcome), container, SqlDir(volDir), entries))
            && (|entries| > 0 && engine == Postgres ==>
                  && FallbackFollows(r.log[1..], instance, SqlDir(volDir))
                  && ClusterOnlyAsFallback(r.log[1..])
                  && (r.outcome.Aborted? ==> |r.log| > 1 && r.log[|r.log| - 1].Exec?
                                             && r.log[|r.log| - 1].cmd.PgDumpAll? && r.log[|r.log| - 1].result.Failed?))
  {
    var instance := GetInstance(container, databaseContainers);
    var entries := EntriesFor(rows, instance);
    if |entries| > 0 {
      var outDir := SqlDir(volDir);
      var made := Run([Mkdir(outDir)], Completed);
      var dumps := DumpRows(container, instance, outDir, engine, entries, run, hist + made.log);
      var r := BackupDatabase(container, volDir, engine, rows, databaseContainers, run, hist);
      assert r.log == [Mkdir(outDir)] + dumps.log && r.outcome == dumps.outcome;
      assert r.log[1..] == dumps.log;
      assert SingleDumps(r.log) == SingleDumps(dumps.log);
      DumpRowsFollowPlan(container, instance, outDir, engine, entries, run, hist + made.log);
      if engine == MariaDB {
        MariadbOneDumpPerRow(container, instance, outDir, entries, run, hist + made.log);
      } else {
        PostgresFallback(container, instance, outDir, entries, run, hist + made.log);
      }
    }
  }

  /** Everything `backup_database` does is creating `sql/` and dumps of the
      container for rows of its instance. */
  lemma BackupDatabaseOnlyDumps(container: string, volDir: string, engine: Engine, rows: seq<CredentialRow>,
                                databaseContainers: seq<string>, run: Oracle, hist: seq<Action>)
    ensures var r := BackupDatabase(container, volDir, engine, rows, databaseContainers, run, hist);
            forall i :: 0 <= i < |r.log| ==>
              r.log[i] == Mkdir(SqlDir(volDir))
              || DumpOfRows(r.log[i], container, GetInstance(container, databaseContainers), SqlDir(volDir), engine, rows)
  {
    var instance := GetInstance(container, databaseContainers);
    var entries := EntriesFor(rows, instance);
    if |entries| > 0 {
      var outDir := SqlDir(volDir);
      var made := Run([Mkdir(outDir)], Completed);
      var dumps := DumpRows(container, instance, outDir, engine, entries, run, hist + made.log);
      DumpRowsOnlyDumpRows(container, instance, outDir, engine, entries, run, hist + made.log);
      AllDumpsOfMoreRows(dumps.log, container, instance, outDir, engine, entries, rows);
      MkdirThenDumps(dumps, container, instance, outDir, engine, rows);
    }
  }

  lemma MkdirThenDumps(dumps: Run, container: string, instance: string, outDir: string, engine: Engine,
                       rows: seq<CredentialRow>)
    requires AllDumpsOfRows(dumps.log, container, instance, outDir, engine, rows)
    ensures var log := Then(Run([Mkdir(outDir)], Completed), dumps).log;
            forall i :: 0 <= i < |log| ==> log[i] == Mkdir(outDir) || DumpOfRows(log[i], container, instance, outDir, engine, rows)
  {
    var log := Then(Run([Mkdir(outDir)], Completed), dumps).log;
    forall i | 1 <= i < |log| ensures log[i] == dumps.log[i - 1] { }
  }

  /** When every command succeeds, the dump loop runs to its end. */
  lemma {:induction false} DumpRowsSucceed(container: string, instance: string, outDir: string, engine: Engine,
                                            rows: seq<CredentialRow>, run: Oracle, hist: seq<Action>)
    requires AllSucceed(run)
    ensures DumpRows(container, instance, outDir, engine, rows, run, hist).outcome.Completed?
    decreases |rows|
  {
    if |rows| > 0 {
      var first := if engine == MariaDB then Step(MariaCmd(container, outDir, rows[0]), run, hist)
                   else PgSingle(container, instance, outDir, rows[0], run, hist);
      DumpRowsSucceed(container, instance, outDir, engine, rows[1..], run, hist + first.log);
    }
  }

  /** When every command succeeds, `backup_database` returns normally. */
  lemma BackupDatabaseSucceeds(container: string, volDir: string, engine: Engine, rows: seq<CredentialRow>,
                               databaseContainers: seq<string>, run: Oracle, hist: seq<Action>)
    requires AllSucceed(run)
    ensures BackupDatabase(container, volDir, engine, rows, databaseContainers, run, hist).outcome.Completed?
  {
    var instance := GetInstance(container, databaseContainers);
    DumpRowsSucceed(container, instance, SqlDir(volDir), engine, EntriesFor(rows, instance), run, hist + [Mkdir(SqlDir(volDir))]);
  }
}
