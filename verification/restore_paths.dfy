/** Where the restore side looks for a backup (`baudolo.restore.paths`), and
    why that is where the backup side wrote it. */
module RestorePaths {
  import opened PosixPath
  import Db
  import Volume
  import App

  /** The backups directory when none is given. */
  const DefaultBackupsDir: string := "/Backups"

  /** `BackupPaths`: one volume of one version of one repository of one
      machine. The backup hash is the machine id the backup side used. */
  datatype BackupPaths = BackupPaths(volumeName: string, backupHash: string, version: string,
                                     repoName: string, backupsDir: string)

  /** `BackupPaths(...)` with `backups_dir` left at its default. */
  function WithDefaultDir(volumeName: string, backupHash: string, version: string, repoName: string): (p: BackupPaths)
    ensures p.backupsDir == DefaultBackupsDir
    ensures p.volumeName == volumeName && p.backupHash == backupHash && p.version == version && p.repoName == repoName
  {
    BackupPaths(volumeName, backupHash, version, repoName, DefaultBackupsDir)
  }

  /** `root()`: `<backups_dir>/<hash>/<repo>/<version>/<volume>`. */
  function Root(p: BackupPaths): string {
    JoinAll(p.backupsDir, [p.backupHash, p.repoName, p.version, p.volumeName])
  }

  /** `files_dir()`: `<root>/files`. */
  function FilesDir(p: BackupPaths): string {
    Join(Root(p), "files")
  }

  /** `sql_file(db_name)`: `<root>/sql/<db_name>.backup.sql`. */
  function SqlFile(p: BackupPaths, dbName: string): string {
    JoinAll(Root(p), ["sql", dbName + ".backup.sql"])
  }

  /** All four components are single path components. */
  predicate Segments(p: BackupPaths) {
    IsSegment(p.backupHash) && IsSegment(p.repoName) && IsSegment(p.version) && IsSegment(p.volumeName)
  }

  /** The paths the restore side reads are the ones the backup side wrote,
      for any strings at all: the root is the volume directory of the
      version directory, the files directory is the rsync destination
      without its trailing `/`, and each SQL file is the dump file of the
      volume's `sql` directory. */
  lemma RestoreFindsBackup(backupsDir: string, machineId: string, repoName: string,
                           backupTime: string, volume: string, dbName: string)
    ensures var p := BackupPaths(volume, machineId, backupTime, repoName, backupsDir);
            var volDir := App.VolumeDir(App.VersionDir(App.VersionsDir(backupsDir, machineId, repoName), backupTime), volume);
            && Root(p) == volDir
            && FilesDir(p) + "/" == Volume.Destination(volDir)
            && SqlFile(p, dbName) == Db.DumpFile(Db.SqlDir(volDir), dbName)
  {
    var p := BackupPaths(volume, machineId, backupTime, repoName, backupsDir);
    JoinAllFour(backupsDir, machineId, repoName, backupTime, volume);
    JoinAllTwo(backupsDir, machineId, repoName);
    JoinAllTwo(Root(p), "sql", dbName + ".backup.sql");
  }

  /** With single components, the root lies under the backups directory
      and spells the four components out in order. */
  lemma RootLayout(p: BackupPaths)
    requires Segments(p)
    ensures Root(p) == DirPrefix(p.backupsDir) + p.backupHash + "/" + p.repoName + "/" + p.version + "/" + p.volumeName
  {
    var b := p.backupsDir;
    JoinAllFour(b, p.backupHash, p.repoName, p.version, p.volumeName);
    var h := Join(b, p.backupHash);
    var rr := Join(h, p.repoName);
    var v := Join(rr, p.version);
    JoinSegment(b, p.backupHash);
    JoinSegmentEnd(b, p.backupHash);
    JoinSegment(h, p.repoName);
    JoinSegmentEnd(h, p.repoName);
    JoinSegment(rr, p.version);
    JoinSegmentEnd(rr, p.version);
    JoinSegment(v, p.volumeName);
  }

  /** An absolute component replaces everything joined before it, so the
      root then leaves the backups directory. */
  lemma AbsoluteVolumeLeavesBackupsDir(p: BackupPaths)
    requires |p.volumeName| > 0 && p.volumeName[0] == '/'
    ensures Root(p) == p.volumeName
  {
    JoinAllFour(p.backupsDir, p.backupHash, p.repoName, p.version, p.volumeName);
  }

  /** Joining single components onto bases with no trailing `/` is
      injective in both the base and the component. */
  lemma JoinInjective(a1: string, s1: string, a2: string, s2: string)
    requires IsSegment(s1) && IsSegment(s2)
    requires |a1| > 0 && a1[|a1| - 1] != '/' && |a2| > 0 && a2[|a2| - 1] != '/'
    requires Join(a1, s1) == Join(a2, s2)
    ensures a1 == a2 && s1 == s2
  {
    BasenameOfJoin(a1, s1);
    BasenameOfJoin(a2, s2);
    JoinSameSegment(a1, a2, s1);
  }

  /** Different backups under one backups directory never share a root:
      equal roots mean equal hash, repository, version and volume. */
  lemma RootInjective(p: BackupPaths, q: BackupPaths)
    requires Segments(p) && Segments(q) && p.backupsDir == q.backupsDir
    requires Root(p) == Root(q)
    ensures p == q
  {
    var b := p.backupsDir;
    JoinAllFour(b, p.backupHash, p.repoName, p.version, p.volumeName);
    JoinAllFour(b, q.backupHash, q.repoName, q.version, q.volumeName);
    var h1, h2 := Join(b, p.backupHash), Join(b, q.backupHash);
    var r1, r2 := Join(h1, p.repoName), Join(h2, q.repoName);
    var v1, v2 := Join(r1, p.version), Join(r2, q.version);
    JoinSegmentEnd(b, p.backupHash);
    JoinSegmentEnd(b, q.backupHash);
    JoinSegmentEnd(h1, p.repoName);
    JoinSegmentEnd(h2, q.repoName);
    JoinSegmentEnd(r1, p.version);
    JoinSegmentEnd(r2, q.version);
    JoinInjective(v1, p.volumeName, v2, q.volumeName);
    JoinInjective(r1, p.version, r2, q.version);
    JoinInjective(h1, p.repoName, h2, q.repoName);
    JoinSameBase(b, p.backupHash, q.backupHash);
  }

  /** The files directory and the SQL files of one backup are distinct
      paths: no database dump can be mistaken for the file snapshot. */
  lemma SqlFileNotFilesDir(p: BackupPaths, dbName: string)
    requires IsSegment(dbName)
    ensures SqlFile(p, dbName) != FilesDir(p)
  {
    var root := Root(p);
    var f := dbName + ".backup.sql";
    JoinAllTwo(root, "sql", f);
    JoinLast(Join(root, "sql"), f);
    JoinLast(root, "files");
  }
}
