/** The versioned file backup of one Docker volume: choosing the previous
    snapshot that rsync hard-links against, and the rsync call itself. */
module Volume {
  import opened Wrappers
  import opened Text
  import opened Lex
  import opened PosixPath
  import opened Actions

  /** The part of an rsync error that is only a warning. */
  const Vanished := "file has vanished"

  /** The fixed options of the rsync call: archive with backups and progress,
      mirroring deletions. */
  const RsyncFlags := ["-abP", "--delete", "--delete-excluded"]

  /** `os.path.join(versions_dir, version, volume_name, "files", "")`: the
      snapshot directory of `volume` in `version`, with a trailing slash. */
  function Candidate(versionsDir: string, version: string, volume: string): string {
    JoinAll(versionsDir, [version, volume, "files", ""])
  }

  /** `dest` of `backup_volume`: `os.path.join(volume_dir, "files") + "/"`. */
  function Destination(volDir: string): string {
    Join(volDir, "files") + "/"
  }

  /** A listed version is usable as the hard-link base: its snapshot path is
      not the directory being written and is an existing directory. */
  predicate Qualifies(versionsDir: string, volume: string, current: string, dirs: set<string>, version: string) {
    var c := Candidate(versionsDir, version, volume);
    c != current && c in dirs
  }

  /** The loop of `get_last_backup_dir` from position `i` on: the index of the
      first qualifying version. */
  function FirstQualifying(sorted: seq<string>, i: nat, versionsDir: string, volume: string,
                           current: string, dirs: set<string>): (r: Option<nat>)
    requires i <= |sorted|
    ensures r.None? <==> forall j :: i <= j < |sorted| ==> !Qualifies(versionsDir, volume, current, dirs, sorted[j])
    ensures r.Some? ==> i <= r.value < |sorted| && Qualifies(versionsDir, volume, current, dirs, sorted[r.value])
    ensures r.Some? ==> forall j :: i <= j < r.value ==> !Qualifies(versionsDir, volume, current, dirs, sorted[j])
    decreases |sorted| - i
  {
    if i == |sorted| then None
    else if Qualifies(versionsDir, volume, current, dirs, sorted[i]) then Some(i)
    else FirstQualifying(sorted, i + 1, versionsDir, volume, current, dirs)
  }

  /** The version `get_last_backup_dir` settles on: the greatest listed version
      (in Python's string order) whose snapshot qualifies, if any does. */
  function LastBackupVersion(versionsDir: string, volume: string, current: string,
                             versions: seq<string>, dirs: set<string>): (r: Option<string>)
    ensures r.None? <==> forall v :: v in versions ==> !Qualifies(versionsDir, volume, current, dirs, v)
    ensures r.Some? ==> r.value in versions && Qualifies(versionsDir, volume, current, dirs, r.value)
    ensures r.Some? ==> forall w :: w in versions && LexLess(r.value, w) ==> !Qualifies(versionsDir, volume, current, dirs, w)
  {
    var sorted := SortDesc(versions);
    assert forall v :: v in versions <==> v in sorted by {
      forall v ensures v in versions <==> v in sorted {
        assert v in versions <==> v in multiset(versions);
        assert v in sorted <==> v in multiset(sorted);
      }
    }
    match FirstQualifying(sorted, 0, versionsDir, volume, current, dirs)
    case None => None
    case Some(k) =>
      var v := sorted[k];
      assert forall w :: w in versions && LexLess(v, w) ==> !Qualifies(versionsDir, volume, current, dirs, w) by {
        forall w | w in versions && LexLess(v, w)
          ensures !Qualifies(versionsDir, volume, current, dirs, w)
        {
          var j :| 0 <= j < |sorted| && sorted[j] == w;
          if k < j {
            assert LexLeq(w, v);
            LexLeqAntisymmetric(w, v);
          }
        }
      }
      Some(v)
  }

  lemma CandidateShape(versionsDir: string, version: string, volume: string)
    ensures Candidate(versionsDir, version, volume) == Destination(Join(Join(versionsDir, version), volume))
    ensures |Candidate(versionsDir, version, volume)| > 0
  {
    JoinAllFour(versionsDir, version, volume, "files", "");
    var f := Join(Join(Join(versionsDir, version), volume), "files");
    assert f[|f| - 1] == 's';
  }

  /** `get_last_backup_dir(versions_dir, volume_name, current)` over the
      directory listing `versions` and the set `dirs` of paths that are
      directories. */
  function LastBackupDir(versionsDir: string, volume: string, current: string,
                         versions: seq<string>, dirs: set<string>): (r: Option<string>)
    ensures r.None? <==> forall v :: v in versions ==> !Qualifies(versionsDir, volume, current, dirs, v)
    ensures r.Some? ==> r.value != current && r.value in dirs && |r.value| > 0
    ensures r.Some? ==> exists v :: v in versions && r.value == Candidate(versionsDir, v, volume)
                                    && forall w :: w in versions && LexLess(v, w) ==> !Qualifies(versionsDir, volume, current, dirs, w)
  {
    match LastBackupVersion(versionsDir, volume, current, versions, dirs)
    case None => None
    case Some(v) =>
      CandidateShape(versionsDir, v, volume);
      Some(Candidate(versionsDir, v, volume))
  }

  /** The snapshot path of the version being written is exactly the
      destination, so the `!= current` test excludes that version; and for
      single-component names it excludes no other version. */
  lemma ExcludesExactlyCurrentVersion(versionsDir: string, current: string, volume: string, v: string)
    requires IsSegment(current) && IsSegment(v) && IsSegment(volume)
    ensures Candidate(versionsDir, v, volume) == Destination(Join(Join(versionsDir, current), volume)) <==> v == current
  {
    CandidateShape(versionsDir, current, volume);
    CandidateShape(versionsDir, v, volume);
    if Candidate(versionsDir, v, volume) == Candidate(versionsDir, current, volume) {
      var h1, h2 := Join(versionsDir, v), Join(versionsDir, current);
      var g1, g2 := Join(h1, volume), Join(h2, volume);
      assert IsSegment("files");
      var f1, f2 := Join(g1, "files"), Join(g2, "files");
      JoinSegmentEnd(g1, "files");
      JoinSegmentEnd(g2, "files");
      assert f1 == (f1 + "/")[..|f1|] && f2 == (f2 + "/")[..|f2|];
      JoinSegmentEnd(h1, volume);
      JoinSegmentEnd(h2, volume);
      JoinSameSegment(g1, g2, "files");
      JoinSegmentEnd(versionsDir, v);
      JoinSegmentEnd(versionsDir, current);
      JoinSameSegment(h1, h2, volume);
      JoinSameBase(versionsDir, v, current);
    }
  }

  /** `backup_volume(versions_dir, volume_name, volume_dir)`: create the
      destination, look up the hard-link base, then run rsync from the volume's
      mountpoint. A failure whose message mentions vanished files is only a
      warning; any other failure raises. */
  function BackupVolume(versionsDir: string, volume: string, volDir: string, mountpoint: string,
                        versions: seq<string>, dirs: set<string>, run: Oracle, hist: seq<Action>): (r: Run)
    ensures |r.log| == 2 && r.log[0] == Mkdir(Destination(volDir)) && NoDumps(r.log)
    ensures r.log[1].Exec? && r.log[1].cmd.Rsync?
    ensures r.log[1].cmd.flags == RsyncFlags
    ensures r.log[1].cmd.source == mountpoint + "/" && r.log[1].cmd.dest == Destination(volDir)
    ensures (r.log[1].cmd.linkDest.None?
             <==> forall v :: v in versions ==> !Qualifies(versionsDir, volume, Destination(volDir), dirs, v))
    ensures r.log[1].cmd.linkDest.Some? ==>
              var base := r.log[1].cmd.linkDest.value;
              base != Destination(volDir) && base in dirs
              && (exists v :: v in versions && base == Candidate(versionsDir, v, volume) &&
                    forall w :: w in versions && LexLess(v, w) ==> !Qualifies(versionsDir, volume, Destination(volDir), dirs, w))
    ensures r.outcome.Aborted? <==> r.log[1].result.Failed? && !Contains(r.log[1].result.message, Vanished)
  {
    var dest := Destination(volDir);
    assert forall v :: Qualifies(versionsDir, volume, dest, dirs + {dest}, v) <==> Qualifies(versionsDir, volume, dest, dirs, v);
    var last := LastBackupDir(versionsDir, volume, dest, versions, dirs + {dest});
    var link := if last.Some? && last.value != "" then last else None;
    var cmd := Rsync(RsyncFlags, link, mountpoint + "/", dest);
    var res := run(hist + [Mkdir(dest)], cmd);
    var tolerated := res.Succeeded? || Contains(res.message, Vanished);
    Run([Mkdir(dest), Exec(cmd, res)], if tolerated then Completed else Aborted(CommandFailed(cmd, res.message)))
  }
}
