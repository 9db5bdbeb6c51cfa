/**
 * The script's main block (main.py:26-107) put together: argument check,
 * address cleaning, token prompt, discovery, owner directories, and the four
 * download workers. Process exits are returned as outcomes.
 */
module Archiver {
  import opened Wrappers
  import opened Address
  import opened Prompt
  import opened Targets
  import opened Discovery
  import opened Sharding
  import opened Disk

  const ExitDone: int := 0
  const ExitUsage: int := 1

  /**
   * How a run ends: with an exit code, or where the model's finite inputs run
   * out (no non-empty answer to the prompt; no empty listing page).
   */
  datatype RunOutcome = Exit(code: int) | OutOfInput | OutOfPages

  /** `tuple(repositories)` (main.py:78): the set's elements once each, in an order left open. */
  method SetToSequence(s: set<Repository>) returns (q: seq<Repository>)
    ensures Distinct(q)
    ensures forall r :: r in q <==> r in s
    ensures |q| == |s|
  {
    q := [];
    var rest := s;
    while rest != {}
      invariant rest <= s
      invariant Distinct(q)
      invariant forall r :: r in q <==> r in s && r !in rest
      invariant |q| + |rest| == |s|
      decreases rest
    {
      var r :| r in rest;
      q := q + [r];
      rest := rest - {r};
    }
  }

  /** The four workers of main.py:99-105, run here one after another. */
  method RunWorkers(disk: Disk, server: string, outDir: string, tasks: seq<seq<Repository>>, fetch: string -> Bytes)
    modifies disk
    ensures disk.dirs == old(disk.dirs)
    ensures disk.files == DownloadedAll(old(disk.files), disk.dirs, server, outDir, tasks, fetch)
  {
    ghost var before := disk.files;
    for p := 0 to |tasks|
      invariant disk.dirs == old(disk.dirs)
      invariant disk.files == DownloadedAll(before, disk.dirs, server, outDir, tasks[..p], fetch)
    {
      assert tasks[..p + 1][..p] == tasks[..p];
      disk.Download(server, outDir, tasks[p], fetch);
    }
    assert tasks[..|tasks|] == tasks;
  }

  /** Every shard of an ordering of the discovered set is ready once the owner directories exist. */
  lemma ShardsReady(found: set<Repository>, repositories: seq<Repository>, dirs: set<string>, outDir: string)
    requires forall r :: r in repositories <==> r in found
    requires forall r :: r in found ==> WellFormed(r) && OwnerDir(outDir, r.owner) in dirs
    ensures AllReady(dirs, outDir, Shards(repositories))
  {
    var tasks := Shards(repositories);
    forall p | 0 <= p < |tasks| ensures Ready(dirs, outDir, tasks[p]) {
      forall r | r in tasks[p] ensures WellFormed(r) && OwnerDir(outDir, r.owner) in dirs {
        ShardsCoverElements(repositories, r);
      }
    }
  }

  /**
   * Once every owner directory exists, running the workers over the shards of
   * any ordering of the discovered set leaves every discovered, well-formed
   * repository's download at its target path.
   */
  lemma ArchivesWritten(found: set<Repository>, repositories: seq<Repository>, dirs: set<string>,
                        files: map<string, Bytes>, server: string, outDir: string, fetch: string -> Bytes)
    requires forall r :: r in repositories <==> r in found
    requires forall r :: r in found ==> WellFormed(r) && OwnerDir(outDir, r.owner) in dirs
    ensures var m := DownloadedAll(files, dirs, server, outDir, Shards(repositories), fetch);
      forall r :: r in found ==>
        TargetPath(outDir, r) in m && m[TargetPath(outDir, r)] == fetch(ZipUrl(server, r))
  {
    var tasks := Shards(repositories);
    var m := DownloadedAll(files, dirs, server, outDir, tasks, fetch);
    ShardsReady(found, repositories, dirs, outDir);
    forall r | r in found
      ensures TargetPath(outDir, r) in m && m[TargetPath(outDir, r)] == fetch(ZipUrl(server, r))
    {
      ShardsCoverElements(repositories, r);
      var p :| 0 <= p < PROCESSES && r in Shard(repositories, p);
      DownloadedAllWritesAt(files, dirs, server, outDir, tasks, fetch, p, r);
    }
  }

  /**
   * Running the workers over the shards of any ordering of the discovered set
   * leaves every file that is no discovered repository's target as it was.
   */
  lemma OnlyArchivesTouched(found: set<Repository>, repositories: seq<Repository>, dirs: set<string>,
                            files: map<string, Bytes>, server: string, outDir: string, fetch: string -> Bytes)
    requires forall r :: r in repositories <==> r in found
    ensures var m := DownloadedAll(files, dirs, server, outDir, Shards(repositories), fetch);
      forall path :: (forall r :: r in found ==> path != TargetPath(outDir, r)) ==>
        (path in m <==> path in files) && (path in files ==> m[path] == files[path])
  {
    var tasks := Shards(repositories);
    DownloadedAllKeeps(files, dirs, server, outDir, tasks, fetch);
    forall path | forall r :: r in found ==> path != TargetPath(outDir, r)
      ensures !TargetedByAny(path, outDir, tasks)
    {
      forall p, r | 0 <= p < |tasks| && r in tasks[p] ensures path != TargetPath(outDir, r) {
        ShardsCoverElements(repositories, r);
      }
    }
  }

  /** The owner directories of an ordering of the discovered set are those of the discovered owners. */
  lemma OwnerDirsOfFound(outDir: string, found: set<Repository>, repositories: seq<Repository>)
    requires forall r :: r in repositories <==> r in found
    ensures forall d :: d in OwnerDirs(outDir, Owners(repositories)) <==>
      exists r :: r in found && d == OwnerDir(outDir, r.owner)
    ensures forall r :: r in found ==> OwnerDir(outDir, r.owner) in OwnerDirs(outDir, Owners(repositories))
  {
    forall r | r in found ensures OwnerDir(outDir, r.owner) in OwnerDirs(outDir, Owners(repositories)) {
      assert r.owner in Owners(repositories);
    }
  }

  /**
   * Everything after a successful discovery (main.py:78-105): order the set,
   * make the owner directories, and run the workers over the shards.
   */
  method Export(found: set<Repository>, server: string, outDir: string, fetch: string -> Bytes, disk: Disk)
    modifies disk
    ensures forall d :: d in disk.dirs <==> d in old(disk.dirs) || exists r :: r in found && d == OwnerDir(outDir, r.owner)
    ensures (forall r :: r in found ==> WellFormed(r)) ==>
      forall r :: r in found ==>
        TargetPath(outDir, r) in disk.files && disk.files[TargetPath(outDir, r)] == fetch(ZipUrl(server, r))
    ensures forall path :: (forall r :: r in found ==> path != TargetPath(outDir, r)) ==>
      (path in disk.files <==> path in old(disk.files)) &&
      (path in old(disk.files) ==> disk.files[path] == old(disk.files)[path])
  {
    var repositories := SetToSequence(found);
    OwnerDirsOfFound(outDir, found, repositories);
    disk.MakeOwnerDirs(outDir, Owners(repositories));
    ghost var dirs := disk.dirs;
    ghost var before := disk.files;
    var tasks := PlanShards(repositories);
    RunWorkers(disk, server, outDir, tasks, fetch);
    if forall r :: r in found ==> WellFormed(r) {
      ArchivesWritten(found, repositories, dirs, before, server, outDir, fetch);
    }
    OnlyArchivesTouched(found, repositories, dirs, before, server, outDir, fetch);
  }

  /**
   * One run of the script. `argv` is `sys.argv`, `answers` what the token prompt
   * reads, `pages` the listing responses, `fetch` the archive download, and
   * `disk` the output tree. The workers are run one after another; the order
   * does not matter (Disk.ShardOrderIrrelevant).
   */
  method Run(argv: seq<string>, answers: seq<string>, pages: seq<Page>, fetch: string -> Bytes, disk: Disk)
    returns (outcome: RunOutcome)
    modifies disk
    ensures |argv| != 3 ==> outcome == Exit(ExitUsage) && unchanged(disk)
    ensures |argv| == 3 && FirstNonEmpty(answers).None? ==> outcome == OutOfInput && unchanged(disk)
    ensures |argv| == 3 && FirstNonEmpty(answers).Some? && Discover(pages).Failed? ==>
      outcome == Exit(ExitApiError) && unchanged(disk)
    ensures |argv| == 3 && FirstNonEmpty(answers).Some? && Discover(pages).Unfinished? ==>
      outcome == OutOfPages && unchanged(disk)
    ensures |argv| == 3 && FirstNonEmpty(answers).Some? && Discover(pages).Complete? ==>
      var found := Discover(pages).repos;
      && outcome == Exit(ExitDone)
      && (forall d :: d in disk.dirs <==> d in old(disk.dirs) || exists r :: r in found && d == OwnerDir(argv[2], r.owner))
      && ((forall r :: r in found ==> WellFormed(r)) ==>
            forall r :: r in found ==>
              TargetPath(argv[2], r) in disk.files &&
              disk.files[TargetPath(argv[2], r)] == fetch(ZipUrl(Normalise(argv[1]), r)))
      && (forall path :: (forall r :: r in found ==> path != TargetPath(argv[2], r)) ==>
            (path in disk.files <==> path in old(disk.files)) &&
            (path in old(disk.files) ==> disk.files[path] == old(disk.files)[path]))
  {
    if |argv| != 3 {
      return Exit(ExitUsage);
    }
    var server := Normalise(argv[1]);
    var outDir := argv[2];
    var token := AskUser(answers);
    if token.None? {
      return OutOfInput;
    }
    var discovered, _ := DiscoverRepositories(pages);
    if discovered.Failed? {
      return Exit(discovered.exitCode);
    }
    if discovered.Unfinished? {
      return OutOfPages;
    }
    Export(discovered.repos, server, outDir, fetch, disk);
    return Exit(ExitDone);
  }
}
