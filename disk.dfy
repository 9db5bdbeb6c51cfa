/**
 * The output tree on disk: the owner directories made before the downloads
 * (main.py:79-83) and the archives the workers write (main.py:87-95). The
 * network is a function from URL to response body; the shell of `download`
 * writes whatever body comes back, without looking at the status.
 */
module Disk {
  import opened Targets

  type Bytes = seq<bv8>

  /** The directories for the given owners. */
  function OwnerDirs(outDir: string, owners: set<string>): set<string> {
    set o | o in owners :: OwnerDir(outDir, o)
  }

  /**
   * The files after one worker ran over `shard`: each repository's body is
   * written to its target path in turn, and the first repository whose owner
   * directory is missing makes `open` raise, which ends the worker there.
   */
  function Downloaded(files: map<string, Bytes>, dirs: set<string>, base: string, outDir: string,
                      shard: seq<Repository>, fetch: string -> Bytes): (m: map<string, Bytes>)
    ensures files.Keys <= m.Keys
    decreases |shard|
  {
    if |shard| == 0 then files
    else if OwnerDir(outDir, shard[0].owner) !in dirs then files
    else
      var r := shard[0];
      Downloaded(files[TargetPath(outDir, r) := fetch(ZipUrl(base, r))], dirs, base, outDir, shard[1..], fetch)
  }

  /**
   * A worker stops at the first repository whose owner directory is missing:
   * what it leaves is what the repositories before that one alone would leave.
   */
  lemma {:induction false} DownloadedStopsAt(files: map<string, Bytes>, dirs: set<string>, base: string,
                                             outDir: string, shard: seq<Repository>, fetch: string -> Bytes, k: nat)
    requires k < |shard| && OwnerDir(outDir, shard[k].owner) !in dirs
    requires forall j :: 0 <= j < k ==> OwnerDir(outDir, shard[j].owner) in dirs
    ensures Downloaded(files, dirs, base, outDir, shard, fetch) == Downloaded(files, dirs, base, outDir, shard[..k], fetch)
    decreases k
  {
    if k > 0 {
      var r := shard[0];
      var files' := files[TargetPath(outDir, r) := fetch(ZipUrl(base, r))];
      assert shard[..k][1..] == shard[1..][..k - 1];
      DownloadedStopsAt(files', dirs, base, outDir, shard[1..], fetch, k - 1);
    }
  }

  /** Every repository of `shard` is well-formed and has its owner directory. */
  ghost predicate Ready(dirs: set<string>, outDir: string, shard: seq<Repository>) {
    forall r :: r in shard ==> WellFormed(r) && OwnerDir(outDir, r.owner) in dirs
  }

  /** `path` is the target of some repository of `shard`. */
  ghost predicate Targeted(path: string, outDir: string, shard: seq<Repository>) {
    exists r :: r in shard && path == TargetPath(outDir, r)
  }

  /** A well-formed repository outside `shard` shares its target path with none of the shard's. */
  lemma NoOtherTarget(outDir: string, r: Repository, shard: seq<Repository>)
    requires WellFormed(r) && r !in shard
    requires forall r' :: r' in shard ==> WellFormed(r')
    ensures !Targeted(TargetPath(outDir, r), outDir, shard)
  {
    forall r' | r' in shard ensures TargetPath(outDir, r) != TargetPath(outDir, r') {
      if TargetPath(outDir, r) == TargetPath(outDir, r') {
        TargetPathInjective(outDir, r, r');
      }
    }
  }

  /** One worker writes only to its repositories' target paths; every other file stays as it was. */
  lemma {:induction false} DownloadedKeeps(files: map<string, Bytes>, dirs: set<string>, base: string,
                                           outDir: string, shard: seq<Repository>, fetch: string -> Bytes)
    ensures var m := Downloaded(files, dirs, base, outDir, shard, fetch);
      forall path :: !Targeted(path, outDir, shard) ==>
        (path in m <==> path in files) && (path in files ==> m[path] == files[path])
    decreases |shard|
  {
    if |shard| > 0 && OwnerDir(outDir, shard[0].owner) in dirs {
      var r0, rest := shard[0], shard[1..];
      var files' := files[TargetPath(outDir, r0) := fetch(ZipUrl(base, r0))];
      DownloadedKeeps(files', dirs, base, outDir, rest, fetch);
      forall path | !Targeted(path, outDir, shard)
        ensures !Targeted(path, outDir, rest) && path != TargetPath(outDir, r0)
      {
      }
    }
  }

  /**
   * When every repository of the shard is well-formed and has its directory,
   * one worker leaves each of their archives holding that repository's download.
   */
  lemma {:induction false} DownloadedWrites(files: map<string, Bytes>, dirs: set<string>, base: string,
                                            outDir: string, shard: seq<Repository>, fetch: string -> Bytes)
    requires Ready(dirs, outDir, shard)
    ensures var m := Downloaded(files, dirs, base, outDir, shard, fetch);
      forall r :: r in shard ==> TargetPath(outDir, r) in m && m[TargetPath(outDir, r)] == fetch(ZipUrl(base, r))
    decreases |shard|
  {
    if |shard| > 0 {
      var r0, rest := shard[0], shard[1..];
      var files' := files[TargetPath(outDir, r0) := fetch(ZipUrl(base, r0))];
      assert Ready(dirs, outDir, rest) by {
        forall r | r in rest ensures WellFormed(r) && OwnerDir(outDir, r.owner) in dirs {
          assert r in shard;
        }
      }
      DownloadedWrites(files', dirs, base, outDir, rest, fetch);
      if r0 !in rest {
        NoOtherTarget(outDir, r0, rest);
        DownloadedKeeps(files', dirs, base, outDir, rest, fetch);
      }
    }
  }

  /** DownloadedKeeps and DownloadedWrites at one path. */
  lemma DownloadedAt(files: map<string, Bytes>, dirs: set<string>, base: string, outDir: string,
                     shard: seq<Repository>, fetch: string -> Bytes, path: string)
    ensures var m := Downloaded(files, dirs, base, outDir, shard, fetch);
      Ready(dirs, outDir, shard) ==>
        forall r :: r in shard && path == TargetPath(outDir, r) ==> path in m && m[path] == fetch(ZipUrl(base, r))
    ensures var m := Downloaded(files, dirs, base, outDir, shard, fetch);
      !Targeted(path, outDir, shard) ==> (path in m <==> path in files) && (path in files ==> m[path] == files[path])
  {
    DownloadedKeeps(files, dirs, base, outDir, shard, fetch);
    if Ready(dirs, outDir, shard) {
      DownloadedWrites(files, dirs, base, outDir, shard, fetch);
    }
  }

  /**
   * Two workers give the same tree whichever of them runs first: their
   * archives go to paths that only the same repository shares.
   */
  lemma ShardOrderIrrelevant(files: map<string, Bytes>, dirs: set<string>, base: string, outDir: string,
                             a: seq<Repository>, b: seq<Repository>, fetch: string -> Bytes)
    requires Ready(dirs, outDir, a) && Ready(dirs, outDir, b)
    ensures Downloaded(Downloaded(files, dirs, base, outDir, a, fetch), dirs, base, outDir, b, fetch)
         == Downloaded(Downloaded(files, dirs, base, outDir, b, fetch), dirs, base, outDir, a, fetch)
  {
    var fa := Downloaded(files, dirs, base, outDir, a, fetch);
    var fb := Downloaded(files, dirs, base, outDir, b, fetch);
    var m1 := Downloaded(fa, dirs, base, outDir, b, fetch);
    var m2 := Downloaded(fb, dirs, base, outDir, a, fetch);
    forall path ensures (path in m1 <==> path in m2) && (path in m1 ==> m1[path] == m2[path]) {
      DownloadedAt(files, dirs, base, outDir, a, fetch, path);
      DownloadedAt(files, dirs, base, outDir, b, fetch, path);
      DownloadedAt(fa, dirs, base, outDir, b, fetch, path);
      DownloadedAt(fb, dirs, base, outDir, a, fetch, path);
      if ra :| ra in a && path == TargetPath(outDir, ra) {
        if rb :| rb in b && path == TargetPath(outDir, rb) {
          TargetPathInjective(outDir, ra, rb);
        }
      }
    }
    assert m1 == m2;
  }

  /** The files after the workers ran over `shards` one after another. */
  function DownloadedAll(files: map<string, Bytes>, dirs: set<string>, base: string, outDir: string,
                         shards: seq<seq<Repository>>, fetch: string -> Bytes): (m: map<string, Bytes>)
    ensures files.Keys <= m.Keys
  {
    if |shards| == 0 then files
    else Downloaded(DownloadedAll(files, dirs, base, outDir, shards[..|shards| - 1], fetch),
                    dirs, base, outDir, shards[|shards| - 1], fetch)
  }

  /** Every repository of every shard is well-formed and has its owner directory. */
  ghost predicate AllReady(dirs: set<string>, outDir: string, shards: seq<seq<Repository>>) {
    forall p :: 0 <= p < |shards| ==> Ready(dirs, outDir, shards[p])
  }

  /** `path` is the target of some repository of some shard. */
  ghost predicate TargetedByAny(path: string, outDir: string, shards: seq<seq<Repository>>) {
    exists p :: 0 <= p < |shards| && Targeted(path, outDir, shards[p])
  }

  /** After all workers, each repository of each shard has its download at its target path. */
  lemma {:induction false} DownloadedAllWrites(files: map<string, Bytes>, dirs: set<string>, base: string,
                                               outDir: string, shards: seq<seq<Repository>>, fetch: string -> Bytes)
    requires AllReady(dirs, outDir, shards)
    ensures var m := DownloadedAll(files, dirs, base, outDir, shards, fetch);
      forall p, r :: 0 <= p < |shards| && r in shards[p] ==>
        TargetPath(outDir, r) in m && m[TargetPath(outDir, r)] == fetch(ZipUrl(base, r))
  {
    if |shards| > 0 {
      var n := |shards| - 1;
      var front, last := shards[..n], shards[n];
      assert AllReady(dirs, outDir, front) by {
        forall p | 0 <= p < |front| ensures Ready(dirs, outDir, front[p]) {
          assert front[p] == shards[p];
        }
      }
      DownloadedAllWrites(files, dirs, base, outDir, front, fetch);
      var mf := DownloadedAll(files, dirs, base, outDir, front, fetch);
      var m := Downloaded(mf, dirs, base, outDir, last, fetch);
      assert DownloadedAll(files, dirs, base, outDir, shards, fetch) == m;
      forall p, r | 0 <= p < |shards| && r in shards[p]
        ensures TargetPath(outDir, r) in m && m[TargetPath(outDir, r)] == fetch(ZipUrl(base, r))
      {
        assert Ready(dirs, outDir, shards[p]);
        if p < n {
          assert front[p] == shards[p];
        }
        DownloadedLastWorker(mf, dirs, base, outDir, last, fetch, r);
      }
    }
  }

  /**
   * A well-formed repository's archive survives a later worker that is ready:
   * either the worker writes it again, or it touches other paths only.
   */
  lemma DownloadedLastWorker(files: map<string, Bytes>, dirs: set<string>, base: string, outDir: string,
                             shard: seq<Repository>, fetch: string -> Bytes, r: Repository)
    requires Ready(dirs, outDir, shard) && WellFormed(r)
    requires r in shard || (TargetPath(outDir, r) in files && files[TargetPath(outDir, r)] == fetch(ZipUrl(base, r)))
    ensures var m := Downloaded(files, dirs, base, outDir, shard, fetch);
      TargetPath(outDir, r) in m && m[TargetPath(outDir, r)] == fetch(ZipUrl(base, r))
  {
    DownloadedAt(files, dirs, base, outDir, shard, fetch, TargetPath(outDir, r));
    if r !in shard {
      NoOtherTarget(outDir, r, shard);
    }
  }

  /** DownloadedAllWrites for one repository of one shard. */
  lemma DownloadedAllWritesAt(files: map<string, Bytes>, dirs: set<string>, base: string, outDir: string,
                              shards: seq<seq<Repository>>, fetch: string -> Bytes, p: nat, r: Repository)
    requires AllReady(dirs, outDir, shards)
    requires p < |shards| && r in shards[p]
    ensures var m := DownloadedAll(files, dirs, base, outDir, shards, fetch);
      TargetPath(outDir, r) in m && m[TargetPath(outDir, r)] == fetch(ZipUrl(base, r))
  {
    DownloadedAllWrites(files, dirs, base, outDir, shards, fetch);
  }

  /** After all workers, every file that is no repository's target is as it was. */
  lemma {:induction false} DownloadedAllKeeps(files: map<string, Bytes>, dirs: set<string>, base: string,
                                              outDir: string, shards: seq<seq<Repository>>, fetch: string -> Bytes)
    ensures var m := DownloadedAll(files, dirs, base, outDir, shards, fetch);
      forall path :: !TargetedByAny(path, outDir, shards) ==>
        (path in m <==> path in files) && (path in files ==> m[path] == files[path])
  {
    if |shards| > 0 {
      var n := |shards| - 1;
      var front, last := shards[..n], shards[n];
      DownloadedAllKeeps(files, dirs, base, outDir, front, fetch);
      var mf := DownloadedAll(files, dirs, base, outDir, front, fetch);
      DownloadedKeeps(mf, dirs, base, outDir, last, fetch);
      forall path | !TargetedByAny(path, outDir, shards)
        ensures !Targeted(path, outDir, last) && !TargetedByAny(path, outDir, front)
      {
        assert forall p :: 0 <= p < |front| ==> front[p] == shards[p];
      }
    }
  }

  /** The directories and files under the output directory. */
  class Disk {
    var dirs: set<string>
    var files: map<string, Bytes>

    constructor (dirs0: set<string>, files0: map<string, Bytes>)
      ensures dirs == dirs0 && files == files0
    {
      dirs := dirs0;
      files := files0;
    }

    /** `os.mkdir(path)` with `FileExistsError` swallowed: making a directory twice is making it once. */
    method MakeDir(path: string)
      modifies this
      ensures dirs == old(dirs) + {path}
      ensures files == old(files)
    {
      dirs := dirs + {path};
    }

    /** The loop of main.py:79-83: one directory per owner, in whatever order the set yields them. */
    method MakeOwnerDirs(outDir: string, owners: set<string>)
      modifies this
      ensures dirs == old(dirs) + OwnerDirs(outDir, owners)
      ensures files == old(files)
    {
      var rest := owners;
      while rest != {}
        invariant rest <= owners
        invariant dirs == old(dirs) + OwnerDirs(outDir, owners - rest)
        invariant files == old(files)
        decreases rest
      {
        var owner :| owner in rest;
        MakeDir(OwnerDir(outDir, owner));
        assert OwnerDirs(outDir, owners - (rest - {owner})) == OwnerDirs(outDir, owners - rest) + {OwnerDir(outDir, owner)};
        rest := rest - {owner};
      }
    }

    /**
     * `open(os.path.join(dir, name), "wb").write(content)`: fails, changing
     * nothing, when `dir` does not exist; otherwise creates or overwrites the file.
     */
    method WriteFile(dir: string, name: string, content: Bytes) returns (ok: bool)
      modifies this
      ensures ok <==> dir in old(dirs)
      ensures dirs == old(dirs)
      ensures files == if ok then old(files)[PathJoin(dir, name) := content] else old(files)
    {
      ok := dir in dirs;
      if ok {
        files := files[PathJoin(dir, name) := content];
      }
    }

    /** The worker function `download` of main.py:87-95, run over one shard. */
    method Download(base: string, outDir: string, shard: seq<Repository>, fetch: string -> Bytes)
      modifies this
      ensures dirs == old(dirs)
      ensures files == Downloaded(old(files), dirs, base, outDir, shard, fetch)
    {
      var i := 0;
      while i < |shard|
        invariant 0 <= i <= |shard|
        invariant dirs == old(dirs)
        invariant Downloaded(files, dirs, base, outDir, shard[i..], fetch)
               == Downloaded(old(files), dirs, base, outDir, shard, fetch)
      {
        var repository := shard[i];
        var zipUrl := ZipUrl(base, repository);
        var content := fetch(zipUrl);
        assert shard[i..][1..] == shard[i + 1..];
        var ok := WriteFile(OwnerDir(outDir, repository.owner), repository.name + ".zip", content);
        if !ok {
          return;
        }
        i := i + 1;
      }
    }
  }
}
