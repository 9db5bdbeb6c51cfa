/**
 * A repository's identity and the names derived from it: the owner
 * directory (main.py:79-81), the archive path (main.py:94) and the archive URL
 * (main.py:91).
 */
module Targets {
  import opened Address

  /** A discovered repository: `(owner.login, name)` of one listing entry. */
  datatype Repository = Repository(owner: string, name: string)

  /**
   * GitHub logins and repository names are non-empty and never contain '/';
   * the path and URL facts below rest on this.
   */
  predicate WellFormed(r: Repository) {
    r.owner != "" && '/' !in r.owner && '/' !in r.name
  }

  /**
   * What `os.path.join` puts before a relative part joined to `outDir`:
   * `outDir` itself when it is empty or ends with '/', otherwise `outDir` and one '/'.
   */
  function DirPrefix(outDir: string): string {
    if outDir == "" || EndsWithSlash(outDir) then outDir else outDir + "/"
  }

  /** `os.path.join(a, b)` on POSIX for two parts; PathJoinShape states what it yields. */
  function PathJoin(a: string, b: string): (r: string)
    ensures |b| <= |r| <= |a| + 1 + |b|
  {
    if |b| > 0 && b[0] == '/' then b
    else if a == "" || EndsWithSlash(a) then a + b
    else a + "/" + b
  }

  /** `os.path.join(out_dir, owner)` (main.py:81): the owner's directory under the output directory. */
  function OwnerDir(outDir: string, owner: string): (d: string)
    ensures |owner| <= |d| <= |outDir| + 1 + |owner|
  {
    PathJoin(outDir, owner)
  }

  /** `os.path.join(out_dir, owner, f"{repo}.zip")` (main.py:94). */
  function TargetPath(outDir: string, r: Repository): (path: string)
    ensures |r.name| + 4 <= |path| <= |outDir| + |r.owner| + |r.name| + 6
  {
    PathJoin(OwnerDir(outDir, r.owner), r.name + ".zip")
  }

  /** `f"{github_server}/repos/{owner}/{repo}/zipball"` (main.py:91). */
  function ZipUrl(base: string, r: Repository): (u: string)
    ensures |u| == |base| + |r.owner| + |r.name| + 16
  {
    base + "/repos/" + r.owner + "/" + r.name + "/zipball"
  }

  /**
   * `os.path.join(a, b)`: an absolute `b` replaces `a`; otherwise `b` follows
   * `a` after exactly one separator, none being added when `a` is empty or
   * already ends in '/'. Either way the result ends with `b`.
   */
  lemma PathJoinShape(a: string, b: string)
    ensures |b| > 0 && b[0] == '/' ==> PathJoin(a, b) == b
    ensures !(|b| > 0 && b[0] == '/') ==> PathJoin(a, b) == DirPrefix(a) + b
    ensures !(|b| > 0 && b[0] == '/') ==> StartsWith(PathJoin(a, b), a)
    ensures EndsWith(PathJoin(a, b), b)
  {
    var r := PathJoin(a, b);
    if !(|b| > 0 && b[0] == '/') {
      assert r == DirPrefix(a) + b;
      assert r[..|a|] == a;
    }
    assert r[|r| - |b|..] == b;
  }

  /** The archive URL holds the API address, the owner's route and the name, in that order. */
  lemma ZipUrlShape(base: string, r: Repository)
    ensures StartsWith(ZipUrl(base, r), base + "/repos/" + r.owner + "/")
    ensures EndsWith(ZipUrl(base, r), "/" + r.name + "/zipball")
  {
    var u := ZipUrl(base, r);
    var pre := base + "/repos/" + r.owner + "/";
    assert u == pre + (r.name + "/zipball");
    assert u[..|pre|] == pre;
    assert u == (base + "/repos/" + r.owner) + ("/" + r.name + "/zipball");
  }

  /**
   * `set(map(lambda r: r[0], repositories))` (main.py:79): the owners of the
   * repositories, each once.
   */
  function Owners(repos: seq<Repository>): (owners: set<string>)
    ensures forall o :: o in owners <==> exists i :: 0 <= i < |repos| && repos[i].owner == o
    ensures |owners| <= |repos|
  {
    if |repos| == 0 then {}
    else
      var front := repos[..|repos| - 1];
      assert forall i :: 0 <= i < |front| ==> front[i] == repos[i];
      Owners(front) + {repos[|repos| - 1].owner}
  }

  /** The archive of a well-formed repository lands in `outDir/owner/name.zip`, with no doubled '/'. */
  lemma TargetPathShape(outDir: string, r: Repository)
    requires WellFormed(r)
    ensures outDir != "" && !EndsWithSlash(outDir) ==>
      TargetPath(outDir, r) == outDir + "/" + r.owner + "/" + r.name + ".zip"
    ensures EndsWithSlash(outDir) ==>
      TargetPath(outDir, r) == outDir + r.owner + "/" + r.name + ".zip"
    ensures TargetPath(outDir, r) == OwnerDir(outDir, r.owner) + "/" + r.name + ".zip"
  {
    var d := OwnerDir(outDir, r.owner);
    assert r.owner[0] != '/' by { assert r.owner[0] in r.owner; }
    assert d[|d| - 1] == r.owner[|r.owner| - 1];
    assert r.owner[|r.owner| - 1] in r.owner;
    assert (r.name + ".zip")[0] != '/' by {
      if |r.name| > 0 { assert r.name[0] in r.name; }
    }
  }

  /** In `o + "/" + t` with `o` free of '/', the first '/' stands at position `|o|`. */
  lemma FirstSlashAt(o: string, t: string)
    requires '/' !in o
    ensures (o + "/" + t)[|o|] == '/'
    ensures forall i :: 0 <= i < |o| ==> (o + "/" + t)[i] != '/'
  {
    forall i | 0 <= i < |o| ensures (o + "/" + t)[i] != '/' {
      assert (o + "/" + t)[i] == o[i] && o[i] in o;
    }
  }

  /**
   * Two texts `o + "/" + rest`, both `o` free of '/', split at the same place:
   * the first '/' tells where the owner ends.
   */
  lemma {:induction false} SplitAtFirstSlash(o1: string, t1: string, o2: string, t2: string)
    requires '/' !in o1 && '/' !in o2
    requires o1 + "/" + t1 == o2 + "/" + t2
    ensures o1 == o2 && t1 == t2
  {
    var s1, s2 := o1 + "/" + t1, o2 + "/" + t2;
    FirstSlashAt(o1, t1);
    FirstSlashAt(o2, t2);
    assert |o1| == |o2|;
    assert o1 == s1[..|o1|] && o2 == s2[..|o2|];
    assert t1 == s1[|o1| + 1..] && t2 == s2[|o2| + 1..];
  }

  /** `a + x == a + y` and `x + b == y + b` both cancel. */
  lemma CancelAround(a: string, x: string, y: string, b: string)
    requires a + x + b == a + y + b
    ensures x == y
  {
    var s1, s2 := a + x + b, a + y + b;
    assert x == s1[|a|..|a| + |x|] && y == s2[|a|..|a| + |y|];
  }

  /** Distinct well-formed repositories are downloaded from distinct URLs. */
  lemma ZipUrlInjective(base: string, r1: Repository, r2: Repository)
    requires WellFormed(r1) && WellFormed(r2)
    requires ZipUrl(base, r1) == ZipUrl(base, r2)
    ensures r1 == r2
  {
    assert ZipUrl(base, r1) == base + "/repos/" + (r1.owner + "/" + r1.name) + "/zipball";
    assert ZipUrl(base, r2) == base + "/repos/" + (r2.owner + "/" + r2.name) + "/zipball";
    CancelAround(base + "/repos/", r1.owner + "/" + r1.name, r2.owner + "/" + r2.name, "/zipball");
    SplitAtFirstSlash(r1.owner, r1.name, r2.owner, r2.name);
  }

  /** A well-formed repository's archive path is the directory prefix, `owner/name`, and ".zip". */
  lemma TargetPathSplit(outDir: string, r: Repository)
    requires WellFormed(r)
    ensures TargetPath(outDir, r) == DirPrefix(outDir) + (r.owner + "/" + r.name) + ".zip"
  {
    TargetPathShape(outDir, r);
  }

  /**
   * Without well-formedness the archive paths may clash: an empty owner with
   * the name "a/x" and owner "a" with name "x" both write `out/a/x.zip`.
   */
  lemma IllFormedTargetsClash()
    ensures Repository("", "a/x") != Repository("a", "x")
    ensures TargetPath("out", Repository("", "a/x")) == TargetPath("out", Repository("a", "x"))
  {
    assert TargetPath("out", Repository("", "a/x")) == "out/a/x.zip";
    assert TargetPath("out", Repository("a", "x")) == "out/a/x.zip";
  }

  /** Distinct well-formed repositories are written to distinct files, so no archive overwrites another. */
  lemma TargetPathInjective(outDir: string, r1: Repository, r2: Repository)
    requires WellFormed(r1) && WellFormed(r2)
    requires TargetPath(outDir, r1) == TargetPath(outDir, r2)
    ensures r1 == r2
  {
    TargetPathSplit(outDir, r1);
    TargetPathSplit(outDir, r2);
    CancelAround(DirPrefix(outDir), r1.owner + "/" + r1.name, r2.owner + "/" + r2.name, ".zip");
    SplitAtFirstSlash(r1.owner, r1.name, r2.owner, r2.name);
  }
}
