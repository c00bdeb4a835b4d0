/**
  The file system as the temp-file sweep sees it: the files that exist, the
  files that cannot be removed (locked or protected), and, for every existing
  directory, the file paths a recursive walk of it yields.
*/
module TempFs {
  import opened Listings

  type Path = string

  /** The directories searched: %TEMP% (empty when unset), ~\AppData\Local\Temp and C:\Windows\Temp. */
  function TempDirs(env: map<string, string>, home: Path): (dirs: seq<Path>)
    ensures |dirs| == 3
    ensures dirs[0] == if "TEMP" in env then env["TEMP"] else ""
    ensures dirs[1] == home + "\\AppData\\Local\\Temp" && dirs[2] == "C:\\Windows\\Temp"
  {
    [if "TEMP" in env then env["TEMP"] else "", home + "\\AppData\\Local\\Temp", "C:\\Windows\\Temp"]
  }

  /** With %TEMP% unset, the search is over the other two directories only. */
  lemma UnsetTempSkipped(walks: map<Path, seq<Path>>, env: map<string, string>, home: Path)
    requires "TEMP" !in env
    ensures Gather(ExistingDirs(walks), TempDirs(env, home)) == Gather(ExistingDirs(walks), TempDirs(env, home)[1..])
  {
    var dirs := TempDirs(env, home);
    GatherSkipsAbsent(ExistingDirs(walks), dirs, 0);
    assert dirs[..0] + dirs[1..] == dirs[1..];
  }

  /** The directories os.path.exists accepts: the walked ones, never the empty path. */
  function ExistingDirs(walks: map<Path, seq<Path>>): (m: map<Path, seq<Path>>)
    ensures "" !in m
    ensures forall d :: d in m <==> d in walks && d != ""
  {
    walks - {""}
  }

  /** The outcome of a sweep: the files left, and the paths whose removal failed, in input order. */
  datatype Sweep = Sweep(remaining: set<Path>, failed: seq<Path>)

  /**
    Removing each path in turn: a path that exists and is not locked is removed;
    any other (locked, missing, or already removed earlier in the same sweep)
    is recorded as failed and the sweep goes on.
  */
  function SweepPaths(files: set<Path>, locked: set<Path>, paths: seq<Path>): Sweep {
    if paths == [] then Sweep(files, [])
    else
      var p := paths[0];
      if p in files && p !in locked then SweepPaths(files - {p}, locked, paths[1..])
      else
        var rest := SweepPaths(files, locked, paths[1..]);
        Sweep(rest.remaining, [p] + rest.failed)
  }

  /**
    What a sweep guarantees: exactly the unlocked paths of the input are gone,
    so locked files survive; every failure is an input path; and the number of
    paths that did not fail equals the number of files actually removed.
  */
  lemma {:induction false} SweepSound(files: set<Path>, locked: set<Path>, paths: seq<Path>)
    ensures var s := SweepPaths(files, locked, paths);
      && s.remaining == files - (set p | p in paths && p !in locked)
      && (forall p :: p in s.failed ==> p in paths)
      && |s.failed| <= |paths|
      && s.remaining <= files
      && |paths| - |s.failed| == |files| - |s.remaining|
  {
    if paths != [] {
      var p := paths[0];
      var tail := paths[1..];
      assert forall q :: q in paths <==> q == p || q in tail;
      if p in files && p !in locked {
        SweepSound(files - {p}, locked, tail);
      } else {
        SweepSound(files, locked, tail);
      }
    }
  }

  /** A path that does not exist when the sweep reaches it is reported as failed. */
  lemma {:induction false} AbsentPathFails(files: set<Path>, locked: set<Path>, paths: seq<Path>, j: nat)
    requires j < |paths| && paths[j] !in files
    ensures paths[j] in SweepPaths(files, locked, paths).failed
  {
    if j > 0 {
      var p := paths[0];
      if p in files && p !in locked {
        AbsentPathFails(files - {p}, locked, paths[1..], j - 1);
      } else {
        AbsentPathFails(files, locked, paths[1..], j - 1);
      }
    }
  }

  /** A path listed twice is reported as failed: it cannot be removed both times. */
  lemma {:induction false} RepeatedPathFails(files: set<Path>, locked: set<Path>, paths: seq<Path>, i: nat, j: nat)
    requires i < j < |paths| && paths[i] == paths[j]
    ensures paths[i] in SweepPaths(files, locked, paths).failed
  {
    var p := paths[0];
    if i == 0 {
      if p in files && p !in locked {
        AbsentPathFails(files - {p}, locked, paths[1..], j - 1);
      }
    } else if p in files && p !in locked {
      RepeatedPathFails(files - {p}, locked, paths[1..], i - 1, j - 1);
    } else {
      RepeatedPathFails(files, locked, paths[1..], i - 1, j - 1);
    }
  }

  /** The paths whose removal fails when none is listed twice: those missing or locked, in input order. */
  function Unremovable(files: set<Path>, locked: set<Path>, paths: seq<Path>): seq<Path> {
    if paths == [] then []
    else (if paths[0] !in files || paths[0] in locked then [paths[0]] else []) + Unremovable(files, locked, paths[1..])
  }

  predicate Distinct(paths: seq<Path>) {
    forall i, j :: 0 <= i < j < |paths| ==> paths[i] != paths[j]
  }

  /** With no path listed twice, the failures are exactly the missing or locked paths, in input order. */
  lemma {:induction false} SweepFailuresDistinct(files: set<Path>, locked: set<Path>, paths: seq<Path>)
    requires Distinct(paths)
    ensures SweepPaths(files, locked, paths).failed == Unremovable(files, locked, paths)
  {
    if paths != [] {
      var p := paths[0];
      var tail := paths[1..];
      assert Distinct(tail) by {
        forall i, j | 0 <= i < j < |tail| ensures tail[i] != tail[j] {
          assert tail[i] == paths[i + 1] && tail[j] == paths[j + 1];
        }
      }
      if p in files && p !in locked {
        SweepFailuresDistinct(files - {p}, locked, tail);
        UnremovableAgree(files - {p}, files, locked, tail);
      } else {
        SweepFailuresDistinct(files, locked, tail);
      }
    }
  }

  /** Unremovable looks at the existing files only at the paths it is given. */
  lemma {:induction false} UnremovableAgree(f1: set<Path>, f2: set<Path>, locked: set<Path>, paths: seq<Path>)
    requires forall q :: q in paths ==> (q in f1 <==> q in f2)
    ensures Unremovable(f1, locked, paths) == Unremovable(f2, locked, paths)
  {
    if paths != [] {
      UnremovableAgree(f1, f2, locked, paths[1..]);
    }
  }

  /**
    When %TEMP% is the user's own temp directory, as it is by default, that
    directory is searched twice: each of its files is listed twice, and the
    second attempt to remove it fails, so it is reported failed even when the
    first attempt removed it.
  */
  lemma DefaultTempReportedFailed(files: set<Path>, locked: set<Path>, walks: map<Path, seq<Path>>,
                                  env: map<string, string>, home: Path, k: nat)
    requires "TEMP" in env && env["TEMP"] == home + "\\AppData\\Local\\Temp"
    requires env["TEMP"] in walks && k < |walks[env["TEMP"]]|
    ensures var found := Gather(ExistingDirs(walks), TempDirs(env, home));
      var n := |walks[env["TEMP"]]|;
      && k < n && n + k < |found|
      && found[k] == found[n + k] == walks[env["TEMP"]][k]
      && walks[env["TEMP"]][k] in SweepPaths(files, locked, found).failed
  {
    var dir := env["TEMP"];
    var listing := walks[dir];
    var dirs := TempDirs(env, home);
    var m := ExistingDirs(walks);
    assert dir != "" by { assert |dir| > 0; }
    assert dirs == [dir] + [dir] + ["C:\\Windows\\Temp"];
    GatherAppend(m, [dir] + [dir], ["C:\\Windows\\Temp"]);
    GatherAppend(m, [dir], [dir]);
    assert Gather(m, [dir]) == listing + Gather(m, []);
    var found := Gather(m, dirs);
    assert found == listing + listing + Gather(m, ["C:\\Windows\\Temp"]);
    assert found[k] == listing[k] && found[|listing| + k] == listing[k];
    RepeatedPathFails(files, locked, found, k, |listing| + k);
  }

  /** The file system state the sweep works on. */
  class FileSystem {
    var files: set<Path>
    var locked: set<Path>
    /** Each existing directory with the file paths os.walk yields under it, in walk order. */
    var walks: map<Path, seq<Path>>

    constructor (files: set<Path>, locked: set<Path>, walks: map<Path, seq<Path>>)
      ensures this.files == files && this.locked == locked && this.walks == walks
    {
      this.files := files;
      this.locked := locked;
      this.walks := walks;
    }

    /** os.remove: succeeds on an existing file that is not locked, raises otherwise. */
    method Remove(p: Path) returns (ok: bool)
      modifies this`files
      ensures ok == (p in old(files) && p !in locked)
      ensures files == if ok then old(files) - {p} else old(files)
    {
      ok := p in files && p !in locked;
      if ok {
        files := files - {p};
      }
    }

    /** Tries to remove every path in turn; a removal that raises is recorded and the loop goes on. */
    method RemoveAll(paths: seq<Path>) returns (failed: seq<Path>)
      modifies this`files
      ensures Sweep(files, failed) == SweepPaths(old(files), locked, paths)
    {
      failed := [];
      var i := 0;
      while i < |paths|
        invariant 0 <= i <= |paths|
        invariant var rest := SweepPaths(files, locked, paths[i..]);
          SweepPaths(old(files), locked, paths) == Sweep(rest.remaining, failed + rest.failed)
      {
        assert paths[i..][0] == paths[i] && paths[i..][1..] == paths[i + 1..];
        var ok := Remove(paths[i]);
        if !ok {
          ghost var rest := SweepPaths(files, locked, paths[i + 1..]);
          assert failed + ([paths[i]] + rest.failed) == (failed + [paths[i]]) + rest.failed;
          failed := failed + [paths[i]];
        }
        i := i + 1;
      }
    }

    /** Lists every file under each directory that exists, directory by directory, skipping missing ones. */
    method CollectFiles(dirs: seq<Path>) returns (found: seq<Path>)
      ensures found == Gather(ExistingDirs(walks), dirs)
    {
      var existing := ExistingDirs(walks);
      found := [];
      var d := 0;
      while d < |dirs|
        invariant 0 <= d <= |dirs|
        invariant found == Gather(existing, dirs[..d])
      {
        GatherAppend(existing, dirs[..d], [dirs[d]]);
        assert dirs[..d + 1] == dirs[..d] + [dirs[d]];
        if dirs[d] != "" && dirs[d] in walks {
          var listing := walks[dirs[d]];
          var i := 0;
          while i < |listing|
            invariant 0 <= i <= |listing|
            invariant found == Gather(existing, dirs[..d]) + listing[..i]
          {
            found := found + [listing[i]];
            i := i + 1;
          }
        }
        d := d + 1;
      }
      assert dirs[..d] == dirs;
    }
  }
}
