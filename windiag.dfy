/**
  The command-line diagnostic tool: the startup-entry policy filter, the
  parser of the user's comma-separated selection, the startup scan and the
  disable pass over the registry, the temporary-file search and clean-up.
*/
module WinDiag {
  import opened Text
  import opened Listings
  import opened WinRegistry
  import opened TempFs

  /** The policy table: a name mapped to true is essential and is never offered for disabling. */
  const CriticalApps: map<string, bool> :=
    map["Windows Security Notification" := true, "OneDrive" := true, "Microsoft Teams" := false]

  /** critical_apps.get(name) is True. */
  function IsCritical(name: string): (r: bool)
    ensures r <==> name == "Windows Security Notification" || name == "OneDrive"
  {
    name in CriticalApps && CriticalApps[name]
  }

  /** get_non_essential_startup_apps: the entries whose name the policy does not map to true. */
  function NonEssential(apps: seq<StartupEntry>): seq<StartupEntry> {
    if apps == [] then []
    else (if IsCritical(apps[0].name) then [] else [apps[0]]) + NonEssential(apps[1..])
  }

  /** The filter works entry by entry: the kept entries of a come before those of b. */
  lemma {:induction false} NonEssentialAppend(a: seq<StartupEntry>, b: seq<StartupEntry>)
    ensures NonEssential(a + b) == NonEssential(a) + NonEssential(b)
  {
    if a == [] {
      assert a + b == b;
    } else {
      assert (a + b)[0] == a[0] && (a + b)[1..] == a[1..] + b;
      NonEssentialAppend(a[1..], b);
    }
  }

  /** Every non-critical entry is kept as often as it occurs, every critical one is dropped. */
  lemma {:induction false} NonEssentialCounts(apps: seq<StartupEntry>)
    ensures forall e :: multiset(NonEssential(apps))[e] == if IsCritical(e.name) then 0 else multiset(apps)[e]
  {
    if apps != [] {
      NonEssentialCounts(apps[1..]);
      assert apps == [apps[0]] + apps[1..];
    }
  }

  /** Which positions are kept depends on the names alone, never on the commands. */
  lemma {:induction false} NonEssentialByName(a: seq<StartupEntry>, b: seq<StartupEntry>)
    requires Names(a) == Names(b)
    ensures Names(NonEssential(a)) == Names(NonEssential(b))
  {
    if a != [] {
      assert a[0].name == Names(a)[0] == Names(b)[0] == b[0].name;
      assert Names(a[1..]) == Names(a)[1..] && Names(b[1..]) == Names(b)[1..];
      NonEssentialByName(a[1..], b[1..]);
      var ka := if IsCritical(a[0].name) then [] else [a[0]];
      var kb := if IsCritical(b[0].name) then [] else [b[0]];
      NamesAppend(ka, NonEssential(a[1..]));
      NamesAppend(kb, NonEssential(b[1..]));
    }
  }

  lemma NamesAppend(a: seq<StartupEntry>, b: seq<StartupEntry>)
    ensures Names(a + b) == Names(a) + Names(b)
  {
  }

  /** The index one comma-separated token contributes: its number when it is all digits once stripped, none otherwise. */
  function TokenIndex(token: string): seq<nat> {
    var t := Strip(token);
    if IsDigits(t) then [ParseNat(t)] else []
  }

  /** The indices typed by the user, token by token. */
  function Indices(tokens: seq<string>): seq<nat> {
    Concat(TokenIndex, tokens)
  }

  /** The indices in the typed selection: the comma-separated tokens that are all digits once stripped, read as numbers. */
  function ParseIndices(input: string): seq<nat> {
    Indices(Split(input, ","))
  }

  /** The indices that name an entry of a list of n entries, in order, repeats kept. */
  function InRange(idx: seq<nat>, n: nat): (r: seq<nat>)
    ensures forall k :: 0 <= k < |r| ==> 0 < r[k] <= n
  {
    if idx == [] then []
    else (if 0 < idx[0] <= n then [idx[0]] else []) + InRange(idx[1..], n)
  }

  /** The entries the indices name, counting from 1, in the order of the indices; an index outside the list names nothing. */
  function Select(apps: seq<StartupEntry>, idx: seq<nat>): seq<StartupEntry> {
    if idx == [] then []
    else (if 0 < idx[0] <= |apps| then [apps[idx[0] - 1]] else []) + Select(apps, idx[1..])
  }

  /** display_and_choose_apps: nothing to offer means nothing chosen; otherwise the entries the typed indices name. */
  function ChooseApps(apps: seq<StartupEntry>, input: string): seq<StartupEntry> {
    if apps == [] then [] else Select(apps, ParseIndices(input))
  }

  /** Tokens are read independently and in order. */
  lemma IndicesAppend(a: seq<string>, b: seq<string>)
    ensures Indices(a + b) == Indices(a) + Indices(b)
  {
    ConcatAppend(TokenIndex, a, b);
  }

  /** A token is dropped exactly when it is not all digits once stripped; a kept one reads as its number. */
  lemma IndicesOne(token: string)
    ensures Indices([token]) == if IsDigits(Strip(token)) then [ParseNat(Strip(token))] else []
  {
    assert [token][1..] == [];
    assert Indices([token]) == TokenIndex(token) + Indices([]);
  }

  /** The range filter looks at each index on its own, in order. */
  lemma {:induction false} InRangeAppend(a: seq<nat>, b: seq<nat>, n: nat)
    ensures InRange(a + b, n) == InRange(a, n) + InRange(b, n)
  {
    if a == [] {
      assert a + b == b;
    } else {
      assert (a + b)[1..] == a[1..] + b;
      InRangeAppend(a[1..], b, n);
    }
  }

  /** One index is kept exactly when it lies in 1..n. */
  lemma InRangeOne(i: nat, n: nat)
    ensures InRange([i], n) == if 0 < i <= n then [i] else []
  {
    assert [i][1..] == [];
  }

  /** The decimal texts of some numbers, in order. */
  function Decimals(idx: seq<nat>): (texts: seq<string>)
    ensures |texts| == |idx|
    ensures forall k :: 0 <= k < |idx| ==> texts[k] == NatToString(idx[k])
  {
    if idx == [] then [] else [NatToString(idx[0])] + Decimals(idx[1..])
  }

  /** Typing numbers separated by commas selects exactly those numbers, in the order typed, repeats kept. */
  lemma {:induction false} ParseIndicesOfJoin(idx: seq<nat>)
    ensures ParseIndices(Join(Decimals(idx), ",")) == idx
  {
    if idx == [] {
      assert Join(Decimals(idx), ",") == "";
      assert Split("", ",") == [""];
      IndicesOne("");
      return;
    }
    var texts := Decimals(idx);
    forall k | 0 <= k < |texts| ensures ',' !in texts[k] {
      assert IsDigits(texts[k]);
    }
    SplitOfJoin(texts, ',');
    IndicesOfDecimals(idx);
  }

  lemma {:induction false} IndicesOfDecimals(idx: seq<nat>)
    ensures Indices(Decimals(idx)) == idx
  {
    if idx != [] {
      var t := NatToString(idx[0]);
      StripUnpadded(t);
      ParseNatToString(idx[0]);
      assert Decimals(idx)[1..] == Decimals(idx[1..]);
      IndicesOfDecimals(idx[1..]);
    }
  }

  /** The k-th chosen entry is the one the k-th in-range index names; out-of-range indices choose nothing. */
  lemma {:induction false} SelectByIndex(apps: seq<StartupEntry>, idx: seq<nat>)
    ensures var r := InRange(idx, |apps|);
      && |Select(apps, idx)| == |r|
      && forall k :: 0 <= k < |r| ==> Select(apps, idx)[k] == apps[r[k] - 1]
  {
    if idx != [] {
      SelectByIndex(apps, idx[1..]);
    }
  }

  /** Only entries on offer can be chosen. */
  lemma {:induction false} SelectFrom(apps: seq<StartupEntry>, idx: seq<nat>)
    ensures forall e :: e in Select(apps, idx) ==> e in apps
  {
    if idx != [] {
      SelectFrom(apps, idx[1..]);
    }
  }

  /** The keys the command-line scan reads, in order: the four machine-wide keys, then the user's Run key. */
  const CliScanRoots: seq<Root> := [
    Root(LocalMachine, RunKey), Root(LocalMachine, RunOnceKey),
    Root(LocalMachine, Wow64RunKey), Root(LocalMachine, Wow64RunOnceKey),
    Root(CurrentUser, RunKey)]

  /** get_startup_apps */
  method GetStartupApps(reg: Registry) returns (apps: seq<StartupEntry>)
    ensures apps == Gather(reg.keys, CliScanRoots)
  {
    apps := reg.ReadRoots(CliScanRoots);
  }

  /** disable_startup_apps: each chosen entry is deleted by name from HKLM Run or else HKCU Run. */
  method DisableStartupApps(reg: Registry, apps: seq<StartupEntry>) returns (log: seq<Event>, completed: bool)
    modifies reg`keys
    ensures Pass(reg.keys, log, completed) == DisableAll(old(reg.keys), reg.writeDenied, WritableRunRoots, Names(apps))
  {
    var names := Names(apps);
    log := [];
    completed := true;
    var i := 0;
    while i < |apps|
      invariant 0 <= i <= |apps|
      invariant Pass(reg.keys, log, true) == DisableAll(old(reg.keys), reg.writeDenied, WritableRunRoots, names[..i])
    {
      ghost var before := reg.keys;
      var entryLog, entryCompleted := reg.DeleteEntry(WritableRunRoots, apps[i].name);
      DisableAllAppend(old(reg.keys), reg.writeDenied, WritableRunRoots, names[..i], [names[i]]);
      assert names[..i + 1] == names[..i] + [names[i]];
      assert DisableAll(DeleteFirst(before, reg.writeDenied, WritableRunRoots, names[i]).keys, reg.writeDenied, WritableRunRoots, []).log == [];
      log := log + entryLog;
      if !entryCompleted {
        completed := false;
        DisableAllStops(old(reg.keys), reg.writeDenied, WritableRunRoots, names[..i + 1], names[i + 1..]);
        assert names[..i + 1] + names[i + 1..] == names;
        return;
      }
      i := i + 1;
    }
    assert names[..i] == names;
  }

  /**
    main_startup_analysis with the user's typed selection: scan, filter by the
    policy, choose, and disable what was chosen. An entry of a critical app is
    never reported disabled and stays in its key, and entries of the keys that
    are scanned but not written (RunOnce and the 32-bit view) are never touched.
  */
  method StartupAnalysis(reg: Registry, input: string) returns (log: seq<Event>, completed: bool)
    modifies reg`keys
    ensures Pass(reg.keys, log, completed)
         == DisableAll(old(reg.keys), reg.writeDenied, WritableRunRoots,
                       Names(ChooseApps(NonEssential(Gather(old(reg.keys), CliScanRoots)), input)))
    ensures forall e :: e in log && e.Disabled? ==> !IsCritical(e.name)
    ensures forall r, e :: r in old(reg.keys) && e in old(reg.keys)[r] && IsCritical(e.name) ==> r in reg.keys && e in reg.keys[r]
    ensures forall r :: r in old(reg.keys) && r !in WritableRunRoots ==> r in reg.keys && reg.keys[r] == old(reg.keys)[r]
  {
    var apps := GetStartupApps(reg);
    var chosen := ChooseApps(NonEssential(apps), input);
    if apps == [] || chosen == [] {
      log := [];
      completed := true;
      assert Names(chosen) == [];
    } else {
      log, completed := DisableStartupApps(reg, chosen);
    }
    AnalysisSafe(old(reg.keys), reg.writeDenied, input);
  }

  /**
    Whatever the user types, the batch main_startup_analysis runs never
    reports a critical app disabled, leaves every critical entry in its key,
    and leaves the keys it does not write to as they were.
  */
  lemma AnalysisSafe(keys: Keys, denied: set<Root>, input: string)
    ensures var p := DisableAll(keys, denied, WritableRunRoots,
                                Names(ChooseApps(NonEssential(Gather(keys, CliScanRoots)), input)));
      && (forall e :: e in p.log && e.Disabled? ==> !IsCritical(e.name))
      && (forall r, e :: r in keys && e in keys[r] && IsCritical(e.name) ==> r in p.keys && e in p.keys[r])
      && (forall r :: r in keys && r !in WritableRunRoots ==> r in p.keys && p.keys[r] == keys[r])
  {
    var apps := Gather(keys, CliScanRoots);
    var names := Names(ChooseApps(NonEssential(apps), input));
    CriticalNeverChosen(apps, input);
    BatchSparesCritical(keys, denied, names);
    DisableAllUntouched(keys, denied, WritableRunRoots, names);
  }

  /** A batch of non-critical names neither reports a critical app disabled nor removes a critical entry. */
  lemma BatchSparesCritical(keys: Keys, denied: set<Root>, names: seq<string>)
    requires forall n :: n in names ==> !IsCritical(n)
    ensures var p := DisableAll(keys, denied, WritableRunRoots, names);
      && (forall e :: e in p.log && e.Disabled? ==> !IsCritical(e.name))
      && (forall r, e :: r in keys && e in keys[r] && IsCritical(e.name) ==> r in p.keys && e in p.keys[r])
  {
    DisableAllReports(keys, denied, WritableRunRoots, names);
    DisableAllKeepsOthers(keys, denied, WritableRunRoots, names);
  }

  /** No name the user can choose belongs to a critical app. */
  lemma CriticalNeverChosen(apps: seq<StartupEntry>, input: string)
    ensures forall n :: n in Names(ChooseApps(NonEssential(apps), input)) ==> !IsCritical(n)
  {
    var offered := NonEssential(apps);
    NonEssentialCounts(apps);
    if offered != [] {
      SelectFrom(offered, ParseIndices(input));
    }
    forall n | n in Names(ChooseApps(offered, input)) ensures !IsCritical(n) {
      var chosen := ChooseApps(offered, input);
      var k :| 0 <= k < |chosen| && Names(chosen)[k] == n;
      assert chosen[k] in offered;
      assert multiset(offered)[chosen[k]] > 0;
    }
  }

  /** find_temp_files */
  method FindTempFiles(fs: FileSystem, env: map<string, string>, home: Path) returns (files: seq<Path>)
    ensures files == Gather(ExistingDirs(fs.walks), TempDirs(env, home))
  {
    files := fs.CollectFiles(TempDirs(env, home));
  }

  /** clean_temp_files: the failures in order, and the success count it logs, which is the number of files removed. */
  method CleanTempFiles(fs: FileSystem, files: seq<Path>) returns (failed: seq<Path>, succeeded: nat)
    modifies fs`files
    ensures Sweep(fs.files, failed) == SweepPaths(old(fs.files), fs.locked, files)
    ensures succeeded == |files| - |failed| == |old(fs.files)| - |fs.files|
  {
    SweepSound(fs.files, fs.locked, files);
    failed := fs.RemoveAll(files);
    succeeded := |files| - |failed|;
  }
}
