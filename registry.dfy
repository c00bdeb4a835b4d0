/**
  The part of the Windows registry the tool touches: the Run and RunOnce keys
  under HKEY_LOCAL_MACHINE and HKEY_CURRENT_USER, their values, and which keys
  refuse to open for writing. The functions here specify the two registry
  passes of the tool: enumerating startup entries and deleting one by name.
*/
module WinRegistry {
  import opened Listings

  datatype Hive = LocalMachine | CurrentUser

  /** A registry key address: a hive and a subkey path. */
  datatype Root = Root(hive: Hive, subkey: string)

  /** One value of a Run key: the value name and the command line it launches. */
  datatype StartupEntry = StartupEntry(name: string, command: string)

  const RunKey: string := "SOFTWARE\\Microsoft\\Windows\\CurrentVersion\\Run"
  const RunOnceKey: string := "SOFTWARE\\Microsoft\\Windows\\CurrentVersion\\RunOnce"
  const Wow64RunKey: string := "SOFTWARE\\WOW6432Node\\Microsoft\\Windows\\CurrentVersion\\Run"
  const Wow64RunOnceKey: string := "SOFTWARE\\WOW6432Node\\Microsoft\\Windows\\CurrentVersion\\RunOnce"

  /** The keys a startup entry is deleted from, in the order they are tried: HKLM Run, then HKCU Run. */
  const WritableRunRoots: seq<Root> := [Root(LocalMachine, RunKey), Root(CurrentUser, RunKey)]

  /** Registry contents: each existing key with its values in enumeration order; a key that does not exist is absent. */
  type Keys = map<Root, seq<StartupEntry>>

  /** The value names of a list of entries, in order. */
  function Names(entries: seq<StartupEntry>): (names: seq<string>)
    ensures |names| == |entries|
    ensures forall i :: 0 <= i < |entries| ==> names[i] == entries[i].name
  {
    seq(|entries|, i requires 0 <= i < |entries| => entries[i].name)
  }

  predicate HasName(vals: seq<StartupEntry>, name: string) {
    exists e :: e in vals && e.name == name
  }

  /** The values of a key once winreg.DeleteValue(key, name) has removed the value of that name. */
  function RemoveName(vals: seq<StartupEntry>, name: string): (r: seq<StartupEntry>)
    ensures forall e :: e in r <==> e in vals && e.name != name
    ensures !HasName(r, name)
    ensures !HasName(vals, name) ==> r == vals
  {
    if vals == [] then []
    else if vals[0].name == name then RemoveName(vals[1..], name)
    else [vals[0]] + RemoveName(vals[1..], name)
  }

  /** What the delete loop reports: a deletion, or a PermissionError on opening a key for writing. */
  datatype Event = Disabled(name: string, root: Root) | PermissionDenied(name: string, root: Root)

  /**
    The outcome of a delete pass: the registry afterwards, the events reported in
    order, and whether the pass ran to its end. It does not when a key to be
    opened for writing does not exist: winreg.OpenKey then raises
    FileNotFoundError, which only a PermissionError handler surrounds, so the
    exception leaves the pass.
  */
  datatype Pass = Pass(keys: Keys, log: seq<Event>, completed: bool)

  /** The key exists, opens for writing, and holds a value of that name. */
  predicate Holds(keys: Keys, denied: set<Root>, root: Root, name: string) {
    root in keys && root !in denied && HasName(keys[root], name)
  }

  /**
    Deleting one startup entry by name: the keys are tried in order; a key that
    refuses to open for writing is reported and the loop goes on; a key without
    the value is passed over; the first key holding the value has it deleted
    and the loop stops there.
  */
  function DeleteFirst(keys: Keys, denied: set<Root>, roots: seq<Root>, name: string): Pass {
    if roots == [] then Pass(keys, [], true)
    else
      var root := roots[0];
      if root !in keys then Pass(keys, [], false)
      else if root in denied then
        var rest := DeleteFirst(keys, denied, roots[1..], name);
        Pass(rest.keys, [PermissionDenied(name, root)] + rest.log, rest.completed)
      else if HasName(keys[root], name) then
        Pass(keys[root := RemoveName(keys[root], name)], [Disabled(name, root)], true)
      else DeleteFirst(keys, denied, roots[1..], name)
  }

  /** The keys of a delete pass: the same keys exist, none gains a value, and the pass completes when every key exists. */
  lemma {:induction false} DeleteFirstFrame(keys: Keys, denied: set<Root>, roots: seq<Root>, name: string)
    ensures var p := DeleteFirst(keys, denied, roots, name);
      && p.keys.Keys == keys.Keys
      && (forall r, e :: r in p.keys && e in p.keys[r] ==> e in keys[r])
      && ((forall r :: r in roots ==> r in keys) ==> p.completed)
  {
    if roots != [] && roots[0] in keys && (roots[0] in denied || !HasName(keys[roots[0]], name)) {
      DeleteFirstFrame(keys, denied, roots[1..], name);
    }
  }

  /** The reports of a delete pass: about that name and keys tried; all but the last are refusals of keys that refused writing. */
  lemma {:induction false} DeleteFirstLog(keys: Keys, denied: set<Root>, roots: seq<Root>, name: string)
    ensures var p := DeleteFirst(keys, denied, roots, name);
      && (forall e :: e in p.log ==> e.name == name && e.root in roots && e.root in keys)
      && (forall i :: 0 <= i < |p.log| - 1 ==> p.log[i].PermissionDenied?)
      && (forall e :: e in p.log && e.PermissionDenied? ==> e.root in denied)
  {
    if roots != [] && roots[0] in keys {
      var root := roots[0];
      if root in denied {
        DeleteFirstLog(keys, denied, roots[1..], name);
        var rest := DeleteFirst(keys, denied, roots[1..], name);
        var log := [PermissionDenied(name, root)] + rest.log;
        assert forall i :: 1 <= i < |log| ==> log[i] == rest.log[i - 1];
      } else if !HasName(keys[root], name) {
        DeleteFirstLog(keys, denied, roots[1..], name);
      }
    }
  }

  /** The change a delete pass makes: none unless the last report is a deletion, which is then the only change. */
  lemma {:induction false} DeleteFirstChange(keys: Keys, denied: set<Root>, roots: seq<Root>, name: string)
    ensures var p := DeleteFirst(keys, denied, roots, name);
      && ((p.log == [] || p.log[|p.log| - 1].PermissionDenied?) ==> p.keys == keys)
      && (p.log != [] && p.log[|p.log| - 1].Disabled? ==>
            var r := p.log[|p.log| - 1].root;
            && Holds(keys, denied, r, name)
            && p.completed
            && p.keys == keys[r := RemoveName(keys[r], name)])
  {
    if roots != [] && roots[0] in keys {
      var root := roots[0];
      if root in denied {
        DeleteFirstChange(keys, denied, roots[1..], name);
        var rest := DeleteFirst(keys, denied, roots[1..], name);
        assert rest.log != [] ==> ([PermissionDenied(name, root)] + rest.log)[|rest.log|] == rest.log[|rest.log| - 1];
      } else if !HasName(keys[root], name) {
        DeleteFirstChange(keys, denied, roots[1..], name);
      }
    }
  }

  /**
    What one delete pass guarantees: at most one key changes, and only by losing
    the value of that name; the change is reported as the last event, naming a
    key that held the value; every earlier event is a PermissionDenied for a
    key that refused writing; and the pass runs to its end when every key exists.
  */
  lemma DeleteFirstSound(keys: Keys, denied: set<Root>, roots: seq<Root>, name: string)
    ensures var p := DeleteFirst(keys, denied, roots, name);
      && p.keys.Keys == keys.Keys
      && (forall r, e :: r in p.keys && e in p.keys[r] ==> e in keys[r])
      && (forall e :: e in p.log ==> e.name == name && e.root in roots && e.root in keys)
      && (forall i :: 0 <= i < |p.log| - 1 ==> p.log[i].PermissionDenied?)
      && (forall e :: e in p.log && e.PermissionDenied? ==> e.root in denied)
      && ((p.log == [] || p.log[|p.log| - 1].PermissionDenied?) ==> p.keys == keys)
      && (p.log != [] && p.log[|p.log| - 1].Disabled? ==>
            var r := p.log[|p.log| - 1].root;
            && Holds(keys, denied, r, name)
            && p.completed
            && p.keys == keys[r := RemoveName(keys[r], name)])
      && ((forall r :: r in roots ==> r in keys) ==> p.completed)
  {
    DeleteFirstFrame(keys, denied, roots, name);
    DeleteFirstLog(keys, denied, roots, name);
    DeleteFirstChange(keys, denied, roots, name);
  }

  /**
    The value is deleted from the first key that holds it, provided every key
    tried before it exists; keys before it that refuse writing do not stop the
    loop, and nothing else changes.
  */
  lemma {:induction false} DeleteFirstHolder(keys: Keys, denied: set<Root>, roots: seq<Root>, name: string, k: nat)
    requires k < |roots| && Holds(keys, denied, roots[k], name)
    requires forall j :: 0 <= j < k ==> roots[j] in keys && !Holds(keys, denied, roots[j], name)
    ensures DeleteFirst(keys, denied, roots, name).completed
    ensures DeleteFirst(keys, denied, roots, name).keys == keys[roots[k] := RemoveName(keys[roots[k]], name)]
    ensures Disabled(name, roots[k]) in DeleteFirst(keys, denied, roots, name).log
  {
    if k > 0 {
      DeleteFirstHolder(keys, denied, roots[1..], name, k - 1);
    }
  }

  /**
    A name that no writable existing key holds changes nothing, and only the
    keys that refused writing are reported; deleting an entry that is already
    gone is therefore harmless.
  */
  lemma {:induction false} DeleteFirstNoHolder(keys: Keys, denied: set<Root>, roots: seq<Root>, name: string)
    requires forall j :: 0 <= j < |roots| ==> roots[j] in keys && !Holds(keys, denied, roots[j], name)
    ensures DeleteFirst(keys, denied, roots, name) == Pass(keys, DeniedEvents(denied, roots, name), true)
  {
    if roots != [] {
      DeleteFirstNoHolder(keys, denied, roots[1..], name);
    }
  }

  /** The PermissionDenied reports for the keys of `roots` that refuse writing, in order. */
  function DeniedEvents(denied: set<Root>, roots: seq<Root>, name: string): (log: seq<Event>)
    ensures forall e :: e in log ==> e == PermissionDenied(name, e.root) && e.root in denied && e.root in roots
  {
    if roots == [] then []
    else (if roots[0] in denied then [PermissionDenied(name, roots[0])] else []) + DeniedEvents(denied, roots[1..], name)
  }

  /** A missing key met before any holder ends the pass, with the registry unchanged. */
  lemma {:induction false} DeleteFirstMissing(keys: Keys, denied: set<Root>, roots: seq<Root>, name: string, k: nat)
    requires k < |roots| && roots[k] !in keys
    requires forall j :: 0 <= j < k ==> roots[j] in keys && !Holds(keys, denied, roots[j], name)
    ensures !DeleteFirst(keys, denied, roots, name).completed
    ensures DeleteFirst(keys, denied, roots, name).keys == keys
  {
    if k > 0 {
      DeleteFirstMissing(keys, denied, roots[1..], name, k - 1);
    }
  }

  function DisabledCount(log: seq<Event>): nat {
    if log == [] then 0 else (if log[0].Disabled? then 1 else 0) + DisabledCount(log[1..])
  }

  lemma {:induction false} DisabledCountAppend(a: seq<Event>, b: seq<Event>)
    ensures DisabledCount(a + b) == DisabledCount(a) + DisabledCount(b)
  {
    if a == [] {
      assert a + b == b;
    } else {
      assert (a + b)[1..] == a[1..] + b;
      DisabledCountAppend(a[1..], b);
    }
  }

  /** A log in which every event but the last is a PermissionDenied reports at most one deletion. */
  lemma {:induction false} DisabledCountAtMostOne(log: seq<Event>)
    requires forall i :: 0 <= i < |log| - 1 ==> log[i].PermissionDenied?
    ensures DisabledCount(log) <= 1
    ensures DisabledCount(log) == 0 ==> forall e :: e in log ==> e.PermissionDenied?
  {
    if |log| > 1 {
      DisabledCountAtMostOne(log[1..]);
      assert log[0].PermissionDenied?;
    } else if |log| == 1 {
      assert log[1..] == [];
    }
  }

  /**
    Deleting a batch of names one after the other. The batch stops only when a
    key to be opened does not exist; a PermissionError on one name's key never
    keeps the other names from being tried.
  */
  function DisableAll(keys: Keys, denied: set<Root>, roots: seq<Root>, names: seq<string>): Pass
    decreases names
  {
    if names == [] then Pass(keys, [], true)
    else
      var first := DeleteFirst(keys, denied, roots, names[0]);
      if !first.completed then first
      else
        var rest := DisableAll(first.keys, denied, roots, names[1..]);
        Pass(rest.keys, first.log + rest.log, rest.completed)
  }

  /**
    A batch removes values and nothing else: the same keys exist afterwards,
    none gains a value, and when every key exists the whole batch is handled.
  */
  lemma {:induction false} DisableAllFrame(keys: Keys, denied: set<Root>, roots: seq<Root>, names: seq<string>)
    ensures var p := DisableAll(keys, denied, roots, names);
      && p.keys.Keys == keys.Keys
      && (forall r, e :: r in p.keys && e in p.keys[r] ==> e in keys[r])
      && ((forall r :: r in roots ==> r in keys) ==> p.completed)
    decreases names
  {
    if names != [] {
      var first := DeleteFirst(keys, denied, roots, names[0]);
      DeleteFirstSound(keys, denied, roots, names[0]);
      if first.completed {
        DisableAllFrame(first.keys, denied, roots, names[1..]);
      }
    }
  }

  /**
    Every report of a batch is about one of its names and one of the keys tried,
    and there is at most one deletion per entry of the batch, so no more
    deletions than entries (a name listed twice may be deleted from two keys).
  */
  lemma {:induction false} DisableAllReports(keys: Keys, denied: set<Root>, roots: seq<Root>, names: seq<string>)
    ensures var p := DisableAll(keys, denied, roots, names);
      && (forall e :: e in p.log ==> e.name in names && e.root in roots && e.root in keys)
      && DisabledCount(p.log) <= |names|
    decreases names
  {
    if names != [] {
      var first := DeleteFirst(keys, denied, roots, names[0]);
      DeleteFirstSound(keys, denied, roots, names[0]);
      DisabledCountAtMostOne(first.log);
      if first.completed {
        DisableAllReports(first.keys, denied, roots, names[1..]);
        var rest := DisableAll(first.keys, denied, roots, names[1..]);
        DisabledCountAppend(first.log, rest.log);
      }
    }
  }

  /** A name reported disabled on a key is gone from that key once the batch is over. */
  lemma {:induction false} DisableAllGone(keys: Keys, denied: set<Root>, roots: seq<Root>, names: seq<string>)
    ensures var p := DisableAll(keys, denied, roots, names);
      forall e :: e in p.log && e.Disabled? ==> e.root in p.keys && !HasName(p.keys[e.root], e.name)
    decreases names
  {
    if names != [] {
      var first := DeleteFirst(keys, denied, roots, names[0]);
      DeleteFirstSound(keys, denied, roots, names[0]);
      if first.completed {
        DisableAllGone(first.keys, denied, roots, names[1..]);
        DisableAllFrame(first.keys, denied, roots, names[1..]);
        var rest := DisableAll(first.keys, denied, roots, names[1..]);
        forall e | e in first.log && e.Disabled?
          ensures e.root in rest.keys && !HasName(rest.keys[e.root], e.name)
        {
          assert e == first.log[|first.log| - 1];
        }
      }
    }
  }

  /**
    A batch is the same as its first part followed by the rest run on the
    registry the first part left: each name is handled on its own.
  */
  lemma {:induction false} DisableAllAppend(keys: Keys, denied: set<Root>, roots: seq<Root>, a: seq<string>, b: seq<string>)
    requires DisableAll(keys, denied, roots, a).completed
    ensures
      var p := DisableAll(keys, denied, roots, a);
      var q := DisableAll(p.keys, denied, roots, b);
      DisableAll(keys, denied, roots, a + b) == Pass(q.keys, p.log + q.log, q.completed)
    decreases a
  {
    if a == [] {
      assert a + b == b;
    } else {
      var first := DeleteFirst(keys, denied, roots, a[0]);
      var rest := DisableAll(first.keys, denied, roots, a[1..]);
      assert first.completed && DisableAll(keys, denied, roots, a) == Pass(rest.keys, first.log + rest.log, rest.completed);
      var ab := a + b;
      assert ab[0] == a[0] && ab[1..] == a[1..] + b;
      var q := DisableAll(rest.keys, denied, roots, b);
      assert DisableAll(first.keys, denied, roots, a[1..] + b) == Pass(q.keys, rest.log + q.log, q.completed) by {
        DisableAllAppend(first.keys, denied, roots, a[1..], b);
      }
      assert DisableAll(keys, denied, roots, ab)
          == Pass(q.keys, first.log + (rest.log + q.log), q.completed);
      assert first.log + (rest.log + q.log) == (first.log + rest.log) + q.log;
    }
  }

  /** One more name at the end of a batch that ran to its end is one more delete pass on what the batch left. */
  lemma DisableAllSnoc(keys: Keys, denied: set<Root>, roots: seq<Root>, names: seq<string>, name: string)
    requires DisableAll(keys, denied, roots, names).completed
    ensures
      var p := DisableAll(keys, denied, roots, names);
      var d := DeleteFirst(p.keys, denied, roots, name);
      DisableAll(keys, denied, roots, names + [name]) == Pass(d.keys, p.log + d.log, d.completed)
  {
    var p := DisableAll(keys, denied, roots, names);
    DisableAllAppend(keys, denied, roots, names, [name]);
    var d := DeleteFirst(p.keys, denied, roots, name);
    assert DisableAll(d.keys, denied, roots, []) == Pass(d.keys, [], true);
    assert d.log + [] == d.log;
  }

  /** Once a batch has stopped on a missing key, the names after it are never tried. */
  lemma {:induction false} DisableAllStops(keys: Keys, denied: set<Root>, roots: seq<Root>, a: seq<string>, b: seq<string>)
    requires !DisableAll(keys, denied, roots, a).completed
    ensures DisableAll(keys, denied, roots, a + b) == DisableAll(keys, denied, roots, a)
    decreases a
  {
    var ab := a + b;
    assert ab[0] == a[0] && ab[1..] == a[1..] + b;
    var first := DeleteFirst(keys, denied, roots, a[0]);
    if first.completed {
      DisableAllStops(first.keys, denied, roots, a[1..], b);
    }
  }

  /** A value whose name is not in the batch is still in its key afterwards. */
  lemma {:induction false} DisableAllKeepsOthers(keys: Keys, denied: set<Root>, roots: seq<Root>, names: seq<string>)
    ensures var p := DisableAll(keys, denied, roots, names);
      forall r, e :: r in keys && e in keys[r] && e.name !in names ==> r in p.keys && e in p.keys[r]
    decreases names
  {
    if names != [] {
      var first := DeleteFirst(keys, denied, roots, names[0]);
      DeleteFirstSound(keys, denied, roots, names[0]);
      if first.completed {
        DisableAllKeepsOthers(first.keys, denied, roots, names[1..]);
        forall r, e | r in keys && e in keys[r] && e.name !in names ensures r in first.keys && e in first.keys[r] {
          if first.log != [] && first.log[|first.log| - 1].Disabled? {
            assert first.keys == keys[first.log[|first.log| - 1].root := RemoveName(keys[first.log[|first.log| - 1].root], names[0])];
          }
        }
      }
    }
  }

  /** A key that is not among the keys tried keeps all its values. */
  lemma {:induction false} DisableAllUntouched(keys: Keys, denied: set<Root>, roots: seq<Root>, names: seq<string>)
    ensures var p := DisableAll(keys, denied, roots, names);
      forall r :: r in keys && r !in roots ==> r in p.keys && p.keys[r] == keys[r]
    decreases names
  {
    if names != [] {
      var first := DeleteFirst(keys, denied, roots, names[0]);
      DeleteFirstSound(keys, denied, roots, names[0]);
      if first.completed {
        DisableAllUntouched(first.keys, denied, roots, names[1..]);
        if first.log != [] && first.log[|first.log| - 1].Disabled? {
          assert first.log[|first.log| - 1] in first.log;
        }
      }
    }
  }

  /**
    The registry as the tool sees it: the existing keys with their values, and
    the keys that refuse to open for writing.
  */
  class Registry {
    var keys: Keys
    var writeDenied: set<Root>

    constructor (keys: Keys, writeDenied: set<Root>)
      ensures this.keys == keys && this.writeDenied == writeDenied
    {
      this.keys := keys;
      this.writeDenied := writeDenied;
    }

    /**
      Opens each key read-only and reads its values with EnumValue(key, i) for
      i = 0, 1, ... until the enumeration raises OSError; a key that does not
      exist (FileNotFoundError) is skipped.
    */
    method ReadRoots(roots: seq<Root>) returns (apps: seq<StartupEntry>)
      ensures apps == Gather(keys, roots)
    {
      apps := [];
      var r := 0;
      while r < |roots|
        invariant 0 <= r <= |roots|
        invariant apps == Gather(keys, roots[..r])
      {
        GatherAppend(keys, roots[..r], [roots[r]]);
        assert roots[..r + 1] == roots[..r] + [roots[r]];
        if roots[r] in keys {
          var vals := keys[roots[r]];
          var i := 0;
          while i < |vals|
            invariant 0 <= i <= |vals|
            invariant apps == Gather(keys, roots[..r]) + vals[..i]
          {
            apps := apps + [vals[i]];
            i := i + 1;
          }
        }
        r := r + 1;
      }
      assert roots[..r] == roots;
    }

    /**
      Deleting one startup entry by name: each key is opened for writing in
      turn; a PermissionError is reported and the next key is tried; a key
      without the value is passed over; the loop stops after the first
      deletion. A key that does not exist ends the pass.
    */
    method DeleteEntry(roots: seq<Root>, name: string) returns (log: seq<Event>, completed: bool)
      modifies this`keys
      ensures Pass(keys, log, completed) == DeleteFirst(old(keys), writeDenied, roots, name)
    {
      log := [];
      completed := true;
      var j := 0;
      while j < |roots|
        invariant 0 <= j <= |roots|
        invariant keys == old(keys)
        invariant var rest := DeleteFirst(keys, writeDenied, roots[j..], name);
          DeleteFirst(keys, writeDenied, roots, name) == Pass(rest.keys, log + rest.log, rest.completed)
      {
        var root := roots[j];
        assert roots[j..][0] == root && roots[j..][1..] == roots[j + 1..];
        if root !in keys {
          // OpenKey raises FileNotFoundError, which is not handled here
          completed := false;
          return;
        }
        if root in writeDenied {
          ghost var rest := DeleteFirst(keys, writeDenied, roots[j + 1..], name);
          assert log + ([PermissionDenied(name, root)] + rest.log) == (log + [PermissionDenied(name, root)]) + rest.log;
          log := log + [PermissionDenied(name, root)];
        } else {
          ghost var before := keys;
          var found := DeleteValue(root, name);
          if found {
            log := log + [Disabled(name, root)];
            return;
          }
          assert keys == before;
        }
        j := j + 1;
      }
    }

    /** winreg.DeleteValue on a key opened for writing; reports whether the value was there. */
    method DeleteValue(root: Root, name: string) returns (found: bool)
      requires root in keys
      modifies this`keys
      ensures found == HasName(old(keys)[root], name)
      ensures keys == old(keys)[root := RemoveName(old(keys)[root], name)]
    {
      found := HasName(keys[root], name);
      keys := keys[root := RemoveName(keys[root], name)];
    }
  }
}
