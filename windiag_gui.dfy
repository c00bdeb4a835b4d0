/**
  The Qt front end of the diagnostic tool, without its widgets: the parser of
  the software inventory listing, the list-item labels and the parsers that
  read a name or a pid back from them, and the actions behind the buttons,
  which act on the registry, the file system and the process table.
*/
module WinDiagGui {
  import opened Wrappers
  import opened Text
  import opened Listings
  import opened WinRegistry
  import opened TempFs
  import opened Processes

  /** One row of the inventory table. */
  datatype Software = Software(name: string, version: string, installDate: string)

  /** A line that yields a row: not blank, and not containing "Name" (meant to skip the table header). */
  predicate IsDataLine(line: string) {
    Strip(line) != [] && !Contains(line, "Name")
  }

  /** The whitespace-separated fields of a line: the last two are the version and the install date, the rest the name. */
  function ParseSoftwareLine(line: string): Software {
    var parts := Words(line);
    var n := |parts|;
    Software(
      Join(if n >= 2 then parts[..n - 2] else [], " "),
      if n >= 2 then parts[n - 2] else "N/A",
      if n >= 2 then parts[n - 1] else "N/A")
  }

  /** The row one line contributes: one for a data line, none otherwise. */
  function SoftwareRow(line: string): seq<Software> {
    if IsDataLine(line) then [ParseSoftwareLine(line)] else []
  }

  /** The rows of the command's output, line by line; a failed command (None) gives no rows. */
  function SoftwareRows(output: Option<string>): seq<Software> {
    match output
    case None => []
    case Some(text) => Concat(SoftwareRow, SplitLines(text))
  }

  /** The data lines, in order. */
  function DataLines(lines: seq<string>): (kept: seq<string>)
    ensures forall l :: l in kept ==> IsDataLine(l) && l in lines
  {
    if lines == [] then []
    else (if IsDataLine(lines[0]) then [lines[0]] else []) + DataLines(lines[1..])
  }

  /** Lines are kept or dropped one by one, in order. */
  lemma {:induction false} DataLinesAppend(a: seq<string>, b: seq<string>)
    ensures DataLines(a + b) == DataLines(a) + DataLines(b)
  {
    if a == [] {
      assert a + b == b;
    } else {
      assert (a + b)[1..] == a[1..] + b;
      DataLinesAppend(a[1..], b);
    }
  }

  /** One line is kept exactly when it is a data line. */
  lemma DataLinesOne(line: string)
    ensures DataLines([line]) == if IsDataLine(line) then [line] else []
  {
    assert [line][1..] == [];
  }

  /** Exactly one row per data line, in line order, and none for any other line. */
  lemma {:induction false} SoftwareRowsOfDataLines(lines: seq<string>)
    ensures var rows := Concat(SoftwareRow, lines);
      && |rows| == |DataLines(lines)|
      && forall k :: 0 <= k < |rows| ==> rows[k] == ParseSoftwareLine(DataLines(lines)[k])
  {
    if lines != [] {
      SoftwareRowsOfDataLines(lines[1..]);
    }
  }

  /**
    A line made of name words, a version and a date, padded with runs of
    whitespace of any width as the table columns are, gives back exactly
    those: the name rejoined with single spaces.
  */
  lemma SoftwareLineOfFields(nameWords: seq<string>, version: string, date: string, gaps: seq<string>)
    requires forall k :: 0 <= k < |nameWords| ==> nameWords[k] != [] && NoSpace(nameWords[k])
    requires version != [] && NoSpace(version) && date != [] && NoSpace(date)
    requires |gaps| == |nameWords| + 3
    requires forall i :: 0 <= i < |gaps| ==> Blank(gaps[i])
    requires forall i :: 0 < i < |nameWords| + 2 ==> gaps[i] != []
    ensures ParseSoftwareLine(Spaced(nameWords + [version, date], gaps)) == Software(Join(nameWords, " "), version, date)
  {
    var ws := nameWords + [version, date];
    WordsOfSpaced(ws, gaps);
    assert ws[..|ws| - 2] == nameWords;
  }

  /** A column-padded row with a trailing blank, as the inventory table prints it. */
  lemma SoftwareLinePadded()
    ensures ParseSoftwareLine("Foo  1.0   2020 ") == Software("Foo", "1.0", "2020")
  {
    var gaps := ["", "  ", "   ", " "];
    assert Spaced(["Foo", "1.0", "2020"], gaps) == "Foo  1.0   2020 ";
    SoftwareLineOfFields(["Foo"], "1.0", "2020", gaps);
    assert Join(["Foo"], " ") == "Foo";
  }

  /** A line with one field has an empty name and "N/A" for version and date. */
  lemma SoftwareLineOneField(word: string)
    requires word != [] && NoSpace(word)
    ensures ParseSoftwareLine(word) == Software("", "N/A", "N/A")
  {
    WordsOfJoin([word]);
    assert Join([word], " ") == word;
  }

  /** SoftwareFetchThread.run: output is None when the command raises CalledProcessError. */
  method FetchSoftwareList(output: Option<string>) returns (list: seq<Software>)
    ensures list == SoftwareRows(output)
  {
    list := [];
    if output.None? {
      return;
    }
    var rest := SplitLines(output.value);
    while rest != []
      invariant list + Concat(SoftwareRow, rest) == SoftwareRows(output)
      decreases |rest|
    {
      // a blank line or one containing "Name" adds no row
      list := list + SoftwareRow(rest[0]);
      rest := rest[1..];
    }
  }

  /** A checkable line of a list widget. */
  datatype ListItem = ListItem(text: string, checked: bool)

  /** The text of a startup entry in the list: "{name} - {path}". */
  function StartupLabel(name: string, command: string): string {
    name + " - " + command
  }

  /** The name read back from an item's text: everything before the first " - ". */
  function ParseAppName(text: string): string {
    Split(text, " - ")[0]
  }

  /** A name the label keeps intact: it contains no " - " and does not end with " -". */
  predicate SafeAppName(name: string) {
    !Contains(name, " - ") && !(|name| >= 2 && name[|name| - 2..] == " -")
  }

  /** Before a safe name, " - " first occurs right after it, whatever follows. */
  lemma FirstSeparator(name: string, rest: string)
    requires SafeAppName(name)
    ensures Find(name + " - " + rest, " - ") == |name|
  {
    var s := name + " - " + rest;
    assert OccursAt(s, " - ", |name|) by { assert s[|name|..|name| + 3] == " - "; }
    forall j: nat | j < |name| ensures !OccursAt(s, " - ", j) {
      if j + 3 <= |name| {
        assert s[j..j + 3] == name[j..j + 3];
        assert !OccursAt(name, " - ", j);
      } else if j + 1 == |name| {
        assert s[j..j + 3][1] == ' ';
      } else {
        assert s[j..j + 3][..2] == name[|name| - 2..];
      }
    }
  }

  /** After an unsafe name, " - " occurs before the name is over. */
  lemma EarlySeparator(name: string, rest: string)
    requires !SafeAppName(name)
    ensures Find(name + " - " + rest, " - ") < |name|
  {
    var s := name + " - " + rest;
    var j: nat;
    if Contains(name, " - ") {
      j :| j <= |name| && OccursAt(name, " - ", j);
      assert s[j..j + 3] == name[j..j + 3];
    } else {
      j := |name| - 2;
      assert s[j..j + 3] == name[j..] + " ";
    }
    assert OccursAt(s, " - ", j) && j < |name|;
  }

  /** The label gives back the name exactly when the name is safe. */
  lemma AppNameRoundTrip(name: string, command: string)
    ensures ParseAppName(StartupLabel(name, command)) == name <==> SafeAppName(name)
  {
    var s := StartupLabel(name, command);
    if SafeAppName(name) {
      FirstSeparator(name, command);
      assert s[..|name|] == name;
    } else {
      EarlySeparator(name, command);
      assert |ParseAppName(s)| < |name|;
    }
  }

  /** A name ending in " -" comes back without that ending: the label of "X -" reads as "X". */
  lemma AppNameTruncated(stem: string, command: string)
    requires SafeAppName(stem)
    ensures ParseAppName(StartupLabel(stem + " -", command)) == stem
  {
    var s := StartupLabel(stem + " -", command);
    assert s == stem + " - " + ("- " + command);
    FirstSeparator(stem, "- " + command);
    assert s[..|stem|] == stem;
  }

  /**
    Disabling the item of an entry named stem + " -" deletes the value named
    stem instead, when the machine-wide Run key opens for writing and holds one,
    and leaves the checked entry where it was.
  */
  lemma WrongEntryDeleted(keys: Keys, denied: set<Root>, stem: string, command: string)
    requires SafeAppName(stem)
    requires Holds(keys, denied, WritableRunRoots[0], stem)
    ensures var p := DeleteFirst(keys, denied, WritableRunRoots, ParseAppName(StartupLabel(stem + " -", command)));
      var r := WritableRunRoots[0];
      && r in p.keys
      && !HasName(p.keys[r], stem)
      && (forall e :: e in keys[r] && e.name == stem + " -" ==> e in p.keys[r])
  {
    AppNameTruncated(stem, command);
    assert stem + " -" != stem by { assert |stem + " -"| != |stem|; }
    var r := WritableRunRoots[0];
    assert DeleteFirst(keys, denied, WritableRunRoots, stem) == Pass(keys[r := RemoveName(keys[r], stem)], [Disabled(stem, r)], true);
  }

  /** The names read back from the texts of the checked items, in list order. */
  function CheckedName(item: ListItem): seq<string> {
    if item.checked then [ParseAppName(item.text)] else []
  }

  function CheckedNames(items: seq<ListItem>): seq<string> {
    Concat(CheckedName, items)
  }

  lemma CheckedNamesPrefix(items: seq<ListItem>, i: nat)
    requires i < |items|
    ensures CheckedNames(items[..i + 1]) == CheckedNames(items[..i]) + CheckedName(items[i])
  {
    assert items[..i + 1] == items[..i] + [items[i]];
    ConcatSnoc(CheckedName, items[..i], items[i]);
  }

  lemma CheckedNamesSplit(items: seq<ListItem>, i: nat)
    requires i <= |items|
    ensures CheckedNames(items) == CheckedNames(items[..i]) + CheckedNames(items[i..])
  {
    assert items[..i] + items[i..] == items;
    ConcatAppend(CheckedName, items[..i], items[i..]);
  }

  /** The entries whose item is checked, in list order. */
  function CheckedEntries(apps: seq<StartupEntry>, items: seq<ListItem>): seq<StartupEntry>
    requires |items| == |apps|
  {
    if apps == [] then []
    else (if items[0].checked then [apps[0]] else []) + CheckedEntries(apps[1..], items[1..])
  }

  /** When each item yields the name of its entry exactly when checked, the items yield the names of the checked entries. */
  lemma {:induction false} ConcatCheckedEntries(apps: seq<StartupEntry>, items: seq<ListItem>, f: ListItem -> seq<string>)
    requires |items| == |apps|
    requires forall i :: 0 <= i < |apps| ==> f(items[i]) == if items[i].checked then [apps[i].name] else []
    ensures Concat(f, items) == Names(CheckedEntries(apps, items))
  {
    if apps != [] {
      ConcatCheckedEntries(apps[1..], items[1..], f);
      var head := if items[0].checked then [apps[0]] else [];
      var rest := CheckedEntries(apps[1..], items[1..]);
      assert f(items[0]) == Names(head);
      assert Names(head + rest) == Names(head) + Names(rest);
    }
  }

  /** When every name is safe, the names read back from the checked labels are those of the checked entries. */
  lemma CheckedNamesOfLabels(apps: seq<StartupEntry>, items: seq<ListItem>)
    requires |items| == |apps|
    requires forall i :: 0 <= i < |apps| ==>
      items[i].text == StartupLabel(apps[i].name, apps[i].command) && SafeAppName(apps[i].name)
    ensures CheckedNames(items) == Names(CheckedEntries(apps, items))
  {
    forall i | 0 <= i < |apps| ensures CheckedName(items[i]) == if items[i].checked then [apps[i].name] else [] {
      AppNameRoundTrip(apps[i].name, apps[i].command);
    }
    ConcatCheckedEntries(apps, items, CheckedName);
  }

  /** "PID: {pid}, Name: ..." read back: the text between the first ':' and the first ',', stripped, as a number. */
  function ParsePid(text: string): (pid: Option<nat>)
  {
    var fields := Split(Split(text, ",")[0], ":");
    if |fields| < 2 then None
    else
      var t := Strip(fields[1]);
      if IsDigits(t) then Some(ParseNat(t)) else None
  }

  /** A decimal text holds no comma and no colon. */
  lemma DigitsPlain(d: string)
    requires IsDigits(d)
    ensures ',' !in d && ':' !in d
  {
    forall k | 0 <= k < |d| ensures d[k] != ',' && d[k] != ':' {
      assert IsDigit(d[k]);
    }
  }

  /** The first comma-separated piece of a label is "PID: " and the pid's digits. */
  lemma PidHead(d: string, tail: string)
    requires IsDigits(d)
    ensures Split("PID: " + d + [','] + tail, ",")[0] == "PID: " + d
  {
    var head := "PID: " + d;
    DigitsPlain(d);
    assert ',' !in head by {
      forall k | 0 <= k < |head| ensures head[k] != ',' {
        if k >= 5 {
          assert head[k] == d[k - 5];
        }
      }
    }
    FindChar(head, ',', tail);
    assert (head + [','] + tail)[..|head|] == head;
  }

  /** Splitting "PID: " and the digits on ':' gives "PID" and a space followed by the digits. */
  lemma PidFields(d: string)
    requires IsDigits(d)
    ensures Split("PID: " + d, ":") == ["PID", " " + d]
  {
    DigitsPlain(d);
    assert ':' !in " " + d by {
      forall k | 0 <= k < |" " + d| ensures (" " + d)[k] != ':' {
        if k >= 1 {
          assert (" " + d)[k] == d[k - 1];
        }
      }
    }
    assert Join(["PID", " " + d], ":") == "PID: " + d;
    SplitOfJoin(["PID", " " + d], ':');
  }

  /** Stripping a space in front of a decimal text gives the text. */
  lemma StripSpaceDigits(d: string)
    requires IsDigits(d)
    ensures Strip(" " + d) == d
  {
    assert " " + d == [' '] + d;
    assert IsDigit(d[0]) && IsDigit(d[|d| - 1]);
    StripPadded(' ', d);
  }

  /** The label of a process gives back its pid, whatever the process name and the percentages contain. */
  lemma PidRoundTrip(pid: nat, name: string, cpuText: string, memText: string)
    ensures ParsePid(ProcessLabel(pid, name, cpuText, memText)) == Some(pid)
  {
    var d := NatToString(pid);
    var tail := " Name: " + name + ", CPU: " + cpuText + "%, Memory: " + memText + "%";
    assert ProcessLabel(pid, name, cpuText, memText) == "PID: " + d + [','] + tail;
    PidHead(d, tail);
    PidFields(d);
    StripSpaceDigits(d);
    ParseNatToString(pid);
  }

  /** The outcome of the kill loop: the process table afterwards, and whether the loop ran to its end. */
  datatype KillRun = KillRun(procs: map<nat, ProcState>, completed: bool)

  /**
    The kill loop with a given label parser: each checked item's pid is read
    and the process terminated; NoSuchProcess and AccessDenied are swallowed. A
    label that does not read as a pid raises out of the loop.
  */
  function KillBy(procs: map<nat, ProcState>, items: seq<ListItem>, parse: string -> Option<nat>): KillRun {
    if items == [] then KillRun(procs, true)
    else if !items[0].checked then KillBy(procs, items[1..], parse)
    else match parse(items[0].text)
      case None => KillRun(procs, false)
      case Some(pid) => KillBy(TerminateEffect(procs, pid).0, items[1..], parse)
  }

  /** kill_selected_processes: the kill loop reading pids with ParsePid. */
  function KillChecked(procs: map<nat, ProcState>, items: seq<ListItem>): KillRun {
    KillBy(procs, items, ParsePid)
  }

  /** The pids read with parse from the checked items. */
  function PidsBy(items: seq<ListItem>, parse: string -> Option<nat>): set<nat> {
    if items == [] then {}
    else
      (if items[0].checked && parse(items[0].text).Some? then {parse(items[0].text).value} else {})
      + PidsBy(items[1..], parse)
  }

  /** The pids read from the checked items. */
  function CheckedPids(items: seq<ListItem>): set<nat> {
    PidsBy(items, ParsePid)
  }

  /** Every checked item reads as a value under parse. */
  predicate ParsesAll(items: seq<ListItem>, parse: string -> Option<nat>) {
    forall i :: 0 <= i < |items| && items[i].checked ==> parse(items[i].text).Some?
  }

  lemma ParsesAllCons(items: seq<ListItem>, parse: string -> Option<nat>)
    requires items != []
    ensures ParsesAll(items, parse) <==>
      (items[0].checked ==> parse(items[0].text).Some?) && ParsesAll(items[1..], parse)
  {
    if (items[0].checked ==> parse(items[0].text).Some?) && ParsesAll(items[1..], parse) {
      forall i | 0 <= i < |items| && items[i].checked ensures parse(items[i].text).Some? {
        if i > 0 {
          assert items[i] == items[1..][i - 1];
        }
      }
    }
  }

  /** Every checked item reads as a pid. */
  predicate AllParse(items: seq<ListItem>) {
    ParsesAll(items, ParsePid)
  }

  lemma {:induction false} KillByShrinks(procs: map<nat, ProcState>, items: seq<ListItem>, parse: string -> Option<nat>)
    ensures var r := KillBy(procs, items, parse);
      && (forall pid :: pid in r.procs ==> pid in procs && r.procs[pid] == procs[pid])
      && (r.completed <==> ParsesAll(items, parse))
  {
    if items != [] {
      ParsesAllCons(items, parse);
      if !items[0].checked {
        KillByShrinks(procs, items[1..], parse);
      } else if parse(items[0].text).Some? {
        KillByShrinks(TerminateEffect(procs, parse(items[0].text).value).0, items[1..], parse);
      }
    }
  }

  lemma {:induction false} KillByEnds(procs: map<nat, ProcState>, items: seq<ListItem>, parse: string -> Option<nat>)
    ensures var r := KillBy(procs, items, parse);
      r.completed ==> forall pid :: pid in procs ==>
        (pid !in r.procs <==> procs[pid] == Running && pid in PidsBy(items, parse))
  {
    if items != [] {
      if !items[0].checked {
        KillByEnds(procs, items[1..], parse);
      } else if parse(items[0].text).Some? {
        var p := parse(items[0].text).value;
        var next := TerminateEffect(procs, p).0;
        KillByEnds(next, items[1..], parse);
        KillByShrinks(next, items[1..], parse);
      }
    }
  }

  /** The loop only ends processes, and runs to its end exactly when every checked label reads as a pid. */
  lemma KillCheckedShrinks(procs: map<nat, ProcState>, items: seq<ListItem>)
    ensures var r := KillChecked(procs, items);
      && (forall pid :: pid in r.procs ==> pid in procs && r.procs[pid] == procs[pid])
      && (r.completed <==> AllParse(items))
  {
    KillByShrinks(procs, items, ParsePid);
  }

  /**
    When the loop runs to its end, the processes gone are exactly the running
    ones whose pid was checked: protected and missing ones are passed over.
  */
  lemma KillCheckedEnds(procs: map<nat, ProcState>, items: seq<ListItem>)
    ensures var r := KillChecked(procs, items);
      r.completed ==> forall pid :: pid in procs ==>
        (pid !in r.procs <==> procs[pid] == Running && pid in CheckedPids(items))
  {
    KillByEnds(procs, items, ParsePid);
  }

  /** The list items of a process snapshot, unchecked, one per process in enumeration order. */
  function ProcessItems(snapshot: seq<ProcInfo>, show: real -> string): (items: seq<ListItem>)
    ensures |items| == |snapshot|
    ensures forall i :: 0 <= i < |snapshot| ==>
      items[i] == ListItem(ProcessLabel(snapshot[i].pid, snapshot[i].name, show(snapshot[i].cpu), show(snapshot[i].mem)), false)
  {
    seq(|snapshot|, i requires 0 <= i < |snapshot| =>
      ListItem(ProcessLabel(snapshot[i].pid, snapshot[i].name, show(snapshot[i].cpu), show(snapshot[i].mem)), false))
  }

  /** Items whose texts are the labels of a snapshot all read back as the snapshot's pids. */
  lemma LabelsParse(snapshot: seq<ProcInfo>, items: seq<ListItem>, show: real -> string)
    requires |items| == |snapshot|
    requires forall i :: 0 <= i < |items| ==>
      items[i].text == ProcessLabel(snapshot[i].pid, snapshot[i].name, show(snapshot[i].cpu), show(snapshot[i].mem))
    ensures forall i :: 0 <= i < |items| ==> ParsePid(items[i].text) == Some(snapshot[i].pid)
    ensures AllParse(items)
  {
    forall i | 0 <= i < |items| ensures ParsePid(items[i].text) == Some(snapshot[i].pid) {
      PidRoundTrip(snapshot[i].pid, snapshot[i].name, show(snapshot[i].cpu), show(snapshot[i].mem));
    }
  }

  /** When each item reads as the pid of its process, a pid read from a checked item is that of a process whose item is checked ... */
  lemma {:induction false} PidsByFrom(snapshot: seq<ProcInfo>, items: seq<ListItem>, parse: string -> Option<nat>, pid: nat)
    requires |items| == |snapshot|
    requires forall i :: 0 <= i < |items| ==> parse(items[i].text) == Some(snapshot[i].pid)
    requires pid in PidsBy(items, parse)
    ensures exists i :: 0 <= i < |items| && items[i].checked && snapshot[i].pid == pid
  {
    if !(items[0].checked && snapshot[0].pid == pid) {
      PidsByFrom(snapshot[1..], items[1..], parse, pid);
      var i :| 0 <= i < |items[1..]| && items[1..][i].checked && snapshot[1..][i].pid == pid;
      assert items[i + 1].checked && snapshot[i + 1].pid == pid;
    }
  }

  /** ... and the pid of every process whose item is checked is read. */
  lemma {:induction false} PidsByOf(snapshot: seq<ProcInfo>, items: seq<ListItem>, parse: string -> Option<nat>, i: nat)
    requires |items| == |snapshot|
    requires forall i :: 0 <= i < |items| ==> parse(items[i].text) == Some(snapshot[i].pid)
    requires i < |items| && items[i].checked
    ensures snapshot[i].pid in PidsBy(items, parse)
  {
    if i > 0 {
      PidsByOf(snapshot[1..], items[1..], parse, i - 1);
    }
  }

  /**
    Items whose texts are the labels of a snapshot all read back, so the kill
    loop runs to its end, and the pids it acts on are exactly those of the
    processes whose item is checked.
  */
  lemma KillOfLabels(snapshot: seq<ProcInfo>, items: seq<ListItem>, show: real -> string)
    requires |items| == |snapshot|
    requires forall i :: 0 <= i < |items| ==>
      items[i].text == ProcessLabel(snapshot[i].pid, snapshot[i].name, show(snapshot[i].cpu), show(snapshot[i].mem))
    ensures AllParse(items)
    ensures forall pid :: pid in CheckedPids(items) <==>
      exists i :: 0 <= i < |items| && items[i].checked && snapshot[i].pid == pid
  {
    LabelsParse(snapshot, items, show);
    forall pid | pid in CheckedPids(items)
      ensures exists i :: 0 <= i < |items| && items[i].checked && snapshot[i].pid == pid
    {
      PidsByFrom(snapshot, items, ParsePid, pid);
    }
    forall pid | exists i :: 0 <= i < |items| && items[i].checked && snapshot[i].pid == pid
      ensures pid in CheckedPids(items)
    {
      var i :| 0 <= i < |items| && items[i].checked && snapshot[i].pid == pid;
      PidsByOf(snapshot, items, ParsePid, i);
    }
  }

  /** The registry keys the GUI scan reads, in order: the machine-wide Run key, native and 32-bit view. */
  const GuiScanRoots: seq<Root> := [Root(LocalMachine, RunKey), Root(LocalMachine, Wow64RunKey)]

  /** The list items of a startup scan, unchecked, one per entry in scan order. */
  function StartupItems(apps: seq<StartupEntry>): (items: seq<ListItem>)
    ensures |items| == |apps|
    ensures forall i :: 0 <= i < |apps| ==> items[i] == ListItem(StartupLabel(apps[i].name, apps[i].command), false)
  {
    seq(|apps|, i requires 0 <= i < |apps| => ListItem(StartupLabel(apps[i].name, apps[i].command), false))
  }

  /** What a clean-up reports: the files removed and the files that could not be. */
  datatype CleanReport = CleanReport(succeeded: int, failed: int)

  /** The main window's state: the temp files last found, and the startup and process lists shown. */
  class DiagnosticApp {
    var tempFiles: seq<Path>
    var startupItems: seq<ListItem>
    var processItems: seq<ListItem>

    constructor ()
      ensures tempFiles == [] && startupItems == [] && processItems == []
    {
      tempFiles := [];
      startupItems := [];
      processItems := [];
    }

    /** find_temp_files: the list is reset, then filled from the directories that exist. */
    method FindTempFiles(fs: FileSystem, env: map<string, string>, home: Path)
      modifies this`tempFiles
      ensures tempFiles == Gather(ExistingDirs(fs.walks), TempDirs(env, home))
    {
      tempFiles := [];
      tempFiles := fs.CollectFiles(TempDirs(env, home));
    }

    /**
      clean_temp_files: with nothing found, nothing is removed and there is no
      report; otherwise every file is tried and the counts reported; either way
      the list is left empty.
    */
    method CleanTempFiles(fs: FileSystem) returns (report: Option<CleanReport>)
      modifies this`tempFiles, fs`files
      ensures tempFiles == []
      ensures old(tempFiles) == [] ==> report.None? && fs.files == old(fs.files)
      ensures old(tempFiles) != [] ==>
        var s := SweepPaths(old(fs.files), fs.locked, old(tempFiles));
        && fs.files == s.remaining
        && report == Some(CleanReport(|old(tempFiles)| - |s.failed|, |s.failed|))
        && report.value.succeeded == |old(fs.files)| - |fs.files|
    {
      if tempFiles == [] {
        return None;
      }
      SweepSound(fs.files, fs.locked, tempFiles);
      var failed := fs.RemoveAll(tempFiles);
      report := Some(CleanReport(|tempFiles| - |failed|, |failed|));
      tempFiles := [];
    }

    /** get_startup_apps */
    method GetStartupApps(reg: Registry) returns (apps: seq<StartupEntry>)
      ensures apps == Gather(reg.keys, GuiScanRoots)
    {
      apps := reg.ReadRoots(GuiScanRoots);
    }

    /** manage_startup_apps: one unchecked item per entry found. */
    method ManageStartupApps(reg: Registry)
      modifies this`startupItems
      ensures startupItems == StartupItems(Gather(reg.keys, GuiScanRoots))
    {
      var apps := GetStartupApps(reg);
      startupItems := StartupItems(apps);
    }

    /** The user ticks or clears the box of one startup item. */
    method CheckStartupItem(i: nat, checked: bool)
      requires i < |startupItems|
      modifies this`startupItems
      ensures startupItems == old(startupItems)[i := ListItem(old(startupItems)[i].text, checked)]
    {
      startupItems := startupItems[i := ListItem(startupItems[i].text, checked)];
    }

    /** delete_startup_app: delete by name from HKLM Run, or else HKCU Run. */
    method DeleteStartupApp(reg: Registry, name: string) returns (log: seq<Event>, completed: bool)
      modifies reg`keys
      ensures Pass(reg.keys, log, completed) == DeleteFirst(old(reg.keys), reg.writeDenied, WritableRunRoots, name)
    {
      log, completed := reg.DeleteEntry(WritableRunRoots, name);
    }

    /** disable_startup_apps: delete the name read back from each checked item, in list order. */
    method DisableStartupApps(reg: Registry) returns (log: seq<Event>, completed: bool)
      modifies reg`keys
      ensures Pass(reg.keys, log, completed)
           == DisableAll(old(reg.keys), reg.writeDenied, WritableRunRoots, CheckedNames(startupItems))
    {
      var items := startupItems;
      log := [];
      completed := true;
      var i := 0;
      while i < |items|
        invariant 0 <= i <= |items|
        invariant Pass(reg.keys, log, true) == DisableAll(old(reg.keys), reg.writeDenied, WritableRunRoots, CheckedNames(items[..i]))
      {
        CheckedNamesPrefix(items, i);
        if items[i].checked {
          var name := ParseAppName(items[i].text);
          DisableAllSnoc(old(reg.keys), reg.writeDenied, WritableRunRoots, CheckedNames(items[..i]), name);
          var entryLog, entryCompleted := DeleteStartupApp(reg, name);
          log := log + entryLog;
          if !entryCompleted {
            completed := false;
            CheckedNamesSplit(items, i + 1);
            DisableAllStops(old(reg.keys), reg.writeDenied, WritableRunRoots, CheckedNames(items[..i + 1]), CheckedNames(items[i + 1..]));
            return;
          }
        } else {
          assert CheckedNames(items[..i]) + [] == CheckedNames(items[..i]);
        }
        i := i + 1;
      }
      assert items[..i] == items;
    }

    /** manage_processes: one unchecked item per process of the snapshot; show prints a percentage. */
    method ManageProcesses(snapshot: seq<ProcInfo>, show: real -> string)
      modifies this`processItems
      ensures processItems == ProcessItems(snapshot, show)
    {
      processItems := ProcessItems(snapshot, show);
    }

    /** The user ticks or clears the box of one process item. */
    method CheckProcessItem(i: nat, checked: bool)
      requires i < |processItems|
      modifies this`processItems
      ensures processItems == old(processItems)[i := ListItem(old(processItems)[i].text, checked)]
    {
      processItems := processItems[i := ListItem(processItems[i].text, checked)];
    }

    /** kill_selected_processes */
    method KillSelectedProcesses(table: ProcessTable) returns (completed: bool)
      modifies table`procs
      ensures KillRun(table.procs, completed) == KillChecked(old(table.procs), processItems)
    {
      var items := processItems;
      var i := 0;
      while i < |items|
        invariant 0 <= i <= |items|
        invariant KillChecked(old(table.procs), items) == KillChecked(table.procs, items[i..])
      {
        assert items[i..][0] == items[i] && items[i..][1..] == items[i + 1..];
        if items[i].checked {
          var pid := ParsePid(items[i].text);
          if pid.None? {
            // int() or the [1] index raises, and nothing catches it
            return false;
          }
          var _ := table.Terminate(pid.value);
        }
        i := i + 1;
      }
      completed := true;
    }
  }
}
