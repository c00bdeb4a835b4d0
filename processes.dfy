/**
  Running processes as the tool ranks, labels and terminates them: a snapshot
  of (pid, name, cpu percent, memory percent), ordered by the pair (cpu, memory)
  from highest to lowest with a stable sort, and a process table that answers
  terminate requests.
*/
module Processes {
  import opened Text

  /** One entry of psutil.process_iter(['pid', 'name', 'cpu_percent', 'memory_percent']). */
  datatype ProcInfo = ProcInfo(pid: nat, name: string, cpu: real, mem: real)

  /** a sorts no later than b in sorted(..., key=(cpu, mem), reverse=True): its key is at least b's, lexicographically. */
  predicate RanksAtLeast(a: ProcInfo, b: ProcInfo) {
    a.cpu > b.cpu || (a.cpu == b.cpu && a.mem >= b.mem)
  }

  predicate SortedDesc(s: seq<ProcInfo>) {
    forall i, j :: 0 <= i < j < |s| ==> RanksAtLeast(s[i], s[j])
  }

  /** The entries whose key is (cpu, mem), in their order in s. */
  function WithKey(s: seq<ProcInfo>, cpu: real, mem: real): seq<ProcInfo> {
    if s == [] then []
    else (if s[0].cpu == cpu && s[0].mem == mem then [s[0]] else []) + WithKey(s[1..], cpu, mem)
  }

  lemma {:induction false} WithKeyAppend(a: seq<ProcInfo>, b: seq<ProcInfo>, cpu: real, mem: real)
    ensures WithKey(a + b, cpu, mem) == WithKey(a, cpu, mem) + WithKey(b, cpu, mem)
  {
    if a == [] {
      assert a + b == b;
    } else {
      assert (a + b)[1..] == a[1..] + b;
      WithKeyAppend(a[1..], b, cpu, mem);
    }
  }

  /** Places x after every entry of t that ranks at least as high: how a stable sort files a later element. */
  function Insert(t: seq<ProcInfo>, x: ProcInfo): (r: seq<ProcInfo>)
    ensures |r| == |t| + 1
  {
    if t == [] then [x]
    else if RanksAtLeast(t[0], x) then [t[0]] + Insert(t[1..], x)
    else [x] + t
  }

  /** sorted(s, key=lambda p: (p.cpu, p.mem), reverse=True), as insertion of each element in turn. */
  function SortDesc(s: seq<ProcInfo>): seq<ProcInfo> {
    if s == [] then [] else Insert(SortDesc(s[..|s| - 1]), s[|s| - 1])
  }

  lemma {:induction false} InsertSorted(t: seq<ProcInfo>, x: ProcInfo)
    requires SortedDesc(t)
    ensures SortedDesc(Insert(t, x))
  {
    if t != [] && RanksAtLeast(t[0], x) {
      InsertSorted(t[1..], x);
      InsertPermutes(t[1..], x);
      var r := Insert(t[1..], x);
      forall e | e in r ensures RanksAtLeast(t[0], e) {
        assert e in multiset(r);
        if e != x {
          var j :| 0 <= j < |t[1..]| && t[1..][j] == e;
          assert t[j + 1] == e;
        }
      }
    }
  }

  lemma {:induction false} InsertPermutes(t: seq<ProcInfo>, x: ProcInfo)
    ensures multiset(Insert(t, x)) == multiset(t) + multiset{x}
  {
    if t != [] {
      assert t == [t[0]] + t[1..];
      if RanksAtLeast(t[0], x) {
        InsertPermutes(t[1..], x);
      }
    }
  }

  /** The key group of an entry that no entry of s shares is empty. */
  lemma {:induction false} WithKeyAbsent(s: seq<ProcInfo>, cpu: real, mem: real)
    requires forall j :: 0 <= j < |s| ==> !(s[j].cpu == cpu && s[j].mem == mem)
    ensures WithKey(s, cpu, mem) == []
  {
    if s != [] {
      WithKeyAbsent(s[1..], cpu, mem);
    }
  }

  /** No entry of a sorted t headed below x shares x's key. */
  lemma BelowHead(t: seq<ProcInfo>, x: ProcInfo)
    requires SortedDesc(t) && t != [] && !RanksAtLeast(t[0], x)
    ensures WithKey(t, x.cpu, x.mem) == []
  {
    forall j | 0 <= j < |t| ensures !(t[j].cpu == x.cpu && t[j].mem == x.mem) {
      assert j == 0 || RanksAtLeast(t[0], t[j]);
    }
    WithKeyAbsent(t, x.cpu, x.mem);
  }

  /** Inserting x adds it to its own key group, after the members already there, and leaves the other groups alone. */
  lemma {:induction false} InsertStable(t: seq<ProcInfo>, x: ProcInfo, cpu: real, mem: real)
    requires SortedDesc(t)
    ensures WithKey(Insert(t, x), cpu, mem)
         == WithKey(t, cpu, mem) + (if x.cpu == cpu && x.mem == mem then [x] else [])
  {
    if t == [] {
    } else if RanksAtLeast(t[0], x) {
      InsertStable(t[1..], x, cpu, mem);
      InsertStableBehind(t, x, cpu, mem);
    } else {
      InsertStableInFront(t, x, cpu, mem);
    }
  }

  lemma InsertStableBehind(t: seq<ProcInfo>, x: ProcInfo, cpu: real, mem: real)
    requires t != [] && RanksAtLeast(t[0], x)
    requires WithKey(Insert(t[1..], x), cpu, mem)
          == WithKey(t[1..], cpu, mem) + (if x.cpu == cpu && x.mem == mem then [x] else [])
    ensures WithKey(Insert(t, x), cpu, mem)
         == WithKey(t, cpu, mem) + (if x.cpu == cpu && x.mem == mem then [x] else [])
  {
    assert Insert(t, x) == [t[0]] + Insert(t[1..], x);
    WithKeyAppend([t[0]], Insert(t[1..], x), cpu, mem);
    assert t == [t[0]] + t[1..];
    WithKeyAppend([t[0]], t[1..], cpu, mem);
  }

  lemma InsertStableInFront(t: seq<ProcInfo>, x: ProcInfo, cpu: real, mem: real)
    requires SortedDesc(t) && t != [] && !RanksAtLeast(t[0], x)
    ensures WithKey(Insert(t, x), cpu, mem)
         == WithKey(t, cpu, mem) + (if x.cpu == cpu && x.mem == mem then [x] else [])
  {
    assert Insert(t, x) == [x] + t;
    assert ([x] + t)[1..] == t;
    if x.cpu == cpu && x.mem == mem {
      BelowHead(t, x);
    }
  }

  /**
    The sort is a stable descending sort: the result is ordered by (cpu, mem)
    from highest to lowest, holds exactly the entries of the input, and keeps
    the entries of each key in their input order.
  */
  lemma {:induction false} SortDescSound(s: seq<ProcInfo>)
    ensures SortedDesc(SortDesc(s))
    ensures multiset(SortDesc(s)) == multiset(s)
    ensures forall cpu: real, mem: real :: WithKey(SortDesc(s), cpu, mem) == WithKey(s, cpu, mem)
  {
    if s != [] {
      var init := s[..|s| - 1];
      var x := s[|s| - 1];
      assert s == init + [x];
      SortDescSound(init);
      InsertSorted(SortDesc(init), x);
      InsertPermutes(SortDesc(init), x);
      forall cpu: real, mem: real ensures WithKey(SortDesc(s), cpu, mem) == WithKey(s, cpu, mem) {
        InsertStable(SortDesc(init), x, cpu, mem);
        WithKeyAppend(init, [x], cpu, mem);
      }
    }
  }

  const TopCount: nat := 5

  /** The five highest-ranked processes, highest first; all of them when there are fewer than five. */
  function Top(ps: seq<ProcInfo>): (top: seq<ProcInfo>)
    ensures |top| == if |ps| < TopCount then |ps| else TopCount
  {
    var sorted := SortDesc(ps);
    assert |sorted| == |ps| by { SortDescSound(ps); assert |multiset(sorted)| == |multiset(ps)|; }
    sorted[..if |ps| < TopCount then |ps| else TopCount]
  }

  /** The entries the slice drops. */
  function Dropped(ps: seq<ProcInfo>): seq<ProcInfo> {
    var sorted := SortDesc(ps);
    if |Top(ps)| <= |sorted| then sorted[|Top(ps)|..] else []
  }

  /** The sorted snapshot is the top five followed by the dropped entries. */
  lemma TopSplit(ps: seq<ProcInfo>)
    ensures SortDesc(ps) == Top(ps) + Dropped(ps)
  {
    var sorted := SortDesc(ps);
    assert |sorted| == |ps| by { SortDescSound(ps); assert |multiset(sorted)| == |multiset(ps)|; }
  }

  /** The top five are ordered, and every dropped entry ranks at most as high as every kept one. */
  lemma TopOrdered(ps: seq<ProcInfo>)
    ensures SortedDesc(Top(ps))
    ensures forall a, b :: a in Top(ps) && b in Dropped(ps) ==> RanksAtLeast(a, b)
  {
    var sorted := SortDesc(ps);
    TopSplit(ps);
    assert SortedDesc(sorted) by { SortDescSound(ps); }
    var n := |Top(ps)|;
    forall a, b | a in Top(ps) && b in Dropped(ps) ensures RanksAtLeast(a, b) {
      var i :| 0 <= i < n && Top(ps)[i] == a;
      var j :| 0 <= j < |Dropped(ps)| && Dropped(ps)[j] == b;
      assert sorted[i] == a && sorted[n + j] == b;
    }
  }

  /**
    The kept and the dropped entries make up the whole snapshot; within a key
    group the kept entries come first and the dropped ones after, in
    enumeration order.
  */
  lemma TopPartition(ps: seq<ProcInfo>)
    ensures multiset(Top(ps)) + multiset(Dropped(ps)) == multiset(ps)
    ensures forall cpu: real, mem: real ::
      WithKey(Top(ps), cpu, mem) + WithKey(Dropped(ps), cpu, mem) == WithKey(ps, cpu, mem)
  {
    TopSplit(ps);
    SortDescSound(ps);
    forall cpu: real, mem: real
      ensures WithKey(Top(ps), cpu, mem) + WithKey(Dropped(ps), cpu, mem) == WithKey(ps, cpu, mem)
    {
      WithKeyAppend(Top(ps), Dropped(ps), cpu, mem);
    }
  }

  /** The top five and what the slice drops, together. */
  lemma TopSound(ps: seq<ProcInfo>)
    ensures SortedDesc(Top(ps))
    ensures multiset(Top(ps)) + multiset(Dropped(ps)) == multiset(ps)
    ensures forall a, b :: a in Top(ps) && b in Dropped(ps) ==> RanksAtLeast(a, b)
    ensures forall cpu: real, mem: real ::
      WithKey(Top(ps), cpu, mem) + WithKey(Dropped(ps), cpu, mem) == WithKey(ps, cpu, mem)
  {
    TopOrdered(ps);
    TopPartition(ps);
  }

  /** The text of one process, as "PID: {pid}, Name: {name}, CPU: {cpu}%, Memory: {mem}%". */
  function ProcessLabel(pid: nat, name: string, cpuText: string, memText: string): (text: string)
  {
    "PID: " + NatToString(pid) + ", Name: " + name + ", CPU: " + cpuText + "%, Memory: " + memText + "%"
  }

  /**
    list_top_processes: the labels of the top five, highest first; show is how
    a percentage is printed.
  */
  function TopLabels(ps: seq<ProcInfo>, show: real -> string): (labels: seq<string>)
    ensures |labels| == |Top(ps)|
    ensures forall i :: 0 <= i < |labels| ==>
      labels[i] == ProcessLabel(Top(ps)[i].pid, Top(ps)[i].name, show(Top(ps)[i].cpu), show(Top(ps)[i].mem))
  {
    var top := Top(ps);
    seq(|top|, i requires 0 <= i < |top| => ProcessLabel(top[i].pid, top[i].name, show(top[i].cpu), show(top[i].mem)))
  }

  /** Whether a process can be terminated by this user. */
  datatype ProcState = Running | Protected

  /** How psutil.Process(pid).terminate() ends. */
  datatype KillOutcome = Terminated | NoSuchProcess | AccessDenied

  /** The result of a terminate request against a process table: a running process goes away, a protected one stays. */
  function TerminateEffect(procs: map<nat, ProcState>, pid: nat): (r: (map<nat, ProcState>, KillOutcome))
    ensures r.1.NoSuchProcess? <==> pid !in procs
    ensures r.1.Terminated? <==> pid in procs && procs[pid].Running?
    ensures r.0 == if r.1.Terminated? then procs - {pid} else procs
  {
    if pid !in procs then (procs, NoSuchProcess)
    else if procs[pid] == Protected then (procs, AccessDenied)
    else (procs - {pid}, Terminated)
  }

  /** The running processes, by pid. */
  class ProcessTable {
    var procs: map<nat, ProcState>

    constructor (procs: map<nat, ProcState>)
      ensures this.procs == procs
    {
      this.procs := procs;
    }

    /** psutil.Process(pid).terminate() */
    method Terminate(pid: nat) returns (outcome: KillOutcome)
      modifies this`procs
      ensures (procs, outcome) == TerminateEffect(old(procs), pid)
    {
      if pid !in procs {
        outcome := NoSuchProcess;
      } else if procs[pid] == Protected {
        outcome := AccessDenied;
      } else {
        procs := procs - {pid};
        outcome := Terminated;
      }
    }
  }
}
