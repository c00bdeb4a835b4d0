/**
  Enumerating a fixed list of roots, each of which may be absent: the shape
  shared by the startup-key scan (registry keys) and the temp-file search
  (directories). Every present root contributes its listing, in root order;
  an absent root contributes nothing and is not an error.
*/
module Listings {

  /** Concatenation, in the order of `roots`, of the listing under each root present in `m`. */
  function Gather<K, V>(m: map<K, seq<V>>, roots: seq<K>): seq<V> {
    if roots == [] then []
    else (if roots[0] in m then m[roots[0]] else []) + Gather(m, roots[1..])
  }

  /** Scanning two runs of roots one after the other is scanning them together. */
  lemma {:induction false} GatherAppend<K, V>(m: map<K, seq<V>>, a: seq<K>, b: seq<K>)
    ensures Gather(m, a + b) == Gather(m, a) + Gather(m, b)
  {
    if a != [] {
      assert (a + b)[1..] == a[1..] + b;
      GatherAppend(m, a[1..], b);
    } else {
      assert a + b == b;
    }
  }

  /** An absent root can be dropped from the list without changing the result. */
  lemma GatherSkipsAbsent<K, V>(m: map<K, seq<V>>, roots: seq<K>, k: nat)
    requires k < |roots| && roots[k] !in m
    ensures Gather(m, roots) == Gather(m, roots[..k] + roots[k + 1..])
  {
    assert roots == roots[..k] + [roots[k]] + roots[k + 1..];
    GatherAppend(m, roots[..k] + [roots[k]], roots[k + 1..]);
    GatherAppend(m, roots[..k], [roots[k]]);
    GatherAppend(m, roots[..k], roots[k + 1..]);
  }

  /** A value is gathered exactly when it is listed under some present root. */
  lemma {:induction false} GatherMember<K, V>(m: map<K, seq<V>>, roots: seq<K>, v: V)
    ensures v in Gather(m, roots) <==> exists i :: 0 <= i < |roots| && roots[i] in m && v in m[roots[i]]
  {
    if roots != [] {
      GatherMember(m, roots[1..], v);
      if v in Gather(m, roots[1..]) {
        var i :| 0 <= i < |roots[1..]| && roots[1..][i] in m && v in m[roots[1..][i]];
        assert roots[i + 1] == roots[1..][i];
      }
      if exists i :: 0 <= i < |roots| && roots[i] in m && v in m[roots[i]] {
        var i :| 0 <= i < |roots| && roots[i] in m && v in m[roots[i]];
        if i > 0 {
          assert roots[1..][i - 1] == roots[i];
        }
      }
    }
  }

  /** Nothing is deduplicated: a value listed under two present roots is gathered at least twice. */
  lemma GatherKeepsDuplicates<K, V>(m: map<K, seq<V>>, roots: seq<K>, i: nat, j: nat, v: V)
    requires i < j < |roots|
    requires roots[i] in m && v in m[roots[i]] && roots[j] in m && v in m[roots[j]]
    ensures multiset(Gather(m, roots))[v] >= 2
  {
    assert roots == roots[..j] + roots[j..];
    GatherAppend(m, roots[..j], roots[j..]);
    GatherMember(m, roots[..j], v);
    assert roots[..j][i] == roots[i];
    assert roots[j..][0] == roots[j];
    assert v in Gather(m, roots[j..]);
  }

  /** The pieces f gives each element of s, concatenated in order. */
  function Concat<T, U>(f: T -> seq<U>, s: seq<T>): seq<U> {
    if s == [] then [] else f(s[0]) + Concat(f, s[1..])
  }

  /** Each element contributes its piece independently of the others. */
  lemma {:induction false} ConcatAppend<T, U>(f: T -> seq<U>, a: seq<T>, b: seq<T>)
    ensures Concat(f, a + b) == Concat(f, a) + Concat(f, b)
  {
    if a == [] {
      assert a + b == b;
    } else {
      assert (a + b)[1..] == a[1..] + b;
      ConcatAppend(f, a[1..], b);
    }
  }

  /** Adding an element at the end adds its piece at the end. */
  lemma ConcatSnoc<T, U>(f: T -> seq<U>, s: seq<T>, x: T)
    ensures Concat(f, s + [x]) == Concat(f, s) + f(x)
  {
    ConcatAppend(f, s, [x]);
    assert Concat(f, [x]) == f(x) + Concat(f, []);
  }
}
