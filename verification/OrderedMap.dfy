/** std::map keyed by byte strings: entries in strictly increasing lexicographic order. */
module OrderedMap {
  import opened Bytes

  type Str = seq<byte>

  /** std::string's order: bytes compared as unsigned. */
  predicate Less(a: Str, b: Str) {
    b != [] && (a == [] || a[0] < b[0] || (a[0] == b[0] && Less(a[1..], b[1..])))
  }

  lemma {:induction false} LessIrreflexive(a: Str)
    ensures !Less(a, a)
  {
    if a != [] {
      LessIrreflexive(a[1..]);
    }
  }

  lemma {:induction false} LessTransitive(a: Str, b: Str, c: Str)
    requires Less(a, b) && Less(b, c)
    ensures Less(a, c)
  {
    if a != [] && a[0] == b[0] && b[0] == c[0] {
      LessTransitive(a[1..], b[1..], c[1..]);
    }
  }

  lemma {:induction false} LessTotal(a: Str, b: Str)
    ensures Less(a, b) || a == b || Less(b, a)
  {
    if a != [] && b != [] && a[0] == b[0] {
      LessTotal(a[1..], b[1..]);
      if a[1..] == b[1..] {
        assert a == [a[0]] + a[1..] && b == [b[0]] + b[1..];
      }
    }
  }

  type Entries<V> = seq<(Str, V)>

  ghost predicate Sorted<V>(m: Entries<V>) {
    forall i, j :: 0 <= i < j < |m| ==> Less(m[i].0, m[j].0)
  }

  /** The first position whose key is not below k. */
  function LowerBound<V>(m: Entries<V>, k: Str): (i: nat)
    ensures i <= |m|
    ensures forall j :: 0 <= j < i ==> Less(m[j].0, k)
    ensures i < |m| ==> !Less(m[i].0, k)
  {
    if m == [] || !Less(m[0].0, k) then 0 else 1 + LowerBound(m[1..], k)
  }

  function Find<V>(m: Entries<V>, k: Str): Option<V> {
    var i := LowerBound(m, k);
    if i < |m| && m[i].0 == k then Some(m[i].1) else None
  }

  /** map::insert: keeps an entry already there. */
  function Insert<V>(m: Entries<V>, k: Str, v: V): Entries<V> {
    var i := LowerBound(m, k);
    if i < |m| && m[i].0 == k then m else m[..i] + [(k, v)] + m[i..]
  }

  /** map::operator[] assigned to: replaces an entry already there. */
  function Assign<V>(m: Entries<V>, k: Str, v: V): Entries<V> {
    var i := LowerBound(m, k);
    if i < |m| && m[i].0 == k then m[i := (k, v)] else m[..i] + [(k, v)] + m[i..]
  }

  function Erase<V>(m: Entries<V>, k: Str): Entries<V> {
    var i := LowerBound(m, k);
    if i < |m| && m[i].0 == k then m[..i] + m[i + 1..] else m
  }

  lemma KeysDiffer<V>(m: Entries<V>, i: nat, j: nat)
    requires Sorted(m) && i < |m| && j < |m| && m[i].0 == m[j].0
    ensures i == j
  {
    LessIrreflexive(m[i].0);
  }

  /** Everything from the lower bound on is at or above k. */
  lemma AboveLowerBound<V>(m: Entries<V>, k: Str, j: nat)
    requires Sorted(m) && LowerBound(m, k) <= j < |m|
    ensures m[j].0 == k || Less(k, m[j].0)
    ensures m[j].0 == k ==> j == LowerBound(m, k)
  {
    var i := LowerBound(m, k);
    LessTotal(m[i].0, k);
    if j > i {
      if m[i].0 != k {
        LessTransitive(k, m[i].0, m[j].0);
      }
      LessIrreflexive(m[j].0);
    }
  }

  /** Finding is membership. */
  lemma FindExactly<V>(m: Entries<V>, k: Str)
    requires Sorted(m)
    ensures forall v :: Find(m, k) == Some(v) <==> (k, v) in m
    ensures Find(m, k).None? <==> forall i :: 0 <= i < |m| ==> m[i].0 != k
  {
    forall j | 0 <= j < |m| && m[j].0 == k
      ensures j == LowerBound(m, k)
    {
      if j < LowerBound(m, k) {
        LessIrreflexive(k);
      } else {
        AboveLowerBound(m, k, j);
      }
    }
  }

  /** Putting a new key at its lower bound keeps the order. */
  lemma SplicedSorted<V>(m: Entries<V>, k: Str, v: V)
    requires Sorted(m) && Find(m, k).None?
    ensures var i := LowerBound(m, k); Sorted(m[..i] + [(k, v)] + m[i..])
  {
    var i := LowerBound(m, k);
    var r := m[..i] + [(k, v)] + m[i..];
    forall a, b | 0 <= a < b < |r|
      ensures Less(r[a].0, r[b].0)
    {
      if a == i {
        AboveLowerBound(m, k, b - 1);
      }
    }
  }

  lemma AssignSorted<V>(m: Entries<V>, k: Str, v: V)
    requires Sorted(m)
    ensures Sorted(Assign(m, k, v)) && Sorted(Insert(m, k, v))
  {
    if Find(m, k).None? {
      SplicedSorted(m, k, v);
    }
  }

  lemma EraseSorted<V>(m: Entries<V>, k: Str)
    requires Sorted(m)
    ensures Sorted(Erase(m, k))
  {
  }

  lemma FindAssign<V>(m: Entries<V>, k: Str, v: V, k': Str)
    requires Sorted(m)
    ensures Find(Assign(m, k, v), k') == if k' == k then Some(v) else Find(m, k')
  {
    AssignSorted(m, k, v);
    var i, r := LowerBound(m, k), Assign(m, k, v);
    FindExactly(m, k);
    FindExactly(m, k');
    FindExactly(r, k');
    assert r[i] == (k, v);
    if k' != k {
      SameOthers(m, r, i, k');
    }
  }

  lemma FindInsert<V>(m: Entries<V>, k: Str, v: V, k': Str)
    requires Sorted(m)
    ensures Find(Insert(m, k, v), k') == if k' == k && Find(m, k).None? then Some(v) else Find(m, k')
  {
    if Find(m, k).None? {
      FindAssign(m, k, v, k');
    }
  }

  /** A splice or overwrite at i leaves the entries under other keys alone. */
  lemma SameOthers<V>(m: Entries<V>, r: Entries<V>, i: nat, k': Str)
    requires Sorted(m) && Sorted(r) && i < |r| && r[i].0 != k'
    requires (|r| == |m| && r == m[i := r[i]] && m[i].0 == r[i].0) || (i <= |m| && r == m[..i] + [r[i]] + m[i..])
    ensures Find(r, k') == Find(m, k')
  {
    FindExactly(m, k');
    FindExactly(r, k');
    if Find(m, k').Some? {
      var v := Find(m, k').value;
      var j :| 0 <= j < |m| && m[j] == (k', v);
      assert r[j] == (k', v) || (j + 1 < |r| && r[j + 1] == (k', v));
    }
  }

  lemma FindErase<V>(m: Entries<V>, k: Str, k': Str)
    requires Sorted(m)
    ensures Find(Erase(m, k), k') == if k' == k then None else Find(m, k')
  {
    hide Less, LowerBound, Sorted;
    EraseSorted(m, k);
    var i, r := LowerBound(m, k), Erase(m, k);
    if Find(m, k).None? {
      assert r == m;
    } else if k' == k {
      FindExactly(r, k');
      forall j | 0 <= j < |r|
        ensures r[j].0 != k
      {
        OthersDiffer(m, i, j);
      }
    } else {
      assert m == r[..i] + [m[i]] + r[i..];
      SameOthers(r, m, i, k');
    }
  }

  lemma OthersDiffer<V>(m: Entries<V>, i: nat, j: nat)
    requires Sorted(m) && i < |m| && j < |m| - 1
    ensures (m[..i] + m[i + 1..])[j].0 != m[i].0
  {
    var j' := if j < i then j else j + 1;
    if m[j'].0 == m[i].0 {
      KeysDiffer(m, i, j');
    }
  }
}
