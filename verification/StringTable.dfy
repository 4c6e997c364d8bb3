/** The interned strings of a snapshot: NUL-terminated in one buffer, each padded to four bytes. */
module StringTable {
  import opened Bytes
  import opened OrderedMap

  predicate NoNul(s: Str) {
    forall k :: 0 <= k < |s| ==> s[k] != 0
  }

  function ZeroBytes(n: nat): seq<byte> {
    seq(n, _ => 0)
  }

  /** The C string a buffer holds from its beginning. */
  function CString(s: seq<byte>): (r: Str)
    ensures |r| <= |s| && NoNul(r)
  {
    if s == [] || s[0] == 0 then [] else [s[0]] + CString(s[1..])
  }

  function RoundUp(n: nat): nat {
    (n + 3) / 4 * 4
  }

  function Padded(s: Str): (r: seq<byte>)
    ensures |r| == RoundUp(|s| + 1)
  {
    s + ZeroBytes(RoundUp(|s| + 1) - |s|)
  }

  /** Snapshot::insertStringTable: the index of a string, appended if it is not there yet. */
  function InsertString(table: map<Str, nat>, buffer: seq<byte>, s: Str): (map<Str, nat>, seq<byte>, nat) {
    if s in table then (table, buffer, table[s])
    else
      var idx := |buffer|;
      var size := RoundUp(idx + |s| + 1);
      (table[s := idx], buffer + s + ZeroBytes(size - idx - |s|), idx)
  }

  function SkipZeros(buffer: seq<byte>, p: nat): nat
    decreases |buffer| - p
  {
    if p < |buffer| && buffer[p] == 0 then SkipZeros(buffer, p + 1) else p
  }

  lemma {:induction false} SkipZerosForward(buffer: seq<byte>, p: nat)
    ensures SkipZeros(buffer, p) >= p
    decreases |buffer| - p
  {
    if p < |buffer| && buffer[p] == 0 {
      SkipZerosForward(buffer, p + 1);
    }
  }

  /** The table Snapshot::load rebuilds from the buffer: strings are found between runs of zeros. */
  function ParseTable(table: map<Str, nat>, buffer: seq<byte>, p: nat): map<Str, nat>
    decreases |buffer| - p
  {
    if p >= |buffer| then table
    else
      var s := CString(buffer[p..]);
      SkipZerosForward(buffer, p + |s| + 1);
      ParseTable(table[s := p], buffer, SkipZeros(buffer, p + |s| + 1))
  }

  // ----- the buffer as a list of strings -----

  function Pads(strs: seq<Str>): (r: seq<seq<byte>>)
    ensures |r| == |strs|
  {
    seq(|strs|, k requires 0 <= k < |strs| => Padded(strs[k]))
  }

  function Layout(strs: seq<Str>): seq<byte> {
    Flatten(Pads(strs))
  }

  /** The index of string i. */
  function Offset(strs: seq<Str>, i: nat): nat
    requires i <= |strs|
  {
    |Layout(strs[..i])|
  }

  lemma Block(strs: seq<Str>, i: nat)
    requires i < |strs|
    ensures Offset(strs, i + 1) == Offset(strs, i) + RoundUp(|strs[i]| + 1) <= |Layout(strs)|
    ensures Layout(strs)[Offset(strs, i)..Offset(strs, i + 1)] == Padded(strs[i])
  {
    assert Pads(strs)[..i] == Pads(strs[..i]) && Pads(strs)[..i + 1] == Pads(strs[..i + 1]);
    FlattenSpan(Pads(strs), i);
  }

  lemma OffsetStable(strs: seq<Str>, more: seq<Str>, i: nat)
    requires i <= |strs|
    ensures Offset(strs + more, i) == Offset(strs, i)
  {
    assert (strs + more)[..i] == strs[..i];
  }

  lemma OffsetEnd(strs: seq<Str>)
    ensures Offset(strs, |strs|) == |Layout(strs)| && Offset(strs, 0) == 0
  {
    assert strs[..|strs|] == strs;
  }

  lemma LayoutSnoc(strs: seq<Str>, s: Str)
    ensures Layout(strs + [s]) == Layout(strs) + Padded(s)
  {
    assert Pads(strs + [s]) == Pads(strs) + [Padded(s)];
    FlattenSnoc(Pads(strs), Padded(s));
  }

  lemma {:induction false} LayoutPrefix(strs: seq<Str>, more: seq<Str>)
    ensures Layout(strs) <= Layout(strs + more)
  {
    assert Pads(strs + more) == Pads(strs) + Pads(more);
    FlattenAppend(Pads(strs), Pads(more));
  }

  lemma {:induction false} LayoutAligned(strs: seq<Str>)
    ensures |Layout(strs)| % 4 == 0
    decreases |strs|
  {
    if strs != [] {
      var front := strs[..|strs| - 1];
      LayoutAligned(front);
      assert strs == front + [strs[|strs| - 1]];
      LayoutSnoc(front, strs[|strs| - 1]);
    }
  }

  lemma {:induction false} CStringOf(s: Str, rest: seq<byte>)
    requires NoNul(s)
    ensures CString(s + [0] + rest) == s
    decreases |s|
  {
    var t := s + [0] + rest;
    if s != [] {
      CStringOf(s[1..], rest);
      assert t[1..] == s[1..] + [0] + rest;
    }
  }

  /** An index denotes its string, whatever has been appended since. */
  lemma IndexDenotes(strs: seq<Str>, i: nat)
    requires i < |strs| && NoNul(strs[i])
    ensures Offset(strs, i) < |Layout(strs)| && CString(Layout(strs)[Offset(strs, i)..]) == strs[i]
  {
    Block(strs, i);
    var s, b, p := strs[i], Layout(strs), Offset(strs, i);
    var rest := b[p + |s| + 1..];
    var block := b[p..Offset(strs, i + 1)];
    assert forall k :: 0 <= k < |s| ==> b[p + k] == block[k] == s[k];
    assert b[p + |s|] == block[|s|] == 0;
    assert b[p..] == s + [0] + rest;
    CStringOf(s, rest);
  }

  /** The table knows exactly strings of the list, and every non-empty one at its place. */
  ghost predicate Interned(table: map<Str, nat>, strs: seq<Str>) {
    && (forall i :: 0 <= i < |strs| ==> NoNul(strs[i]))
    && (forall s :: s in table ==> IsIndex(strs, table[s], s))
    && (forall i :: 0 <= i < |strs| && strs[i] != [] ==> strs[i] in table && table[strs[i]] == Offset(strs, i))
  }

  ghost predicate IsIndex(strs: seq<Str>, idx: nat, s: Str) {
    exists i :: 0 <= i < |strs| && strs[i] == s && idx == Offset(strs, i)
  }

  lemma IsIndexStable(strs: seq<Str>, more: seq<Str>, idx: nat, s: Str)
    requires IsIndex(strs, idx, s)
    ensures IsIndex(strs + more, idx, s)
  {
    var i :| 0 <= i < |strs| && strs[i] == s && idx == Offset(strs, i);
    OffsetStable(strs, more, i);
    assert (strs + more)[i] == s;
  }

  /** The list after interning s. */
  function WithString(table: map<Str, nat>, strs: seq<Str>, s: Str): seq<Str> {
    if s in table then strs else strs + [s]
  }

  lemma AppendInterned(table: map<Str, nat>, strs: seq<Str>, s: Str)
    requires Interned(table, strs) && NoNul(s) && s !in table
    ensures Interned(table[s := |Layout(strs)|], strs + [s]) && IsIndex(strs + [s], |Layout(strs)|, s)
  {
    hide Layout, NoNul;
    var strs' := strs + [s];
    OffsetEnd(strs);
    OffsetStable(strs, [s], |strs|);
    assert strs'[|strs|] == s && Offset(strs', |strs|) == |Layout(strs)|;
    forall t | t in table
      ensures IsIndex(strs', table[t], t)
    {
      IsIndexStable(strs, [s], table[t], t);
    }
    forall i | 0 <= i < |strs|
      ensures Offset(strs', i) == Offset(strs, i)
    {
      OffsetStable(strs, [s], i);
    }
  }

  lemma AppendBuffer(strs: seq<Str>, s: Str)
    ensures var idx := |Layout(strs)|;
            Layout(strs) + s + ZeroBytes(RoundUp(idx + |s| + 1) - idx - |s|) == Layout(strs + [s])
  {
    LayoutAligned(strs);
    LayoutSnoc(strs, s);
    assert RoundUp(|Layout(strs)| + |s| + 1) - |Layout(strs)| == RoundUp(|s| + 1);
  }

  lemma InsertKeeps(table: map<Str, nat>, strs: seq<Str>, s: Str)
    requires Interned(table, strs) && NoNul(s)
    ensures var (table', buffer', idx) := InsertString(table, Layout(strs), s);
            var strs' := WithString(table, strs, s);
            && Interned(table', strs') && buffer' == Layout(strs') && IsIndex(strs', idx, s)
            && strs <= strs'
  {
    if s !in table {
      hide Interned, Layout, IsIndex;
      AppendInterned(table, strs, s);
      AppendBuffer(strs, s);
    }
  }

  /** A string is stored once: inserting it again changes nothing, whatever was inserted meanwhile,
      and gives the index it had. A string not there begins at the end of the buffer. */
  lemma InsertAgain(table: map<Str, nat>, buffer: seq<byte>, s: Str, t: Str)
    ensures var (table1, buffer1, idx) := InsertString(table, buffer, s);
            var (table2, buffer2, idx') := InsertString(table1, buffer1, t);
            && InsertString(table2, buffer2, s) == (table2, buffer2, idx)
            && (s !in table ==> idx == |buffer| && buffer <= buffer1 && |buffer1| % 4 == 0
                                && |buffer| + |s| < |buffer1| <= |buffer| + |s| + 4)
  {
  }

  // ----- rebuilding the table -----

  function NextNonEmpty(strs: seq<Str>, i: nat): (j: nat)
    requires i <= |strs|
    ensures i <= j <= |strs| && (j < |strs| ==> strs[j] != [])
    ensures forall k :: i <= k < j ==> strs[k] == []
    decreases |strs| - i
  {
    if i < |strs| && strs[i] == [] then NextNonEmpty(strs, i + 1) else i
  }

  lemma {:induction false} SkipRun(buffer: seq<byte>, p: nat, q: nat)
    requires p <= q <= |buffer| && forall k :: p <= k < q ==> buffer[k] == 0
    ensures SkipZeros(buffer, p) == SkipZeros(buffer, q)
    decreases q - p
  {
    if p < q {
      SkipRun(buffer, p + 1, q);
    }
  }

  lemma {:induction false} SkipToNext(strs: seq<Str>, i: nat)
    requires i <= |strs| && forall k :: 0 <= k < |strs| ==> NoNul(strs[k])
    ensures SkipZeros(Layout(strs), Offset(strs, i)) == Offset(strs, NextNonEmpty(strs, i))
    decreases |strs| - i
  {
    OffsetEnd(strs);
    if i < |strs| {
      Block(strs, i);
      var b, p, q := Layout(strs), Offset(strs, i), Offset(strs, i + 1);
      assert forall k :: p <= k < q ==> b[k] == b[p..q][k - p] == Padded(strs[i])[k - p];
      if strs[i] == [] {
        SkipRun(b, p, q);
        SkipToNext(strs, i + 1);
      } else {
        assert b[p] == strs[i][0];
      }
    }
  }

  lemma SkipAfterString(strs: seq<Str>, i: nat)
    requires i < |strs| && forall k :: 0 <= k < |strs| ==> NoNul(strs[k])
    ensures SkipZeros(Layout(strs), Offset(strs, i) + |strs[i]| + 1) == Offset(strs, NextNonEmpty(strs, i + 1))
  {
    Block(strs, i);
    var b, p, q := Layout(strs), Offset(strs, i), Offset(strs, i + 1);
    assert forall k :: p <= k < q ==> b[k] == b[p..q][k - p] == Padded(strs[i])[k - p];
    SkipRun(b, p + |strs[i]| + 1, q);
    SkipToNext(strs, i + 1);
  }

  lemma OffsetIncreases(strs: seq<Str>, i: nat, j: nat)
    requires i < j <= |strs|
    ensures Offset(strs, i) < Offset(strs, j) <= |Layout(strs)|
    decreases j
  {
    Block(strs, j - 1);
    if i < j - 1 {
      OffsetIncreases(strs, i, j - 1);
    }
  }

  /** The scan in terms of the list: each non-empty string from i on is entered at its offset. */
  function Scanned(table: map<Str, nat>, strs: seq<Str>, i: nat): map<Str, nat>
    requires i <= |strs|
    decreases |strs| - i
  {
    if i == |strs| then table
    else Scanned(table[strs[i] := Offset(strs, i)], strs, NextNonEmpty(strs, i + 1))
  }

  lemma {:induction false} ParseIsScanned(table: map<Str, nat>, strs: seq<Str>, i: nat)
    requires i <= |strs| && forall k :: 0 <= k < |strs| ==> NoNul(strs[k])
    ensures ParseTable(table, Layout(strs), Offset(strs, i)) == Scanned(table, strs, i)
    decreases |strs| - i
  {
    hide Layout, Offset, NoNul, SkipZeros, CString;
    OffsetEnd(strs);
    if i < |strs| {
      IndexDenotes(strs, i);
      SkipAfterString(strs, i);
      ParseIsScanned(table[strs[i] := Offset(strs, i)], strs, NextNonEmpty(strs, i + 1));
    }
  }

  lemma {:induction false} ScannedKeeps(table: map<Str, nat>, strs: seq<Str>, i: nat, s: Str)
    requires i <= |strs| && s in table && s !in strs[i..]
    ensures s in Scanned(table, strs, i) && Scanned(table, strs, i)[s] == table[s]
    decreases |strs| - i
  {
    hide Offset;
    if i < |strs| {
      var next := NextNonEmpty(strs, i + 1);
      assert strs[i] == strs[i..][0];
      assert strs[next..] == strs[i..][next - i..];
      ScannedKeeps(table[strs[i] := Offset(strs, i)], strs, next, s);
    }
  }

  lemma {:induction false} ScannedFinds(table: map<Str, nat>, strs: seq<Str>, i: nat, k: nat)
    requires i <= k < |strs| && strs[k] != [] && (i == 0 || strs[i] != [])
    requires forall b :: k < b < |strs| ==> strs[b] != strs[k]
    ensures strs[k] in Scanned(table, strs, i) && Scanned(table, strs, i)[strs[k]] == Offset(strs, k)
    decreases k - i
  {
    hide Offset;
    var next, table1 := NextNonEmpty(strs, i + 1), table[strs[i] := Offset(strs, i)];
    if k == i {
      assert strs[k] !in strs[next..];
      ScannedKeeps(table1, strs, next, strs[k]);
    } else {
      assert next <= k;
      ScannedFinds(table1, strs, next, k);
    }
  }

  lemma {:induction false} ScannedOnlyIndices(table: map<Str, nat>, strs: seq<Str>, i: nat, s: Str)
    requires i <= |strs| && s in Scanned(table, strs, i)
    requires forall t :: t in table ==> IsIndex(strs, table[t], t)
    ensures IsIndex(strs, Scanned(table, strs, i)[s], s)
    decreases |strs| - i
  {
    hide Offset;
    if i < |strs| {
      assert IsIndex(strs, Offset(strs, i), strs[i]);
      ScannedOnlyIndices(table[strs[i] := Offset(strs, i)], strs, NextNonEmpty(strs, i + 1), s);
    }
  }

  /** Scanning a buffer of strings into any table: the last place of a string counts, whether or not
      the table knew it; other strings it knew stay. */
  lemma ParseReplaces(table: map<Str, nat>, strs: seq<Str>, s: Str, k: int)
    requires (forall i :: 0 <= i < |strs| ==> NoNul(strs[i])) && s != [] && -1 <= k < |strs|
    requires (k >= 0 ==> strs[k] == s) && forall i :: k < i < |strs| ==> strs[i] != s
    ensures k >= 0 ==>
      var table' := ParseTable(table, Layout(strs), 0);
      s in table' && table'[s] == Offset(strs, k)
    ensures k < 0 && s in table ==>
      var table' := ParseTable(table, Layout(strs), 0);
      s in table' && table'[s] == table[s]
  {
    hide Offset, Layout;
    OffsetEnd(strs);
    ParseIsScanned(table, strs, 0);
    if k >= 0 {
      ScannedFinds(table, strs, 0, k);
    } else if s in table {
      assert strs[0..] == strs;
      ScannedKeeps(table, strs, 0, s);
    }
  }

  /** Reloading a buffer finds every non-empty string again at its old index. */
  lemma ParseRebuilds(table: map<Str, nat>, strs: seq<Str>)
    requires Interned(table, strs)
    ensures Interned(ParseTable(map[], Layout(strs), 0), strs)
  {
    hide Offset, Layout;
    forall j, k | 0 <= j < k < |strs| && strs[j] != []
      ensures strs[j] != strs[k]
    {
      OffsetIncreases(strs, j, k);
    }
    OffsetEnd(strs);
    var table' := ParseTable(map[], Layout(strs), 0);
    ParseIsScanned(map[], strs, 0);
    forall s | s in table'
      ensures IsIndex(strs, table'[s], s)
    {
      ScannedOnlyIndices(map[], strs, 0, s);
    }
    forall k | 0 <= k < |strs| && strs[k] != []
      ensures strs[k] in table' && table'[strs[k]] == Offset(strs, k)
    {
      ScannedFinds(map[], strs, 0, k);
    }
  }
}
