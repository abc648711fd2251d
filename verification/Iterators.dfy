/**
 Cursors over sorted runs of entries, and the iterator that merges several of them
 (include/leveldb/iterator.h, table/merger.cc).
 */
module Iterators {
  import opened Wrappers
  import opened DbFormat
  import opened Tables

  // ---------------------------------------------------------------- merged runs

  ghost predicate DistinctKeys(a: seq<Entry>, b: seq<Entry>) {
    forall x, y :: x in a && y in b ==> x.key != y.key
  }

  function Merge(a: seq<Entry>, b: seq<Entry>): (r: seq<Entry>)
    requires Sorted(a) && Sorted(b) && DistinctKeys(a, b)
    ensures Sorted(r)
    ensures forall e :: e in r <==> e in a || e in b
  {
    if a == [] then b
    else if b == [] then a
    else if Before(a[0].key, b[0].key) then
      MergeHead(a, b);
      [a[0]] + Merge(a[1..], b)
    else
      CompareIsTotalOrder(a[0].key, b[0].key, a[0].key);
      assert a[0] in a && b[0] in b;
      MergeHead(b, a);
      [b[0]] + Merge(a, b[1..])
  }

  /** The smaller head comes before everything else in both lists. */
  lemma MergeHead(a: seq<Entry>, b: seq<Entry>)
    requires Sorted(a) && Sorted(b) && a != [] && b != [] && Before(a[0].key, b[0].key)
    ensures forall e :: e in a[1..] || e in b ==> Before(a[0].key, e.key)
    ensures forall e :: e in a <==> e == a[0] || e in a[1..]
  {
    forall e | e in b ensures Before(a[0].key, e.key) {
      var j :| 0 <= j < |b| && b[j] == e;
      if j > 0 { CompareIsTotalOrder(a[0].key, b[0].key, e.key); }
    }
  }

  type Runs = seq<seq<Entry>>

  ghost predicate SortedRuns(runs: Runs) {
    forall i {:trigger Sorted(runs[i])} :: 0 <= i < |runs| ==> Sorted(runs[i])
  }

  ghost predicate DistinctRuns(runs: Runs) {
    forall i, j {:trigger DistinctKeys(runs[i], runs[j])} :: 0 <= i < j < |runs| ==> DistinctKeys(runs[i], runs[j])
  }

  ghost function Union(runs: Runs): set<Entry> {
    set i, e | 0 <= i < |runs| && e in runs[i] :: e
  }

  /** All entries of some runs, in order. */
  function MergeRuns(runs: Runs): (r: seq<Entry>)
    requires SortedRuns(runs) && DistinctRuns(runs)
    ensures Sorted(r) && Elements(r) == Union(runs)
  {
    if runs == [] then []
    else
      var prefix, last := runs[..|runs| - 1], runs[|runs| - 1];
      SplitLastRun(runs);
      Merge(MergeRuns(prefix), last)
  }

  lemma SplitLastRun(runs: Runs)
    requires SortedRuns(runs) && DistinctRuns(runs) && runs != []
    ensures SortedRuns(runs[..|runs| - 1]) && DistinctRuns(runs[..|runs| - 1]) && Sorted(runs[|runs| - 1])
    ensures Union(runs) == Union(runs[..|runs| - 1]) + Elements(runs[|runs| - 1])
    ensures forall x, y :: x in Union(runs[..|runs| - 1]) && y in runs[|runs| - 1] ==> x.key != y.key
  {
    var prefix, last := runs[..|runs| - 1], runs[|runs| - 1];
    forall i | 0 <= i < |prefix| ensures Sorted(prefix[i]) { assert Sorted(runs[i]); }
    forall i, j | 0 <= i < j < |prefix| ensures DistinctKeys(prefix[i], prefix[j]) { assert DistinctKeys(runs[i], runs[j]); }
    forall x, y | x in Union(prefix) && y in last ensures x.key != y.key {
      var i :| 0 <= i < |prefix| && x in prefix[i];
      assert DistinctKeys(runs[i], last);
    }
  }

  // ---------------------------------------------------------------- one run

  /** An iterator over one sorted run: a memtable or a table file.  Moving past either end leaves
      it without a position. */
  class Cursor {
    const entries: seq<Entry>
    /** |entries| when there is no position. */
    var pos: nat

    ghost predicate Ready()
      reads this
    {
      Sorted(entries) && pos <= |entries|
    }

    predicate Valid()
      reads this
    {
      pos < |entries|
    }

    /** The number of entries up to and including the position. */
    ghost function Passed(): nat
      reads this
    {
      if Valid() then pos + 1 else 0
    }

    constructor (entries: seq<Entry>)
      requires Sorted(entries)
      ensures this.entries == entries && Ready() && !Valid()
    {
      this.entries, pos := entries, |entries|;
    }

    method SeekToFirst()
      requires Ready()
      modifies this
      ensures pos == 0
    {
      pos := 0;
    }

    method SeekToLast()
      requires Ready()
      modifies this
      ensures Ready() && Passed() == |entries|
    {
      pos := if entries == [] then 0 else |entries| - 1;
    }

    method Seek(target: InternalKey)
      requires Ready()
      modifies this
      ensures Ready() && pos == Tables.Seek(entries, target)
    {
      pos := Tables.Seek(entries, target);
    }

    method Next()
      requires Ready() && Valid()
      modifies this
      ensures Ready() && pos == old(pos) + 1
    {
      pos := pos + 1;
    }

    method Prev()
      requires Ready() && Valid()
      modifies this
      ensures Ready() && Passed() == old(pos)
    {
      pos := if pos == 0 then |entries| else pos - 1;
    }
  }

  // ---------------------------------------------------------------- many runs

  datatype Direction = Forward | Reverse

  /** The first `n` entries of a run are the ones among the first `p` of the merged run. */
  ghost predicate Split(es: seq<Entry>, n: nat, merged: seq<Entry>, p: nat) {
    && n <= |es| && p <= |merged|
    && (forall j {:trigger es[j]} :: 0 <= j < n ==> es[j] in merged[..p])
    && (forall j {:trigger es[j]} :: n <= j < |es| ==> es[j] in merged[p..])
  }

  lemma WholeSplit(es: seq<Entry>, merged: seq<Entry>)
    requires forall e :: e in es ==> e in merged
    ensures Split(es, |es|, merged, |merged|)
  {
    assert merged[..|merged|] == merged;
  }

  /** A sorted list is determined by its entries. */
  lemma {:induction false} SortedIsUnique(a: seq<Entry>, b: seq<Entry>)
    requires Sorted(a) && Sorted(b) && Elements(a) == Elements(b)
    ensures a == b
    decreases |a|
  {
    assert b != [] ==> b[0] in Elements(a);
    if a != [] {
      assert a[0] in Elements(b);
      var i :| 0 <= i < |b| && b[i] == a[0];
      var j :| 0 <= j < |a| && a[j] == b[0];
      if i > 0 && j > 0 {
        assert Before(b[0].key, b[i].key) && Before(a[0].key, a[j].key);
        CompareIsTotalOrder(a[0].key, b[0].key, a[0].key);
        assert false;
      }
      HeadAndTail(a);
      HeadAndTail(b);
      SortedIsUnique(a[1..], b[1..]);
    }
  }

  lemma HeadAndTail(a: seq<Entry>)
    requires Sorted(a) && a != []
    ensures Sorted(a[1..]) && Elements(a[1..]) == Elements(a) - {a[0]} && a == [a[0]] + a[1..]
  {
    forall i, j | 0 <= i < j < |a| - 1 ensures Before(a[1..][i].key, a[1..][j].key) {
      assert Before(a[i + 1].key, a[j + 1].key);
    }
    forall e | e in a[1..] ensures e != a[0] {
      var i :| 0 <= i < |a| - 1 && a[1..][i] == e;
      assert Before(a[0].key, a[i + 1].key);
      CompareIsTotalOrder(a[0].key, a[0].key, a[0].key);
    }
    forall e | e in a && e != a[0] ensures e in a[1..] {
      var i :| 0 <= i < |a| && a[i] == e;
      assert a[1..][i - 1] == e;
    }
  }

  lemma SortedSplit(merged: seq<Entry>, p: nat, x: Entry, y: Entry)
    requires Sorted(merged) && p <= |merged| && x in merged[..p] && y in merged[p..]
    ensures Before(x.key, y.key)
  {
    var i :| 0 <= i < p && merged[..p][i] == x;
    var j :| 0 <= j < |merged| - p && merged[p..][j] == y;
    assert Before(merged[i].key, merged[p + j].key);
  }

  /** The run that holds the next merged entry stands right before it. */
  lemma NextIsNext(es: seq<Entry>, n: nat, merged: seq<Entry>, p: nat)
    requires Sorted(es) && Sorted(merged) && Split(es, n, merged, p) && p < |merged| && merged[p] in es
    ensures n < |es| && es[n] == merged[p] && Split(es, n + 1, merged, p + 1)
  {
    var x := merged[p];
    assert x in merged[p..] by { assert merged[p..][0] == x; }
    var j :| 0 <= j < |es| && es[j] == x;
    if j < n { SortedSplit(merged, p, x, x); }
    if n < j {
      assert Before(es[n].key, es[j].key);
      var k :| 0 <= k < |merged| - p && merged[p..][k] == es[n];
      assert k > 0 ==> Before(merged[p].key, merged[p + k].key);
      CompareIsTotalOrder(es[n].key, x.key, es[n].key);
      assert false;
    }
    SplitShifts(es, n + 1, merged, p);
  }

  /** Entries of a run other than the next merged one lie on the same side of both positions. */
  lemma SplitShifts(es: seq<Entry>, n: nat, merged: seq<Entry>, p: nat)
    requires Sorted(es) && Sorted(merged) && p < |merged| && n <= |es|
    requires forall j {:trigger es[j]} :: 0 <= j < n ==> es[j] in merged[..p] || es[j] == merged[p]
    requires forall j {:trigger es[j]} :: n <= j < |es| ==> es[j] in merged[p..]
    requires (n > 0 && es[n - 1] == merged[p]) || merged[p] !in es
    ensures Split(es, n, merged, p + 1)
  {
    assert merged[..p + 1] == merged[..p] + [merged[p]];
    assert merged[p..] == [merged[p]] + merged[p + 1..];
    forall j | n <= j < |es| ensures es[j] in merged[p + 1..] {
      assert n > 0 ==> Before(es[n - 1].key, es[j].key);
    }
  }

  /** Seeking in one run agrees with seeking in the merged run. */
  lemma SeekSplitsRun(es: seq<Entry>, merged: seq<Entry>, target: InternalKey)
    requires Sorted(es) && Sorted(merged) && forall e :: e in es ==> e in merged
    ensures Split(es, Tables.Seek(es, target), merged, Tables.Seek(merged, target))
  {
    var n, p := Tables.Seek(es, target), Tables.Seek(merged, target);
    SeekSplits(es, target);
    SeekSplits(merged, target);
    assert merged == merged[..p] + merged[p..];
    forall j | 0 <= j < |es|
      ensures j < n ==> es[j] in merged[..p]
      ensures n <= j ==> es[j] in merged[p..]
    {
      assert es[j] in es && es[j] in merged;
      var k :| 0 <= k < |merged| && merged[k] == es[j];
      assert Before(es[j].key, target) <==> j < n;
      assert Before(merged[k].key, target) <==> k < p;
      assert k < p ==> merged[..p][k] == es[j];
      assert k >= p ==> merged[p..][k - p] == es[j];
    }
  }

  /** At a merged entry that the run does not hold, seeking its key splits the run there. */
  lemma SeekAt(merged: seq<Entry>, p: nat)
    requires Sorted(merged) && p < |merged|
    ensures Tables.Seek(merged, merged[p].key) == p
  {
    SeekSplits(merged, merged[p].key);
    CompareIsTotalOrder(merged[p].key, merged[p].key, merged[p].key);
    assert forall q :: 0 <= q < p ==> Before(merged[q].key, merged[p].key);
  }

  lemma LeastRemaining(merged: seq<Entry>, p: nat, x: Entry)
    requires Sorted(merged) && p < |merged| && x in merged[p..] && !Before(merged[p].key, x.key)
    ensures x == merged[p]
  {
    var k :| 0 <= k < |merged| - p && merged[p..][k] == x;
    assert k > 0 ==> Before(merged[p].key, merged[p + k].key);
  }

  lemma GreatestPassed(merged: seq<Entry>, p: nat, x: Entry)
    requires Sorted(merged) && 0 < p <= |merged| && x in merged[..p] && !Before(x.key, merged[p - 1].key)
    ensures x == merged[p - 1]
  {
    var k :| 0 <= k < p && merged[..p][k] == x;
    assert k < p - 1 ==> Before(merged[k].key, merged[p - 1].key);
  }

  /** The run that holds the last passed merged entry stands right after it. */
  lemma LastPassedIsLast(es: seq<Entry>, n: nat, merged: seq<Entry>, p: nat)
    requires Sorted(es) && Sorted(merged) && Split(es, n, merged, p) && 0 < p && merged[p - 1] in es
    ensures 0 < n && es[n - 1] == merged[p - 1] && Split(es, n - 1, merged, p - 1)
  {
    var x := merged[p - 1];
    assert x in merged[..p] by { assert merged[..p][p - 1] == x; }
    var j :| 0 <= j < |es| && es[j] == x;
    assert n <= j ==> x in merged[p..];
    if n <= j { SortedSplit(merged, p, x, x); assert false; }
    assert j < n - 1 ==> Before(es[j].key, es[n - 1].key);
    var k :| 0 <= k < p && merged[..p][k] == es[n - 1];
    assert k < p - 1 ==> Before(merged[k].key, merged[p - 1].key);
    CompareIsTotalOrder(es[n - 1].key, x.key, es[n - 1].key);
    SplitShiftsBack(es, n - 1, merged, p);
  }

  lemma SplitShiftsBack(es: seq<Entry>, n: nat, merged: seq<Entry>, p: nat)
    requires Sorted(es) && 0 < p <= |merged| && n <= |es|
    requires forall j {:trigger es[j]} :: 0 <= j < n ==> es[j] in merged[..p]
    requires forall j {:trigger es[j]} :: n <= j < |es| ==> es[j] in merged[p..] || es[j] == merged[p - 1]
    requires (n < |es| && es[n] == merged[p - 1]) || merged[p - 1] !in es
    ensures Split(es, n, merged, p - 1)
  {
    assert merged[..p] == merged[..p - 1] + [merged[p - 1]];
    assert merged[p - 1..] == [merged[p - 1]] + merged[p..];
    forall j | 0 <= j < n ensures es[j] in merged[..p - 1] {
      assert n < |es| ==> Before(es[j].key, es[n].key);
    }
  }

  class MergingIterator {
    const children: seq<Cursor>
    /** All entries of the children, in order. */
    ghost const merged: seq<Entry>
    /** The child that yields the current entry. */
    var current: Option<nat>
    var direction: Direction
    /** The position in `merged`; |merged| when there is none. */
    ghost var pos: nat

    ghost predicate Wired() {
      && (forall i, j {:trigger children[i], children[j]} :: 0 <= i < j < |children| ==> children[i] != children[j])
      && (forall i, j {:trigger DistinctKeys(children[i].entries, children[j].entries)} :: 0 <= i < j < |children| ==>
            DistinctKeys(children[i].entries, children[j].entries))
      && Sorted(merged)
      && (forall i, e :: 0 <= i < |children| && e in children[i].entries ==> e in merged)
      && (forall e :: e in merged ==> exists i :: 0 <= i < |children| && e in children[i].entries)
    }

    ghost predicate ChildrenReady()
      reads children
    {
      forall i :: 0 <= i < |children| ==> children[i].Ready()
    }

    /** Every child stands at its first entry among the merged ones from `p` on. */
    ghost predicate Forwards(p: nat)
      reads children
    {
      forall i :: 0 <= i < |children| ==> Split(children[i].entries, children[i].pos, merged, p)
    }

    /** Every child stands at its last entry among the first `p` merged ones. */
    ghost predicate Backwards(p: nat)
      reads children
    {
      forall i :: 0 <= i < |children| ==> Split(children[i].entries, children[i].Passed(), merged, p)
    }

    ghost predicate StandsAt(c: nat, p: nat)
      requires c < |children| && p < |merged|
      reads children
    {
      children[c].Valid() && children[c].entries[children[c].pos] == merged[p]
    }

    ghost predicate Ready()
      reads this, children
    {
      && Wired() && ChildrenReady() && pos <= |merged|
      && (current.None? <==> pos == |merged|)
      && (current.Some? ==> current.value < |children| && StandsAt(current.value, pos))
      && (current.Some? && direction.Forward? ==> Forwards(pos))
      && (current.Some? && direction.Reverse? ==> Backwards(pos + 1))
    }

    predicate Valid()
      reads this
    {
      current.Some?
    }

    function Current(): (e: Entry)
      requires Ready() && Valid()
      reads this, children
      ensures pos < |merged| && e == merged[pos]
    {
      children[current.value].entries[children[current.value].pos]
    }

    /** The owner of the merged entry at `p`; no other child holds it. */
    lemma Owner(p: nat) returns (c: nat)
      requires Wired() && p < |merged|
      ensures c < |children| && merged[p] in children[c].entries
      ensures forall i :: 0 <= i < |children| && i != c ==> merged[p] !in children[i].entries
    {
      assert merged[p] in merged;
      c :| 0 <= c < |children| && merged[p] in children[c].entries;
      forall i | 0 <= i < |children| && i != c ensures merged[p] !in children[i].entries {
        assert i < c ==> DistinctKeys(children[i].entries, children[c].entries);
        assert c < i ==> DistinctKeys(children[c].entries, children[i].entries);
      }
    }

    method FindSmallest(ghost p: nat)
      requires Wired() && ChildrenReady() && p <= |merged| && Forwards(p)
      modifies this`current
      ensures current.None? <==> p == |merged|
      ensures current.Some? ==> current.value < |children| && StandsAt(current.value, p)
    {
      var smallest: Option<nat> := None;
      for i := 0 to |children|
        invariant smallest.Some? ==> smallest.value < i && children[smallest.value].Valid()
        invariant forall j :: 0 <= j < i && children[j].Valid() ==>
          smallest.Some? && !Before(children[j].entries[children[j].pos].key, children[smallest.value].entries[children[smallest.value].pos].key)
      {
        var child := children[i];
        if child.Valid() {
          var key := child.entries[child.pos].key;
          CompareIsTotalOrder(key, key, key);
          if smallest.None? {
            smallest := Some(i);
          } else {
            var least := children[smallest.value].entries[children[smallest.value].pos].key;
            if Compare(key, least) < 0 {
              forall j | 0 <= j < i && children[j].Valid() ensures !Before(children[j].entries[children[j].pos].key, key) {
                CompareIsTotalOrder(children[j].entries[children[j].pos].key, key, least);
              }
              smallest := Some(i);
            }
          }
        }
      }
      current := smallest;
      if p < |merged| {
        ghost var c := Owner(p);
        NextIsNext(children[c].entries, children[c].pos, merged, p);
        LeastRemaining(merged, p, children[smallest.value].entries[children[smallest.value].pos]);
      }
    }

    method FindLargest(ghost p: nat)
      requires Wired() && ChildrenReady() && p <= |merged| && Backwards(p)
      modifies this`current
      ensures current.None? <==> p == 0
      ensures current.Some? ==> current.value < |children| && p > 0 && StandsAt(current.value, p - 1)
    {
      var largest: Option<nat> := None;
      for i := |children| downto 0
        invariant largest.Some? ==> i <= largest.value < |children| && children[largest.value].Valid()
        invariant forall j :: i <= j < |children| && children[j].Valid() ==>
          largest.Some? && !Before(children[largest.value].entries[children[largest.value].pos].key, children[j].entries[children[j].pos].key)
      {
        var child := children[i];
        if child.Valid() {
          var key := child.entries[child.pos].key;
          CompareIsTotalOrder(key, key, key);
          if largest.None? {
            largest := Some(i);
          } else {
            var greatest := children[largest.value].entries[children[largest.value].pos].key;
            CompareIsTotalOrder(key, greatest, key);
            if Compare(key, greatest) > 0 {
              forall j | i < j < |children| && children[j].Valid() ensures !Before(key, children[j].entries[children[j].pos].key) {
                CompareIsTotalOrder(greatest, key, children[j].entries[children[j].pos].key);
              }
              largest := Some(i);
            }
          }
        }
      }
      current := largest;
      if p > 0 {
        ghost var c := Owner(p - 1);
        LastPassedIsLast(children[c].entries, children[c].Passed(), merged, p);
        GreatestPassed(merged, p, children[largest.value].entries[children[largest.value].pos]);
      }
    }

    constructor (children: seq<Cursor>)
      requires forall i, j {:trigger children[i], children[j]} :: 0 <= i < j < |children| ==> children[i] != children[j]
      requires forall c :: c in children ==> c.Ready()
      requires DistinctRuns(seq(|children|, i requires 0 <= i < |children| => children[i].entries))
      ensures this.children == children && Ready() && !Valid()
      ensures forall e :: e in merged <==> exists i :: 0 <= i < |children| && e in children[i].entries
    {
      this.children, current, direction := children, None, Forward;
      ghost var runs := seq(|children|, i requires 0 <= i < |children| => children[i].entries);
      forall i | 0 <= i < |runs| ensures Sorted(runs[i]) { assert children[i] in children; }
      merged := MergeRuns(runs);
      pos := |MergeRuns(runs)|;
      new;
      assert forall i :: 0 <= i < |children| ==> runs[i] == children[i].entries;
      forall e ensures e in merged <==> exists i :: 0 <= i < |children| && e in children[i].entries {
        assert e in merged <==> e in Union(runs);
        assert e in Union(runs) ==> exists i :: 0 <= i < |runs| && e in runs[i];
        if i :| 0 <= i < |children| && e in children[i].entries { assert e in runs[i]; }
      }
      forall i, j | 0 <= i < j < |children| ensures DistinctKeys(children[i].entries, children[j].entries) {
        assert DistinctKeys(runs[i], runs[j]);
      }
    }

    method SeekToFirst()
      requires Ready()
      modifies this, children
      ensures Ready() && pos == 0
    {
      for i := 0 to |children|
        invariant Wired() && ChildrenReady()
        invariant forall j :: 0 <= j < i ==> children[j].pos == 0
      {
        children[i].SeekToFirst();
      }
      assert merged[0..] == merged;
      FindSmallest(0);
      pos := 0;
      direction := Forward;
    }

    method SeekToLast()
      requires Ready()
      modifies this, children
      ensures Ready() && pos == if merged == [] then 0 else |merged| - 1
    {
      for i := 0 to |children|
        invariant Wired() && ChildrenReady()
        invariant forall j :: 0 <= j < i ==> children[j].Passed() == |children[j].entries|
      {
        children[i].SeekToLast();
      }
      forall i | 0 <= i < |children| ensures Split(children[i].entries, children[i].Passed(), merged, |merged|) {
        WholeSplit(children[i].entries, merged);
      }
      FindLargest(|merged|);
      pos := if merged == [] then 0 else |merged| - 1;
      direction := Reverse;
    }

    method Seek(target: InternalKey)
      requires Ready()
      modifies this, children
      ensures Ready() && pos == Tables.Seek(merged, target)
    {
      for i := 0 to |children|
        invariant Wired() && ChildrenReady()
        invariant forall j :: 0 <= j < i ==> children[j].pos == Tables.Seek(children[j].entries, target)
      {
        children[i].Seek(target);
      }
      forall i | 0 <= i < |children| ensures Split(children[i].entries, children[i].pos, merged, Tables.Seek(merged, target)) {
        SeekSplitsRun(children[i].entries, merged, target);
      }
      FindSmallest(Tables.Seek(merged, target));
      pos := Tables.Seek(merged, target);
      direction := Forward;
    }

    /** Turning forward: a child that is not the current one goes to its first entry after `key`. */
    method SeekAfter(child: Cursor, key: InternalKey)
      requires child.Ready()
      modifies child
      ensures child.Ready()
      ensures (forall e :: e in child.entries ==> e.key != key) ==> child.pos == Tables.Seek(child.entries, key)
    {
      child.Seek(key);
      if child.Valid() {
        CompareIsTotalOrder(key, child.entries[child.pos].key, key);
        if Compare(key, child.entries[child.pos].key) == 0 {
          assert child.entries[child.pos] in child.entries;
          child.Next();
        }
      }
    }

    /** Turning back: a child that is not the current one goes to its last entry before `key`. */
    method SeekBefore(child: Cursor, key: InternalKey)
      requires child.Ready()
      modifies child
      ensures child.Ready() && child.Passed() == Tables.Seek(child.entries, key)
    {
      child.Seek(key);
      if child.Valid() {
        child.Prev();
      } else {
        child.SeekToLast();
      }
    }

    /** No child but the owner has an entry with the key of the merged entry at `p`. */
    lemma OthersDiffer(c: nat, i: nat, p: nat)
      requires Wired() && p < |merged| && c < |children| && i < |children| && i != c && merged[p] in children[c].entries
      ensures forall e :: e in children[i].entries ==> e.key != merged[p].key
    {
      assert i < c ==> DistinctKeys(children[i].entries, children[c].entries);
      assert c < i ==> DistinctKeys(children[c].entries, children[i].entries);
    }

    /** The current child stands between the entries before the merged position and those after. */
    lemma CurrentSplits()
      requires Ready() && Valid()
      ensures Split(children[current.value].entries, children[current.value].pos, merged, pos)
      ensures Split(children[current.value].entries, children[current.value].pos + 1, merged, pos + 1)
    {
      var child := children[current.value];
      assert child.entries[child.pos] in child.entries;
      if direction.Forward? {
        NextIsNext(child.entries, child.pos, merged, pos);
      } else {
        LastPassedIsLast(child.entries, child.pos + 1, merged, pos + 1);
      }
    }

    /** Puts all children but the current one behind the current entry. */
    method TurnForward(c: nat)
      requires Wired() && ChildrenReady() && pos < |merged| && c < |children| && StandsAt(c, pos)
      modifies children
      ensures ChildrenReady() && children[c].pos == old(children[c].pos)
      ensures forall i :: 0 <= i < |children| && i != c ==> Split(children[i].entries, children[i].pos, merged, pos)
    {
      var key := children[c].entries[children[c].pos].key;
      assert merged[pos] in children[c].entries;
      for i := 0 to |children|
        invariant ChildrenReady()
        invariant children[c].pos == old(children[c].pos)
        invariant forall j :: 0 <= j < i && j != c ==> children[j].pos == Tables.Seek(children[j].entries, key)
      {
        if i != c {
          OthersDiffer(c, i, pos);
          SeekAfter(children[i], key);
        }
      }
      SeekAt(merged, pos);
      forall i | 0 <= i < |children| && i != c ensures Split(children[i].entries, children[i].pos, merged, pos) {
        SeekSplitsRun(children[i].entries, merged, key);
      }
    }

    /** Puts all children but the current one before the current entry. */
    method TurnBack(c: nat)
      requires Wired() && ChildrenReady() && pos < |merged| && c < |children| && StandsAt(c, pos)
      modifies children
      ensures ChildrenReady() && children[c].pos == old(children[c].pos)
      ensures forall i :: 0 <= i < |children| && i != c ==> Split(children[i].entries, children[i].Passed(), merged, pos)
    {
      var key := children[c].entries[children[c].pos].key;
      for i := 0 to |children|
        invariant ChildrenReady()
        invariant children[c].pos == old(children[c].pos)
        invariant forall j :: 0 <= j < i && j != c ==> children[j].Passed() == Tables.Seek(children[j].entries, key)
      {
        if i != c {
          SeekBefore(children[i], key);
        }
      }
      SeekAt(merged, pos);
      forall i | 0 <= i < |children| && i != c ensures Split(children[i].entries, children[i].Passed(), merged, pos) {
        SeekSplitsRun(children[i].entries, merged, key);
      }
    }

    lemma OthersPass(c: nat)
      requires Wired() && ChildrenReady() && pos < |merged| && c < |children| && merged[pos] in children[c].entries
      requires forall i :: 0 <= i < |children| && i != c ==> Split(children[i].entries, children[i].pos, merged, pos)
      ensures forall i :: 0 <= i < |children| && i != c ==> Split(children[i].entries, children[i].pos, merged, pos + 1)
    {
      forall i | 0 <= i < |children| && i != c ensures Split(children[i].entries, children[i].pos, merged, pos + 1) {
        OthersDiffer(c, i, pos);
        SplitShifts(children[i].entries, children[i].pos, merged, pos);
      }
    }

    lemma OthersStepBack(c: nat)
      requires Wired() && ChildrenReady() && pos < |merged| && c < |children| && merged[pos] in children[c].entries
      requires Backwards(pos + 1)
      ensures forall i :: 0 <= i < |children| && i != c ==> Split(children[i].entries, children[i].Passed(), merged, pos)
    {
      forall i | 0 <= i < |children| && i != c ensures Split(children[i].entries, children[i].Passed(), merged, pos) {
        OthersDiffer(c, i, pos);
        SplitShiftsBack(children[i].entries, children[i].Passed(), merged, pos + 1);
      }
    }

    /** The current child leaves the current entry, forward. */
    method Advance(c: nat)
      requires Wired() && ChildrenReady() && pos < |merged| && c < |children| && StandsAt(c, pos)
      requires Split(children[c].entries, children[c].pos + 1, merged, pos + 1)
      requires forall i :: 0 <= i < |children| && i != c ==> Split(children[i].entries, children[i].pos, merged, pos)
      modifies children[c]
      ensures ChildrenReady() && Forwards(pos + 1)
    {
      assert children[c].entries[children[c].pos] in children[c].entries;
      OthersPass(c);
      children[c].Next();
    }

    /** The current child leaves the current entry, backward. */
    method Retreat(c: nat)
      requires Wired() && ChildrenReady() && pos < |merged| && c < |children| && StandsAt(c, pos)
      requires Split(children[c].entries, children[c].pos, merged, pos)
      requires forall i :: 0 <= i < |children| && i != c ==> Split(children[i].entries, children[i].Passed(), merged, pos)
      modifies children[c]
      ensures ChildrenReady() && Backwards(pos)
    {
      children[c].Prev();
    }

    method LeaveForward()
      requires Ready() && Valid()
      modifies this`direction, children
      ensures ChildrenReady() && Forwards(pos + 1) && direction.Forward?
    {
      CurrentSplits();
      if direction != Forward {
        TurnForward(current.value);
        direction := Forward;
      }
      Advance(current.value);
    }

    method LeaveBackward()
      requires Ready() && Valid()
      modifies this`direction, children
      ensures ChildrenReady() && Backwards(pos) && direction.Reverse?
    {
      CurrentSplits();
      if direction != Reverse {
        TurnBack(current.value);
        direction := Reverse;
      } else {
        assert children[current.value].entries[children[current.value].pos] in children[current.value].entries;
        OthersStepBack(current.value);
      }
      Retreat(current.value);
    }

    method Next()
      requires Ready() && Valid()
      modifies this, children
      ensures Ready() && pos == old(pos) + 1
    {
      LeaveForward();
      FindSmallest(pos + 1);
      pos := pos + 1;
    }

    method Prev()
      requires Ready() && Valid()
      modifies this, children
      ensures Ready() && pos == if old(pos) == 0 then |merged| else old(pos) - 1
    {
      LeaveBackward();
      FindLargest(pos);
      pos := if pos == 0 then |merged| else pos - 1;
    }
  }
}
