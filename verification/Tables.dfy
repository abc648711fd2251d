/**
 Sorted runs of entries.  A memtable and a table file both answer a read by seeking to the
 lookup key and checking the user key found there (db/memtable.cc, Saver in
 db/version_set.cc).
 */
module Tables {
  import opened Wrappers
  import opened DbFormat
  import opened Visibility

  ghost predicate Sorted(es: seq<Entry>) {
    forall i, j {:trigger Before(es[i].key, es[j].key)} :: 0 <= i < j < |es| ==> Before(es[i].key, es[j].key)
  }

  ghost function Elements(es: seq<Entry>): set<Entry> {
    set e | e in es
  }

  ghost function Keys(es: seq<Entry>): set<InternalKey> {
    set e | e in es :: e.key
  }

  /** The position of the first entry at or after `target`, starting the search at `from`. */
  function SeekFrom(es: seq<Entry>, target: InternalKey, from: nat): (i: nat)
    requires from <= |es|
    ensures from <= i <= |es|
    ensures forall j {:trigger Before(es[j].key, target)} :: from <= j < i ==> Before(es[j].key, target)
    ensures i < |es| ==> !Before(es[i].key, target)
    decreases |es| - from
  {
    if from == |es| || !Before(es[from].key, target) then from else SeekFrom(es, target, from + 1)
  }

  function Seek(es: seq<Entry>, target: InternalKey): (i: nat)
    ensures i <= |es|
    ensures forall j {:trigger Before(es[j].key, target)} :: 0 <= j < i ==> Before(es[j].key, target)
    ensures i < |es| ==> !Before(es[i].key, target)
  {
    SeekFrom(es, target, 0)
  }

  lemma SeekSplits(es: seq<Entry>, target: InternalKey)
    requires Sorted(es)
    ensures forall j :: Seek(es, target) <= j < |es| ==> !Before(es[j].key, target)
  {
    var i := Seek(es, target);
    forall j | i <= j < |es| ensures !Before(es[j].key, target) {
      if i < j { CompareIsTotalOrder(es[i].key, es[j].key, target); }
    }
  }

  /** The entry a table yields for a read, if it has one. */
  function Get(es: seq<Entry>, user: UserKey, snapshot: nat): (r: Option<Entry>)
    requires Sorted(es)
    ensures r.Some? ==> IsNewest(Elements(es), user, snapshot, r.value)
    ensures r.None? ==> NoMatch(Elements(es), user, snapshot)
  {
    var target := LookupKey(user, snapshot);
    var i := Seek(es, target);
    SeekSplits(es, target);
    assert forall e :: e in es && Matches(e, user, snapshot) ==> !Before(e.key, target);
    assert i < |es| ==> forall j :: i < j < |es| ==> Before(es[i].key, es[j].key);
    if i < |es| && es[i].key.user == user then Some(es[i]) else None
  }

  lemma InsertKeepsSorted(es: seq<Entry>, e: Entry, i: nat)
    requires i == Seek(es, e.key) && Sorted(es)
    requires e.key !in Keys(es)
    ensures Sorted(es[..i] + [e] + es[i..])
  {
    SeekSplits(es, e.key);
    forall j | i <= j < |es| ensures Before(e.key, es[j].key) {
      CompareIsTotalOrder(e.key, es[j].key, e.key);
      assert es[j] in es;
    }
  }

  /** The skip list keeps a memtable sorted: the new entry goes where a seek for it ends. */
  function Insert(es: seq<Entry>, e: Entry): (r: seq<Entry>)
    requires Sorted(es)
    requires e.key !in Keys(es)
    ensures Elements(r) == Elements(es) + {e}
    ensures Sorted(r)
  {
    var i := Seek(es, e.key);
    InsertKeepsSorted(es, e, i);
    assert es == es[..i] + es[i..];
    es[..i] + [e] + es[i..]
  }
}
