/**
 The iterator users see: it moves over the user keys that are visible at one sequence number,
 on top of an iterator over all internal entries (db/db_iter.cc).
 */
module DbIterator {
  import opened Wrappers
  import opened DbFormat
  import opened Visibility
  import opened Tables
  import opened Iterators

  // ---------------------------------------------------------------- visible user keys

  datatype Bound = Anywhere | AtLeast(key: UserKey) | Above(key: UserKey) | Below(key: UserKey)

  predicate Admits(b: Bound, user: UserKey) {
    match b
    case Anywhere => true
    case AtLeast(key) => user >= key
    case Above(key) => user > key
    case Below(key) => user < key
  }

  ghost predicate IsVisible(S: set<Entry>, user: UserKey, s: nat) {
    Visible(S, user, s).Some?
  }

  /** `r` is the smallest visible user key within the bound. */
  ghost predicate Leftmost(S: set<Entry>, s: nat, b: Bound, r: Option<UserKey>) {
    && (r.Some? ==> Admits(b, r.value) && IsVisible(S, r.value, s))
    && forall user {:trigger IsVisible(S, user, s)} :: Admits(b, user) && IsVisible(S, user, s) ==> r.Some? && r.value <= user
  }

  /** `r` is the greatest visible user key within the bound. */
  ghost predicate Rightmost(S: set<Entry>, s: nat, b: Bound, r: Option<UserKey>) {
    && (r.Some? ==> Admits(b, r.value) && IsVisible(S, r.value, s))
    && forall user {:trigger IsVisible(S, user, s)} :: Admits(b, user) && IsVisible(S, user, s) ==> r.Some? && r.value >= user
  }

  // ---------------------------------------------------------------- positions

  predicate Live(es: seq<Entry>, s: nat, k: nat)
    requires k < |es|
  {
    es[k].key.seqno <= s
  }

  /** The entry at `k` decides the read of its user key, and is a value. */
  ghost predicate Shown(es: seq<Entry>, s: nat, k: nat)
    requires k < |es|
  {
    && Live(es, s, k) && es[k].key.kind.TypeValue?
    && forall j {:trigger Live(es, s, j)} :: 0 <= j < k && Live(es, s, j) ==> es[j].key.user != es[k].key.user
  }

  ghost predicate Wanted(es: seq<Entry>, s: nat, b: Bound, k: nat)
    requires k < |es|
  {
    Shown(es, s, k) && Admits(b, es[k].key.user)
  }

  ghost predicate NoneBefore(es: seq<Entry>, s: nat, b: Bound, n: nat)
    requires n <= |es|
  {
    forall k {:trigger Wanted(es, s, b, k)} :: 0 <= k < n ==> !Wanted(es, s, b, k)
  }

  ghost predicate NoneFrom(es: seq<Entry>, s: nat, b: Bound, n: nat) {
    forall k {:trigger Wanted(es, s, b, k)} :: n <= k < |es| ==> !Wanted(es, s, b, k)
  }

  ghost predicate IsLeast(es: seq<Entry>, s: nat, b: Bound, a: nat) {
    a <= |es| && NoneBefore(es, s, b, a) && (a < |es| ==> Wanted(es, s, b, a))
  }

  ghost predicate IsGreatest(es: seq<Entry>, s: nat, b: Bound, a: nat) {
    && a <= |es|
    && (a < |es| ==> Wanted(es, s, b, a) && NoneFrom(es, s, b, a + 1))
    && (a == |es| ==> NoneBefore(es, s, b, a))
  }

  lemma UsersAscend(es: seq<Entry>, i: nat, j: nat)
    requires Sorted(es) && i <= j < |es|
    ensures es[i].key.user <= es[j].key.user
    ensures i < j && es[i].key.user == es[j].key.user ==> es[i].key.Tag() > es[j].key.Tag() && es[i].key.seqno >= es[j].key.seqno
  {
    assert i < j ==> Before(es[i].key, es[j].key);
  }

  lemma ShownIsVisible(es: seq<Entry>, s: nat, k: nat)
    requires Sorted(es) && UniqueSeqnos(Elements(es)) && k < |es| && Shown(es, s, k)
    ensures Visible(Elements(es), es[k].key.user, s) == Some(es[k].value)
  {
    forall x | x in Elements(es) && Matches(x, es[k].key.user, s) ensures x.key.seqno <= es[k].key.seqno {
      var j :| 0 <= j < |es| && es[j] == x;
      assert Live(es, s, j);
      if k < j { UsersAscend(es, k, j); }
    }
    VisibleIs(Elements(es), es[k].key.user, s, es[k]);
  }

  lemma VisibleIsShown(es: seq<Entry>, user: UserKey, s: nat) returns (k: nat)
    requires Sorted(es) && UniqueSeqnos(Elements(es)) && IsVisible(Elements(es), user, s)
    ensures k < |es| && Shown(es, s, k) && es[k].key.user == user
  {
    var e := Newest(Elements(es), user, s).value;
    k :| 0 <= k < |es| && es[k] == e;
    forall j | 0 <= j < k && Live(es, s, j) ensures es[j].key.user != user {
      if es[j].key.user == user {
        UsersAscend(es, j, k);
        assert es[j] in Elements(es) && Matches(es[j], user, s);
        assert false;
      }
    }
  }

  ghost function UserAt(es: seq<Entry>, a: nat): Option<UserKey> {
    if a < |es| then Some(es[a].key.user) else None
  }

  lemma LeastIsLeftmost(es: seq<Entry>, s: nat, b: Bound, a: nat)
    requires Sorted(es) && UniqueSeqnos(Elements(es)) && IsLeast(es, s, b, a)
    ensures Leftmost(Elements(es), s, b, UserAt(es, a))
  {
    if a < |es| { ShownIsVisible(es, s, a); }
    forall user | Admits(b, user) && IsVisible(Elements(es), user, s) ensures a < |es| && es[a].key.user <= user {
      var k := VisibleIsShown(es, user, s);
      assert Wanted(es, s, b, k);
      UsersAscend(es, a, k);
    }
  }

  lemma GreatestIsRightmost(es: seq<Entry>, s: nat, b: Bound, a: nat)
    requires Sorted(es) && UniqueSeqnos(Elements(es)) && IsGreatest(es, s, b, a)
    ensures Rightmost(Elements(es), s, b, UserAt(es, a))
  {
    if a < |es| { ShownIsVisible(es, s, a); }
    forall user | Admits(b, user) && IsVisible(Elements(es), user, s) ensures a < |es| && es[a].key.user >= user {
      var k := VisibleIsShown(es, user, s);
      assert Wanted(es, s, b, k);
      UsersAscend(es, k, a);
    }
  }

  // ---------------------------------------------------------------- scanning forward

  ghost predicate Covered(es: seq<Entry>, s: nat, i: nat, k: nat)
    requires i <= |es| && k < |es|
  {
    exists j {:trigger Live(es, s, j)} :: 0 <= j < i && Live(es, s, j) && es[j].key.user == es[k].key.user
  }

  /** Before position `i`: among the entries still to come, exactly those of the user key `skip`
      are hidden or out of bounds, and no smaller user key comes up again. */
  ghost predicate Skips(es: seq<Entry>, s: nat, b: Bound, i: nat, skip: Option<UserKey>)
    requires i <= |es|
  {
    forall k {:trigger Live(es, s, k)} :: i <= k < |es| && Live(es, s, k) ==>
      && (skip.Some? ==> skip.value <= es[k].key.user)
      && (Covered(es, s, i, k) || !Admits(b, es[k].key.user) <==> skip == Some(es[k].key.user))
  }

  lemma SkipDead(es: seq<Entry>, s: nat, b: Bound, i: nat, skip: Option<UserKey>)
    requires Sorted(es) && i < |es| && !Live(es, s, i) && Skips(es, s, b, i, skip) && NoneBefore(es, s, b, i)
    ensures Skips(es, s, b, i + 1, skip) && NoneBefore(es, s, b, i + 1)
  {
    forall k | i + 1 <= k < |es| && Live(es, s, k) ensures Covered(es, s, i + 1, k) <==> Covered(es, s, i, k) {
    }
  }

  /** A tombstone, or an entry of the skipped user key, hides what follows of its user key. */
  lemma SkipHidden(es: seq<Entry>, s: nat, b: Bound, i: nat, skip: Option<UserKey>)
    requires Sorted(es) && i < |es| && Live(es, s, i) && Skips(es, s, b, i, skip) && NoneBefore(es, s, b, i)
    requires es[i].key.kind.TypeDeletion? || (skip.Some? && es[i].key.user <= skip.value)
    requires !b.Below?
    ensures Skips(es, s, b, i + 1, Some(es[i].key.user)) && NoneBefore(es, s, b, i + 1)
  {
    var user := es[i].key.user;
    forall k | i + 1 <= k < |es| && Live(es, s, k)
      ensures user <= es[k].key.user
      ensures Covered(es, s, i + 1, k) || !Admits(b, es[k].key.user) <==> user == es[k].key.user
    {
      UsersAscend(es, i, k);
      if Covered(es, s, i + 1, k) {
        var j :| 0 <= j < i + 1 && Live(es, s, j) && es[j].key.user == es[k].key.user;
        UsersAscend(es, j, i);
      }
    }
    assert es[i].key.kind.TypeValue? ==> skip == Some(user);
    assert Covered(es, s, i, i) ==> !Shown(es, s, i);
  }

  lemma NotSkipped(es: seq<Entry>, s: nat, b: Bound, i: nat, skip: Option<UserKey>)
    requires Sorted(es) && i < |es| && Live(es, s, i) && Skips(es, s, b, i, skip)
    requires es[i].key.kind.TypeValue? && !(skip.Some? && es[i].key.user <= skip.value)
    ensures Wanted(es, s, b, i)
  {
    assert !Covered(es, s, i, i);
  }

  // ---------------------------------------------------------------- scanning backward

  /** Going back from `x`, the positions above `i` have been looked at, and `m` is the lowest live
      one among them. */
  ghost predicate Scanned(es: seq<Entry>, s: nat, i: int, x: nat, m: nat)
    requires -1 <= i <= x < |es|
  {
    && i < m <= |es|
    && (m < |es| ==> m <= x && Live(es, s, m))
    && (forall k {:trigger Live(es, s, k)} :: i < k <= x && k < m ==> !Live(es, s, k))
    && (forall k {:trigger Shown(es, s, k)} :: m < k <= x ==> !Shown(es, s, k))
  }

  lemma LowestIsShown(es: seq<Entry>, s: nat, i: int, x: nat, m: nat)
    requires Sorted(es) && -1 <= i <= x < |es| && Scanned(es, s, i, x, m) && m < |es| && es[m].key.kind.TypeValue?
    requires i >= 0 ==> es[i].key.user < es[m].key.user
    ensures Shown(es, s, m)
  {
    forall j | 0 <= j < m && Live(es, s, j) ensures es[j].key.user != es[m].key.user {
      assert j <= i;
      UsersAscend(es, j, i);
    }
  }

  lemma ScanLive(es: seq<Entry>, s: nat, i: nat, x: nat, m: nat)
    requires Sorted(es) && i <= x < |es| && Scanned(es, s, i, x, m) && Live(es, s, i)
    requires m < |es| && es[m].key.kind.TypeValue? ==> es[i].key.user >= es[m].key.user
    ensures Scanned(es, s, i - 1, x, i)
  {
    forall k | i < k <= x ensures !Shown(es, s, k) {
      if k == m { UsersAscend(es, i, m); }
    }
  }

  // ---------------------------------------------------------------- the iterator

  /** In reverse the internal iterator stands at the last live entry before the ones of the
      current user key. */
  ghost predicate StandsBefore(es: seq<Entry>, s: nat, x: nat, a: nat)
    requires a < |es|
  {
    && x <= |es|
    && (x < |es| ==> x < a && Live(es, s, x) && es[x].key.user < es[a].key.user)
    && forall k {:trigger Live(es, s, k)} :: 0 <= k < a && (x < |es| ==> x < k) ==> !Live(es, s, k)
  }

  class DBIter {
    const iter: MergingIterator
    const sequence: nat
    var direction: Direction
    var valid: bool
    var savedKey: Option<UserKey>
    var savedValue: Value
    /** The internal position of the current user key's entry. */
    ghost var at: nat

    ghost predicate Ready()
      reads this, iter, iter.children
    {
      && iter.Ready() && UniqueSeqnos(Elements(iter.merged))
      && (valid <==> at < |iter.merged|) && at <= |iter.merged|
      && (valid ==> Shown(iter.merged, sequence, at))
      && (valid && direction.Forward? ==> iter.pos == at)
      && (valid && direction.Reverse? ==>
            && savedKey == Some(iter.merged[at].key.user) && savedValue == iter.merged[at].value
            && StandsBefore(iter.merged, sequence, iter.pos, at))
    }

    /** The entries the iterator ranges over. */
    ghost function Contents(): set<Entry> {
      Elements(iter.merged)
    }

    function Key(): (user: UserKey)
      requires Ready() && valid
      reads this, iter, iter.children
      ensures user == iter.merged[at].key.user
    {
      if direction.Forward? then iter.Current().key.user else savedKey.value
    }

    function Val(): (v: Value)
      requires Ready() && valid
      reads this, iter, iter.children
      ensures Visible(Contents(), Key(), sequence) == Some(v)
    {
      ShownIsVisible(iter.merged, sequence, at);
      if direction.Forward? then iter.Current().value else savedValue
    }

    ghost function Position(): (r: Option<UserKey>)
      requires Ready()
      reads this, iter, iter.children
      ensures r == UserAt(iter.merged, at)
    {
      if valid then Some(Key()) else None
    }

    constructor (iter: MergingIterator, sequence: nat)
      requires iter.Ready() && UniqueSeqnos(Elements(iter.merged))
      ensures this.iter == iter && this.sequence == sequence && Ready() && !valid
    {
      this.iter, this.sequence := iter, sequence;
      direction, valid, savedKey, savedValue := Forward, false, None, "";
      at := |iter.merged|;
    }

    /** One round of FindNextUserEntry: the entry is yielded, or what it hides is remembered. */
    method Consider(skipping: bool, e: Entry, ghost b: Bound, ghost es: seq<Entry>, ghost i: nat) returns (skipping': bool, found: bool)
      requires Sorted(es) && i < |es| && e == es[i] && !b.Below? && (skipping ==> savedKey.Some?)
      requires Skips(es, sequence, b, i, if skipping then savedKey else None) && NoneBefore(es, sequence, b, i)
      modifies this`savedKey
      ensures found ==> Wanted(es, sequence, b, i)
      ensures !found ==> skipping' ==> savedKey.Some?
      ensures !found ==> Skips(es, sequence, b, i + 1, if skipping' then savedKey else None) && NoneBefore(es, sequence, b, i + 1)
    {
      skipping', found := skipping, false;
      if e.key.seqno <= sequence {
        assert Live(es, sequence, i);
        match e.key.kind
        case TypeDeletion =>
          SkipHidden(es, sequence, b, i, if skipping then savedKey else None);
          savedKey := Some(e.key.user);
          skipping' := true;
        case TypeValue =>
          if skipping && e.key.user <= savedKey.value {
            SkipHidden(es, sequence, b, i, savedKey);
          } else {
            NotSkipped(es, sequence, b, i, if skipping then savedKey else None);
            savedKey := None;
            found := true;
          }
      } else {
        SkipDead(es, sequence, b, i, if skipping then savedKey else None);
      }
    }

    /** The loop of FindNextUserEntry. */
    method ScanForward(skipping0: bool, ghost b: Bound)
      requires iter.Ready() && iter.Valid() && !b.Below?
      requires skipping0 ==> savedKey.Some?
      requires Skips(iter.merged, sequence, b, iter.pos, if skipping0 then savedKey else None)
      requires NoneBefore(iter.merged, sequence, b, iter.pos)
      modifies this`savedKey, iter, iter.children
      ensures iter.Ready() && IsLeast(iter.merged, sequence, b, iter.pos)
    {
      var skipping := skipping0;
      while iter.Valid()
        invariant iter.Ready()
        invariant skipping ==> savedKey.Some?
        invariant Skips(iter.merged, sequence, b, iter.pos, if skipping then savedKey else None)
        invariant NoneBefore(iter.merged, sequence, b, iter.pos)
        decreases |iter.merged| - iter.pos
      {
        var found;
        skipping, found := Consider(skipping, iter.Current(), b, iter.merged, iter.pos);
        if found {
          return;
        }
        iter.Next();
      }
    }

    /** Stops at the first entry that is neither too new nor hidden. */
    method FindNextUserEntry(skipping: bool, ghost b: Bound)
      requires iter.Ready() && UniqueSeqnos(Elements(iter.merged)) && iter.Valid() && direction.Forward? && !b.Below?
      requires skipping ==> savedKey.Some?
      requires Skips(iter.merged, sequence, b, iter.pos, if skipping then savedKey else None)
      requires NoneBefore(iter.merged, sequence, b, iter.pos)
      modifies this`valid, this`savedKey, this`at, iter, iter.children
      ensures Ready() && IsLeast(iter.merged, sequence, b, at)
    {
      ScanForward(skipping, b);
      savedKey := None;
      valid := iter.Valid();
      at := iter.pos;
    }

    /** One round of FindPrevUserEntry: the scan ends, or the entry is the new candidate. */
    method Collect(valueType: ValueType, e: Entry, ghost es: seq<Entry>, ghost i: nat, ghost x: nat, ghost m: nat)
      returns (valueType': ValueType, stop: bool, ghost m': nat)
      requires Sorted(es) && i <= x < |es| && e == es[i] && Scanned(es, sequence, i, x, m)
      requires Candidate(es, m, valueType)
      modifies this`savedKey, this`savedValue
      ensures stop ==> unchanged(this) && valueType' == valueType && m' == m && m < |es| && valueType.TypeValue?
      ensures stop ==> Live(es, sequence, i) && e.key.user < es[m].key.user
      ensures !stop ==> Scanned(es, sequence, i - 1, x, m') && Candidate(es, m', valueType')
    {
      valueType', stop, m' := valueType, false, m;
      if e.key.seqno <= sequence {
        assert Live(es, sequence, i);
        if valueType != TypeDeletion && e.key.user < savedKey.value {
          stop := true;
          return;
        }
        ScanLive(es, sequence, i, x, m);
        m' := i;
        valueType' := e.key.kind;
        if valueType' == TypeDeletion {
          savedKey := None;
          savedValue := "";
        } else {
          savedKey := Some(e.key.user);
          savedValue := e.value;
        }
      }
    }

    ghost predicate Candidate(es: seq<Entry>, m: nat, valueType: ValueType)
      reads this`savedKey, this`savedValue
    {
      && m <= |es|
      && (m == |es| ==> valueType.TypeDeletion?)
      && (m < |es| ==> valueType == es[m].key.kind)
      && (m < |es| && valueType.TypeValue? ==> savedKey == Some(es[m].key.user) && savedValue == es[m].value)
    }

    /** The loop of FindPrevUserEntry. */
    method ScanBackward(ghost b: Bound) returns (valueType: ValueType, ghost m: nat)
      requires iter.Ready() && iter.Valid() && BackFrom(iter.merged, sequence, b, iter.pos)
      modifies this`savedKey, this`savedValue, iter, iter.children
      ensures iter.Ready() && Candidate(iter.merged, m, valueType) && Ends(iter.merged, sequence, b, iter.pos, m, valueType)
    {
      m := |iter.merged|;
      valueType := TypeDeletion;
      ghost var x: nat := iter.pos;
      ghost var i: int := x;
      while iter.Valid()
        invariant iter.Ready()
        invariant i == if iter.Valid() then iter.pos else -1
        invariant i <= x && Scanned(iter.merged, sequence, i, x, m) && Candidate(iter.merged, m, valueType)
        decreases i
      {
        var stop;
        valueType, stop, m := StepBack(valueType, i, x, m);
        if stop {
          break;
        }
        i := i - 1;
      }
      ScanEnds(iter.merged, sequence, b, i, x, m);
    }

    method StepBack(valueType: ValueType, ghost i: nat, ghost x: nat, ghost m: nat) returns (valueType': ValueType, stop: bool, ghost m': nat)
      requires iter.Ready() && iter.Valid() && i == iter.pos <= x < |iter.merged|
      requires Scanned(iter.merged, sequence, i, x, m) && Candidate(iter.merged, m, valueType)
      modifies this`savedKey, this`savedValue, iter, iter.children
      ensures iter.Ready() && Candidate(iter.merged, m', valueType')
      ensures stop ==> iter.pos == i && m' == m < |iter.merged| && valueType'.TypeValue?
      ensures stop ==> Live(iter.merged, sequence, i) && iter.merged[i].key.user < iter.merged[m].key.user
      ensures !stop ==> Scanned(iter.merged, sequence, i - 1, x, m') && i - 1 == if iter.Valid() then iter.pos else -1
    {
      valueType', stop, m' := Collect(valueType, iter.Current(), iter.merged, i, x, m);
      if !stop {
        iter.Prev();
      }
    }

    /** Collects the last visible user key at or before the internal position. */
    method FindPrevUserEntry(ghost b: Bound)
      requires iter.Ready() && UniqueSeqnos(Elements(iter.merged)) && direction.Reverse?
      requires BackFrom(iter.merged, sequence, b, iter.pos)
      modifies this`valid, this`savedKey, this`savedValue, this`direction, this`at, iter, iter.children
      ensures Ready() && IsGreatest(iter.merged, sequence, b, at)
    {
      var valueType := TypeDeletion;
      ghost var m := |iter.merged|;
      if iter.Valid() {
        valueType, m := ScanBackward(b);
      }
      Conclude(valueType, m, b);
    }

    /** The backward scan has found the last candidate, or nothing at all. */
    method Conclude(valueType: ValueType, ghost m: nat, ghost b: Bound)
      requires iter.Ready() && UniqueSeqnos(Elements(iter.merged)) && direction.Reverse?
      requires Candidate(iter.merged, m, valueType) && Ends(iter.merged, sequence, b, iter.pos, m, valueType)
      modifies this`valid, this`savedKey, this`savedValue, this`direction, this`at
      ensures Ready() && IsGreatest(iter.merged, sequence, b, at)
    {
      if valueType == TypeDeletion {
        valid := false;
        savedKey := None;
        savedValue := "";
        direction := Forward;
        at := |iter.merged|;
      } else {
        valid := true;
        at := m;
      }
    }

    /** Yields the next entry when there is one left to look at. */
    method Settle(skipping: bool, ghost b: Bound)
      requires iter.Ready() && UniqueSeqnos(Elements(iter.merged)) && direction.Forward? && !b.Below?
      requires skipping ==> savedKey.Some?
      requires Skips(iter.merged, sequence, b, iter.pos, if skipping then savedKey else None)
      requires NoneBefore(iter.merged, sequence, b, iter.pos)
      modifies this`valid, this`savedKey, this`at, iter, iter.children
      ensures Ready() && Leftmost(Contents(), sequence, b, Position())
    {
      if iter.Valid() {
        FindNextUserEntry(skipping, b);
      } else {
        valid := false;
        savedKey := None;
        at := |iter.merged|;
      }
      LeastIsLeftmost(iter.merged, sequence, b, at);
    }

    method SeekToFirst()
      requires Ready()
      modifies this`direction, this`valid, this`savedKey, this`savedValue, this`at, iter, iter.children
      ensures Ready() && Leftmost(Contents(), sequence, Anywhere, Position())
    {
      direction := Forward;
      savedValue := "";
      iter.SeekToFirst();
      Settle(false, Anywhere);
    }

    method Seek(target: UserKey)
      requires Ready()
      modifies this`direction, this`valid, this`savedKey, this`savedValue, this`at, iter, iter.children
      ensures Ready() && Leftmost(Contents(), sequence, AtLeast(target), Position())
    {
      direction := Forward;
      savedValue := "";
      savedKey := None;
      iter.Seek(LookupKey(target, sequence));
      SeekSkips(iter.merged, sequence, target);
      Settle(false, AtLeast(target));
    }

    method Next()
      requires Ready() && valid
      modifies this`direction, this`valid, this`savedKey, this`at, iter, iter.children
      ensures Ready() && Leftmost(Contents(), sequence, Above(old(Key())), Position())
    {
      ghost var a := at;
      if direction == Reverse {
        ReverseSkips(iter.merged, sequence, iter.pos, a);
        direction := Forward;
        if !iter.Valid() {
          iter.SeekToFirst();
        } else {
          iter.Next();
        }
      } else {
        ForwardSkips(iter.merged, sequence, a);
        savedKey := Some(iter.Current().key.user);
      }
      Settle(true, Above(iter.merged[a].key.user));
    }

    method SeekToLast()
      requires Ready()
      modifies this`direction, this`valid, this`savedKey, this`savedValue, this`at, iter, iter.children
      ensures Ready() && Rightmost(Contents(), sequence, Anywhere, Position())
    {
      direction := Reverse;
      savedValue := "";
      iter.SeekToLast();
      FindPrevUserEntry(Anywhere);
      GreatestIsRightmost(iter.merged, sequence, Anywhere, at);
    }

    /** Turning back: the internal iterator leaves the entries of the current user key. */
    method LeaveKey(user: UserKey) returns (left: bool)
      requires iter.Ready() && iter.Valid() && iter.Current().key.user == user
      modifies iter, iter.children
      ensures iter.Ready() && left == iter.Valid()
      ensures NotBelow(iter.merged, user, if left then iter.pos + 1 else 0)
      ensures left ==> iter.merged[iter.pos].key.user < user
    {
      UsersAtLeast(iter.merged, iter.pos);
      while true
        invariant iter.Ready() && iter.Valid()
        invariant NotBelow(iter.merged, user, iter.pos)
        decreases iter.pos
      {
        iter.Prev();
        if !iter.Valid() {
          return false;
        }
        if iter.Current().key.user < user {
          return true;
        }
        OneMoreNotBelow(iter.merged, user, iter.pos);
      }
    }

    /** Prev turns a forward iterator around; without anything before the user key it is at its end. */
    method TurnBack(user: UserKey) returns (left: bool)
      requires Ready() && valid && direction.Forward? && iter.Valid() && iter.Current().key.user == user
      modifies this`direction, this`valid, this`savedKey, this`savedValue, this`at, iter, iter.children
      ensures iter.Ready() && (left ==> direction.Reverse? && BackFrom(iter.merged, sequence, Below(user), iter.pos))
      ensures !left ==> Ready() && IsGreatest(iter.merged, sequence, Below(user), at)
    {
      savedKey := Some(user);
      left := LeaveKey(user);
      if left {
        direction := Reverse;
        LeftBounds(iter.merged, sequence, user, iter.pos);
      } else {
        valid := false;
        savedKey := None;
        savedValue := "";
        at := |iter.merged|;
      }
    }

    method Prev()
      requires Ready() && valid
      modifies this`direction, this`valid, this`savedKey, this`savedValue, this`at, iter, iter.children
      ensures Ready() && Rightmost(Contents(), sequence, Below(old(Key())), Position())
    {
      ghost var b := Below(iter.merged[at].key.user);
      var left := true;
      if direction == Forward {
        left := TurnBack(iter.Current().key.user);
      } else {
        StandsBeforeBounds(iter.merged, sequence, iter.pos, at);
      }
      if left {
        FindPrevUserEntry(b);
      }
      GreatestIsRightmost(iter.merged, sequence, b, at);
    }
  }

  /** Going back from position `p` misses no live entry within the bound. */
  ghost predicate BackFrom(es: seq<Entry>, s: nat, b: Bound, p: nat) {
    if p < |es| then NoneFrom(es, s, b, p + 1) && AdmitsUpTo(es, b, p) else NoneBefore(es, s, b, |es|)
  }

  ghost predicate NotBelow(es: seq<Entry>, user: UserKey, p: nat) {
    forall k {:trigger es[k]} :: p <= k < |es| ==> es[k].key.user >= user
  }

  lemma OneMoreNotBelow(es: seq<Entry>, user: UserKey, p: nat)
    requires NotBelow(es, user, p + 1) && p < |es| && es[p].key.user >= user
    ensures NotBelow(es, user, p)
  {
  }

  lemma LeftBounds(es: seq<Entry>, s: nat, user: UserKey, p: nat)
    requires Sorted(es) && p < |es| && NotBelow(es, user, p + 1) && es[p].key.user < user
    ensures BackFrom(es, s, Below(user), p)
  {
    UsersUpTo(es, p);
  }

  lemma UsersAtLeast(es: seq<Entry>, p: nat)
    requires Sorted(es) && p < |es|
    ensures NotBelow(es, es[p].key.user, p)
  {
    forall k | p <= k < |es| ensures es[k].key.user >= es[p].key.user { UsersAscend(es, p, k); }
  }

  lemma UsersUpTo(es: seq<Entry>, p: nat)
    requires Sorted(es) && p < |es|
    ensures forall k {:trigger es[k]} :: 0 <= k <= p ==> es[k].key.user <= es[p].key.user
  {
    forall k | 0 <= k <= p ensures es[k].key.user <= es[p].key.user { UsersAscend(es, k, p); }
  }

  lemma SeekSkips(es: seq<Entry>, s: nat, target: UserKey)
    requires Sorted(es)
    ensures Skips(es, s, AtLeast(target), Tables.Seek(es, LookupKey(target, s)), None)
    ensures NoneBefore(es, s, AtLeast(target), Tables.Seek(es, LookupKey(target, s)))
  {
    var key := LookupKey(target, s);
    var i := Tables.Seek(es, key);
    SeekSplits(es, key);
    forall j | 0 <= j < i && Live(es, s, j) ensures es[j].key.user < target {
      LookupKeyPosition(es[j], target, s);
      assert Before(es[j].key, key);
    }
    forall k | i <= k < |es| && Live(es, s, k) ensures es[k].key.user >= target {
      LookupKeyPosition(es[k], target, s);
      assert !Before(es[k].key, key);
    }
  }

  lemma ForwardSkips(es: seq<Entry>, s: nat, a: nat)
    requires Sorted(es) && a < |es| && Shown(es, s, a)
    ensures Skips(es, s, Above(es[a].key.user), a, Some(es[a].key.user))
    ensures NoneBefore(es, s, Above(es[a].key.user), a)
  {
    UsersUpTo(es, a);
    forall k | a <= k < |es| && Live(es, s, k)
      ensures es[a].key.user <= es[k].key.user
      ensures Covered(es, s, a, k) ==> es[k].key.user == es[a].key.user
    {
      UsersAscend(es, a, k);
    }
  }

  lemma ReverseSkips(es: seq<Entry>, s: nat, x: nat, a: nat)
    requires Sorted(es) && a < |es| && Shown(es, s, a) && StandsBefore(es, s, x, a)
    ensures var i := if x < |es| then x + 1 else 0;
            Skips(es, s, Above(es[a].key.user), i, Some(es[a].key.user)) && NoneBefore(es, s, Above(es[a].key.user), i)
  {
    var i := if x < |es| then x + 1 else 0;
    UsersUpTo(es, a);
    if x < |es| { UsersUpTo(es, x); }
    forall k | i <= k < |es| && Live(es, s, k) ensures es[a].key.user <= es[k].key.user {
      UsersAscend(es, a, k);
    }
  }

  lemma StandsBeforeBounds(es: seq<Entry>, s: nat, x: nat, a: nat)
    requires Sorted(es) && a < |es| && x <= |es| && StandsBefore(es, s, x, a)
    ensures BackFrom(es, s, Below(es[a].key.user), x)
  {
    UsersAtLeast(es, a);
    if x < |es| { UsersUpTo(es, x); }
  }

  ghost predicate AdmitsUpTo(es: seq<Entry>, b: Bound, x: nat)
    requires x < |es|
  {
    forall k {:trigger es[k]} :: 0 <= k <= x ==> Admits(b, es[k].key.user)
  }

  /** What the backward scan has found when it ends at position `p`. */
  ghost predicate Ends(es: seq<Entry>, s: nat, b: Bound, p: nat, m: nat, valueType: ValueType) {
    if valueType.TypeValue? then m < |es| && IsGreatest(es, s, b, m) && StandsBefore(es, s, p, m) else NoneBefore(es, s, b, |es|)
  }

  lemma ScanEnds(es: seq<Entry>, s: nat, b: Bound, i: int, x: nat, m: nat)
    requires Sorted(es) && -1 <= i <= x < |es| && Scanned(es, s, i, x, m)
    requires BackFrom(es, s, b, x)
    requires i >= 0 ==> m < |es| && es[m].key.kind.TypeValue? && Live(es, s, i) && es[i].key.user < es[m].key.user
    ensures m < |es| && es[m].key.kind.TypeValue? ==> IsGreatest(es, s, b, m)
    ensures m < |es| && es[m].key.kind.TypeValue? ==> StandsBefore(es, s, if i >= 0 then i else |es|, m)
    ensures m == |es| || es[m].key.kind.TypeDeletion? ==> NoneBefore(es, s, b, |es|)
  {
    if m < |es| && es[m].key.kind.TypeValue? {
      LowestIsShown(es, s, i, x, m);
    }
  }
}
