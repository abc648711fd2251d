/**
 The reference the whole store is measured against: replaying the operations of all writes, in
 order.  The operation at position i carries sequence number i + 1.  A crash may lose operations
 whose numbers are not given out again; such a position of the history is marked as lost.
 */
module History {
  import opened Wrappers
  import opened DbFormat
  import opened Visibility

  datatype Op = Put(user: UserKey, value: Value) | Delete(user: UserKey) | Lost

  /** What a client can ask for. */
  type Write = op: Op | !op.Lost? witness Delete(0)

  function Replay(ops: seq<Op>): map<UserKey, Value> {
    if ops == [] then map[]
    else
      var before := Replay(ops[..|ops| - 1]);
      match ops[|ops| - 1]
      case Put(user, value) => before[user := value]
      case Delete(user) => before - {user}
      case Lost => before
  }

  /** What a read at snapshot `s` must return. */
  function ReadAt(ops: seq<Op>, user: UserKey, s: nat): Option<Value>
    requires s <= |ops|
  {
    var m := Replay(ops[..s]);
    if user in m then Some(m[user]) else None
  }

  /** The entry a write leaves in the memtable (MemTableInserter in db/write_batch.cc). */
  function OpEntry(op: Write, seqno: nat): Entry {
    match op
    case Put(user, value) => Entry(InternalKey(user, seqno, TypeValue), value)
    case Delete(user) => Entry(InternalKey(user, seqno, TypeDeletion), "")
  }

  /** Every entry was written by the operation its sequence number names. */
  ghost predicate FromHistory(S: set<Entry>, ops: seq<Op>) {
    forall e {:trigger e in S} :: e in S ==> 1 <= e.key.seqno <= |ops| && Wrote(ops[e.key.seqno - 1], e.key.seqno, e)
  }

  ghost predicate Wrote(op: Op, seqno: nat, e: Entry) {
    !op.Lost? && e == OpEntry(op, seqno)
  }

  ghost predicate Faithful(S: set<Entry>, ops: seq<Op>, floor: nat) {
    forall user, s {:trigger ReadAt(ops, user, s)} :: floor <= s <= |ops| ==> Visible(S, user, s) == ReadAt(ops, user, s)
  }

  lemma HistoryIsUnique(S: set<Entry>, ops: seq<Op>)
    requires FromHistory(S, ops)
    ensures UniqueSeqnos(S)
  {
  }

  lemma ReadAtIsStable(ops: seq<Op>, more: seq<Op>, user: UserKey, s: nat)
    requires s <= |ops|
    ensures ReadAt(ops + more, user, s) == ReadAt(ops, user, s)
  {
    assert (ops + more)[..s] == ops[..s];
  }

  /** The last operation decides its own user key and leaves the others alone. */
  lemma ReadAtLast(ops: seq<Op>, op: Op, user: UserKey)
    ensures ReadAt(ops + [op], user, |ops| + 1)
            == if !op.Lost? && user == op.user then Outcome(OpEntry(op, |ops| + 1)) else ReadAt(ops, user, |ops|)
  {
    var longer := ops + [op];
    assert longer[..|ops| + 1] == longer && longer[..|ops|] == ops && ops[..|ops|] == ops;
  }

  /** With no entry in between, a later snapshot reads like an earlier one. */
  lemma VisibleUnchanged(S: set<Entry>, user: UserKey, s: nat, s': nat)
    requires UniqueSeqnos(S) && s <= s'
    requires forall e :: e in S && e.key.user == user && e.key.seqno > s ==> e.key.seqno > s'
    ensures Visible(S, user, s) == Visible(S, user, s')
  {
    match Newest(S, user, s)
    case None => VisibleNone(S, user, s');
    case Some(e) => VisibleIs(S, user, s', e);
  }

  /** Adding the entry of one more write keeps every read, and serves the new snapshot. */
  lemma OneMoreWrite(S: set<Entry>, ops: seq<Op>, floor: nat, op: Write)
    requires FromHistory(S, ops) && Faithful(S, ops, floor) && floor <= |ops|
    ensures FromHistory(S + {OpEntry(op, |ops| + 1)}, ops + [op])
    ensures Faithful(S + {OpEntry(op, |ops| + 1)}, ops + [op], floor)
  {
    var e := OpEntry(op, |ops| + 1);
    var T := S + {e};
    var longer := ops + [op];
    assert longer[|ops|] == op && forall i :: 0 <= i < |ops| ==> longer[i] == ops[i];
    HistoryIsUnique(S, ops);
    HistoryIsUnique(T, longer);
    forall user, s | floor <= s <= |longer| ensures Visible(T, user, s) == ReadAt(longer, user, s) {
      if s <= |ops| {
        ReadAtIsStable(ops, [op], user, s);
        VisibleDependsOnMatches(S, T, user, s);
      } else {
        ReadAtLast(ops, op, user);
        if user == op.user {
          VisibleIs(T, user, s, e);
        } else {
          VisibleDependsOnMatches(S, T, user, s);
          VisibleUnchanged(S, user, |ops|, s);
        }
      }
    }
  }

  /** A lost operation only takes up its number. */
  lemma OneLost(S: set<Entry>, ops: seq<Op>, floor: nat)
    requires FromHistory(S, ops) && Faithful(S, ops, floor) && floor <= |ops|
    ensures FromHistory(S, ops + [Lost]) && Faithful(S, ops + [Lost], floor)
  {
    var longer := ops + [Lost];
    assert forall i :: 0 <= i < |ops| ==> longer[i] == ops[i];
    HistoryIsUnique(S, ops);
    forall user, s | floor <= s <= |longer| ensures Visible(S, user, s) == ReadAt(longer, user, s) {
      if s <= |ops| {
        ReadAtIsStable(ops, [Lost], user, s);
      } else {
        ReadAtLast(ops, Lost, user);
        VisibleUnchanged(S, user, |ops|, s);
      }
    }
  }

  /** The entries an operation leaves: one, or none if it has been lost. */
  ghost function OpEntries(op: Op, seqno: nat): set<Entry> {
    if op.Lost? then {} else {OpEntry(op, seqno)}
  }

  lemma OneMoreOp(S: set<Entry>, ops: seq<Op>, floor: nat, op: Op)
    requires FromHistory(S, ops) && Faithful(S, ops, floor) && floor <= |ops|
    ensures FromHistory(S + OpEntries(op, |ops| + 1), ops + [op])
    ensures Faithful(S + OpEntries(op, |ops| + 1), ops + [op], floor)
  {
    if op.Lost? {
      OneLost(S, ops, floor);
      assert S + {} == S;
    } else {
      OneMoreWrite(S, ops, floor, op);
    }
  }

  // ---------------------------------------------------------------- write groups

  /** The entries of the first `n` operations of a write group. */
  ghost function BatchEntries(batch: seq<Op>, last: nat, n: nat): set<Entry>
    requires n <= |batch|
  {
    set i {:trigger batch[i]} | 0 <= i < n && !batch[i].Lost? :: OpEntry(batch[i], last + 1 + i)
  }

  lemma BatchEntriesStep(batch: seq<Op>, last: nat, n: nat)
    requires n < |batch|
    ensures BatchEntries(batch, last, n + 1) == BatchEntries(batch, last, n) + OpEntries(batch[n], last + 1 + n)
  {
  }

  lemma AppendOne<T>(a: seq<T>, b: seq<T>, i: nat)
    requires i < |b|
    ensures a + b[..i + 1] == a + b[..i] + [b[i]]
  {
  }

  /** A write group adds up to replaying its operations one by one. */
  lemma {:induction false} GroupIsReplayed(S: set<Entry>, ops: seq<Op>, floor: nat, batch: seq<Op>, n: nat)
    requires FromHistory(S, ops) && Faithful(S, ops, floor) && floor <= |ops| && n <= |batch|
    ensures FromHistory(S + BatchEntries(batch, |ops|, n), ops + batch[..n])
    ensures Faithful(S + BatchEntries(batch, |ops|, n), ops + batch[..n], floor)
  {
    if n == 0 {
      assert ops + batch[..0] == ops && S + BatchEntries(batch, |ops|, 0) == S;
    } else {
      GroupIsReplayed(S, ops, floor, batch, n - 1);
      var S' := S + BatchEntries(batch, |ops|, n - 1);
      OneMoreOp(S', ops + batch[..n - 1], floor, batch[n - 1]);
      BatchEntriesStep(batch, |ops|, n - 1);
      assert S + BatchEntries(batch, |ops|, n) == S' + OpEntries(batch[n - 1], |ops| + n);
      AppendOne(ops, batch, n - 1);
    }
  }
}
