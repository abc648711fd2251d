/**
 What a set of entries means: for each user key and each snapshot, the newest entry that the
 snapshot admits, a deletion counting as absence.  This is the reference every layer of the
 engine is compared with.
 */
module Visibility {
  import opened Wrappers
  import opened DbFormat

  /** One user key never has two entries with the same sequence number. */
  ghost predicate UniqueSeqnos(S: set<Entry>) {
    forall a, b :: a in S && b in S && a.key.user == b.key.user && a.key.seqno == b.key.seqno ==> a == b
  }

  ghost predicate IsNewest(S: set<Entry>, user: UserKey, snapshot: nat, e: Entry) {
    && e in S
    && Matches(e, user, snapshot)
    && forall x :: x in S && Matches(x, user, snapshot) ==> x.key.seqno <= e.key.seqno
  }

  ghost predicate NoMatch(S: set<Entry>, user: UserKey, snapshot: nat) {
    forall x :: x in S ==> !Matches(x, user, snapshot)
  }

  lemma {:induction false} NewestExists(S: set<Entry>, user: UserKey, snapshot: nat) returns (e: Entry)
    requires !NoMatch(S, user, snapshot)
    ensures IsNewest(S, user, snapshot, e)
    decreases S
  {
    e :| e in S && Matches(e, user, snapshot);
    var rest := S - {e};
    if !NoMatch(rest, user, snapshot) {
      var e' := NewestExists(rest, user, snapshot);
      if e.key.seqno < e'.key.seqno { e := e'; }
    }
  }

  /** The entry a read of `user` at `snapshot` must find. */
  ghost function Newest(S: set<Entry>, user: UserKey, snapshot: nat): (r: Option<Entry>)
    ensures r.Some? ==> IsNewest(S, user, snapshot, r.value)
    ensures r.None? ==> NoMatch(S, user, snapshot)
  {
    if NoMatch(S, user, snapshot) then None
    else
      assert exists e :: IsNewest(S, user, snapshot, e) by { var e := NewestExists(S, user, snapshot); }
      var e :| IsNewest(S, user, snapshot, e);
      Some(e)
  }

  /** The value of `user` at `snapshot` in a store holding exactly the entries `S`. */
  ghost function Visible(S: set<Entry>, user: UserKey, snapshot: nat): Option<Value> {
    match Newest(S, user, snapshot)
    case Some(e) => Outcome(e)
    case None => None
  }

  lemma VisibleIs(S: set<Entry>, user: UserKey, snapshot: nat, e: Entry)
    requires UniqueSeqnos(S) && IsNewest(S, user, snapshot, e)
    ensures Visible(S, user, snapshot) == Outcome(e)
  {
    var x := Newest(S, user, snapshot).value;
    assert x == e;
  }

  lemma VisibleNone(S: set<Entry>, user: UserKey, snapshot: nat)
    requires NoMatch(S, user, snapshot)
    ensures Visible(S, user, snapshot) == None
  {
    if Newest(S, user, snapshot).Some? { assert false; }
  }

  /** Two stores that agree on the entries of one user key up to a snapshot read alike there. */
  lemma VisibleDependsOnMatches(S: set<Entry>, T: set<Entry>, user: UserKey, snapshot: nat)
    requires UniqueSeqnos(S) && UniqueSeqnos(T)
    requires forall x :: Matches(x, user, snapshot) ==> (x in S <==> x in T)
    ensures Visible(S, user, snapshot) == Visible(T, user, snapshot)
  {
    match Newest(S, user, snapshot)
    case None => VisibleNone(T, user, snapshot);
    case Some(e) => VisibleIs(T, user, snapshot, e);
  }
}
