/**
 Internal keys: a user key together with the sequence number and the type of the operation
 that wrote it (db/dbformat.h, db/dbformat.cc).

 The storage engine never looks inside a user key: it only hands pairs of them to the
 user-supplied comparator.  A user key is therefore represented by its position in the
 comparator's order.
 */
module DbFormat {
  import opened Wrappers

  type UserKey = int
  type Value = string

  const NUM_LEVELS: nat := 7
  const MAX_MEM_COMPACT_LEVEL: nat := 2
  const MAX_SEQUENCE: nat := 0xff_ffff_ffff_ffff

  datatype ValueType = TypeDeletion | TypeValue {
    function Code(): nat {
      if TypeDeletion? then 0 else 1
    }
  }

  /** The type to seek with: entries of one sequence number are sorted by decreasing type. */
  const VALUE_TYPE_FOR_SEEK := TypeValue

  datatype InternalKey = InternalKey(user: UserKey, seqno: nat, kind: ValueType) {
    /** The trailing fixed64 of the encoded key. */
    function Tag(): nat {
      seqno * 256 + kind.Code()
    }
  }

  /** Reads the sequence number and the type back from the trailing fixed64 of a key;
      None when the low byte names no type. */
  function ParseTag(user: UserKey, tag: nat): Option<InternalKey> {
    if tag % 256 == 0 then Some(InternalKey(user, tag / 256, TypeDeletion))
    else if tag % 256 == 1 then Some(InternalKey(user, tag / 256, TypeValue))
    else None
  }

  lemma ParseTagRoundTrip(k: InternalKey, user: UserKey, tag: nat)
    ensures ParseTag(k.user, k.Tag()) == Some(k)
    ensures ParseTag(user, tag).Some? ==> ParseTag(user, tag).value.Tag() == tag
    ensures ParseTag(user, tag).None? <==> tag % 256 > 1
  {
    assert k.Tag() / 256 == k.seqno && k.Tag() % 256 == k.kind.Code();
  }

  /** InternalKeyComparator: increasing user key, then decreasing tag. */
  function Compare(a: InternalKey, b: InternalKey): int {
    if a.user < b.user then -1
    else if a.user > b.user then 1
    else if a.Tag() > b.Tag() then -1
    else if a.Tag() < b.Tag() then 1
    else 0
  }

  predicate Before(a: InternalKey, b: InternalKey) {
    Compare(a, b) < 0
  }

  /** The comparator is a strict total order on internal keys. */
  lemma CompareIsTotalOrder(a: InternalKey, b: InternalKey, c: InternalKey)
    ensures Compare(a, b) == 0 <==> a == b
    ensures Compare(a, b) == -Compare(b, a)
    ensures Before(a, b) && Before(b, c) ==> Before(a, c)
  {
    ParseTagRoundTrip(a, a.user, 0);
    ParseTagRoundTrip(b, b.user, 0);
  }

  /** The key a read of `user` at `snapshot` seeks to. */
  function LookupKey(user: UserKey, snapshot: nat): InternalKey {
    InternalKey(user, snapshot, VALUE_TYPE_FOR_SEEK)
  }

  datatype Entry = Entry(key: InternalKey, value: Value)

  predicate Matches(e: Entry, user: UserKey, snapshot: nat) {
    e.key.user == user && e.key.seqno <= snapshot
  }

  /** What a read returns when `e` is the entry it stops at. */
  function Outcome(e: Entry): Option<Value> {
    if e.key.kind.TypeValue? then Some(e.value) else None
  }

  /** Seeking to a lookup key skips exactly the entries of smaller user keys and the entries
      of the same user key that are too new. */
  lemma LookupKeyPosition(e: Entry, user: UserKey, snapshot: nat)
    ensures Before(e.key, LookupKey(user, snapshot))
            <==> e.key.user < user || (e.key.user == user && e.key.seqno > snapshot)
  {
  }
}
