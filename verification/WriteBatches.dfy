/** Write batches: their encoding, and inserting them into a memtable (db/write_batch.cc). */
module WriteBatches {
  import opened Wrappers
  import opened Coding

  datatype Update = Put(key: Bytes, value: Bytes) | Delete(key: Bytes)

  const HEADER: nat := 12
  const DELETION_TAG: Byte := 0
  const VALUE_TAG: Byte := 1
  const MAX_COUNT: nat := 0x7fff_ffff

  // ---------------------------------------------------------------- the encoding

  predicate Encodable(u: Update) {
    |u.key| < TWO_32 && (u.Put? ==> |u.value| < TWO_32)
  }

  function UpdateBytes(u: Update): (b: Bytes)
    ensures b != []
  {
    match u
    case Put(key, value) => [VALUE_TAG] + LengthPrefixed(key) + LengthPrefixed(value)
    case Delete(key) => [DELETION_TAG] + LengthPrefixed(key)
  }

  function Parts(us: seq<Update>): (r: seq<Bytes>)
    ensures |r| == |us| && forall i {:trigger r[i]} :: 0 <= i < |us| ==> r[i] == UpdateBytes(us[i])
  {
    seq(|us|, i requires 0 <= i < |us| => UpdateBytes(us[i]))
  }

  function UpdatesBytes(us: seq<Update>): Bytes {
    ConcatAll(Parts(us))
  }

  /** The bytes of a batch that starts at a sequence number and holds some updates. */
  ghost predicate Represents(rep: Bytes, sequence: nat, us: seq<Update>) {
    && sequence < TWO_64 && |us| <= MAX_COUNT
    && (forall u {:trigger Encodable(u)} :: u in us ==> Encodable(u))
    && |rep| >= HEADER && rep[..8] == EncodeFixed64(sequence) && rep[8..HEADER] == EncodeFixed32(|us|)
    && rep[HEADER..] == UpdatesBytes(us)
  }

  lemma UpdatesBytesConcat(us: seq<Update>, vs: seq<Update>)
    ensures UpdatesBytes(us + vs) == UpdatesBytes(us) + UpdatesBytes(vs)
  {
    assert Parts(us + vs) == Parts(us) + Parts(vs);
    ConcatAllAppend(Parts(us), Parts(vs));
  }

  lemma UpdatesBytesSnoc(us: seq<Update>, u: Update)
    ensures UpdatesBytes(us + [u]) == UpdatesBytes(us) + UpdateBytes(u)
  {
    UpdatesBytesConcat(us, [u]);
    assert Parts([u]) == [UpdateBytes(u)];
    ConcatAllOne(UpdateBytes(u));
  }

  lemma UpdatesBytesFirst(us: seq<Update>)
    requires us != []
    ensures UpdatesBytes(us) == UpdateBytes(us[0]) + UpdatesBytes(us[1..])
  {
    assert Parts(us)[1..] == Parts(us[1..]);
  }

  /** The numbers in the header of a batch. */
  lemma RepresentsNumbers(rep: Bytes, sequence: nat, us: seq<Update>)
    requires Represents(rep, sequence, us)
    ensures DecodeFixed64(rep[..8]) == sequence && DecodeFixed32(rep[8..HEADER]) == |us|
  {
    Fixed64RoundTrip(sequence);
    Fixed32RoundTrip(|us|);
  }

  /** Bytes added at the end of a batch leave its header alone. */
  lemma AppendedBytes(rep: Bytes, more: Bytes)
    requires |rep| >= HEADER
    ensures var r := rep + more; r[..8] == rep[..8] && r[8..HEADER] == rep[8..HEADER] && r[HEADER..] == rep[HEADER..] + more
  {
  }

  class WriteBatch {
    var rep: Bytes

    constructor ()
      ensures Represents(rep, 0, [])
    {
      rep := [0, 0, 0, 0, 0, 0, 0, 0, 0, 0, 0, 0];
    }

    function Count(): nat
      requires |rep| >= HEADER
      reads this
    {
      DecodeFixed32(rep[8..HEADER])
    }

    method SetCount(n: nat)
      requires |rep| >= HEADER && n < TWO_32
      modifies this
      ensures |rep| == old(|rep|) && rep[..8] == old(rep[..8]) && rep[8..HEADER] == EncodeFixed32(n) && rep[HEADER..] == old(rep[HEADER..])
    {
      rep := rep[..8] + EncodeFixed32(n) + rep[HEADER..];
    }

    method SetSequence(s: nat)
      requires |rep| >= HEADER && s < TWO_64
      modifies this
      ensures |rep| == old(|rep|) && rep[..8] == EncodeFixed64(s) && rep[8..] == old(rep[8..])
      ensures forall was, us :: Represents(old(rep), was, us) ==> Represents(rep, s, us)
    {
      var before := rep;
      rep := EncodeFixed64(s) + rep[8..];
      forall was, us | Represents(before, was, us) ensures Represents(rep, s, us) {
        RepresentsNumbers(before, was, us);
        assert rep[8..HEADER] == before[8..HEADER] && rep[HEADER..] == before[HEADER..];
      }
    }

    method AddPut(key: Bytes, value: Bytes, ghost sequence: nat, ghost us: seq<Update>)
      requires Represents(rep, sequence, us) && |us| < MAX_COUNT && Encodable(Put(key, value))
      modifies this
      ensures Represents(rep, sequence, us + [Put(key, value)])
    {
      RepresentsNumbers(rep, sequence, us);
      SetCount(Count() + 1);
      ghost var counted := rep;
      rep := rep + [VALUE_TAG];
      rep := PutLengthPrefixedSlice(rep, key);
      rep := PutLengthPrefixedSlice(rep, value);
      Associative(counted, [VALUE_TAG], LengthPrefixed(key));
      Associative(counted, [VALUE_TAG] + LengthPrefixed(key), LengthPrefixed(value));
      Grown(counted, rep, sequence, us, Put(key, value));
    }

    method AddDelete(key: Bytes, ghost sequence: nat, ghost us: seq<Update>)
      requires Represents(rep, sequence, us) && |us| < MAX_COUNT && Encodable(Delete(key))
      modifies this
      ensures Represents(rep, sequence, us + [Delete(key)])
    {
      RepresentsNumbers(rep, sequence, us);
      SetCount(Count() + 1);
      ghost var counted := rep;
      rep := rep + [DELETION_TAG];
      rep := PutLengthPrefixedSlice(rep, key);
      Associative(counted, [DELETION_TAG], LengthPrefixed(key));
      Grown(counted, rep, sequence, us, Delete(key));
    }

    /** WriteBatchInternal::Append. */
    method Append(source: Bytes, ghost sequence: nat, ghost us: seq<Update>, ghost other: nat, ghost vs: seq<Update>)
      requires Represents(rep, sequence, us) && Represents(source, other, vs) && |us| + |vs| <= MAX_COUNT
      modifies this
      ensures Represents(rep, sequence, us + vs) && |rep| == old(|rep|) + |source| - HEADER
    {
      RepresentsNumbers(rep, sequence, us);
      RepresentsNumbers(source, other, vs);
      SetCount(Count() + DecodeFixed32(source[8..HEADER]));
      ghost var counted := rep;
      rep := rep + source[HEADER..];
      UpdatesBytesConcat(us, vs);
      AppendedBytes(counted, source[HEADER..]);
    }
  }

  lemma Grown(counted: Bytes, rep: Bytes, sequence: nat, us: seq<Update>, u: Update)
    requires sequence < TWO_64 && |us| < MAX_COUNT && Encodable(u) && forall x :: x in us ==> Encodable(x)
    requires |counted| >= HEADER && counted[..8] == EncodeFixed64(sequence) && counted[8..HEADER] == EncodeFixed32(|us| + 1)
    requires counted[HEADER..] == UpdatesBytes(us) && rep == counted + UpdateBytes(u)
    ensures Represents(rep, sequence, us + [u])
  {
    UpdatesBytesSnoc(us, u);
    AppendedBytes(counted, UpdateBytes(u));
  }

  /** A batch is at least as long as it has updates. */
  lemma {:induction false} UpdatesTakeBytes(us: seq<Update>)
    ensures |UpdatesBytes(us)| >= |us|
  {
    if us != [] {
      UpdatesTakeBytes(us[1..]);
      UpdatesBytesFirst(us);
    }
  }

  // ---------------------------------------------------------------- reading a batch

  datatype Status = Ok | Corruption(message: string)

  /** What stands at the front of the updates of a batch: one more and its size, or an error. */
  datatype Front = NextUpdate(update: Update, size: nat) | Malformed(message: string)

  function ReadUpdate(input: Bytes): (r: Front)
    requires input != []
    ensures r.NextUpdate? ==> 1 < r.size <= |input|
  {
    if input[0] == VALUE_TAG then
      match ReadSlice(input[1..])
      case None => Malformed("bad WriteBatch Put")
      case Some((key, n)) =>
        match ReadSlice(input[1 + n..])
        case None => Malformed("bad WriteBatch Put")
        case Some((value, m)) => NextUpdate(Put(key, value), 1 + n + m)
    else if input[0] == DELETION_TAG then
      match ReadSlice(input[1..])
      case None => Malformed("bad WriteBatch Delete")
      case Some((key, n)) => NextUpdate(Delete(key), 1 + n)
    else Malformed("unknown WriteBatch tag")
  }

  /** The updates some bytes hold, up to the first malformed one. */
  function ReadUpdates(input: Bytes): (r: (seq<Update>, Option<string>))
    decreases |input|
  {
    if input == [] then ([], None)
    else
      match ReadUpdate(input)
      case Malformed(message) => ([], Some(message))
      case NextUpdate(update, size) =>
        var rest := ReadUpdates(input[size..]);
        ([update] + rest.0, rest.1)
  }

  /** One round of WriteBatch::Iterate, on any bytes. */
  method GetUpdate(input: Bytes) returns (front: Front, rest: Bytes)
    requires input != []
    ensures front == ReadUpdate(input)
    ensures front.NextUpdate? ==> rest == input[front.size..]
  {
    var tag := input[0];
    rest := input[1..];
    if tag == VALUE_TAG {
      var key, value;
      key, rest := GetLengthPrefixedSlice(rest);
      if key.None? { return Malformed("bad WriteBatch Put"), rest; }
      value, rest := GetLengthPrefixedSlice(rest);
      if value.None? { return Malformed("bad WriteBatch Put"), rest; }
      front := NextUpdate(Put(key.value, value.value), |input| - |rest|);
    } else if tag == DELETION_TAG {
      var key;
      key, rest := GetLengthPrefixedSlice(rest);
      if key.None? { return Malformed("bad WriteBatch Delete"), rest; }
      front := NextUpdate(Delete(key.value), |input| - |rest|);
    } else {
      front := Malformed("unknown WriteBatch tag");
    }
  }

  lemma TagFirst(tag: Byte, k: Bytes, v: Bytes, after: Bytes)
    ensures ([tag] + k + v + after)[0] == tag && ([tag] + k + v + after)[1..] == k + (v + after)
    ensures ([tag] + k + after)[0] == tag && ([tag] + k + after)[1..] == k + after
  {
  }

  /** A byte string is read from the middle of some bytes. */
  lemma SliceAt(input: Bytes, i: nat, s: Bytes, after: Bytes)
    requires |s| < TWO_32 && i <= |input| && input[i..] == LengthPrefixed(s) + after
    ensures var n := |LengthPrefixed(s)|; i + n <= |input| && ReadSlice(input[i..]) == Some((s, n)) && input[i + n..] == after
  {
    ReadPrefix(s, after);
    assert input[i..][|LengthPrefixed(s)|..] == input[i + |LengthPrefixed(s)|..];
  }

  lemma PutIsRead(input: Bytes, key: Bytes, value: Bytes, n: nat, m: nat)
    requires input != [] && input[0] == VALUE_TAG && 1 + n + m <= |input|
    requires ReadSlice(input[1..]) == Some((key, n)) && ReadSlice(input[1 + n..]) == Some((value, m))
    ensures ReadUpdate(input) == NextUpdate(Put(key, value), 1 + n + m)
  {
  }

  lemma DeleteIsRead(input: Bytes, key: Bytes, n: nat)
    requires input != [] && input[0] == DELETION_TAG && 1 + n <= |input| && ReadSlice(input[1..]) == Some((key, n))
    ensures ReadUpdate(input) == NextUpdate(Delete(key), 1 + n)
  {
  }

  lemma PutRoundTrip(key: Bytes, value: Bytes, after: Bytes)
    requires |key| < TWO_32 && |value| < TWO_32
    ensures var input := UpdateBytes(Put(key, value)) + after; var n := |UpdateBytes(Put(key, value))|;
      ReadUpdate(input) == NextUpdate(Put(key, value), n) && input[n..] == after
  {
    var k, v := LengthPrefixed(key), LengthPrefixed(value);
    var input := [VALUE_TAG] + k + v + after;
    TagFirst(VALUE_TAG, k, v, after);
    SliceAt(input, 1, key, v + after);
    SliceAt(input, 1 + |k|, value, after);
    PutIsRead(input, key, value, |k|, |v|);
  }

  lemma DeleteRoundTrip(key: Bytes, after: Bytes)
    requires |key| < TWO_32
    ensures var input := UpdateBytes(Delete(key)) + after; var n := |UpdateBytes(Delete(key))|;
      ReadUpdate(input) == NextUpdate(Delete(key), n) && input[n..] == after
  {
    var k := LengthPrefixed(key);
    var input := [DELETION_TAG] + k + after;
    TagFirst(DELETION_TAG, k, [], after);
    SliceAt(input, 1, key, after);
    DeleteIsRead(input, key, |k|);
  }

  /** An encoded update is read back. */
  lemma UpdateRoundTrip(u: Update, after: Bytes)
    requires Encodable(u)
    ensures var input := UpdateBytes(u) + after;
      ReadUpdate(input) == NextUpdate(u, |UpdateBytes(u)|) && input[|UpdateBytes(u)|..] == after
  {
    match u
    case Put(key, value) => PutRoundTrip(key, value, after);
    case Delete(key) => DeleteRoundTrip(key, after);
  }

  lemma ReadUpdatesStep(input: Bytes, u: Update, after: Bytes)
    requires input == UpdateBytes(u) + after && Encodable(u)
    ensures ReadUpdates(input) == ([u] + ReadUpdates(after).0, ReadUpdates(after).1)
  {
    UpdateRoundTrip(u, after);
  }

  /** The updates of a batch are read back, all of them. */
  lemma {:induction false} UpdatesRoundTrip(us: seq<Update>)
    requires forall u {:trigger Encodable(u)} :: u in us ==> Encodable(u)
    ensures ReadUpdates(UpdatesBytes(us)) == (us, None)
  {
    if us == [] {
      assert UpdatesBytes(us) == [];
    } else {
      assert Encodable(us[0]);
      UpdatesBytesFirst(us);
      ReadUpdatesStep(UpdatesBytes(us), us[0], UpdatesBytes(us[1..]));
      UpdatesRoundTrip(us[1..]);
      assert us == [us[0]] + us[1..];
    }
  }

  /** The updates of a batch with the sequence numbers they get. */
  function Numbered(sequence: nat, us: seq<Update>): (r: seq<(nat, Update)>)
    ensures |r| == |us| && forall i {:trigger r[i]} :: 0 <= i < |us| ==> r[i] == (sequence + i, us[i])
  {
    seq(|us|, i requires 0 <= i < |us| => (sequence + i, us[i]))
  }

  /** What InsertInto reports about any bytes: Ok exactly when they are updates to the last byte, as
      many as the header counts. */
  function Verdict(rep: Bytes): Status {
    if |rep| < HEADER then Corruption("malformed WriteBatch (too small)")
    else
      var (us, error) := ReadUpdates(rep[HEADER..]);
      if error.Some? then Corruption(error.value)
      else if |us| != DecodeFixed32(rep[8..HEADER]) then Corruption("WriteBatch has wrong count")
      else Ok
  }

  /** The updates InsertInto hands on, with their sequence numbers. */
  function Inserted(rep: Bytes): seq<(nat, Update)> {
    if |rep| < HEADER then [] else Numbered(DecodeFixed64(rep[..8]), ReadUpdates(rep[HEADER..]).0)
  }

  /** The bytes of a batch are accepted and hand on its updates. */
  lemma BatchRoundTrip(rep: Bytes, sequence: nat, us: seq<Update>)
    requires Represents(rep, sequence, us)
    ensures Verdict(rep) == Ok && Inserted(rep) == Numbered(sequence, us)
  {
    RepresentsNumbers(rep, sequence, us);
    UpdatesRoundTrip(us);
  }

  /** After some updates this much is left of the bytes. */
  ghost predicate Passed(updates: Bytes, us: seq<Update>, input: Bytes) {
    ReadUpdates(updates).0 == us + ReadUpdates(input).0 && ReadUpdates(updates).1 == ReadUpdates(input).1
  }

  lemma PassOne(updates: Bytes, us: seq<Update>, input: Bytes)
    requires Passed(updates, us, input) && input != []
    ensures ReadUpdate(input).Malformed? ==> ReadUpdates(updates) == (us, Some(ReadUpdate(input).message))
    ensures ReadUpdate(input).NextUpdate? ==> Passed(updates, us + [ReadUpdate(input).update], input[ReadUpdate(input).size..])
  {
    if ReadUpdate(input).NextUpdate? {
      Associative(us, [ReadUpdate(input).update], ReadUpdates(input[ReadUpdate(input).size..]).0);
    } else {
      assert us + [] == us;
    }
  }

  /** The loop of WriteBatch::Iterate with MemTableInserter, which counts sequence numbers up. */
  method InsertUpdates(updates: Bytes, first: nat, mem: seq<(nat, Update)>)
    returns (error: Option<string>, found: nat, mem': seq<(nat, Update)>)
    ensures error == ReadUpdates(updates).1 && found == |ReadUpdates(updates).0|
    ensures mem' == mem + Numbered(first, ReadUpdates(updates).0)
  {
    var input := updates;
    mem', found := mem, 0;
    ghost var us: seq<Update> := [];
    assert us + ReadUpdates(input).0 == ReadUpdates(input).0;
    while input != []
      invariant |us| == found && mem' == mem + Numbered(first, us)
      invariant Passed(updates, us, input)
      decreases |input|
    {
      var front, rest := GetUpdate(input);
      PassOne(updates, us, input);
      if front.Malformed? {
        return Some(front.message), found, mem';
      }
      NumberedSnoc(mem, first, us, front.update);
      us := us + [front.update];
      mem' := mem' + [(first + found, front.update)];
      found := found + 1;
      input := rest;
    }
    assert us + [] == us;
    error := None;
  }

  /** WriteBatchInternal::InsertInto.  Any bytes are accepted; what comes before a malformed update
      is inserted. */
  method InsertInto(rep: Bytes, mem: seq<(nat, Update)>) returns (status: Status, mem': seq<(nat, Update)>)
    ensures status == Verdict(rep) && mem' == mem + Inserted(rep)
  {
    if |rep| < HEADER {
      return Corruption("malformed WriteBatch (too small)"), mem;
    }
    var error, found;
    error, found, mem' := InsertUpdates(rep[HEADER..], DecodeFixed64(rep[..8]), mem);
    if error.Some? {
      return Corruption(error.value), mem';
    }
    if found != DecodeFixed32(rep[8..HEADER]) {
      return Corruption("WriteBatch has wrong count"), mem';
    }
    status := Ok;
  }

  lemma NumberedSnoc(mem: seq<(nat, Update)>, first: nat, us: seq<Update>, u: Update)
    ensures mem + Numbered(first, us) + [(first + |us|, u)] == mem + Numbered(first, us + [u])
  {
  }
}
