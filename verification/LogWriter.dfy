/** Appending records to a log file (db/log_writer.cc). */
module LogWriter {
  import opened Coding
  import opened LogFormat

  /** Whatever completes the rest of the record from `at` on completes the record. */
  ghost predicate Completes(extend: Extend, dest: Bytes, start: nat, record: Bytes, at: nat, rest: Bytes, begin: bool) {
    forall log, end {:trigger Laid(extend, log, at, rest, begin, end)} ::
      dest <= log && Laid(extend, log, at, rest, begin, end) ==> Laid(extend, log, start, record, true, end)
  }

  lemma FragmentCompletes(extend: Extend, dest: Bytes, start: nat, record: Bytes, at: nat, rest: Bytes, begin: bool,
                          dest': Bytes, at': nat, rest': Bytes)
    requires Completes(extend, dest, start, record, at, rest, begin)
    requires dest <= dest' && FragmentAt(extend, dest', at, rest, begin)
    requires at' == FragmentEnd(at, |rest|) && rest' == rest[FragmentSize(at, |rest|)..]
    ensures |rest'| > 0 ==> Completes(extend, dest', start, record, at', rest', false)
    ensures |rest'| == 0 ==> Laid(extend, dest', start, record, true, at')
  {
    var q, n := SkipTrailer(at), FragmentSize(at, |rest|);
    if n < |rest| {
      forall log, end | dest' <= log && Laid(extend, log, FragmentEnd(at, |rest|), rest[n..], false, end)
        ensures Laid(extend, log, start, record, true, end)
      {
        var more := log[|dest'|..];
        assert log == dest' + more;
        HasExtends(dest', more, at, Zeros(q - at));
        HasExtends(dest', more, q, Physical(extend, FragmentType(begin, n == |rest|), rest[..n]));
        assert Laid(extend, log, at, rest, begin, end);
      }
    } else {
      assert Laid(extend, dest', at, rest, begin, FragmentEnd(at, |rest|));
    }
  }

  lemma AppendedFragment(extend: Extend, dest: Bytes, rest: Bytes, begin: bool, trailer: Bytes, fragment: Bytes)
    requires trailer == Zeros(SkipTrailer(|dest|) - |dest|)
    requires fragment == Physical(extend, FragmentType(begin, FragmentSize(|dest|, |rest|) == |rest|), rest[..FragmentSize(|dest|, |rest|)])
    ensures FragmentAt(extend, dest + trailer + fragment, |dest|, rest, begin)
    ensures |dest + trailer + fragment| == FragmentEnd(|dest|, |rest|)
  {
    var log := dest + trailer + fragment;
    var q := SkipTrailer(|dest|);
    assert log[|dest|..q] == trailer;
    assert log[q..q + |fragment|] == fragment;
  }

  lemma BlockPosition(blockStart: nat, offset: nat)
    requires blockStart % BLOCK_SIZE == 0 && offset <= BLOCK_SIZE
    ensures (blockStart + offset) % BLOCK_SIZE == if offset == BLOCK_SIZE then 0 else offset
    ensures SkipTrailer(blockStart + offset) == if 0 < BLOCK_SIZE - offset < HEADER_SIZE then blockStart + BLOCK_SIZE else blockStart + offset
  {
  }

  class Writer {
    const extend: Extend
    const typeCrc: seq<Crc>
    var dest: Bytes
    var blockOffset: nat
    /** Where the current block starts. */
    ghost var blockStart: nat
    /** What has been written so far. */
    ghost var records: seq<Bytes>
    ghost var ends: seq<nat>

    ghost predicate Ready()
      reads this
    {
      && blockOffset <= BLOCK_SIZE && |dest| == blockStart + blockOffset && blockStart % BLOCK_SIZE == 0
      && |typeCrc| == LAST_TYPE + 1 && (forall t: Byte {:trigger typeCrc[t]} :: t <= LAST_TYPE ==> typeCrc[t] == extend(0, [t]))
    }

    ghost predicate Valid()
      reads this
    {
      Ready() && Holds(extend, dest, records, ends)
    }

    /** A writer for an empty file. */
    constructor (extend: Extend)
      ensures this.extend == extend && Valid() && dest == [] && records == []
    {
      this.extend := extend;
      typeCrc := [extend(0, [0]), extend(0, [1]), extend(0, [2]), extend(0, [3]), extend(0, [4])];
      dest, blockOffset, blockStart, records, ends := [], 0, 0, [], [0];
    }

    /** A writer that goes on with a log that has content. */
    constructor Append(extend: Extend, dest: Bytes, ghost records: seq<Bytes>, ghost ends: seq<nat>)
      requires Holds(extend, dest, records, ends)
      ensures this.extend == extend && Valid() && this.dest == dest && this.records == records && this.ends == ends
    {
      this.extend := extend;
      typeCrc := [extend(0, [0]), extend(0, [1]), extend(0, [2]), extend(0, [3]), extend(0, [4])];
      this.dest, blockOffset, blockStart := dest, |dest| % BLOCK_SIZE, |dest| - |dest| % BLOCK_SIZE;
      this.records, this.ends := records, ends;
    }

    method EmitPhysicalRecord(t: Byte, payload: Bytes)
      requires Ready() && t <= LAST_TYPE
      requires |payload| < 0x1_0000 && blockOffset + HEADER_SIZE + |payload| <= BLOCK_SIZE
      modifies this`dest, this`blockOffset
      ensures Ready() && dest == old(dest) + Physical(extend, t, payload)
    {
      var crc := extend(typeCrc[t], payload);
      var buf := EncodeFixed32(Mask(crc)) + [|payload| % 256, |payload| / 256, t];
      dest := dest + buf;
      dest := dest + payload;
      blockOffset := blockOffset + HEADER_SIZE + |payload|;
      assert dest == old(dest) + (buf + payload);
    }

    /** One round of AddRecord: fill the trailer of the block if need be, then write one fragment. */
    method AddFragment(rest: Bytes, begin: bool) returns (n: nat)
      requires Ready()
      modifies this`dest, this`blockOffset, this`blockStart
      ensures Ready() && n == FragmentSize(old(|dest|), |rest|)
      ensures FragmentAt(extend, dest, old(|dest|), rest, begin)
      ensures old(dest) <= dest && |dest| == FragmentEnd(old(|dest|), |rest|)
    {
      ghost var before := dest;
      BlockPosition(blockStart, blockOffset);
      var leftover := BLOCK_SIZE - blockOffset;
      ghost var trailer: Bytes := [];
      if leftover < HEADER_SIZE {
        if leftover > 0 {
          trailer := Zeros(leftover);
          dest := dest + Zeros(leftover);
        }
        blockStart := blockStart + BLOCK_SIZE;
        blockOffset := 0;
      }
      assert dest == before + trailer;
      assert |dest| == SkipTrailer(|before|);
      BlockPosition(blockStart, blockOffset);
      var avail := BLOCK_SIZE - blockOffset - HEADER_SIZE;
      n := if |rest| < avail then |rest| else avail;
      assert n == FragmentSize(|before|, |rest|);
      var end := |rest| == n;
      var t: Byte;
      if begin && end {
        t := FULL_TYPE;
      } else if begin {
        t := FIRST_TYPE;
      } else if end {
        t := LAST_TYPE;
      } else {
        t := MIDDLE_TYPE;
      }
      AppendedFragment(extend, before, rest, begin, trailer, Physical(extend, t, rest[..n]));
      EmitPhysicalRecord(t, rest[..n]);
    }

    method AddNextFragment(slice: Bytes, ptr: nat, begin: bool, ghost start: nat) returns (ptr': nat)
      requires Ready() && ptr <= |slice|
      requires Completes(extend, dest, start, slice, |dest|, slice[ptr..], begin)
      modifies this`dest, this`blockOffset, this`blockStart
      ensures Ready() && old(dest) <= dest && ptr <= ptr' <= |slice|
      ensures ptr' == ptr ==> old(|dest|) % BLOCK_SIZE == BLOCK_SIZE - HEADER_SIZE || ptr == |slice|
      ensures ptr' == ptr ==> |dest| % BLOCK_SIZE != BLOCK_SIZE - HEADER_SIZE || ptr == |slice|
      ensures ptr' < |slice| ==> Completes(extend, dest, start, slice, |dest|, slice[ptr'..], false)
      ensures ptr' == |slice| ==> Laid(extend, dest, start, slice, true, |dest|)
    {
      ghost var here := dest;
      var n := AddFragment(slice[ptr..], begin);
      ptr' := ptr + n;
      FragmentCompletes(extend, here, start, slice, |here|, slice[ptr..], begin, dest, |dest|, slice[ptr'..]);
    }

    /** The fragmentation loop of AddRecord. */
    method AddFragments(slice: Bytes)
      requires Ready()
      modifies this`dest, this`blockOffset, this`blockStart
      ensures Ready() && old(dest) <= dest
      ensures Laid(extend, dest, old(|dest|), slice, true, |dest|)
    {
      ghost var before := dest;
      var ptr := 0;
      var begin := true;
      var more := true;
      while more
        invariant Ready() && before <= dest && ptr <= |slice|
        invariant more ==> Completes(extend, dest, |before|, slice, |dest|, slice[ptr..], begin)
        invariant !more ==> Laid(extend, dest, |before|, slice, true, |dest|)
        decreases more, |slice| - ptr, if |dest| % BLOCK_SIZE == BLOCK_SIZE - HEADER_SIZE then 1 else 0
      {
        ptr := AddNextFragment(slice, ptr, begin, |before|);
        begin := false;
        more := |slice| - ptr > 0;
      }
    }

    /** Writer::AddRecord. */
    method AddRecord(slice: Bytes)
      requires Valid()
      modifies this
      ensures Valid() && old(dest) <= dest
      ensures records == old(records) + [slice] && ends == old(ends) + [|dest|]
    {
      ghost var before := dest;
      AddFragments(slice);
      assert dest == before + dest[|before|..];
      HoldsExtends(extend, before, records, ends, dest[|before|..], slice);
      records := records + [slice];
      ends := ends + [|dest|];
    }
  }
}
