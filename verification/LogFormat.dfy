/**
 Log files: a sequence of records, cut into physical records that never cross a block boundary
 (db/log_format.h, db/log_writer.cc, db/log_reader.cc).
 */
module LogFormat {
  import opened Coding

  const BLOCK_SIZE: nat := 32768
  const HEADER_SIZE: nat := 7

  const ZERO_TYPE: nat := 0
  const FULL_TYPE: nat := 1
  const FIRST_TYPE: nat := 2
  const MIDDLE_TYPE: nat := 3
  const LAST_TYPE: nat := 4
  /** What the reader returns besides the types found in the file. */
  const END_OF_FILE: nat := 5
  const BAD_RECORD: nat := 6

  // ---------------------------------------------------------------- checksums

  const MASK_DELTA: nat := 0xa282ead8

  /** Rotate right by 15 bits and add a constant, in 32 bits. */
  function Mask(crc: nat): (m: nat)
    requires crc < 0x1_0000_0000
    ensures m < 0x1_0000_0000
  {
    (crc / 0x8000 + crc % 0x8000 * 0x2_0000 + MASK_DELTA) % 0x1_0000_0000
  }

  function Unmask(m: nat): (crc: nat)
    requires m < 0x1_0000_0000
    ensures crc < 0x1_0000_0000
  {
    var rot := (m + 0x1_0000_0000 - MASK_DELTA) % 0x1_0000_0000;
    rot / 0x2_0000 + rot % 0x2_0000 * 0x8000
  }

  lemma MaskRoundTrip(crc: nat)
    requires crc < 0x1_0000_0000
    ensures Unmask(Mask(crc)) == crc
  {
    var rotated := crc / 0x8000 + crc % 0x8000 * 0x2_0000;
    assert (Mask(crc) + 0x1_0000_0000 - MASK_DELTA) % 0x1_0000_0000 == rotated;
    assert rotated / 0x2_0000 == crc % 0x8000 && rotated % 0x2_0000 == crc / 0x8000;
  }

  /** CRC32C: `Extend(crc, data)` continues the checksum of what came before. */
  type Crc = x: int | 0 <= x < 0x1_0000_0000
  type Extend = (Crc, Bytes) -> Crc

  ghost predicate Continues(extend: Extend) {
    forall c, a, b :: extend(extend(c, a), b) == extend(c, a + b)
  }

  // ---------------------------------------------------------------- physical records

  function Header(extend: Extend, kind: Byte, payload: Bytes): (h: Bytes)
    requires |payload| < 0x1_0000
    ensures |h| == HEADER_SIZE
  {
    EncodeFixed32(Mask(extend(extend(0, [kind]), payload))) + [|payload| % 256, |payload| / 256, kind]
  }

  function Physical(extend: Extend, kind: Byte, payload: Bytes): (r: Bytes)
    requires |payload| < 0x1_0000
    ensures |r| == HEADER_SIZE + |payload|
  {
    Header(extend, kind, payload) + payload
  }

  /** Where the physical record after position `at` starts: blocks never end in less than a
      header. */
  function SkipTrailer(at: nat): (q: nat)
    ensures at <= q < at + HEADER_SIZE
    ensures q % BLOCK_SIZE + HEADER_SIZE <= BLOCK_SIZE
  {
    if BLOCK_SIZE - at % BLOCK_SIZE < HEADER_SIZE then at + (BLOCK_SIZE - at % BLOCK_SIZE) else at
  }

  ghost predicate Has(log: Bytes, at: nat, bytes: Bytes) {
    at + |bytes| <= |log| && log[at..at + |bytes|] == bytes
  }

  function Zeros(n: nat): (z: Bytes)
    ensures |z| == n && forall i :: 0 <= i < n ==> z[i] == 0
  {
    if n == 0 then [] else Zeros(n - 1) + [0]
  }

  function FragmentSize(at: nat, size: nat): (n: nat)
    ensures n <= size && n < BLOCK_SIZE && SkipTrailer(at) % BLOCK_SIZE + HEADER_SIZE + n <= BLOCK_SIZE
  {
    var avail := BLOCK_SIZE - SkipTrailer(at) % BLOCK_SIZE - HEADER_SIZE;
    if size < avail then size else avail
  }

  /** A record is cut only where its block ends, and a block is left only when no header fits. */
  lemma CutAtBlockEnd(at: nat, size: nat)
    ensures FragmentSize(at, size) < size ==> (SkipTrailer(at) + HEADER_SIZE + FragmentSize(at, size)) % BLOCK_SIZE == 0
    ensures SkipTrailer(at) != at ==> at % BLOCK_SIZE + HEADER_SIZE > BLOCK_SIZE && SkipTrailer(at) % BLOCK_SIZE == 0
  {
  }

  function FragmentType(begin: bool, end: bool): (t: Byte)
    ensures FULL_TYPE <= t <= LAST_TYPE
  {
    if begin && end then FULL_TYPE
    else if begin then FIRST_TYPE
    else if end then LAST_TYPE
    else MIDDLE_TYPE
  }

  /** One fragment lies at `at`, after the trailer of the block if that is too short. */
  ghost predicate FragmentAt(extend: Extend, log: Bytes, at: nat, data: Bytes, begin: bool) {
    var q, n := SkipTrailer(at), FragmentSize(at, |data|);
    && Has(log, at, Zeros(q - at))
    && Has(log, q, Physical(extend, FragmentType(begin, n == |data|), data[..n]))
  }

  function FragmentEnd(at: nat, size: nat): nat {
    SkipTrailer(at) + HEADER_SIZE + FragmentSize(at, size)
  }

  /** `data`, or what is left of it, lies between `at` and `end`, as fragments. */
  ghost predicate Laid(extend: Extend, log: Bytes, at: nat, data: Bytes, begin: bool, end: nat)
    decreases |data|, if at % BLOCK_SIZE == BLOCK_SIZE - HEADER_SIZE then 1 else 0
  {
    var n := FragmentSize(at, |data|);
    && FragmentAt(extend, log, at, data, begin)
    && if n == |data| then end == FragmentEnd(at, |data|)
       else Laid(extend, log, FragmentEnd(at, |data|), data[n..], false, end)
  }

  ghost predicate RecordAt(extend: Extend, log: Bytes, records: seq<Bytes>, ends: seq<nat>, i: nat)
    requires i < |records| && |ends| == |records| + 1
  {
    Laid(extend, log, ends[i], records[i], true, ends[i + 1])
  }

  /** The log holds the records; record `i` lies between `ends[i]` and `ends[i + 1]`. */
  ghost predicate Holds(extend: Extend, log: Bytes, records: seq<Bytes>, ends: seq<nat>) {
    && |ends| == |records| + 1 && ends[0] == 0 && ends[|records|] == |log|
    && forall i {:trigger RecordAt(extend, log, records, ends, i)} :: 0 <= i < |records| ==> RecordAt(extend, log, records, ends, i)
  }

  lemma {:induction false} LaidBounds(extend: Extend, log: Bytes, at: nat, data: Bytes, begin: bool, end: nat)
    requires Laid(extend, log, at, data, begin, end)
    ensures FragmentEnd(at, |data|) <= end <= |log| && at + HEADER_SIZE <= end
    decreases |data|, if at % BLOCK_SIZE == BLOCK_SIZE - HEADER_SIZE then 1 else 0
  {
    var n := FragmentSize(at, |data|);
    if n < |data| {
      LaidBounds(extend, log, FragmentEnd(at, |data|), data[n..], false, end);
    }
  }

  lemma HasExtends(log: Bytes, more: Bytes, at: nat, bytes: Bytes)
    requires Has(log, at, bytes)
    ensures Has(log + more, at, bytes)
  {
    assert (log + more)[at..at + |bytes|] == log[at..at + |bytes|];
  }

  /** Appending keeps what is laid out. */
  lemma FragmentExtends(extend: Extend, log: Bytes, more: Bytes, at: nat, data: Bytes, begin: bool)
    requires FragmentAt(extend, log, at, data, begin)
    ensures FragmentAt(extend, log + more, at, data, begin)
  {
    var q, n := SkipTrailer(at), FragmentSize(at, |data|);
    HasExtends(log, more, at, Zeros(q - at));
    HasExtends(log, more, q, Physical(extend, FragmentType(begin, n == |data|), data[..n]));
  }

  lemma {:induction false} LaidExtends(extend: Extend, log: Bytes, more: Bytes, at: nat, data: Bytes, begin: bool, end: nat)
    requires Laid(extend, log, at, data, begin, end)
    ensures Laid(extend, log + more, at, data, begin, end)
    decreases |data|, if at % BLOCK_SIZE == BLOCK_SIZE - HEADER_SIZE then 1 else 0
  {
    var n := FragmentSize(at, |data|);
    FragmentExtends(extend, log, more, at, data, begin);
    if n < |data| {
      LaidExtends(extend, log, more, FragmentEnd(at, |data|), data[n..], false, end);
    }
  }

  lemma HoldsExtends(extend: Extend, log: Bytes, records: seq<Bytes>, ends: seq<nat>, more: Bytes, record: Bytes)
    requires Holds(extend, log, records, ends)
    requires Laid(extend, log + more, |log|, record, true, |log| + |more|)
    ensures Holds(extend, log + more, records + [record], ends + [|log| + |more|])
  {
    var records', ends' := records + [record], ends + [|log| + |more|];
    forall i | 0 <= i < |records'| ensures RecordAt(extend, log + more, records', ends', i) {
      if i < |records| {
        assert RecordAt(extend, log, records, ends, i);
        LaidExtends(extend, log, more, ends[i], records[i], true, ends[i + 1]);
      }
    }
  }
}
