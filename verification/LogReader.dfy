/** Reading the records of a log file back (db/log_reader.cc), from the start of the file. */
module LogReader {
  import opened Wrappers
  import opened Coding
  import opened LogFormat

  ghost predicate PieceAt(extend: Extend, log: Bytes, at: nat, kind: Byte, payload: Bytes) {
    && FULL_TYPE <= kind <= LAST_TYPE && |payload| < 0x1_0000
    && SkipTrailer(at) % BLOCK_SIZE + HEADER_SIZE + |payload| <= BLOCK_SIZE
    && Has(log, SkipTrailer(at), Physical(extend, kind, payload))
  }

  /** The file is what is left of the log after a crash. */
  ghost predicate Truncated(file: Bytes, log: Bytes) {
    file <= log
  }

  lemma TruncatedSlice(file: Bytes, log: Bytes, at: nat, bytes: Bytes, n: nat)
    requires Truncated(file, log) && Has(log, at, bytes) && n <= |bytes| && at + n <= |file|
    ensures file[at..at + n] == bytes[..n]
  {
    assert file == log[..|file|];
    assert file[at..at + n] == log[at..at + n];
    assert log[at..at + |bytes|][..n] == log[at..at + n];
  }

  /** What the header of a physical record says. */
  lemma HeaderFields(extend: Extend, kind: Byte, payload: Bytes)
    requires |payload| < 0x1_0000
    ensures var h := Header(extend, kind, payload);
      && h[6] == kind && h[4] as nat + h[5] as nat * 256 == |payload|
      && Unmask(DecodeFixed32(h[..4])) == extend(extend(0, [kind]), payload)
  {
    var crc := extend(extend(0, [kind]), payload);
    var h := Header(extend, kind, payload);
    assert h[..4] == EncodeFixed32(Mask(crc));
    Fixed32RoundTrip(Mask(crc));
    MaskRoundTrip(crc);
  }

  /** A buffer that starts with a physical record, or with the first part of one. */
  lemma PieceInBuffer(file: Bytes, extend: Extend, log: Bytes, at: nat, t: Byte, p: Bytes, buffer: Bytes)
    requires Continues(extend) && Truncated(file, log) && PieceAt(extend, log, at, t, p) && SkipTrailer(at) == at
    requires at + |buffer| <= |file| && buffer == file[at..at + |buffer|] && |buffer| >= HEADER_SIZE
    ensures buffer[6] == t && buffer[4] as nat + buffer[5] as nat * 256 == |p|
    ensures HEADER_SIZE + |p| <= |buffer| ==>
      && Unmask(DecodeFixed32(buffer[..4])) == extend(0, buffer[6..HEADER_SIZE + |p|])
      && buffer[HEADER_SIZE..HEADER_SIZE + |p|] == p
  {
    var r, h := Physical(extend, t, p), Header(extend, t, p);
    HeaderFields(extend, t, p);
    TruncatedSlice(file, log, at, r, HEADER_SIZE);
    assert buffer[..HEADER_SIZE] == file[at..at + HEADER_SIZE];
    assert r[..HEADER_SIZE] == h;
    assert buffer[..4] == h[..4] by { assert buffer[..HEADER_SIZE][..4] == buffer[..4]; }
    assert buffer[4] == h[4] && buffer[5] == h[5] && buffer[6] == h[6] by {
      assert buffer[..HEADER_SIZE] == h;
      assert buffer[4] == buffer[..HEADER_SIZE][4] && buffer[5] == buffer[..HEADER_SIZE][5] && buffer[6] == buffer[..HEADER_SIZE][6];
    }
    if HEADER_SIZE + |p| <= |buffer| {
      TruncatedSlice(file, log, at, r, |r|);
      assert buffer[..|r|] == r;
      assert buffer[HEADER_SIZE..|r|] == p;
      assert buffer[6..|r|] == [t] + p;
    }
  }

  datatype Verdict = TooLong | Zeroed | BadChecksum | Sound

  function LengthField(buffer: Bytes): nat
    requires |buffer| >= HEADER_SIZE
  {
    buffer[4] as nat + buffer[5] as nat * 256
  }

  /** The type byte is a signed char that becomes an unsigned int. */
  function KindField(buffer: Bytes): nat
    requires |buffer| >= HEADER_SIZE
  {
    if buffer[6] < 128 then buffer[6] else 0xffff_ff00 + buffer[6] as nat
  }

  /** The checksum in the header is that of the type byte and the payload. */
  predicate ChecksumHolds(extend: Extend, buffer: Bytes)
    requires |buffer| >= HEADER_SIZE && |buffer| >= HEADER_SIZE + LengthField(buffer)
  {
    extend(0, buffer[6..HEADER_SIZE + LengthField(buffer)]) == Unmask(DecodeFixed32(buffer[..4]))
  }

  /** The tests ReadPhysicalRecord makes on a header and what follows it. */
  method Examine(extend: Extend, checksum: bool, buffer: Bytes) returns (verdict: Verdict, kind: nat, length: nat)
    requires |buffer| >= HEADER_SIZE
    ensures length == LengthField(buffer) && kind == KindField(buffer)
    ensures verdict.TooLong? <==> HEADER_SIZE + length > |buffer|
    ensures verdict.Zeroed? <==> HEADER_SIZE + length <= |buffer| && kind == ZERO_TYPE && length == 0
    ensures verdict.BadChecksum? <==>
      HEADER_SIZE + length <= |buffer| && !(kind == ZERO_TYPE && length == 0) && checksum && !ChecksumHolds(extend, buffer)
  {
    length := buffer[4] as nat + buffer[5] as nat * 256;
    kind := KindField(buffer);
    if HEADER_SIZE + length > |buffer| {
      return TooLong, kind, length;
    }
    if kind == ZERO_TYPE && length == 0 {
      return Zeroed, kind, length;
    }
    if checksum {
      var expected := Unmask(DecodeFixed32(buffer[..4]));
      var actual := extend(0, buffer[6..6 + 1 + length]);
      if actual != expected {
        return BadChecksum, kind, length;
      }
    }
    verdict := Sound;
  }

  // ---------------------------------------------------------------- what any file can yield

  /** A physical record found in a file. */
  datatype Piece = Piece(at: nat, kind: nat, payload: Bytes)
  {
    function End(): nat { at + HEADER_SIZE + |payload| }
  }

  /** The piece is in the file, in one block, and passes the checksum if that is asked for. */
  ghost predicate SoundAt(file: Bytes, extend: Extend, checksum: bool, p: Piece) {
    && p.End() <= |file| && p.at % BLOCK_SIZE + HEADER_SIZE + |p.payload| <= BLOCK_SIZE
    && var record := file[p.at..p.End()];
       && LengthField(record) == |p.payload| && KindField(record) == p.kind && record[HEADER_SIZE..] == p.payload
       && (checksum ==> ChecksumHolds(extend, record))
  }

  /** The pieces follow one another with nothing but block trailers between them. */
  ghost predicate Consecutive(pieces: seq<Piece>) {
    forall i :: 0 < i < |pieces| ==> pieces[i].at == SkipTrailer(pieces[i - 1].End())
  }

  ghost predicate AllSound(file: Bytes, extend: Extend, checksum: bool, pieces: seq<Piece>) {
    forall i :: 0 <= i < |pieces| ==> SoundAt(file, extend, checksum, pieces[i])
  }

  function Payloads(pieces: seq<Piece>): Bytes {
    if pieces == [] then [] else Payloads(pieces[..|pieces| - 1]) + pieces[|pieces| - 1].payload
  }

  /** The pieces so far of a record in fragments. */
  ghost predicate Opens(pieces: seq<Piece>) {
    && pieces != [] && pieces[0].kind == FIRST_TYPE
    && forall i :: 0 < i < |pieces| ==> pieces[i].kind == MIDDLE_TYPE
  }

  /** The pieces are those of one whole record. */
  ghost predicate Spells(pieces: seq<Piece>, record: Bytes) {
    && pieces != [] && Payloads(pieces) == record
    && if |pieces| == 1 then pieces[0].kind == FULL_TYPE
       else Opens(pieces[..|pieces| - 1]) && pieces[|pieces| - 1].kind == LAST_TYPE
  }

  /** A record read from a file is made of sound, consecutive pieces. */
  ghost predicate Genuine(file: Bytes, extend: Extend, checksum: bool, pieces: seq<Piece>, record: Bytes) {
    Spells(pieces, record) && Consecutive(pieces) && AllSound(file, extend, checksum, pieces)
  }

  lemma AddPiece(pieces: seq<Piece>, p: Piece)
    ensures Payloads(pieces + [p]) == Payloads(pieces) + p.payload
    ensures (pieces + [p])[..|pieces|] == pieces
    ensures Payloads([p]) == p.payload
  {
    assert (pieces + [p])[..|pieces|] == pieces;
    assert [p][..0] == [];
  }

  lemma SoundMore(file: Bytes, extend: Extend, checksum: bool, pieces: seq<Piece>, p: Piece)
    requires Consecutive(pieces) && AllSound(file, extend, checksum, pieces) && SoundAt(file, extend, checksum, p)
    requires pieces != [] ==> p.at == SkipTrailer(pieces[|pieces| - 1].End())
    ensures Consecutive(pieces + [p]) && AllSound(file, extend, checksum, pieces + [p])
  {
  }

  /** The first fragment of what is laid out at `at`, and what follows it. */
  lemma FirstPiece(extend: Extend, log: Bytes, at: nat, data: Bytes, begin: bool, end: nat)
    requires Laid(extend, log, at, data, begin, end)
    ensures var n := FragmentSize(at, |data|);
      && PieceAt(extend, log, at, FragmentType(begin, n == |data|), data[..n])
      && FragmentEnd(at, |data|) <= end
      && (n == |data| ==> end == FragmentEnd(at, |data|))
      && (n < |data| ==> Laid(extend, log, FragmentEnd(at, |data|), data[n..], false, end))
  {
    LaidBounds(extend, log, at, data, begin, end);
  }

  // ---------------------------------------------------------------- what no damage hides

  function BlockEnd(at: nat): nat { (at / BLOCK_SIZE + 1) * BLOCK_SIZE }

  predicate OfRecord(p: Piece) { FULL_TYPE <= p.kind <= LAST_TYPE }

  /** From the start of a block on the file holds these pieces, the ones from `s` on being those of a
      whole record.  Whatever is in other blocks, the reader comes across it. */
  ghost predicate Run(file: Bytes, extend: Extend, checksum: bool, run: seq<Piece>, s: nat) {
    && s < |run| && run[0].at % BLOCK_SIZE == 0
    && Consecutive(run) && AllSound(file, extend, checksum, run) && (forall i :: 0 <= i < |run| ==> OfRecord(run[i]))
    && Spells(run[s..], Payloads(run[s..]))
  }

  /** The reader has not come to the record yet: it is in an earlier block, or at one of the pieces
      up to where the record starts. */
  ghost predicate Ahead(run: seq<Piece>, s: nat, at: nat)
    requires s < |run|
  {
    SkipTrailer(at) < run[0].at || exists k {:trigger run[k]} :: 0 <= k <= s && SkipTrailer(at) == run[k].at
  }

  /** The reader has put together the first pieces of the record. */
  ghost predicate Underway(run: seq<Piece>, s: nat, at: nat, inFragmentedRecord: bool, pieces: seq<Piece>)
    requires s < |run|
  {
    exists k {:trigger run[k]} :: s < k < |run| && SkipTrailer(at) == run[k].at && inFragmentedRecord && pieces == run[s..k]
  }

  /** What one physical record tells about where the reader gets: a sound piece is returned, nothing
      goes beyond the end of a block, and the end of the file is where the file ends, unless a
      sound record has the type that stands for it. */
  ghost predicate Advances(file: Bytes, extend: Extend, checksum: bool, at: nat, kind: nat, result: Bytes, to: nat) {
    && to <= BlockEnd(SkipTrailer(at))
    && (forall p {:trigger SoundAt(file, extend, checksum, p)} ::
          SoundAt(file, extend, checksum, p) && p.at == SkipTrailer(at) && OfRecord(p) ==> kind == p.kind && result == p.payload && to == p.End())
    && (kind == END_OF_FILE ==> to == |file| || EndMark(file, extend, checksum, to))
  }

  /** A sound record with the type number that the reader uses for the end of the file. */
  ghost predicate EndMark(file: Bytes, extend: Extend, checksum: bool, to: nat) {
    exists p {:trigger SoundAt(file, extend, checksum, p)} :: SoundAt(file, extend, checksum, p) && p.kind == END_OF_FILE && p.End() == to
  }

  lemma NearBlockEnd(at: nat, to: nat, lo: nat)
    requires to <= BlockEnd(SkipTrailer(at)) && SkipTrailer(at) < lo && lo % BLOCK_SIZE == 0
    ensures SkipTrailer(to) <= lo && to <= lo
  {
    var m := lo / BLOCK_SIZE;
    assert SkipTrailer(at) / BLOCK_SIZE < m;
    SkipsWithin(to, m);
  }

  lemma SkipsWithin(at: nat, m: nat)
    requires at <= m * BLOCK_SIZE
    ensures SkipTrailer(at) <= m * BLOCK_SIZE
  {
    var q, r := at / BLOCK_SIZE, at % BLOCK_SIZE;
    assert at == q * BLOCK_SIZE + r;
    if q < m {
      assert (q + 1) * BLOCK_SIZE <= m * BLOCK_SIZE;
    } else {
      assert r == 0;
    }
  }

  /** The file ends before the next header does. */
  lemma EndAdvances(file: Bytes, extend: Extend, checksum: bool, at: nat)
    requires |file| < SkipTrailer(at) + HEADER_SIZE
    ensures Advances(file, extend, checksum, at, END_OF_FILE, [], |file|)
  {
  }

  /** A record that is still ahead stays ahead, or its first piece has been read. */
  lemma AheadAdvances(file: Bytes, extend: Extend, checksum: bool, run: seq<Piece>, s: nat, at: nat, kind: nat, result: Bytes, to: nat)
    requires Run(file, extend, checksum, run, s) && Ahead(run, s, at) && Advances(file, extend, checksum, at, kind, result, to)
    ensures Ahead(run, s, to) || (Piece(SkipTrailer(at), kind, result) == run[s] && SkipTrailer(at) == run[s].at && to == run[s].End())
    ensures kind == END_OF_FILE ==> to < Ends(run)
  {
    if SkipTrailer(at) < run[0].at {
      NearBlockEnd(at, to, run[0].at);
      assert SkipTrailer(to) == run[0].at ==> Ahead(run, s, to);
      RunAscends(run, 0, |run| - 1);
    } else {
      var k :| 0 <= k <= s && SkipTrailer(at) == run[k].at;
      assert SoundAt(file, extend, checksum, run[k]) && OfRecord(run[k]);
      if k < s {
        assert run[k + 1].at == SkipTrailer(run[k].End());
      }
    }
  }

  lemma {:induction false} RunAscends(run: seq<Piece>, i: nat, j: nat)
    requires Consecutive(run) && i <= j < |run|
    ensures run[i].at <= run[j].at && run[i].End() <= run[j].End()
    decreases j
  {
    if i < j {
      RunAscends(run, i, j - 1);
      SkipTrailerIsNear(run[j - 1].End());
    }
  }

  lemma SpelledKinds(run: seq<Piece>, s: nat, k: nat)
    requires s < k < |run| && Spells(run[s..], Payloads(run[s..]))
    ensures run[k].kind == if k == |run| - 1 then LAST_TYPE else MIDDLE_TYPE
    ensures run[s].kind == FIRST_TYPE
  {
    var pieces := run[s..];
    assert pieces[k - s] == run[k] && pieces[0] == run[s];
    assert pieces[..|pieces| - 1][0] == pieces[0];
    if k < |run| - 1 { assert pieces[..|pieces| - 1][k - s] == pieces[k - s]; }
  }

  lemma SpelledAlone(run: seq<Piece>, s: nat)
    requires s < |run| && Spells(run[s..], Payloads(run[s..]))
    ensures run[s].kind == if s == |run| - 1 then FULL_TYPE else FIRST_TYPE
  {
    assert run[s..][0] == run[s];
    if s < |run| - 1 { SpelledKinds(run, s, s + 1); }
  }

  /** The next piece of a record that is being put together is read. */
  lemma UnderwayAdvances(file: Bytes, extend: Extend, checksum: bool, run: seq<Piece>, s: nat, at: nat, pieces: seq<Piece>, kind: nat, result: Bytes, to: nat)
    returns (k: nat)
    requires Run(file, extend, checksum, run, s) && Underway(run, s, at, true, pieces) && Advances(file, extend, checksum, at, kind, result, to)
    ensures s < k < |run| && pieces == run[s..k] && Piece(SkipTrailer(at), kind, result) == run[k] && to == run[k].End()
    ensures kind == if k == |run| - 1 then LAST_TYPE else MIDDLE_TYPE
    ensures k + 1 < |run| ==> SkipTrailer(to) == run[k + 1].at
  {
    k :| s < k < |run| && SkipTrailer(at) == run[k].at && pieces == run[s..k];
    assert SoundAt(file, extend, checksum, run[k]) && OfRecord(run[k]);
    SpelledKinds(run, s, k);
    if k + 1 < |run| {
      assert run[k + 1].at == SkipTrailer(run[k].End());
    }
  }

  /** How the next physical record changes what has been gathered. */
  ghost function Gather(pieces: seq<Piece>, inFragmentedRecord: bool, p: Piece): seq<Piece> {
    if p.kind == FULL_TYPE || p.kind == FIRST_TYPE then [p]
    else if inFragmentedRecord && (p.kind == MIDDLE_TYPE || p.kind == LAST_TYPE) then pieces + [p]
    else []
  }

  ghost predicate Completes(kind: nat, inFragmentedRecord: bool) {
    kind == FULL_TYPE || (kind == LAST_TYPE && inFragmentedRecord)
  }

  ghost predicate Pending(run: seq<Piece>, s: nat, at: nat, inFragmentedRecord: bool, pieces: seq<Piece>)
    requires s < |run|
  {
    Ahead(run, s, at) || Underway(run, s, at, inFragmentedRecord, pieces)
  }

  lemma PiecesSoFar(run: seq<Piece>, s: nat, k: nat, at: nat, pieces: seq<Piece>)
    requires s <= k < |run| && pieces == run[s..k] + [run[k]] && (k + 1 < |run| ==> SkipTrailer(at) == run[k + 1].at)
    ensures k + 1 < |run| ==> Underway(run, s, at, true, pieces)
    ensures k + 1 == |run| ==> pieces == run[s..]
  {
    assert pieces == run[s..k + 1];
  }

  /** The first piece of the record is read, or what comes before it. */
  lemma AheadStep(file: Bytes, extend: Extend, checksum: bool, run: seq<Piece>, s: nat, at: nat, kind: nat, result: Bytes, to: nat, pieces: seq<Piece>)
    requires Run(file, extend, checksum, run, s) && Ahead(run, s, at) && Advances(file, extend, checksum, at, kind, result, to)
    requires kind == FULL_TYPE || kind == FIRST_TYPE ==> pieces == [Piece(SkipTrailer(at), kind, result)]
    ensures Ahead(run, s, to) || (kind == FULL_TYPE && pieces == run[s..]) || (kind == FIRST_TYPE && Underway(run, s, to, true, pieces))
    ensures kind == END_OF_FILE ==> to < Ends(run)
  {
    AheadAdvances(file, extend, checksum, run, s, at, kind, result, to);
    if !Ahead(run, s, to) {
      SpelledAlone(run, s);
      if s + 1 < |run| { assert run[s + 1].at == SkipTrailer(run[s].End()); }
      PiecesSoFar(run, s, s, to, pieces);
    }
  }

  /** One physical record never loses a record of a run: it is still ahead, under way or complete. */
  lemma RunAdvances(file: Bytes, extend: Extend, checksum: bool, run: seq<Piece>, s: nat, at: nat, inFragmentedRecord0: bool, pieces0: seq<Piece>,
                    kind: nat, result: Bytes, to: nat, inFragmentedRecord: bool, pieces: seq<Piece>)
    requires Run(file, extend, checksum, run, s) && Pending(run, s, at, inFragmentedRecord0, pieces0)
    requires Advances(file, extend, checksum, at, kind, result, to)
    requires pieces == Gather(pieces0, inFragmentedRecord0, Piece(SkipTrailer(at), kind, result))
    requires inFragmentedRecord <==> kind == FIRST_TYPE || (inFragmentedRecord0 && FULL_TYPE <= kind <= LAST_TYPE)
    ensures !Completes(kind, inFragmentedRecord0) ==> Pending(run, s, to, inFragmentedRecord, pieces)
    ensures Completes(kind, inFragmentedRecord0) ==> Ahead(run, s, to) || pieces == run[s..]
    ensures kind == END_OF_FILE ==> to < Ends(run)
  {
    if Ahead(run, s, at) {
      AheadStep(file, extend, checksum, run, s, at, kind, result, to, pieces);
    } else {
      var k := UnderwayAdvances(file, extend, checksum, run, s, at, pieces0, kind, result, to);
      PiecesSoFar(run, s, k, to, pieces);
    }
  }

  /** No record that was ahead at `from` has been passed over. */
  ghost predicate NoneMissed(file: Bytes, extend: Extend, checksum: bool, from: nat, at: nat, inFragmentedRecord: bool, pieces: seq<Piece>) {
    forall run, s {:trigger Run(file, extend, checksum, run, s)} ::
      Run(file, extend, checksum, run, s) && Ahead(run, s, from) ==> Pending(run, s, at, inFragmentedRecord, pieces)
  }

  /** A record that was ahead at `from` still is, or it is the one returned. */
  ghost predicate InTurn(file: Bytes, extend: Extend, checksum: bool, from: nat, to: nat, pieces: seq<Piece>) {
    forall run, s {:trigger Run(file, extend, checksum, run, s)} ::
      Run(file, extend, checksum, run, s) && Ahead(run, s, from) ==> Ahead(run, s, to) || pieces == run[s..]
  }

  /** The reader stops where the file does, or at an end mark, with no record left before it. */
  ghost predicate Stops(file: Bytes, extend: Extend, checksum: bool, from: nat, to: nat) {
    && (to == |file| || EndMark(file, extend, checksum, to))
    && forall run, s {:trigger Run(file, extend, checksum, run, s)} ::
         Run(file, extend, checksum, run, s) && Ahead(run, s, from) ==> to < Ends(run)
  }

  lemma NextOfRuns(file: Bytes, extend: Extend, checksum: bool, from: nat, at: nat, inFragmentedRecord0: bool, pieces0: seq<Piece>,
                   kind: nat, result: Bytes, to: nat, inFragmentedRecord: bool, pieces: seq<Piece>)
    requires NoneMissed(file, extend, checksum, from, at, inFragmentedRecord0, pieces0)
    requires Advances(file, extend, checksum, at, kind, result, to)
    requires pieces == Gather(pieces0, inFragmentedRecord0, Piece(SkipTrailer(at), kind, result))
    requires inFragmentedRecord <==> kind == FIRST_TYPE || (inFragmentedRecord0 && FULL_TYPE <= kind <= LAST_TYPE)
    ensures !Completes(kind, inFragmentedRecord0) ==> NoneMissed(file, extend, checksum, from, to, inFragmentedRecord, pieces)
    ensures Completes(kind, inFragmentedRecord0) ==> InTurn(file, extend, checksum, from, to, pieces)
    ensures kind == END_OF_FILE ==> Stops(file, extend, checksum, from, to)
  {
    forall run, s {:trigger Run(file, extend, checksum, run, s)} | Run(file, extend, checksum, run, s) && Ahead(run, s, from)
      ensures !Completes(kind, inFragmentedRecord0) ==> Pending(run, s, to, inFragmentedRecord, pieces)
      ensures Completes(kind, inFragmentedRecord0) ==> Ahead(run, s, to) || pieces == run[s..]
      ensures kind == END_OF_FILE ==> to < Ends(run)
    {
      RunAdvances(file, extend, checksum, run, s, at, inFragmentedRecord0, pieces0, kind, result, to, inFragmentedRecord, pieces);
    }
  }

  /** What ReadRecord reports about a physical record of some type: bytes of a record without an
      end, without a start, around a bad piece or of an unknown type. */
  function Complaints(kind: nat, fragment: nat, scratch: nat, inFragmentedRecord: bool): seq<(nat, string)> {
    if kind == FULL_TYPE && inFragmentedRecord && scratch > 0 then [(scratch, "partial record without end(1)")]
    else if kind == FIRST_TYPE && inFragmentedRecord && scratch > 0 then [(scratch, "partial record without end(2)")]
    else if kind == MIDDLE_TYPE && !inFragmentedRecord then [(fragment, "missing start of fragmented record(1)")]
    else if kind == LAST_TYPE && !inFragmentedRecord then [(fragment, "missing start of fragmented record(2)")]
    else if kind == BAD_RECORD && inFragmentedRecord then [(scratch, "error in middle of record")]
    else if kind == ZERO_TYPE || (kind > LAST_TYPE && kind != BAD_RECORD) then
      [(fragment + if inFragmentedRecord then scratch else 0, "unknown record type")]
    else []
  }

  /** The next physical record comes out as it is laid out, or the file ends before it does. */
  ghost predicate AsLaid(at: nat, t: Byte, p: Bytes, size: nat, kind: nat, result: Bytes, to: nat) {
    var end := SkipTrailer(at) + HEADER_SIZE + |p|;
    if end <= size then kind == t && result == p && to == end else kind == END_OF_FILE
  }

  /** What the switch in ReadRecord makes of a physical record. */
  ghost predicate Assembled(kind: nat, fragment: Bytes, scratch0: Bytes, inFragmentedRecord0: bool,
                            scratch: Bytes, inFragmentedRecord: bool, found: Option<Bytes>)
  {
    && found == (if kind == FULL_TYPE then Some(fragment)
                 else if kind == LAST_TYPE && inFragmentedRecord0 then Some(scratch0 + fragment) else None)
    && (kind == FIRST_TYPE ==> inFragmentedRecord && scratch == fragment)
    && (kind == MIDDLE_TYPE && inFragmentedRecord0 ==> inFragmentedRecord && scratch == scratch0 + fragment)
  }

  /** Fragment `p` has joined the record, or the file ends before it does. */
  ghost predicate FragmentRead(at: nat, last: bool, p: Bytes, size: nat, scratch0: Bytes,
                               eof: bool, scratch: Bytes, inFragmentedRecord: bool, found: Option<Bytes>, to: nat)
  {
    var end := SkipTrailer(at) + HEADER_SIZE + |p|;
    && (eof <==> end > size)
    && (!eof ==> to == end)
    && (!eof ==> if last then found == Some(scratch0 + p) else found.None? && inFragmentedRecord && scratch == scratch0 + p)
  }

  /** A fragment that comes out as it is laid out joins its record without a complaint. */
  lemma FragmentAsLaid(at: nat, last: bool, p: Bytes, size: nat, kind: nat, fragment: Bytes, scratch0: Bytes, inFragmentedRecord0: bool,
                       scratch: Bytes, inFragmentedRecord: bool, found: Option<Bytes>, to: nat)
    requires AsLaid(at, FragmentType(!inFragmentedRecord0, last), p, size, kind, fragment, to)
    requires kind != END_OF_FILE ==> Assembled(kind, fragment, scratch0, inFragmentedRecord0, scratch, inFragmentedRecord, found)
    requires !inFragmentedRecord0 ==> scratch0 == []
    ensures FragmentRead(at, last, p, size, scratch0, kind == END_OF_FILE, scratch, inFragmentedRecord, found, to)
    ensures kind != END_OF_FILE ==> Complaints(kind, |fragment|, |scratch0|, inFragmentedRecord0) == []
  {
    assert [] + p == p;
  }

  class Reader {
    const file: Bytes
    const extend: Extend
    const checksum: bool
    /** How much of the file has been read into the buffer so far. */
    var offset: nat
    var buffer: Bytes
    var eof: bool
    /** The corruptions reported so far: how many bytes were dropped, and why. */
    var reports: seq<(nat, string)>
    ghost var blockStart: nat

    ghost predicate Ready()
      reads this
    {
      && |buffer| <= offset <= |file| && buffer == file[offset - |buffer|..offset]
      && blockStart % BLOCK_SIZE == 0 && blockStart <= Position() && offset <= blockStart + BLOCK_SIZE
      && (eof ==> offset == |file|)
      && (!eof ==> offset == blockStart || offset == blockStart + BLOCK_SIZE)
    }

    function Position(): nat
      requires |buffer| <= offset
      reads this
    {
      offset - |buffer|
    }

    constructor (file: Bytes, extend: Extend, checksum: bool)
      ensures this.file == file && this.extend == extend && this.checksum == checksum
      ensures Ready() && Position() == 0 && reports == []
    {
      this.file, this.extend, this.checksum := file, extend, checksum;
      offset, buffer, eof, reports, blockStart := 0, [], false, [], 0;
    }

    method ReportCorruption(bytes: nat, reason: string)
      modifies this`reports
      ensures reports == old(reports) + [(bytes, reason)]
    {
      reports := reports + [(bytes, reason)];
    }

    /** Reads the next block, or what there is of it. */
    method FillBuffer()
      requires Ready() && !eof && |buffer| < HEADER_SIZE
      modifies this`offset, this`buffer, this`eof, this`blockStart
      ensures Ready() && SkipTrailer(Position()) == SkipTrailer(old(Position())) && Position() >= old(Position())
      ensures offset > old(offset) || eof
    {
      BlockEnds(blockStart, Position(), offset);
      buffer := [];
      var n := if |file| - offset < BLOCK_SIZE then |file| - offset else BLOCK_SIZE;
      blockStart := offset;
      buffer := file[offset..offset + n];
      offset := offset + n;
      if n < BLOCK_SIZE {
        eof := true;
      }
    }

    method DropBuffer() returns (dropSize: nat)
      requires Ready()
      modifies this`buffer
      ensures Ready() && Position() == offset && dropSize == old(|buffer|)
    {
      dropSize := |buffer|;
      buffer := [];
    }

    method RemovePrefix(n: nat)
      requires Ready() && n <= |buffer|
      modifies this`buffer
      ensures Ready() && Position() == old(Position()) + n
    {
      buffer := buffer[n..];
    }

    /** A physical record of the log starts here. */
    ghost predicate Starts(log: Bytes, at: nat, t: Byte, p: Bytes) {
      Continues(extend) && Truncated(file, log) && PieceAt(extend, log, at, t, p) && SkipTrailer(at) == at
    }

    lemma StartsInBuffer(log: Bytes, t: Byte, p: Bytes)
      requires Ready() && |buffer| >= HEADER_SIZE && Starts(log, Position(), t, p)
      ensures buffer[6] == t && 1 <= t < 128 && buffer[4] as nat + buffer[5] as nat * 256 == |p|
      ensures HEADER_SIZE + |p| > |buffer| ==> eof && offset == |file|
      ensures HEADER_SIZE + |p| <= |buffer| ==>
        && Unmask(DecodeFixed32(buffer[..4])) == extend(0, buffer[6..HEADER_SIZE + |p|])
        && buffer[HEADER_SIZE..HEADER_SIZE + |p|] == p
    {
      PieceInBuffer(file, extend, log, Position(), t, p, buffer);
      BlockHolds(blockStart, Position(), offset);
    }

    /** The part of ReadPhysicalRecord that looks at a header.  Whatever fails a test takes the rest
        of the buffer with it; a record cut off by the end of the file is no corruption. */
    method ParseHeader() returns (kind: nat, result: Bytes)
      requires Ready() && |buffer| >= HEADER_SIZE
      modifies this`buffer, this`reports
      ensures Ready() && Position() > old(Position())
      ensures Parsed(old(buffer), old(reports), kind, result)
    {
      var verdict, length;
      verdict, kind, length := Examine(extend, checksum, buffer);
      if verdict.Sound? {
        result := buffer[HEADER_SIZE..HEADER_SIZE + length];
        RemovePrefix(HEADER_SIZE + length);
        return;
      }
      var dropSize := DropBuffer();
      kind, result := BAD_RECORD, [];
      match verdict
      case TooLong =>
        if eof {
          kind := END_OF_FILE;
        } else {
          ReportCorruption(dropSize, "bad record length");
        }
      case BadChecksum =>
        ReportCorruption(dropSize, "checksum mismatch");
      case _ =>
    }

    ghost predicate Parsed(was: Bytes, reported: seq<(nat, string)>, kind: nat, result: Bytes)
      requires |was| >= HEADER_SIZE
      reads this
    {
      var n := HEADER_SIZE + LengthField(was);
      if n > |was| then
        buffer == [] && result == []
        && (if eof then kind == END_OF_FILE && reports == reported
            else kind == BAD_RECORD && reports == reported + [(|was|, "bad record length")])
      else if KindField(was) == ZERO_TYPE && n == HEADER_SIZE then
        buffer == [] && result == [] && kind == BAD_RECORD && reports == reported
      else if checksum && !ChecksumHolds(extend, was) then
        buffer == [] && result == [] && kind == BAD_RECORD && reports == reported + [(|was|, "checksum mismatch")]
      else
        buffer == was[n..] && result == was[HEADER_SIZE..n] && kind == KindField(was) && reports == reported
    }

    /** A record of one of the four types is a sound piece of the file. */
    lemma ParsedIsSound(at: nat, was: Bytes, block: nat, kind: nat, result: Bytes)
      requires block % BLOCK_SIZE == 0 && block <= at && at + |was| <= block + BLOCK_SIZE && at + |was| <= |file|
      requires was == file[at..at + |was|] && |was| >= HEADER_SIZE && |was| >= HEADER_SIZE + LengthField(was)
      requires result == was[HEADER_SIZE..HEADER_SIZE + LengthField(was)] && kind == KindField(was)
      requires checksum ==> ChecksumHolds(extend, was)
      ensures SoundAt(file, extend, checksum, Piece(at, kind, result))
    {
      var n := HEADER_SIZE + |result|;
      var record := file[at..at + n];
      assert record == was[..n];
      assert record[..4] == was[..4] && record[6..n] == was[6..n];
      BlockHolds(block, at, at + n);
    }

    /** A sound record passes all the tests. */
    lemma SoundIsParsed(at: nat, was: Bytes, block: nat, p: Piece)
      requires block % BLOCK_SIZE == 0 && block <= at < block + BLOCK_SIZE && at + |was| <= |file|
      requires was == file[at..at + |was|] && |was| >= HEADER_SIZE
      requires at + |was| == |file| || at + |was| == block + BLOCK_SIZE
      requires SoundAt(file, extend, checksum, p) && p.at == at
      ensures KindField(was) == p.kind && LengthField(was) == |p.payload| && HEADER_SIZE + |p.payload| <= |was|
      ensures was[HEADER_SIZE..HEADER_SIZE + |p.payload|] == p.payload && (checksum ==> ChecksumHolds(extend, was))
    {
      var n := HEADER_SIZE + |p.payload|;
      var record := file[at..p.End()];
      BlockOffset(block, at);
      assert record == was[..n];
      assert record[..4] == was[..4] && record[6..n] == was[6..n];
      assert record[4] == was[4] && record[5] == was[5] && record[6] == was[6];
    }

    /** The buffer starts with a record that passes all the tests. */
    ghost predicate Passes(was: Bytes)
      requires |was| >= HEADER_SIZE
    {
      && HEADER_SIZE + LengthField(was) <= |was| && !(KindField(was) == ZERO_TYPE && LengthField(was) == 0)
      && (checksum ==> ChecksumHolds(extend, was))
    }

    lemma ParseAdvances(at: nat, was: Bytes, block: nat, kind: nat, result: Bytes, to: nat)
      requires block % BLOCK_SIZE == 0 && block <= at && at + |was| <= block + BLOCK_SIZE && at + |was| <= |file|
      requires was == file[at..at + |was|] && |was| >= HEADER_SIZE
      requires at + |was| == |file| || at + |was| == block + BLOCK_SIZE
      requires if Passes(was) then kind == KindField(was) && to == at + HEADER_SIZE + LengthField(was) && result == was[HEADER_SIZE..to - at]
               else to == at + |was| && (kind == BAD_RECORD || (kind == END_OF_FILE && to == |file|))
      ensures Advances(file, extend, checksum, at, kind, result, to)
      ensures FULL_TYPE <= kind <= LAST_TYPE ==> SoundAt(file, extend, checksum, Piece(at, kind, result)) && to == at + HEADER_SIZE + |result|
    {
      BlockHolds(block, at, at + |was|);
      BlockOffset(block, at);
      if Passes(was) {
        ParsedIsSound(at, was, block, kind, result);
      }
      forall p {:trigger SoundAt(file, extend, checksum, p)} |
        SoundAt(file, extend, checksum, p) && p.at == at && OfRecord(p)
        ensures kind == p.kind && result == p.payload && to == p.End()
      {
        SoundIsParsed(at, was, block, p);
      }
    }

    method ParsePiece() returns (kind: nat, result: Bytes)
      requires Ready() && |buffer| >= HEADER_SIZE
      modifies this`buffer, this`reports
      ensures Ready() && Position() > old(Position())
      ensures Parsed(old(buffer), old(reports), kind, result)
      ensures FULL_TYPE <= kind <= LAST_TYPE ==> reports == old(reports) && FoundPiece(old(Position()), kind, result)
      ensures Advances(file, extend, checksum, old(Position()), kind, result, Position())
    {
      ghost var at, was := Position(), buffer;
      kind, result := ParseHeader();
      ParseAdvances(at, was, blockStart, kind, result, Position());
    }

    /** What it makes of a log's physical record, whole or cut off. */
    method ParseRecord(ghost log: Bytes, ghost t: Byte, ghost p: Bytes) returns (kind: nat, result: Bytes)
      requires Ready() && |buffer| >= HEADER_SIZE
      modifies this`buffer, this`reports
      ensures Ready() && Position() > old(Position())
      ensures old(reports) <= reports
      ensures Advances(file, extend, checksum, old(Position()), kind, result, Position())
      ensures FULL_TYPE <= kind <= LAST_TYPE ==> reports == old(reports) && FoundPiece(old(Position()), kind, result)
      ensures Starts(log, old(Position()), t, p) ==> reports == old(reports)
      ensures Starts(log, old(Position()), t, p) && old(Position()) + HEADER_SIZE + |p| <= |file| ==>
        kind == t && result == p && Position() == old(Position()) + HEADER_SIZE + |p|
      ensures Starts(log, old(Position()), t, p) && old(Position()) + HEADER_SIZE + |p| > |file| ==> kind == END_OF_FILE
    {
      if Starts(log, Position(), t, p) {
        StartsInBuffer(log, t, p);
      }
      kind, result := ParsePiece();
    }

    /** The reader stands behind a sound piece. */
    ghost predicate FoundPiece(at: nat, kind: nat, result: Bytes)
      reads this
    {
      |buffer| <= offset && Position() == at + HEADER_SIZE + |result| && SoundAt(file, extend, checksum, Piece(at, kind, result))
    }

    /** A physical record of the log comes next. */
    ghost predicate Next(log: Bytes, at: nat, t: Byte, p: Bytes) {
      Continues(extend) && Truncated(file, log) && PieceAt(extend, log, at, t, p)
    }

    /** Reader::ReadPhysicalRecord. */
    method ReadPhysicalRecord(ghost log: Bytes, ghost t: Byte, ghost p: Bytes) returns (kind: nat, result: Bytes)
      requires Ready()
      modifies this
      ensures Ready() && (kind != END_OF_FILE ==> Position() > old(Position()))
      ensures old(reports) <= reports
      ensures Advances(file, extend, checksum, old(Position()), kind, result, Position())
      ensures old(Position()) == |file| ==> kind == END_OF_FILE && reports == old(reports)
      ensures FULL_TYPE <= kind <= LAST_TYPE ==> reports == old(reports) && FoundPiece(SkipTrailer(old(Position())), kind, result)
      ensures Next(log, old(Position()), t, p) ==> reports == old(reports) && AsLaid(old(Position()), t, p, |file|, kind, result, Position())
    {
      ghost var start := Position();
      while |buffer| < HEADER_SIZE
        invariant Ready() && reports == old(reports)
        invariant SkipTrailer(Position()) == SkipTrailer(start) && Position() >= start
        decreases !eof, |file| - offset
      {
        if !eof {
          FillBuffer();
        } else {
          SkipTrailerIsNear(start);
          EndAdvances(file, extend, checksum, start);
          buffer := [];
          return END_OF_FILE, [];
        }
      }
      BlockHolds(blockStart, Position(), offset);
      kind, result := ParseRecord(log, t, p);
    }

    /** The switch of ReadRecord over what ReadPhysicalRecord returned. */
    method Interpret(kind: nat, fragment: Bytes, scratch0: Bytes, inFragmentedRecord0: bool)
      returns (scratch: Bytes, inFragmentedRecord: bool, found: Option<Bytes>)
      modifies this`reports
      ensures Assembled(kind, fragment, scratch0, inFragmentedRecord0, scratch, inFragmentedRecord, found)
      ensures inFragmentedRecord <==> kind == FIRST_TYPE || (inFragmentedRecord0 && FULL_TYPE <= kind <= LAST_TYPE)
      ensures !inFragmentedRecord && scratch0 == [] ==> scratch == []
      ensures reports == old(reports) + Complaints(kind, |fragment|, |scratch0|, inFragmentedRecord0)
    {
      scratch, inFragmentedRecord, found := scratch0, inFragmentedRecord0, None;
      if kind == FULL_TYPE {
        if inFragmentedRecord && scratch != [] {
          ReportCorruption(|scratch|, "partial record without end(1)");
        }
        scratch := [];
        found := Some(fragment);
      } else if kind == FIRST_TYPE {
        if inFragmentedRecord && scratch != [] {
          ReportCorruption(|scratch|, "partial record without end(2)");
        }
        scratch := fragment;
        inFragmentedRecord := true;
      } else if kind == MIDDLE_TYPE {
        if !inFragmentedRecord {
          ReportCorruption(|fragment|, "missing start of fragmented record(1)");
        } else {
          scratch := scratch + fragment;
        }
      } else if kind == LAST_TYPE {
        if !inFragmentedRecord {
          ReportCorruption(|fragment|, "missing start of fragmented record(2)");
        } else {
          scratch := scratch + fragment;
          found := Some(scratch);
        }
      } else if kind == BAD_RECORD {
        if inFragmentedRecord {
          ReportCorruption(|scratch|, "error in middle of record");
          inFragmentedRecord := false;
          scratch := [];
        }
      } else {
        ReportCorruption(|fragment| + (if inFragmentedRecord then |scratch| else 0), "unknown record type");
        inFragmentedRecord := false;
        scratch := [];
      }
    }

    /** The reader has put `scratch` together and `rest` is still to come. */
    ghost predicate Within(log: Bytes, record: Bytes, end: nat, scratch: Bytes, inFragmentedRecord: bool, rest: Bytes, at: nat) {
      && Continues(extend) && Truncated(file, log) && scratch + rest == record
      && (!inFragmentedRecord ==> scratch == [])
      && Laid(extend, log, at, rest, !inFragmentedRecord, end)
    }

    /** A record of the log starts here. */
    ghost predicate Comes(log: Bytes, record: Bytes, end: nat, at: nat) {
      Continues(extend) && Truncated(file, log) && Laid(extend, log, at, record, true, end)
    }

    /** What comes next, and what is left of the record after it. */
    lemma NextFragment(log: Bytes, record: Bytes, end: nat, scratch: Bytes, inFragmentedRecord: bool, rest: Bytes, at: nat)
      requires Within(log, record, end, scratch, inFragmentedRecord, rest, at)
      ensures var n := FragmentSize(at, |rest|);
        && Next(log, at, FragmentType(!inFragmentedRecord, n == |rest|), rest[..n])
        && FragmentEnd(at, |rest|) <= end
        && (n == |rest| ==> end == FragmentEnd(at, |rest|) && scratch + rest[..n] == record)
        && (n < |rest| ==> Within(log, record, end, scratch + rest[..n], true, rest[n..], FragmentEnd(at, |rest|)))
    {
      FirstPiece(extend, log, at, rest, !inFragmentedRecord, end);
      MoveOver(scratch, rest, FragmentSize(at, |rest|));
    }

    /** The pieces of the record in fragments that is being read, all at or after `from`. */
    ghost predicate Gathered(pieces: seq<Piece>, scratch: Bytes, inFragmentedRecord: bool, from: nat, at: nat) {
      if inFragmentedRecord then
        && Opens(pieces) && Consecutive(pieces) && AllSound(file, extend, checksum, pieces)
        && Payloads(pieces) == scratch && pieces[0].at >= from && pieces[|pieces| - 1].End() == at
      else
        pieces == []
    }

    /** A whole record has been found between `from` and `at`. */
    ghost predicate Read(pieces: seq<Piece>, record: Bytes, from: nat, at: nat) {
      && Genuine(file, extend, checksum, pieces, record)
      && pieces[0].at >= from && pieces[|pieces| - 1].End() == at
    }

    /** A first piece stands alone. */
    lemma FirstGathers(from: nat, at: nat, p: Piece)
      requires SoundAt(file, extend, checksum, p) && p.at == SkipTrailer(at) && from <= at
      ensures p.kind == FULL_TYPE ==> Read([p], p.payload, from, p.End())
      ensures p.kind == FIRST_TYPE ==> Gathered([p], p.payload, true, from, p.End())
    {
      AddPiece([], p);
      SkipTrailerIsNear(at);
    }

    /** A further piece follows the ones before. */
    lemma NextGathers(pieces: seq<Piece>, scratch: Bytes, from: nat, at: nat, p: Piece)
      requires Gathered(pieces, scratch, true, from, at)
      requires SoundAt(file, extend, checksum, p) && p.at == SkipTrailer(at)
      ensures p.kind == MIDDLE_TYPE ==> Gathered(pieces + [p], scratch + p.payload, true, from, p.End())
      ensures p.kind == LAST_TYPE ==> Read(pieces + [p], scratch + p.payload, from, p.End())
    {
      AddPiece(pieces, p);
      SoundMore(file, extend, checksum, pieces, p);
    }

    /** The switch, with the pieces it gathers. */
    method TakeFragment(kind: nat, fragment: Bytes, scratch0: Bytes, inFragmentedRecord0: bool,
                        ghost pieces0: seq<Piece>, ghost from: nat, ghost at: nat)
      returns (scratch: Bytes, inFragmentedRecord: bool, found: Option<Bytes>, ghost pieces: seq<Piece>)
      requires Ready() && Gathered(pieces0, scratch0, inFragmentedRecord0, from, at) && from <= at
      requires FULL_TYPE <= kind <= LAST_TYPE ==> FoundPiece(SkipTrailer(at), kind, fragment)
      requires NoneMissed(file, extend, checksum, from, at, inFragmentedRecord0, pieces0)
      requires |buffer| <= offset && Advances(file, extend, checksum, at, kind, fragment, Position())
      modifies this`reports
      ensures Ready()
      ensures found.None? ==> Gathered(pieces, scratch, inFragmentedRecord, from, Position())
      ensures found.None? ==> NoneMissed(file, extend, checksum, from, Position(), inFragmentedRecord, pieces)
      ensures found.Some? ==> Read(pieces, found.value, from, Position()) && InTurn(file, extend, checksum, from, Position(), pieces)
      ensures Assembled(kind, fragment, scratch0, inFragmentedRecord0, scratch, inFragmentedRecord, found)
      ensures reports == old(reports) + Complaints(kind, |fragment|, |scratch0|, inFragmentedRecord0)
    {
      ghost var piece := Piece(SkipTrailer(at), kind, fragment);
      if FULL_TYPE <= kind <= LAST_TYPE {
        FirstGathers(from, at, piece);
        if inFragmentedRecord0 { NextGathers(pieces0, scratch0, from, at, piece); }
      }
      pieces := Gather(pieces0, inFragmentedRecord0, piece);
      scratch, inFragmentedRecord, found := Interpret(kind, fragment, scratch0, inFragmentedRecord0);
      NextOfRuns(file, extend, checksum, from, at, inFragmentedRecord0, pieces0, kind, fragment, Position(), inFragmentedRecord, pieces);
    }

    /** One round of ReadRecord; the log has fragment `p` next. */
    method ReadFragment(scratch0: Bytes, inFragmentedRecord0: bool, ghost log: Bytes, ghost last: bool, ghost p: Bytes,
                        ghost pieces0: seq<Piece>, ghost from: nat)
      returns (eof: bool, scratch: Bytes, inFragmentedRecord: bool, found: Option<Bytes>, ghost pieces: seq<Piece>)
      requires Ready() && from <= Position()
      requires Gathered(pieces0, scratch0, inFragmentedRecord0, from, Position())
      requires NoneMissed(file, extend, checksum, from, Position(), inFragmentedRecord0, pieces0)
      modifies this
      ensures Ready() && (!eof ==> Position() > old(Position())) && (eof ==> found.None?)
      ensures old(reports) <= reports
      ensures old(Position()) == |file| ==> eof && reports == old(reports)
      ensures !eof && found.None? ==>
        && Gathered(pieces, scratch, inFragmentedRecord, from, Position())
        && NoneMissed(file, extend, checksum, from, Position(), inFragmentedRecord, pieces)
      ensures found.Some? ==> Read(pieces, found.value, from, Position()) && InTurn(file, extend, checksum, from, Position(), pieces)
      ensures eof ==> Stops(file, extend, checksum, from, Position())
      ensures Next(log, old(Position()), FragmentType(!inFragmentedRecord0, last), p) && (!inFragmentedRecord0 ==> scratch0 == []) ==>
        reports == old(reports) && FragmentRead(old(Position()), last, p, |file|, scratch0, eof, scratch, inFragmentedRecord, found, Position())
    {
      ghost var at := Position();
      var kind, fragment := ReadPhysicalRecord(log, FragmentType(!inFragmentedRecord0, last), p);
      scratch, inFragmentedRecord, found, pieces := scratch0, inFragmentedRecord0, None, [];
      eof := kind == END_OF_FILE;
      if eof {
        NextOfRuns(file, extend, checksum, from, at, inFragmentedRecord0, pieces0, kind, fragment, Position(), false, []);
      } else {
        scratch, inFragmentedRecord, found, pieces := TakeFragment(kind, fragment, scratch0, inFragmentedRecord0, pieces0, from, at);
      }
      if Next(log, at, FragmentType(!inFragmentedRecord0, last), p) && (!inFragmentedRecord0 ==> scratch0 == []) {
        FragmentAsLaid(at, last, p, |file|, kind, fragment, scratch0, inFragmentedRecord0, scratch, inFragmentedRecord, found, Position());
      }
    }

    /** A fragment read is the end of its record, or leaves less to come. */
    lemma FragmentMovesOn(log: Bytes, record: Bytes, end: nat, scratch0: Bytes, inFragmentedRecord0: bool, rest: Bytes, at: nat,
                          eof: bool, scratch: Bytes, inFragmentedRecord: bool, found: Option<Bytes>, to: nat)
      requires Within(log, record, end, scratch0, inFragmentedRecord0, rest, at)
      requires var n := FragmentSize(at, |rest|);
        FragmentRead(at, n == |rest|, rest[..n], |file|, scratch0, eof, scratch, inFragmentedRecord, found, to)
      ensures eof ==> end > |file|
      ensures !eof && found.Some? ==> found.value == record && to == end <= |file|
      ensures !eof && found.None? ==>
        Within(log, record, end, scratch, inFragmentedRecord, rest[FragmentSize(at, |rest|)..], to)
    {
      NextFragment(log, record, end, scratch0, inFragmentedRecord0, rest, at);
    }

    /** One round of ReadRecord, when `rest` is still to come of the record. */
    method ReadMore(scratch0: Bytes, inFragmentedRecord0: bool, ghost log: Bytes, ghost record: Bytes, ghost end: nat, ghost rest: Bytes, ghost good: bool,
                    ghost pieces0: seq<Piece>, ghost from: nat)
      returns (eof: bool, scratch: Bytes, inFragmentedRecord: bool, found: Option<Bytes>, ghost rest': Bytes, ghost pieces: seq<Piece>)
      requires Ready() && from <= Position()
      requires Gathered(pieces0, scratch0, inFragmentedRecord0, from, Position())
      requires NoneMissed(file, extend, checksum, from, Position(), inFragmentedRecord0, pieces0)
      requires good ==> Within(log, record, end, scratch0, inFragmentedRecord0, rest, Position())
      modifies this
      ensures Ready() && (!eof ==> Position() > old(Position())) && (eof ==> found.None?)
      ensures old(reports) <= reports
      ensures old(Position()) == |file| ==> eof && reports == old(reports)
      ensures !eof && found.None? ==>
        && Gathered(pieces, scratch, inFragmentedRecord, from, Position())
        && NoneMissed(file, extend, checksum, from, Position(), inFragmentedRecord, pieces)
      ensures found.Some? ==> Read(pieces, found.value, from, Position()) && InTurn(file, extend, checksum, from, Position(), pieces)
      ensures eof ==> Stops(file, extend, checksum, from, Position())
      ensures good ==> reports == old(reports) && (eof ==> end > |file|)
      ensures good && found.Some? ==> found.value == record && Position() == end <= |file|
      ensures good && !eof && found.None? ==> Within(log, record, end, scratch, inFragmentedRecord, rest', Position())
    {
      ghost var n := FragmentSize(Position(), |rest|);
      ghost var at := Position();
      if good { NextFragment(log, record, end, scratch0, inFragmentedRecord0, rest, at); }
      eof, scratch, inFragmentedRecord, found, pieces :=
        ReadFragment(scratch0, inFragmentedRecord0, log, n == |rest|, rest[..n], pieces0, from);
      if good {
        FragmentMovesOn(log, record, end, scratch0, inFragmentedRecord0, rest, at, eof, scratch, inFragmentedRecord, found, Position());
      }
      rest' := rest[n..];
    }

    /** Reader::ReadRecord.  On any bytes it returns, and what it returns is the payload of sound
        pieces in a row; on what a crash left of a log it yields the next record if the file holds
        all of it, and reports nothing. */
    method ReadRecord(ghost log: Bytes, ghost record: Bytes, ghost end: nat) returns (found: Option<Bytes>, ghost pieces: seq<Piece>)
      requires Ready()
      modifies this
      ensures Ready() && (found.Some? ==> Position() > old(Position()))
      ensures found.Some? ==>
        && Read(pieces, found.value, old(Position()), Position())
        && InTurn(file, extend, checksum, old(Position()), Position(), pieces)
      ensures found.None? ==> Stops(file, extend, checksum, old(Position()), Position())
      ensures old(reports) <= reports
      ensures old(Position()) == |file| ==> found.None? && reports == old(reports)
      ensures Comes(log, record, end, old(Position())) ==>
        && reports == old(reports)
        && found == (if end <= |file| then Some(record) else None)
        && (found.Some? ==> Position() == end)
    {
      ghost var start := Position();
      var scratch: Bytes, inFragmentedRecord := [], false;
      ghost var rest := record;
      found, pieces := None, [];
      while true
        invariant Ready() && found.None? && Position() >= start
        invariant Gathered(pieces, scratch, inFragmentedRecord, start, Position())
        invariant NoneMissed(file, extend, checksum, start, Position(), inFragmentedRecord, pieces)
        invariant old(reports) <= reports
        invariant start == |file| ==> Position() == |file| && reports == old(reports)
        invariant Comes(log, record, end, start) ==>
          reports == old(reports) && Within(log, record, end, scratch, inFragmentedRecord, rest, Position())
        decreases |file| - Position()
      {
        var eof;
        eof, scratch, inFragmentedRecord, found, rest, pieces :=
          ReadMore(scratch, inFragmentedRecord, log, record, end, rest, Comes(log, record, end, start), pieces, start);
        if eof || found.Some? {
          return;
        }
      }
    }
  }

  /** Each record found is genuine, and none uses bytes of the file that another one uses. */
  ghost predicate AllGenuine(file: Bytes, extend: Extend, checksum: bool, found: seq<Bytes>, origins: seq<seq<Piece>>) {
    && |origins| == |found|
    && (forall i {:trigger Genuine(file, extend, checksum, origins[i], found[i])} :: 0 <= i < |found| ==>
          Genuine(file, extend, checksum, origins[i], found[i]))
    && (forall i {:trigger Begins(origins[i])} :: 0 < i < |found| ==> Ends(origins[i - 1]) <= Begins(origins[i]))
  }

  ghost function Ends(pieces: seq<Piece>): nat { if pieces == [] then 0 else pieces[|pieces| - 1].End() }

  ghost function Begins(pieces: seq<Piece>): nat { if pieces == [] then 0 else pieces[0].at }

  /** A record made of pieces that lie between two positions, and reach up to the second. */
  ghost predicate Found(file: Bytes, extend: Extend, checksum: bool, pieces: seq<Piece>, record: Bytes, from: nat, to: nat) {
    Genuine(file, extend, checksum, pieces, record) && from <= Begins(pieces) && Ends(pieces) == to
  }

  ghost function EndOf(origins: seq<seq<Piece>>): nat { if origins == [] then 0 else Ends(origins[|origins| - 1]) }

  lemma GenuineMore(file: Bytes, extend: Extend, checksum: bool, found: seq<Bytes>, origins: seq<seq<Piece>>, record: Bytes, pieces: seq<Piece>)
    requires AllGenuine(file, extend, checksum, found, origins)
    requires Genuine(file, extend, checksum, pieces, record) && EndOf(origins) <= Begins(pieces)
    ensures AllGenuine(file, extend, checksum, found + [record], origins + [pieces])
    ensures EndOf(origins + [pieces]) == Ends(pieces)
  {
    var found', origins' := found + [record], origins + [pieces];
    forall i | 0 <= i < |found'| ensures Genuine(file, extend, checksum, origins'[i], found'[i]) {
      assert i < |found| ==> origins'[i] == origins[i] && found'[i] == found[i];
    }
    forall i | 0 < i < |found'| ensures Ends(origins'[i - 1]) <= Begins(origins'[i]) {
      assert i < |found| ==> Begins(origins'[i]) == Begins(origins[i]);
    }
  }

  /** Every record of a run is ahead or has been found. */
  ghost predicate Covered(file: Bytes, extend: Extend, checksum: bool, origins: seq<seq<Piece>>, at: nat) {
    forall run, s {:trigger Run(file, extend, checksum, run, s)} ::
      Run(file, extend, checksum, run, s) ==> Ahead(run, s, at) || run[s..] in origins
  }

  /** Reading ended where the file does, or at an end mark, and every record of a run before that is
      among those found. */
  ghost predicate Complete(file: Bytes, extend: Extend, checksum: bool, origins: seq<seq<Piece>>, stop: nat) {
    && (stop == |file| || EndMark(file, extend, checksum, stop))
    && forall run, s {:trigger Run(file, extend, checksum, run, s)} ::
         Run(file, extend, checksum, run, s) && Ends(run) <= stop ==> run[s..] in origins
  }

  /** What is known with the next record at hand, or the end of the file. */
  ghost predicate SoFar(file: Bytes, extend: Extend, checksum: bool, origins: seq<seq<Piece>>, next: Option<Bytes>, pieces: seq<Piece>, at: nat) {
    if next.Some? then Covered(file, extend, checksum, origins + [pieces], at) else Complete(file, extend, checksum, origins, at)
  }

  lemma CoveredMore(file: Bytes, extend: Extend, checksum: bool, origins: seq<seq<Piece>>, from: nat, to: nat, next: Option<Bytes>, pieces: seq<Piece>)
    requires Covered(file, extend, checksum, origins, from)
    requires if next.Some? then InTurn(file, extend, checksum, from, to, pieces) else Stops(file, extend, checksum, from, to)
    ensures SoFar(file, extend, checksum, origins, next, pieces, to)
  {
    forall run, s {:trigger Run(file, extend, checksum, run, s)} | Run(file, extend, checksum, run, s)
      ensures next.Some? ==> Ahead(run, s, to) || run[s..] in origins + [pieces]
      ensures next.None? && Ends(run) <= to ==> run[s..] in origins
    {
      assert pieces in origins + [pieces];
      assert run[s..] in origins ==> run[s..] in origins + [pieces];
    }
  }

  lemma CoveredFirst(file: Bytes, extend: Extend, checksum: bool)
    ensures Covered(file, extend, checksum, [], 0) && AllGenuine(file, extend, checksum, [], []) && EndOf([]) == 0
  {
    forall run: seq<Piece>, s {:trigger Run(file, extend, checksum, run, s)} | Run(file, extend, checksum, run, s) ensures Ahead(run, s, 0) {
      assert SkipTrailer(0) == 0 <= run[0].at;
    }
  }

  /** The records found and the next one, if there is one. */
  ghost predicate Yields(file: Bytes, extend: Extend, checksum: bool, found: seq<Bytes>, origins: seq<seq<Piece>>,
                         next: Option<Bytes>, pieces: seq<Piece>, at: nat)
  {
    && AllGenuine(file, extend, checksum, found, origins) && SoFar(file, extend, checksum, origins, next, pieces, at)
    && (next.Some? ==> Found(file, extend, checksum, pieces, next.value, EndOf(origins), at))
  }

  lemma YieldsMore(file: Bytes, extend: Extend, checksum: bool, found: seq<Bytes>, origins: seq<seq<Piece>>, next: Option<Bytes>, pieces: seq<Piece>, at: nat)
    requires Yields(file, extend, checksum, found, origins, next, pieces, at) && next.Some?
    ensures AllGenuine(file, extend, checksum, found + [next.value], origins + [pieces])
    ensures EndOf(origins + [pieces]) == at && Covered(file, extend, checksum, origins + [pieces], at)
  {
    GenuineMore(file, extend, checksum, found, origins, next.value, pieces);
  }

  /** The file is what a crash left of a log of these records. */
  ghost predicate LeftOf(file: Bytes, extend: Extend, log: Bytes, records: seq<Bytes>, ends: seq<nat>) {
    Continues(extend) && Truncated(file, log) && Holds(extend, log, records, ends)
  }

  /** What has been found is a prefix of the records, and `next` the record after it if the file
      holds it. */
  ghost predicate Follows(records: seq<Bytes>, ends: seq<nat>, found: seq<Bytes>, next: Option<Bytes>, size: int, position: int)
  {
    && |ends| == |records| + 1 && found <= records && ends[|found|] <= size
    && (next.None? ==> |found| < |records| ==> size < ends[|found| + 1])
    && (next.Some? ==> |found| < |records| && next.value == records[|found|] && position == ends[|found| + 1] <= size)
  }

  method ReadNext(reader: Reader, ghost log: Bytes, ghost records: seq<Bytes>, ghost ends: seq<nat>, ghost found: seq<Bytes>,
                  ghost origins: seq<seq<Piece>>, ghost good: bool)
    returns (next: Option<Bytes>, ghost pieces: seq<Piece>)
    requires reader.Ready() && Covered(reader.file, reader.extend, reader.checksum, origins, reader.Position())
    requires good ==> LeftOf(reader.file, reader.extend, log, records, ends)
    requires good ==> found <= records && reader.Position() == ends[|found|]
    modifies reader
    ensures reader.Ready() && (next.Some? ==> reader.Position() > old(reader.Position()))
    ensures next.Some? ==> Found(reader.file, reader.extend, reader.checksum, pieces, next.value, old(reader.Position()), reader.Position())
    ensures SoFar(reader.file, reader.extend, reader.checksum, origins, next, pieces, reader.Position())
    ensures AllGenuine(reader.file, reader.extend, reader.checksum, found, origins) && EndOf(origins) == old(reader.Position()) ==>
      Yields(reader.file, reader.extend, reader.checksum, found, origins, next, pieces, reader.Position())
    ensures old(reader.reports) <= reader.reports
    ensures good ==> reader.reports == old(reader.reports) && Follows(records, ends, found, next, |reader.file|, reader.Position())
  {
    ghost var record, end := [], 0;
    if good && |found| < |records| {
      record, end := records[|found|], ends[|found| + 1];
      assert RecordAt(reader.extend, log, records, ends, |found|);
    }
    ghost var from := reader.Position();
    next, pieces := reader.ReadRecord(log, record, end);
    CoveredMore(reader.file, reader.extend, reader.checksum, origins, from, reader.Position(), next, pieces);
  }

  /** The reader is that of the file. */
  ghost predicate Reads(reader: Reader, file: Bytes, extend: Extend, checksum: bool)
    reads reader
  {
    reader.file == file && reader.extend == extend && reader.checksum == checksum && reader.Ready()
  }

  /** The first record is read. */
  method ReadFirst(reader: Reader, ghost file: Bytes, ghost extend: Extend, ghost checksum: bool,
                   ghost log: Bytes, ghost records: seq<Bytes>, ghost ends: seq<nat>, ghost good: bool)
    returns (next: Option<Bytes>, ghost pieces: seq<Piece>, ghost at: nat)
    requires Reads(reader, file, extend, checksum) && reader.Position() == 0 && reader.reports == []
    requires good ==> LeftOf(file, extend, log, records, ends)
    modifies reader
    ensures Reads(reader, file, extend, checksum) && at == reader.Position()
    ensures Yields(file, extend, checksum, [], [], next, pieces, at)
    ensures good ==> reader.reports == [] && Follows(records, ends, [], next, |file|, at)
  {
    CoveredFirst(file, extend, checksum);
    next, pieces := ReadNext(reader, log, records, ends, [], [], good);
    at := reader.Position();
  }

  /** One record is taken, and the next one read. */
  method Take(reader: Reader, ghost file: Bytes, ghost extend: Extend, ghost checksum: bool,
              found0: seq<Bytes>, ghost origins0: seq<seq<Piece>>, record: Bytes, ghost pieces0: seq<Piece>,
              ghost log: Bytes, ghost records: seq<Bytes>, ghost ends: seq<nat>, ghost good: bool)
    returns (found: seq<Bytes>, ghost origins: seq<seq<Piece>>, next: Option<Bytes>, ghost pieces: seq<Piece>, ghost at: nat)
    requires Reads(reader, file, extend, checksum) && (good ==> LeftOf(file, extend, log, records, ends))
    requires Yields(file, extend, checksum, found0, origins0, Some(record), pieces0, reader.Position())
    requires good ==> reader.reports == [] && Follows(records, ends, found0, Some(record), |file|, reader.Position())
    modifies reader
    ensures Reads(reader, file, extend, checksum) && at == reader.Position() && (next.Some? ==> at > old(reader.Position()))
    ensures found == found0 + [record] && origins == origins0 + [pieces0]
    ensures Yields(file, extend, checksum, found, origins, next, pieces, at)
    ensures good ==> reader.reports == [] && Follows(records, ends, found, next, |file|, at)
  {
    YieldsMore(file, extend, checksum, found0, origins0, Some(record), pieces0, reader.Position());
    if good { NextOfPrefix(records, found0); }
    found, origins := found0 + [record], origins0 + [pieces0];
    next, pieces := ReadNext(reader, log, records, ends, found, origins, good);
    at := reader.Position();
  }

  /** Everything a log file yields: the loop of RecoverLogFile and of VersionSet::Recover. */
  method ReadAll(file: Bytes, extend: Extend, checksum: bool, ghost log: Bytes, ghost records: seq<Bytes>, ghost ends: seq<nat>)
    returns (found: seq<Bytes>, reports: seq<(nat, string)>, ghost origins: seq<seq<Piece>>, ghost stop: nat)
    ensures AllGenuine(file, extend, checksum, found, origins)
    ensures Complete(file, extend, checksum, origins, stop)
    ensures LeftOf(file, extend, log, records, ends) ==>
      && reports == []
      && found <= records
      && ends[|found|] <= |file|
      && (|found| < |records| ==> |file| < ends[|found| + 1])
  {
    var reader := new Reader(file, extend, checksum);
    ghost var good := LeftOf(file, extend, log, records, ends);
    found, origins := [], [];
    var next;
    ghost var pieces;
    next, pieces, stop := ReadFirst(reader, file, extend, checksum, log, records, ends, good);
    while next.Some?
      invariant fresh(reader) && Reads(reader, file, extend, checksum) && stop == reader.Position()
      invariant Yields(file, extend, checksum, found, origins, next, pieces, stop)
      invariant good ==> reader.reports == [] && Follows(records, ends, found, next, |file|, stop)
      decreases next.Some?, |file| - stop
    {
      found, origins, next, pieces, stop :=
        Take(reader, file, extend, checksum, found, origins, next.value, pieces, log, records, ends, good);
    }
    reports := reader.reports;
  }

  lemma NextOfPrefix<T>(all: seq<T>, found: seq<T>)
    requires found <= all
    ensures |found| < |all| ==> found + [all[|found|]] == all[..|found| + 1]
  {
  }

  lemma MoveOver(scratch: Bytes, rest: Bytes, n: nat)
    requires n <= |rest|
    ensures scratch + rest == scratch + rest[..n] + rest[n..]
    ensures n == |rest| ==> scratch + rest[..n] == scratch + rest
  {
    assert rest == rest[..n] + rest[n..];
  }

  lemma BlockEnds(blockStart: nat, at: nat, offset: nat)
    requires blockStart % BLOCK_SIZE == 0 && blockStart <= at <= offset < at + HEADER_SIZE
    requires offset == blockStart || offset == blockStart + BLOCK_SIZE
    ensures SkipTrailer(at) == offset && SkipTrailer(offset) == offset && offset % BLOCK_SIZE == 0
  {
  }

  lemma BlockHolds(blockStart: nat, at: nat, offset: nat)
    requires blockStart % BLOCK_SIZE == 0 && blockStart <= at && at + HEADER_SIZE <= offset <= blockStart + BLOCK_SIZE
    ensures SkipTrailer(at) == at && at % BLOCK_SIZE == at - blockStart
  {
  }

  lemma BlockOffset(blockStart: nat, at: nat)
    requires blockStart % BLOCK_SIZE == 0 && blockStart <= at < blockStart + BLOCK_SIZE
    ensures at % BLOCK_SIZE == at - blockStart && BlockEnd(at) == blockStart + BLOCK_SIZE
  {
  }

  lemma SkipTrailerIsNear(at: nat)
    ensures SkipTrailer(at) >= at
  {
  }
}
