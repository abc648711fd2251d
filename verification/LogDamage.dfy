/** What damage to a log file leaves readable: a record comes back if the file still agrees with the log
    from the start of a block up to the end of the record, whatever the rest of the file holds. */
module LogDamage {
  import opened Coding
  import opened LogFormat
  import opened LogReader
  import opened GroupCommit
  import opened WriteBatches

  /** The pieces are those of the log from its start up to `at`. */
  ghost predicate PiecesUpTo(log: Bytes, extend: Extend, pieces: seq<Piece>, at: nat) {
    && Consecutive(pieces) && AllSound(log, extend, true, pieces) && (forall i :: 0 <= i < |pieces| ==> OfRecord(pieces[i]))
    && Ends(pieces) == at && Begins(pieces) == 0
  }

  /** What a physical record says about itself. */
  lemma WrittenFields(extend: Extend, kind: Byte, payload: Bytes)
    requires Continues(extend) && |payload| < 0x1_0000 && kind < 128
    ensures var r := Physical(extend, kind, payload);
      LengthField(r) == |payload| && KindField(r) == kind && r[HEADER_SIZE..] == payload && ChecksumHolds(extend, r)
  {
    var r, h := Physical(extend, kind, payload), Header(extend, kind, payload);
    HeaderFields(extend, kind, payload);
    assert r[4] == h[4] && r[5] == h[5] && r[6] == h[6];
    assert r[..4] == h[..4] && r[6..HEADER_SIZE + |payload|] == [kind] + payload;
    assert extend(extend(0, [kind]), payload) == extend(0, [kind] + payload);
  }

  /** A physical record as it was written is sound. */
  lemma WrittenIsSound(extend: Extend, log: Bytes, at: nat, kind: Byte, payload: Bytes)
    requires Continues(extend) && PieceAt(extend, log, at, kind, payload)
    ensures SoundAt(log, extend, true, Piece(SkipTrailer(at), kind, payload))
  {
    WrittenFields(extend, kind, payload);
  }

  lemma MorePieces(log: Bytes, extend: Extend, pieces: seq<Piece>, at: nat, p: Piece)
    requires PiecesUpTo(log, extend, pieces, at)
    requires SoundAt(log, extend, true, p) && OfRecord(p) && p.at == SkipTrailer(at)
    ensures PiecesUpTo(log, extend, pieces + [p], p.End())
  {
    SoundMore(log, extend, true, pieces, p);
    assert SkipTrailer(0) == 0;
  }

  /** What has been laid out of a record when `rest` is still to come. */
  ghost predicate Partly(pieces: seq<Piece>, s: nat, begin: bool, rest: Bytes, record: Bytes) {
    if begin then s == |pieces| && rest == record
    else s < |pieces| && Opens(pieces[s..]) && Payloads(pieces[s..]) + rest == record
  }

  /** One more fragment. */
  lemma PartlyMore(pieces: seq<Piece>, s: nat, begin: bool, rest: Bytes, record: Bytes, n: nat, p: Piece)
    requires Partly(pieces, s, begin, rest, record) && n <= |rest|
    requires p.payload == rest[..n] && p.kind == FragmentType(begin, n == |rest|)
    ensures n < |rest| ==> Partly(pieces + [p], s, false, rest[n..], record)
    ensures n == |rest| ==> s < |pieces + [p]| && Spells((pieces + [p])[s..], record)
  {
    assert (pieces + [p])[s..] == pieces[s..] + [p];
    AddPiece(pieces[s..], p);
    MoveOver(Payloads(pieces[s..]), rest, n);
  }

  /** The fragment that comes next in the log is one more piece. */
  lemma NextPiece(extend: Extend, log: Bytes, at: nat, rest: Bytes, begin: bool, end: nat, before: seq<Piece>, s: nat, record: Bytes)
    returns (p: Piece)
    requires Continues(extend) && Laid(extend, log, at, rest, begin, end)
    requires PiecesUpTo(log, extend, before, at) && Partly(before, s, begin, rest, record)
    ensures var n := FragmentSize(at, |rest|);
      && PiecesUpTo(log, extend, before + [p], FragmentEnd(at, |rest|)) && p.at == SkipTrailer(at) && s <= |before|
      && (n == |rest| ==> end == FragmentEnd(at, |rest|) && Spells((before + [p])[s..], record))
      && (n < |rest| ==>
            && Laid(extend, log, FragmentEnd(at, |rest|), rest[n..], false, end)
            && Partly(before + [p], s, false, rest[n..], record))
  {
    var n := FragmentSize(at, |rest|);
    var kind := FragmentType(begin, n == |rest|);
    p := Piece(SkipTrailer(at), kind, rest[..n]);
    FirstPiece(extend, log, at, rest, begin, end);
    WrittenIsSound(extend, log, at, kind, rest[..n]);
    MorePieces(log, extend, before, at, p);
    PartlyMore(before, s, begin, rest, record, n, p);
  }

  /** Only a header at the end of a block takes nothing of the record, and then a block begins. */
  lemma EmptyFragment(at: nat, size: nat)
    requires FragmentSize(at, size) == 0 < size
    ensures at % BLOCK_SIZE == BLOCK_SIZE - HEADER_SIZE && FragmentEnd(at, size) % BLOCK_SIZE != BLOCK_SIZE - HEADER_SIZE
  {
  }

  /** The pieces after `before` start at the first place for one behind `at`. */
  ghost predicate Continue(before: seq<Piece>, pieces: seq<Piece>, at: nat) {
    |before| < |pieces| && before == pieces[..|before|] && pieces[|before|].at == SkipTrailer(at)
  }

  lemma ContinueLess(before: seq<Piece>, p: Piece, pieces: seq<Piece>, to: nat)
    requires Continue(before + [p], pieces, to)
    ensures |before| < |pieces| && before == pieces[..|before|] && pieces[|before|] == p
  {
    assert pieces[..|before| + 1] == before + [p];
    assert pieces[|before|] == pieces[..|before| + 1][|before|] && pieces[..|before|] == pieces[..|before| + 1][..|before|];
  }

  /** A record in the log adds its pieces. */
  lemma {:induction false} LaidPieces(extend: Extend, log: Bytes, at: nat, rest: Bytes, begin: bool, end: nat,
                                      before: seq<Piece>, s: nat, record: Bytes) returns (pieces: seq<Piece>)
    requires Continues(extend) && Laid(extend, log, at, rest, begin, end)
    requires PiecesUpTo(log, extend, before, at) && Partly(before, s, begin, rest, record)
    ensures PiecesUpTo(log, extend, pieces, end) && s < |pieces| && Spells(pieces[s..], record)
    ensures Continue(before, pieces, at)
    decreases |rest|, if at % BLOCK_SIZE == BLOCK_SIZE - HEADER_SIZE then 1 else 0
  {
    var n := FragmentSize(at, |rest|);
    var p := NextPiece(extend, log, at, rest, begin, end, before, s, record);
    if n == |rest| {
      pieces := before + [p];
    } else {
      if n == 0 { EmptyFragment(at, |rest|); }
      pieces := LaidPieces(extend, log, FragmentEnd(at, |rest|), rest[n..], false, end, before + [p], s, record);
      ContinueLess(before, p, pieces, FragmentEnd(at, |rest|));
    }
  }

  /** The pieces of the first `i + 1` records of a log. */
  lemma {:induction false} LogPieces(extend: Extend, log: Bytes, records: seq<Bytes>, ends: seq<nat>, i: nat) returns (pieces: seq<Piece>, s: nat)
    requires Continues(extend) && Holds(extend, log, records, ends) && i < |records|
    ensures PiecesUpTo(log, extend, pieces, ends[i + 1]) && s < |pieces| && Spells(pieces[s..], records[i])
    ensures pieces[s].at == SkipTrailer(ends[i])
  {
    var before: seq<Piece> := [];
    if i > 0 {
      var s0;
      before, s0 := LogPieces(extend, log, records, ends, i - 1);
    }
    assert RecordAt(extend, log, records, ends, i);
    s := |before|;
    pieces := LaidPieces(extend, log, ends[i], records[i], true, ends[i + 1], before, s, records[i]);
  }

  /** No piece of a log crosses the start of a block, so that a block starts with a piece. */
  lemma {:induction false} BlockStartsWithPiece(log: Bytes, extend: Extend, pieces: seq<Piece>, at: nat, lo: nat, j: nat) returns (k: nat)
    requires PiecesUpTo(log, extend, pieces, at) && j < |pieces| && lo % BLOCK_SIZE == 0 && lo <= pieces[j].at
    ensures k <= j && pieces[k].at == lo
    decreases j
  {
    if lo == pieces[j].at {
      return j;
    }
    assert j > 0;
    assert SoundAt(log, extend, true, pieces[j - 1]);
    assert pieces[j].at == SkipTrailer(pieces[j - 1].End());
    var q := pieces[j - 1].at;
    assert SkipTrailer(q) == q && pieces[j - 1].End() <= BlockEnd(q);
    if q < lo {
      NearBlockEnd(q, pieces[j - 1].End(), lo);
    }
    k := BlockStartsWithPiece(log, extend, pieces, at, lo, j - 1);
  }

  /** The file still holds what the log does between two positions. */
  ghost predicate Agree(file: Bytes, log: Bytes, lo: nat, hi: nat) {
    lo <= hi <= |file| && hi <= |log| && file[lo..hi] == log[lo..hi]
  }

  lemma SoundInBoth(file: Bytes, log: Bytes, extend: Extend, checksum: bool, lo: nat, hi: nat, p: Piece)
    requires Agree(file, log, lo, hi) && SoundAt(log, extend, true, p) && lo <= p.at && p.End() <= hi
    ensures SoundAt(file, extend, checksum, p)
  {
    SliceOfSlice(file, lo, hi, p.at, p.End());
    SliceOfSlice(log, lo, hi, p.at, p.End());
  }

  lemma SliceOfSlice(b: Bytes, lo: nat, hi: nat, from: nat, to: nat)
    requires lo <= from <= to <= hi <= |b|
    ensures b[from..to] == b[lo..hi][from - lo..to - lo]
  {
    var x, y := b[from..to], b[lo..hi][from - lo..to - lo];
    assert |x| == |y| == to - from;
    forall i | 0 <= i < |x| ensures x[i] == y[i] {
      assert x[i] == b[from + i];
      assert y[i] == b[lo..hi][from - lo + i] == b[lo + (from - lo + i)];
    }
  }

  /** A record is part of a run of the file if the file agrees with the log from the start of a block
      up to the end of the record. */
  lemma AgreeingBlocksAreRun(file: Bytes, extend: Extend, checksum: bool, log: Bytes, records: seq<Bytes>, ends: seq<nat>, i: nat, lo: nat)
    returns (run: seq<Piece>, s: nat)
    requires Continues(extend) && Holds(extend, log, records, ends) && i < |records|
    requires lo % BLOCK_SIZE == 0 && lo <= SkipTrailer(ends[i]) && Agree(file, log, lo, ends[i + 1])
    ensures Run(file, extend, checksum, run, s) && Spells(run[s..], records[i])
    ensures Begins(run[s..]) == SkipTrailer(ends[i]) && Ends(run) == ends[i + 1]
  {
    var pieces, t := LogPieces(extend, log, records, ends, i);
    var k := BlockStartsWithPiece(log, extend, pieces, ends[i + 1], lo, t);
    run, s := pieces[k..], t - k;
    forall m | 0 <= m < |run| ensures SoundAt(file, extend, checksum, run[m]) && OfRecord(run[m]) {
      assert run[m] == pieces[k + m];
      RunAscends(pieces, k, k + m);
      RunAscends(pieces, k + m, |pieces| - 1);
      SoundInBoth(file, log, extend, checksum, lo, ends[i + 1], run[m]);
    }
    forall m | 0 < m < |run| ensures run[m].at == SkipTrailer(run[m - 1].End()) {
      assert run[m] == pieces[k + m] && run[m - 1] == pieces[k + m - 1];
    }
    assert run[s..] == pieces[t..];
  }

  /** Whatever has happened to other blocks, what reading the file yields has such a record in it. */
  lemma RecordComesBack(file: Bytes, extend: Extend, checksum: bool, log: Bytes, records: seq<Bytes>, ends: seq<nat>, i: nat, lo: nat,
                        found: seq<Bytes>, origins: seq<seq<Piece>>, stop: nat) returns (m: nat)
    requires Continues(extend) && Holds(extend, log, records, ends) && i < |records|
    requires lo % BLOCK_SIZE == 0 && lo <= SkipTrailer(ends[i]) && Agree(file, log, lo, ends[i + 1])
    requires AllGenuine(file, extend, checksum, found, origins) && Complete(file, extend, checksum, origins, stop) && ends[i + 1] <= stop
    ensures m < |found| && found[m] == records[i]
    ensures Begins(origins[m]) == SkipTrailer(ends[i]) && Ends(origins[m]) == ends[i + 1]
  {
    var run, s := AgreeingBlocksAreRun(file, extend, checksum, log, records, ends, i, lo);
    assert run[s..] in origins;
    m :| 0 <= m < |origins| && origins[m] == run[s..];
    assert Genuine(file, extend, checksum, origins[m], found[m]);
    assert run[s..][|run| - s - 1] == run[|run| - 1];
  }

  lemma {:induction false} OriginsAscend(file: Bytes, extend: Extend, checksum: bool, found: seq<Bytes>, origins: seq<seq<Piece>>, m: nat, n: nat)
    requires AllGenuine(file, extend, checksum, found, origins) && m < n < |found|
    ensures Ends(origins[m]) <= Begins(origins[n])
    decreases n
  {
    assert Ends(origins[n - 1]) <= Begins(origins[n]);
    if m < n - 1 {
      OriginsAscend(file, extend, checksum, found, origins, m, n - 1);
      assert Genuine(file, extend, checksum, origins[n - 1], found[n - 1]);
      RunAscends(origins[n - 1], 0, |origins[n - 1]| - 1);
    }
  }

  /** Such records come back in the order of the log. */
  lemma RecordsComeBackInOrder(file: Bytes, extend: Extend, checksum: bool, log: Bytes, records: seq<Bytes>, ends: seq<nat>,
                               i: nat, lo: nat, j: nat, lo': nat, found: seq<Bytes>, origins: seq<seq<Piece>>, stop: nat)
    returns (m: nat, n: nat)
    requires Continues(extend) && Holds(extend, log, records, ends) && i < j < |records|
    requires lo % BLOCK_SIZE == 0 && lo <= SkipTrailer(ends[i]) && Agree(file, log, lo, ends[i + 1])
    requires lo' % BLOCK_SIZE == 0 && lo' <= SkipTrailer(ends[j]) && Agree(file, log, lo', ends[j + 1])
    requires AllGenuine(file, extend, checksum, found, origins) && Complete(file, extend, checksum, origins, stop) && ends[j + 1] <= stop
    ensures m < n < |found| && found[m] == records[i] && found[n] == records[j]
  {
    EndsAscend(extend, log, records, ends, i, j);
    EndsAscend(extend, log, records, ends, i + 1, j);
    EndsAscend(extend, log, records, ends, i, i + 1);
    EndsAscend(extend, log, records, ends, j, j + 1);
    m := RecordComesBack(file, extend, checksum, log, records, ends, i, lo, found, origins, stop);
    n := RecordComesBack(file, extend, checksum, log, records, ends, j, lo', found, origins, stop);
    if n < m {
      OriginsAscend(file, extend, checksum, found, origins, n, m);
    }
  }

  lemma {:induction false} EndsAscend(extend: Extend, log: Bytes, records: seq<Bytes>, ends: seq<nat>, i: nat, j: nat)
    requires Holds(extend, log, records, ends) && i <= j <= |records|
    ensures ends[i] <= ends[j] && (i < j ==> ends[i] + HEADER_SIZE <= ends[j])
    decreases j
  {
    if i < j {
      EndsAscend(extend, log, records, ends, i, j - 1);
      assert RecordAt(extend, log, records, ends, j - 1);
      LaidBounds(extend, log, ends[j - 1], records[j - 1], true, ends[j]);
    }
  }

  lemma {:induction false} HandedOn(records: seq<Bytes>, m: nat) returns (before: seq<(nat, Update)>, after: seq<(nat, Update)>)
    requires m < |records|
    ensures AllInserted(records) == before + Inserted(records[m]) + after
    decreases |records|
  {
    var n := |records| - 1;
    if m == n {
      before, after := AllInserted(records[..n]), [];
    } else {
      var rest;
      before, rest := HandedOn(records[..n], m);
      after := rest + Inserted(records[n]);
    }
  }

  /** The updates of a committed group whose record the damage has spared are recovered, all of them
      and with the sequence numbers they were given. */
  lemma SparedGroupIsRecovered(file: Bytes, extend: Extend, log: Bytes, records: seq<Bytes>, ends: seq<nat>, base: nat, groups: seq<seq<Update>>,
                               i: nat, lo: nat, handled: seq<Bytes>, origins: seq<seq<Piece>>, stop: nat)
    returns (before: seq<(nat, Update)>, after: seq<(nat, Update)>)
    requires Continues(extend) && Holds(extend, log, records, ends) && LogsGroups(records, base, groups) && i < |groups|
    requires lo % BLOCK_SIZE == 0 && lo <= SkipTrailer(ends[i]) && Agree(file, log, lo, ends[i + 1])
    requires AllGenuine(file, extend, true, handled, origins) && Complete(file, extend, true, origins, stop) && ends[i + 1] <= stop
    ensures AllInserted(handled) == before + Numbered(FirstOf(base, groups, i), groups[i]) + after
  {
    var m := RecordComesBack(file, extend, true, log, records, ends, i, lo, handled, origins, stop);
    before, after := HandedOn(handled, m);
    assert GroupRecord(records, base, groups, i);
    BatchRoundTrip(records[i], FirstOf(base, groups, i), groups[i]);
  }
}
