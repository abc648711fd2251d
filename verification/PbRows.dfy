/**
 Messages as rows of records, in any order and from any encoder: what a row of well-formed records
 means for the struct, and that this is what decoding makes of its bytes.
 */
module PbRows {
  import opened Wrappers
  import opened Coding
  import opened PbMessages
  import opened PbWire
  import opened PbStreams
  import opened PbDecode
  import opened PbMessageDecode

  /** A record of a field that the descriptor has, or of one that it does not have. */
  datatype Rec = Known(k: nat, p: Piece) | Unknown(tag: nat, wire: nat, payload: Bytes)

  /** One item, the items of a packed array, or a submessage, itself a row of records. */
  datatype Piece = Lone(x: Value) | Run(xs: seq<Value>) | Sub(row: Row)

  type Row = seq<Rec>

  // ---------------------------------------------------------------- the bytes

  function PieceWire(f: Field, p: Piece): (w: nat)
    ensures w <= WT_32BIT
  {
    if p.Lone? then WireType(f.kind) else WT_STRING
  }

  function PieceBytes(f: Field, p: Piece): Bytes
    decreases p
  {
    match p
    case Lone(x) => EncValue(f.kind, x)
    case Run(xs) => LengthPrefixed(EncItems(f.kind, xs, 0))
    case Sub(row) => if f.kind.KMessage? then LengthPrefixed(RowBytes(f.kind.fields, row, 0)) else []
  }

  function RecBytes(fields: Fields, r: Rec): Bytes
    decreases r
  {
    match r
    case Known(k, p) => if k < |fields| then TagBytes(PieceWire(fields[k], p), fields[k].tag) + PieceBytes(fields[k], p) else []
    case Unknown(tag, wire, payload) => TagBytes(wire, tag) + payload
  }

  function RowBytes(fields: Fields, row: Row, i: nat): Bytes
    decreases row, |row| - i
  {
    if i >= |row| then [] else RecBytes(fields, row[i]) + RowBytes(fields, row, i + 1)
  }

  /** The bytes are one payload of the wire type. */
  ghost predicate IsPayload(wire: nat, payload: Bytes) {
    if wire == WT_VARINT then payload != [] && payload[|payload| - 1] < 128 && AllContinue(payload, |payload| - 1)
    else if wire == WT_64BIT then |payload| == 8
    else if wire == WT_STRING then exists x {:trigger LengthPrefixed(x)} :: |x| < TWO_32 && payload == LengthPrefixed(x)
    else wire == WT_32BIT && |payload| == 4
  }

  ghost predicate GoodPiece(f: Field, p: Piece)
    decreases p
  {
    match p
    case Lone(x) => !f.kind.KMessage? && TypedValue(f.kind, x)
    case Run(xs) =>
      && IsArray(f) && Packable(f.kind) && |EncItems(f.kind, xs, 0)| < TWO_32
      && forall j {:trigger xs[j]} :: 0 <= j < |xs| ==> TypedValue(f.kind, xs[j])
    case Sub(row) => f.kind.KMessage? && GoodRow(f.kind.fields, row) && |RowBytes(f.kind.fields, row, 0)| < TWO_32
  }

  ghost predicate GoodRec(fields: Fields, r: Rec)
    decreases r
  {
    match r
    case Known(k, p) => k < |fields| && GoodPiece(fields[k], p)
    case Unknown(tag, wire, payload) =>
      1 <= tag < 0x2000_0000 && IsPayload(wire, payload) && forall k {:trigger fields[k]} :: 0 <= k < |fields| ==> fields[k].tag != tag
  }

  /** A row of well-formed records of a message whose tags differ. */
  ghost predicate GoodRow(fields: Fields, row: Row)
    decreases row
  {
    GoodTags(fields) && forall i {:trigger GoodRec(fields, row[i])} :: 0 <= i < |row| ==> GoodRec(fields, row[i])
  }

  // ---------------------------------------------------------------- the meaning

  /** The array after items `j` and on. */
  function StoreAll(f: Field, s: Slot, size: nat, xs: seq<Value>, j: nat): Slot
    decreases |xs| - j
  {
    if j >= |xs| then s else StoreAll(f, StoreItem(f, s, size, xs[j]), size + 1, xs, j + 1)
  }

  /** The slot with a piece in it, and the number of items it has then; none if there is no room. */
  ghost function Deposit(f: Field, s: Slot, size: nat, p: Piece): Option<(Slot, nat)>
    decreases p
  {
    match p
    case Lone(x) =>
      if (IsArray(f) && size >= Capacity(f)) || !Receivable(f.kind, x) then None
      else Some((StoreItem(f, s, size, x), if IsArray(f) then size + 1 else size))
    case Run(xs) =>
      if xs != [] && size + |xs| > Capacity(f) then None else Some((StoreAll(f, s, size, xs, 0), size + |xs|))
    case Sub(row) =>
      if (IsArray(f) && size >= Capacity(f)) || !f.kind.KMessage? then None
      else
        var r := Meaning(f.kind.fields, SlotsOf(StartOf(f, s)), row);
        if r.None? then None else Some((StoreItem(f, s, size, Msg(r.value)), if IsArray(f) then size + 1 else size))
  }

  ghost function Take(fields: Fields, st: Progressing, r: Rec): Option<Progressing>
    decreases r
  {
    match r
    case Unknown(_, _, _) => Some(st)
    case Known(k, p) =>
      var entered := Enter(fields, st, k);
      if entered.None? then None
      else
        var d := Deposit(fields[k], entered.value.slots[k], SizeSoFar(fields[k], entered.value.slots[k], entered.value.fixedSize), p);
        if d.None? then None else Some(Leave(fields, entered.value, k, d.value.0, d.value.1))
  }

  /** After the records from `i` on. */
  ghost function TakeAll(fields: Fields, st: Progressing, row: Row, i: nat): Option<Progressing>
    decreases row, |row| - i
  {
    if i >= |row| then Some(st)
    else
      var r := Take(fields, st, row[i]);
      if r.None? then None else TakeAll(fields, r.value, row, i + 1)
  }

  /** The struct that a row makes of one in memory. */
  ghost function Meaning(fields: Fields, slots: seq<Slot>, row: Row): Option<seq<Slot>>
    decreases row, |row| + 1
  {
    var r := TakeAll(fields, Start(slots), row, 0);
    if r.None? || !Complete(fields, r.value) then None else Some(r.value.slots)
  }

  // ---------------------------------------------------------------- decoding follows the meaning

  ghost function Followed<T>(r: Option<T>, after: Bytes): Option<(T, Bytes)> {
    if r.None? then None else Some((r.value, after))
  }

  ghost function FollowedSlot(r: Option<(Slot, nat)>, after: Bytes): Option<(Slot, nat, Bytes)> {
    if r.None? then None else Some((r.value.0, r.value.1, after))
  }

  lemma LoneArrives(kind: Kind, v0: Value, x: Value, after: Bytes)
    requires !kind.KMessage? && TypedValue(kind, x)
    ensures ValueAt(kind, v0, EncValue(kind, x) + after) == if Receivable(kind, x) then Some((x, after)) else None
  {
    if Packable(kind) {
      assert x == Num(x.n);
      NumberArrives(kind, x.n, after);
    } else {
      assert x == Text(x.b);
      TextArrives(kind, x.b, after);
    }
  }

  lemma ItemArrives(f: Field, s: Slot, size: nat, x: Value, after: Bytes)
    requires Packable(f.kind) && TypedValue(f.kind, x)
    ensures RunAt(f, s, size, EncValue(f.kind, x) + after) ==
      if size >= Capacity(f) then None else RunAt(f, StoreItem(f, s, size, x), size + 1, after)
  {
    assert x == Num(x.n);
    NumberArrives(f.kind, x.n, after);
    assert EncValue(f.kind, x) + after != [];
  }

  /** The items of a packed array from `j` on come out, if there is room. */
  ghost function RunOf(f: Field, s: Slot, size: nat, xs: seq<Value>, j: nat): Option<(Slot, nat)>
    requires j <= |xs|
  {
    if j < |xs| && size + |xs| - j > Capacity(f) then None else Some((StoreAll(f, s, size, xs, j), size + |xs| - j))
  }

  lemma RunOfNext(f: Field, s: Slot, size: nat, xs: seq<Value>, j: nat)
    requires j < |xs|
    ensures RunOf(f, s, size, xs, j) == if size >= Capacity(f) then None else RunOf(f, StoreItem(f, s, size, xs[j]), size + 1, xs, j + 1)
  {
  }

  lemma {:induction false} RunArrives(f: Field, s: Slot, size: nat, xs: seq<Value>, j: nat)
    requires Packable(f.kind) && j <= |xs| && forall i {:trigger xs[i]} :: 0 <= i < |xs| ==> TypedValue(f.kind, xs[i])
    ensures RunAt(f, s, size, EncItems(f.kind, xs, j)) == RunOf(f, s, size, xs, j)
    decreases |xs| - j
  {
    if j < |xs| {
      RunOfNext(f, s, size, xs, j);
      ItemArrives(f, s, size, xs[j], EncItems(f.kind, xs, j + 1));
      RunArrives(f, StoreItem(f, s, size, xs[j]), size + 1, xs, j + 1);
    }
  }

  lemma LonePieceArrives(f: Field, s: Slot, size: nat, x: Value, after: Bytes)
    requires !f.kind.KMessage? && TypedValue(f.kind, x)
    ensures ItemAt(f, WireType(f.kind), s, size, EncValue(f.kind, x) + after) == FollowedSlot(Deposit(f, s, size, Lone(x)), after)
  {
    LoneArrives(f.kind, StartOf(f, s), x, after);
  }

  lemma RunPieceArrives(f: Field, s: Slot, size: nat, xs: seq<Value>, after: Bytes)
    requires GoodPiece(f, Run(xs))
    ensures ItemAt(f, WT_STRING, s, size, LengthPrefixed(EncItems(f.kind, xs, 0)) + after) == FollowedSlot(Deposit(f, s, size, Run(xs)), after)
  {
    var b := LengthPrefixed(EncItems(f.kind, xs, 0)) + after;
    WrittenDelimited(EncItems(f.kind, xs, 0), after);
    RunArrives(f, s, size, xs, 0);
    assert ReadDelimited(b) == Some((EncItems(f.kind, xs, 0), after));
    assert Deposit(f, s, size, Run(xs)) == RunOf(f, s, size, xs, 0);
  }

  lemma {:induction false} SubmessageArrives(fields: Fields, slots: seq<Slot>, row: Row, after: Bytes)
    requires GoodRow(fields, row) && |RowBytes(fields, row, 0)| < TWO_32
    ensures SubmessageAt(fields, slots, LengthPrefixed(RowBytes(fields, row, 0)) + after) == Followed(Meaning(fields, slots, row), after)
    decreases row, |row| + 2
  {
    WrittenDelimited(RowBytes(fields, row, 0), after);
    MeaningArrives(fields, slots, row, []);
    assert RowBytes(fields, row, 0) + [] == RowBytes(fields, row, 0);
  }

  lemma {:induction false} PieceArrives(f: Field, s: Slot, size: nat, p: Piece, after: Bytes)
    requires GoodPiece(f, p)
    ensures ItemAt(f, PieceWire(f, p), s, size, PieceBytes(f, p) + after) == FollowedSlot(Deposit(f, s, size, p), after)
    decreases p, 0
  {
    match p
    case Lone(x) =>
      LonePieceArrives(f, s, size, x, after);
    case Run(xs) =>
      RunPieceArrives(f, s, size, xs, after);
    case Sub(row) =>
      SubmessageArrives(f.kind.fields, SlotsOf(StartOf(f, s)), row, after);
  }

  lemma PayloadIsSkipped(wire: nat, payload: Bytes, after: Bytes)
    requires IsPayload(wire, payload)
    ensures AfterField(wire, payload + after) == Some(after)
  {
    var b := payload + after;
    if wire == WT_VARINT {
      NumberEnds(b, |b|, |payload| - 1);
    } else if wire == WT_STRING {
      var x :| |x| < TWO_32 && payload == LengthPrefixed(x);
      WrittenDelimited(x, after);
    }
    assert b[|payload|..] == after;
  }

  /** The tag of a record, as it is read. */
  lemma TagArrives(wire: nat, tag: nat, rest: Bytes)
    requires 1 <= tag < 0x2000_0000 && wire <= WT_32BIT
    ensures var b := TagBytes(wire, tag) + rest; var v := tag * 8 + wire;
      Varint32(b) == Some((v, |TagBytes(wire, tag)|)) && b[|TagBytes(wire, tag)|..] == rest && v != 0 && v / 8 == tag && v % 8 == wire
  {
    Written32(tag * 8 + wire, rest);
  }

  lemma KnownArrives(fields: Fields, st: Progressing, k: nat, p: Piece, rest: Bytes)
    requires GoodTags(fields) && k < |fields| && GoodPiece(fields[k], p)
    ensures FieldAt(fields, st, fields[k].tag, PieceWire(fields[k], p), PieceBytes(fields[k], p) + rest) == Followed(Take(fields, st, Known(k, p)), rest)
    decreases p, 1
  {
    FoundIsTheField(fields, st.pos, fields[k].tag, k);
    var entered := Enter(fields, st, k);
    if entered.Some? {
      PieceArrives(fields[k], entered.value.slots[k], SizeSoFar(fields[k], entered.value.slots[k], entered.value.fixedSize), p, rest);
    }
  }

  lemma UnknownArrives(fields: Fields, st: Progressing, tag: nat, wire: nat, payload: Bytes, rest: Bytes)
    requires GoodRec(fields, Unknown(tag, wire, payload))
    ensures FieldAt(fields, st, tag, wire, payload + rest) == Some((st, rest))
  {
    PayloadIsSkipped(wire, payload, rest);
    assert Found(fields, st.pos, tag).None?;
  }

  lemma FieldArrives(fields: Fields, st: Progressing, tag: nat, wire: nat, body: Bytes, next: Option<Progressing>, rest: Bytes)
    requires 1 <= tag < 0x2000_0000 && wire <= WT_32BIT && FieldAt(fields, st, tag, wire, body + rest) == Followed(next, rest)
    ensures FieldsAt(fields, st, (TagBytes(wire, tag) + body) + rest) == if next.None? then None else FieldsAt(fields, next.value, rest)
  {
    TagArrives(wire, tag, body + rest);
    Associative(TagBytes(wire, tag), body, rest);
  }

  lemma RecArrives(fields: Fields, st: Progressing, r: Rec, rest: Bytes)
    requires GoodTags(fields) && GoodRec(fields, r)
    ensures FieldsAt(fields, st, RecBytes(fields, r) + rest) ==
      var next := Take(fields, st, r); if next.None? then None else FieldsAt(fields, next.value, rest)
    decreases r
  {
    match r
    case Known(k, p) =>
      KnownArrives(fields, st, k, p, rest);
      FieldArrives(fields, st, fields[k].tag, PieceWire(fields[k], p), PieceBytes(fields[k], p), Take(fields, st, r), rest);
    case Unknown(tag, wire, payload) =>
      UnknownArrives(fields, st, tag, wire, payload, rest);
      FieldArrives(fields, st, tag, wire, payload, Some(st), rest);
  }

  /** What may end a message: nothing, or a zero in the place of a tag and whatever follows. */
  ghost predicate Ends(end: Bytes, left: Bytes) {
    if end == [] then left == [] else end[0] == 0 && left == end[1..]
  }

  lemma EndArrives(fields: Fields, st: Progressing, end: Bytes, left: Bytes)
    requires Ends(end, left)
    ensures FieldsAt(fields, st, end) == Some((st, left))
  {
    if end != [] {
      NumberEnds(end, |end|, 0);
      assert Low(end, 0) == 0;
      assert Varint32(end) == Some((0, 1));
    }
  }

  lemma {:induction false} RowArrives(fields: Fields, st: Progressing, row: Row, i: nat, end: Bytes, left: Bytes)
    requires GoodRow(fields, row) && Ends(end, left)
    ensures FieldsAt(fields, st, RowBytes(fields, row, i) + end) == Followed(TakeAll(fields, st, row, i), left)
    decreases row, |row| - i
  {
    if i >= |row| {
      assert RowBytes(fields, row, i) + end == end;
      EndArrives(fields, st, end, left);
    } else {
      assert GoodRec(fields, row[i]);
      var rest := RowBytes(fields, row, i + 1);
      Associative(RecBytes(fields, row[i]), rest, end);
      RecArrives(fields, st, row[i], rest + end);
      var next := Take(fields, st, row[i]);
      if next.Some? { RowArrives(fields, next.value, row, i + 1, end, left); }
    }
  }

  /** Decoding a row of well-formed records: it succeeds exactly if the row has a meaning for the
      struct in memory, and gives that.  A zero in the place of a tag ends the message. */
  lemma {:induction false} MeaningArrives(fields: Fields, slots: seq<Slot>, row: Row, end: Bytes)
    requires GoodRow(fields, row) && (end == [] || end[0] == 0)
    ensures MessageAt(fields, slots, RowBytes(fields, row, 0) + end) == Followed(Meaning(fields, slots, row), if end == [] then [] else end[1..])
    decreases row, |row| + 1
  {
    RowArrives(fields, Start(slots), row, 0, end, if end == [] then [] else end[1..]);
  }

  // ---------------------------------------------------------------- nothing is left out

  lemma {:induction false} StoredTail(f: Field, s: Slot, size: nat, x: Value, xs: seq<Value>, j: nat)
    requires j <= |xs|
    ensures StoreAll(f, s, size, [x] + xs, j + 1) == StoreAll(f, s, size, xs, j)
    decreases |xs| - j
  {
    if j < |xs| { StoredTail(f, StoreItem(f, s, size, xs[j]), size + 1, x, xs, j + 1); }
  }

  ghost predicate OneItem(kind: Kind, xs: seq<Value>, rests: seq<Bytes>, j: nat)
    requires j < |xs| && |rests| == |xs| + 1
  {
    xs[j].Num? && NumberAt(kind, rests[j]) == Some((xs[j].n, rests[j + 1]))
  }

  /** Each item takes the bytes from where the one before it stopped. */
  ghost predicate ItemByItem(kind: Kind, xs: seq<Value>, rests: seq<Bytes>) {
    && |rests| == |xs| + 1
    && forall j {:trigger OneItem(kind, xs, rests, j)} :: 0 <= j < |xs| ==> OneItem(kind, xs, rests, j)
  }

  lemma OneItemMore(kind: Kind, b: Bytes, n: int, ys: seq<Value>, more: seq<Bytes>)
    requires ItemByItem(kind, ys, more) && NumberAt(kind, b) == Some((n, more[0]))
    ensures ItemByItem(kind, [Num(n)] + ys, [b] + more)
  {
    var xs, rests := [Num(n)] + ys, [b] + more;
    forall j | 0 <= j < |xs| ensures OneItem(kind, xs, rests, j) {
      if j > 0 {
        assert OneItem(kind, ys, more, j - 1);
        assert xs[j] == ys[j - 1] && rests[j] == more[j - 1] && rests[j + 1] == more[j];
      }
    }
  }

  lemma RunNext(f: Field, s: Slot, size: nat, b: Bytes)
    requires b != [] && RunAt(f, s, size, b).Some?
    ensures size < Capacity(f) && NumberAt(f.kind, b).Some?
    ensures var (n, rest) := NumberAt(f.kind, b).value; RunAt(f, s, size, b) == RunAt(f, StoreItem(f, s, size, Num(n)), size + 1, rest)
  {
  }

  /** Whatever bytes a packed array accepts are items one right behind the other, up to the last byte,
      and these are what it stores. */
  lemma {:induction false} RunIsWhole(f: Field, s: Slot, size: nat, b: Bytes) returns (xs: seq<Value>, rests: seq<Bytes>)
    requires RunAt(f, s, size, b).Some?
    ensures ItemByItem(f.kind, xs, rests) && rests[0] == b && rests[|xs|] == []
    ensures RunAt(f, s, size, b) == RunOf(f, s, size, xs, 0)
    decreases |b|
  {
    if b == [] {
      return [], [[]];
    }
    RunNext(f, s, size, b);
    var (n, rest) := NumberAt(f.kind, b).value;
    var s' := StoreItem(f, s, size, Num(n));
    var ys, more := RunIsWhole(f, s', size + 1, rest);
    xs, rests := [Num(n)] + ys, [b] + more;
    OneItemMore(f.kind, b, n, ys, more);
    RunOfNext(f, s, size, xs, 0);
    RunOfTail(f, s', size + 1, Num(n), ys);
    assert rests[|xs|] == more[|ys|];
  }

  lemma RunOfTail(f: Field, s: Slot, size: nat, x: Value, ys: seq<Value>)
    ensures RunOf(f, s, size, [x] + ys, 1) == RunOf(f, s, size, ys, 0)
  {
    StoredTail(f, s, size, x, ys, 0);
  }

  ghost predicate OneField(fields: Fields, states: seq<Progressing>, rests: seq<Bytes>, j: nat)
    requires j + 1 < |rests| == |states|
  {
    && Varint32(rests[j]).Some? && Varint32(rests[j]).value.0 != 0
    && var (v, n) := Varint32(rests[j]).value;
       FieldAt(fields, states[j], v / 8, v % 8, rests[j][n..]) == Some((states[j + 1], rests[j + 1]))
  }

  /** Each field takes the bytes from where the one before it stopped. */
  ghost predicate FieldByField(fields: Fields, states: seq<Progressing>, rests: seq<Bytes>) {
    && |states| == |rests| > 0
    && forall j {:trigger OneField(fields, states, rests, j)} :: 0 <= j < |rests| - 1 ==> OneField(fields, states, rests, j)
  }

  lemma OneFieldMore(fields: Fields, st: Progressing, b: Bytes, later: seq<Progressing>, more: seq<Bytes>)
    requires FieldByField(fields, later, more) && OneField(fields, [st, later[0]], [b, more[0]], 0)
    ensures FieldByField(fields, [st] + later, [b] + more)
  {
    var states, rests := [st] + later, [b] + more;
    forall j | 0 <= j < |rests| - 1 ensures OneField(fields, states, rests, j) {
      if j > 0 {
        assert OneField(fields, later, more, j - 1);
        assert states[j] == later[j - 1] && states[j + 1] == later[j] && rests[j] == more[j - 1] && rests[j + 1] == more[j];
      }
    }
  }

  /** Nothing is left, or a zero in the place of a tag and what follows it. */
  ghost predicate Ended(last: Bytes, left: Bytes) {
    if last == [] then left == []
    else Varint32(last).Some? && Varint32(last).value.0 == 0 && left == last[Varint32(last).value.1..]
  }

  lemma MessageEnds(fields: Fields, st: Progressing, b: Bytes)
    requires b != [] ==> Varint32(b).Some? && Varint32(b).value.0 == 0
    ensures FieldsAt(fields, st, b).Some? && FieldsAt(fields, st, b).value.0 == st && Ended(b, FieldsAt(fields, st, b).value.1)
  {
  }

  lemma MessageNext(fields: Fields, st: Progressing, b: Bytes) returns (next: Progressing, rest: Bytes)
    requires b != [] && FieldsAt(fields, st, b).Some? && Varint32(b).Some? && Varint32(b).value.0 != 0
    ensures FieldsAt(fields, st, b) == FieldsAt(fields, next, rest) && |rest| < |b| && OneField(fields, [st, next], [b, rest], 0)
  {
    var (v, n) := Varint32(b).value;
    var r := FieldAt(fields, st, v / 8, v % 8, b[n..]).value;
    next, rest := r.0, r.1;
  }

  /** A message that is accepted is fields one right behind the other, each taken as the one its tag
      names, up to the last byte or a zero in the place of a tag. */
  lemma {:induction false} MessageIsWhole(fields: Fields, st: Progressing, b: Bytes) returns (states: seq<Progressing>, rests: seq<Bytes>)
    requires FieldsAt(fields, st, b).Some?
    ensures FieldByField(fields, states, rests) && states[0] == st && rests[0] == b
    ensures var (end, left) := FieldsAt(fields, st, b).value; end == states[|states| - 1] && Ended(rests[|rests| - 1], left)
    decreases |b|
  {
    if b == [] || Varint32(b).value.0 == 0 {
      MessageEnds(fields, st, b);
      return [st], [b];
    }
    var next, rest := MessageNext(fields, st, b);
    var later, more := MessageIsWhole(fields, next, rest);
    states, rests := [st] + later, [b] + more;
    OneFieldMore(fields, st, b, later, more);
  }

  // ---------------------------------------------------------------- rows with the same meaning

  lemma {:induction false} TakeTail(fields: Fields, st: Progressing, a: Row, b: Row, j: nat)
    requires j <= |b|
    ensures TakeAll(fields, st, a + b, |a| + j) == TakeAll(fields, st, b, j)
    decreases |b| - j
  {
    if j < |b| {
      var next := Take(fields, st, b[j]);
      if next.Some? { TakeTail(fields, next.value, a, b, j + 1); }
    }
  }

  lemma {:induction false} TakeConcat(fields: Fields, st: Progressing, a: Row, b: Row, i: nat)
    requires i <= |a|
    ensures var mid := TakeAll(fields, st, a, i);
      TakeAll(fields, st, a + b, i) == if mid.None? then None else TakeAll(fields, mid.value, b, 0)
    decreases |a| - i
  {
    if i == |a| {
      TakeTail(fields, st, a, b, 0);
    } else {
      var next := Take(fields, st, a[i]);
      if next.Some? { TakeConcat(fields, next.value, a, b, i + 1); }
    }
  }

  /** Two stretches of records that do the same in the place where they stand. */
  lemma SameMiddle(fields: Fields, slots: seq<Slot>, a: Row, m: Row, n: Row, b: Row)
    requires var mid := TakeAll(fields, Start(slots), a, 0);
      mid.Some? ==> TakeAll(fields, mid.value, m, 0) == TakeAll(fields, mid.value, n, 0)
    ensures Meaning(fields, slots, a + (m + b)) == Meaning(fields, slots, a + (n + b))
  {
    TakeConcat(fields, Start(slots), a, m + b, 0);
    TakeConcat(fields, Start(slots), a, n + b, 0);
    var mid := TakeAll(fields, Start(slots), a, 0);
    if mid.Some? {
      TakeConcat(fields, mid.value, m, b, 0);
      TakeConcat(fields, mid.value, n, b, 0);
    }
  }

  lemma GoodRowOf(fields: Fields, a: Row, m: Row, b: Row)
    requires GoodRow(fields, a) && GoodRow(fields, m) && GoodRow(fields, b)
    ensures GoodRow(fields, a + (m + b))
  {
    forall i | 0 <= i < |a + (m + b)| ensures GoodRec(fields, (a + (m + b))[i]) {
      assert (a + (m + b))[i] == if i < |a| then a[i] else if i < |a| + |m| then m[i - |a|] else b[i - |a| - |m|];
    }
  }

  /** A field that the descriptor does not have takes exactly its own bytes, wherever it stands. */
  lemma UnknownFieldIsPassedOver(fields: Fields, slots: seq<Slot>, a: Row, r: Rec, b: Row)
    requires GoodRow(fields, a) && GoodRow(fields, b) && GoodRec(fields, r) && r.Unknown?
    ensures MessageAt(fields, slots, RowBytes(fields, a + ([r] + b), 0)) == MessageAt(fields, slots, RowBytes(fields, a + b, 0))
  {
    var none: Row := [];
    assert GoodRow(fields, [r]) && GoodRow(fields, none);
    GoodRowOf(fields, a, [r], b);
    GoodRowOf(fields, a, none, b);
    assert none + b == b;
    forall st: Progressing ensures TakeAll(fields, st, [r], 0) == TakeAll(fields, st, none, 0) {
      assert TakeAll(fields, st, [r], 0) == TakeAll(fields, st, [r], 1);
    }
    SameMiddle(fields, slots, a, [r], none, b);
    MeaningArrives(fields, slots, a + ([r] + b), []);
    MeaningArrives(fields, slots, a + b, []);
    assert RowBytes(fields, a + ([r] + b), 0) + [] == RowBytes(fields, a + ([r] + b), 0);
    assert RowBytes(fields, a + b, 0) + [] == RowBytes(fields, a + b, 0);
  }

  /** The items of an array, each in a record of its own. */
  function Lones(k: nat, xs: seq<Value>): (row: Row)
    ensures |row| == |xs| && forall j {:trigger row[j]} :: 0 <= j < |xs| ==> row[j] == Known(k, Lone(xs[j]))
  {
    seq(|xs|, j requires 0 <= j < |xs| => Known(k, Lone(xs[j])))
  }

  /** Field `k` is an array that has been met. */
  ghost predicate Met(fields: Fields, st: Progressing, k: nat) {
    && k < |fields| == |st.slots| && IsArray(fields[k]) && Packable(fields[k].kind) && st.slots[k].Many?
    && st.pos == k && (fields[k].rule.FixedCount? ==> st.fixedField == Some(k))
  }

  lemma LoneTaken(fields: Fields, st: Progressing, k: nat, x: Value)
    requires Met(fields, st, k) && x.Num?
    ensures var f, s := fields[k], st.slots[k];
      var size := SizeSoFar(f, s, st.fixedSize);
      var next := Take(fields, st, Known(k, Lone(x)));
      if size >= Capacity(f) then next.None?
      else
        && next == Some(Leave(fields, st, k, StoreItem(f, s, size, x), size + 1))
        && Met(fields, next.value, k) && SizeSoFar(f, next.value.slots[k], next.value.fixedSize) == size + 1
  {
    assert Enter(fields, st, k) == Some(st);
  }

  lemma {:induction false} LonesTaken(fields: Fields, st: Progressing, k: nat, xs: seq<Value>, j: nat)
    requires Met(fields, st, k) && j <= |xs| && forall i {:trigger xs[i]} :: 0 <= i < |xs| ==> xs[i].Num?
    ensures var f, s := fields[k], st.slots[k];
      var r := RunOf(f, s, SizeSoFar(f, s, st.fixedSize), xs, j);
      TakeAll(fields, st, Lones(k, xs), j) == if r.None? then None else Some(Leave(fields, st, k, r.value.0, r.value.1))
    decreases |xs| - j
  {
    var f, s := fields[k], st.slots[k];
    if j == |xs| {
      assert st.slots[k := s] == st.slots;
    } else {
      LoneTaken(fields, st, k, xs[j]);
      var next := Take(fields, st, Known(k, Lone(xs[j])));
      if next.Some? {
        LonesTaken(fields, next.value, k, xs, j + 1);
        var end := StoreAll(f, s, SizeSoFar(f, s, st.fixedSize), xs, j);
        assert st.slots[k := StoreItem(f, s, SizeSoFar(f, s, st.fixedSize), xs[j])][k := end] == st.slots[k := end];
      }
    }
  }

  /** Items that come alone do what they do in a run. */
  lemma LonesLikeRun(fields: Fields, st: Progressing, k: nat, xs: seq<Value>)
    requires k < |fields| == |st.slots| && IsArray(fields[k]) && Packable(fields[k].kind) && st.slots[k].Many?
    requires xs != [] && forall i {:trigger xs[i]} :: 0 <= i < |xs| ==> xs[i].Num?
    ensures TakeAll(fields, st, Lones(k, xs), 0) == Take(fields, st, Known(k, Run(xs)))
  {
    var entered := Enter(fields, st, k);
    if entered.Some? {
      assert Met(fields, entered.value, k) && Enter(fields, entered.value, k) == entered;
      assert Take(fields, entered.value, Lones(k, xs)[0]) == Take(fields, st, Lones(k, xs)[0]);
      LonesTaken(fields, entered.value, k, xs, 0);
    } else {
      assert Take(fields, st, Lones(k, xs)[0]).None?;
    }
  }

  lemma ManyStays(fields: Fields, st: Progressing, r: Rec, k: nat)
    requires GoodRec(fields, r) && k < |fields| == |st.slots| && IsArray(fields[k]) && st.slots[k].Many?
    ensures var next := Take(fields, st, r); next.Some? ==> |next.value.slots| == |fields| && next.value.slots[k].Many?
  {
    if r.Known? && r.k == k && r.p.Run? {
      var entered := Enter(fields, st, k);
      if entered.Some? { ManyStored(fields[k], st.slots[k], SizeSoFar(fields[k], st.slots[k], entered.value.fixedSize), r.p.xs, 0); }
    }
  }

  lemma {:induction false} ManyStored(f: Field, s: Slot, size: nat, xs: seq<Value>, j: nat)
    requires s.Many?
    ensures StoreAll(f, s, size, xs, j).Many?
    decreases |xs| - j
  {
    if j < |xs| { ManyStored(f, StoreItem(f, s, size, xs[j]), size + 1, xs, j + 1); }
  }

  lemma {:induction false} ManyStaysOver(fields: Fields, st: Progressing, row: Row, i: nat, k: nat)
    requires GoodRow(fields, row) && k < |fields| == |st.slots| && IsArray(fields[k]) && st.slots[k].Many?
    ensures var end := TakeAll(fields, st, row, i); end.Some? ==> |end.value.slots| == |fields| && end.value.slots[k].Many?
    decreases |row| - i
  {
    if i < |row| {
      assert GoodRec(fields, row[i]);
      ManyStays(fields, st, row[i], k);
      var next := Take(fields, st, row[i]);
      if next.Some? { ManyStaysOver(fields, next.value, row, i + 1, k); }
    }
  }

  /** The items of a packable array may come in a run or each in a record of its own, anywhere in a
      message: decoding makes the same of both. */
  lemma PackedOrNot(fields: Fields, slots: seq<Slot>, a: Row, k: nat, xs: seq<Value>, b: Row)
    requires GoodRow(fields, a) && GoodRow(fields, b) && k < |fields| == |slots| && slots[k].Many? && xs != []
    requires GoodRec(fields, Known(k, Run(xs)))
    ensures var lone, packed := a + (Lones(k, xs) + b), a + ([Known(k, Run(xs))] + b);
      MessageAt(fields, slots, RowBytes(fields, lone, 0)) == MessageAt(fields, slots, RowBytes(fields, packed, 0))
  {
    var run := [Known(k, Run(xs))];
    GoodRowOf(fields, a, Lones(k, xs), b);
    GoodRowOf(fields, a, run, b);
    ManyStaysOver(fields, Start(slots), a, 0, k);
    var mid := TakeAll(fields, Start(slots), a, 0);
    if mid.Some? {
      LonesLikeRun(fields, mid.value, k, xs);
      var next := Take(fields, mid.value, run[0]);
      assert TakeAll(fields, mid.value, run, 0) == if next.None? then None else TakeAll(fields, next.value, run, 1);
    }
    SameMiddle(fields, slots, a, Lones(k, xs), run, b);
    MeaningArrives(fields, slots, a + (Lones(k, xs) + b), []);
    MeaningArrives(fields, slots, a + (run + b), []);
    assert RowBytes(fields, a + (Lones(k, xs) + b), 0) + [] == RowBytes(fields, a + (Lones(k, xs) + b), 0);
    assert RowBytes(fields, a + (run + b), 0) + [] == RowBytes(fields, a + (run + b), 0);
  }
}
