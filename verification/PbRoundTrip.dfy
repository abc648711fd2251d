/** Encoding followed by decoding: an encoded struct is a row of records, and what the row means is the
    struct again (nanopb/pb_encode.c and nanopb/pb_decode.c). */
module PbRoundTrip {
  import opened Wrappers
  import opened Coding
  import opened PbMessages
  import opened PbWire
  import opened PbStreams
  import opened PbDecode
  import opened PbMessageDecode
  import opened PbRows
  import opened PbFieldwise
  import opened PbEncode

  ghost predicate Whole(fields: Fields, w: seq<Slot>) {
    TypedSlots(fields, w) && ReceivableMessage(fields, w)
  }

  // ---------------------------------------------------------------- the row of a struct

  function PieceOf(kind: Kind, v: Value): Piece
    decreases kind, 0
  {
    if kind.KMessage? && v.Msg? then Sub(RowOf(kind.fields, v.slots, 0)) else Lone(v)
  }

  function ItemRecs(kind: Kind, k: nat, items: seq<Value>): (row: Row)
    ensures |row| == |items| && forall j {:trigger row[j]} :: 0 <= j < |items| ==> row[j] == Known(k, PieceOf(kind, items[j]))
    decreases kind, 1
  {
    seq(|items|, j requires 0 <= j < |items| => Known(k, PieceOf(kind, items[j])))
  }

  function FieldRecs(f: Field, k: nat, s: Slot): Row
    decreases f
  {
    match (f.rule, s)
    case (Required, One(v)) => [Known(k, PieceOf(f.kind, v))]
    case (Singular, One(v)) => if IsDefaultValue(f.kind, v) then [] else [Known(k, PieceOf(f.kind, v))]
    case (_, Maybe(has, v)) => if has then [Known(k, PieceOf(f.kind, v))] else []
    case (_, Many(items)) =>
      if items == [] then [] else if Packable(f.kind) then [Known(k, Run(items))] else ItemRecs(f.kind, k, items)
    case _ => []
  }

  /** The records of a struct from field `k` on, in descriptor order. */
  function RowOf(fields: Fields, slots: seq<Slot>, k: nat): Row
    decreases fields, |fields| - k
  {
    if k >= |fields| || k >= |slots| then [] else FieldRecs(fields[k], k, slots[k]) + RowOf(fields, slots, k + 1)
  }

  // ---------------------------------------------------------------- its bytes

  lemma {:induction false} SameTailBytes(fields: Fields, row: Row, i: nat, other: Row, j: nat)
    requires i <= |row| && j <= |other| && row[i..] == other[j..]
    ensures RowBytes(fields, row, i) == RowBytes(fields, other, j)
    decreases |row| - i
  {
    assert |row| - i == |other| - j;
    if i < |row| {
      assert row[i] == row[i..][0] && other[j] == other[j..][0];
      assert row[i + 1..] == row[i..][1..] && other[j + 1..] == other[j..][1..];
      SameTailBytes(fields, row, i + 1, other, j + 1);
    }
  }

  lemma {:induction false} RowBytesConcat(fields: Fields, a: Row, b: Row, i: nat)
    requires i <= |a|
    ensures RowBytes(fields, a + b, i) == RowBytes(fields, a, i) + RowBytes(fields, b, 0)
    decreases |a| - i
  {
    if i == |a| {
      assert (a + b)[i..] == b == b[0..];
      SameTailBytes(fields, a + b, i, b, 0);
    } else {
      RowBytesConcat(fields, a, b, i + 1);
      Associative(RecBytes(fields, a[i]), RowBytes(fields, a, i + 1), RowBytes(fields, b, 0));
    }
  }

  lemma {:induction false} PieceOfBytes(f: Field, v: Value)
    requires TypedValue(f.kind, v)
    ensures PieceBytes(f, PieceOf(f.kind, v)) == EncValue(f.kind, v) && PieceWire(f, PieceOf(f.kind, v)) == WireType(f.kind)
    decreases f.kind
  {
    if f.kind.KMessage? {
      RowOfBytes(f.kind.fields, v.slots, 0);
      assert v == Msg(v.slots);
    }
  }

  lemma OneRecBytes(fields: Fields, r: Rec)
    ensures RowBytes(fields, [r], 0) == RecBytes(fields, r)
  {
    assert RowBytes(fields, [r], 1) == [];
  }

  lemma {:induction false} ItemRecsBytes(fields: Fields, k: nat, items: seq<Value>, j: nat)
    requires k < |fields| && j <= |items| && forall i {:trigger items[i]} :: 0 <= i < |items| ==> TypedValue(fields[k].kind, items[i])
    ensures RowBytes(fields, ItemRecs(fields[k].kind, k, items), j) == EncTagged(fields[k], items, j)
    decreases fields[k], 0, |items| - j
  {
    if j < |items| {
      PieceOfBytes(fields[k], items[j]);
      ItemRecsBytes(fields, k, items, j + 1);
    }
  }

  lemma {:induction false} FieldRecsBytes(fields: Fields, k: nat, s: Slot)
    requires k < |fields| && TypedSlot(fields[k], s)
    ensures RowBytes(fields, FieldRecs(fields[k], k, s), 0) == EncSlot(fields[k], s)
    decreases fields[k], 1
  {
    var f := fields[k];
    match s
    case One(v) =>
      PieceOfBytes(f, v);
      OneRecBytes(fields, Known(k, PieceOf(f.kind, v)));
    case Maybe(has, v) =>
      if has {
        PieceOfBytes(f, v);
        OneRecBytes(fields, Known(k, PieceOf(f.kind, v)));
      }
    case Many(items) =>
      if Packable(f.kind) { OneRecBytes(fields, Known(k, Run(items))); } else { ItemRecsBytes(fields, k, items, 0); }
  }

  /** An encoded struct is the bytes of its row. */
  lemma {:induction false} RowOfBytes(fields: Fields, slots: seq<Slot>, k: nat)
    requires TypedSlots(fields, slots)
    ensures RowBytes(fields, RowOf(fields, slots, k), 0) == EncFrom(fields, slots, k)
    decreases fields, |fields| - k
  {
    if k < |fields| {
      assert TypedSlot(fields[k], slots[k]);
      FieldRecsBytes(fields, k, slots[k]);
      RowOfBytes(fields, slots, k + 1);
      RowBytesConcat(fields, FieldRecs(fields[k], k, slots[k]), RowOf(fields, slots, k + 1), 0);
    }
  }

  // ---------------------------------------------------------------- its records are well formed

  lemma {:induction false} PieceOfIsGood(f: Field, v: Value)
    requires TypedValue(f.kind, v) && Receivable(f.kind, v)
    ensures GoodPiece(f, PieceOf(f.kind, v))
    decreases f.kind
  {
    if f.kind.KMessage? {
      assert v == Msg(v.slots);
      RowOfIsGood(f.kind.fields, v.slots, 0);
      RowOfBytes(f.kind.fields, v.slots, 0);
    }
  }

  lemma {:induction false} FieldRecsAreGood(fields: Fields, k: nat, s: Slot)
    requires GoodTags(fields) && k < |fields| && TypedSlot(fields[k], s) && ReceivableSlot(fields[k], s)
    ensures GoodRow(fields, FieldRecs(fields[k], k, s))
    decreases fields[k]
  {
    var f := fields[k];
    match s
    case One(v) => if !(f.rule.Singular? && IsDefaultValue(f.kind, v)) { PieceOfIsGood(f, v); }
    case Maybe(has, v) => if has { PieceOfIsGood(f, v); }
    case Many(items) =>
      if !Packable(f.kind) {
        forall j | 0 <= j < |items| ensures GoodRec(fields, Known(k, PieceOf(f.kind, items[j]))) {
          PieceOfIsGood(f, items[j]);
        }
      }
  }

  lemma JoinGood(fields: Fields, a: Row, b: Row)
    requires GoodRow(fields, a) && GoodRow(fields, b)
    ensures GoodRow(fields, a + b)
  {
    forall i | 0 <= i < |a + b| ensures GoodRec(fields, (a + b)[i]) {
      assert (a + b)[i] == if i < |a| then a[i] else b[i - |a|];
    }
  }

  lemma {:induction false} RowOfIsGood(fields: Fields, w: seq<Slot>, k: nat)
    requires Whole(fields, w)
    ensures GoodRow(fields, RowOf(fields, w, k))
    decreases fields, |fields| - k
  {
    if k < |fields| {
      assert TypedSlot(fields[k], w[k]) && ReceivableSlot(fields[k], w[k]);
      FieldRecsAreGood(fields, k, w[k]);
      RowOfIsGood(fields, w, k + 1);
      JoinGood(fields, FieldRecs(fields[k], k, w[k]), RowOf(fields, w, k + 1));
    }
  }

  // ---------------------------------------------------------------- what they mean

  /** The records are of other fields, and none of the union of field `k` if that is selected. */
  ghost predicate Foreign(fields: Fields, w: seq<Slot>, k: nat, row: Row)
    requires k < |fields| == |w|
  {
    forall m {:trigger row[m]} :: 0 <= m < |row| ==>
      row[m].Known? && row[m].k < |fields| && row[m].k != k && !(SameUnion(fields[row[m].k], fields[k]) && w[k].Maybe? && w[k].has)
  }

  lemma {:induction false} ForeignSteps(fields: Fields, w: seq<Slot>, k: nat, x: Filling, row: Row, i: nat) returns (y: Filling)
    requires k < |fields| == |w| && Foreign(fields, w, k, row) && Full(fields[k], x)
    requires x.s.Maybe? && x.s.has ==> w[k].Maybe? && w[k].has
    ensures Steps(fields, k, x, row, i) == Some(y) && y.s == x.s && Full(fields[k], y)
    ensures x == Filling(x.s, false, 0) ==> y == x
    decreases |row| - i
  {
    y := x;
    if i < |row| {
      var z := Step(fields, k, x, row[i]);
      y := ForeignSteps(fields, w, k, z.value, row, i + 1);
    }
  }

  lemma FieldRecsAreForeign(fields: Fields, w: seq<Slot>, k: nat, j: nat)
    requires Whole(fields, w) && k < |fields| && j < |fields| && j != k
    ensures Foreign(fields, w, k, FieldRecs(fields[j], j, w[j]))
  {
    assert TypedSlot(fields[j], w[j]);
  }

  /** The records before those of field `k`. */
  function RowUpTo(fields: Fields, slots: seq<Slot>, k: nat): Row
    requires k <= |fields| == |slots|
  {
    if k == 0 then [] else RowUpTo(fields, slots, k - 1) + FieldRecs(fields[k - 1], k - 1, slots[k - 1])
  }

  lemma {:induction false} RowSplits(fields: Fields, w: seq<Slot>, k: nat)
    requires k <= |fields| == |w|
    ensures RowOf(fields, w, 0) == RowUpTo(fields, w, k) + RowOf(fields, w, k)
    decreases k
  {
    if k > 0 {
      RowSplits(fields, w, k - 1);
      Associative(RowUpTo(fields, w, k - 1), FieldRecs(fields[k - 1], k - 1, w[k - 1]), RowOf(fields, w, k));
    }
  }

  lemma {:induction false} BeforeIsForeign(fields: Fields, w: seq<Slot>, k: nat, j: nat)
    requires Whole(fields, w) && j <= k < |fields|
    ensures Foreign(fields, w, k, RowUpTo(fields, w, j))
    decreases j
  {
    if j > 0 {
      BeforeIsForeign(fields, w, k, j - 1);
      FieldRecsAreForeign(fields, w, k, j - 1);
    }
  }

  lemma {:induction false} BehindIsForeign(fields: Fields, w: seq<Slot>, k: nat, j: nat)
    requires Whole(fields, w) && k < |fields| && k < j
    ensures Foreign(fields, w, k, RowOf(fields, w, j))
    decreases |fields| - j
  {
    if j < |fields| {
      BehindIsForeign(fields, w, k, j + 1);
      FieldRecsAreForeign(fields, w, k, j);
    }
  }

  /** A value that is sent alone brings itself, without what does not matter. */
  lemma {:induction false} PieceOfBrings(f: Field, v: Value)
    requires TypedValue(f.kind, v) && Receivable(f.kind, v)
    ensures PieceItems(f, PieceOf(f.kind, v)) == Some([Canon(f.kind, v)])
    decreases f.kind
  {
    if f.kind.KMessage? {
      assert v == Msg(v.slots);
      RowOfMeans(f.kind.fields, v.slots);
    }
  }

  lemma {:induction false} ItemRecsBring(fields: Fields, k: nat, items: seq<Value>, j: nat)
    requires k < |fields| && j <= |items|
    requires forall i {:trigger items[i]} :: 0 <= i < |items| ==> TypedValue(fields[k].kind, items[i]) && Receivable(fields[k].kind, items[i])
    ensures ItemsFrom(fields, k, ItemRecs(fields[k].kind, k, items), j) == Some(CanonItems(fields[k].kind, items)[j..])
    decreases fields[k], 0, |items| - j
  {
    var canon := CanonItems(fields[k].kind, items);
    if j < |items| {
      PieceOfBrings(fields[k], items[j]);
      ItemRecsBring(fields, k, items, j + 1);
      assert canon[j..] == [canon[j]] + canon[j + 1..];
    } else {
      assert canon[j..] == [];
    }
  }

  /** The records of an array bring its items. */
  lemma {:induction false} FieldRecsBring(fields: Fields, k: nat, items: seq<Value>)
    requires k < |fields| && IsArray(fields[k]) && TypedSlot(fields[k], Many(items)) && ReceivableSlot(fields[k], Many(items))
    ensures ItemsFrom(fields, k, FieldRecs(fields[k], k, Many(items)), 0) == Some(CanonItems(fields[k].kind, items))
    decreases fields[k], 1
  {
    var f, canon := fields[k], CanonItems(fields[k].kind, items);
    if items == [] {
      assert canon == [];
    } else if Packable(f.kind) {
      var row := [Known(k, Run(items))];
      assert canon == items;
      assert ItemsFrom(fields, k, row, 1) == Some([]) && items + [] == items;
    } else {
      ItemRecsBring(fields, k, items, 0);
      assert canon[0..] == canon;
    }
  }

  /** The records of a field make its slot what it was, without what does not matter. */
  lemma {:induction false} OwnSteps(fields: Fields, k: nat, s: Slot) returns (z: Filling)
    requires GoodTags(fields) && k < |fields| && TypedSlot(fields[k], s) && ReceivableSlot(fields[k], s)
    ensures Steps(fields, k, Filling(DefaultSlot(fields[k]), false, 0), FieldRecs(fields[k], k, s), 0) == Some(z)
    ensures z.s == CanonSlot(fields[k], s) && Full(fields[k], z)
    decreases fields[k], 3
  {
    var f, row := fields[k], FieldRecs(fields[k], k, s);
    var x := Filling(DefaultSlot(f), false, 0);
    FieldRecsAreGood(fields, k, s);
    if s.Many? {
      z := ArraySteps(fields, k, s.items);
    } else if row == [] {
      z := x;
    } else {
      PieceOfBrings(f, s.v);
      PieceOfStands(f, s.v);
      z := Own(f, x, PieceOf(f.kind, s.v)).value;
      assert Steps(fields, k, x, row, 0) == Steps(fields, k, z, row, 1);
    }
  }

  lemma PieceOfStands(f: Field, v: Value)
    requires !IsArray(f) && TypedValue(f.kind, v) && Receivable(f.kind, v) && PieceItems(f, PieceOf(f.kind, v)) == Some([Canon(f.kind, v)])
    ensures var x := Filling(DefaultSlot(f), false, 0); var s := if DefaultSlot(f).Maybe? then Maybe(true, Canon(f.kind, v)) else One(Canon(f.kind, v));
      Own(f, x, PieceOf(f.kind, v)) == Some(Filling(s, false, 0))
  {
    if f.kind.KMessage? {
      assert v == Msg(v.slots) && DefaultValue(f.kind) == Msg(DefaultSlots(f.kind.fields));
    }
  }

  lemma {:induction false} ArraySteps(fields: Fields, k: nat, items: seq<Value>) returns (z: Filling)
    requires GoodTags(fields) && k < |fields| && IsArray(fields[k]) && TypedSlot(fields[k], Many(items)) && ReceivableSlot(fields[k], Many(items))
    requires GoodRow(fields, FieldRecs(fields[k], k, Many(items)))
    ensures Steps(fields, k, Filling(DefaultSlot(fields[k]), false, 0), FieldRecs(fields[k], k, Many(items)), 0) == Some(z)
    ensures z.s == Many(CanonItems(fields[k].kind, items)) && Full(fields[k], z)
    decreases fields[k], 2
  {
    var f, row, canon := fields[k], FieldRecs(fields[k], k, Many(items)), CanonItems(fields[k].kind, items);
    FieldRecsBring(fields, k, items);
    if f.rule.Repeated? {
      RepeatedSteps(fields, k, [], row, 0);
      assert [] + canon == canon;
      z := Filling(Many(canon), false, 0);
    } else {
      var empty := seq(f.rule.count, _ => DefaultValue(f.kind));
      FixedSteps(fields, k, empty, false, 0, row, 0);
      assert empty[..0] + canon + empty[|canon|..] == canon;
      z := Filling(Many(canon), Comes(row, 0, k), |canon|);
    }
  }

  /** Each field comes out of the row of a struct as it went in. */
  lemma {:induction false} FieldOfRow(fields: Fields, w: seq<Slot>, k: nat)
    requires Whole(fields, w) && k < |fields|
    ensures FieldMeans(fields, k, DefaultSlot(fields[k]), RowOf(fields, w, 0)) == Some(CanonSlot(fields[k], w[k]))
    decreases fields, 0
  {
    assert TypedSlot(fields[k], w[k]) && ReceivableSlot(fields[k], w[k]);
    var x := Filling(DefaultSlot(fields[k]), false, 0);
    var a, own, b := RowUpTo(fields, w, k), FieldRecs(fields[k], k, w[k]), RowOf(fields, w, k + 1);
    RowSplits(fields, w, k);
    BeforeIsForeign(fields, w, k, k);
    BehindIsForeign(fields, w, k, k + 1);
    var y := ForeignSteps(fields, w, k, x, a, 0);
    var z := OwnSteps(fields, k, w[k]);
    var end := ForeignSteps(fields, w, k, z, b, 0);
    StepsConcat(fields, k, x, a, own + b, 0);
    StepsConcat(fields, k, x, own, b, 0);
  }

  lemma RequiredAreSent(fields: Fields, w: seq<Slot>)
    requires Whole(fields, w)
    ensures RequiredCome(fields, RowOf(fields, w, 0))
  {
    var row := RowOf(fields, w, 0);
    forall k {:trigger fields[k]} | 0 <= k < |fields| && fields[k].rule.Required? ensures Comes(row, 0, k) {
      assert TypedSlot(fields[k], w[k]);
      RowSplits(fields, w, k);
      assert row[|RowUpTo(fields, w, k)|] == Known(k, PieceOf(fields[k].kind, w[k].v));
    }
  }

  /** The row of a struct means the struct. */
  lemma {:induction false} RowOfMeans(fields: Fields, w: seq<Slot>)
    requires Whole(fields, w)
    ensures Meaning(fields, DefaultSlots(fields), RowOf(fields, w, 0)) == Some(CanonSlots(fields, w))
    decreases fields, 1
  {
    var row := RowOf(fields, w, 0);
    RowOfIsGood(fields, w, 0);
    RequiredAreSent(fields, w);
    var bad := RowMeansFieldByField(fields, DefaultSlots(fields), row);
    forall k | 0 <= k < |fields| ensures FieldMeans(fields, k, DefaultSlots(fields)[k], row) == Some(CanonSlots(fields, w)[k]) {
      FieldOfRow(fields, w, k);
    }
    var m := Meaning(fields, DefaultSlots(fields), row);
    assert m.Some?;
    forall k | 0 <= k < |fields| ensures m.value[k] == CanonSlots(fields, w)[k] {
      assert Meant(fields, DefaultSlots(fields), row, m.value, k);
    }
    assert m.value == CanonSlots(fields, w);
  }

  /** What was encoded decodes to the struct. */
  lemma EncodedIsDecoded(fields: Fields, w: seq<Slot>)
    requires Whole(fields, w)
    ensures MessageAt(fields, DefaultSlots(fields), EncFrom(fields, w, 0)) == Some((CanonSlots(fields, w), []))
  {
    RowOfIsGood(fields, w, 0);
    RowOfMeans(fields, w);
    RowOfBytes(fields, w, 0);
    MeaningArrives(fields, DefaultSlots(fields), RowOf(fields, w, 0), []);
    assert EncFrom(fields, w, 0) + [] == EncFrom(fields, w, 0);
  }

  // ---------------------------------------------------------------- there and back

  /** What the decoder takes the encoder accepts. */
  lemma {:induction false} ReceivableIsSendable(kind: Kind, v: Value)
    requires TypedValue(kind, v) && Receivable(kind, v)
    ensures Sendable(kind, v)
    decreases kind, 0
  {
    if kind.KMessage? {
      MessageIsSendable(kind.fields, v.slots, 0);
    }
  }

  lemma {:induction false} MessageIsSendable(fields: Fields, slots: seq<Slot>, k: nat)
    requires Whole(fields, slots) && k <= |fields|
    ensures SendableFrom(fields, slots, k)
    decreases fields, |fields| - k
  {
    if k < |fields| {
      assert TypedSlot(fields[k], slots[k]) && ReceivableSlot(fields[k], slots[k]);
      SlotIsSendable(fields[k], slots[k]);
      MessageIsSendable(fields, slots, k + 1);
    }
  }

  lemma {:induction false} SlotIsSendable(f: Field, s: Slot)
    requires TypedSlot(f, s) && ReceivableSlot(f, s)
    ensures SendableSlot(f, s)
    decreases f
  {
    match s
    case One(v) => if !(f.rule.Singular? && IsDefaultValue(f.kind, v)) { ReceivableIsSendable(f.kind, v); }
    case Maybe(has, v) => if has { ReceivableIsSendable(f.kind, v); }
    case Many(items) => ItemsAreSendable(f.kind, items, 0);
  }

  lemma {:induction false} ItemsAreSendable(kind: Kind, items: seq<Value>, j: nat)
    requires forall i {:trigger items[i]} :: 0 <= i < |items| ==> Delivers(kind, items[i])
    ensures AllSendable(kind, items, j)
    decreases kind, 1, |items| - j
  {
    if j < |items| {
      ReceivableIsSendable(kind, items[j]);
      ItemsAreSendable(kind, items, j + 1);
    }
  }

  /** pb_decode into fresh memory. */
  method Decode(buffer: Bytes, fields: Fields) returns (ok: bool, slots: seq<Slot>)
    ensures var r := MessageAt(fields, DefaultSlots(fields), buffer); (ok <==> r.Some?) && (ok ==> slots == r.value.0)
    ensures ok ==> FitsSlots(fields, slots)
    ensures ok && SizedFields(fields) ==> TypedSlots(fields, slots)
  {
    var stream := new IStream(buffer, 0, |buffer|);
    assert buffer[0..|buffer|] == buffer;
    DefaultSlotsFit(fields);
    ok, slots := DecodeMessage(stream, fields, DefaultSlots(fields));
    if ok && SizedFields(fields) { FittingSlotsAreTyped(fields, slots); }
  }

  /** Decoding what pb_encode wrote restores the struct, up to the contents of what is absent. */
  method EncodeThenDecode(fields: Fields, slots: seq<Slot>, maxSize: nat) returns (encoded: bool, decoded: bool, result: seq<Slot>)
    requires TypedSlots(fields, slots) && |EncFrom(fields, slots, 0)| < TWO_64
    ensures encoded <==> SendableFrom(fields, slots, 0) && |EncFrom(fields, slots, 0)| <= maxSize
    ensures encoded && ReceivableMessage(fields, slots) ==> decoded && SameSlots(fields, slots, result)
    ensures ReceivableMessage(fields, slots) && |EncFrom(fields, slots, 0)| <= maxSize ==> encoded
  {
    var stream := new OStream([], maxSize);
    encoded := EncodeMessage(stream, fields, slots);
    decoded, result := false, [];
    if encoded {
      assert [] + EncFrom(fields, slots, 0) == EncFrom(fields, slots, 0);
      decoded, result := Decode(stream.data, fields);
    }
    if ReceivableMessage(fields, slots) {
      MessageIsSendable(fields, slots, 0);
      EncodedIsDecoded(fields, slots);
      forall i | 0 <= i < |fields| ensures SameSlot(fields[i], slots[i], CanonSlots(fields, slots)[i]) {
        assert TypedSlot(fields[i], slots[i]);
        CanonSlotIsSame(fields[i], slots[i]);
      }
    }
  }
}
