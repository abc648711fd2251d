/** Decoding whole messages, on any bytes (nanopb/pb_decode.c). */
module PbMessageDecode {
  import opened Wrappers
  import opened Coding
  import opened PbMessages
  import opened PbWire
  import opened PbStreams
  import opened PbDecode

  const MAX_REQUIRED_FIELDS: nat := 64

  // ---------------------------------------------------------------- descriptors

  /** required_field_index: how many required fields come before field `i`. */
  function RequiredBefore(fields: Fields, i: nat): (n: nat)
    requires i <= |fields|
    ensures n <= i
  {
    if i == 0 then 0 else RequiredBefore(fields, i - 1) + if fields[i - 1].rule.Required? then 1 else 0
  }

  lemma {:induction false} EveryIndexIsUsed(fields: Fields, n: nat, r: nat) returns (i: nat)
    requires n <= |fields| && r < RequiredBefore(fields, n)
    ensures i < n && fields[i].rule.Required? && RequiredBefore(fields, i) == r
  {
    if r < RequiredBefore(fields, n - 1) {
      i := EveryIndexIsUsed(fields, n - 1, r);
    } else {
      i := n - 1;
    }
  }

  /** The first field with a tag, from some position on. */
  function FirstFrom(fields: Fields, i: nat, tag: nat): (r: Option<nat>)
    ensures r.Some? ==> i <= r.value < |fields| && fields[r.value].tag == tag
    ensures forall k {:trigger fields[k]} :: i <= k < (if r.Some? then r.value else |fields|) ==> fields[k].tag != tag
    decreases |fields| - i
  {
    if i >= |fields| then None else if fields[i].tag == tag then Some(i) else FirstFrom(fields, i + 1, tag)
  }

  /** The field a search finds that starts somewhere and wraps around. */
  function Found(fields: Fields, start: nat, tag: nat): Option<nat> {
    var behind := FirstFrom(fields, start, tag);
    if behind.Some? then behind else FirstFrom(fields, 0, tag)
  }

  /** Where tags differ, the search finds the one field that has the tag, wherever it starts. */
  lemma FoundIsTheField(fields: Fields, start: nat, tag: nat, k: nat)
    requires GoodTags(fields) && k < |fields| && fields[k].tag == tag
    ensures Found(fields, start, tag) == Some(k)
  {
  }

  /** pb_field_iter_find: from the current position around to where it started. */
  method FindField(fields: Fields, start: nat, tag: nat) returns (found: bool, pos: nat)
    requires start < |fields|
    ensures pos < |fields| && (found <==> Found(fields, start, tag).Some?)
    ensures pos == if found then Found(fields, start, tag).value else start
  {
    pos := start;
    var wrapped := false;
    while true
      invariant pos < |fields| && (wrapped ==> pos < start) && (!wrapped ==> start <= pos)
      invariant forall i {:trigger fields[i]} :: start <= i < (if wrapped then |fields| else pos) ==> fields[i].tag != tag
      invariant wrapped ==> forall i {:trigger fields[i]} :: 0 <= i < pos ==> fields[i].tag != tag
      decreases !wrapped, (if wrapped then start else |fields|) - pos
    {
      if fields[pos].tag == tag {
        return true, pos;
      }
      pos := pos + 1;
      if pos == |fields| {
        pos := 0;
        wrapped := true;
      }
      if pos == start {
        return false, pos;
      }
    }
  }

  // ---------------------------------------------------------------- what a field makes of bytes

  function Capacity(f: Field): nat {
    match f.rule
    case Repeated(max) => max
    case FixedCount(count) => count
    case _ => 1
  }

  /** The slot with one more item of an array, the one after the first `size`, or with a new value. */
  function StoreItem(f: Field, s: Slot, size: nat, v: Value): Slot {
    match s
    case Many(items) =>
      if f.rule.FixedCount? then (if size < |items| then Many(items[size := v]) else s) else Many(items + [v])
    case Maybe(_, _) => Maybe(true, v)
    case One(_) => One(v)
  }

  /** What is in memory before an item is decoded: the entries of an array start from their
      defaults. */
  function StartOf(f: Field, s: Slot): Value {
    if IsArray(f) || s.Many? then DefaultValue(f.kind) else s.v
  }

  function SlotsOf(v: Value): seq<Slot> {
    if v.Msg? then v.slots else []
  }

  /** The value at the front of some bytes, decoded into what is in memory, and what follows it. */
  function ValueAt(kind: Kind, v0: Value, b: Bytes): (r: Option<(Value, Bytes)>)
    ensures r.Some? ==> |r.value.1| < |b|
    decreases kind, 0
  {
    if kind.KMessage? then
      var r := SubmessageAt(kind.fields, SlotsOf(v0), b);
      if r.None? then None else Some((Msg(r.value.0), r.value.1))
    else if Packable(kind) then
      var r := NumberAt(kind, b);
      if r.None? then None else Some((Num(r.value.0), r.value.1))
    else
      var r := TextAt(kind, b);
      if r.None? then None else Some((Text(r.value.0), r.value.1))
  }

  /** The struct that a message with its length in front makes of one in memory, and what follows. */
  function SubmessageAt(fields: Fields, slots: seq<Slot>, b: Bytes): (r: Option<(seq<Slot>, Bytes)>)
    ensures r.Some? ==> |r.value.1| < |b|
    decreases fields, 3
  {
    var delimited := ReadDelimited(b);
    if delimited.None? then None
    else
      var r := MessageAt(fields, slots, delimited.value.0);
      if r.None? then None else Some((r.value.0, delimited.value.1))
  }

  /** The array after the items that the bytes hold, and how many it has then; all bytes must go. */
  function RunAt(f: Field, s: Slot, size: nat, b: Bytes): Option<(Slot, nat)>
    decreases |b|
  {
    if b == [] then Some((s, size))
    else if size >= Capacity(f) then None
    else
      var r := NumberAt(f.kind, b);
      if r.None? then None else RunAt(f, StoreItem(f, s, size, Num(r.value.0)), size + 1, r.value.1)
  }

  /** The slot after what the bytes hold for it, the number of items it has then if it is an array,
      and what follows. */
  function ItemAt(f: Field, wire: nat, s: Slot, size: nat, b: Bytes): (r: Option<(Slot, nat, Bytes)>)
    ensures r.Some? ==> |r.value.2| < |b|
    decreases f
  {
    if IsArray(f) && wire == WT_STRING && Packable(f.kind) then
      var delimited := ReadDelimited(b);
      if delimited.None? then None
      else
        var r := RunAt(f, s, size, delimited.value.0);
        if r.None? then None else Some((r.value.0, r.value.1, delimited.value.1))
    else if IsArray(f) && size >= Capacity(f) then None
    else
      var r := ValueAt(f.kind, StartOf(f, s), b);
      if r.None? then None else Some((StoreItem(f, s, size, r.value.0), if IsArray(f) then size + 1 else size, r.value.1))
  }

  /** Selecting a field of a union deselects the others. */
  function SelectMember(fields: Fields, slots: seq<Slot>, k: nat): (r: seq<Slot>)
    requires k < |fields| == |slots|
    ensures |r| == |slots| && r[k] == slots[k]
    ensures forall i {:trigger r[i]} :: 0 <= i < |slots| ==>
      r[i] == if i != k && SameUnion(fields[k], fields[i]) && slots[i].Maybe? then Maybe(false, slots[i].v) else slots[i]
  {
    seq(|slots|, i requires 0 <= i < |slots| =>
      if i != k && SameUnion(fields[k], fields[i]) && slots[i].Maybe? then Maybe(false, slots[i].v) else slots[i])
  }

  /** The slots when field `k` is about to be decoded: a submessage that was not selected in its
      union starts from its defaults. */
  function Prepared(fields: Fields, slots: seq<Slot>, k: nat): (r: seq<Slot>)
    requires k < |fields| == |slots|
    ensures |r| == |slots|
  {
    var f := fields[k];
    if !f.rule.OneOf? then slots
    else
      var unused := f.kind.KMessage? && slots[k].Maybe? && !slots[k].has;
      SelectMember(fields, if unused then slots[k := Maybe(false, DefaultValue(f.kind))] else slots, k)
  }

  // ---------------------------------------------------------------- what a message makes of bytes

  /** The locals of pb_decode_noinit: the struct, where the field iterator stands, the required
      fields seen (by their index among the required fields), and the array of fixed count that is
      being filled. */
  datatype Progressing = Progressing(slots: seq<Slot>, pos: nat, seen: set<nat>, fixedField: Option<nat>, fixedSize: nat)

  function Start(slots: seq<Slot>): Progressing {
    Progressing(slots, 0, {}, None, 0)
  }

  /** No array of fixed count has been left half full. */
  predicate FixedIsFull(fields: Fields, st: Progressing) {
    st.fixedField.Some? && st.fixedField.value < |fields| && fields[st.fixedField.value].rule.FixedCount? ==>
      st.fixedSize == fields[st.fixedField.value].rule.count
  }

  /** The checks at the end of the message. */
  predicate Complete(fields: Fields, st: Progressing) {
    && FixedIsFull(fields, st)
    && forall r :: 0 <= r < RequiredBefore(fields, |fields|) && r < MAX_REQUIRED_FIELDS ==> r in st.seen
  }

  /** Field `k` is met: an array of fixed count that starts is put on record, unless the last one is
      not full, and so is a required field. */
  function Noting(fields: Fields, st: Progressing, k: nat): Option<Progressing>
    requires k < |fields|
  {
    var f := fields[k];
    if f.rule.FixedCount? then
      if st.fixedField == Some(k) then Some(st.(pos := k))
      else if FixedIsFull(fields, st) then Some(st.(pos := k, fixedField := Some(k), fixedSize := 0))
      else None
    else if f.rule.Required? && RequiredBefore(fields, k) < MAX_REQUIRED_FIELDS then
      Some(st.(pos := k, seen := st.seen + {RequiredBefore(fields, k)}))
    else Some(st.(pos := k))
  }

  /** Field `k` is met and its slot made ready. */
  function Enter(fields: Fields, st: Progressing, k: nat): (r: Option<Progressing>)
    ensures r.Some? ==> k < |fields| == |r.value.slots|
  {
    if k >= |fields| || |st.slots| != |fields| then None
    else
      var noted := Noting(fields, st, k);
      if noted.None? then None else Some(noted.value.(slots := Prepared(fields, st.slots, k)))
  }

  /** How many items of an array have come. */
  function SizeSoFar(f: Field, s: Slot, fixedSize: nat): nat {
    if !f.rule.Repeated? then fixedSize else if s.Many? then |s.items| else 0
  }

  /** Field `k` has been decoded. */
  function Leave(fields: Fields, st: Progressing, k: nat, s: Slot, size: nat): Progressing
    requires k < |fields| == |st.slots|
  {
    st.(slots := st.slots[k := s], fixedSize := if fields[k].rule.FixedCount? then size else st.fixedSize)
  }

  /** After the field that a tag names, or what is skipped if it names none. */
  function FieldAt(fields: Fields, st: Progressing, tag: nat, wire: nat, b: Bytes): (r: Option<(Progressing, Bytes)>)
    ensures r.Some? ==> |r.value.1| <= |b|
    decreases fields, 0
  {
    var k := Found(fields, st.pos, tag);
    if k.None? then
      var rest := AfterField(wire, b);
      if rest.None? then None else Some((st, rest.value))
    else
      var entered := Enter(fields, st, k.value);
      if entered.None? then None
      else
        var f, s := fields[k.value], entered.value.slots[k.value];
        var r := ItemAt(f, wire, s, SizeSoFar(f, s, entered.value.fixedSize), b);
        if r.None? then None
        else Some((Leave(fields, entered.value, k.value, r.value.0, r.value.1), r.value.2))
  }

  /** After all fields, up to the end of the bytes or a zero in the place of a tag, and what follows
      that. */
  function FieldsAt(fields: Fields, st: Progressing, b: Bytes): Option<(Progressing, Bytes)>
    decreases fields, 1, |b|
  {
    if b == [] then Some((st, []))
    else
      var number := Varint32(b);
      if number.None? then None
      else
        var (v, n) := number.value;
        if v == 0 then Some((st, b[n..]))
        else
          var r := FieldAt(fields, st, v / 8, v % 8, b[n..]);
          if r.None? then None else FieldsAt(fields, r.value.0, r.value.1)
  }

  /** The struct that the bytes make of one in memory, and what follows them. */
  function MessageAt(fields: Fields, slots: seq<Slot>, b: Bytes): Option<(seq<Slot>, Bytes)>
    decreases fields, 2
  {
    var r := FieldsAt(fields, Start(slots), b);
    if r.None? || !Complete(fields, r.value.0) then None else Some((r.value.0.slots, r.value.1))
  }

  // ---------------------------------------------------------------- decoding

  /** The field decoders, chosen by the kind of the field.  `initialize` is set for the entries of
      an array, whose submessages start from their defaults. */
  method DecodeValue(stream: IStream, kind: Kind, initialize: bool, old0: Value) returns (ok: bool, v: Value)
    requires stream.Ready() && (initialize || FitsValue(kind, old0))
    modifies stream
    ensures stream.Ready() && stream.bytesLeft <= old(stream.bytesLeft) && stream.End() <= old(stream.End())
    ensures ok ==> stream.End() == old(stream.End())
    ensures ok ==> FitsValue(kind, v)
    ensures var r := ValueAt(kind, if initialize then DefaultValue(kind) else old0, old(stream.Ahead()));
      (ok <==> r.Some?) && (ok ==> (v, stream.Ahead()) == r.value)
    decreases kind, 0
  {
    v := old0;
    if kind.KMessage? {
      var slots;
      ok, slots := DecodeSubmessage(stream, kind.fields, initialize, if initialize then [] else old0.slots);
      v := Msg(slots);
    } else if Packable(kind) {
      var n := DecodeNumber(stream, kind);
      ok := n.Some?;
      if ok { v := Num(n.value); }
    } else {
      var b := DecodeText(stream, kind);
      ok := b.Some?;
      if ok { v := Text(b.value); }
    }
  }

  /** pb_dec_submessage. */
  method DecodeSubmessage(stream: IStream, fields: Fields, initialize: bool, slots0: seq<Slot>) returns (ok: bool, slots: seq<Slot>)
    requires stream.Ready() && (initialize || FitsSlots(fields, slots0))
    modifies stream
    ensures stream.Ready() && stream.bytesLeft <= old(stream.bytesLeft) && stream.End() <= old(stream.End())
    ensures ok ==> stream.End() == old(stream.End())
    ensures ok ==> FitsSlots(fields, slots)
    ensures var r := SubmessageAt(fields, if initialize then DefaultSlots(fields) else slots0, old(stream.Ahead()));
      (ok <==> r.Some?) && (ok ==> (slots, stream.Ahead()) == r.value)
    decreases fields, 3
  {
    slots := slots0;
    ghost var b := stream.Ahead();
    var substream := stream.MakeSubstream();
    if substream.None? {
      return false, slots;
    }
    ghost var end, after := substream.value.End(), stream.Beyond(substream.value);
    if initialize {
      slots := DefaultSlots(fields);
      DefaultSlotsFit(fields);
    }
    ok, slots := DecodeMessage(substream.value, fields, slots);
    assert ok ==> substream.value.End() == end && stream.From(end) == after;
    stream.CloseSubstream(substream.value);
    assert ok ==> SubmessageAt(fields, if initialize then DefaultSlots(fields) else slots0, b) == Some((slots, after));
  }

  /** What becomes of a packed array from here on. */
  ghost function Remaining(f: Field, s: Slot, size: nat, b: Bytes, status: bool): Option<(Slot, nat)> {
    if status then RunAt(f, s, size, b) else None
  }

  lemma RunEnds(f: Field, s: Slot, size: nat, b: Bytes, status: bool)
    requires !status || b == [] || size >= Capacity(f)
    ensures Remaining(f, s, size, b, status) == if status && b == [] then Some((s, size)) else None
  {
  }

  /** One item of a packed array. */
  method DecodeRunItem(sub: IStream, f: Field, s: Slot, size: nat) returns (ok: bool, s': Slot)
    requires sub.Ready() && sub.bytesLeft > 0 && FitsSlot(f, s) && IsArray(f) && Packable(f.kind) && size < Capacity(f)
    requires f.rule.Repeated? ==> size == |s.items|
    modifies sub
    ensures sub.Ready() && sub.bytesLeft <= old(sub.bytesLeft) && sub.End() <= old(sub.End()) && (ok ==> sub.End() == old(sub.End()))
    ensures FitsSlot(f, s') && (f.rule.Repeated? ==> |s'.items| == |s.items| + if ok then 1 else 0)
    ensures Remaining(f, s', if ok then size + 1 else size, sub.Ahead(), ok) == Remaining(f, s, size, old(sub.Ahead()), true)
    decreases f, 0
  {
    s' := s;
    var v;
    ok, v := DecodeValue(sub, f.kind, true, Num(0));
    if ok {
      s' := StoreItem(f, s, size, v);
    }
  }

  /** The items of a packed array, one after the other in a substream. */
  method DecodeRun(sub: IStream, f: Field, s: Slot, size0: nat) returns (status: bool, s': Slot, size: nat)
    requires sub.Ready() && FitsSlot(f, s) && IsArray(f) && Packable(f.kind) && (f.rule.Repeated? ==> size0 == |s.items|)
    modifies sub
    ensures sub.Ready() && sub.bytesLeft <= old(sub.bytesLeft) && sub.End() <= old(sub.End()) && (status ==> sub.End() == old(sub.End()))
    ensures FitsSlot(f, s')
    ensures var r := RunAt(f, s, size0, old(sub.Ahead()));
      if status && sub.bytesLeft == 0 then r == Some((s', size)) else r.None?
    decreases f, 1, 0
  {
    status, s', size := true, s, size0;
    ghost var whole := Remaining(f, s, size, sub.Ahead(), true);
    assert whole == RunAt(f, s, size0, sub.Ahead());
    while status && sub.bytesLeft > 0 && size < Capacity(f)
      invariant sub.Ready() && sub.bytesLeft <= old(sub.bytesLeft) && sub.End() <= old(sub.End()) && (status ==> sub.End() == old(sub.End()))
      invariant FitsSlot(f, s') && (f.rule.Repeated? ==> size == |s'.items|)
      invariant Remaining(f, s', size, sub.Ahead(), status) == whole
      decreases status, Capacity(f) - size
    {
      status, s' := DecodeRunItem(sub, f, s', size);
      if status {
        size := size + 1;
      }
    }
    RunEnds(f, s', size, sub.Ahead(), status);
  }

  /** The packed case of decode_static_field. */
  method DecodePacked(stream: IStream, f: Field, s: Slot, size0: nat) returns (ok: bool, s': Slot, size: nat)
    requires stream.Ready() && FitsSlot(f, s) && IsArray(f) && Packable(f.kind) && (f.rule.Repeated? ==> size0 == |s.items|)
    modifies stream
    ensures stream.Ready() && stream.bytesLeft <= old(stream.bytesLeft) && stream.End() <= old(stream.End())
    ensures ok ==> stream.End() == old(stream.End())
    ensures FitsSlot(f, s')
    ensures var r := ItemAt(f, WT_STRING, s, size0, old(stream.Ahead()));
      (ok <==> r.Some?) && (ok ==> (s', size, stream.Ahead()) == r.value)
    decreases f, 1, 1
  {
    s', size := s, size0;
    var substream := stream.MakeSubstream();
    if substream.None? {
      return false, s', size;
    }
    ok, s', size := DecodeRun(substream.value, f, s, size0);
    if substream.value.bytesLeft != 0 {
      return false, s', size;
    }
    stream.CloseSubstream(substream.value);
  }

  /** decode_static_field, for the memory of the field itself.  `size` counts the items an array
      has so far. */
  method DecodeItem(stream: IStream, f: Field, wire: nat, s: Slot, size: nat) returns (ok: bool, s': Slot, size': nat)
    requires stream.Ready() && FitsSlot(f, s) && (f.rule.Repeated? ==> size == |s.items|)
    modifies stream
    ensures stream.Ready() && stream.bytesLeft <= old(stream.bytesLeft) && stream.End() <= old(stream.End())
    ensures ok ==> stream.End() == old(stream.End())
    ensures ok ==> FitsSlot(f, s')
    ensures var r := ItemAt(f, wire, s, size, old(stream.Ahead()));
      (ok <==> r.Some?) && (ok ==> (s', size', stream.Ahead()) == r.value)
    decreases f, 2
  {
    s', size' := s, size;
    var v;
    if IsArray(f) {
      if wire == WT_STRING && Packable(f.kind) {
        ok, s', size' := DecodePacked(stream, f, s, size);
      } else {
        if size >= Capacity(f) {
          return false, s', size';
        }
        ok, v := DecodeValue(stream, f.kind, true, Num(0));
        s' := StoreItem(f, s, size, v);
        size' := size + 1;
      }
    } else {
      ok, v := DecodeValue(stream, f.kind, false, s.v);
      s' := if s.Maybe? then Maybe(true, v) else One(v);
    }
  }

  /** The struct is within its memory, and what has been noted names fields. */
  ghost predicate Sound(fields: Fields, st: Progressing) {
    && FitsSlots(fields, st.slots) && (fields != [] ==> st.pos < |fields|)
    && (st.fixedField.Some? ==> st.fixedField.value < |fields| && fields[st.fixedField.value].rule.FixedCount?)
  }

  lemma PreparedFits(fields: Fields, slots: seq<Slot>, k: nat)
    requires FitsSlots(fields, slots) && k < |fields|
    ensures FitsSlots(fields, Prepared(fields, slots, k))
    ensures fields[k].rule.OneOf? ==> forall i {:trigger SameUnion(fields[k], fields[i])} :: 0 <= i < |fields| && i != k && SameUnion(fields[k], fields[i]) ==>
      Prepared(fields, slots, k)[i].Maybe? && !Prepared(fields, slots, k)[i].has
  {
    DefaultFits(fields[k].kind);
    forall i | 0 <= i < |fields| ensures FitsSlot(fields[i], Prepared(fields, slots, k)[i]) {
      assert FitsSlot(fields[i], slots[i]) && FitsSlot(fields[k], slots[k]);
    }
    forall i | 0 <= i < |fields| && i != k && SameUnion(fields[k], fields[i])
      ensures Prepared(fields, slots, k)[i].Maybe? && !Prepared(fields, slots, k)[i].has
    {
      assert FitsSlot(fields[i], slots[i]);
    }
  }

  lemma LeavingFits(fields: Fields, slots: seq<Slot>, k: nat, s: Slot)
    requires FitsSlots(fields, slots) && k < |fields| && FitsSlot(fields[k], s)
    requires fields[k].rule.OneOf? ==> forall i {:trigger SameUnion(fields[k], fields[i])} :: 0 <= i < |fields| && i != k && SameUnion(fields[k], fields[i]) ==>
      slots[i].Maybe? && !slots[i].has
    ensures FitsSlots(fields, slots[k := s])
  {
    forall i, j | 0 <= i < |fields| && 0 <= j < |fields| && i != j && SameUnion(fields[i], fields[j])
      ensures !(slots[k := s][i].Maybe? && slots[k := s][i].has && slots[k := s][j].Maybe? && slots[k := s][j].has)
    {
      assert SameUnion(fields[j], fields[i]);
    }
    forall i | 0 <= i < |fields| ensures FitsSlot(fields[i], slots[k := s][i]) {
      assert FitsSlot(fields[i], slots[i]);
    }
  }

  /** decode_field: the field at `k` takes what comes next. */
  method DecodeField(stream: IStream, wire: nat, fields: Fields, k: nat, slots: seq<Slot>, fixedSize: nat)
    returns (ok: bool, slots': seq<Slot>, fixedSize': nat)
    requires stream.Ready() && k < |fields| && FitsSlots(fields, slots)
    modifies stream
    ensures stream.Ready() && stream.bytesLeft <= old(stream.bytesLeft) && stream.End() <= old(stream.End())
    ensures ok ==> stream.End() == old(stream.End())
    ensures ok ==> FitsSlots(fields, slots')
    ensures var ready := Prepared(fields, slots, k);
      var r := ItemAt(fields[k], wire, ready[k], SizeSoFar(fields[k], ready[k], fixedSize), old(stream.Ahead()));
      (ok <==> r.Some?)
      && (ok ==> slots' == ready[k := r.value.0] && fixedSize' == (if fields[k].rule.FixedCount? then r.value.1 else fixedSize) && stream.Ahead() == r.value.2)
    decreases fields, 0
  {
    var f := fields[k];
    assert FitsSlot(fields[k], slots[k]);
    PreparedFits(fields, slots, k);
    slots', fixedSize' := slots, fixedSize;
    if f.rule.OneOf? {
      if f.kind.KMessage? && !slots[k].has {
        slots' := slots'[k := Maybe(false, DefaultValue(f.kind))];
      }
      slots' := SelectMember(fields, slots', k);
    }
    assert slots' == Prepared(fields, slots, k) && FitsSlot(fields[k], slots'[k]);
    var size := if f.rule.Repeated? then |slots'[k].items| else fixedSize;
    var s, size';
    ok, s, size' := DecodeItem(stream, f, wire, slots'[k], size);
    if ok { LeavingFits(fields, slots', k, s); }
    slots' := slots'[k := s];
    if f.rule.FixedCount? {
      fixedSize' := size';
    }
  }

  /** Before a field is decoded: an array of fixed count that starts is put on record, and so is a
      required field. */
  method Note(fields: Fields, st: Progressing) returns (ok: bool, st': Progressing)
    requires Sound(fields, st) && fields != []
    ensures ok <==> Noting(fields, st, st.pos).Some?
    ensures ok ==> st' == Noting(fields, st, st.pos).value
  {
    st' := st;
    var f := fields[st.pos];
    if f.rule.FixedCount? {
      if st.fixedField != Some(st.pos) {
        if st.fixedField.Some? && st.fixedSize != fields[st.fixedField.value].rule.count {
          return false, st';
        }
        st' := st'.(fixedField := Some(st.pos), fixedSize := 0);
      }
    }
    if f.rule.Required? && RequiredBefore(fields, st.pos) < MAX_REQUIRED_FIELDS {
      st' := st'.(seen := st'.seen + {RequiredBefore(fields, st.pos)});
    }
    ok := true;
  }

  /** The field the tag named takes what comes next. */
  method TakeField(stream: IStream, fields: Fields, st: Progressing, wire: nat) returns (ok: bool, st': Progressing)
    requires stream.Ready() && Sound(fields, st) && fields != []
    modifies stream
    ensures stream.Ready() && stream.bytesLeft <= old(stream.bytesLeft) && stream.End() <= old(stream.End())
    ensures ok ==> stream.End() == old(stream.End()) && Sound(fields, st')
    ensures var entered := Enter(fields, st, st.pos);
      if entered.None? then !ok
      else
        var f, s := fields[st.pos], entered.value.slots[st.pos];
        var r := ItemAt(f, wire, s, SizeSoFar(f, s, entered.value.fixedSize), old(stream.Ahead()));
        (ok <==> r.Some?) && (ok ==> (st', stream.Ahead()) == (Leave(fields, entered.value, st.pos, r.value.0, r.value.1), r.value.2))
    decreases fields, 1, 0
  {
    ok, st' := Note(fields, st);
    if !ok {
      return;
    }
    var slots, fixedSize;
    ok, slots, fixedSize := DecodeField(stream, wire, fields, st'.pos, st'.slots, st'.fixedSize);
    if ok {
      st' := st'.(slots := slots, fixedSize := fixedSize);
    }
  }

  lemma EnterMoves(fields: Fields, st: Progressing, k: nat)
    ensures Enter(fields, st.(pos := k), k) == Enter(fields, st, k)
  {
  }

  /** What a tag names is decoded, or skipped if it names nothing. */
  method DecodeNamed(stream: IStream, fields: Fields, st: Progressing, tag: nat, wire: nat) returns (ok: bool, st': Progressing)
    requires stream.Ready() && Sound(fields, st)
    modifies stream
    ensures stream.Ready() && stream.bytesLeft <= old(stream.bytesLeft) && stream.End() <= old(stream.End())
    ensures ok ==> stream.End() == old(stream.End()) && Sound(fields, st')
    ensures var r := FieldAt(fields, st, tag, wire, old(stream.Ahead()));
      (ok <==> r.Some?) && (ok ==> (st', stream.Ahead()) == r.value)
    decreases fields, 1, 1
  {
    st' := st;
    var found := false;
    if fields != [] {
      var pos;
      found, pos := FindField(fields, st.pos, tag);
      st' := st'.(pos := pos);
    }
    if found {
      EnterMoves(fields, st, st'.pos);
      ok, st' := TakeField(stream, fields, st', wire);
    } else {
      ok := stream.SkipField(wire);
    }
  }

  datatype Outcome = Next | Stop | Fail

  /** One round of pb_decode_noinit: a tag, and the field it names or something to skip. */
  method DecodeNext(stream: IStream, fields: Fields, st: Progressing) returns (outcome: Outcome, st': Progressing)
    requires stream.Ready() && stream.bytesLeft > 0 && Sound(fields, st)
    modifies stream
    ensures stream.Ready() && stream.bytesLeft <= old(stream.bytesLeft) && stream.End() <= old(stream.End())
    ensures !outcome.Fail? ==> stream.End() == old(stream.End()) && Sound(fields, st')
    ensures outcome.Next? ==> stream.bytesLeft < old(stream.bytesLeft)
    ensures FieldsAt(fields, st, old(stream.Ahead())) == match outcome
      case Next => FieldsAt(fields, st', stream.Ahead())
      case Stop => Some((st', stream.Ahead()))
      case Fail => None
    decreases fields, 1, 2
  {
    st' := st;
    var ok, wire, tag, eof := stream.DecodeTag();
    if !ok {
      return if eof then Stop else Fail, st';
    }
    ok, st' := DecodeNamed(stream, fields, st', tag, wire);
    outcome := if ok then Next else Fail;
  }

  /** pb_decode_noinit. */
  method DecodeMessage(stream: IStream, fields: Fields, slots0: seq<Slot>) returns (ok: bool, slots: seq<Slot>)
    requires stream.Ready() && FitsSlots(fields, slots0)
    modifies stream
    ensures stream.Ready() && stream.bytesLeft <= old(stream.bytesLeft) && stream.End() <= old(stream.End())
    ensures ok ==> stream.End() == old(stream.End())
    ensures ok ==> FitsSlots(fields, slots)
    ensures var r := MessageAt(fields, slots0, old(stream.Ahead()));
      (ok <==> r.Some?) && (ok ==> (slots, stream.Ahead()) == r.value)
    decreases fields, 2
  {
    var st := Start(slots0);
    ghost var b := stream.Ahead();
    while stream.bytesLeft > 0
      invariant stream.Ready() && stream.bytesLeft <= old(stream.bytesLeft) && stream.End() == old(stream.End())
      invariant Sound(fields, st)
      invariant FieldsAt(fields, Start(slots0), b) == FieldsAt(fields, st, stream.Ahead())
      decreases stream.bytesLeft
    {
      var outcome;
      outcome, st := DecodeNext(stream, fields, st);
      if outcome.Fail? {
        return false, slots0;
      }
      if outcome.Stop? {
        break;
      }
    }
    assert FieldsAt(fields, Start(slots0), b) == Some((st, stream.Ahead()));
    slots := st.slots;
    ok := Complete(fields, st);
  }
}
