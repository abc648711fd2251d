/** Decoding one field (nanopb/pb_decode.c). */
module PbDecode {
  import opened Wrappers
  import opened Coding
  import opened PbMessages
  import opened PbWire
  import opened PbStreams

  // ---------------------------------------------------------------- memory of a type

  /** The value is within the memory its kind has: numbers are in range, bytes stay within their
      capacity, and strings leave room for their terminator. */
  ghost predicate FitsValue(kind: Kind, v: Value)
    decreases kind
  {
    match kind
    case KBool => v.Num? && 0 <= v.n <= 1
    case KInt(coding, size) => v.Num? && (v.n == 0 || InRange(coding, size, v.n))
    case KFixed32 => v.Num? && 0 <= v.n < TWO_32
    case KFixed64 => v.Num? && 0 <= v.n < TWO_64
    case KBytes(capacity) => v.Text? && |v.b| <= capacity
    case KString(dataSize) => v.Text? && (v.b == [] || |v.b| < dataSize) && 0 !in v.b
    case KFixedBytes(dataSize) => v.Text? && |v.b| == dataSize
    case KMessage(fields) => v.Msg? && FitsSlots(fields, v.slots)
  }

  /** The struct is within its memory, and the which_ member of each union names one field. */
  ghost predicate FitsSlots(fields: Fields, slots: seq<Slot>)
    decreases fields
  {
    && |slots| == |fields| && OneMember(fields, slots)
    && forall i {:trigger FitsSlot(fields[i], slots[i])} :: 0 <= i < |fields| ==> FitsSlot(fields[i], slots[i])
  }

  /** Arrays have no more entries than there is room for. */
  ghost predicate FitsSlot(f: Field, s: Slot)
    decreases f
  {
    match f.rule
    case Required => s.One? && FitsValue(f.kind, s.v)
    case Singular => s.One? && FitsValue(f.kind, s.v)
    case Optional => s.Maybe? && FitsValue(f.kind, s.v)
    case OneOf(_) => s.Maybe? && FitsValue(f.kind, s.v)
    case Repeated(max) => s.Many? && |s.items| <= max && forall j {:trigger s.items[j]} :: 0 <= j < |s.items| ==> FitsValue(f.kind, s.items[j])
    case FixedCount(count) => s.Many? && |s.items| == count && forall j {:trigger s.items[j]} :: 0 <= j < |s.items| ==> FitsValue(f.kind, s.items[j])
  }

  lemma {:induction false} DefaultFits(kind: Kind)
    ensures FitsValue(kind, DefaultValue(kind))
    decreases kind, 0
  {
    match kind
    case KMessage(fields) =>
      DefaultSlotsFit(fields);
    case _ =>
  }

  lemma {:induction false} DefaultSlotsFit(fields: Fields)
    ensures FitsSlots(fields, DefaultSlots(fields))
    decreases fields
  {
    forall i | 0 <= i < |fields| ensures FitsSlot(fields[i], DefaultSlots(fields)[i]) {
      DefaultSlotFits(fields[i]);
    }
  }

  lemma {:induction false} DefaultSlotFits(f: Field)
    ensures FitsSlot(f, DefaultSlot(f))
    decreases f
  {
    DefaultFits(f.kind);
  }

  /** The sizes a descriptor can have. */
  ghost predicate Sized(kind: Kind)
    decreases kind
  {
    match kind
    case KInt(_, size) => size == 1 || size == 2 || size == 4 || size == 8
    case KBytes(capacity) => capacity < TWO_32
    case KString(dataSize) => dataSize < TWO_32
    case KFixedBytes(dataSize) => dataSize < TWO_32
    case KMessage(fields) => SizedFields(fields)
    case _ => true
  }

  ghost predicate SizedFields(fields: Fields)
    decreases fields
  {
    forall i {:trigger fields[i]} :: 0 <= i < |fields| ==> SizedField(fields[i])
  }

  ghost predicate SizedField(f: Field)
    decreases f
  {
    Sized(f.kind)
  }

  /** What is within its memory is a value that a C object of the type can hold. */
  lemma {:induction false} FittingIsTyped(kind: Kind, v: Value)
    requires Sized(kind) && FitsValue(kind, v)
    ensures TypedValue(kind, v)
    decreases kind
  {
    if kind.KMessage? { FittingSlotsAreTyped(kind.fields, v.slots); }
  }

  lemma {:induction false} FittingSlotsAreTyped(fields: Fields, slots: seq<Slot>)
    requires SizedFields(fields) && FitsSlots(fields, slots)
    ensures TypedSlots(fields, slots)
    decreases fields
  {
    forall i | 0 <= i < |fields| ensures TypedSlot(fields[i], slots[i]) {
      assert FitsSlot(fields[i], slots[i]) && SizedField(fields[i]);
      FittingSlotIsTyped(fields[i], slots[i]);
    }
  }

  lemma {:induction false} FittingSlotIsTyped(f: Field, s: Slot)
    requires SizedField(f) && FitsSlot(f, s)
    ensures TypedSlot(f, s)
    decreases f
  {
    match s
    case One(v) => FittingIsTyped(f.kind, v);
    case Maybe(_, v) => FittingIsTyped(f.kind, v);
    case Many(items) =>
      forall j | 0 <= j < |items| ensures TypedValue(f.kind, items[j]) {
        FittingIsTyped(f.kind, items[j]);
      }
  }

  // ---------------------------------------------------------------- what can be delivered

  ghost predicate GoodTags(fields: Fields) {
    && (forall i {:trigger fields[i]} :: 0 <= i < |fields| ==> 1 <= fields[i].tag < 0x2000_0000)
    && forall i, j {:trigger fields[i], fields[j]} :: 0 <= i < j < |fields| ==> fields[i].tag != fields[j].tag
  }

  predicate SameUnion(f: Field, g: Field) {
    f.rule.OneOf? && g.rule.OneOf? && f.rule.union == g.rule.union
  }

  /** The which_ member names one field of its union. */
  ghost predicate OneMember(fields: Fields, slots: seq<Slot>)
    requires |slots| == |fields|
  {
    forall i, j {:trigger SameUnion(fields[i], fields[j])} :: 0 <= i < |fields| && 0 <= j < |fields| && i != j && SameUnion(fields[i], fields[j]) ==>
      !(slots[i].Maybe? && slots[i].has && slots[j].Maybe? && slots[j].has)
  }

  /** The decoder accepts what the encoder makes of the value: strings leave room for their
      terminator, nothing outgrows its memory, and lengths fit in 32 bits. */
  ghost predicate Receivable(kind: Kind, v: Value)
    decreases kind, 0
  {
    match (kind, v)
    case (KBytes(capacity), Text(b)) => |b| <= capacity
    case (KString(dataSize), Text(b)) => |b| < dataSize
    case (KMessage(fields), Msg(slots)) => |EncFrom(fields, slots, 0)| < TWO_32 && ReceivableMessage(fields, slots)
    case _ => true
  }

  ghost predicate ReceivableMessage(fields: Fields, slots: seq<Slot>)
    decreases fields
  {
    && |slots| == |fields| && GoodTags(fields) && OneMember(fields, slots)
    && forall i {:trigger ReceivableSlot(fields[i], slots[i])} :: 0 <= i < |fields| ==> ReceivableSlot(fields[i], slots[i])
  }

  ghost predicate ReceivableSlot(f: Field, s: Slot)
    decreases f
  {
    match s
    case One(v) => (f.rule.Singular? && IsDefaultValue(f.kind, v)) || Receivable(f.kind, v)
    case Maybe(has, v) => has ==> Receivable(f.kind, v)
    case Many(items) =>
      && (f.rule.Repeated? ==> |items| <= f.rule.max)
      && (Packable(f.kind) ==> |EncItems(f.kind, items, 0)| < TWO_32)
      && forall j {:trigger items[j]} :: 0 <= j < |items| ==> Receivable(f.kind, items[j])
  }

  ghost predicate Delivers(kind: Kind, v: Value) {
    TypedValue(kind, v) && Receivable(kind, v)
  }

  // ---------------------------------------------------------------- scalars

  /** The integer at the front of some bytes, if it has no more than ten groups and the cast to the
      size of its field does not change it, and what follows. */
  function IntAt(coding: IntCoding, size: nat, b: Bytes): (r: Option<(int, Bytes)>)
    ensures r.Some? ==> InRange(coding, size, r.value.0) && |r.value.1| < |b|
  {
    var number := ReadVarint(b, 10);
    if number.None? then None
    else
      var (w, n) := number.value;
      var value := FromWire(coding, size, w % TWO_64);
      if InRange(coding, size, value) then Some((value, b[n..])) else None
  }

  /** The number at the front of some bytes, and what follows. */
  function NumberAt(kind: Kind, b: Bytes): (r: Option<(int, Bytes)>)
    ensures r.Some? ==> FitsValue(kind, Num(r.value.0)) && |r.value.1| < |b|
  {
    match kind
    case KBool =>
      var number := Varint32(b);
      if number.None? then None else Some((if number.value.0 == 0 then 0 else 1, b[number.value.1..]))
    case KInt(coding, size) => IntAt(coding, size, b)
    case KFixed32 => if |b| < 4 then None else Some((DecodeFixed32(b[..4]), b[4..]))
    case KFixed64 => if |b| < 8 then None else Some((DecodeFixed64(b[..8]), b[8..]))
    case _ => None
  }

  /** A number that was written is there to be read. */
  lemma NumberArrives(kind: Kind, n: int, after: Bytes)
    requires Packable(kind) && TypedValue(kind, Num(n))
    ensures NumberAt(kind, EncValue(kind, Num(n)) + after) == Some((n, after))
  {
    match kind
    case KBool =>
      Written32(if n == 0 then 0 else 1, after);
    case KInt(coding, size) =>
      WireRoundTrip(coding, size, n);
      LongVarint(ToWire(coding, n), after);
    case KFixed32 =>
      Fixed32RoundTrip(n);
      assert (EncodeFixed32(n) + after)[..4] == EncodeFixed32(n) && (EncodeFixed32(n) + after)[4..] == after;
    case KFixed64 =>
      Fixed64RoundTrip(n);
      assert (EncodeFixed64(n) + after)[..8] == EncodeFixed64(n) && (EncodeFixed64(n) + after)[8..] == after;
  }

  lemma LongVarint(w: nat, after: Bytes)
    requires w < TWO_64
    ensures ReadVarint(VarintBytes(w) + after, 10) == Some((w, |VarintBytes(w)|))
    ensures (VarintBytes(w) + after)[|VarintBytes(w)|..] == after && w % TWO_64 == w
  {
    VarintRanges();
    ReadWritten(w, after, 10);
  }

  /** pb_dec_varint, pb_dec_uvarint and pb_dec_svarint, on any bytes. */
  method DecodeInt(stream: IStream, coding: IntCoding, size: nat) returns (r: Option<int>)
    requires stream.Ready()
    modifies stream
    ensures stream.Ready() && stream.bytesLeft <= old(stream.bytesLeft) && stream.End() == old(stream.End())
    ensures r.Some? <==> IntAt(coding, size, old(stream.Ahead())).Some?
    ensures r.Some? ==> (r.value, stream.Ahead()) == IntAt(coding, size, old(stream.Ahead())).value
  {
    var w := stream.DecodeVarint();
    if w.None? {
      return None;
    }
    var value := FromWire(coding, size, w.value);
    // The value is cast to the size of the field; a cast that changes it is an error.
    r := if InRange(coding, size, value) then Some(value) else None;
  }

  /** The bytes of a C string. */
  function UpToNul(b: Bytes): (r: Bytes)
    ensures 0 !in b ==> r == b
    ensures 0 !in r && |r| <= |b|
  {
    if b == [] || b[0] == 0 then [] else
      assert 0 !in b ==> 0 !in b[1..] && b == [b[0]] + b[1..];
      [b[0]] + UpToNul(b[1..])
  }

  /** The check of a length against the memory of the field. */
  predicate HasRoom(kind: Kind, size: nat) {
    match kind
    case KBytes(capacity) => size <= capacity
    case KString(dataSize) => size + 1 <= dataSize
    case KFixedBytes(dataSize) => size == dataSize
    case _ => false
  }

  /** What bytes in memory mean: a string ends at its terminator. */
  function Contents(kind: Kind, b: Bytes): (r: Bytes)
    ensures HasRoom(kind, |b|) ==> FitsValue(kind, Text(r))
    ensures (kind.KString? ==> 0 !in b) ==> r == b
  {
    if kind.KString? then UpToNul(b) else b
  }

  /** The contents at the front of some bytes, if there is room for them, and what follows.  Bytes of
      a fixed length may be left out. */
  function TextAt(kind: Kind, b: Bytes): (r: Option<(Bytes, Bytes)>)
    ensures r.Some? && (kind.KBytes? || kind.KString? || kind.KFixedBytes?) ==> FitsValue(kind, Text(r.value.0))
    ensures r.Some? ==> |r.value.1| < |b|
  {
    var length := Varint32(b);
    if length.None? then None
    else
      var (size, n) := length.value;
      var rest := b[n..];
      if kind.KFixedBytes? && size == 0 then Some((seq(kind.dataSize, _ => 0), rest))
      else if !HasRoom(kind, size) || size > |rest| then None
      else Some((Contents(kind, rest[..size]), rest[size..]))
  }

  /** Contents that were written are there to be read, if there is room for them. */
  lemma TextArrives(kind: Kind, b: Bytes, after: Bytes)
    requires (kind.KBytes? || kind.KString? || kind.KFixedBytes?) && TypedValue(kind, Text(b))
    ensures TextAt(kind, LengthPrefixed(b) + after) == if Receivable(kind, Text(b)) then Some((b, after)) else None
  {
    Associative(VarintBytes(|b|), b, after);
    Written32(|b|, b + after);
    assert (b + after)[..|b|] == b && (b + after)[|b|..] == after;
    if kind.KFixedBytes? && |b| == 0 { assert seq(kind.dataSize, _ => 0) == b && b + after == after; }
  }

  /** pb_dec_bytes, pb_dec_string and pb_dec_fixed_length_bytes, on any bytes. */
  method DecodeText(stream: IStream, kind: Kind) returns (r: Option<Bytes>)
    requires stream.Ready() && (kind.KBytes? || kind.KString? || kind.KFixedBytes?)
    modifies stream
    ensures stream.Ready() && stream.bytesLeft <= old(stream.bytesLeft) && stream.End() == old(stream.End())
    ensures r.Some? <==> TextAt(kind, old(stream.Ahead())).Some?
    ensures r.Some? ==> (r.value, stream.Ahead()) == TextAt(kind, old(stream.Ahead())).value
  {
    var size, eof := stream.DecodeVarint32();
    if size.None? {
      return None;
    }
    if kind.KFixedBytes? && size.value == 0 {
      return Some(seq(kind.dataSize, _ => 0));
    }
    if !HasRoom(kind, size.value) {
      return None;
    }
    r := stream.Read(size.value);
    if r.Some? { r := Some(Contents(kind, r.value)); }
  }

  /** pb_dec_bool, pb_dec_fixed32 and pb_dec_fixed64, and the integers, on any bytes. */
  method DecodeNumber(stream: IStream, kind: Kind) returns (r: Option<int>)
    requires stream.Ready() && Packable(kind)
    modifies stream
    ensures stream.Ready() && stream.bytesLeft <= old(stream.bytesLeft) && stream.End() == old(stream.End())
    ensures r.Some? <==> NumberAt(kind, old(stream.Ahead())).Some?
    ensures r.Some? ==> (r.value, stream.Ahead()) == NumberAt(kind, old(stream.Ahead())).value
  {
    match kind
    case KBool =>
      var value, eof := stream.DecodeVarint32();
      r := if value.None? then None else Some(if value.value != 0 then 1 else 0);
    case KInt(coding, size) =>
      r := DecodeInt(stream, coding, size);
    case KFixed32 =>
      var bytes := stream.Read(4);
      r := if bytes.None? then None else Some(DecodeFixed32(bytes.value));
    case KFixed64 =>
      var bytes := stream.Read(8);
      r := if bytes.None? then None else Some(DecodeFixed64(bytes.value));
  }
}
