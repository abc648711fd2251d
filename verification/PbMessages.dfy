/**
 Protocol buffer messages as nanopb sees them: field descriptors, and the structs they describe
 (nanopb/pb.h).  Static allocation only.
 */
module PbMessages {
  import opened Coding

  datatype IntCoding = Varint | Uvarint | Svarint

  /** PB_LTYPE: how one item is stored and encoded.  Sizes are in bytes. */
  datatype Kind =
    | KBool
    | KInt(coding: IntCoding, size: nat)
    | KFixed32
    | KFixed64
    | KBytes(capacity: nat)
    | KString(dataSize: nat)
    | KFixedBytes(dataSize: nat)
    | KMessage(fields: Fields)

  /** PB_HTYPE.  A singular field is optional without a has_ flag; an array of fixed count is
      repeated without a _count member. */
  datatype Rule = Required | Optional | Singular | Repeated(max: nat) | FixedCount(count: nat) | OneOf(union: nat)

  /** pb_size_t. */
  type PbSize = x: int | 0 <= x < TWO_32

  datatype Field = Field(tag: PbSize, rule: Rule, kind: Kind)

  type Fields = seq<Field>

  /** What one item's memory holds. */
  datatype Value = Num(n: int) | Text(b: Bytes) | Msg(slots: seq<Slot>)

  /** What one field's memory holds: the has_ flag, or whether the which_ member of the union names
      the field; the entries of an array up to its count. */
  datatype Slot = One(v: Value) | Maybe(has: bool, v: Value) | Many(items: seq<Value>)

  predicate Packable(kind: Kind) {
    kind.KBool? || kind.KInt? || kind.KFixed32? || kind.KFixed64?
  }

  predicate IsArray(f: Field) {
    f.rule.Repeated? || f.rule.FixedCount?
  }

  // ---------------------------------------------------------------- integer ranges

  function Width(size: nat): nat {
    if size == 1 then 0x100
    else if size == 2 then 0x1_0000
    else if size == 4 then 0x1_0000_0000
    else TWO_64
  }

  predicate InRange(coding: IntCoding, size: nat, n: int) {
    && (size == 1 || size == 2 || size == 4 || size == 8)
    && if coding.Uvarint? then 0 <= n < Width(size) else -(Width(size) / 2) <= n < Width(size) / 2
  }

  // ---------------------------------------------------------------- structs of a type

  /** The value is one that a C object of the field's type can hold.  Of a string, what counts is
      what comes before the terminator. */
  ghost predicate TypedValue(kind: Kind, v: Value)
    decreases kind
  {
    match kind
    case KBool => v.Num? && 0 <= v.n <= 1
    case KInt(coding, size) => v.Num? && InRange(coding, size, v.n)
    case KFixed32 => v.Num? && 0 <= v.n < TWO_32
    case KFixed64 => v.Num? && 0 <= v.n < TWO_64
    case KBytes(_) => v.Text? && |v.b| < TWO_32
    case KString(dataSize) => v.Text? && |v.b| <= dataSize < TWO_32 && 0 !in v.b
    case KFixedBytes(dataSize) => v.Text? && |v.b| == dataSize < TWO_32
    case KMessage(fields) => v.Msg? && TypedSlots(fields, v.slots)
  }

  ghost predicate TypedSlots(fields: Fields, slots: seq<Slot>)
    decreases fields
  {
    |slots| == |fields| && forall i {:trigger TypedSlot(fields[i], slots[i])} :: 0 <= i < |fields| ==> TypedSlot(fields[i], slots[i])
  }

  ghost predicate TypedSlot(f: Field, s: Slot)
    decreases f
  {
    match f.rule
    case Required => s.One? && TypedValue(f.kind, s.v)
    case Singular => s.One? && TypedValue(f.kind, s.v)
    case Optional => s.Maybe? && (s.has ==> TypedValue(f.kind, s.v))
    case OneOf(_) => s.Maybe? && (s.has ==> TypedValue(f.kind, s.v))
    case Repeated(_) => s.Many? && forall j {:trigger s.items[j]} :: 0 <= j < |s.items| ==> TypedValue(f.kind, s.items[j])
    case FixedCount(count) =>
      s.Many? && |s.items| == count && forall j {:trigger s.items[j]} :: 0 <= j < |s.items| ==> TypedValue(f.kind, s.items[j])
  }

  // ---------------------------------------------------------------- defaults

  function DefaultValue(kind: Kind): Value
    decreases kind
  {
    match kind
    case KBool => Num(0)
    case KInt(_, _) => Num(0)
    case KFixed32 => Num(0)
    case KFixed64 => Num(0)
    case KBytes(_) => Text([])
    case KString(_) => Text([])
    case KFixedBytes(dataSize) => Text(seq(dataSize, _ => 0))
    case KMessage(fields) => Msg(DefaultSlots(fields))
  }

  function DefaultSlots(fields: Fields): (slots: seq<Slot>)
    ensures |slots| == |fields| && forall i {:trigger slots[i]} :: 0 <= i < |fields| ==> slots[i] == DefaultSlot(fields[i])
    decreases fields
  {
    seq(|fields|, i requires 0 <= i < |fields| => DefaultSlot(fields[i]))
  }

  /** What pb_field_set_to_default leaves in a field.  The items of a fixed-count array are not
      initialized; any contents will do, because all of them must be decoded. */
  function DefaultSlot(f: Field): Slot
    decreases f
  {
    match f.rule
    case Required => One(DefaultValue(f.kind))
    case Singular => One(DefaultValue(f.kind))
    case Optional => Maybe(false, DefaultValue(f.kind))
    case OneOf(_) => Maybe(false, DefaultValue(f.kind))
    case Repeated(_) => Many([])
    case FixedCount(count) => Many(seq(count, _ => DefaultValue(f.kind)))
  }

  /** pb_check_proto3_default_value, for the data of a singular field. */
  predicate IsDefaultValue(kind: Kind, v: Value)
    decreases kind
  {
    match (kind, v)
    case (KBytes(_), Text(b)) => b == []
    case (KString(_), Text(b)) => b == []
    case (KFixedBytes(dataSize), Text(_)) => dataSize == 0
    case (KMessage(fields), Msg(slots)) => AllDefault(fields, slots, 0)
    case (_, Num(n)) => n == 0
    case (_, _) => false
  }

  predicate AllDefault(fields: Fields, slots: seq<Slot>, k: nat)
    decreases fields, |fields| - k
  {
    k >= |fields| || k >= |slots| || (IsDefaultSlot(fields[k], slots[k]) && AllDefault(fields, slots, k + 1))
  }

  predicate IsDefaultSlot(f: Field, s: Slot)
    decreases f
  {
    match (f.rule, s)
    case (Singular, One(v)) => IsDefaultValue(f.kind, v)
    case (Optional, Maybe(has, _)) => !has
    case (OneOf(_), Maybe(has, _)) => !has
    case (Repeated(_), Many(items)) => items == []
    case (_, _) => false
  }

  // ---------------------------------------------------------------- equality up to absent contents

  ghost predicate Same(kind: Kind, v: Value, w: Value)
    decreases kind
  {
    match kind
    case KMessage(fields) => v.Msg? && w.Msg? && SameSlots(fields, v.slots, w.slots)
    case _ => v == w
  }

  ghost predicate SameSlots(fields: Fields, slots: seq<Slot>, others: seq<Slot>)
    decreases fields
  {
    && |slots| == |others| == |fields|
    && forall i {:trigger SameSlot(fields[i], slots[i], others[i])} :: 0 <= i < |fields| ==> SameSlot(fields[i], slots[i], others[i])
  }

  ghost predicate SameSlot(f: Field, s: Slot, t: Slot)
    decreases f
  {
    match (s, t)
    case (One(v), One(w)) => Same(f.kind, v, w)
    case (Maybe(has, v), Maybe(had, w)) => has == had && (has ==> Same(f.kind, v, w))
    case (Many(items), Many(others)) =>
      |items| == |others| && forall j {:trigger Same(f.kind, items[j], others[j])} :: 0 <= j < |items| ==> Same(f.kind, items[j], others[j])
    case _ => false
  }

  // ---------------------------------------------------------------- what decoding gives back

  /** The struct without the contents that do not matter: absent fields are at their defaults. */
  function Canon(kind: Kind, v: Value): Value
    decreases kind, 0
  {
    match (kind, v)
    case (KMessage(fields), Msg(slots)) => if |slots| == |fields| then Msg(CanonSlots(fields, slots)) else v
    case _ => v
  }

  function CanonSlots(fields: Fields, slots: seq<Slot>): (r: seq<Slot>)
    requires |slots| == |fields|
    ensures |r| == |fields| && forall i {:trigger r[i]} :: 0 <= i < |fields| ==> r[i] == CanonSlot(fields[i], slots[i])
    decreases fields
  {
    seq(|fields|, i requires 0 <= i < |fields| => CanonSlot(fields[i], slots[i]))
  }

  function CanonSlot(f: Field, s: Slot): Slot
    decreases f, 1
  {
    match s
    case One(v) => One(if f.rule.Singular? && IsDefaultValue(f.kind, v) then DefaultValue(f.kind) else Canon(f.kind, v))
    case Maybe(has, v) => if has then Maybe(true, Canon(f.kind, v)) else Maybe(false, DefaultValue(f.kind))
    case Many(items) => Many(CanonItems(f.kind, items))
  }

  function CanonItems(kind: Kind, items: seq<Value>): (r: seq<Value>)
    ensures |r| == |items| && forall j {:trigger r[j]} :: 0 <= j < |items| ==> r[j] == Canon(kind, items[j])
    decreases kind, 1
  {
    seq(|items|, j requires 0 <= j < |items| => Canon(kind, items[j]))
  }

  /** A value that the encoder takes for a default is one. */
  lemma {:induction false} DefaultIsSame(kind: Kind, v: Value)
    requires TypedValue(kind, v) && IsDefaultValue(kind, v)
    ensures Same(kind, v, DefaultValue(kind))
    decreases kind
  {
    match kind
    case KMessage(fields) =>
      forall i | 0 <= i < |fields| ensures SameSlot(fields[i], v.slots[i], DefaultSlots(fields)[i]) {
        EachDefault(fields, v.slots, 0, i);
        assert TypedSlot(fields[i], v.slots[i]);
        if fields[i].rule.Singular? { DefaultIsSame(fields[i].kind, v.slots[i].v); }
      }
    case _ =>
  }

  lemma {:induction false} EachDefault(fields: Fields, slots: seq<Slot>, k: nat, i: nat)
    requires AllDefault(fields, slots, k) && k <= i < |fields| && |slots| == |fields|
    ensures IsDefaultSlot(fields[i], slots[i])
    decreases i - k
  {
    if k < i { EachDefault(fields, slots, k + 1, i); }
  }

  /** Leaving out absent contents changes nothing that matters. */
  lemma {:induction false} CanonIsSame(kind: Kind, v: Value)
    requires TypedValue(kind, v)
    ensures Same(kind, v, Canon(kind, v))
    decreases kind
  {
    match kind
    case KMessage(fields) =>
      forall i | 0 <= i < |fields| ensures SameSlot(fields[i], v.slots[i], CanonSlots(fields, v.slots)[i]) {
        assert TypedSlot(fields[i], v.slots[i]);
        CanonSlotIsSame(fields[i], v.slots[i]);
      }
    case _ =>
  }

  lemma {:induction false} CanonSlotIsSame(f: Field, s: Slot)
    requires TypedSlot(f, s)
    ensures SameSlot(f, s, CanonSlot(f, s))
    decreases f
  {
    match s
    case One(v) =>
      if f.rule.Singular? && IsDefaultValue(f.kind, v) { DefaultIsSame(f.kind, v); } else { CanonIsSame(f.kind, v); }
    case Maybe(has, v) =>
      if has { CanonIsSame(f.kind, v); }
    case Many(items) =>
      forall j | 0 <= j < |items| ensures Same(f.kind, items[j], CanonItems(f.kind, items)[j]) {
        CanonIsSame(f.kind, items[j]);
      }
  }
}
