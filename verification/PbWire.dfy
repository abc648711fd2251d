/**
 The wire format: what the bytes of an encoded message are (Protocol Buffers Encoding guide,
 sections "Base 128 Varints", "Signed Integers", "Length-Delimited Records" and "Packed Repeated
 Fields"; nanopb/pb_encode.c).
 */
module PbWire {
  import opened Coding
  import opened PbMessages

  const WT_VARINT: nat := 0
  const WT_64BIT: nat := 1
  const WT_STRING: nat := 2
  const WT_32BIT: nat := 5

  function WireType(kind: Kind): (w: nat)
    ensures w <= WT_32BIT
  {
    match kind
    case KBool => WT_VARINT
    case KInt(_, _) => WT_VARINT
    case KFixed32 => WT_32BIT
    case KFixed64 => WT_64BIT
    case _ => WT_STRING
  }

  function TagBytes(wire: nat, tag: nat): (b: Bytes)
    ensures b != []
  {
    VarintBytes(tag * 8 + wire)
  }

  // ---------------------------------------------------------------- integers

  /** The unsigned number that stands for an integer: its two's complement in 64 bits, or its
      ZigZag form. */
  function ToWire(coding: IntCoding, n: int): nat {
    match coding
    case Varint => if n < 0 then (if n + TWO_64 >= 0 then n + TWO_64 else 0) else n
    case Uvarint => if n < 0 then 0 else n
    case Svarint => if n < 0 then -2 * n - 1 else 2 * n
  }

  function Signed(bits: nat, w: nat): int {
    if w < bits / 2 then w else w - bits
  }

  /** The integer a field of some size gets from a number on the wire; a plain varint of up to four
      bytes is cut to 32 bits first. */
  function FromWire(coding: IntCoding, size: nat, w: nat): int {
    match coding
    case Varint => if size == 8 then Signed(TWO_64, w) else Signed(TWO_32, w % TWO_32)
    case Uvarint => w
    case Svarint => if w % 2 == 1 then -(w / 2) - 1 else w / 2
  }

  lemma WireRoundTrip(coding: IntCoding, size: nat, n: int)
    requires InRange(coding, size, n)
    ensures ToWire(coding, n) < TWO_64 && FromWire(coding, size, ToWire(coding, n)) == n
  {
    if coding.Varint? && n < 0 && size != 8 {
      assert n + TWO_64 == (n + TWO_32) + (TWO_32 - 1) * TWO_32;
      assert (n + TWO_64) % TWO_32 == n + TWO_32;
    }
  }

  /** ZigZag counts the integers away from zero, each negative one right before its positive. */
  lemma ZigZagCounts(n: int, m: int)
    ensures ToWire(Svarint, 0) == 0
    ensures n > 0 ==> ToWire(Svarint, -n) + 1 == ToWire(Svarint, n)
    ensures (if n < 0 then -n else n) < (if m < 0 then -m else m) ==> ToWire(Svarint, n) < ToWire(Svarint, m)
    ensures ToWire(Svarint, n) == 2 * (if n < 0 then -n else n) - if n < 0 then 1 else 0
  {
  }

  /** A plain varint is the integer modulo 2^64. */
  lemma TwosComplement(n: int)
    requires -(TWO_64 / 2) <= n < TWO_64 / 2
    ensures ToWire(Varint, n) < TWO_64 && (ToWire(Varint, n) - n) % TWO_64 == 0
  {
    assert ToWire(Varint, n) - n == if n < 0 then TWO_64 else 0;
  }

  /** What a number on the wire stands for, whoever wrote it: a plain varint counts modulo 2^64, and
      modulo 2^32 in a field of up to four bytes, and ZigZag reaches every number once. */
  lemma WireMeans(coding: IntCoding, size: nat, w: nat)
    requires w < TWO_64
    ensures var n := FromWire(coding, size, w);
      match coding
      case Varint => var m := if size == 8 then TWO_64 else TWO_32; -(m / 2) <= n < m / 2 && (n - w) % m == 0
      case Uvarint => n == w
      case Svarint => ToWire(Svarint, n) == w
  {
    if coding.Varint? && size != 8 {
      var n := FromWire(coding, size, w);
      assert n - w == (n - w % TWO_32) - (w / TWO_32) * TWO_32;
      assert n - w % TWO_32 == 0 || n - w % TWO_32 == -1 * TWO_32;
    }
  }

  // ---------------------------------------------------------------- the encoding

  function EncValue(kind: Kind, v: Value): Bytes
    decreases kind, 0
  {
    match (kind, v)
    case (KBool, Num(n)) => VarintBytes(if n == 0 then 0 else 1)
    case (KInt(coding, _), Num(n)) => VarintBytes(ToWire(coding, n))
    case (KFixed32, Num(n)) => if 0 <= n < TWO_32 then EncodeFixed32(n) else []
    case (KFixed64, Num(n)) => if 0 <= n < TWO_64 then EncodeFixed64(n) else []
    case (KMessage(fields), Msg(slots)) => LengthPrefixed(EncFrom(fields, slots, 0))
    case (_, Text(b)) => LengthPrefixed(b)
    case _ => []
  }

  /** The fields of a message from number `k` on, in descriptor order. */
  function EncFrom(fields: Fields, slots: seq<Slot>, k: nat): Bytes
    decreases fields, |fields| - k
  {
    if k >= |fields| || k >= |slots| then [] else EncSlot(fields[k], slots[k]) + EncFrom(fields, slots, k + 1)
  }

  function EncSlot(f: Field, s: Slot): Bytes
    decreases f, 3
  {
    match (f.rule, s)
    case (Required, One(v)) => EncOne(f, v)
    case (Singular, One(v)) => if IsDefaultValue(f.kind, v) then [] else EncOne(f, v)
    case (Optional, Maybe(has, v)) => if has then EncOne(f, v) else []
    case (OneOf(_), Maybe(has, v)) => if has then EncOne(f, v) else []
    case (Repeated(_), Many(items)) => EncArray(f, items)
    case (FixedCount(_), Many(items)) => EncArray(f, items)
    case _ => []
  }

  function EncOne(f: Field, v: Value): (b: Bytes)
    ensures b != []
    decreases f, 0
  {
    TagBytes(WireType(f.kind), f.tag) + EncValue(f.kind, v)
  }

  function EncArray(f: Field, items: seq<Value>): Bytes
    decreases f, 2
  {
    if items == [] then []
    else if Packable(f.kind) then TagBytes(WT_STRING, f.tag) + LengthPrefixed(EncItems(f.kind, items, 0))
    else EncTagged(f, items, 0)
  }

  function EncItems(kind: Kind, items: seq<Value>, j: nat): Bytes
    decreases kind, 1, |items| - j
  {
    if j >= |items| then [] else EncValue(kind, items[j]) + EncItems(kind, items, j + 1)
  }

  function EncTagged(f: Field, items: seq<Value>, j: nat): Bytes
    decreases f, 1, |items| - j
  {
    if j >= |items| then [] else EncOne(f, items[j]) + EncTagged(f, items, j + 1)
  }

  /** A scalar is taken for the default exactly if it is; bytes of a fixed length only if they have
      none. */
  lemma ScalarDefaults(kind: Kind, v: Value)
    requires TypedValue(kind, v) && !kind.KMessage?
    ensures IsDefaultValue(kind, v) <==> v == DefaultValue(kind) && (kind.KFixedBytes? ==> kind.dataSize == 0)
  {
  }

  /** A field without bytes is at its default, as far as its rule lets a default be left out. */
  lemma FieldTakesNoBytes(f: Field, s: Slot)
    requires TypedSlot(f, s)
    ensures IsDefaultSlot(f, s) <==> EncSlot(f, s) == [] && !f.rule.Required? && !f.rule.FixedCount?
  {
    if s.Many? && s.items != [] {
      assert EncTagged(f, s.items, 0) == EncOne(f, s.items[0]) + EncTagged(f, s.items, 1);
    }
  }

  /** A submessage is taken for the default exactly if it has no bytes, and no field that must have
      some. */
  lemma {:induction false} DefaultTakesNoBytes(fields: Fields, slots: seq<Slot>, k: nat)
    requires TypedSlots(fields, slots) && k <= |fields|
    ensures AllDefault(fields, slots, k) <==>
      EncFrom(fields, slots, k) == [] && forall i {:trigger fields[i]} :: k <= i < |fields| ==> !fields[i].rule.Required? && !fields[i].rule.FixedCount?
    decreases |fields| - k
  {
    if k < |fields| {
      assert TypedSlot(fields[k], slots[k]);
      FieldTakesNoBytes(fields[k], slots[k]);
      DefaultTakesNoBytes(fields, slots, k + 1);
    }
  }

  /** What the Encoding guide gives for a small message: field 1 with the number 150. */
  lemma NumberExample()
    ensures EncOne(Field(1, Optional, KInt(Uvarint, 4)), Num(150)) == [0x08, 0x96, 0x01]
  {
    assert VarintBytes(150) == [0x96, 0x01];
  }

  /** And for a packed field with the numbers 3, 270 and 86942. */
  lemma PackedExample()
    ensures EncArray(Field(6, Repeated(3), KInt(Varint, 4)), [Num(3), Num(270), Num(86942)]) == [0x32, 0x06, 0x03, 0x8E, 0x02, 0x9E, 0xA7, 0x05]
  {
    var kind, items := KInt(Varint, 4), [Num(3), Num(270), Num(86942)];
    assert VarintBytes(270) == [0x8E, 0x02];
    assert VarintBytes(86942) == [0x9E] + VarintBytes(679) && VarintBytes(679) == [0xA7, 0x05];
    assert EncItems(kind, items, 2) == EncValue(kind, items[2]) + EncItems(kind, items, 3) == [0x9E, 0xA7, 0x05];
    assert EncItems(kind, items, 1) == [0x8E, 0x02] + EncItems(kind, items, 2);
    assert EncItems(kind, items, 0) == [0x03] + EncItems(kind, items, 1);
    assert LengthPrefixed(EncItems(kind, items, 0)) == [0x06] + EncItems(kind, items, 0);
  }

  /** Numbers of a fixed width have their lowest byte first. */
  lemma FixedExample()
    ensures EncOne(Field(3, Required, KFixed32), Num(0x0403_0201)) == [0x1d, 0x01, 0x02, 0x03, 0x04]
    ensures EncOne(Field(4, Required, KFixed64), Num(0x0807_0605_0403_0201)) == [0x21, 0x01, 0x02, 0x03, 0x04, 0x05, 0x06, 0x07, 0x08]
  {
    assert EncodeFixed32(0x0403_0201) == [0x01, 0x02, 0x03, 0x04] && EncodeFixed32(0x0807_0605) == [0x05, 0x06, 0x07, 0x08];
    assert EncodeFixed64(0x0807_0605_0403_0201) == EncodeFixed32(0x0403_0201) + EncodeFixed32(0x0807_0605);
  }

  /** Fixed-width items need no measuring. */
  lemma {:induction false} FixedItemsSize(kind: Kind, items: seq<Value>, j: nat)
    requires j <= |items| && forall i {:trigger items[i]} :: 0 <= i < |items| ==> TypedValue(kind, items[i])
    requires kind.KFixed32? || kind.KFixed64?
    ensures |EncItems(kind, items, j)| == (|items| - j) * if kind.KFixed32? then 4 else 8
    decreases |items| - j
  {
    if j < |items| {
      assert TypedValue(kind, items[j]);
      FixedItemsSize(kind, items, j + 1);
    }
  }

  // ---------------------------------------------------------------- what may be encoded

  /** The encoder accepts the value: no array and no byte string outgrows its memory. */
  predicate Sendable(kind: Kind, v: Value)
    decreases kind, 0
  {
    match (kind, v)
    case (KBytes(capacity), Text(b)) => |b| <= capacity
    case (KMessage(fields), Msg(slots)) => SendableFrom(fields, slots, 0)
    case _ => true
  }

  predicate SendableFrom(fields: Fields, slots: seq<Slot>, k: nat)
    decreases fields, |fields| - k
  {
    k >= |fields| || k >= |slots| || (SendableSlot(fields[k], slots[k]) && SendableFrom(fields, slots, k + 1))
  }

  predicate SendableSlot(f: Field, s: Slot)
    decreases f
  {
    match (f.rule, s)
    case (Required, One(v)) => Sendable(f.kind, v)
    case (Singular, One(v)) => IsDefaultValue(f.kind, v) || Sendable(f.kind, v)
    case (Optional, Maybe(has, v)) => has ==> Sendable(f.kind, v)
    case (OneOf(_), Maybe(has, v)) => has ==> Sendable(f.kind, v)
    case (Repeated(max), Many(items)) => |items| <= max && AllSendable(f.kind, items, 0)
    case (FixedCount(count), Many(items)) => |items| <= count && AllSendable(f.kind, items, 0)
    case _ => true
  }

  predicate AllSendable(kind: Kind, items: seq<Value>, j: nat)
    decreases kind, 1, |items| - j
  {
    j >= |items| || (Sendable(kind, items[j]) && AllSendable(kind, items, j + 1))
  }
}
