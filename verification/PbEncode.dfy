/**
 The encoder: one pass over a struct, with a sizing pass of its own for every part whose length
 comes first (nanopb/pb_encode.c).
 */
module PbEncode {
  import opened Wrappers
  import opened Coding
  import opened PbMessages
  import opened PbWire

  /** The low seven bits of each group with the high bit set, until the number is used up. */
  function Groups(v: nat): Bytes {
    if v == 0 then [] else [v % 128 + 128] + Groups(v / 128)
  }

  lemma {:induction false} LastGroup(v: nat)
    requires v > 0
    ensures var g := Groups(v); g != [] && g[|g| - 1] >= 128 && g[..|g| - 1] + [g[|g| - 1] - 128] == VarintBytes(v)
  {
    var g := Groups(v);
    if v / 128 == 0 {
      assert Groups(0) == [];
      assert g == [v % 128 + 128];
    } else {
      LastGroup(v / 128);
      var tail := Groups(v / 128);
      assert g[..|g| - 1] == [v % 128 + 128] + tail[..|tail| - 1];
    }
  }

  /** The loop of pb_encode_varint, and the high bit of the last byte. */
  method VarintBuffer(value: nat) returns (buffer: Bytes)
    requires value > 0
    ensures buffer == VarintBytes(value)
  {
    buffer := [];
    var v := value;
    while v != 0
      invariant buffer + Groups(v) == Groups(value)
    {
      OneGroup(buffer, v);
      buffer := buffer + [v % 128 + 128];
      v := v / 128;
    }
    AllGroups(buffer, value);
    buffer := buffer[..|buffer| - 1] + [buffer[|buffer| - 1] - 128];
  }

  lemma AllGroups(buffer: Bytes, value: nat)
    requires value > 0 && buffer + Groups(0) == Groups(value)
    ensures buffer != [] && buffer[|buffer| - 1] >= 128
    ensures buffer[..|buffer| - 1] + [buffer[|buffer| - 1] - 128] == VarintBytes(value)
  {
    LastGroup(value);
    assert buffer == Groups(value);
  }

  lemma OneGroup(buffer: Bytes, v: nat)
    requires v != 0
    ensures buffer + Groups(v) == buffer + [v % 128 + 128] + Groups(v / 128)
  {
  }

  class OStream {
    /** Without a callback nothing is written: the stream only counts. */
    const callback: bool
    const maxSize: nat
    var data: Bytes
    var bytesWritten: nat

    ghost predicate Ready()
      reads this
    {
      callback ==> bytesWritten <= maxSize
    }

    /** A sizing stream. */
    constructor Sizing()
      ensures Ready() && !callback && data == [] && bytesWritten == 0
    {
      callback, maxSize, data, bytesWritten := false, 0, [], 0;
    }

    /** A stream that goes on where `data` ends. */
    constructor (data: Bytes, maxSize: nat)
      ensures Ready() && callback && this.maxSize == maxSize && this.data == data && bytesWritten == 0
    {
      callback, this.maxSize, this.data, bytesWritten := true, maxSize, data, 0;
    }

    /** Whether `n` more bytes fit. */
    ghost predicate Fits(n: nat)
      reads this
    {
      callback ==> bytesWritten + n <= maxSize
    }

    /** The stream has taken bytes `e` since it held `before` and had counted `count`. */
    ghost predicate Took(before: Bytes, count: nat, e: Bytes)
      reads this
    {
      bytesWritten == count + |e| && data == if callback then before + e else before
    }

    /** pb_write. */
    method Write(buf: Bytes) returns (ok: bool)
      requires Ready()
      modifies this
      ensures Ready() && ok == old(Fits(|buf|))
      ensures ok ==> Took(old(data), old(bytesWritten), buf)
    {
      if |buf| > 0 && callback {
        if bytesWritten + |buf| > maxSize {
          return false;
        }
        data := data + buf;
      }
      bytesWritten := bytesWritten + |buf|;
      return true;
    }

    /** pb_write without bytes: only the count moves on. */
    method Count(n: nat, ghost e: Bytes)
      requires Ready() && !callback && n == |e|
      modifies this
      ensures Ready() && Took(old(data), old(bytesWritten), e)
    {
      bytesWritten := bytesWritten + n;
    }

    /** pb_encode_varint. */
    method EncodeVarint(value: nat) returns (ok: bool)
      requires Ready() && value < TWO_64
      modifies this
      ensures Ready() && ok == old(Fits(|VarintBytes(value)|))
      ensures ok ==> Took(old(data), old(bytesWritten), VarintBytes(value))
    {
      if value <= 0x7f {
        ok := Write([value]);
        return;
      }
      var buffer := VarintBuffer(value);
      ok := Write(buffer);
    }

    /** pb_encode_tag. */
    method EncodeTag(wire: nat, tag: nat) returns (ok: bool)
      requires Ready() && wire < 8 && tag < TWO_32
      modifies this
      ensures Ready() && ok == old(Fits(|TagBytes(wire, tag)|))
      ensures ok ==> Took(old(data), old(bytesWritten), TagBytes(wire, tag))
    {
      ok := EncodeVarint(tag * 8 + wire);
    }

    /** pb_encode_string. */
    method EncodeString(b: Bytes) returns (ok: bool)
      requires Ready() && |b| < TWO_64
      modifies this
      ensures Ready() && ok == old(Fits(|LengthPrefixed(b)|))
      ensures ok ==> Took(old(data), old(bytesWritten), LengthPrefixed(b))
    {
      ok := EncodeVarint(|b|);
      if ok {
        ok := Write(b);
        Associative(old(data), VarintBytes(|b|), b);
      }
    }
  }

  // ---------------------------------------------------------------- fields

  /** The field encoders, chosen by the kind of the field. */
  method EncodeValue(stream: OStream, kind: Kind, v: Value) returns (ok: bool)
    requires stream.Ready() && TypedValue(kind, v) && |EncValue(kind, v)| < TWO_64
    modifies stream
    ensures stream.Ready() && ok == (Sendable(kind, v) && old(stream.Fits(|EncValue(kind, v)|)))
    ensures ok ==> stream.Took(old(stream.data), old(stream.bytesWritten), EncValue(kind, v))
    decreases kind, 0
  {
    match kind
    case KBool =>
      ok := stream.EncodeVarint(if v.n == 0 then 0 else 1);
    case KInt(coding, size) =>
      WireRoundTrip(coding, size, v.n);
      ok := stream.EncodeVarint(ToWire(coding, v.n));
    case KFixed32 =>
      ok := stream.Write(EncodeFixed32(v.n));
    case KFixed64 =>
      ok := stream.Write(EncodeFixed64(v.n));
    case KBytes(capacity) =>
      if |v.b| > capacity {
        return false;
      }
      ok := stream.EncodeString(v.b);
    case KString(_) =>
      ok := stream.EncodeString(v.b);
    case KFixedBytes(_) =>
      ok := stream.EncodeString(v.b);
    case KMessage(fields) =>
      ok := EncodeSubmessage(stream, fields, v.slots);
  }

  /** pb_encode_submessage: measure, write the length, then write the message. */
  method EncodeSubmessage(stream: OStream, fields: Fields, slots: seq<Slot>) returns (ok: bool)
    requires stream.Ready() && TypedSlots(fields, slots) && |LengthPrefixed(EncFrom(fields, slots, 0))| < TWO_64
    modifies stream
    ensures stream.Ready()
    ensures ok == (SendableFrom(fields, slots, 0) && old(stream.Fits(|LengthPrefixed(EncFrom(fields, slots, 0))|)))
    ensures ok ==> stream.Took(old(stream.data), old(stream.bytesWritten), LengthPrefixed(EncFrom(fields, slots, 0)))
    decreases fields, |fields| + 2
  {
    ghost var e := EncFrom(fields, slots, 0);
    var sizing := new OStream.Sizing();
    var measured := EncodeMessage(sizing, fields, slots);
    if !measured {
      return false;
    }
    var size := sizing.bytesWritten;
    ok := stream.EncodeVarint(size);
    if !ok {
      return false;
    }
    Associative(old(stream.data), VarintBytes(|e|), e);
    if !stream.callback {
      stream.Count(size, e);
      return true;
    }
    if stream.bytesWritten + size > stream.maxSize {
      return false;
    }
    var substream := new OStream(stream.data, size);
    var status := EncodeMessage(substream, fields, slots);
    stream.bytesWritten := stream.bytesWritten + substream.bytesWritten;
    stream.data := substream.data;
    ok := substream.bytesWritten == size && status;
  }

  /** pb_encode: the fields in order. */
  method EncodeMessage(stream: OStream, fields: Fields, slots: seq<Slot>) returns (ok: bool)
    requires stream.Ready() && TypedSlots(fields, slots) && |EncFrom(fields, slots, 0)| < TWO_64
    modifies stream
    ensures stream.Ready() && ok == (SendableFrom(fields, slots, 0) && old(stream.Fits(|EncFrom(fields, slots, 0)|)))
    ensures ok ==> stream.Took(old(stream.data), old(stream.bytesWritten), EncFrom(fields, slots, 0))
    decreases fields, |fields| + 1
  {
    ghost var done: Bytes := [];
    var k := 0;
    while k < |fields|
      invariant k <= |fields| && stream.Ready()
      invariant stream.Took(old(stream.data), old(stream.bytesWritten), done)
      invariant done + EncFrom(fields, slots, k) == EncFrom(fields, slots, 0)
      invariant SendableFrom(fields, slots, 0) == SendableFrom(fields, slots, k)
    {
      assert TypedSlot(fields[k], slots[k]);
      ghost var e := EncSlot(fields[k], slots[k]);
      ok := EncodeField(stream, fields[k], slots[k]);
      if !ok {
        return;
      }
      Associative(done, e, EncFrom(fields, slots, k + 1));
      Associative(old(stream.data), done, e);
      done := done + e;
      k := k + 1;
    }
    ok := true;
  }

  /** pb_get_encoded_size. */
  method GetEncodedSize(fields: Fields, slots: seq<Slot>) returns (size: Option<nat>)
    requires TypedSlots(fields, slots) && |EncFrom(fields, slots, 0)| < TWO_64
    ensures size == if SendableFrom(fields, slots, 0) then Some(|EncFrom(fields, slots, 0)|) else None
  {
    var stream := new OStream.Sizing();
    var ok := EncodeMessage(stream, fields, slots);
    size := if ok then Some(stream.bytesWritten) else None;
  }

  /** encode_basic_field. */
  method EncodeField(stream: OStream, f: Field, s: Slot) returns (ok: bool)
    requires stream.Ready() && TypedSlot(f, s) && |EncSlot(f, s)| < TWO_64
    modifies stream
    ensures stream.Ready() && ok == (SendableSlot(f, s) && old(stream.Fits(|EncSlot(f, s)|)))
    ensures ok ==> stream.Took(old(stream.data), old(stream.bytesWritten), EncSlot(f, s))
    decreases f, 3
  {
    match f.rule
    case Required =>
      ok := EncodeOne(stream, f, s.v);
    case Optional =>
      ok := true;
      if s.has {
        ok := EncodeOne(stream, f, s.v);
      }
    case Singular =>
      var implicitHas := !IsDefaultValue(f.kind, s.v);
      ok := true;
      if implicitHas {
        ok := EncodeOne(stream, f, s.v);
      }
    case Repeated(max) =>
      ok := EncodeArray(stream, f, s.items, max);
    case FixedCount(count) =>
      ok := EncodeArray(stream, f, s.items, count);
    case OneOf(_) =>
      ok := true;
      if s.has {
        ok := EncodeOne(stream, f, s.v);
      }
  }

  method EncodeOne(stream: OStream, f: Field, v: Value) returns (ok: bool)
    requires stream.Ready() && TypedValue(f.kind, v) && |EncOne(f, v)| < TWO_64
    modifies stream
    ensures stream.Ready() && (ok ==> Sendable(f.kind, v) && old(stream.Fits(|EncOne(f, v)|)))
    ensures Sendable(f.kind, v) && old(stream.Fits(|EncOne(f, v)|)) ==> ok
    ensures ok ==> stream.Took(old(stream.data), old(stream.bytesWritten), EncOne(f, v))
    decreases f, 0
  {
    ok := stream.EncodeTag(WireType(f.kind), f.tag);
    if ok {
      Associative(old(stream.data), TagBytes(WireType(f.kind), f.tag), EncValue(f.kind, v));
      ok := EncodeValue(stream, f.kind, v);
    }
  }

  /** Items one after the other, without tags. */
  method EncodeItems(stream: OStream, kind: Kind, items: seq<Value>) returns (ok: bool)
    requires stream.Ready() && (forall j {:trigger items[j]} :: 0 <= j < |items| ==> TypedValue(kind, items[j]))
    requires Packable(kind) && |EncItems(kind, items, 0)| < TWO_64
    modifies stream
    ensures stream.Ready() && ok == old(stream.Fits(|EncItems(kind, items, 0)|))
    ensures ok ==> stream.Took(old(stream.data), old(stream.bytesWritten), EncItems(kind, items, 0))
    decreases kind, 1
  {
    ghost var done: Bytes := [];
    var i := 0;
    while i < |items|
      invariant i <= |items| && stream.Ready()
      invariant stream.Took(old(stream.data), old(stream.bytesWritten), done)
      invariant done + EncItems(kind, items, i) == EncItems(kind, items, 0)
    {
      ghost var e := EncValue(kind, items[i]);
      ok := EncodeValue(stream, kind, items[i]);
      if !ok {
        return;
      }
      Associative(done, e, EncItems(kind, items, i + 1));
      Associative(old(stream.data), done, e);
      done := done + e;
      i := i + 1;
    }
    ok := true;
  }

  /** Items of a kind that cannot be packed, each with its tag. */
  method EncodeTagged(stream: OStream, f: Field, items: seq<Value>) returns (ok: bool)
    requires stream.Ready() && (forall j {:trigger items[j]} :: 0 <= j < |items| ==> TypedValue(f.kind, items[j]))
    requires |EncTagged(f, items, 0)| < TWO_64
    modifies stream
    ensures stream.Ready() && ok == (AllSendable(f.kind, items, 0) && old(stream.Fits(|EncTagged(f, items, 0)|)))
    ensures ok ==> stream.Took(old(stream.data), old(stream.bytesWritten), EncTagged(f, items, 0))
    decreases f, 1
  {
    ghost var done: Bytes := [];
    var i := 0;
    while i < |items|
      invariant i <= |items| && stream.Ready()
      invariant stream.Took(old(stream.data), old(stream.bytesWritten), done)
      invariant done + EncTagged(f, items, i) == EncTagged(f, items, 0)
      invariant AllSendable(f.kind, items, 0) == AllSendable(f.kind, items, i)
    {
      ghost var e := EncOne(f, items[i]);
      ok := EncodeOne(stream, f, items[i]);
      if !ok {
        return;
      }
      Associative(done, e, EncTagged(f, items, i + 1));
      Associative(old(stream.data), done, e);
      done := done + e;
      i := i + 1;
    }
    ok := true;
  }

  /** The size of a packed array: known for fixed-width items, measured for the others. */
  method PackedSize(f: Field, items: seq<Value>) returns (size: nat)
    requires Packable(f.kind) && (forall j {:trigger items[j]} :: 0 <= j < |items| ==> TypedValue(f.kind, items[j]))
    requires |EncItems(f.kind, items, 0)| < TWO_64
    ensures size == |EncItems(f.kind, items, 0)|
    decreases f, 1, 0
  {
    if f.kind.KFixed32? {
      FixedItemsSize(f.kind, items, 0);
      size := 4 * |items|;
    } else if f.kind.KFixed64? {
      FixedItemsSize(f.kind, items, 0);
      size := 8 * |items|;
    } else {
      var sizestream := new OStream.Sizing();
      var ok := EncodeItems(sizestream, f.kind, items);
      size := sizestream.bytesWritten;
    }
  }

  /** encode_array. */
  method EncodeArray(stream: OStream, f: Field, items: seq<Value>, arraySize: nat) returns (ok: bool)
    requires stream.Ready() && (forall j {:trigger items[j]} :: 0 <= j < |items| ==> TypedValue(f.kind, items[j]))
    requires |EncArray(f, items)| < TWO_64
    modifies stream
    ensures stream.Ready()
    ensures ok == (|items| <= arraySize && AllSendable(f.kind, items, 0) && old(stream.Fits(|EncArray(f, items)|)))
    ensures ok ==> stream.Took(old(stream.data), old(stream.bytesWritten), EncArray(f, items))
    decreases f, 2
  {
    if |items| == 0 {
      return true;
    }
    if |items| > arraySize {
      return false;
    }
    if Packable(f.kind) {
      PackableIsSendable(f.kind, items, 0);
      ok := EncodePacked(stream, f, items);
    } else {
      ok := EncodeTagged(stream, f, items);
    }
  }

  method EncodePacked(stream: OStream, f: Field, items: seq<Value>) returns (ok: bool)
    requires stream.Ready() && (forall j {:trigger items[j]} :: 0 <= j < |items| ==> TypedValue(f.kind, items[j]))
    requires Packable(f.kind) && items != [] && |EncArray(f, items)| < TWO_64
    modifies stream
    ensures stream.Ready() && ok == old(stream.Fits(|EncArray(f, items)|))
    ensures ok ==> stream.Took(old(stream.data), old(stream.bytesWritten), EncArray(f, items))
    decreases f, 1, 1
  {
    ghost var e, t := EncItems(f.kind, items, 0), TagBytes(WT_STRING, f.tag);
    ok := stream.EncodeTag(WT_STRING, f.tag);
    if !ok {
      return;
    }
    var size := PackedSize(f, items);
    ok := stream.EncodeVarint(size);
    if !ok {
      return;
    }
    Associative(old(stream.data), t, VarintBytes(|e|));
    Associative(old(stream.data), t + VarintBytes(|e|), e);
    Associative(t, VarintBytes(|e|), e);
    if !stream.callback {
      stream.Count(size, e);
      return true;
    }
    ok := EncodeItems(stream, f.kind, items);
  }

  lemma {:induction false} PackableIsSendable(kind: Kind, items: seq<Value>, j: nat)
    requires Packable(kind)
    ensures AllSendable(kind, items, j)
    decreases |items| - j
  {
    if j < |items| { PackableIsSendable(kind, items, j + 1); }
  }
}
