/** Input streams, substreams of limited length, and the numbers at their front
    (nanopb/pb_decode.c). */
module PbStreams {
  import opened Wrappers
  import opened Coding
  import opened PbWire

  class IStream {
    const buffer: Bytes
    /** Where the next byte is. */
    var state: nat
    var bytesLeft: nat

    ghost predicate Ready()
      reads this
    {
      state + bytesLeft <= |buffer|
    }

    /** Where the stream ends. */
    ghost function End(): nat
      reads this
    {
      state + bytesLeft
    }

    ghost function Ahead(): Bytes
      requires Ready()
      reads this
    {
      buffer[state..state + bytesLeft]
    }

    constructor (buffer: Bytes, state: nat, bytesLeft: nat)
      requires state + bytesLeft <= |buffer|
      ensures this.buffer == buffer && this.state == state && this.bytesLeft == bytesLeft && Ready()
    {
      this.buffer, this.state, this.bytesLeft := buffer, state, bytesLeft;
    }

    /** pb_read. */
    method Read(count: nat) returns (r: Option<Bytes>)
      requires Ready()
      modifies this
      ensures Ready() && bytesLeft <= old(bytesLeft) && End() == old(End()) && (r.None? <==> count > old(bytesLeft))
      ensures r.Some? ==> r.value == old(Ahead())[..count] && Ahead() == old(Ahead())[count..]
      ensures r.Some? ==> state == old(state) + count && bytesLeft == old(bytesLeft) - count
    {
      if count == 0 {
        return Some([]);
      }
      if bytesLeft < count {
        return None;
      }
      r := Some(buffer[state..state + count]);
      state := state + count;
      bytesLeft := bytesLeft - count;
    }

    /** pb_readbyte. */
    method ReadByte() returns (r: Option<Byte>)
      requires Ready()
      modifies this
      ensures Ready() && (r.None? <==> old(bytesLeft) == 0)
      ensures r.None? ==> unchanged(this)
      ensures r.Some? ==> bytesLeft == old(bytesLeft) - 1 && state == old(state) + 1
      ensures r.Some? ==> r.value == old(Ahead())[0] && Ahead() == old(Ahead())[1..]
    {
      if bytesLeft == 0 {
        return None;
      }
      r := Some(buffer[state]);
      state := state + 1;
      bytesLeft := bytesLeft - 1;
    }

    /** pb_decode_varint: up to ten bytes. */
    method DecodeVarint() returns (r: Option<nat>)
      requires Ready()
      modifies this
      ensures Ready() && bytesLeft <= old(bytesLeft) && End() == old(End())
      ensures r.Some? <==> ReadVarint(old(Ahead()), 10).Some?
      ensures r.Some? ==> var (v, n) := ReadVarint(old(Ahead()), 10).value; r.value == v % TWO_64 && Ahead() == old(Ahead())[n..]
    {
      ghost var b := Ahead();
      var result: nat, power, i: nat := 0, 1, 0;
      while true
        invariant Ready() && i <= |b| && i <= 10 && Ahead() == b[i..] && power == Pow128(i)
        invariant bytesLeft == old(bytesLeft) - i && End() == old(End())
        invariant AllContinue(b, i) && result == Low(b, i)
        decreases 10 - i
      {
        if i >= 10 {
          NumberDoesNotEnd(b, 10, i);
          return None;
        }
        var byte := ReadByte();
        if byte.None? {
          NumberDoesNotEnd(b, 10, i);
          return None;
        }
        var group: nat := byte.value % 128;
        assert result + group * power == Low(b, i + 1);
        result := result + group * power;
        i := i + 1;
        if byte.value < 128 {
          NumberEnds(b, 10, i - 1);
          return Some(result % TWO_64);
        }
        power := 128 * power;
      }
    }

    /** pb_decode_varint32, on any bytes.  `eof` says that the stream was at its end. */
    method DecodeVarint32() returns (r: Option<nat>, eof: bool)
      requires Ready()
      modifies this
      ensures Ready() && bytesLeft <= old(bytesLeft) && End() == old(End())
      ensures eof <==> old(bytesLeft) == 0
      ensures r.Some? <==> Varint32(old(Ahead())).Some?
      ensures r.Some? ==> var (v, n) := Varint32(old(Ahead())).value; r.value == v && Ahead() == old(Ahead())[n..]
    {
      ghost var b := Ahead();
      var byte := ReadByte();
      eof := byte.None?;
      if byte.None? {
        return None, eof;
      }
      if byte.value < 128 {
        NumberEnds(b, |b|, 0);
        assert Low(b, 0) == 0;
        return Some(byte.value), eof;
      }
      FirstGroup(b);
      r := DecodeRest32(b, byte.value as nat - 128);
    }

    /** The bytes of a 32-bit varint after the first. */
    method DecodeRest32(ghost b: Bytes, first: nat) returns (r: Option<nat>)
      requires Ready() && b != [] && b[0] >= 128 && first == Low5(b, 1) && Ahead() == b[1..]
      modifies this
      ensures Ready() && bytesLeft <= old(bytesLeft) && End() == old(End())
      ensures r.Some? <==> Varint32(b).Some?
      ensures r.Some? ==> var (v, n) := Varint32(b).value; r.value == v && Ahead() == b[n..]
    {
      var result: nat, bitpos: nat, power: nat, i: nat := first, 7, 128, 1;
      var byte: nat := 128;
      while byte >= 128
        invariant Ready() && 1 <= i <= |b| && Ahead() == b[i..] && bytesLeft == old(bytesLeft) + 1 - i && End() == old(End())
        invariant bitpos == 7 * i && (i <= 5 ==> power == Pow128(i)) && byte == (if i == 1 then 128 else b[i - 1])
        invariant AllContinue(b, i - 1) && b[0] >= 128
        invariant result == Low5(b, i) && Extended(b, i)
        decreases byte >= 128, bytesLeft
      {
        var next := ReadByte();
        if next.None? {
          NumberDoesNotEnd(b, |b|, i);
          return None;
        }
        byte := next.value;
        var fits;
        fits, result := AddGroup(b, i, result, byte, bitpos, power);
        if !fits {
          TooLong(b, i);
          return None;
        }
        power := 128 * power;
        i := i + 1;
        bitpos := bitpos + 7;
      }
      NumberEnds(b, |b|, i - 1);
      if bitpos == 35 && byte / 16 % 8 != 0 {
        return None;
      }
      return Some(result);
    }

    /** pb_decode_tag, on any bytes.  A zero ends a message, as does the end of the stream. */
    method DecodeTag() returns (ok: bool, wire: nat, tag: nat, eof: bool)
      requires Ready()
      modifies this
      ensures Ready() && bytesLeft <= old(bytesLeft) && End() == old(End()) && (ok ==> bytesLeft < old(bytesLeft))
      ensures ok <==> Varint32(old(Ahead())).Some? && Varint32(old(Ahead())).value.0 != 0
      ensures ok ==> var v := Varint32(old(Ahead())).value.0; tag == v / 8 && wire == v % 8
      ensures Varint32(old(Ahead())).Some? ==> Ahead() == old(Ahead())[Varint32(old(Ahead())).value.1..]
      ensures !ok ==> (eof <==> old(bytesLeft) == 0 || Varint32(old(Ahead())).Some?)
    {
      ok, wire, tag := false, 0, 0;
      var temp;
      temp, eof := DecodeVarint32();
      if temp.None? {
        return;
      }
      if temp.value == 0 {
        eof := true;
        return;
      }
      ok, tag, wire := true, temp.value / 8, temp.value % 8;
    }

    /** pb_skip_varint. */
    method SkipVarint() returns (ok: bool)
      requires Ready()
      modifies this
      ensures Ready() && bytesLeft <= old(bytesLeft) && End() == old(End())
      ensures ok <==> NumberIn(old(Ahead())).Some?
      ensures ok ==> Ahead() == old(Ahead())[NumberIn(old(Ahead())).value.1..]
    {
      ghost var b := Ahead();
      ghost var i := 0;
      while true
        invariant Ready() && i <= |b| && Ahead() == b[i..] && bytesLeft == old(bytesLeft) - i && End() == old(End())
        invariant AllContinue(b, i)
        decreases bytesLeft
      {
        var byte := ReadByte();
        if byte.None? {
          NumberDoesNotEnd(b, |b|, i);
          return false;
        }
        i := i + 1;
        if byte.value < 128 {
          NumberEnds(b, |b|, i - 1);
          return true;
        }
      }
    }

    /** pb_skip_field: exactly the bytes of the field are passed over. */
    method SkipField(wire: nat) returns (ok: bool)
      requires Ready()
      modifies this
      ensures Ready() && bytesLeft <= old(bytesLeft) && End() == old(End())
      ensures ok <==> AfterField(wire, old(Ahead())).Some?
      ensures ok ==> Ahead() == AfterField(wire, old(Ahead())).value
    {
      ghost var b := Ahead();
      var r: Option<Bytes> := None;
      if wire == WT_VARINT {
        ok := SkipVarint();
        return;
      } else if wire == WT_64BIT {
        r := Read(8);
      } else if wire == WT_STRING {
        var length, eof := DecodeVarint32();
        if length.Some? {
          DelimitedBy(b);
          r := Read(length.value);
        }
      } else if wire == WT_32BIT {
        r := Read(4);
      }
      ok := r.Some?;
    }

    /** pb_make_string_substream, on any bytes: the next bytes, as many as the length says, become a
        stream of their own. */
    method MakeSubstream() returns (sub: Option<IStream>)
      requires Ready()
      modifies this
      ensures Ready() && bytesLeft <= old(bytesLeft) && (sub.None? ==> End() == old(End()))
      ensures sub.Some? ==> fresh(sub.value) && SplitsOff(sub.value) && sub.value.bytesLeft + bytesLeft < old(bytesLeft)
      ensures sub.Some? ==> sub.value.End() + bytesLeft == old(End()) && End() <= old(End())
      ensures sub.Some? <==> ReadDelimited(old(Ahead())).Some?
      ensures sub.Some? ==> var (x, after) := ReadDelimited(old(Ahead())).value; sub.value.Ahead() == x && Beyond(sub.value) == after
    {
      ghost var b := Ahead();
      var size, eof := DecodeVarint32();
      if size.Some? { DelimitedBy(b); }
      if size.None? || bytesLeft < size.value {
        return None;
      }
      var s := SplitOff(size.value);
      sub := Some(s);
    }

    method SplitOff(size: nat) returns (sub: IStream)
      requires Ready() && size <= bytesLeft
      modifies this
      ensures Ready() && fresh(sub) && SplitsOff(sub) && sub.bytesLeft + bytesLeft == old(bytesLeft)
      ensures sub.End() + bytesLeft == old(End()) && End() <= old(End())
      ensures sub.Ahead() == old(Ahead())[..size] && Beyond(sub) == old(Ahead())[size..]
    {
      SliceAhead(buffer, state, bytesLeft, size);
      sub := new IStream(buffer, state, size);
      bytesLeft := bytesLeft - size;
    }

    /** The substream lies right before what is left of the parent. */
    ghost predicate SplitsOff(sub: IStream)
      reads this, sub
    {
      sub != this && sub.buffer == buffer && sub.Ready() && sub.state + sub.bytesLeft + bytesLeft <= |buffer|
    }

    /** What the parent has left after the substream. */
    ghost function Beyond(sub: IStream): Bytes
      requires SplitsOff(sub)
      reads this, sub
    {
      From(sub.End())
    }

    /** What the stream has left if it goes on at `at`. */
    ghost function From(at: nat): Bytes
      requires at + bytesLeft <= |buffer|
      reads this
    {
      buffer[at..at + bytesLeft]
    }

    /** pb_close_string_substream: whatever the substream did not read is skipped, so that the
        parent goes on exactly behind the declared length. */
    method CloseSubstream(sub: IStream)
      requires Ready() && SplitsOff(sub)
      modifies this, sub
      ensures Ready() && bytesLeft == old(bytesLeft) && End() == old(sub.End()) + bytesLeft
      ensures state == old(sub.End()) && Ahead() == old(Beyond(sub))
    {
      if sub.bytesLeft != 0 {
        var rest := sub.Read(sub.bytesLeft);
      }
      state := sub.state;
    }
  }

  lemma SliceAhead(buffer: Bytes, state: nat, n: nat, size: nat)
    requires state + n <= |buffer| && size <= n
    ensures buffer[state..state + n][..size] == buffer[state..state + size]
    ensures buffer[state..state + n][size..] == buffer[state + size..state + n]
  {
  }

  // ---------------------------------------------------------------- numbers of 32 bits

  /** The number at the front of some bytes, however long. */
  function NumberIn(b: Bytes): Option<(nat, nat)> {
    ReadVarint(b, |b|)
  }

  /** The 32 bits that the first five groups, or fewer, make up. */
  function Low5(b: Bytes, i: nat): (v: nat)
    requires i <= |b|
    ensures v < TWO_32
  {
    Low(b, if i < 5 then i else 5) % TWO_32
  }

  /** A byte after the fifth holds nothing, or goes on with the sign of a negative number. */
  predicate Extends(b: Bytes, i: nat)
    requires 5 <= i < |b|
  {
    b[i] % 128 == 0 || (Low5(b, 5) >= 0x8000_0000 && b[i] == if 7 * i < 63 then 0xff else 0x01)
  }

  predicate Extended(b: Bytes, n: nat)
    requires n <= |b|
  {
    forall i {:trigger Extends(b, i)} :: 5 <= i < n ==> Extends(b, i)
  }

  /** The 32-bit number at the front of some bytes, and how many it takes: a number of 32 bits, or a
      longer form that only extends it. */
  function Varint32(b: Bytes): (r: Option<(nat, nat)>)
    ensures r.Some? ==> r.value.0 < TWO_32 && 1 <= r.value.1 <= |b|
  {
    var number := NumberIn(b);
    if number.None? then None
    else
      var n := number.value.1;
      if Extended(b, n) && (n == 5 ==> b[4] / 16 % 8 == 0) then Some((Low5(b, n), n)) else None
  }

  /** A number and as many bytes as it says, and what follows. */
  function ReadDelimited(b: Bytes): (r: Option<(Bytes, Bytes)>)
    ensures r.Some? ==> |r.value.0| + |r.value.1| < |b| && r.value.1 == b[|b| - |r.value.1|..]
  {
    var length := Varint32(b);
    if length.None? || length.value.1 + length.value.0 > |b| then None
    else
      var (size, n) := length.value;
      Some((b[n..][..size], b[n..][size..]))
  }

  lemma DelimitedBy(b: Bytes)
    requires Varint32(b).Some?
    ensures var (size, n) := Varint32(b).value; var rest := b[n..];
      ReadDelimited(b) == if size > |rest| then None else Some((rest[..size], rest[size..]))
  {
  }

  /** What follows a field that is skipped. */
  function AfterField(wire: nat, b: Bytes): (r: Option<Bytes>)
    ensures r.Some? ==> |r.value| < |b| && r.value == b[|b| - |r.value|..]
    ensures r.Some? ==> wire == WT_VARINT || wire == WT_64BIT || wire == WT_STRING || wire == WT_32BIT
  {
    if wire == WT_VARINT then
      var number := NumberIn(b);
      if number.None? then None else Some(b[number.value.1..])
    else if wire == WT_64BIT then (if |b| < 8 then None else Some(b[8..]))
    else if wire == WT_STRING then
      var delimited := ReadDelimited(b);
      if delimited.None? then None else Some(delimited.value.1)
    else if wire == WT_32BIT then (if |b| < 4 then None else Some(b[4..]))
    else None
  }

  lemma FirstGroup(b: Bytes)
    requires b != [] && b[0] >= 128
    ensures Low5(b, 1) == b[0] as nat - 128
  {
    assert Low(b, 0) == 0 && Pow128(0) == 1;
  }

  /** Bytes that do not extend the number spoil it, wherever it ends. */
  lemma TooLong(b: Bytes, i: nat)
    requires 5 <= i < |b| && AllContinue(b, i) && !Extends(b, i)
    ensures Varint32(b).None?
  {
    if NumberIn(b).Some? { VarintShape(b, |b|); }
  }

  lemma AddModulo(low: nat, d: nat, p: nat)
    ensures (low % TWO_32 + d * p) % TWO_32 == (low + d * p) % TWO_32
  {
    AddModuloOf(low, d * p);
  }

  lemma AddModuloOf(low: nat, more: nat)
    ensures (low % TWO_32 + more) % TWO_32 == (low + more) % TWO_32
  {
  }

  /** One group of seven bits: it goes into the 32 bits, or must only extend them. */
  method AddGroup(ghost b: Bytes, ghost i: nat, result: nat, byte: nat, bitpos: nat, power: nat) returns (fits: bool, result': nat)
    requires 1 <= i < |b| && byte == b[i] && bitpos == 7 * i && (i <= 5 ==> power == Pow128(i)) && result == Low5(b, i)
    ensures fits <==> i < 5 || Extends(b, i)
    ensures fits ==> result' == Low5(b, i + 1)
  {
    fits, result' := true, result;
    if bitpos >= 32 {
      var signExtension := if bitpos < 63 then 0xff else 0x01;
      if byte % 128 != 0 && (result < 0x8000_0000 || byte != signExtension) {
        fits := false;
      }
    } else {
      AddModulo(Low(b, i), byte % 128, power);
      result' := (result + byte % 128 * power) % TWO_32;
    }
  }

  lemma {:induction false} LowBound(b: Bytes, i: nat)
    requires i <= |b|
    ensures Low(b, i) < Pow128(i)
  {
    if i > 0 {
      LowBound(b, i - 1);
      GroupBound(b[i - 1] % 128, Pow128(i - 1));
    }
  }

  lemma GroupBound(d: nat, p: nat)
    requires d < 128
    ensures d * p <= 127 * p
  {
  }

  /** The fifth byte of a number of 32 bits holds four bits. */
  lemma FifthByte(b: Bytes, v: nat)
    requires |b| >= 5 && v == Low(b, 5) < TWO_32 && b[4] < 128
    ensures b[4] < 16
  {
    assert Pow128(2) == 0x4000 && Pow128(4) == 0x1000_0000;
    assert Low(b, 5) == Low(b, 4) + b[4] % 128 * Pow128(4);
  }

  lemma ShortNumber(b: Bytes, v: nat, n: nat)
    requires NumberIn(b) == Some((v, n)) && n <= 5 && n <= |b| && v == Low(b, n) < TWO_32 && (n == 5 ==> b[4] < 16)
    ensures Varint32(b) == Some((v, n))
  {
  }

  lemma ShortIn(b: Bytes, v: nat, n: nat)
    requires ReadVarint(b, 5) == Some((v, n)) && v < TWO_32
    ensures Varint32(b) == Some((v, n))
  {
    MoreGroups(b, 5, |b|);
    VarintShape(b, 5);
    if n == 5 { FifthByte(b, v); }
    ShortNumber(b, v, n);
  }

  /** A number of 32 bits is read back. */
  lemma Written32(v: nat, after: Bytes)
    requires v < TWO_32
    ensures var b := VarintBytes(v) + after; Varint32(b) == Some((v, |VarintBytes(v)|)) && b[|VarintBytes(v)|..] == after
  {
    VarintRanges();
    ReadWritten(v, after, 5);
    ShortIn(VarintBytes(v) + after, v, |VarintBytes(v)|);
  }

  /** A number without its lowest `n` groups. */
  function Shifted(v: nat, n: nat): nat {
    if n == 0 then v else Shifted(v / 128, n - 1)
  }

  /** The first bytes of a long number, and the rest of it. */
  lemma {:induction false} AfterGroups(v: nat, n: nat)
    requires Shifted(v, n) > 0
    ensures |VarintBytes(v)| > n && VarintBytes(v)[n..] == VarintBytes(Shifted(v, n)) && AllContinue(VarintBytes(v), n)
  {
    if n > 0 {
      ShiftedZero(v, n);
      AfterGroups(v / 128, n - 1);
      assert VarintBytes(v)[1..] == VarintBytes(v / 128);
      assert VarintBytes(v)[n..] == VarintBytes(v / 128)[n - 1..];
      assert forall k :: 0 < k < n ==> VarintBytes(v)[k] == VarintBytes(v / 128)[k - 1];
    }
  }

  lemma {:induction false} ShiftedZero(v: nat, n: nat)
    requires n > 0 && Shifted(v, n) > 0
    ensures v >= 128
  {
    if n > 1 { ShiftedZero(v / 128, n - 1); }
  }

  lemma ShiftedFive(v: nat)
    ensures Shifted(v, 5) == v / 0x8_0000_0000
  {
    var v1 := v / 128;
    var v2 := v1 / 128;
    var v3 := v2 / 128;
    var v4 := v3 / 128;
    assert v2 == v / 0x4000 && v3 == v / 0x20_0000 && v4 == v / 0x1000_0000;
    assert Shifted(v4, 1) == v4 / 128 && Shifted(v3, 2) == v4 / 128 && Shifted(v2, 3) == v4 / 128 && Shifted(v1, 4) == v4 / 128;
  }

  lemma SignBytes()
    ensures VarintBytes(0x1fff_ffff) == [0xff, 0xff, 0xff, 0xff, 0x01]
  {
    assert VarintBytes(0xff) == [0xff] + VarintBytes(1);
    assert VarintBytes(0x7fff) == [0xff] + VarintBytes(0xff);
    assert VarintBytes(0x3f_ffff) == [0xff] + VarintBytes(0x7fff);
    assert VarintBytes(0x1fff_ffff) == [0xff] + VarintBytes(0x3f_ffff);
  }

  lemma AddWhole(x: nat, m: nat)
    ensures (x + m * TWO_32) % TWO_32 == x % TWO_32
  {
  }

  lemma GroupAbove(b: Bytes, i: nat, power: nat)
    requires i < |b| && Pow128(i) == power * TWO_32
    ensures Low(b, i + 1) % TWO_32 == Low(b, i) % TWO_32
  {
    var d := b[i] % 128;
    assert d * (power * TWO_32) == (d * power) * TWO_32;
    AddWhole(Low(b, i), d * power);
  }

  lemma Powers()
    ensures Pow128(5) == 8 * TWO_32 && Pow128(6) == 0x400 * TWO_32 && Pow128(7) == 0x2_0000 * TWO_32
    ensures Pow128(8) == 0x100_0000 * TWO_32 && Pow128(9) == 0x8000_0000 * TWO_32
  {
    assert Pow128(2) == 0x4000 && Pow128(4) == 0x1000_0000;
    assert Pow128(5) == 128 * Pow128(4) && Pow128(6) == 128 * Pow128(5) && Pow128(7) == 128 * Pow128(6);
    assert Pow128(8) == 128 * Pow128(7) && Pow128(9) == 128 * Pow128(8);
  }

  /** The low 32 bits of ten groups are those of the first five. */
  lemma LowOfTen(b: Bytes)
    requires |b| >= 10
    ensures Low(b, 10) % TWO_32 == Low(b, 5) % TWO_32
  {
    Powers();
    GroupAbove(b, 5, 8);
    GroupAbove(b, 6, 0x400);
    GroupAbove(b, 7, 0x2_0000);
    GroupAbove(b, 8, 0x100_0000);
    GroupAbove(b, 9, 0x8000_0000);
  }

  /** A negative number of 32 bits, written as one of 64 bits, is read back as its 32 bits. */
  lemma SignExtended(v: nat, after: Bytes)
    requires TWO_64 - 0x8000_0000 <= v < TWO_64
    ensures Varint32(VarintBytes(v) + after) == Some((v % TWO_32, 10))
  {
    var b := VarintBytes(v) + after;
    VarintRanges();
    ShiftedFive(v);
    assert v / 0x8_0000_0000 == 0x1fff_ffff;
    AfterGroups(v, 5);
    SignBytes();
    assert forall i :: 5 <= i < 10 ==> b[i] == VarintBytes(v)[5..][i - 5];
    ReadWritten(v, after, 10);
    MoreGroups(b, 10, |b|);
    VarintShape(b, 10);
    LowOfTen(b);
    TenBytes(b, v);
  }

  lemma TenBytes(b: Bytes, v: nat)
    requires NumberIn(b) == Some((v, 10)) && |b| >= 10 && Low(b, 5) % TWO_32 == v % TWO_32 >= 0x8000_0000
    requires b[5] == 0xff && b[6] == 0xff && b[7] == 0xff && b[8] == 0xff && b[9] == 0x01
    ensures Varint32(b) == Some((v % TWO_32, 10))
  {
    forall i | 5 <= i < 10 ensures Extends(b, i) {
    }
  }

  /** A byte string with its length in front is read back. */
  lemma WrittenDelimited(x: Bytes, after: Bytes)
    requires |x| < TWO_32
    ensures ReadDelimited(LengthPrefixed(x) + after) == Some((x, after))
  {
    Associative(VarintBytes(|x|), x, after);
    Written32(|x|, x + after);
    assert (x + after)[..|x|] == x && (x + after)[|x|..] == after;
  }
}
