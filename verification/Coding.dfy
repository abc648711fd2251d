/** Fixed-width and variable-length numbers in byte strings (util/coding.h, util/coding.cc). */
module Coding {
  import opened Wrappers

  type Byte = x: int | 0 <= x < 256
  type Bytes = seq<Byte>

  const TWO_32: nat := 0x1_0000_0000
  const TWO_64: nat := 0x1_0000_0000_0000_0000

  // ---------------------------------------------------------------- fixed width

  /** The lowest byte first. */
  function EncodeFixed32(x: nat): (b: Bytes)
    requires x < TWO_32
    ensures |b| == 4
  {
    var x1 := x / 256;
    var x2 := x1 / 256;
    [x % 256, x1 % 256, x2 % 256, x2 / 256]
  }

  function DecodeFixed32(b: Bytes): (x: nat)
    requires |b| == 4
    ensures x < TWO_32
  {
    b[0] as int + 256 * (b[1] as int + 256 * (b[2] as int + 256 * b[3] as int))
  }

  lemma Fixed32RoundTrip(x: nat)
    requires x < TWO_32
    ensures DecodeFixed32(EncodeFixed32(x)) == x
  {
    var x1 := x / 256;
    var x2 := x1 / 256;
    assert x == 256 * x1 + x % 256 && x1 == 256 * x2 + x1 % 256 && x2 == 256 * (x2 / 256) + x2 % 256;
  }

  function EncodeFixed64(x: nat): (b: Bytes)
    requires x < TWO_64
    ensures |b| == 8
  {
    EncodeFixed32(x % TWO_32) + EncodeFixed32(x / TWO_32)
  }

  function DecodeFixed64(b: Bytes): (x: nat)
    requires |b| == 8
    ensures x < TWO_64
  {
    DecodeFixed32(b[..4]) + DecodeFixed32(b[4..]) * TWO_32
  }

  lemma Fixed64RoundTrip(x: nat)
    requires x < TWO_64
    ensures DecodeFixed64(EncodeFixed64(x)) == x
  {
    Fixed32RoundTrip(x % TWO_32);
    Fixed32RoundTrip(x / TWO_32);
    var b := EncodeFixed64(x);
    assert b[..4] == EncodeFixed32(x % TWO_32) && b[4..] == EncodeFixed32(x / TWO_32);
  }

  // ---------------------------------------------------------------- variable length

  /** Seven bits a byte, the lowest first; all bytes but the last have the high bit set. */
  function VarintBytes(v: nat): (b: Bytes)
    ensures b != []
  {
    if v < 128 then [v] else [v % 128 + 128] + VarintBytes(v / 128)
  }

  /** The number a byte string starts with, and how many bytes it takes; at most `groups` bytes are
      looked at. */
  function ReadVarint(b: Bytes, groups: nat): (r: Option<(nat, nat)>)
    ensures r.Some? ==> 1 <= r.value.1 <= |b| && r.value.1 <= groups
  {
    if groups == 0 || b == [] then None
    else if b[0] < 128 then Some((b[0], 1))
    else
      var r := ReadVarint(b[1..], groups - 1);
      if r.None? then None else Some((b[0] - 128 + 128 * r.value.0, 1 + r.value.1))
  }

  function Pow128(n: nat): (p: nat)
    ensures p > 0
  {
    if n == 0 then 1 else 128 * Pow128(n - 1)
  }

  lemma {:induction false} ReadWritten(v: nat, rest: Bytes, groups: nat)
    requires v < Pow128(groups) && groups > 0
    ensures ReadVarint(VarintBytes(v) + rest, groups) == Some((v, |VarintBytes(v)|))
  {
    var b := VarintBytes(v) + rest;
    if v >= 128 {
      assert b[1..] == VarintBytes(v / 128) + rest;
      assert v / 128 < Pow128(groups - 1);
      ReadWritten(v / 128, rest, groups - 1);
    }
  }

  /** A number that is found is found whatever the limit, if that leaves room for it. */
  lemma {:induction false} MoreGroups(b: Bytes, groups: nat, more: nat)
    requires ReadVarint(b, groups).Some? && ReadVarint(b, groups).value.1 <= more
    ensures ReadVarint(b, more) == ReadVarint(b, groups)
  {
    if b[0] >= 128 { MoreGroups(b[1..], groups - 1, more - 1); }
  }

  lemma VarintRanges()
    ensures TWO_32 <= Pow128(5) && TWO_64 <= Pow128(10)
  {
    assert Pow128(2) == 0x4000;
    assert Pow128(4) == 0x1000_0000;
    assert Pow128(5) == 128 * Pow128(4);
    assert Pow128(7) == 128 * (128 * (128 * Pow128(4)));
    assert Pow128(8) == 128 * Pow128(7);
    assert Pow128(10) == 128 * (128 * Pow128(8));
  }

  lemma {:induction false} VarintSize(v: nat, n: nat)
    requires v < Pow128(n)
    ensures |VarintBytes(v)| <= if n == 0 then 1 else n
  {
    if v >= 128 { VarintSize(v / 128, n - 1); }
  }

  /** EncodeVarint32: one case for each length. */
  method EncodeVarint32(v: nat) returns (dst: Bytes)
    requires v < TWO_32
    ensures dst == VarintBytes(v)
  {
    if v < 0x80 {
      dst := [v];
    } else if v < 0x4000 {
      dst := [v % 128 + 128, v / 0x80];
    } else if v < 0x20_0000 {
      dst := [v % 128 + 128, v / 0x80 % 128 + 128, v / 0x4000];
      assert VarintBytes(v / 128) == [v / 0x80 % 128 + 128] + VarintBytes(v / 0x4000);
    } else if v < 0x1000_0000 {
      dst := [v % 128 + 128, v / 0x80 % 128 + 128, v / 0x4000 % 128 + 128, v / 0x20_0000];
      assert VarintBytes(v / 0x4000) == [v / 0x4000 % 128 + 128] + VarintBytes(v / 0x20_0000);
      assert VarintBytes(v / 128) == [v / 0x80 % 128 + 128] + VarintBytes(v / 0x4000);
    } else {
      dst := [v % 128 + 128, v / 0x80 % 128 + 128, v / 0x4000 % 128 + 128, v / 0x20_0000 % 128 + 128, v / 0x1000_0000];
      assert VarintBytes(v / 0x20_0000) == [v / 0x20_0000 % 128 + 128] + VarintBytes(v / 0x1000_0000);
      assert VarintBytes(v / 0x4000) == [v / 0x4000 % 128 + 128] + VarintBytes(v / 0x20_0000);
      assert VarintBytes(v / 128) == [v / 0x80 % 128 + 128] + VarintBytes(v / 0x4000);
    }
  }

  /** EncodeVarint64. */
  method EncodeVarint64(value: nat) returns (dst: Bytes)
    requires value < TWO_64
    ensures dst == VarintBytes(value)
  {
    var v := value;
    dst := [];
    while v >= 128
      invariant dst + VarintBytes(v) == VarintBytes(value)
    {
      assert VarintBytes(v) == [v % 128 + 128] + VarintBytes(v / 128);
      dst := dst + [v % 128 + 128];
      v := v / 128;
    }
    dst := dst + [v];
  }

  /** The number the low seven bits of the first `i` bytes make up. */
  function Low(b: Bytes, i: nat): nat
    requires i <= |b|
  {
    if i == 0 then 0 else Low(b, i - 1) + b[i - 1] % 128 * Pow128(i - 1)
  }

  ghost predicate AllContinue(b: Bytes, i: nat)
    requires i <= |b|
  {
    forall k :: 0 <= k < i ==> b[k] >= 128
  }

  lemma {:induction false} LowOfTail(b: Bytes, i: nat)
    requires 0 < i <= |b|
    ensures Low(b, i) == b[0] % 128 + 128 * Low(b[1..], i - 1)
  {
    if i > 1 {
      LowOfTail(b, i - 1);
      Distribute(b[i - 1] % 128, Pow128(i - 2));
    } else {
      assert Low(b, 0) == 0;
    }
  }

  lemma Distribute(d: nat, p: nat)
    ensures d * (128 * p) == 128 * (d * p)
  {
  }

  /** A byte below 128 ends the number. */
  lemma {:induction false} NumberEnds(b: Bytes, groups: nat, i: nat)
    requires i < |b| && i < groups && AllContinue(b, i) && b[i] < 128
    ensures ReadVarint(b, groups) == Some((Low(b, i + 1), i + 1))
  {
    LowOfTail(b, i + 1);
    if i > 0 {
      assert forall k :: 0 <= k < i - 1 ==> b[1..][k] == b[k + 1];
      NumberEnds(b[1..], groups - 1, i - 1);
    } else {
      assert Low(b[1..], 0) == 0;
    }
  }

  lemma {:induction false} NumberDoesNotEnd(b: Bytes, groups: nat, i: nat)
    requires i <= |b| && i <= groups && AllContinue(b, i) && (i == |b| || i == groups)
    ensures ReadVarint(b, groups).None?
  {
    if i > 0 {
      assert forall k :: 0 <= k < i - 1 ==> b[1..][k] == b[k + 1];
      NumberDoesNotEnd(b[1..], groups - 1, i - 1);
    }
  }

  /** What is found ends with the first byte below 128. */
  lemma {:induction false} VarintShape(b: Bytes, groups: nat)
    requires ReadVarint(b, groups).Some?
    ensures var (v, n) := ReadVarint(b, groups).value; AllContinue(b, n - 1) && b[n - 1] < 128 && v == Low(b, n)
  {
    var n := ReadVarint(b, groups).value.1;
    LowOfTail(b, n);
    if b[0] >= 128 {
      VarintShape(b[1..], groups - 1);
      assert forall k :: 0 < k < n - 1 ==> b[k] == b[1..][k - 1];
    } else {
      assert Low(b[1..], 0) == 0;
    }
  }

  /** GetVarint32 (five bytes, 32 bits) and GetVarint64 (ten bytes, 64 bits). */
  method GetVarint(input: Bytes, groups: nat, modulus: nat) returns (value: Option<nat>, rest: Bytes)
    requires modulus > 0
    ensures value.Some? <==> ReadVarint(input, groups).Some?
    ensures value.Some? ==> var (v, n) := ReadVarint(input, groups).value; value.value == v % modulus && rest == input[n..]
    ensures value.None? ==> rest == input
  {
    var result: nat, i: nat := 0, 0;
    var power := 1;
    while i < groups && i < |input|
      invariant i <= |input| && i <= groups && power == Pow128(i)
      invariant AllContinue(input, i) && result == Low(input, i)
    {
      var byte: nat := input[i];
      result := result + byte % 128 * power;
      i := i + 1;
      if byte < 128 {
        NumberEnds(input, groups, i - 1);
        return Some(result % modulus), input[i..];
      }
      power := 128 * power;
    }
    NumberDoesNotEnd(input, groups, i);
    return None, input;
  }

  function LengthPrefixed(s: Bytes): Bytes {
    VarintBytes(|s|) + s
  }

  method PutLengthPrefixedSlice(dst: Bytes, value: Bytes) returns (dst': Bytes)
    requires |value| < TWO_32
    ensures dst' == dst + LengthPrefixed(value)
  {
    var n := EncodeVarint32(|value|);
    dst' := dst + n;
    dst' := dst' + value;
    assert dst' == dst + (n + value);
  }

  /** The byte string that some bytes start with, and where what follows it begins. */
  function ReadSlice(input: Bytes): (r: Option<(Bytes, nat)>)
    ensures r.Some? ==> 1 <= r.value.1 <= |input|
  {
    var length := ReadVarint(input, 5);
    if length.None? || length.value.1 + length.value.0 % TWO_32 > |input| then None
    else
      var (v, n) := length.value;
      Some((input[n..n + v % TWO_32], n + v % TWO_32))
  }

  lemma ReadPrefix(s: Bytes, after: Bytes)
    requires |s| < TWO_32
    ensures ReadSlice(LengthPrefixed(s) + after) == Some((s, |LengthPrefixed(s)|))
    ensures (LengthPrefixed(s) + after)[|LengthPrefixed(s)|..] == after
  {
    var input := LengthPrefixed(s) + after;
    VarintRanges();
    ReadWritten(|s|, s + after, 5);
    assert input == VarintBytes(|s|) + (s + after);
  }

  /** GetLengthPrefixedSlice, on any bytes. */
  method GetLengthPrefixedSlice(input: Bytes) returns (result: Option<Bytes>, rest: Bytes)
    ensures result.Some? <==> ReadSlice(input).Some?
    ensures result.Some? ==> var (s, n) := ReadSlice(input).value; result.value == s && rest == input[n..]
    ensures |rest| <= |input|
  {
    var len;
    len, rest := GetVarint(input, 5, TWO_32);
    if len.Some? && |rest| >= len.value {
      result := Some(rest[..len.value]);
      rest := rest[len.value..];
    } else {
      result := None;
    }
  }

  // ---------------------------------------------------------------- putting byte strings together

  function ConcatAll<T>(parts: seq<seq<T>>): seq<T> {
    if parts == [] then [] else parts[0] + ConcatAll(parts[1..])
  }

  lemma Associative<T>(a: seq<T>, b: seq<T>, c: seq<T>)
    ensures (a + b) + c == a + (b + c)
  {
  }

  lemma {:induction false} ConcatAllAppend<T>(ps: seq<seq<T>>, qs: seq<seq<T>>)
    ensures ConcatAll(ps + qs) == ConcatAll(ps) + ConcatAll(qs)
  {
    if ps == [] {
      assert ps + qs == qs;
    } else {
      ConcatAllAppend(ps[1..], qs);
      assert (ps + qs)[1..] == ps[1..] + qs;
      Associative(ps[0], ConcatAll(ps[1..]), ConcatAll(qs));
    }
  }

  lemma ConcatAllOne<T>(p: seq<T>)
    ensures ConcatAll([p]) == p
  {
    assert ConcatAll<T>([]) == [];
  }

  lemma ConcatAllSnoc<T>(ps: seq<seq<T>>, p: seq<T>)
    ensures ConcatAll(ps + [p]) == ConcatAll(ps) + p
  {
    ConcatAllAppend(ps, [p]);
    ConcatAllOne(p);
  }
}
