/**
 The primitives of the wire format, as the Protocol Buffers Encoding guide gives them
 ("Base 128 Varints", "Packed Repeated Fields"). Both message implementations call them
 in a library that is not part of the repository.
 */
module Wire {
  import opened Wrappers

  const INT_MAX := 0x7fff_ffff

  type byte = x: int | 0 <= x < 0x100
  type uint32 = x: int | 0 <= x < 0x1_0000_0000
  type int32 = x: int | -0x8000_0000 <= x < 0x8000_0000

  /** Seven bits a byte, least significant group first, high bit set on all but the last. */
  function Varint(n: nat): (s: seq<byte>)
    ensures |s| >= 1
  {
    if n < 128 then [n] else [n % 128 + 128] + Varint(n / 128)
  }

  /** The size a 32-bit value takes, by its thresholds. */
  function VarintSize(n: uint32): (k: nat)
    ensures 1 <= k <= 5
  {
    if n < 0x80 then 1
    else if n < 0x4000 then 2
    else if n < 0x20_0000 then 3
    else if n < 0x1000_0000 then 4
    else 5
  }

  lemma VarintSizeIsLength(n: uint32)
    ensures |Varint(n)| == VarintSize(n)
  {
    var a := n / 128;
    var b := a / 128;
    var c := b / 128;
    var e := c / 128;
    assert |Varint(n)| == if n < 128 then 1 else 1 + |Varint(a)|;
    assert |Varint(a)| == if a < 128 then 1 else 1 + |Varint(b)|;
    assert |Varint(b)| == if b < 128 then 1 else 1 + |Varint(c)|;
    assert |Varint(c)| == if c < 128 then 1 else 1 + |Varint(e)|;
    assert e < 128;
  }

  lemma Quotients(n: nat)
    ensures n / 0x80 / 0x80 == n / 0x4000
    ensures n / 0x4000 / 0x80 == n / 0x20_0000
    ensures n / 0x20_0000 / 0x80 == n / 0x1000_0000
  {
  }

  /** The bytes of a 32-bit value, by its length. */
  lemma {:induction false} VarintBytes(n: uint32)
    ensures n < 0x80 ==> Varint(n) == [n]
    ensures 0x80 <= n < 0x4000 ==> Varint(n) == [n % 0x80 + 0x80, n / 0x80]
    ensures 0x4000 <= n < 0x20_0000 ==> Varint(n) == [n % 0x80 + 0x80, n / 0x80 % 0x80 + 0x80, n / 0x4000]
    ensures 0x20_0000 <= n < 0x1000_0000 ==>
      Varint(n) == [n % 0x80 + 0x80, n / 0x80 % 0x80 + 0x80, n / 0x4000 % 0x80 + 0x80, n / 0x20_0000]
    ensures 0x1000_0000 <= n ==>
      Varint(n)
      == [n % 0x80 + 0x80, n / 0x80 % 0x80 + 0x80, n / 0x4000 % 0x80 + 0x80, n / 0x20_0000 % 0x80 + 0x80,
          n / 0x1000_0000]
  {
    Quotients(n);
    var a, b, c, e := n / 0x80, n / 0x4000, n / 0x20_0000, n / 0x1000_0000;
    if n < 0x4000 {
      assert a < 0x80 && Varint(a) == [a];
    } else if n < 0x20_0000 {
      assert b < 0x80 && Varint(b) == [b];
      assert Varint(a) == [a % 0x80 + 0x80] + Varint(b);
    } else if n < 0x1000_0000 {
      assert c < 0x80 && Varint(c) == [c];
      assert Varint(b) == [b % 0x80 + 0x80] + Varint(c);
      assert Varint(a) == [a % 0x80 + 0x80] + Varint(b);
    } else {
      assert e < 0x80 && Varint(e) == [e];
      assert Varint(c) == [c % 0x80 + 0x80] + Varint(e);
      assert Varint(b) == [b % 0x80 + 0x80] + Varint(c);
      assert Varint(a) == [a % 0x80 + 0x80] + Varint(b);
    }
  }

  /** A value and the number of bytes it took; None when the bytes end early or run past ten. */
  function ReadRawVarint(s: seq<byte>, left: nat): (r: Option<(nat, nat)>)
    ensures r.Some? ==> 1 <= r.value.1 <= |s|
  {
    if left == 0 || s == [] then None
    else if s[0] < 128 then Some((s[0], 1))
    else match ReadRawVarint(s[1..], left - 1)
      case None => None
      case Some(p) => Some((s[0] - 128 + 128 * p.0, p.1 + 1))
  }

  /** A 32-bit read keeps the low 32 bits of a varint of at most ten bytes. */
  function ReadVarint32(s: seq<byte>): (r: Option<(uint32, nat)>)
    ensures r.Some? ==> 1 <= r.value.1 <= |s|
  {
    match ReadRawVarint(s, 10)
    case None => None
    case Some(p) => Some((p.0 % 0x1_0000_0000, p.1))
  }

  /** The low seven bits of byte k, if it is one of the first n. */
  function Bits(s: seq<byte>, n: nat, k: nat): nat {
    if k < n <= |s| then s[k] % 128 else 0
  }

  /** A number of n bytes in front of s, as its first seven bits and what the other bytes add. */
  lemma {:induction false} RawFirst(s: seq<byte>, left: nat, n: nat) returns (more: nat)
    requires 0 < n <= left && n <= |s| && s[n - 1] < 128 && forall k | 0 <= k < n - 1 :: s[k] >= 128
    ensures ReadRawVarint(s, left) == Some((s[0] % 128 + 128 * more, n))
    ensures if n == 1 then more == 0 else ReadRawVarint(s[1..], left - 1) == Some((more, n - 1))
  {
    more := 0;
    if n > 1 {
      var rest := RawFirst(s[1..], left - 1, n - 1);
      more := ReadRawVarint(s[1..], left - 1).value.0;
    }
  }

  /** The same for the k bytes from byte i on. */
  lemma RawAt(s: seq<byte>, n: nat, i: nat, value: nat) returns (more: nat)
    requires n <= 10 && n <= |s| && 0 < n && s[n - 1] < 128 && forall k | 0 <= k < n - 1 :: s[k] >= 128
    requires if i >= n then value == 0 else ReadRawVarint(s[i..], 10 - i) == Some((value, n - i))
    ensures value == Bits(s, n, i) + 128 * more
    ensures if i + 1 >= n then more == 0 else ReadRawVarint(s[i + 1..], 9 - i) == Some((more, n - i - 1))
  {
    more := 0;
    if i < n {
      more := RawFirst(s[i..], 10 - i, n - i);
      assert s[i..][1..] == s[i + 1..];
    }
  }

  lemma {:induction false} RawNone(s: seq<byte>, left: nat)
    requires forall k | 0 <= k < |s| && k < left :: s[k] >= 128
    ensures ReadRawVarint(s, left).None?
  {
    if s != [] && left > 0 {
      RawNone(s[1..], left - 1);
    }
  }

  /**
   A number ends at its first byte below 128. It is the low 32 bits of the seven-bit groups, least
   significant first; without such a byte among the first ten there is none.
   */
  lemma ReadMeans(s: seq<byte>, n: nat)
    requires n <= |s| && n <= 10 && forall k | 0 <= k < n :: s[k] >= 128
    ensures n == 10 || n == |s| ==> ReadVarint32(s) == None
    ensures n < 10 && n < |s| && s[n] < 128 ==>
      var value := Bits(s, n + 1, 0) + 0x80 * Bits(s, n + 1, 1) + 0x4000 * Bits(s, n + 1, 2)
                   + 0x20_0000 * Bits(s, n + 1, 3) + 0x1000_0000 * Bits(s, n + 1, 4);
      ReadVarint32(s) == Some((value % 0x1_0000_0000, n + 1))
  {
    if n == 10 || n == |s| {
      RawNone(s, 10);
    } else if s[n] < 128 {
      var more := RawFirst(s, 10, n + 1);
      assert s[0..] == s;
      var v1 := RawAt(s, n + 1, 0, ReadRawVarint(s, 10).value.0);
      var v2 := RawAt(s, n + 1, 1, v1);
      var v3 := RawAt(s, n + 1, 2, v2);
      var v4 := RawAt(s, n + 1, 3, v3);
      var v5 := RawAt(s, n + 1, 4, v4);
      LowBits(Bits(s, n + 1, 0) + 0x80 * Bits(s, n + 1, 1) + 0x4000 * Bits(s, n + 1, 2)
              + 0x20_0000 * Bits(s, n + 1, 3) + 0x1000_0000 * Bits(s, n + 1, 4), v5);
    }
  }

  /** One byte below 128 is a whole number. */
  lemma OneByte(b: byte, t: seq<byte>)
    requires b < 128
    ensures ReadVarint32([b] + t) == Some((b, 1)) && ([b] + t)[1..] == t
  {
  }

  lemma LowBits(low: nat, high: nat)
    ensures (low + 0x8_0000_0000 * high) % 0x1_0000_0000 == low % 0x1_0000_0000
  {
    Remainder(low + 0x8_0000_0000 * high, low / 0x1_0000_0000 + 8 * high, low % 0x1_0000_0000);
  }

  lemma Remainder(n: nat, q: nat, r: nat)
    requires n == 0x1_0000_0000 * q + r && r < 0x1_0000_0000
    ensures n % 0x1_0000_0000 == r
  {
  }

  lemma {:induction false} ReadRawOfVarint(n: nat, left: nat, t: seq<byte>)
    requires |Varint(n)| <= left
    ensures ReadRawVarint(Varint(n) + t, left) == Some((n, |Varint(n)|))
  {
    if n >= 128 {
      ReadRawOfVarint(n / 128, left - 1, t);
      assert (Varint(n) + t)[1..] == Varint(n / 128) + t;
    }
  }

  /** Reading undoes writing, whatever bytes follow. */
  lemma ReadOfVarint(n: uint32, t: seq<byte>)
    ensures ReadVarint32(Varint(n) + t) == Some((n, |Varint(n)|))
    ensures (Varint(n) + t)[|Varint(n)|..] == t
  {
    VarintSizeIsLength(n);
    ReadRawOfVarint(n, 10, t);
  }

  /** The elements of a packed list, one varint after another. */
  function Packed(xs: seq<uint32>): seq<byte> {
    if xs == [] then [] else Varint(xs[0]) + Packed(xs[1..])
  }

  lemma {:induction false} PackedConcat(xs: seq<uint32>, ys: seq<uint32>)
    ensures Packed(xs + ys) == Packed(xs) + Packed(ys)
  {
    if xs == [] {
      assert xs + ys == ys;
    } else {
      PackedConcat(xs[1..], ys);
      assert (xs + ys)[1..] == xs[1..] + ys;
    }
  }

  /** One more element lengthens the packed bytes by that element's varint. */
  lemma PackedPrefix(xs: seq<uint32>, i: nat)
    requires i < |xs|
    ensures Packed(xs[..i + 1]) == Packed(xs[..i]) + Varint(xs[i])
    ensures |Packed(xs[..i + 1])| == |Packed(xs[..i])| + VarintSize(xs[i])
    ensures |Packed(xs[..i + 1])| <= |Packed(xs)|
  {
    assert xs[..i + 1] == xs[..i] + [xs[i]];
    PackedConcat(xs[..i], [xs[i]]);
    assert Packed([xs[i]]) == Varint(xs[i]) + Packed([xs[i]][1..]);
    VarintSizeIsLength(xs[i]);
    assert xs == xs[..i + 1] + xs[i + 1..];
    PackedConcat(xs[..i + 1], xs[i + 1..]);
  }

  lemma PackedEmpty(xs: seq<uint32>)
    ensures |Packed(xs)| > 0 <==> |xs| > 0
    ensures |Packed(xs)| >= |xs|
  {
  }

  /** Elements up to the end of the bytes: false, and what was read so far, if one is malformed. */
  function ReadPacked(s: seq<byte>): (bool, seq<uint32>) {
    if s == [] then (true, [])
    else match ReadVarint32(s)
      case None => (false, [])
      case Some(p) => var r := ReadPacked(s[p.1..]); (r.0, [p.0] + r.1)
  }

  lemma {:induction false} ReadPackedOfPacked(xs: seq<uint32>)
    ensures ReadPacked(Packed(xs)) == (true, xs)
  {
    if xs != [] {
      ReadOfVarint(xs[0], Packed(xs[1..]));
      ReadPackedOfPacked(xs[1..]);
      assert [xs[0]] + xs[1..] == xs;
    }
  }
}
