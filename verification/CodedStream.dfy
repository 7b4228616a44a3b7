/**
 The coded input stream the C++ message classes read from: a window on a flat buffer, limits
 pushed for nested records, and the two Expect calls of the parser's fast path.
 */
module CodedStream {
  import opened Wrappers
  import opened Sequences
  import opened Wire
  import opened Schema

  class CodedInputStream {
    const buffer: seq<byte>
    const lib: Library
    var pos: nat
    var limit: nat
    var legitimateEnd: bool

    ghost predicate Valid()
      reads this
    {
      pos <= limit <= |buffer|
    }

    /** The bytes from the current position to the current limit. */
    ghost function Rest(): seq<byte>
      requires Valid()
      reads this
    {
      buffer[pos..limit]
    }

    constructor (bytes: seq<byte>, lib: Library)
      ensures Valid() && Rest() == bytes && this.lib == lib && !legitimateEnd
    {
      this.buffer, this.lib := bytes, lib;
      pos, limit, legitimateEnd := 0, |bytes|, false;
    }

    method ReadVarint32() returns (ok: bool, value: uint32)
      requires Valid()
      modifies this`pos
      ensures Valid() && pos >= old(pos)
      ensures
        match Wire.ReadVarint32(old(Rest()))
        case None => !ok && value == 0 && pos == old(pos)
        case Some(p) => ok && value == p.0 && Rest() == old(Rest())[p.1..]
    {
      var r := Wire.ReadVarint32(buffer[pos..limit]);
      match r {
        case None => ok, value := false, 0;
        case Some(p) =>
          ok, value := true, p.0;
          pos := pos + p.1;
      }
    }

    /**
     A tag, 0 at the end or on a malformed one. `known` promises the tag is at most the cutoff;
     for a tag of 0 it can come out either way.
     */
    method ReadTagWithCutoff(cutoff: nat) returns (tag: uint32, known: bool)
      requires Valid()
      modifies this
      ensures Valid() && limit == old(limit)
      ensures pos >= old(pos) && (tag != 0 ==> pos > old(pos))
      ensures known ==> tag <= cutoff
      ensures !known ==> tag > cutoff || tag == 0
      ensures legitimateEnd <==> old(Rest()) == []
      ensures
        match Wire.ReadVarint32(old(Rest()))
        case None => tag == 0 && pos == old(pos)
        case Some(p) => tag == p.0 && Rest() == old(Rest())[p.1..]
    {
      legitimateEnd := pos == limit;
      var ok;
      ok, tag := ReadVarint32();
      if tag == 0 {
        known := *;
      } else {
        known := tag <= cutoff;
      }
    }

    /** Consumes the next bytes when they are exactly the canonical form of `expected`. */
    method ExpectTag(expected: nat) returns (found: bool)
      requires Valid() && expected < 0x4000
      modifies this`pos
      ensures Valid() && pos >= old(pos)
      ensures found <==> Varint(expected) <= old(Rest())
      ensures found ==> Rest() == old(Rest())[|Varint(expected)|..]
      ensures !found ==> pos == old(pos)
    {
      assert expected >= 128 ==> Varint(expected) == [expected % 128 + 128, expected / 128];
      if expected < 128 {
        found := pos < limit && buffer[pos] == expected;
        if found {
          pos := pos + 1;
        }
      } else {
        found := pos + 1 < limit && buffer[pos] == expected % 128 + 128 && buffer[pos + 1] == expected / 128;
        if found {
          pos := pos + 2;
        }
      }
    }

    method ExpectAtEnd() returns (atEnd: bool)
      requires Valid()
      modifies this`legitimateEnd
      ensures atEnd <==> Rest() == []
      ensures legitimateEnd == (atEnd || old(legitimateEnd))
    {
      atEnd := pos == limit;
      if atEnd {
        legitimateEnd := true;
      }
    }

    /** A length prefix, then a limit at its end; the caller pops the old limit. */
    method EnterPrefixed() returns (ok: bool, outer: nat)
      requires Valid()
      modifies this`pos, this`limit
      ensures Valid() && pos >= old(pos) && outer == old(limit) && limit <= outer <= |buffer|
      ensures
        match Prefixed(lib, old(Rest()))
        case None => !ok && limit == outer
        case Some(w) => ok && Rest() == w.0 && buffer[limit..outer] == w.1
    {
      outer := limit;
      var length;
      ok, length := ReadVarint32();
      if ok {
        match lib.Window(length, limit - pos) {
          case None => ok := false;
          case Some(n) =>
            limit := pos + n;
            ghost var used := pos - old(pos);
            SliceOfSlice(buffer, old(pos), outer, used, used + n);
            SliceOfSlice(buffer, old(pos), outer, used + n, outer - old(pos));
        }
      }
    }

    method PopLimit(outer: nat)
      requires Valid() && limit <= outer <= |buffer|
      modifies this`limit, this`legitimateEnd
      ensures Valid() && limit == outer && !legitimateEnd
    {
      limit := outer;
      legitimateEnd := false;
    }

    method SkipField(tag: nat) returns (ok: bool)
      requires Valid()
      modifies this`pos
      ensures Valid() && pos >= old(pos)
      ensures
        match lib.Skip(tag, old(Rest()))
        case None => !ok
        case Some(n) => ok && Rest() == old(Rest())[n..]
    {
      var r := lib.Skip(tag, buffer[pos..limit]);
      ok := r.Some?;
      if ok {
        pos := pos + r.value;
      }
    }

    method ReadUnpacked(tag: nat) returns (ok: bool, xs: seq<uint32>)
      requires Valid()
      modifies this`pos
      ensures Valid() && pos >= old(pos)
      ensures
        match lib.Unpacked(tag, old(Rest()))
        case None => !ok && xs == []
        case Some(p) => ok && xs == p.0 && Rest() == old(Rest())[p.1..]
    {
      var r := lib.Unpacked(tag, buffer[pos..limit]);
      match r {
        case None => ok, xs := false, [];
        case Some(p) =>
          ok, xs := true, p.0;
          pos := pos + p.1;
      }
    }
  }

  /** The `target` pointer of the array serializers: it advances over a fixed buffer. */
  class ArrayTarget {
    const data: array<byte>
    var at: nat

    ghost predicate Valid()
      reads this
    {
      at <= data.Length
    }

    ghost function Room(): nat
      requires Valid()
      reads this
    {
      data.Length - at
    }

    /** The bytes behind the pointer. */
    ghost function Bytes(): (s: seq<byte>)
      requires Valid()
      reads this, data
      ensures |s| == at
    {
      data[..at]
    }

    constructor (size: nat)
      ensures Valid() && Bytes() == [] && Room() == size && fresh(data)
    {
      data := new byte[size];
      at := 0;
    }

    method WriteByte(b: byte)
      requires Valid() && Room() >= 1
      modifies this, data
      ensures Valid() && Bytes() == old(Bytes()) + [b]
    {
      data[at] := b;
      at := at + 1;
    }

    method WriteVarint32(value: uint32)
      requires Valid() && Room() >= VarintSize(value)
      modifies this, data
      ensures Valid() && Bytes() == old(Bytes()) + Varint(value)
    {
      VarintSizeIsLength(value);
      var v: nat := value;
      while v >= 128
        invariant Valid() && Room() >= |Varint(v)|
        invariant Bytes() + Varint(v) == old(Bytes()) + Varint(value)
      {
        WriteByte(v % 128 + 128);
        v := v / 128;
      }
      WriteByte(v);
    }
  }
}
