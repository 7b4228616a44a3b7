/**
 Laws of the message codec, for every table and every library: what the parser makes of
 serialized bytes, and how parsing and merging commute.
 */
module CodecTheorems {
  import opened Wrappers
  import opened Wire
  import opened Schema

  // ----- Dispatch ---------------------------------------------------------------------------

  /** No two cases of a table compete for a tag, so the search is the case's own number. */
  lemma {:induction false} DispatchOfTag(d: Desc, i: nat, k: nat)
    requires WellFormed(d) && k <= i < |d.cases|
    ensures Dispatch(d, d.cases[i].tag, k) == Field(i)
    decreases i - k
  {
    assert CaseOk(d, i) && CaseOk(d, k);
    if k < i {
      DispatchOfTag(d, i, k + 1);
    }
  }

  lemma {:induction false} DispatchOfUnpackedTag(d: Desc, i: nat, k: nat)
    requires WellFormed(d) && k <= i < |d.cases| && d.cases[i].kind.Packed?
    ensures Dispatch(d, 8 * d.cases[i].number, k) == UnpackedField(i)
    decreases i - k
  {
    assert CaseOk(d, i) && CaseOk(d, k);
    if k < i {
      DispatchOfUnpackedTag(d, i, k + 1);
    }
  }

  lemma TagIsPlain(d: Desc, i: nat)
    requires WellFormed(d) && i < |d.cases|
    ensures 8 <= d.cases[i].tag < 0x4000 && d.cases[i].tag % 8 != END_GROUP
  {
    assert CaseOk(d, i);
  }

  /** A known tag in front of its payload sends the parser to that case. */
  lemma ParseAtTag(d: Desc, lib: Library, i: nat, s: seq<byte>, m: Message)
    requires WellFormed(d) && Typed(d, m) && i < |d.cases|
    ensures TypedVal(d, i, m[i])
    ensures
      var r := ReadVal(d, i, lib, s, m[i]);
      Parse(d, lib, Varint(d.cases[i].tag) + s, m)
      == if r.ok then Parse(d, lib, r.rest, m[i := r.v]) else Outcome(false, false, m[i := r.v])
  {
    TagIsPlain(d, i);
    DispatchOfTag(d, i, 0);
    ReadOfVarint(d.cases[i].tag, s);
  }

  /** The same for a list element under the unpacked tag, which the library reads. */
  lemma ParseAtUnpackedTag(d: Desc, lib: Library, i: nat, s: seq<byte>, m: Message)
    requires WellFormed(d) && Typed(d, m) && i < |d.cases| && d.cases[i].kind.Packed?
    ensures TypedVal(d, i, m[i])
    ensures
      var tag := 8 * d.cases[i].number;
      var r := lib.Unpacked(tag, s);
      Parse(d, lib, Varint(tag) + s, m)
      == if r.Some? then Parse(d, lib, s[r.value.1..], m[i := List(m[i].xs + r.value.0)])
         else Outcome(false, false, m)
  {
    TagIsPlain(d, i);
    assert CaseOk(d, i);
    DispatchOfUnpackedTag(d, i, 0);
    ReadOfVarint(8 * d.cases[i].number, s);
  }

  // ----- Length prefixes --------------------------------------------------------------------

  lemma PrefixedOf(lib: Library, body: seq<byte>, t: seq<byte>)
    requires |body| <= INT_MAX
    ensures Prefixed(lib, Varint(|body|) + body + t) == Some((body, t))
  {
    var s := Varint(|body|) + body + t;
    assert s == Varint(|body|) + (body + t);
    ReadOfVarint(|body|, body + t);
    var n := |Varint(|body|)|;
    assert s[n..n + |body|] == body;
    assert s[n + |body|..] == t;
  }

  // ----- Parsing what was serialized --------------------------------------------------------

  /** A field's bytes make the parser merge that field and go on with what follows. */
  lemma {:induction false} ParseField(d: Desc, lib: Library, i: nat, v: Val, t: seq<byte>, m: Message)
    requires WellFormed(d) && Typed(d, m) && i < |d.cases| && TypedVal(d, i, v)
    requires |SerField(d, i, v)| <= INT_MAX
    ensures TypedVal(d, i, m[i])
    ensures Parse(d, lib, SerField(d, i, v) + t, m) == Parse(d, lib, t, m[i := MergeVal(d, i, m[i], v)])
    decreases d, 0, 0
  {
    assert TypedVal(d, i, m[i]);
    var bytes := SerField(d, i, v);
    var tag := Varint(d.cases[i].tag);
    if bytes == [] {
      assert v.List? ==> m[i].xs + v.xs == m[i].xs;
      assert m[i := MergeVal(d, i, m[i], v)] == m;
      assert bytes + t == t;
    } else {
      match v {
        case Num(Some(n)) =>
          assert bytes + t == tag + (Varint(n) + t);
          ReadOfVarint(n, t);
          ParseAtTag(d, lib, i, Varint(n) + t, m);
        case List(xs) =>
          var body := Wire.Packed(xs);
          assert bytes + t == tag + (Varint(|body|) + body + t);
          PrefixedOf(lib, body, t);
          ReadPackedOfPacked(xs);
          ParseAtTag(d, lib, i, Varint(|body|) + body + t, m);
        case Msg(Some(a)) =>
          var e := d.cases[i].kind.desc;
          var body := Ser(e, a);
          assert bytes + t == tag + (Varint(|body|) + body + t);
          PrefixedOf(lib, body, t);
          assert SubOk(d, i);
          EmptyTyped(e);
          ParseSer(e, lib, a, [], if m[i].msg.Some? then m[i].msg.value else Empty(e));
          assert body + [] == body;
          ParseAtTag(d, lib, i, Varint(|body|) + body + t, m);
      }
    }
  }

  /** `a`'s fields from i on, merged into `m`. */
  function MergeTail(d: Desc, m: Message, a: Message, i: nat): (r: Message)
    requires Typed(d, m) && Typed(d, a) && i <= |m|
    ensures Typed(d, r)
  {
    seq(|m|, j requires 0 <= j < |m| => if j < i then m[j] else MergeVal(d, j, m[j], a[j]))
  }

  lemma {:induction false} ParseFrom(d: Desc, lib: Library, a: Message, i: nat, t: seq<byte>, m: Message)
    requires WellFormed(d) && Typed(d, a) && Typed(d, m) && i <= |a|
    requires |SerFrom(d, a, i)| <= INT_MAX
    ensures Parse(d, lib, SerFrom(d, a, i) + t, m) == Parse(d, lib, t, MergeTail(d, m, a, i))
    decreases d, 1, |a| - i
  {
    if i == |a| {
      assert MergeTail(d, m, a, i) == m;
      assert SerFrom(d, a, i) + t == t;
    } else {
      var head, tail := SerField(d, i, a[i]), SerFrom(d, a, i + 1);
      assert head + tail + t == head + (tail + t);
      ParseField(d, lib, i, a[i], tail + t, m);
      var m' := m[i := MergeVal(d, i, m[i], a[i])];
      ParseFrom(d, lib, a, i + 1, t, m');
      assert MergeTail(d, m', a, i + 1) == MergeTail(d, m, a, i);
    }
  }

  /** Absent fields have no bytes. */
  lemma {:induction false} AbsentTail(d: Desc, m: Message, i: nat)
    requires Typed(d, m) && i <= |m| && forall j | i <= j < |m| :: m[j] == EmptyVal(d.cases[j].kind)
    ensures SerFrom(d, m, i) == []
    decreases |m| - i
  {
    if i < |m| {
      AbsentTail(d, m, i + 1);
      assert TypedVal(d, i, m[i]) && SerField(d, i, m[i]) == [];
    }
  }

  /** Serialized bytes in front of any others: the parser merges the message and continues. */
  lemma {:induction false} ParseSer(d: Desc, lib: Library, a: Message, t: seq<byte>, m: Message)
    requires WellFormed(d) && Typed(d, a) && Typed(d, m) && Fits(d, a)
    ensures Parse(d, lib, Ser(d, a) + t, m) == Parse(d, lib, t, Merge(d, m, a))
    decreases d, 2, 0
  {
    ParseFrom(d, lib, a, 0, t, m);
    assert MergeTail(d, m, a, 0) == Merge(d, m, a);
  }

  // ----- Merge is a monoid ------------------------------------------------------------------

  lemma {:induction false} MergeEmptyLeft(d: Desc, a: Message)
    requires Typed(d, a)
    ensures Typed(d, Empty(d)) && Merge(d, Empty(d), a) == a
    decreases d
  {
    EmptyTyped(d);
    forall i | 0 <= i < |a| ensures MergeVal(d, i, Empty(d)[i], a[i]) == a[i] {
      assert TypedVal(d, i, a[i]);
      if a[i].Msg? && a[i].msg.Some? {
        MergeEmptyLeft(d.cases[i].kind.desc, a[i].msg.value);
      }
    }
  }

  lemma MergeEmptyRight(d: Desc, a: Message)
    requires Typed(d, a)
    ensures Typed(d, Empty(d)) && Merge(d, a, Empty(d)) == a
  {
    EmptyTyped(d);
    forall i | 0 <= i < |a| ensures MergeVal(d, i, a[i], Empty(d)[i]) == a[i] {
      assert TypedVal(d, i, a[i]);
    }
  }

  lemma {:induction false} MergeAssociative(d: Desc, a: Message, b: Message, c: Message)
    requires Typed(d, a) && Typed(d, b) && Typed(d, c)
    ensures Merge(d, Merge(d, a, b), c) == Merge(d, a, Merge(d, b, c))
    decreases d
  {
    forall i | 0 <= i < |a|
      ensures MergeVal(d, i, MergeVal(d, i, a[i], b[i]), c[i]) == MergeVal(d, i, a[i], MergeVal(d, i, b[i], c[i]))
    {
      MergeValAssociative(d, i, a[i], b[i], c[i]);
    }
  }

  lemma {:induction false} MergeValAssociative(d: Desc, i: nat, a: Val, b: Val, c: Val)
    requires i < |d.cases| && TypedVal(d, i, a) && TypedVal(d, i, b) && TypedVal(d, i, c)
    ensures MergeVal(d, i, MergeVal(d, i, a, b), c) == MergeVal(d, i, a, MergeVal(d, i, b, c))
    decreases d, 0
  {
    match c {
      case Num(_) =>
      case List(zs) => assert (a.xs + b.xs) + zs == a.xs + (b.xs + zs);
      case Msg(None) =>
      case Msg(Some(z)) =>
        var e := d.cases[i].kind.desc;
        EmptyTyped(e);
        var x := if a.msg.Some? then a.msg.value else Empty(e);
        if b.msg.Some? {
          MergeAssociative(e, x, b.msg.value, z);
        } else {
          MergeEmptyLeft(e, z);
        }
    }
  }

  // ----- The main laws ----------------------------------------------------------------------

  /** Parsing the serialized form gives the message back, ending exactly at the last byte. */
  lemma RoundTrip(d: Desc, lib: Library, a: Message)
    requires WellFormed(d) && Typed(d, a) && Fits(d, a)
    ensures Typed(d, Empty(d))
    ensures Parse(d, lib, Ser(d, a), Empty(d)) == Outcome(true, true, a)
  {
    EmptyTyped(d);
    ParseSer(d, lib, a, [], Empty(d));
    assert Ser(d, a) + [] == Ser(d, a);
    MergeEmptyLeft(d, a);
  }

  /** Equal bytes come from equal messages. */
  lemma SerInjective(d: Desc, lib: Library, a: Message, b: Message)
    requires WellFormed(d) && Typed(d, a) && Typed(d, b) && Fits(d, a)
    requires Ser(d, a) == Ser(d, b)
    ensures a == b
  {
    RoundTrip(d, lib, a);
    RoundTrip(d, lib, b);
  }

  /** Concatenated serializations parse as the merge. */
  lemma ConcatIsMerge(d: Desc, lib: Library, a: Message, b: Message)
    requires WellFormed(d) && Typed(d, a) && Typed(d, b) && Fits(d, a) && Fits(d, b)
    ensures Typed(d, Empty(d))
    ensures Parse(d, lib, Ser(d, a) + Ser(d, b), Empty(d)) == Outcome(true, true, Merge(d, a, b))
  {
    EmptyTyped(d);
    ParseSer(d, lib, a, Ser(d, b), Empty(d));
    MergeEmptyLeft(d, a);
    ParseSer(d, lib, b, [], a);
    assert Ser(d, b) + [] == Ser(d, b);
  }

  // ----- Parsing into a message is merging what a parse on its own gives ---------------------------

  lemma {:induction false} ReadValIsMerge(d: Desc, i: nat, lib: Library, s: seq<byte>, v: Val)
    requires WellFormed(d) && i < |d.cases| && TypedVal(d, i, v)
    ensures TypedVal(d, i, EmptyVal(d.cases[i].kind))
    ensures
      var alone := ReadVal(d, i, lib, s, EmptyVal(d.cases[i].kind));
      var into := ReadVal(d, i, lib, s, v);
      into.ok == alone.ok && into.rest == alone.rest && into.v == MergeVal(d, i, v, alone.v)
    decreases d, |s|, 0
  {
    match d.cases[i].kind {
      case Enum =>
      case UInt32 =>
      case Packed => assert forall xs: seq<uint32> :: [] + xs == xs; assert v.xs + [] == v.xs;
      case Sub(e) =>
        EmptyTyped(e);
        assert SubOk(d, i);
        var was := if v.msg.Some? then v.msg.value else Empty(e);
        MergeEmptyRight(e, was);
        var w := Prefixed(lib, s);
        if w.Some? {
          ParseIntoIsMerge(e, lib, w.value.0, was);
        }
    }
  }

  /**
   Parsing any bytes, well formed or not, into `m` ends as parsing them into an empty message
   does and leaves `m` merged with what that parse leaves.
   */
  lemma {:induction false} ParseIntoIsMerge(d: Desc, lib: Library, s: seq<byte>, m: Message)
    requires WellFormed(d) && Typed(d, m)
    ensures Typed(d, Empty(d))
    ensures
      var alone := Parse(d, lib, s, Empty(d));
      Parse(d, lib, s, m) == alone.(m := Merge(d, m, alone.m))
    decreases d, |s|, 2
  {
    EmptyTyped(d);
    MergeEmptyRight(d, m);
    var tag := ReadVarint32(s);
    if s != [] && tag.Some? && tag.value.0 != 0 && tag.value.0 % 8 != END_GROUP {
      var t := s[tag.value.1..];
      StepIsMerge(d, lib, tag.value.0, t, m);
      var alone := Step(d, lib, tag.value.0, t, Empty(d));
      if alone.0 {
        var m1 := Merge(d, m, alone.1);
        ParseIntoIsMerge(d, lib, alone.2, m1);
        ParseIntoIsMerge(d, lib, alone.2, alone.1);
        MergeAssociative(d, m, alone.1, Parse(d, lib, alone.2, Empty(d)).m);
      }
    }
  }

  lemma {:induction false} StepIsMerge(d: Desc, lib: Library, tag: nat, s: seq<byte>, m: Message)
    requires WellFormed(d) && Typed(d, m)
    ensures Typed(d, Empty(d))
    ensures
      var alone := Step(d, lib, tag, s, Empty(d));
      Step(d, lib, tag, s, m) == (alone.0, Merge(d, m, alone.1), alone.2)
    decreases d, |s|, 1
  {
    EmptyTyped(d);
    MergeEmptyRight(d, m);
    var e := Empty(d);
    var a := Dispatch(d, tag, 0);
    if a.Field? {
      ReadValIsMerge(d, a.i, lib, s, m[a.i]);
      OneFieldMerge(d, m, a.i, ReadVal(d, a.i, lib, s, e[a.i]).v);
    } else if a.UnpackedField? {
      var p := lib.Unpacked(tag, s);
      if p.Some? {
        assert e[a.i].xs + p.value.0 == p.value.0;
        OneFieldMerge(d, m, a.i, List(p.value.0));
      }
    }
  }

  lemma OneFieldMerge(d: Desc, m: Message, i: nat, v: Val)
    requires Typed(d, m) && i < |m| && TypedVal(d, i, v)
    ensures TypedVal(d, i, m[i]) && Typed(d, Empty(d)[i := v])
    ensures Merge(d, m, Empty(d)[i := v]) == m[i := MergeVal(d, i, m[i], v)]
  {
    EmptyTyped(d);
    MergeEmptyRight(d, m);
    forall j | 0 <= j < |m| && j != i ensures MergeVal(d, j, m[j], Empty(d)[j]) == m[j] {
      assert Merge(d, m, Empty(d))[j] == m[j];
    }
  }

  // ----- Concatenating any two accepted inputs ------------------------------------------------

  /** What the library makes of a prefix does not change when more bytes follow. */
  ghost predicate PrefixStable(lib: Library) {
    && (forall tag, s, t | lib.Skip(tag, s).Some? :: lib.Skip(tag, s + t) == lib.Skip(tag, s))
    && (forall tag, s, t | lib.Unpacked(tag, s).Some? :: lib.Unpacked(tag, s + t) == lib.Unpacked(tag, s))
    && (forall length, available | length > available :: lib.Window(length, available).None?)
  }

  lemma {:induction false} ReadRawPrefix(s: seq<byte>, left: nat, t: seq<byte>)
    requires ReadRawVarint(s, left).Some?
    ensures ReadRawVarint(s + t, left) == ReadRawVarint(s, left)
  {
    if s[0] >= 128 {
      assert (s + t)[1..] == s[1..] + t;
      ReadRawPrefix(s[1..], left - 1, t);
    }
  }

  lemma ReadPrefix(s: seq<byte>, t: seq<byte>)
    requires ReadVarint32(s).Some?
    ensures ReadVarint32(s + t) == ReadVarint32(s)
    ensures (s + t)[ReadVarint32(s).value.1..] == s[ReadVarint32(s).value.1..] + t
  {
    ReadRawPrefix(s, 10, t);
  }

  lemma PrefixedPrefix(lib: Library, s: seq<byte>, t: seq<byte>)
    requires PrefixStable(lib) && Prefixed(lib, s).Some?
    ensures Prefixed(lib, s + t) == Some((Prefixed(lib, s).value.0, Prefixed(lib, s).value.1 + t))
  {
    ReadPrefix(s, t);
    var p := ReadVarint32(s).value;
    assert lib.Window(p.0, |s| - p.1).Some?;
    assert p.0 <= |s| - p.1;
    assert (s + t)[p.1..p.1 + p.0] == s[p.1..p.1 + p.0];
    assert (s + t)[p.1 + p.0..] == s[p.1 + p.0..] + t;
  }

  lemma StepPrefix(d: Desc, lib: Library, tag: nat, s: seq<byte>, m: Message, t: seq<byte>)
    requires PrefixStable(lib) && Typed(d, m) && Step(d, lib, tag, s, m).0
    ensures
      var r := Step(d, lib, tag, s, m);
      Step(d, lib, tag, s + t, m) == (true, r.1, r.2 + t)
  {
    match Dispatch(d, tag, 0) {
      case Field(i) =>
        assert TypedVal(d, i, m[i]);
        var k := d.cases[i].kind;
        if k.Enum? || k.UInt32? {
          ReadPrefix(s, t);
        } else {
          PrefixedPrefix(lib, s, t);
        }
      case UnpackedField(i) =>
        var n := lib.Unpacked(tag, s).value.1;
        assert (s + t)[n..] == s[n..] + t;
      case Unusual =>
        var n := lib.Skip(tag, s).value;
        assert (s + t)[n..] == s[n..] + t;
    }
  }

  lemma {:induction false} ParsePrefix(d: Desc, lib: Library, s: seq<byte>, m: Message, t: seq<byte>)
    requires PrefixStable(lib) && Typed(d, m)
    requires Parse(d, lib, s, m).ok && Parse(d, lib, s, m).legit
    ensures Parse(d, lib, s + t, m) == Parse(d, lib, t, Parse(d, lib, s, m).m)
    decreases |s|
  {
    if s == [] {
      assert s + t == t;
    } else {
      ReadPrefix(s, t);
      var p := ReadVarint32(s).value;
      StepPrefix(d, lib, p.0, s[p.1..], m, t);
      var r := Step(d, lib, p.0, s[p.1..], m);
      ParsePrefix(d, lib, r.2, r.1, t);
    }
  }

  /**
   For any two accepted inputs, canonical or not, with unknown fields or split lists or without,
   the concatenation is accepted and means the merge of the two meanings.
   */
  lemma AcceptedConcatIsMerge(d: Desc, lib: Library, x: seq<byte>, y: seq<byte>)
    requires WellFormed(d) && PrefixStable(lib)
    requires Typed(d, Empty(d))
    requires Parse(d, lib, x, Empty(d)).ok && Parse(d, lib, x, Empty(d)).legit
    requires Parse(d, lib, y, Empty(d)).ok && Parse(d, lib, y, Empty(d)).legit
    ensures
      Parse(d, lib, x + y, Empty(d))
      == Outcome(true, true, Merge(d, Parse(d, lib, x, Empty(d)).m, Parse(d, lib, y, Empty(d)).m))
  {
    ParsePrefix(d, lib, x, Empty(d), y);
    ParseIntoIsMerge(d, lib, y, Parse(d, lib, x, Empty(d)).m);
  }
}
