/**
 What the parsing constructors of the Java message classes accept and leave, as a function of the
 bytes; its agreement with the C++ parser's loop; and the mixed input only Java reads itself: list
 elements under the unpacked tag between packed chunks.
 */
module JavaCodec {
  import opened Wrappers
  import opened Sequences
  import opened Wire
  import opened Schema
  import opened JavaTables
  import CodecTheorems

  /**
   The callees of a Java parser: an unknown field is skipped by an arbitrary function, and refused
   when its field number is 0; a list field under its unpacked tag is one element; a length prefix
   that runs past the enclosing limit is refused.
   */
  function JavaLibrary(skip: (nat, seq<byte>) -> Option<nat>): Library {
    Library(
      (tag, s) => if tag < 8 then None else skip(tag, s),
      (tag, s) => OneElement(s),
      (length, available) => None)
  }

  function OneElement(s: seq<byte>): Option<(seq<uint32>, nat)> {
    match ReadVarint32(s)
    case None => None
    case Some(p) => Some(([p.0], p.1))
  }

  /** What the getter of a scalar shows. */
  function Shown(v: Val): uint32 {
    if v.Num? && v.num.Some? then v.num.value else 0
  }

  predicate IsScalar(d: Desc, a: Action) {
    a.Field? && a.i < |d.cases| && d.cases[a.i].kind.UInt32?
  }

  /** One field. The presence bit of a scalar is set before its value is read. */
  function JavaStep(d: Desc, lib: Library, tag: nat, s: seq<byte>, m: Message): (r: (bool, Message, seq<byte>))
    requires Typed(d, m)
    ensures Typed(d, r.1) && |r.2| <= |s|
  {
    var at := Dispatch(d, tag, 0);
    if IsScalar(d, at) && ReadVarint32(s).None? then
      assert TypedVal(d, at.i, m[at.i]);
      (false, m[at.i := Num(Some(Shown(m[at.i])))], s)
    else Step(d, lib, tag, s, m)
  }

  /** A step at a scalar, a single element, a packed chunk and an unknown tag. */
  lemma NumberStep(d: Desc, lib: Library, tag: nat, s: seq<byte>, m: Message)
    requires Typed(d, m) && IsScalar(d, Dispatch(d, tag, 0))
    ensures
      var i := Dispatch(d, tag, 0).i;
      JavaStep(d, lib, tag, s, m)
      == match ReadVarint32(s)
         case None => (false, m[i := Num(Some(Shown(m[i])))], s)
         case Some(p) => (true, m[i := Num(Some(p.0))], s[p.1..])
  {
    var i := Dispatch(d, tag, 0).i;
    assert d.cases[i].kind == UInt32 && TypedVal(d, i, m[i]);
    match ReadVarint32(s) {
      case None =>
      case Some(p) => assert ReadVal(d, i, lib, s, m[i]) == Read(true, Num(Some(p.0)), s[p.1..]);
    }
  }

  lemma SingleStep(d: Desc, skip: (nat, seq<byte>) -> Option<nat>, tag: nat, s: seq<byte>, m: Message)
    requires Typed(d, m) && Dispatch(d, tag, 0).UnpackedField?
    ensures m[Dispatch(d, tag, 0).i].List?
    ensures
      var i := Dispatch(d, tag, 0).i;
      JavaStep(d, JavaLibrary(skip), tag, s, m)
      == match ReadVarint32(s)
         case None => (false, m, s)
         case Some(p) => (true, m[i := List(m[i].xs + [p.0])], s[p.1..])
  {
    assert TypedVal(d, Dispatch(d, tag, 0).i, m[Dispatch(d, tag, 0).i]);
    assert JavaLibrary(skip).Unpacked(tag, s) == OneElement(s);
  }

  lemma ChunkStep(d: Desc, lib: Library, tag: nat, s: seq<byte>, m: Message)
    requires Typed(d, m) && Dispatch(d, tag, 0).Field? && d.cases[Dispatch(d, tag, 0).i].kind.Packed?
    ensures
      var i := Dispatch(d, tag, 0).i;
      TypedVal(d, i, m[i])
      && var r := ReadVal(d, i, lib, s, m[i]); JavaStep(d, lib, tag, s, m) == (r.ok, m[i := r.v], r.rest)
  {
  }

  lemma UnusualStep(d: Desc, lib: Library, tag: nat, s: seq<byte>, m: Message)
    requires Typed(d, m) && Dispatch(d, tag, 0).Unusual?
    ensures
      JavaStep(d, lib, tag, s, m)
      == match lib.Skip(tag, s)
         case None => (false, m, s)
         case Some(n) => (true, m, s[n..])
  {
  }

  /**
   The constructor and the check that the input ended after it: false is an exception, which
   carries the unfinished message.
   */
  function JavaParse(d: Desc, lib: Library, s: seq<byte>, m: Message): (r: (bool, Message))
    requires Typed(d, m)
    ensures Typed(d, r.1)
    decreases |s|
  {
    if s == [] then (true, m)
    else match ReadVarint32(s)
      case None => (false, m)
      case Some(p) =>
        if p.0 < 8 || p.0 % 8 == END_GROUP then (false, m)
        else
          var r := JavaStep(d, lib, p.0, s[p.1..], m);
          if r.0 then JavaParse(d, lib, r.2, r.1) else (false, r.1)
  }

  /** The scalar whose tag comes next in s, if it is absent so far and the bytes behind the tag are no number. */
  function CutHere(d: Desc, s: seq<byte>, m: Message): (i: Option<nat>)
    requires Typed(d, m)
    ensures i.Some? ==> i.value < |m| && m[i.value] == Num(None)
  {
    match ReadVarint32(s)
    case None => None
    case Some(p) =>
      var at := Dispatch(d, p.0, 0);
      if p.0 >= 8 && p.0 % 8 != END_GROUP && IsScalar(d, at) && m[at.i] == Num(None) && ReadVarint32(s[p.1..]).None?
      then Some(at.i)
      else None
  }

  /** The same anywhere along the plain loop: the scalar, absent so far, at whose unreadable value it stops. */
  function CutAt(d: Desc, lib: Library, s: seq<byte>, m: Message): Option<nat>
    requires Typed(d, m)
    decreases |s|
  {
    if CutHere(d, s, m).Some? then CutHere(d, s, m)
    else match ReadVarint32(s)
      case None => None
      case Some(p) =>
        if p.0 < 8 || p.0 % 8 == END_GROUP || !Step(d, lib, p.0, s[p.1..], m).0 then None
        else
          var r := Step(d, lib, p.0, s[p.1..], m);
          CutAt(d, lib, r.2, r.1)
  }

  /** `m`, with the scalar that could not be read present and 0. */
  function Unfinished(m: Message, cut: Option<nat>): Message {
    if cut.Some? && cut.value < |m| then m[cut.value := Num(Some(0))] else m
  }

  /**
   On every input Java accepts exactly what the plain loop accepts. The message it leaves differs from
   the loop's exactly if the parse stops at an unreadable value of a scalar that was absent until then:
   that scalar is present and 0.
   */
  lemma {:induction false} JavaParseAgrees(d: Desc, skip: (nat, seq<byte>) -> Option<nat>, s: seq<byte>, m: Message)
    requires WellFormed(d) && Plain(d) && Typed(d, m)
    ensures
      var o := Parse(d, JavaLibrary(skip), s, m);
      var j := JavaParse(d, JavaLibrary(skip), s, m);
      var cut := CutAt(d, JavaLibrary(skip), s, m);
      && j.0 == (o.ok && o.legit) && (j.0 ==> cut == None)
      && j.1 == Unfinished(o.m, cut) && (j.1 != o.m <==> cut.Some?)
      && (cut.Some? ==> cut.value < |o.m| && o.m[cut.value] == Num(None))
    decreases |s|
  {
    var lib := JavaLibrary(skip);
    var tag := ReadVarint32(s);
    if s != [] && tag.Some? && tag.value.0 != 0 && tag.value.0 % 8 != END_GROUP {
      var n, t := tag.value.0, s[tag.value.1..];
      var at := Dispatch(d, n, 0);
      if n < 8 {
        KnownTag(d, n);
      } else if IsScalar(d, at) && ReadVarint32(t).None? {
        FailedScalar(d, lib, n, t, m);
      } else if Step(d, lib, n, t, m).0 {
        var r := Step(d, lib, n, t, m);
        JavaParseAgrees(d, skip, r.2, r.1);
        assert JavaParse(d, lib, s, m) == JavaParse(d, lib, r.2, r.1);
        assert Parse(d, lib, s, m) == Parse(d, lib, r.2, r.1);
        assert CutAt(d, lib, s, m) == CutAt(d, lib, r.2, r.1);
      } else {
        assert JavaParse(d, lib, s, m) == (false, Step(d, lib, n, t, m).1);
        assert Parse(d, lib, s, m) == Outcome(false, false, Step(d, lib, n, t, m).1);
        assert CutAt(d, lib, s, m) == None;
      }
    }
  }

  /** A scalar whose value cannot be read. */
  lemma FailedScalar(d: Desc, lib: Library, tag: nat, t: seq<byte>, m: Message)
    requires Typed(d, m) && IsScalar(d, Dispatch(d, tag, 0)) && ReadVarint32(t).None?
    ensures Step(d, lib, tag, t, m) == (false, m, t)
    ensures
      var i := Dispatch(d, tag, 0).i;
      JavaStep(d, lib, tag, t, m) == (false, if m[i] == Num(None) then m[i := Num(Some(0))] else m, t)
  {
    var i := Dispatch(d, tag, 0).i;
    assert TypedVal(d, i, m[i]);
    assert m[i := m[i]] == m;
  }

  /**
   The builder's merge from a stream merges the unfinished message too: exactly a parse that stops at
   such a value overwrites that scalar with 0, whatever the builder held.
   */
  lemma StreamMerge(d: Desc, skip: (nat, seq<byte>) -> Option<nat>, s: seq<byte>, a: Message)
    requires WellFormed(d) && Plain(d) && Typed(d, a)
    ensures Typed(d, Empty(d))
    ensures
      var o := Parse(d, JavaLibrary(skip), s, Empty(d));
      var cut := CutAt(d, JavaLibrary(skip), s, Empty(d));
      && Merge(d, a, JavaParse(d, JavaLibrary(skip), s, Empty(d)).1) == Unfinished(Merge(d, a, o.m), cut)
      && (cut.Some? ==> cut.value < |a| && Merge(d, a, o.m)[cut.value] == a[cut.value])
  {
    EmptyTyped(d);
    JavaParseAgrees(d, skip, s, Empty(d));
    var o := Parse(d, JavaLibrary(skip), s, Empty(d));
    var cut := CutAt(d, JavaLibrary(skip), s, Empty(d));
    if cut.Some? {
      var i := cut.value;
      assert TypedVal(d, i, a[i]) && TypedVal(d, i, o.m[i]);
      MergeUnfinished(d, a, o.m, i);
    }
  }

  lemma MergeUnfinished(d: Desc, a: Message, m: Message, i: nat)
    requires Typed(d, a) && Typed(d, m) && i < |m| && m[i] == Num(None) && Typed(d, m[i := Num(Some(0))])
    ensures Merge(d, a, m[i := Num(Some(0))]) == Merge(d, a, m)[i := Num(Some(0))]
    ensures Merge(d, a, m)[i] == a[i]
  {
    var r := m[i := Num(Some(0))];
    forall j | 0 <= j < |a| ensures Merge(d, a, r)[j] == Merge(d, a, m)[i := Num(Some(0))][j] {
      assert TypedVal(d, j, a[j]) && TypedVal(d, j, m[j]);
    }
  }

  lemma KnownTag(d: Desc, tag: nat)
    requires WellFormed(d)
    ensures !Dispatch(d, tag, 0).Unusual? ==> tag >= 8
  {
    var a := Dispatch(d, tag, 0);
    if !a.Unusual? {
      assert d.cases[a.i].number == a.i + 1 && d.cases[a.i].tag >= 8 by {
        assert CaseOk(d, a.i);
      }
    }
  }

  /** The difference is real: a message cut off after its first tag. */
  lemma CutAfterTag(t: JavaTable, lib: Library)
    requires TableOk(t) && t.cases[0].Scalar?
    ensures Typed(DescOf(t), Empty(DescOf(t)))
    ensures CutAt(DescOf(t), lib, [8], Empty(DescOf(t))) == Some(0)
    ensures Parse(DescOf(t), lib, [8], Empty(DescOf(t))) == Outcome(false, false, Empty(DescOf(t)))
    ensures JavaParse(DescOf(t), lib, [8], Empty(DescOf(t))) == (false, Empty(DescOf(t))[0 := Num(Some(0))])
  {
    DescOfWellFormed(t);
    assert JavaCaseOk(t, 0);
    CutAfterByte(DescOf(t), lib, [8]);
  }

  lemma CutAfterByte(d: Desc, lib: Library, s: seq<byte>)
    requires WellFormed(d) && d.cases[0].tag == 8 && d.cases[0].kind.UInt32? && s == [8]
    ensures Typed(d, Empty(d)) && CutAt(d, lib, s, Empty(d)) == Some(0)
    ensures Parse(d, lib, s, Empty(d)) == Outcome(false, false, Empty(d))
    ensures JavaParse(d, lib, s, Empty(d)) == (false, Empty(d)[0 := Num(Some(0))])
  {
    OneByte(8, []);
    assert [8] + [] == s;
    CutStep(d, lib);
  }

  lemma CutStep(d: Desc, lib: Library)
    requires WellFormed(d) && d.cases[0].tag == 8 && d.cases[0].kind.UInt32?
    ensures Typed(d, Empty(d)) && IsScalar(d, Dispatch(d, 8, 0)) && Dispatch(d, 8, 0).i == 0
    ensures ReadVarint32([]) == None && Empty(d)[0] == Num(None)
    ensures Step(d, lib, 8, [], Empty(d)) == (false, Empty(d), [])
    ensures JavaStep(d, lib, 8, [], Empty(d)) == (false, Empty(d)[0 := Num(Some(0))], [])
  {
    EmptyTyped(d);
    CodecTheorems.DispatchOfTag(d, 0, 0);
    assert ReadVarint32([]) == None;
    assert Empty(d)[0] == Num(None) && Empty(d)[0 := Num(None)] == Empty(d);
  }

  // ----- Concatenated input --------------------------------------------------------------------------

  /** With a skip that does not look past the field it skips, Java's callees are stable under appending. */
  lemma JavaLibraryStable(skip: (nat, seq<byte>) -> Option<nat>)
    requires forall tag, s, t | Skipped(skip, tag, s).Some? :: Skipped(skip, tag, s + t) == Skipped(skip, tag, s)
    ensures CodecTheorems.PrefixStable(JavaLibrary(skip))
  {
    var lib := JavaLibrary(skip);
    forall tag, s, t | lib.Skip(tag, s).Some? ensures lib.Skip(tag, s + t) == lib.Skip(tag, s) {
      assert Skipped(skip, tag, s + t) == Skipped(skip, tag, s);
    }
    forall tag, s, t | lib.Unpacked(tag, s).Some? ensures lib.Unpacked(tag, s + t) == lib.Unpacked(tag, s) {
      CodecTheorems.ReadPrefix(s, t);
    }
  }

  /** The bytes an unknown field takes of s, if it lies inside s. */
  function Skipped(skip: (nat, seq<byte>) -> Option<nat>, tag: nat, s: seq<byte>): Option<nat> {
    var r := skip(tag, s);
    if r.Some? && r.value <= |s| then r else None
  }

  /** Any two inputs Java accepts concatenate to one it accepts, whose message is the merge of the two. */
  lemma JavaConcatIsMerge(d: Desc, skip: (nat, seq<byte>) -> Option<nat>, x: seq<byte>, y: seq<byte>)
    requires WellFormed(d) && Plain(d) && CodecTheorems.PrefixStable(JavaLibrary(skip)) && Typed(d, Empty(d))
    requires JavaParse(d, JavaLibrary(skip), x, Empty(d)).0 && JavaParse(d, JavaLibrary(skip), y, Empty(d)).0
    ensures
      var lib := JavaLibrary(skip);
      JavaParse(d, lib, x + y, Empty(d))
      == (true, Merge(d, JavaParse(d, lib, x, Empty(d)).1, JavaParse(d, lib, y, Empty(d)).1))
  {
    JavaParseAgrees(d, skip, x, Empty(d));
    JavaParseAgrees(d, skip, y, Empty(d));
    JavaParseAgrees(d, skip, x + y, Empty(d));
    CodecTheorems.AcceptedConcatIsMerge(d, JavaLibrary(skip), x, y);
  }

  // ----- Mixed packed and unpacked input -------------------------------------------------------------

  /** One record on the wire: a scalar, a single list element, or a packed chunk, possibly empty. */
  datatype Record = One(i: nat, n: uint32) | Single(i: nat, x: uint32) | Chunk(i: nat, xs: seq<uint32>)

  predicate RecordOk(d: Desc, r: Record) {
    r.i < |d.cases| && match r
      case One(i, _) => d.cases[i].kind.UInt32?
      case Single(i, _) => d.cases[i].kind.Packed?
      case Chunk(i, xs) => d.cases[i].kind.Packed? && |Wire.Packed(xs)| <= INT_MAX
  }

  function RecordBytes(d: Desc, r: Record): seq<byte>
    requires RecordOk(d, r)
  {
    match r
    case One(i, n) => Varint(d.cases[i].tag) + Varint(n)
    case Single(i, x) => Varint(8 * d.cases[i].number) + Varint(x)
    case Chunk(i, xs) => Varint(d.cases[i].tag) + (Varint(|Wire.Packed(xs)|) + Wire.Packed(xs))
  }

  predicate RecordsOk(d: Desc, rs: seq<Record>) {
    forall k | 0 <= k < |rs| :: RecordOk(d, rs[k])
  }

  function Bytes(d: Desc, rs: seq<Record>): seq<byte>
    requires RecordsOk(d, rs)
  {
    if rs == [] then [] else RecordBytes(d, rs[0]) + Bytes(d, rs[1..])
  }

  /** The elements a record adds to list i. */
  function Piece(r: Record, i: nat): seq<uint32> {
    if r.i != i then []
    else match r
      case One(_, _) => []
      case Single(_, x) => [x]
      case Chunk(_, xs) => xs
  }

  /** The elements of list i, in the order of the records. */
  function Items(rs: seq<Record>, i: nat): seq<uint32> {
    if rs == [] then [] else Piece(rs[0], i) + Items(rs[1..], i)
  }

  /** The last value of scalar i among the records, or else `was`. */
  function Last(rs: seq<Record>, i: nat, was: Option<uint32>): Option<uint32> {
    if rs == [] then was
    else Last(rs[1..], i, if rs[0].One? && rs[0].i == i then Some(rs[0].n) else was)
  }

  function AfterVal(rs: seq<Record>, i: nat, v: Val): Val {
    match v
    case Num(was) => Num(Last(rs, i, was))
    case List(xs) => List(xs + Items(rs, i))
    case Msg(_) => v
  }

  /** `m` with every list extended by its items and every scalar at its last value. */
  function After(d: Desc, rs: seq<Record>, m: Message): (r: Message)
    requires Typed(d, m) && Plain(d)
    ensures Typed(d, r)
  {
    assert forall i | 0 <= i < |m| :: TypedVal(d, i, m[i]);
    seq(|m|, i requires 0 <= i < |m| => AfterVal(rs, i, m[i]))
  }

  function Taken(d: Desc, r: Record, m: Message): (t: Message)
    requires RecordOk(d, r) && Typed(d, m) && Plain(d)
    ensures Typed(d, t)
  {
    assert TypedVal(d, r.i, m[r.i]);
    match r
    case One(i, n) => m[i := Num(Some(n))]
    case Single(i, x) => m[i := List(m[i].xs + [x])]
    case Chunk(i, xs) => m[i := List(m[i].xs + xs)]
  }

  lemma TakenFirst(d: Desc, rs: seq<Record>, m: Message)
    requires RecordsOk(d, rs) && rs != [] && Typed(d, m) && Plain(d)
    ensures After(d, rs[1..], Taken(d, rs[0], m)) == After(d, rs, m)
  {
    var t := Taken(d, rs[0], m);
    forall i | 0 <= i < |m| ensures AfterVal(rs[1..], i, t[i]) == AfterVal(rs, i, m[i]) {
      assert TypedVal(d, i, m[i]);
      TakenAt(d, rs[0], m, i);
      AfterFirst(rs, i, m[i], t[i]);
    }
  }

  lemma AfterFirst(rs: seq<Record>, i: nat, v: Val, t: Val)
    requires rs != [] && (v.Num? || v.List?)
    requires v.Num? ==> t == Num(if rs[0].One? && rs[0].i == i then Some(rs[0].n) else v.num)
    requires v.List? ==> t == List(v.xs + Piece(rs[0], i))
    ensures AfterVal(rs[1..], i, t) == AfterVal(rs, i, v)
  {
    if v.List? {
      ItemsFirst(rs, i, v.xs);
    }
  }

  lemma ItemsFirst(rs: seq<Record>, i: nat, xs: seq<uint32>)
    requires rs != []
    ensures (xs + Piece(rs[0], i)) + Items(rs[1..], i) == xs + Items(rs, i)
  {
    ConcatAssociative(xs, Piece(rs[0], i), Items(rs[1..], i));
  }

  lemma TakenAt(d: Desc, r: Record, m: Message, i: nat)
    requires RecordOk(d, r) && Typed(d, m) && Plain(d) && i < |m|
    ensures m[i].List? ==> Taken(d, r, m)[i] == List(m[i].xs + Piece(r, i))
    ensures m[i].Num? ==> Taken(d, r, m)[i] == Num(if r.One? && r.i == i then Some(r.n) else m[i].num)
  {
    assert TypedVal(d, i, m[i]) && TypedVal(d, r.i, m[r.i]);
    assert m[i].List? ==> m[i].xs + [] == m[i].xs;
  }

  /** One record in front of any bytes. */
  lemma ParseRecord(d: Desc, skip: (nat, seq<byte>) -> Option<nat>, r: Record, s: seq<byte>, m: Message)
    requires WellFormed(d) && Plain(d) && Typed(d, m) && RecordOk(d, r)
    ensures
      Parse(d, JavaLibrary(skip), RecordBytes(d, r) + s, m) == Parse(d, JavaLibrary(skip), s, Taken(d, r, m))
  {
    var lib := JavaLibrary(skip);
    assert TypedVal(d, r.i, m[r.i]);
    match r {
      case One(i, n) =>
        assert RecordBytes(d, r) + s == Varint(d.cases[i].tag) + (Varint(n) + s);
        ReadOfVarint(n, s);
        CodecTheorems.ParseAtTag(d, lib, i, Varint(n) + s, m);
      case Single(i, x) =>
        var tag := 8 * d.cases[i].number;
        assert RecordBytes(d, r) + s == Varint(tag) + (Varint(x) + s);
        ReadOfVarint(x, s);
        assert lib.Unpacked(tag, Varint(x) + s) == Some(([x], |Varint(x)|));
        CodecTheorems.ParseAtUnpackedTag(d, lib, i, Varint(x) + s, m);
      case Chunk(i, xs) =>
        var body := Wire.Packed(xs);
        assert RecordBytes(d, r) + s == Varint(d.cases[i].tag) + (Varint(|body|) + body + s);
        CodecTheorems.PrefixedOf(lib, body, s);
        ReadPackedOfPacked(xs);
        CodecTheorems.ParseAtTag(d, lib, i, Varint(|body|) + body + s, m);
    }
  }

  lemma {:induction false} ParseRecords(d: Desc, skip: (nat, seq<byte>) -> Option<nat>, rs: seq<Record>, m: Message)
    requires WellFormed(d) && Plain(d) && Typed(d, m) && RecordsOk(d, rs)
    ensures Parse(d, JavaLibrary(skip), Bytes(d, rs), m) == Outcome(true, true, After(d, rs, m))
  {
    if rs == [] {
      assert After(d, rs, m) == m by {
        forall i | 0 <= i < |m| ensures AfterVal(rs, i, m[i]) == m[i] {
          assert TypedVal(d, i, m[i]);
          assert m[i].List? ==> m[i].xs + [] == m[i].xs;
        }
      }
    } else {
      ParseRecord(d, skip, rs[0], Bytes(d, rs[1..]), m);
      ParseRecords(d, skip, rs[1..], Taken(d, rs[0], m));
      TakenFirst(d, rs, m);
    }
  }

  /**
   For every interleaving of single elements and packed chunks, of any fields, Java accepts the
   input, each list is the concatenation of its pieces in order, and each scalar has its last value.
   */
  lemma MixedInput(d: Desc, skip: (nat, seq<byte>) -> Option<nat>, rs: seq<Record>)
    requires WellFormed(d) && Plain(d) && RecordsOk(d, rs)
    ensures Typed(d, Empty(d))
    ensures
      var j := JavaParse(d, JavaLibrary(skip), Bytes(d, rs), Empty(d));
      && j.0 && |j.1| == |d.cases|
      && forall i | 0 <= i < |d.cases| ::
        j.1[i] == if d.cases[i].kind.Packed? then List(Items(rs, i)) else Num(Last(rs, i, None))
  {
    EmptyTyped(d);
    ParseRecords(d, skip, rs, Empty(d));
    JavaParseAgrees(d, skip, Bytes(d, rs), Empty(d));
    forall i | 0 <= i < |d.cases|
      ensures
        AfterVal(rs, i, Empty(d)[i])
        == if d.cases[i].kind.Packed? then List(Items(rs, i)) else Num(Last(rs, i, None))
    {
      assert [] + Items(rs, i) == Items(rs, i);
    }
  }
}
