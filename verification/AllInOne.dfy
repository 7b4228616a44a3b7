/**
 AllInOneMessage itself: the root object over its table, with the eleven leaf classes under it.
 */
module AllInOne {
  import opened Wrappers
  import opened Wire
  import opened Schema
  import opened MessageTables
  import opened MessageLayouts
  import opened LeafMessage
  import opened RootMessage
  import CodecTheorems

  const NO_LAYOUT := Layout([], [])

  const LAYOUTS: seq<Layout> := [
    NO_LAYOUT, SECRET_LAYOUT, INITIAL_LAYOUT, MSG0_LAYOUT, MSG1_LAYOUT, MSG2_LAYOUT, MSG3_LAYOUT,
    ATTESTATION_LAYOUT, REGISTER_LAYOUT, RESPONSE_LAYOUT, SMS_LAYOUT, SMS_RESPONSE_LAYOUT
  ]

  /** The masks 255 and 3840 of Clear's two guards. */
  const CLEAR_MASKS: seq<set<nat>> := [{0, 1, 2, 3, 4, 5, 6, 7}, {8, 9, 10, 11}]

  lemma LayoutsFit(i: nat)
    requires 1 <= i < |ALL_IN_ONE.cases|
    ensures ALL_IN_ONE.cases[i].kind.Sub? && LayoutOk(ALL_IN_ONE.cases[i].kind.desc, LAYOUTS[i])
    ensures IsLeaf(ALL_IN_ONE.cases[i].kind.desc)
  {
    match i {
      case 1 => SecretLayoutOk();
      case 2 => InitialLayoutOk();
      case 3 => Msg0LayoutOk();
      case 4 => Msg1LayoutOk();
      case 5 => Msg2LayoutOk();
      case 6 => Msg3LayoutOk();
      case 7 => AttestationLayoutOk();
      case 8 => RegisterLayoutOk();
      case 9 => ResponseLayoutOk();
      case 10 => SmsLayoutOk();
      case _ => SmsResponseLayoutOk();
    }
  }

  lemma AllInOneIsRoot()
    ensures IsRoot(ALL_IN_ONE)
  {
    forall i | 1 <= i < |ALL_IN_ONE.cases|
      ensures ALL_IN_ONE.cases[i].kind.Sub? && IsLeaf(ALL_IN_ONE.cases[i].kind.desc)
    {
      LayoutsFit(i);
    }
  }

  lemma MasksFit(i: nat)
    requires i < |ALL_IN_ONE.cases|
    ensures ALL_IN_ONE.cases[i].group < |CLEAR_MASKS| && i in CLEAR_MASKS[ALL_IN_ONE.cases[i].group]
  {
  }

  /** A new AllInOneMessage; every table it works from is consistent. */
  method New() returns (m: Root)
    ensures fresh(m) && m.desc == ALL_IN_ONE && m.layouts == LAYOUTS && m.TableOk() && m.Valid() && m.Tidy()
    ensures m.value == Empty(ALL_IN_ONE) && forall k | 0 <= k < |m.children| :: m.children[k] == null
  {
    AllInOneIsRoot();
    AllInOneWellFormed();
    m := new Root(ALL_IN_ONE, LAYOUTS, CLEAR_MASKS);
    forall i | 1 <= i < |m.desc.cases| ensures m.LayoutFits(i) {
      LayoutsFit(i);
    }
    forall i | 0 <= i < |m.desc.cases| ensures m.MaskFits(i) {
      MasksFit(i);
    }
  }

  // ----- Which messages are refused ----------------------------------------------------------------

  /** What field i of the class of sub-message i must have: its type, and for three classes a second field. */
  lemma RequiredOf(i: nat)
    requires 1 <= i < |ALL_IN_ONE.cases|
    ensures ALL_IN_ONE.cases[i].kind.Sub?
    ensures ALL_IN_ONE.cases[i].kind.desc.required == if i == 3 || i == 7 || i == 11 then {0, 1} else {0}
    ensures |ALL_IN_ONE.cases[i].kind.desc.cases| > 1
    ensures !ALL_IN_ONE.cases[i].kind.desc.cases[0].kind.Packed?
    ensures i == 3 || i == 7 || i == 11 ==> !ALL_IN_ONE.cases[i].kind.desc.cases[1].kind.Packed?
  {
  }

  lemma SubInitialized(i: nat, m: Message, c: Message)
    requires Typed(ALL_IN_ONE, m) && 1 <= i < |m| && m[i] == Msg(Some(c))
    ensures WellFormed(ALL_IN_ONE) && ALL_IN_ONE.cases[i].kind.Sub?
    ensures |c| > 1 && c[0].Num? && ((i == 3 || i == 7 || i == 11) ==> c[1].Num?)
    ensures InitializedSub(ALL_IN_ONE, i, m) <==>
      c[0].num.Some? && ((i == 3 || i == 7 || i == 11) ==> c[1].num.Some?)
  {
    AllInOneWellFormed();
    RequiredOf(i);
    LayoutsFit(i);
    var d := ALL_IN_ONE.cases[i].kind.desc;
    assert TypedVal(ALL_IN_ONE, i, m[i]) && SubOk(ALL_IN_ONE, i) && Typed(d, c);
    assert TypedVal(d, 0, c[0]) && TypedVal(d, 1, c[1]);
  }

  /**
   The type is required, and in every present sub-message its type; in msg0, attestMsg and smsresMsg
   the second field too.
   */
  lemma InitializedIff(m: Message)
    requires Typed(ALL_IN_ONE, m)
    ensures WellFormed(ALL_IN_ONE)
    ensures Initialized(ALL_IN_ONE, m) <==>
      && |m| == 12 && m[0].Num? && m[0].num.Some?
      && forall i | 1 <= i < 12 && m[i].Msg? && m[i].msg.Some? ::
        var c := m[i].msg.value;
        && |c| > 1 && c[0].Num? && c[0].num.Some?
        && (i == 3 || i == 7 || i == 11 ==> c[1].Num? && c[1].num.Some?)
  {
    AllInOneWellFormed();
    AllInOneIsRoot();
    assert TypedVal(ALL_IN_ONE, 0, m[0]);
    forall i | 1 <= i < 12
      ensures m[i].Msg?
      ensures InitializedSub(ALL_IN_ONE, i, m) <==>
        (m[i].msg.Some? ==>
          var c := m[i].msg.value;
          && |c| > 1 && c[0].Num? && c[0].num.Some?
          && (i == 3 || i == 7 || i == 11 ==> c[1].Num? && c[1].num.Some?))
    {
      assert TypedVal(ALL_IN_ONE, i, m[i]) && ALL_IN_ONE.cases[i].kind.Sub?;
      if m[i].msg.Some? {
        SubInitialized(i, m, m[i].msg.value);
      }
    }
    if Initialized(ALL_IN_ONE, m) {
      SubsInitialized(m);
    } else if Present(m[0]) {
      var i := Uninitialized(m);
      assert 1 <= i < 12 && !InitializedSub(ALL_IN_ONE, i, m);
    }
  }

  lemma SubsInitialized(m: Message)
    requires Typed(ALL_IN_ONE, m) && WellFormed(ALL_IN_ONE) && IsRoot(ALL_IN_ONE) && Initialized(ALL_IN_ONE, m)
    ensures Present(m[0]) && forall i | 1 <= i < 12 :: InitializedSub(ALL_IN_ONE, i, m)
  {
    assert 0 in ALL_IN_ONE.required;
    forall i | 1 <= i < 12 ensures InitializedSub(ALL_IN_ONE, i, m) {
      assert ALL_IN_ONE.cases[i].kind.Sub?;
    }
  }

  lemma Uninitialized(m: Message) returns (i: nat)
    requires Typed(ALL_IN_ONE, m) && WellFormed(ALL_IN_ONE) && IsRoot(ALL_IN_ONE)
    requires Present(m[0]) && !Initialized(ALL_IN_ONE, m)
    ensures 1 <= i < 12 && !InitializedSub(ALL_IN_ONE, i, m)
  {
    if forall i | 1 <= i < 12 :: InitializedSub(ALL_IN_ONE, i, m) {
      AllInitialized(m);
    }
    i :| 1 <= i < 12 && !InitializedSub(ALL_IN_ONE, i, m);
  }

  lemma AllInitialized(m: Message)
    requires Typed(ALL_IN_ONE, m) && WellFormed(ALL_IN_ONE) && IsRoot(ALL_IN_ONE)
    requires Present(m[0]) && forall i | 1 <= i < 12 :: InitializedSub(ALL_IN_ONE, i, m)
    ensures Initialized(ALL_IN_ONE, m)
  {
    assert ALL_IN_ONE.required == {0};
    forall i | 0 <= i < |m| && ALL_IN_ONE.cases[i].kind.Sub? ensures InitializedSub(ALL_IN_ONE, i, m) {
      assert i != 0;
    }
  }

  /** A new message and ParseFromString(), which takes exactly the whole messages with all they require. */
  method Receive(bytes: seq<byte>, lib: Library) returns (ok: bool, m: Root)
    ensures fresh(m) && m.desc == ALL_IN_ONE && m.TableOk() && m.Valid() && m.Tidy()
    ensures forall k | 0 <= k < |m.children| && m.children[k] != null :: fresh(m.children[k])
    ensures Typed(ALL_IN_ONE, Empty(ALL_IN_ONE)) && Typed(ALL_IN_ONE, m.value) && WellFormed(ALL_IN_ONE)
    ensures m.value == Parse(ALL_IN_ONE, lib, bytes, Empty(ALL_IN_ONE)).m
    ensures
      var o := Parse(ALL_IN_ONE, lib, bytes, Empty(ALL_IN_ONE));
      ok <==>
        && o.ok && o.legit && |o.m| == 12 && o.m[0].Num? && o.m[0].num.Some?
        && forall i | 1 <= i < 12 && o.m[i].Msg? && o.m[i].msg.Some? ::
          var c := o.m[i].msg.value;
          && |c| > 1 && c[0].Num? && c[0].num.Some?
          && (i == 3 || i == 7 || i == 11 ==> c[1].Num? && c[1].num.Some?)
    ensures ok <==>
      && Parse(ALL_IN_ONE, lib, bytes, Empty(ALL_IN_ONE)).ok && Parse(ALL_IN_ONE, lib, bytes, Empty(ALL_IN_ONE)).legit
      && Initialized(ALL_IN_ONE, m.value)
  {
    m := New();
    ghost var none := m.children;
    ok := m.ParseFromString(bytes, lib);
    InitializedIff(m.value);
    assert forall k | 0 <= k < |none| :: m.children[k] != none[k] ==> fresh(m.children[k]);
  }

  /** msg0 without the epid it requires, in a message that is otherwise whole. */
  method MissingEpid(lib: Library) returns (ok: bool, m: Root)
    ensures !ok && |m.value| == 12
    ensures m.value[0] == Num(Some(0)) && m.value[3] == Msg(Some([Num(Some(0)), Num(None), Num(None)]))
  {
    MissingEpidBytes(lib);
    ok, m := Receive([8, 0, 34, 2, 8, 0], lib);
    WithoutEpid(m.value);
  }

  lemma WithoutEpid(m: Message)
    requires Typed(ALL_IN_ONE, m) && WellFormed(ALL_IN_ONE)
    requires |m| == 12 && m[3] == Msg(Some([Num(Some(0)), Num(None), Num(None)]))
    ensures !Initialized(ALL_IN_ONE, m)
  {
    InitializedIff(m);
  }

  // ----- The sub-message pointers --------------------------------------------------------------------

  /**
   A write through a pointer kept after clear_secretmsg(), in a message with a type: Clear takes the type
   and leaves every field absent, and yet the written data behind the pointer, where secretmsg() still
   shows it.
   */
  method KeptPointer(size: uint32) returns (m: Root, shown: Message)
    ensures fresh(m) && m.TableOk() && m.Valid() && m.desc == ALL_IN_ONE && m.value == Empty(ALL_IN_ONE)
    ensures shown == m.held[1] == [Num(None), Num(Some(size))] && !m.Tidy()
    ensures forall k | 0 <= k < |m.children| && m.children[k] != null :: fresh(m.children[k])
  {
    m := WriteAfterClear(size);
    m.SetType(RA_MSG0);
    shown := ClearAndGet(m, 1);
    Lingers(m, size);
  }

  method ClearAndGet(m: Root, i: nat) returns (shown: Message)
    requires m.TableOk() && m.Valid() && 1 <= i < |m.children| && i !in m.hasBits
    modifies m`hasBits, m`kind, m`value, m`held, m.children
    ensures m.Valid() && m.value == Empty(m.desc) && i !in m.hasBits && m.children == old(m.children)
    ensures i < |m.held| == |old(m.held)| && shown == m.held[i] == old(m.held)[i]
  {
    m.Clear();
    shown := m.Get(i);
  }

  lemma Lingers(m: Root, size: uint32)
    requires m.Shapes() && m.desc == ALL_IN_ONE && 1 !in m.hasBits
    requires |m.held| > 1 && m.held[1] == [Num(None), Num(Some(size))]
    ensures !m.Tidy()
  {
    assert SubEmpty(ALL_IN_ONE, 1)[1] == Num(None);
  }

  /** The next mutable_secretmsg() makes what lingered part of the message again. */
  method KeptPointerShows(size: uint32) returns (m: Root)
    ensures m.Valid() && |m.value| == |ALL_IN_ONE.cases| && m.value[1] == Msg(Some([Num(None), Num(Some(size))]))
  {
    var shown;
    m, shown := KeptPointer(size);
    var child := m.Mutable(1);
  }

  method WriteAfterClear(size: uint32) returns (m: Root)
    ensures fresh(m) && m.TableOk() && m.Valid() && m.desc == ALL_IN_ONE && 1 !in m.hasBits
    ensures forall k | 0 <= k < |m.children| && m.children[k] != null :: fresh(m.children[k])
    ensures |m.held| == |ALL_IN_ONE.cases| && m.held[1] == [Num(None), Num(Some(size))]
  {
    m := New();
    var kept := m.Mutable(1);
    m.ClearSub(1);
    assert m.SlotOk(1);
    assert kept.value == [Num(None), Num(None)];
    WriteBehind(m, 1, kept, size);
  }

  /** A write to field 1 of a sub-message through a pointer whose field is absent. */
  method WriteBehind(m: Root, i: nat, kept: Leaf, n: uint32)
    requires m.Valid() && 1 <= i < |m.children| && m.children[i] == kept && i !in m.hasBits
    requires kept.Valid() && |kept.nums| > 1 && kept.desc.cases[1].kind.UInt32?
    modifies m`value, m`held, kept
    ensures m.Valid() && m.held == old(m.held)[i := old(kept.value)[1 := Num(Some(n))]]
  {
    label Cleared:
    assert m.SlotOk(i);
    kept.Set(1, n);
    m.PointerWrite@Cleared(i);
    m.AcceptWrite(i);
  }

  /** Nested round trip: through every length prefix, packed list and the two-byte tag. */
  lemma RoundTrip(lib: Library, a: Message)
    requires Typed(ALL_IN_ONE, a) && Fits(ALL_IN_ONE, a)
    ensures Typed(ALL_IN_ONE, Empty(ALL_IN_ONE))
    ensures Parse(ALL_IN_ONE, lib, Ser(ALL_IN_ONE, a), Empty(ALL_IN_ONE)) == Outcome(true, true, a)
  {
    AllInOneWellFormed();
    CodecTheorems.RoundTrip(ALL_IN_ONE, lib, a);
  }

  // ----- Literal bytes ---------------------------------------------------------------------------------

  /** A message of type RA_MSG0 with this msg0. */
  function WithMsg0(msg0: Message): (m: Message)
    ensures |m| == 12
  {
    Empty(ALL_IN_ONE)[0 := Num(Some(0))][3 := Msg(Some(msg0))]
  }

  lemma WithMsg0Typed(msg0: Message)
    requires Typed(MSG0, msg0)
    ensures Typed(ALL_IN_ONE, WithMsg0(msg0))
  {
    EmptyTyped(ALL_IN_ONE);
    forall i | 0 <= i < 12 ensures TypedVal(ALL_IN_ONE, i, WithMsg0(msg0)[i]) {
      assert TypedVal(ALL_IN_ONE, i, Empty(ALL_IN_ONE)[i]);
    }
  }

  /** Its bytes: the type, then tag and length in front of msg0. */
  lemma WithMsg0Bytes(msg0: Message)
    requires Typed(MSG0, msg0) && |Ser(MSG0, msg0)| < 128
    ensures Typed(ALL_IN_ONE, WithMsg0(msg0))
    ensures Ser(ALL_IN_ONE, WithMsg0(msg0)) == [8, 0, 34, |Ser(MSG0, msg0)|] + Ser(MSG0, msg0)
  {
    WithMsg0Typed(msg0);
    var d, m := ALL_IN_ONE, WithMsg0(msg0);
    Msg0Tail(msg0);
    assert SerField(d, 0, m[0]) == [8, 0];
    assert Ser(d, m) == SerField(d, 0, m[0]) + SerFrom(d, m, 1);
  }

  lemma Msg0Tail(msg0: Message)
    requires Typed(ALL_IN_ONE, WithMsg0(msg0)) && Typed(MSG0, msg0) && |Ser(MSG0, msg0)| < 128
    ensures SerFrom(ALL_IN_ONE, WithMsg0(msg0), 1) == [34, |Ser(MSG0, msg0)|] + Ser(MSG0, msg0)
  {
    var d, m := ALL_IN_ONE, WithMsg0(msg0);
    CodecTheorems.AbsentTail(d, m, 4);
    assert SerFrom(d, m, 3) == SerField(d, 3, m[3]) + SerFrom(d, m, 4);
    assert SerField(d, 1, m[1]) == [] && SerField(d, 2, m[2]) == [];
    assert SerFrom(d, m, 2) == SerField(d, 2, m[2]) + SerFrom(d, m, 3);
    assert SerFrom(d, m, 1) == SerField(d, 1, m[1]) + SerFrom(d, m, 2);
  }

  /** A msg0 with a type only is the two bytes 8, 0. */
  lemma TypeOnlyBytes()
    ensures Typed(MSG0, [Num(Some(0)), Num(None), Num(None)])
    ensures Ser(MSG0, [Num(Some(0)), Num(None), Num(None)]) == [8, 0]
  {
    var m := [Num(Some(0)), Num(None), Num(None)];
    assert TypedVal(MSG0, 0, m[0]) && TypedVal(MSG0, 1, m[1]) && TypedVal(MSG0, 2, m[2]);
    CodecTheorems.AbsentTail(MSG0, m, 1);
    assert SerField(MSG0, 0, m[0]) == [8, 0];
  }

  /** The bytes of a message with a msg0 that has a type only, and what the parser makes of them. */
  lemma MissingEpidBytes(lib: Library)
    ensures Typed(ALL_IN_ONE, Empty(ALL_IN_ONE))
    ensures
      Parse(ALL_IN_ONE, lib, [8, 0, 34, 2, 8, 0], Empty(ALL_IN_ONE))
      == Outcome(true, true, WithMsg0([Num(Some(0)), Num(None), Num(None)]))
  {
    var msg0 := [Num(Some(0)), Num(None), Num(None)];
    TypeOnlyBytes();
    WithMsg0Bytes(msg0);
    assert [8, 0, 34, 2, 8, 0] == [8, 0, 34, 2] + [8, 0];
    RoundTrip(lib, WithMsg0(msg0));
  }

  /** List 16 of AttestationMessage: the two-byte tag, the length of the packed bytes, and the bytes. */
  lemma PayloadBytes()
    ensures SerField(ATTESTATION, 15, List([200, 3])) == [130, 1, 3, 200, 1, 3]
  {
    VarintBytes(130);
    VarintBytes(200);
    assert Wire.Packed([200, 3]) == [200, 1, 3] by {
      assert [200, 3][1..] == [3] && [3][1..] == [];
      assert Wire.Packed([3]) == Varint(3) + Wire.Packed([3][1..]);
      assert Wire.Packed([200, 3]) == Varint(200) + Wire.Packed([200, 3][1..]);
    }
  }

  /**
   Where the parser stops: at the end of input; at tag 0, an end-group tag and a tag that is cut off,
   which leave it short of the end; and at a type without a value. An undeclared type is dropped.
   */
  lemma Stops(lib: Library)
    ensures Typed(ALL_IN_ONE, Empty(ALL_IN_ONE))
    ensures Parse(ALL_IN_ONE, lib, [], Empty(ALL_IN_ONE)) == Outcome(true, true, Empty(ALL_IN_ONE))
    ensures Parse(ALL_IN_ONE, lib, [0], Empty(ALL_IN_ONE)) == Outcome(true, false, Empty(ALL_IN_ONE))
    ensures Parse(ALL_IN_ONE, lib, [12], Empty(ALL_IN_ONE)) == Outcome(true, false, Empty(ALL_IN_ONE))
    ensures Parse(ALL_IN_ONE, lib, [128], Empty(ALL_IN_ONE)) == Outcome(true, false, Empty(ALL_IN_ONE))
    ensures Parse(ALL_IN_ONE, lib, [8], Empty(ALL_IN_ONE)) == Outcome(false, false, Empty(ALL_IN_ONE))
    ensures Parse(ALL_IN_ONE, lib, [8, 11], Empty(ALL_IN_ONE)) == Outcome(true, true, Empty(ALL_IN_ONE))
  {
    var e := Empty(ALL_IN_ONE);
    EmptyTyped(ALL_IN_ONE);
    OneByte(0, []);
    OneByte(12, []);
    ReadMeans([128], 1);
    ReadMeans([], 0);
    OneByte(8, []);
    OneByte(8, [11]);
    OneByte(11, []);
    assert [0] + [] == [0] && [12] + [] == [12] && [8] + [] == [8] && [8] + [11] == [8, 11] && [11] + [] == [11];
    TypeSteps(lib);
  }

  /** A msg0 that ends at a tag 0, or that is cut off after a tag, is refused; it is present and empty. */
  lemma NestedStops(lib: Library, last: byte)
    requires last == 0 || last == 8
    ensures Typed(ALL_IN_ONE, Empty(ALL_IN_ONE))
    ensures
      Parse(ALL_IN_ONE, lib, [34, 1, last], Empty(ALL_IN_ONE))
      == Outcome(false, false, Empty(ALL_IN_ONE)[3 := Msg(Some([Num(None), Num(None), Num(None)]))])
  {
    EmptyTyped(ALL_IN_ONE);
    var e, none := Empty(ALL_IN_ONE), [Num(None), Num(None), Num(None)];
    OneByte(34, [1, last]);
    assert [34] + [1, last] == [34, 1, last];
    AllInOneWellFormed();
    CodecTheorems.DispatchOfTag(ALL_IN_ONE, 3, 0);
    assert e[3] == Msg(None);
    assert ReadVal(ALL_IN_ONE, 3, lib, [1, last], e[3]) == Read(false, Msg(Some(none)), []) by {
      assert Empty(MSG0) == none;
      NestedStop(lib, last);
    }
  }

  lemma NestedStop(lib: Library, last: byte)
    requires last == 0 || last == 8
    ensures Prefixed(lib, [1, last]) == Some(([last], [])) && Typed(MSG0, Empty(MSG0))
    ensures
      var o := Parse(MSG0, lib, [last], Empty(MSG0));
      !(o.ok && o.legit) && o.m == Empty(MSG0)
  {
    EmptyTyped(MSG0);
    OneByte(1, [last]);
    OneByte(last, []);
    ReadMeans([], 0);
    assert [1] + [last] == [1, last] && [last] + [] == [last];
    assert [1, last][1..1 + 1] == [last] && [1, last][1 + 1..] == [];
    assert Dispatch(MSG0, 8, 0) == Field(0);
    assert Empty(MSG0)[0 := Empty(MSG0)[0]] == Empty(MSG0);
  }

  lemma TypeSteps(lib: Library)
    ensures Typed(ALL_IN_ONE, Empty(ALL_IN_ONE))
    ensures Step(ALL_IN_ONE, lib, 8, [], Empty(ALL_IN_ONE)) == (false, Empty(ALL_IN_ONE), [])
    ensures Step(ALL_IN_ONE, lib, 8, [11], Empty(ALL_IN_ONE)) == (true, Empty(ALL_IN_ONE), [])
  {
    var e := Empty(ALL_IN_ONE);
    EmptyTyped(ALL_IN_ONE);
    ReadMeans([], 0);
    OneByte(11, []);
    assert [11] + [] == [11];
    assert Dispatch(ALL_IN_ONE, 8, 0) == Field(0);
    assert e[0] == Num(None) && e[0 := e[0]] == e;
  }

  /** A sub-message that both have is merged field by field: last value of a scalar, lists in a row. */
  lemma MergedFields(a: Message, b: Message, i: nat, j: nat)
    requires Typed(ALL_IN_ONE, a) && Typed(ALL_IN_ONE, b) && 1 <= i < 12
    ensures |a| == |b| == |Merge(ALL_IN_ONE, a, b)| == 12 && a[i].Msg? && b[i].Msg? && a[0].Num? && b[0].Num?
    ensures Merge(ALL_IN_ONE, a, b)[0] == if b[0].num.Some? then b[0] else a[0]
    ensures a[i].msg.None? ==> Merge(ALL_IN_ONE, a, b)[i] == b[i]
    ensures b[i].msg.None? ==> Merge(ALL_IN_ONE, a, b)[i] == a[i]
    ensures a[i].msg.Some? && b[i].msg.Some? && j < |a[i].msg.value| ==>
      var x, y := a[i].msg.value, b[i].msg.value;
      var z := Merge(ALL_IN_ONE, a, b)[i];
      && |x| == |y| && z.Msg? && z.msg.Some? && |z.msg.value| == |x|
      && (x[j].List? || x[j].Num?)
      && (x[j].Num? ==> y[j].Num? && z.msg.value[j] == if y[j].num.Some? then y[j] else x[j])
      && (x[j].List? ==> y[j].List? && z.msg.value[j] == List(x[j].xs + y[j].xs))
  {
    AllInOneIsRoot();
    assert TypedVal(ALL_IN_ONE, i, a[i]) && TypedVal(ALL_IN_ONE, i, b[i]) && ALL_IN_ONE.cases[i].kind.Sub?;
    assert TypedVal(ALL_IN_ONE, 0, a[0]) && TypedVal(ALL_IN_ONE, 0, b[0]);
    var d := ALL_IN_ONE.cases[i].kind.desc;
    if b[i].msg.Some? {
      CodecTheorems.MergeEmptyLeft(d, b[i].msg.value);
      if a[i].msg.Some? && j < |a[i].msg.value| {
        MergedLeaf(d, a[i].msg.value, b[i].msg.value, j);
        assert Merge(ALL_IN_ONE, a, b)[i] == Msg(Some(Merge(d, a[i].msg.value, b[i].msg.value)));
      }
    }
  }

  lemma MergedLeaf(d: Desc, x: Message, y: Message, j: nat)
    requires IsLeaf(d) && Typed(d, x) && Typed(d, y) && j < |x|
    ensures |x| == |y| == |Merge(d, x, y)| && (x[j].List? || x[j].Num?)
    ensures x[j].Num? ==> y[j].Num? && Merge(d, x, y)[j] == if y[j].num.Some? then y[j] else x[j]
    ensures x[j].List? ==> y[j].List? && Merge(d, x, y)[j] == List(x[j].xs + y[j].xs)
  {
    assert TypedVal(d, j, x[j]) && TypedVal(d, j, y[j]) && !d.cases[j].kind.Sub?;
  }
}
