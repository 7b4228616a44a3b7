/**
 The six message classes of the Java implementation as tables, read off its parsing constructors,
 writeTo, getSerializedSize, buildPartial and isInitialized, and their agreement with the C++ ones.
 */
module JavaTables {
  import opened Wrappers
  import opened Wire
  import opened Schema
  import opened MessageTables
  import CodecTheorems

  /**
   Case i has number i + 1, and 1 << i is its mask in a builder and, for a list, in the parser's
   mutable bits. `bit` is a scalar's presence bit in a message, counted over scalars only. `tagSize`
   is what getSerializedSize adds for a list's tag.
   */
  datatype JavaCase = Scalar(tag: nat, bit: nat) | Repeated(tag: nat, tagSize: nat)

  datatype JavaTable = JavaTable(cases: seq<JavaCase>, required: set<nat>)

  /** The table in the terms of the codec: `type` is a plain number here, not an enum. */
  function DescOf(t: JavaTable): Desc {
    Desc(CasesTo(t, |t.cases|), 0x3fff, [0, 8, 16, 24], t.required)
  }

  function CasesTo(t: JavaTable, n: nat): (r: seq<Case>)
    requires n <= |t.cases|
    ensures |r| == n && forall i | 0 <= i < n :: r[i] == CaseOf(t, i)
  {
    if n == 0 then [] else CasesTo(t, n - 1) + [CaseOf(t, n - 1)]
  }

  function CaseOf(t: JavaTable, i: nat): Case
    requires i < |t.cases|
  {
    var next := if i + 1 < |t.cases| then t.cases[i + 1].tag else 0;
    Case(i + 1, t.cases[i].tag, if t.cases[i].Repeated? then Kind.Packed else Kind.UInt32, next, i / 8)
  }

  predicate JavaCaseOk(t: JavaTable, i: nat)
    requires i < |t.cases|
  {
    match t.cases[i]
    case Scalar(tag, _) => tag == 8 * (i + 1)
    case Repeated(tag, tagSize) => tag == 8 * (i + 1) + 2 && tag < 0x4000 && tagSize == VarintSize(tag)
  }

  /** Presence bits of a message grow with the field numbers of its scalars. */
  predicate BitsApart(t: JavaTable, i: nat, j: nat)
    requires i < j < |t.cases|
  {
    t.cases[i].Scalar? && t.cases[j].Scalar? ==> t.cases[i].bit < t.cases[j].bit
  }

  ghost predicate TableOk(t: JavaTable) {
    && 1 <= |t.cases| <= 32
    && (forall i | 0 <= i < |t.cases| :: JavaCaseOk(t, i))
    && (forall i, j | 0 <= i < j < |t.cases| :: BitsApart(t, i, j))
    && (forall i | i in t.required :: i < |t.cases| && t.cases[i].Scalar?)
  }

  /** No enum and no sub-message: every value has one of two shapes. */
  predicate Plain(d: Desc) {
    forall i | 0 <= i < |d.cases| :: d.cases[i].kind.UInt32? || d.cases[i].kind.Packed?
  }

  lemma DescOfWellFormed(t: JavaTable)
    requires TableOk(t)
    ensures WellFormed(DescOf(t)) && IsLeaf(DescOf(t)) && Plain(DescOf(t))
  {
    var d := DescOf(t);
    forall i | 0 <= i < |d.cases| ensures CaseOk(d, i) {
      assert JavaCaseOk(t, i);
      if i + 1 < |d.cases| {
        assert JavaCaseOk(t, i + 1);
      }
    }
  }

  // InitialMessage
  const JAVA_INITIAL: JavaTable := JavaTable(
    [
      Scalar(8, 0),       // type
      Scalar(16, 1)       // size
    ],
    {0})

  // MessageMsg0
  const JAVA_MSG0: JavaTable := JavaTable(
    [
      Scalar(8, 0),       // type
      Scalar(16, 1),      // epid
      Scalar(24, 2)       // status
    ],
    {0, 1})

  // MessageMSG1
  const JAVA_MSG1: JavaTable := JavaTable(
    [
      Scalar(8, 0),       // type
      Repeated(18, 1),    // gaX
      Repeated(26, 1),    // gaY
      Repeated(34, 1)     // gID
    ],
    {0})

  // MessageMSG2
  const JAVA_MSG2: JavaTable := JavaTable(
    [
      Scalar(8, 0),       // type
      Scalar(16, 1),      // size
      Repeated(26, 1),    // publicKeyGx
      Repeated(34, 1),    // publicKeyGy
      Scalar(40, 2),      // quoteType
      Repeated(50, 1),    // spid
      Scalar(56, 3),      // cmacKdfId
      Repeated(66, 1),    // signatureX
      Repeated(74, 1),    // signatureY
      Repeated(82, 1),    // smac
      Scalar(88, 4),      // sizeSigrl
      Repeated(98, 1)     // sigrl
    ],
    {0})

  // MessageMSG3
  const JAVA_MSG3: JavaTable := JavaTable(
    [
      Scalar(8, 0),       // type
      Scalar(16, 1),      // size
      Repeated(26, 1),    // sgxMac
      Repeated(34, 1),    // gaxMsg3
      Repeated(42, 1),    // gayMsg3
      Repeated(50, 1),    // secProperty
      Repeated(58, 1)     // quote
    ],
    {0})

  // AttestationMessage
  const JAVA_ATTESTATION: JavaTable := JavaTable(
    [
      Scalar(8, 0),       // type
      Scalar(16, 1),      // size
      Scalar(24, 2),      // epidGroupStatus
      Scalar(32, 3),      // tcbEvaluationStatus
      Scalar(40, 4),      // pseEvaluationStatus
      Repeated(50, 1),    // latestEquivalentTcbPsvn
      Repeated(58, 1),    // latestPseIsvsvn
      Repeated(66, 1),    // latestPsdaSvn
      Repeated(74, 1),    // performanceRekeyGid
      Repeated(82, 1),    // ecSign256X
      Repeated(90, 1),    // ecSign256Y
      Repeated(98, 1),    // macSmk
      Scalar(104, 5),     // resultSize
      Repeated(114, 1),   // reserved
      Repeated(122, 1),   // payloadTag
      Repeated(130, 2)    // payload
    ],
    {0, 1})

  lemma JavaSmallTablesOk()
    ensures TableOk(JAVA_INITIAL) && TableOk(JAVA_MSG0) && TableOk(JAVA_MSG1) && TableOk(JAVA_MSG3)
  {
  }

  lemma JavaMsg2Ok()
    ensures TableOk(JAVA_MSG2)
  {
  }

  lemma JavaAttestationOk()
    ensures TableOk(JAVA_ATTESTATION)
  {
  }

  // ----- The two implementations write the same bytes -------------------------------------------

  /** The same tags for the same shapes, apart from the enum. */
  predicate SameWire(d: Desc, t: JavaTable) {
    && |d.cases| == |t.cases|
    && forall i | 0 <= i < |d.cases| ::
      d.cases[i].tag == t.cases[i].tag && !d.cases[i].kind.Sub? && (d.cases[i].kind.Packed? <==> t.cases[i].Repeated?)
  }

  lemma TablesAgree()
    ensures SameWire(INITIAL, JAVA_INITIAL) && SameWire(MSG0, JAVA_MSG0) && SameWire(MSG1, JAVA_MSG1)
    ensures SameWire(MSG2, JAVA_MSG2) && SameWire(MSG3, JAVA_MSG3) && SameWire(ATTESTATION, JAVA_ATTESTATION)
  {
  }

  lemma {:induction false} SerFromAgrees(d: Desc, t: JavaTable, m: Message, i: nat)
    requires SameWire(d, t) && Typed(d, m) && i <= |m|
    ensures Typed(DescOf(t), m) && SerFrom(d, m, i) == SerFrom(DescOf(t), m, i)
    decreases |m| - i
  {
    forall j | 0 <= j < |m| ensures TypedVal(DescOf(t), j, m[j]) {
      assert TypedVal(d, j, m[j]);
    }
    if i < |m| {
      SerFromAgrees(d, t, m, i + 1);
      assert TypedVal(d, i, m[i]);
    }
  }

  /** Equal field values with a declared type: identical bytes from both serializers. */
  lemma SerAgrees(d: Desc, t: JavaTable, m: Message)
    requires SameWire(d, t) && Typed(d, m)
    ensures Typed(DescOf(t), m) && Ser(d, m) == Ser(DescOf(t), m)
  {
    SerFromAgrees(d, t, m, 0);
  }

  // ----- C++ reading what Java wrote --------------------------------------------------------------

  /** `m` without a type value that the enum does not declare. */
  function Declared(d: Desc, m: Message): (r: Message)
    requires |m| == |d.cases| >= 1
    ensures |r| == |m|
  {
    if d.cases[0].kind.Enum? && m[0].Num? && m[0].num.Some? && !IsValidType(m[0].num.value) then m[0 := Num(None)]
    else m
  }

  /** Only the first field is an enum. */
  predicate TypeFirst(d: Desc) {
    && |d.cases| >= 1 && d.cases[0].kind.Enum?
    && forall i | 1 <= i < |d.cases| :: !d.cases[i].kind.Enum?
  }

  /**
   The C++ parsing loop accepts every Java message; what it gets is the same message exactly if the type
   is absent or at most 10, and otherwise the message without its type.
   */
  lemma CppReadsJava(d: Desc, t: JavaTable, lib: Library, m: Message)
    requires WellFormed(d) && SameWire(d, t) && TypeFirst(d) && Typed(DescOf(t), m) && Fits(DescOf(t), m)
    ensures Typed(d, Empty(d))
    ensures Parse(d, lib, Ser(DescOf(t), m), Empty(d)) == Outcome(true, true, Declared(d, m))
    ensures Declared(d, m) == m <==> Typed(d, m)
  {
    EmptyTyped(d);
    var r := Declared(d, m);
    forall i | 0 <= i < |r| ensures TypedVal(d, i, r[i]) {
      assert TypedVal(DescOf(t), i, m[i]);
    }
    assert TypedVal(DescOf(t), 0, m[0]);
    SerAgrees(d, t, r);
    if r == m {
      CodecTheorems.RoundTrip(d, lib, m);
    } else {
      UndeclaredType(d, t, lib, m);
      assert !TypedVal(d, 0, m[0]);
    }
  }

  /** The classes that both implementations have. */
  const PAIRS: seq<(Desc, JavaTable)> := [
    (INITIAL, JAVA_INITIAL), (MSG0, JAVA_MSG0), (MSG1, JAVA_MSG1), (MSG2, JAVA_MSG2), (MSG3, JAVA_MSG3),
    (ATTESTATION, JAVA_ATTESTATION)
  ]

  lemma PairOk(k: nat)
    requires k < |PAIRS|
    ensures WellFormed(PAIRS[k].0) && 0 in PAIRS[k].0.required && TableOk(PAIRS[k].1)
  {
    match k {
      case 0 => InitialWellFormed(); JavaSmallTablesOk();
      case 1 => Msg0WellFormed(); JavaSmallTablesOk();
      case 2 => Msg1WellFormed(); JavaSmallTablesOk();
      case 3 => Msg2WellFormed(); JavaMsg2Ok();
      case 4 => Msg3WellFormed(); JavaSmallTablesOk();
      case _ => AttestationWellFormed(); JavaAttestationOk();
    }
  }

  lemma TypesFirst(k: nat)
    requires k < |PAIRS|
    ensures TypeFirst(PAIRS[k].0)
  {
  }

  /**
   For each class of the repository: what Java writes arrives in C++ unchanged exactly if the type is
   absent or declared; an undeclared type is lost, and with it a required field.
   */
  lemma CppReadsEveryJava(k: nat, lib: Library, m: Message)
    requires k < |PAIRS| && Typed(DescOf(PAIRS[k].1), m) && Fits(DescOf(PAIRS[k].1), m)
    ensures Typed(PAIRS[k].0, Empty(PAIRS[k].0)) && |m| >= 1 && m[0].Num?
    ensures
      var o := Parse(PAIRS[k].0, lib, Ser(DescOf(PAIRS[k].1), m), Empty(PAIRS[k].0));
      && o.ok && o.legit
      && (o.m == m <==> (m[0].num.Some? ==> IsValidType(m[0].num.value)))
      && (o.m != m ==> o.m == m[0 := Num(None)] && 0 in PAIRS[k].0.required)
  {
    PairOk(k);
    TypesFirst(k);
    TablesAgree();
    CppReadsJava(PAIRS[k].0, PAIRS[k].1, lib, m);
    assert TypedVal(DescOf(PAIRS[k].1), 0, m[0]);
  }

  /** An InitialMessage of type 11. */
  lemma UndeclaredWitness(lib: Library)
    ensures Typed(DescOf(JAVA_INITIAL), [Num(Some(11)), Num(None)])
    ensures Ser(DescOf(JAVA_INITIAL), [Num(Some(11)), Num(None)]) == [8, 11]
    ensures Typed(INITIAL, Empty(INITIAL))
    ensures Parse(INITIAL, lib, [8, 11], Empty(INITIAL)) == Outcome(true, true, [Num(None), Num(None)])
  {
    var d, m := DescOf(JAVA_INITIAL), [Num(Some(11)), Num(None)];
    JavaSmallTablesOk();
    DescOfWellFormed(JAVA_INITIAL);
    assert d.cases[0] == CaseOf(JAVA_INITIAL, 0) && d.cases[1] == CaseOf(JAVA_INITIAL, 1);
    assert TypedVal(d, 0, m[0]) && TypedVal(d, 1, m[1]);
    assert SerFrom(d, m, 1) == [] by {
      assert SerField(d, 1, m[1]) == [] && SerFrom(d, m, 2) == [];
    }
    assert Ser(d, m) == [8, 11] by {
      assert SerField(d, 0, m[0]) == Varint(8) + Varint(11);
    }
    CppReadsEveryJava(0, lib, m);
    assert m[0 := Num(None)] == [Num(None), Num(None)];
  }

  lemma UndeclaredType(d: Desc, t: JavaTable, lib: Library, m: Message)
    requires WellFormed(d) && SameWire(d, t) && TypeFirst(d) && Typed(DescOf(t), m) && Fits(DescOf(t), m)
    requires Typed(d, Declared(d, m)) && Declared(d, m) != m
    ensures Typed(d, Empty(d))
    ensures Parse(d, lib, Ser(DescOf(t), m), Empty(d)) == Outcome(true, true, Declared(d, m))
  {
    var j, r, n := DescOf(t), Declared(d, m), m[0].num.value;
    var tail := SerFrom(j, m, 1);
    SerAgrees(d, t, r);
    assert TypedVal(j, 0, m[0]);
    WithoutFirst(j, m, n);
    CodecTheorems.RoundTrip(d, lib, r);
    ReadOfVarint(n, tail);
    CodecTheorems.ParseAtTag(d, lib, 0, Varint(n) + tail, Empty(d));
    assert Empty(d)[0 := Num(None)] == Empty(d);
  }

  lemma WithoutFirst(d: Desc, m: Message, n: uint32)
    requires Typed(d, m) && |m| > 0 && m[0] == Num(Some(n)) && Typed(d, m[0 := Num(None)])
    ensures Ser(d, m[0 := Num(None)]) == SerFrom(d, m, 1)
    ensures Ser(d, m) == Varint(d.cases[0].tag) + (Varint(n) + SerFrom(d, m, 1))
  {
    var r := m[0 := Num(None)];
    assert TypedVal(d, 0, m[0]) && TypedVal(d, 0, r[0]);
    SerTail(d, r, m, 1);
    assert Ser(d, r) == SerField(d, 0, r[0]) + SerFrom(d, r, 1);
    assert Ser(d, m) == SerField(d, 0, m[0]) + SerFrom(d, m, 1);
    assert Ser(d, m) == (Varint(d.cases[0].tag) + Varint(n)) + SerFrom(d, m, 1);
  }

  /** Bytes from field i on depend on those fields only. */
  lemma {:induction false} SerTail(d: Desc, a: Message, b: Message, i: nat)
    requires Typed(d, a) && Typed(d, b) && i <= |a| && a[i..] == b[i..]
    ensures SerFrom(d, a, i) == SerFrom(d, b, i)
    decreases |a| - i
  {
    if i < |a| {
      assert a[i] == a[i..][0] && b[i] == b[i..][0];
      assert a[i + 1..] == a[i..][1..] && b[i + 1..] == b[i..][1..];
      SerTail(d, a, b, i + 1);
    }
  }
}
