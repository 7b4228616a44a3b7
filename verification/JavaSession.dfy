/**
 Any number of builders and messages of one Java class used in any order: sharing lists between
 them behaves as if every builder and every message had its own copy of everything.
 */
module JavaSession {
  import opened Wrappers
  import opened Wire
  import opened Schema
  import opened LeafMessage
  import opened JavaTables
  import opened JavaCodec
  import opened JavaLists
  import opened JavaMessages
  import opened JavaBuilders

  // ----- The operations, on values --------------------------------------------------------------

  /** A call on a builder alone. */
  datatype Edit =
    | SetScalar(i: nat, n: uint32)
    | ClearField(i: nat)
    | Add(i: nat, x: uint32)
    | AddAll(i: nat, xs: seq<uint32>)
    | SetElement(i: nat, k: nat, x: uint32)
    | ClearAll

  /** A call on a message, which may memoize its answer. */
  datatype Query = Size | Bytes | Complete | Hash | Equal(other: nat)

  /** Builders and messages are named by the order of their creation. */
  datatype Op =
    | NewBuilder
    | EditBuilder(b: nat, e: Edit)
    | MergeFrom(b: nat, m: nat)
    | BuildPartial(b: nat)
    | Parse(bytes: seq<byte>)
    | Ask(m: nat, q: Query)

  datatype Answer = Done | Number(n: nat) | Flag(f: bool) | Data(bytes: seq<byte>)

  /** What the getters of every builder and every message show. */
  datatype Values = Values(builders: seq<Message>, messages: seq<Message>)

  predicate ValuesOk(d: Desc, v: Values) {
    && (forall k | 0 <= k < |v.builders| :: Typed(d, v.builders[k]))
    && (forall k | 0 <= k < |v.messages| :: Typed(d, v.messages[k]))
  }

  /** The class has the method: its field has the kind the method is for. */
  predicate EditOk(d: Desc, e: Edit) {
    match e
    case SetScalar(i, _) => i < |d.cases| && !d.cases[i].kind.Packed?
    case ClearField(i) => i < |d.cases|
    case Add(i, _) => i < |d.cases| && d.cases[i].kind.Packed?
    case AddAll(i, _) => i < |d.cases| && d.cases[i].kind.Packed?
    case SetElement(i, _, _) => i < |d.cases| && d.cases[i].kind.Packed?
    case ClearAll => true
  }

  predicate Callable(d: Desc, op: Op, v: Values)
    requires ValuesOk(d, v)
  {
    match op
    case NewBuilder => true
    case EditBuilder(b, e) => b < |v.builders| && EditOk(d, e)
    case MergeFrom(b, m) => b < |v.builders| && m < |v.messages|
    case BuildPartial(b) => b < |v.builders|
    case Parse(_) => true
    case Ask(m, q) =>
      && m < |v.messages| && (q.Equal? ==> q.other < |v.messages|)
      && (q.Size? || q.Bytes? ==> Fits(d, v.messages[m]))
  }

  function Elements(v: Val): seq<uint32> {
    if v.List? then v.xs else []
  }

  function Replaced(ys: seq<uint32>, k: nat, x: uint32): seq<uint32> {
    if k < |ys| then ys[k := x] else ys
  }

  function Edited(d: Desc, e: Edit, m: Message): (r: Message)
    requires Plain(d) && Typed(d, m) && EditOk(d, e)
    ensures Typed(d, r)
  {
    EmptyTyped(d);
    assert forall i | 0 <= i < |m| :: TypedVal(d, i, m[i]);
    match e
    case SetScalar(i, n) => m[i := Num(Some(n))]
    case ClearField(i) => m[i := EmptyVal(d.cases[i].kind)]
    case Add(i, x) => m[i := List(Elements(m[i]) + [x])]
    case AddAll(i, xs) => m[i := List(Elements(m[i]) + xs)]
    case SetElement(i, k, x) => m[i := List(Replaced(Elements(m[i]), k, x))]
    case ClearAll => Empty(d)
  }

  function EditAnswer(e: Edit, m: Message): Answer {
    if e.SetElement? && e.i < |m| then Flag(e.k < |Elements(m[e.i])|) else Done
  }

  /** Each operation on its own copy of everything: messages never change, and edits change one builder. */
  ghost function Apply(d: Desc, skip: (nat, seq<byte>) -> Option<nat>, op: Op, v: Values): (r: Values)
    requires Plain(d) && ValuesOk(d, v) && Callable(d, op, v)
    ensures ValuesOk(d, r)
  {
    EmptyTyped(d);
    match op
    case NewBuilder => v.(builders := v.builders + [Empty(d)])
    case EditBuilder(b, e) => WithBuilder(d, v, b, Edited(d, e, v.builders[b]))
    case MergeFrom(b, m) => WithBuilder(d, v, b, Merge(d, v.builders[b], v.messages[m]))
    case BuildPartial(b) => v.(messages := v.messages + [v.builders[b]])
    case Parse(bytes) => v.(messages := v.messages + [JavaParse(d, JavaLibrary(skip), bytes, Empty(d)).1])
    case Ask(_, _) => v
  }

  ghost function WithBuilder(d: Desc, v: Values, b: nat, m: Message): (r: Values)
    requires ValuesOk(d, v) && b < |v.builders| && Typed(d, m)
    ensures ValuesOk(d, r) && r == Values(v.builders[b := m], v.messages)
  {
    v.(builders := v.builders[b := m])
  }

  /** What the caller gets back, computed afresh from the values. */
  ghost function AnswerTo(d: Desc, skip: (nat, seq<byte>) -> Option<nat>, hashes: (uint32, uint32), op: Op,
                          v: Values): Answer
    requires Plain(d) && ValuesOk(d, v) && Callable(d, op, v) && |d.cases| <= 32
  {
    EmptyTyped(d);
    match op
    case EditBuilder(b, e) => EditAnswer(e, v.builders[b])
    case Parse(bytes) => Flag(JavaParse(d, JavaLibrary(skip), bytes, Empty(d)).0)
    case Ask(m, q) => QueryAnswer(d, hashes, q, v.messages[m], v)
    case _ => Done
  }

  ghost function QueryAnswer(d: Desc, hashes: (uint32, uint32), q: Query, m: Message, v: Values): Answer
    requires Typed(d, m) && (q.Equal? ==> q.other < |v.messages|) && |d.cases| <= 32
  {
    match q
    case Size => Number(|Ser(d, m)|)
    case Bytes => Data(Ser(d, m))
    case Complete => Flag(JavaMessages.Complete(d, m))
    case Hash => Number(HashOf(m, hashes.0, hashes.1))
    case Equal(other) => Flag(m == v.messages[other])
  }

  // ----- One call on a builder or a message -------------------------------------------------------

  method PerformEdit(b: Builder, e: Edit) returns (a: Answer)
    requires b.TableOk() && b.Valid() && EditOk(b.desc, e)
    modifies b, Owned(b.refs)
    ensures b.Valid() && b.OwnedGrown()
    ensures b.value == Edited(b.desc, e, old(b.value)) && a == EditAnswer(e, old(b.value))
  {
    a := Done;
    ghost var m := b.value;
    if !e.ClearAll? {
      ViewToAt(b.desc, b.bitField0, b.nums, b.xs, |b.nums|, e.i);
      assert TypedVal(b.desc, e.i, m[e.i]);
    }
    match e {
      case SetScalar(i, n) => b.SetScalar(i, n);
      case ClearField(i) =>
        if b.desc.cases[i].kind.Packed? {
          b.ClearList(i);
        } else {
          b.ClearScalar(i);
        }
      case Add(i, x) => b.Add(i, x);
      case AddAll(i, xs) => b.AddAll(i, xs);
      case SetElement(i, k, x) =>
        var ok := b.SetElement(i, k, x);
        a := Flag(ok);
        assert !ok ==> m[i := m[i]] == m;
      case ClearAll => b.Clear();
    }
  }

  method PerformQuery(m: JavaMessage, q: Query) returns (a: Answer)
    requires m.TableOk() && m.Valid() && !q.Equal? && (q.Size? || q.Bytes? ==> Fits(m.desc, m.value))
    modifies m`memoizedSize, m`listSizes, m`memoizedIsInitialized, m`memoizedHashCode
    ensures m.Valid() && |m.desc.cases| <= 32
    ensures a == QueryAnswer(m.desc, (m.descriptorHash, m.unknownHash), q, m.value, Values([], []))
  {
    match q {
      case Size =>
        var n := m.GetSerializedSize();
        a := Number(n);
      case Bytes =>
        var bytes := m.ToByteArray();
        a := Data(bytes);
      case Complete =>
        var f := m.IsInitialized();
        a := Flag(f);
      case Hash =>
        var h := m.HashCode();
        a := Number(h);
    }
  }

  // ----- The session -------------------------------------------------------------------------------

  class Session {
    const table: JavaTable
    const desc: Desc
    const descriptorHash: uint32
    const unknownHash: uint32
    const skip: (nat, seq<byte>) -> Option<nat>
    var builders: seq<Builder>
    var messages: seq<JavaMessage>
    ghost var values: Values

    /** Every builder, every message and every list some builder may write. */
    ghost var repr: set<object>

    ghost predicate BuilderOk(k: nat)
      reads *
    {
      && k < |builders| == |values.builders|
      && builders[k].table == table && builders[k].TableOk() && builders[k].Valid()
      && builders[k].value == values.builders[k]
      && builders[k] in repr && Owned(builders[k].refs) <= repr
    }

    ghost predicate MessageOk(k: nat)
      reads *
    {
      && k < |messages| == |values.messages|
      && messages[k].table == table && messages[k].TableOk() && messages[k].Valid()
      && messages[k].value == values.messages[k] && messages[k] in repr
      && messages[k].descriptorHash == descriptorHash && messages[k].unknownHash == unknownHash
    }

    ghost predicate Shapes()
      reads this
    {
      && JavaTables.TableOk(table) && desc == DescOf(table) && Plain(desc) && ValuesOk(desc, values)
      && |builders| == |values.builders| && |messages| == |values.messages|
      && forall j, k | 0 <= j < k < |builders| :: builders[j] != builders[k]
    }

    ghost predicate Valid()
      reads *
    {
      && Shapes()
      && (forall k | 0 <= k < |builders| :: BuilderOk(k))
      && (forall k | 0 <= k < |messages| :: MessageOk(k))
    }

    constructor (table: JavaTable, descriptorHash: uint32, unknownHash: uint32, skip: (nat, seq<byte>) -> Option<nat>)
      requires JavaTables.TableOk(table)
      ensures Valid() && values == Values([], []) && repr == {} && this.table == table && this.skip == skip
    {
      this.table, this.descriptorHash, this.unknownHash, this.skip := table, descriptorHash, unknownHash, skip;
      desc := DescOf(table);
      builders, messages, values, repr := [], [], Values([], []), {};
      new;
      DescOfWellFormed(table);
    }

    // ----- What one builder's operation leaves alone --------------------------------------------------

    /** No other builder and no message uses a list that builder b may write. */
    ghost predicate Apart(b: nat)
      reads *
    {
      && b < |builders|
      && (forall k | 0 <= k < |builders| && k != b :: Owned(builders[b].refs) !! Backing(builders[k].refs))
      && (forall k | 0 <= k < |messages| :: Owned(builders[b].refs) !! Backing(messages[k].refs))
    }

    lemma AllApart(b: nat)
      requires Valid() && b < |builders|
      ensures Apart(b)
    {
      assert BuilderOk(b);
      builders[b].OwnedIsMine();
      forall k | 0 <= k < |builders| && k != b ensures Owned(builders[b].refs) !! Backing(builders[k].refs) {
        assert BuilderOk(k);
        builders[k].MineOrNobodys();
      }
      forall k | 0 <= k < |messages| ensures Owned(builders[b].refs) !! Backing(messages[k].refs) {
        assert MessageOk(k);
        builders[b].ListsApart(messages[k]);
      }
    }

    /** Builder b may have changed, and no other builder or message. */
    twostate predicate OnlyBuilder(b: nat)
      reads *
    {
      && old(Valid()) && old(Apart(b)) && builders == old(builders) && messages == old(messages)
      && |values.builders| == |builders| && values.messages == old(values.messages) && old(repr) <= repr
      && (forall k | 0 <= k < |builders| && k != b :: values.builders[k] == old(values.builders)[k])
      && (forall k | 0 <= k < |builders| && k != b :: unchanged(builders[k]))
      && (forall k | 0 <= k < |messages| :: unchanged(messages[k]))
    }

    twostate lemma OtherBuilder(b: nat)
      requires OnlyBuilder(b)
      requires forall a: ArrayList | old(allocated(a)) && a !in old(Owned(builders[b].refs)) :: unchanged(a)
      ensures forall k | 0 <= k < |builders| && k != b :: BuilderOk(k)
    {
      forall k | 0 <= k < |builders| && k != b ensures BuilderOk(k) {
        assert old(BuilderOk(k));
        builders[k].StillValid();
      }
    }

    twostate lemma EveryMessage(b: nat)
      requires OnlyBuilder(b)
      requires forall a: ArrayList | old(allocated(a)) && a !in old(Owned(builders[b].refs)) :: unchanged(a)
      ensures forall k | 0 <= k < |messages| :: MessageOk(k)
    {
      forall k | 0 <= k < |messages| ensures MessageOk(k) {
        assert old(MessageOk(k));
        messages[k].StillValid();
      }
    }

    /** Everyone's lists are as they were: the operation on builder b keeps the session valid. */
    twostate lemma AfterBuilder(b: nat)
      requires OnlyBuilder(b) && Shapes() && BuilderOk(b)
      requires forall a: ArrayList | old(allocated(a)) && a !in old(Owned(builders[b].refs)) :: unchanged(a)
      ensures Valid()
    {
      OtherBuilder(b);
      EveryMessage(b);
    }

    ghost method Record(b: nat, m: Message)
      requires Shapes() && b < |builders| && Typed(desc, m)
      modifies this`values, this`repr
      ensures Shapes() && values == WithBuilder(desc, old(values), b, m)
      ensures repr == old(repr) + Owned(builders[b].refs)
    {
      values := WithBuilder(desc, values, b, m);
      repr := repr + Owned(builders[b].refs);
    }

    /** The edit itself, before the session takes note of it. */
    method EditObject(b: nat, e: Edit) returns (a: Answer)
      requires Valid() && b < |builders| && EditOk(desc, e)
      modifies builders[b], Owned(builders[b].refs)
      ensures builders[b].Valid() && builders[b].OwnedGrown()
      ensures builders[b].value == Edited(desc, e, values.builders[b]) && a == EditAnswer(e, values.builders[b])
      ensures forall k | 0 <= k < |builders| && k != b :: unchanged(builders[k])
      ensures forall k | 0 <= k < |messages| :: unchanged(messages[k])
      ensures forall l: ArrayList | old(allocated(l)) && l !in old(Owned(builders[b].refs)) :: unchanged(l)
    {
      assert BuilderOk(b);
      a := PerformEdit(builders[b], e);
    }

    method EditOne(b: nat, e: Edit) returns (a: Answer)
      requires Valid() && b < |builders| && EditOk(desc, e)
      modifies this`values, this`repr, builders[b], Owned(builders[b].refs)
      ensures Valid() && values == Apply(desc, skip, EditBuilder(b, e), old(values))
      ensures a == EditAnswer(e, old(values).builders[b]) && fresh(repr - old(repr))
    {
      AllApart(b);
      assert BuilderOk(b);
      a := EditObject(b, e);
      Record(b, Edited(desc, e, values.builders[b]));
      AfterBuilder(b);
    }

    method MergeObject(b: nat, m: nat)
      requires Valid() && b < |builders| && m < |messages|
      modifies builders[b], Owned(builders[b].refs)
      ensures builders[b].Valid() && builders[b].OwnedGrown()
      ensures builders[b].value == Merge(desc, values.builders[b], values.messages[m])
      ensures forall k | 0 <= k < |builders| && k != b :: unchanged(builders[k])
      ensures forall k | 0 <= k < |messages| :: unchanged(messages[k])
      ensures forall l: ArrayList | old(allocated(l)) && l !in old(Owned(builders[b].refs)) :: unchanged(l)
    {
      assert BuilderOk(b) && MessageOk(m);
      builders[b].MergeFrom(messages[m]);
    }

    method MergeOne(b: nat, m: nat)
      requires Valid() && b < |builders| && m < |messages|
      modifies this`values, this`repr, builders[b], Owned(builders[b].refs)
      ensures Valid() && values == Apply(desc, skip, MergeFrom(b, m), old(values)) && fresh(repr - old(repr))
    {
      AllApart(b);
      assert BuilderOk(b);
      MergeObject(b, m);
      Record(b, Merge(desc, values.builders[b], values.messages[m]));
      AfterBuilder(b);
    }

    method BuildOne(b: nat)
      requires Valid() && b < |builders|
      modifies this`values, this`messages, this`repr, builders[b], Owned(builders[b].refs)
      ensures Valid() && values == Apply(desc, skip, BuildPartial(b), old(values)) && fresh(repr - old(repr))
    {
      AllApart(b);
      assert BuilderOk(b);
      var m := builders[b].BuildPartial(descriptorHash, unknownHash);
      AfterBuilder(b);
      KeepMessage(m);
    }

    method KeepMessage(m: JavaMessage)
      requires Valid() && m.table == table && m.TableOk() && m.Valid()
      requires m.descriptorHash == descriptorHash && m.unknownHash == unknownHash
      modifies this`values, this`messages, this`repr
      ensures Valid() && values == old(values).(messages := old(values).messages + [m.value]) && repr == old(repr) + {m}
    {
      repr := repr + {m};
      messages := messages + [m];
      values := values.(messages := values.messages + [m.value]);
      forall k | 0 <= k < |builders| ensures BuilderOk(k) {
        assert old(BuilderOk(k));
      }
      forall k | 0 <= k < |messages| ensures MessageOk(k) {
        assert k < |old(messages)| ==> old(MessageOk(k));
      }
    }

    method ParseOne(bytes: seq<byte>) returns (a: Answer)
      requires Valid()
      modifies this`values, this`messages, this`repr
      ensures Valid() && values == Apply(desc, skip, Parse(bytes), old(values)) && fresh(repr - old(repr))
      ensures Typed(desc, Empty(desc)) && a == Flag(JavaParse(desc, JavaLibrary(skip), bytes, Empty(desc)).0)
    {
      var ok, m := ParsePartialFrom(table, descriptorHash, unknownHash, bytes, skip);
      a := Flag(ok);
      KeepMessage(m);
    }

    method NewOne()
      requires Valid()
      modifies this`values, this`builders, this`repr
      ensures Valid() && values == Apply(desc, skip, NewBuilder, old(values)) && fresh(repr - old(repr))
    {
      var b := new Builder(table);
      KeepBuilder(b);
    }

    method KeepBuilder(b: Builder)
      requires Valid() && b !in builders && b.table == table && b.TableOk() && b.Valid() && Owned(b.refs) == {}
      modifies this`values, this`builders, this`repr
      ensures Valid() && values == old(values).(builders := old(values).builders + [b.value]) && repr == old(repr) + {b}
    {
      repr := repr + {b};
      builders := builders + [b];
      values := values.(builders := values.builders + [b.value]);
      forall k | 0 <= k < |builders| ensures BuilderOk(k) {
        assert k < |old(builders)| ==> old(BuilderOk(k));
      }
      forall k | 0 <= k < |messages| ensures MessageOk(k) {
        assert old(MessageOk(k));
      }
    }

    method AskOne(m: nat, q: Query) returns (a: Answer)
      requires Valid() && Callable(desc, Ask(m, q), values)
      modifies messages[m]
      ensures Valid() && |desc.cases| <= 32
      ensures a == QueryAnswer(desc, (descriptorHash, unknownHash), q, values.messages[m], values)
    {
      assert MessageOk(m);
      a := AskObject(m, q);
      AfterQuery(m);
    }

    /** The query itself, which may write the message's memo fields. */
    method AskObject(m: nat, q: Query) returns (a: Answer)
      requires Valid() && Callable(desc, Ask(m, q), values)
      modifies messages[m]
      ensures MessageOk(m) && |desc.cases| <= 32
      ensures a == QueryAnswer(desc, (descriptorHash, unknownHash), q, values.messages[m], values)
    {
      assert MessageOk(m);
      match q {
        case Equal(other) =>
          assert MessageOk(other);
          var f := messages[m].Equals(messages[other]);
          a := Flag(f);
        case _ =>
          a := PerformQuery(messages[m], q);
      }
    }

    /** Memo fields of one message changed. */
    twostate lemma AfterQuery(m: nat)
      requires old(Valid()) && unchanged(this) && m < |messages|
      requires MessageOk(m) && forall k | 0 <= k < |messages| && messages[k] != messages[m] :: unchanged(messages[k])
      requires forall k | 0 <= k < |builders| :: unchanged(builders[k])
      requires forall k, a | 0 <= k < |builders| && a in old(Backing(builders[k].refs)) :: unchanged(a)
      requires forall k, a | 0 <= k < |messages| && a in old(Backing(messages[k].refs)) :: unchanged(a)
      ensures Valid()
    {
      forall k | 0 <= k < |builders| ensures BuilderOk(k) {
        assert old(BuilderOk(k));
        builders[k].StillValid();
      }
      forall k | 0 <= k < |messages| ensures MessageOk(k) {
        assert old(MessageOk(k)) && old(MessageOk(m));
        if messages[k] != messages[m] {
          messages[k].StillValid();
        }
      }
    }

    // ----- Runs -------------------------------------------------------------------------------------

    /** What the operation may change belongs to the session. */
    lemma Footprint(op: Op)
      requires Valid() && Callable(desc, op, values)
      ensures op.EditBuilder? || op.MergeFrom? || op.BuildPartial? ==>
        builders[op.b] in repr && Owned(builders[op.b].refs) <= repr
      ensures op.Ask? ==> messages[op.m] in repr
    {
      if op.EditBuilder? || op.MergeFrom? || op.BuildPartial? {
        assert BuilderOk(op.b);
      } else if op.Ask? {
        assert MessageOk(op.m);
      }
    }

    method Do(op: Op) returns (a: Answer)
      requires Valid() && Callable(desc, op, values)
      modifies this, repr
      ensures Valid() && fresh(repr - old(repr)) && |desc.cases| <= 32
      ensures values == Apply(desc, skip, op, old(values))
      ensures a == AnswerTo(desc, skip, (descriptorHash, unknownHash), op, old(values))
    {
      Footprint(op);
      a := Done;
      match op {
        case NewBuilder => NewOne();
        case EditBuilder(b, e) => a := EditOne(b, e);
        case MergeFrom(b, m) => MergeOne(b, m);
        case BuildPartial(b) => BuildOne(b);
        case Parse(bytes) => a := ParseOne(bytes);
        case Ask(m, q) => a := AskOne(m, q);
      }
    }

    /**
     Every run of calls, in any order, over shared lists and memo fields, ends as the run in which
     every builder and message has its own copy, and every answer is computed afresh.
     */
    method Run(ops: seq<Op>) returns (answers: seq<Answer>)
      requires Valid() && Runnable(desc, skip, ops, values)
      modifies this, repr
      ensures Valid() && |desc.cases| <= 32
      ensures values == Final(desc, skip, ops, old(values))
      ensures answers == AnswersTo(desc, skip, (descriptorHash, unknownHash), ops, old(values))
      decreases |ops|
    {
      if ops == [] {
        return [];
      }
      var a := Do(ops[0]);
      var rest := Run(ops[1..]);
      answers := [a] + rest;
    }
  }

  ghost predicate Runnable(d: Desc, skip: (nat, seq<byte>) -> Option<nat>, ops: seq<Op>, v: Values)
    requires Plain(d) && ValuesOk(d, v)
  {
    ops == [] || (Callable(d, ops[0], v) && Runnable(d, skip, ops[1..], Apply(d, skip, ops[0], v)))
  }

  ghost function Final(d: Desc, skip: (nat, seq<byte>) -> Option<nat>, ops: seq<Op>, v: Values): Values
    requires Plain(d) && ValuesOk(d, v) && Runnable(d, skip, ops, v)
  {
    if ops == [] then v else Final(d, skip, ops[1..], Apply(d, skip, ops[0], v))
  }

  ghost function AnswersTo(d: Desc, skip: (nat, seq<byte>) -> Option<nat>, hashes: (uint32, uint32), ops: seq<Op>,
                           v: Values): seq<Answer>
    requires Plain(d) && ValuesOk(d, v) && Runnable(d, skip, ops, v) && |d.cases| <= 32
  {
    if ops == [] then []
    else [AnswerTo(d, skip, hashes, ops[0], v)] + AnswersTo(d, skip, hashes, ops[1..], Apply(d, skip, ops[0], v))
  }

  /** Copy-on-write safety: whatever runs later, a message keeps the value it was made with. */
  lemma {:induction false} MessagesNeverChange(d: Desc, skip: (nat, seq<byte>) -> Option<nat>, ops: seq<Op>, v: Values)
    requires Plain(d) && ValuesOk(d, v) && Runnable(d, skip, ops, v)
    ensures v.messages <= Final(d, skip, ops, v).messages
  {
    if ops != [] {
      MessagesNeverChange(d, skip, ops[1..], Apply(d, skip, ops[0], v));
    }
  }

  predicate Touches(op: Op, b: nat) {
    (op.EditBuilder? || op.MergeFrom?) && op.b == b
  }

  /** A builder changes only by its own edits and merges, not by what its built messages or others do. */
  lemma {:induction false} OtherBuildersKeep(d: Desc, skip: (nat, seq<byte>) -> Option<nat>, ops: seq<Op>,
                                             v: Values, b: nat)
    requires Plain(d) && ValuesOk(d, v) && Runnable(d, skip, ops, v) && b < |v.builders|
    requires forall k | 0 <= k < |ops| :: !Touches(ops[k], b)
    ensures b < |Final(d, skip, ops, v).builders| && Final(d, skip, ops, v).builders[b] == v.builders[b]
  {
    if ops != [] {
      assert !Touches(ops[0], b);
      OtherBuildersKeep(d, skip, ops[1..], Apply(d, skip, ops[0], v), b);
    }
  }
}
