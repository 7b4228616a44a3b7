/**
 A Java message object, as the generated class template over a JavaTable: its parsing constructor,
 its writer, and the sizes, hash and initialization flag it memoizes.
 */
module JavaMessages {
  import opened Wrappers
  import opened Sequences
  import opened Wire
  import opened Schema
  import opened CodedStream
  import opened LeafMessage
  import opened JavaTables
  import opened JavaCodec
  import opened JavaLists

  // ----- Hash codes -------------------------------------------------------------------------------

  /** mul * h + x in 32-bit arithmetic. */
  function Mix(mul: nat, h: uint32, x: uint32): uint32 {
    (mul * h + x) % 0x1_0000_0000
  }

  /** java.util.List.hashCode() over the elements, from h on. */
  function ListHash(xs: seq<uint32>, h: uint32): uint32 {
    if xs == [] then h else ListHash(xs[1..], Mix(31, h, xs[0]))
  }

  function FieldHash(number: nat, v: Val, h: uint32): uint32
    requires number < 0x1_0000_0000
  {
    match v
    case Num(Some(n)) => Mix(53, Mix(37, h, number), n)
    case List(xs) => if xs == [] then h else Mix(53, Mix(37, h, number), ListHash(xs, 1))
    case _ => h
  }

  function HashFrom(m: Message, i: nat, h: uint32): uint32
    requires i <= |m| <= 32
    decreases |m| - i
  {
    if i == |m| then h else HashFrom(m, i + 1, FieldHash(i + 1, m[i], h))
  }

  /** `descriptor` and `unknown` are the hash codes of the class's descriptor and of no unknown fields. */
  function HashOf(m: Message, descriptor: uint32, unknown: uint32): uint32
    requires |m| <= 32
  {
    Mix(29, HashFrom(m, 0, Mix(19, 41, descriptor)), unknown)
  }

  /** The hash of a list, element by element from 1 on. */
  lemma {:induction false} ListHashSnoc(xs: seq<uint32>, x: uint32, h: uint32)
    ensures ListHash([], h) == h
    ensures ListHash(xs + [x], h) == (31 * ListHash(xs, h) + x) % 0x1_0000_0000
  {
    if xs == [] {
      assert [x][1..] == [];
    } else {
      ListHashSnoc(xs[1..], x, Mix(31, h, xs[0]));
      assert (xs + [x])[1..] == xs[1..] + [x];
    }
  }

  /** What a scalar, a list and an absent field of a message do to its hash. */
  lemma HashOfFields(m: Message, i: nat, h: uint32)
    requires i < |m| <= 32
    ensures HashFrom(m, |m|, h) == h
    ensures m[i] in [Num(None), List([]), Msg(None)] ==> HashFrom(m, i, h) == HashFrom(m, i + 1, h)
    ensures m[i].Num? && m[i].num.Some? ==>
      var numbered := (37 * h + i + 1) % 0x1_0000_0000;
      HashFrom(m, i, h) == HashFrom(m, i + 1, (53 * numbered + m[i].num.value) % 0x1_0000_0000)
    ensures m[i].List? && m[i].xs != [] ==>
      var numbered := (37 * h + i + 1) % 0x1_0000_0000;
      HashFrom(m, i, h) == HashFrom(m, i + 1, (53 * numbered + ListHash(m[i].xs, 1)) % 0x1_0000_0000)
  {
  }

  /** The hash of an InitialMessage with both fields, and of one with a type only. */
  lemma HashOfInitial(t: uint32, n: uint32, descriptor: uint32, unknown: uint32)
    ensures
      var h0 := (19 * 41 + descriptor) % 0x1_0000_0000;
      var h1 := (53 * ((37 * h0 + 1) % 0x1_0000_0000) + t) % 0x1_0000_0000;
      var h2 := (53 * ((37 * h1 + 2) % 0x1_0000_0000) + n) % 0x1_0000_0000;
      && HashOf([Num(Some(t)), Num(Some(n))], descriptor, unknown) == (29 * h2 + unknown) % 0x1_0000_0000
      && HashOf([Num(Some(t)), Num(None)], descriptor, unknown) == (29 * h1 + unknown) % 0x1_0000_0000
  {
    var h0 := Mix(19, 41, descriptor);
    var h1 := Mix(53, Mix(37, h0, 1), t);
    var both, one: Message := [Num(Some(t)), Num(Some(n))], [Num(Some(t)), Num(None)];
    HashOfFields(both, 0, h0);
    HashOfFields(both, 1, h1);
    HashOfFields(one, 0, h0);
    HashOfFields(one, 1, h1);
  }

  // ----- Presence bits -----------------------------------------------------------------------------

  /** `bits` has the presence bit of exactly the scalars in `fields`. */
  predicate BitsOf(t: JavaTable, fields: set<nat>, bits: set<nat>) {
    forall i | 0 <= i < |t.cases| && t.cases[i].Scalar? :: t.cases[i].bit in bits <==> i in fields
  }

  /** No other scalar has the presence bit of scalar i. */
  lemma BitIsOwn(t: JavaTable, i: nat)
    requires JavaTables.TableOk(t) && i < |t.cases| && t.cases[i].Scalar?
    ensures forall j | 0 <= j < |t.cases| && t.cases[j].Scalar? && t.cases[j].bit == t.cases[i].bit :: j == i
  {
    forall j | 0 <= j < |t.cases| && t.cases[j].Scalar? && j != i ensures t.cases[j].bit != t.cases[i].bit {
      assert if j < i then BitsApart(t, j, i) else BitsApart(t, i, j);
    }
  }

  /** buildPartial's renumbering: a message's bits count the scalars only. */
  method MessageBits(t: JavaTable, from: set<nat>) returns (to: set<nat>)
    requires JavaTables.TableOk(t)
    ensures BitsOf(t, from, to)
  {
    to := {};
    for i := 0 to |t.cases|
      invariant forall j | 0 <= j < i && t.cases[j].Scalar? :: t.cases[j].bit in to <==> j in from
      invariant forall j | i <= j < |t.cases| && t.cases[j].Scalar? :: t.cases[j].bit !in to
    {
      if t.cases[i].Scalar? && i in from {
        BitIsOwn(t, i);
        to := to + {t.cases[i].bit};
      }
    }
  }

  // ----- Messages ----------------------------------------------------------------------------------

  class JavaMessage {
    const table: JavaTable
    const desc: Desc
    const descriptorHash: uint32
    const unknownHash: uint32
    var bitField0: set<nat>
    var nums: seq<uint32>
    var refs: seq<ListRef>

    /** The parsing constructor's local: the lists it has allocated so far. */
    var mutableBitField0: set<nat>

    var memoizedSize: int
    var listSizes: seq<int>
    var memoizedIsInitialized: int
    var memoizedHashCode: uint32

    /** The scalars that are present, what the lists hold, and what the getters show. */
    ghost var has: set<nat>
    ghost var xs: seq<seq<uint32>>
    ghost var value: Message

    ghost predicate TableOk() {
      desc == DescOf(table) && JavaTables.TableOk(table)
    }

    ghost predicate Shapes()
      reads this
    {
      && Plain(desc) && |nums| == |refs| == |xs| == |listSizes| == |desc.cases| == |table.cases|
      && (forall i | 0 <= i < |nums| && table.cases[i].Scalar? :: i in has <==> table.cases[i].bit in bitField0)
      && (forall i | i in has :: i < |nums| && !desc.cases[i].kind.Packed?)
      && (forall i | 0 <= i < |nums| && nums[i] != 0 :: i in has)
      && value == View(desc, has, nums, xs) && Typed(desc, value)
    }

    /** A message whose parsing constructor is still running. */
    ghost predicate Open()
      reads this, Backing(refs)
    {
      Shapes() && RefsOk(desc, refs, xs, this, mutableBitField0)
    }

    /** A finished message: nobody can write its lists, and no memo field lies. */
    ghost predicate Valid()
      reads this, Backing(refs)
    {
      Open() && mutableBitField0 == {} && MemosOk()
    }

    ghost predicate SizesAgree()
      requires Shapes()
      reads this
    {
      && memoizedSize == |Ser(desc, value)|
      && forall i | 0 <= i < |xs| :: desc.cases[i].kind.Packed? ==> listSizes[i] == |Wire.Packed(xs[i])|
    }

    ghost predicate MemosOk()
      requires Shapes()
      reads this
    {
      && (memoizedSize != -1 ==> SizesAgree())
      && (memoizedIsInitialized == -1 || memoizedIsInitialized == if Complete(desc, value) then 1 else 0)
      && (memoizedHashCode != 0 ==> |value| <= 32 && memoizedHashCode == HashOf(value, descriptorHash, unknownHash))
    }

    constructor Default(table: JavaTable, descriptorHash: uint32, unknownHash: uint32)
      requires JavaTables.TableOk(table)
      ensures this.table == table && TableOk() && Valid() && value == Empty(desc)
      ensures forall i | 0 <= i < |refs| :: refs[i] == EmptyList
      ensures Unmemoized()
      ensures this.descriptorHash == descriptorHash && this.unknownHash == unknownHash
    {
      this.table, this.descriptorHash, this.unknownHash := table, descriptorHash, unknownHash;
      desc := DescOf(table);
      bitField0, mutableBitField0, has := {}, {}, {};
      nums := seq(|table.cases|, _ => 0);
      refs := seq(|table.cases|, _ => EmptyList);
      xs := seq(|table.cases|, _ => []);
      listSizes := seq(|table.cases|, _ => -1);
      memoizedSize, memoizedIsInitialized, memoizedHashCode := -1, -1, 0;
      value := Empty(DescOf(table));
      new;
      DescOfWellFormed(table);
      ViewAt(desc, has, nums, xs);
      EmptyTyped(desc);
    }

    /** What buildPartial makes: lists handed over frozen, presence bits renumbered. */
    constructor Built(table: JavaTable, descriptorHash: uint32, unknownHash: uint32, bits: set<nat>,
                      nums: seq<uint32>, refs: seq<ListRef>, ghost has: set<nat>, ghost xs: seq<seq<uint32>>,
                      ghost owner: object)
      requires JavaTables.TableOk(table) && |nums| == |refs| == |xs| == |table.cases|
      requires BitsOf(table, has, bits)
      requires forall i | i in has :: i < |nums| && table.cases[i].Scalar?
      requires forall i | 0 <= i < |nums| && nums[i] != 0 :: i in has
      requires RefsOk(DescOf(table), refs, xs, owner, {})
      ensures this.table == table && TableOk() && Valid() && value == View(desc, has, nums, xs)
      ensures this.descriptorHash == descriptorHash && this.unknownHash == unknownHash
      ensures this.refs == refs && this.nums == nums && forall a: ArrayList | a in Backing(refs) :: unchanged(a)
    {
      this.table, this.descriptorHash, this.unknownHash := table, descriptorHash, unknownHash;
      desc := DescOf(table);
      bitField0, mutableBitField0, this.has := bits, {}, has;
      this.nums, this.refs, this.xs := nums, refs, xs;
      listSizes := seq(|table.cases|, _ => -1);
      memoizedSize, memoizedIsInitialized, memoizedHashCode := -1, -1, 0;
      value := View(DescOf(table), has, nums, xs);
      new;
      DescOfWellFormed(table);
      PlainTyped(desc, has, nums, xs);
      NobodyWrites(desc, refs, xs, owner, this);
    }

    /** The array lists of a finished message have no writer. */
    lemma NobodyOwns()
      requires Valid()
      ensures forall a | a in Backing(refs) :: a.owner == null
    {
      forall a | a in Backing(refs) ensures a.owner == null {
        var r :| r in refs && !r.EmptyList? && r.a == a;
        var j :| 0 <= j < |refs| && refs[j] == r;
        assert SlotOk(desc, j, refs[j], xs[j], this, false);
      }
    }

    /** What nobody writes stays. */
    twostate lemma StillValid()
      requires old(Valid()) && unchanged(this) && forall a: ArrayList | a in Backing(refs) :: unchanged(a)
      ensures Valid()
    {
      forall j | 0 <= j < |refs| ensures SlotOk(desc, j, refs[j], xs[j], this, false) {
        assert old(SlotOk(desc, j, refs[j], xs[j], this, false));
        assert refs[j] in refs;
        assert !refs[j].EmptyList? ==> refs[j].a in Backing(refs);
      }
    }

    // ----- Parsing ------------------------------------------------------------------------------

    /** The parsing constructor is running: no list is a view yet and no memo is set. */
    ghost predicate Parsing()
      reads this, Backing(refs)
    {
      Unmemoized() && forall i | 0 <= i < |refs| :: !refs[i].Unmodifiable?
    }

    ghost predicate Unmemoized()
      reads this, Backing(refs)
    {
      && Open() && memoizedSize == -1 && memoizedIsInitialized == -1 && memoizedHashCode == 0
      && forall i | i in mutableBitField0 :: i < |nums| && desc.cases[i].kind.Packed?
    }

    twostate predicate OwnedGrown()
      reads this
    {
      forall a: ArrayList | a in Owned(refs) :: a in old(Owned(refs)) || fresh(a)
    }

    /** The presence bit is set before the value is read. */
    method MarkScalar(i: nat)
      requires TableOk() && Parsing() && i < |nums| && !desc.cases[i].kind.Packed?
      modifies this`bitField0, this`has, this`value
      ensures Parsing() && i in has && value == old(value)[i := Num(Some(nums[i]))]
    {
      ViewOfSet(desc, has, nums, xs, i, nums[i]);
      assert nums[i := nums[i]] == nums;
      assert desc.cases[i] == CaseOf(table, i);
      BitIsOwn(table, i);
      bitField0 := bitField0 + {table.cases[i].bit};
      has := has + {i};
      value := value[i := Num(Some(nums[i]))];
      PlainTyped(desc, has, nums, xs);
    }

    method StoreScalar(i: nat, n: uint32)
      requires Parsing() && i < |nums| && !desc.cases[i].kind.Packed? && i in has
      modifies this`nums, this`value
      ensures Parsing() && value == old(value)[i := Num(Some(n))]
    {
      ViewOfSet(desc, has, nums, xs, i, n);
      assert has + {i} == has;
      nums := nums[i := n];
      value := value[i := Num(Some(n))];
      PlainTyped(desc, has, nums, xs);
    }

    method ReadScalar(i: nat, input: CodedInputStream) returns (ok: bool)
      requires TableOk() && Parsing() && input.Valid() && i < |nums| && !desc.cases[i].kind.Packed?
      modifies this`bitField0, this`has, this`nums, this`value, input`pos
      ensures Parsing() && input.Valid() && input.pos >= old(input.pos)
      ensures
        match Wire.ReadVarint32(old(input.Rest()))
        case None => !ok && value == old(value)[i := Num(Some(Shown(old(value)[i])))]
        case Some(p) => ok && value == old(value)[i := Num(Some(p.0))] && input.Rest() == old(input.Rest())[p.1..]
    {
      ViewToAt(desc, has, nums, xs, |nums|, i);
      MarkScalar(i);
      var n;
      ok, n := input.ReadVarint32();
      if ok {
        StoreScalar(i, n);
      }
    }

    /** A new ArrayList for field i, unless this parse has already made one. */
    method EnsureList(i: nat)
      requires Parsing() && i < |nums| && desc.cases[i].kind.Packed?
      modifies this`mutableBitField0, this`refs
      ensures Parsing() && refs == old(refs)[i := refs[i]] && refs[i].Mutable? && OwnedGrown()
      ensures refs[i] == old(refs)[i] || fresh(refs[i].a)
    {
      assert SlotOk(desc, i, refs[i], xs[i], this, i in mutableBitField0);
      if i !in mutableBitField0 {
        var a := new ArrayList([], this, i);
        assert SlotOk(desc, i, Mutable(a), xs[i], this, true);
        OwnedUpdate(refs, i, Mutable(a));
        Adopt(i, a);
      }
    }

    method Adopt(i: nat, a: ArrayList)
      requires Parsing() && i < |nums| && desc.cases[i].kind.Packed?
      requires SlotOk(desc, i, Mutable(a), xs[i], this, true)
      modifies this`mutableBitField0, this`refs
      ensures Parsing() && refs == old(refs)[i := Mutable(a)]
    {
      assert xs[i := xs[i]] == xs;
      SlotReplaced(desc, refs, xs, this, mutableBitField0, i, Mutable(a), xs[i], mutableBitField0 + {i});
      mutableBitField0 := mutableBitField0 + {i};
      refs := refs[i := Mutable(a)];
    }

    /** x_.add(...): only ever on a list this constructor made. */
    method Append(i: nat, x: uint32)
      requires Parsing() && i < |nums| && refs[i].Mutable?
      modifies this`xs, this`value, Owned(refs)
      ensures Parsing() && xs == old(xs)[i := old(xs)[i] + [x]]
      ensures value == old(value)[i := List(old(xs)[i] + [x])]
    {
      label Before:
      assert SlotOk(desc, i, refs[i], xs[i], this, i in mutableBitField0);
      refs[i].a.Add(x);
      Note@Before(i);
      xs := xs[i := refs[i].a.elems];
      value := value[i := List(xs[i])];
    }

    twostate lemma Note(i: nat)
      requires unchanged(this) && old(Shapes()) && OnlyList(Slots(desc, refs, xs, this, mutableBitField0, i))
      requires refs[i].a.owner == this && refs[i].a.slot == i
      ensures
        var ys := refs[i].a.elems;
        && RefsOk(desc, refs, xs[i := ys], this, mutableBitField0)
        && View(desc, has, nums, xs[i := ys]) == value[i := List(ys)]
        && Typed(desc, value[i := List(ys)])
    {
      var s := Slots(desc, refs, xs, this, mutableBitField0, i);
      OthersKept(s);
      ListChanged(s);
      ViewOfList(desc, has, nums, xs, i, refs[i].a.elems);
      PlainTyped(desc, has, nums, xs[i := refs[i].a.elems]);
    }

    /** One element under the unpacked tag. */
    method ReadSingle(i: nat, input: CodedInputStream) returns (ok: bool)
      requires Parsing() && input.Valid() && i < |nums| && desc.cases[i].kind.Packed?
      modifies this`mutableBitField0, this`refs, this`xs, this`value, Owned(refs), input`pos
      ensures Parsing() && OwnedGrown() && input.Valid() && input.pos >= old(input.pos)
      ensures old(value)[i] == List(old(xs)[i])
      ensures
        match Wire.ReadVarint32(old(input.Rest()))
        case None => !ok && value == old(value)
        case Some(p) =>
          ok && value == old(value)[i := List(old(xs)[i] + [p.0])] && input.Rest() == old(input.Rest())[p.1..]
    {
      ViewToAt(desc, has, nums, xs, |nums|, i);
      EnsureList(i);
      ok := ReadElement(i, input);
    }

    /** x_.add(input.readUInt32()). */
    method ReadElement(i: nat, input: CodedInputStream) returns (ok: bool)
      requires Parsing() && input.Valid() && i < |nums| && refs[i].Mutable?
      modifies this`xs, this`value, Owned(refs), input`pos
      ensures Parsing() && input.Valid() && input.pos >= old(input.pos)
      ensures
        match Wire.ReadVarint32(old(input.Rest()))
        case None => !ok && value == old(value) && xs == old(xs)
        case Some(p) =>
          && ok && xs == old(xs)[i := old(xs)[i] + [p.0]] && value == old(value)[i := List(old(xs)[i] + [p.0])]
          && input.pos > old(input.pos) && input.Rest() == old(input.Rest())[p.1..]
    {
      var x;
      ok, x := input.ReadVarint32();
      if ok {
        Append(i, x);
      }
    }

    /** A packed chunk under its limit; an empty one allocates nothing. */
    method ReadChunk(i: nat, input: CodedInputStream) returns (ok: bool)
      requires Parsing() && input.Valid() && i < |nums| && desc.cases[i].kind.Packed?
      modifies this`mutableBitField0, this`refs, this`xs, this`value, Owned(refs), input
      ensures Parsing() && OwnedGrown() && input.Valid()
      ensures ok ==> input.limit == old(input.limit) && input.pos >= old(input.pos)
      ensures TypedVal(desc, i, old(value)[i])
      ensures
        var r := ReadVal(desc, i, input.lib, old(input.Rest()), old(value)[i]);
        ok == r.ok && value == old(value)[i := r.v] && (ok ==> input.Rest() == r.rest)
    {
      ViewToAt(desc, has, nums, xs, |nums|, i);
      assert value[i := List(xs[i])] == value;
      var outer;
      ok, outer := input.EnterPrefixed();
      if ok {
        ok := ReadBody(i, input);
        if ok {
          input.PopLimit(outer);
        }
      }
    }

    method ReadBody(i: nat, input: CodedInputStream) returns (ok: bool)
      requires Parsing() && input.Valid() && i < |nums| && desc.cases[i].kind.Packed?
      modifies this`mutableBitField0, this`refs, this`xs, this`value, Owned(refs), input`pos
      ensures Parsing() && OwnedGrown() && input.Valid() && input.pos >= old(input.pos)
      ensures
        var r := ReadPacked(old(input.Rest()));
        && ok == r.0 && (ok ==> input.pos == input.limit)
        && value == old(value)[i := List(old(xs)[i] + r.1)]
    {
      if input.pos < input.limit {
        EnsureList(i);
        ok := ReadElements(i, input);
      } else {
        ok := true;
        ViewToAt(desc, has, nums, xs, |nums|, i);
        assert xs[i] + [] == xs[i] && value[i := List(xs[i])] == value;
      }
    }

    method ReadElements(i: nat, input: CodedInputStream) returns (ok: bool)
      requires Parsing() && input.Valid() && i < |nums| && refs[i].Mutable?
      modifies this`xs, this`value, Owned(refs), input`pos
      ensures Parsing() && input.Valid() && input.pos >= old(input.pos)
      ensures
        var r := ReadPacked(old(input.Rest()));
        && ok == r.0 && (ok ==> input.pos == input.limit)
        && value == old(value)[i := List(old(xs)[i] + r.1)]
    {
      ok := true;
      while ok && input.pos < input.limit
        invariant Parsing() && input.Valid() && input.pos >= old(input.pos)
        invariant |value| == |xs| == |nums| && refs[i].Mutable?
        invariant
          var goal := WithRest(old(value), i, old(xs)[i], old(input.Rest()));
          if ok then WithRest(value, i, xs[i], input.Rest()) == goal else (false, value) == goal
        decreases ok, input.limit - input.pos
      {
        ListShown(i);
        WithRestStep(value, i, xs[i], input.Rest());
        ok := ReadElement(i, input);
      }
      if ok {
        ListShown(i);
        WithRestStep(value, i, xs[i], input.Rest());
      }
    }

    lemma ListShown(i: nat)
      requires Open() && i < |nums| && refs[i].Mutable?
      ensures value[i] == List(xs[i])
    {
      assert SlotOk(desc, i, refs[i], xs[i], this, i in mutableBitField0);
      ViewToAt(desc, has, nums, xs, |nums|, i);
    }

    /** The switch on one tag that is neither 0 nor an end-group tag. */
    method TakeField(tag: uint32, input: CodedInputStream, skip: (nat, seq<byte>) -> Option<nat>) returns (ok: bool)
      requires TableOk() && Parsing() && input.Valid() && input.lib == JavaLibrary(skip)
      modifies this, Owned(refs), input
      ensures Parsing() && OwnedGrown() && input.Valid()
      ensures ok ==> input.limit == old(input.limit) && input.pos >= old(input.pos)
      ensures
        var r := JavaStep(desc, input.lib, tag, old(input.Rest()), old(value));
        ok == r.0 && value == r.1 && (ok ==> input.Rest() == r.2)
    {
      ghost var s := input.Rest();
      var at := Dispatch(desc, tag, 0);
      match at {
        case Field(i) =>
          if desc.cases[i].kind.Packed? {
            ChunkStep(desc, input.lib, tag, s, value);
            ok := ReadChunk(i, input);
          } else {
            NumberStep(desc, input.lib, tag, s, value);
            ok := ReadScalar(i, input);
          }
        case UnpackedField(i) =>
          SingleStep(desc, skip, tag, s, value);
          ok := ReadSingle(i, input);
        case Unusual =>
          UnusualStep(desc, input.lib, tag, s, value);
          ok := input.SkipField(tag);
      }
    }

    /** The parsing constructor's loop: false stands for the exception, thrown there or right after. */
    method ParseFields(input: CodedInputStream, skip: (nat, seq<byte>) -> Option<nat>) returns (ok: bool)
      requires TableOk() && Parsing() && input.Valid() && input.lib == JavaLibrary(skip)
      modifies this, Owned(refs), input
      ensures Parsing() && OwnedGrown() && input.Valid()
      ensures (ok, value) == JavaParse(desc, input.lib, old(input.Rest()), old(value))
    {
      var done := false;
      ok := true;
      while ok && !done
        invariant Parsing() && OwnedGrown() && input.Valid()
        invariant
          var goal := JavaParse(desc, input.lib, old(input.Rest()), old(value));
          if done || !ok then (ok, value) == goal else JavaParse(desc, input.lib, input.Rest(), value) == goal
        decreases !done, ok, input.limit - input.pos
      {
        ok, done := ParseOne(input, skip);
      }
    }

    /** readTag() and its field, or the end. */
    method ParseOne(input: CodedInputStream, skip: (nat, seq<byte>) -> Option<nat>) returns (ok: bool, done: bool)
      requires TableOk() && Parsing() && input.Valid() && input.lib == JavaLibrary(skip)
      modifies this, Owned(refs), input
      ensures Parsing() && OwnedGrown() && input.Valid()
      ensures ok && !done ==> input.limit == old(input.limit) && input.pos > old(input.pos)
      ensures
        var goal := JavaParse(desc, input.lib, old(input.Rest()), old(value));
        if done || !ok then (ok, value) == goal else JavaParse(desc, input.lib, input.Rest(), value) == goal
    {
      if input.pos == input.limit {
        return true, true;
      }
      var tag;
      done := false;
      ok, tag := input.ReadVarint32();
      if ok {
        if tag < 8 || tag % 8 == END_GROUP {
          return false, false;
        }
        ok := TakeField(tag, input, skip);
      }
    }

    /** unmodifiableList() around the ArrayList of field i. */
    method FreezeList(i: nat)
      requires Unmemoized() && i < |nums| && refs[i].Mutable?
      modifies this`refs, this`mutableBitField0, Owned(refs)
      ensures Unmemoized() && refs == old(refs)[i := Unmodifiable(old(refs)[i].a)]
      ensures mutableBitField0 == old(mutableBitField0) - {i}
    {
      label Before:
      assert SlotOk(desc, i, refs[i], xs[i], this, i in mutableBitField0);
      refs[i].a.owner := null;
      ListFrozen@Before(Slots(desc, refs, xs, this, mutableBitField0, i));
      refs := refs[i := Unmodifiable(refs[i].a)];
      mutableBitField0 := mutableBitField0 - {i};
    }

    /** The finally block: every list made by the parse becomes a view. */
    method FreezeLists()
      requires Unmemoized()
      modifies this`refs, this`mutableBitField0, Owned(refs)
      ensures Valid()
    {
      for i := 0 to |nums|
        invariant Unmemoized() && forall a | a in Owned(refs) :: a in old(Owned(refs))
        invariant forall j | j in mutableBitField0 :: i <= j < |nums|
      {
        assert SlotOk(desc, i, refs[i], xs[i], this, i in mutableBitField0);
        if i in mutableBitField0 {
          assert refs[i].Mutable?;
          OwnedUpdate(refs, i, Unmodifiable(refs[i].a));
          FreezeList(i);
        }
      }
      assert mutableBitField0 == {};
    }

    // ----- Sizes --------------------------------------------------------------------------------

    /** hasX() for a scalar, the has-bit test of every generated method. */
    predicate Has(i: nat)
      requires Shapes() && i < |table.cases| && table.cases[i].Scalar?
      reads this
    {
      table.cases[i].bit in bitField0
    }

    /** The number of bytes writeTo emits, computed once; the packed lengths are kept beside it. */
    method GetSerializedSize() returns (size: int32)
      requires TableOk() && Valid() && Fits(desc, value)
      modifies this`memoizedSize, this`listSizes
      ensures Valid() && SizesAgree() && size == |Ser(desc, value)|
    {
      if memoizedSize != -1 {
        return memoizedSize;
      }
      size := FieldsSize();
      memoizedSize := size;
    }

    /** The sum over the fields, whose packed lengths are noted on the way. */
    method FieldsSize() returns (size: int32)
      requires TableOk() && Valid() && Fits(desc, value) && memoizedSize == -1
      modifies this`listSizes
      ensures Valid() && size == |Ser(desc, value)|
      ensures forall j | 0 <= j < |xs| :: desc.cases[j].kind.Packed? ==> listSizes[j] == |Wire.Packed(xs[j])|
    {
      ghost var m := value;
      size := 0;
      for i := 0 to |nums|
        invariant Valid() && memoizedSize == -1 && size + |SerFrom(desc, m, i)| == |Ser(desc, m)|
        invariant forall j | 0 <= j < i :: desc.cases[j].kind.Packed? ==> listSizes[j] == |Wire.Packed(xs[j])|
      {
        var n := MemberSize(i);
        size := size + n;
      }
    }

    method MemberSize(i: nat) returns (size: int32)
      requires TableOk() && Valid() && Fits(desc, value) && memoizedSize == -1 && i < |nums|
      modifies this`listSizes
      ensures Valid() && size == FieldSize(desc, value, i)
      ensures forall j | 0 <= j < |xs| && j != i :: listSizes[j] == old(listSizes)[j]
      ensures desc.cases[i].kind.Packed? ==> listSizes[i] == |Wire.Packed(xs[i])|
    {
      FieldBytes(i);
      size := 0;
      match table.cases[i] {
        case Scalar(_, _) =>
          if Has(i) {
            size := VarintSize(8 * (i + 1)) + VarintSize(nums[i]);
          }
        case Repeated(tag, tagSize) =>
          assert SlotOk(desc, i, refs[i], xs[i], this, false);
          var dataSize;
          size, dataSize := RepeatedSize(tag, tagSize, refs[i].Elems());
          KeepSize(i, dataSize);
      }
    }

    method KeepSize(i: nat, dataSize: int)
      requires Valid() && memoizedSize == -1 && i < |nums|
      modifies this`listSizes
      ensures Valid() && listSizes == old(listSizes)[i := dataSize]
    {
      listSizes := listSizes[i := dataSize];
    }

    /** What field i adds to the size. */
    lemma FieldBytes(i: nat)
      requires TableOk() && Open() && Fits(desc, value) && i < |nums|
      ensures JavaCaseOk(table, i) && desc.cases[i].tag == table.cases[i].tag < 0x4000
      ensures desc.cases[i].kind == if table.cases[i].Repeated? then Kind.Packed else Kind.UInt32
      ensures table.cases[i].Repeated? ==>
        && |Wire.Packed(xs[i])| <= INT_MAX && value[i] == List(xs[i])
        && FieldSize(desc, value, i) == PackedFieldSize(desc.cases[i].tag, xs[i])
      ensures table.cases[i].Scalar? ==>
        && value[i] == Num(if i in has then Some(nums[i]) else None)
        && FieldSize(desc, value, i) == if i in has then VarintSize(desc.cases[i].tag) + VarintSize(nums[i]) else 0
      ensures FieldSize(desc, value, i) <= |Ser(desc, value)|
    {
      ViewToAt(desc, has, nums, xs, |nums|, i);
      DescOfWellFormed(table);
      assert JavaCaseOk(table, i) && CaseOk(desc, i) && TypedVal(desc, i, value[i]);
      FieldWithin(desc, value, i, 0);
      VarintSizeIsLength(desc.cases[i].tag);
      VarintSizeIsLength(nums[i]);
      if table.cases[i].Repeated? {
        VarintSizeIsLength(|Wire.Packed(xs[i])|);
      }
    }

    // ----- Writing ------------------------------------------------------------------------------

    /** Emits exactly the bytes getSerializedSize() counted. */
    method WriteTo(output: ArrayTarget)
      requires TableOk() && Valid() && Fits(desc, value)
      requires output.Valid() && output.Room() >= |Ser(desc, value)|
      modifies this`memoizedSize, this`listSizes, output, output.data
      ensures Valid() && output.Valid() && output.Bytes() == old(output.Bytes()) + Ser(desc, value)
    {
      var size := GetSerializedSize();
      WriteFields(output);
    }

    method WriteFields(output: ArrayTarget)
      requires TableOk() && Valid() && Fits(desc, value) && SizesAgree()
      requires output.Valid() && output.Room() >= |Ser(desc, value)|
      modifies output, output.data
      ensures output.Valid() && output.Bytes() == old(output.Bytes()) + Ser(desc, value)
    {
      ghost var m := value;
      for i := 0 to |nums|
        invariant output.Valid() && output.Room() >= |SerFrom(desc, m, i)|
        invariant output.Bytes() + SerFrom(desc, m, i) == old(output.Bytes()) + Ser(desc, m)
      {
        ghost var was, bytes := output.Bytes(), SerField(desc, i, m[i]);
        assert SerFrom(desc, m, i) == bytes + SerFrom(desc, m, i + 1);
        ConcatAssociative(was, bytes, SerFrom(desc, m, i + 1));
        WriteField(i, output);
      }
    }

    method WriteField(i: nat, output: ArrayTarget)
      requires TableOk() && Valid() && Fits(desc, value) && SizesAgree() && i < |nums|
      requires output.Valid() && output.Room() >= FieldSize(desc, value, i)
      modifies output, output.data
      ensures output.Valid() && output.Bytes() == old(output.Bytes()) + SerField(desc, i, value[i])
    {
      FieldBytes(i);
      match table.cases[i] {
        case Scalar(_, _) =>
          if Has(i) {
            WriteScalar(8 * (i + 1), nums[i], output);
          }
        case Repeated(tag, _) =>
          assert SlotOk(desc, i, refs[i], xs[i], this, false);
          WriteList(tag, refs[i].Elems(), listSizes[i], output);
      }
    }

    method ToByteArray() returns (bytes: seq<byte>)
      requires TableOk() && Valid() && Fits(desc, value)
      modifies this`memoizedSize, this`listSizes
      ensures Valid() && bytes == Ser(desc, value)
    {
      var size := GetSerializedSize();
      var output := new ArrayTarget(size);
      WriteTo(output);
      bytes := output.data[..];
    }

    // ----- The other memo fields ------------------------------------------------------------------

    method IsInitialized() returns (b: bool)
      requires TableOk() && Valid()
      modifies this`memoizedIsInitialized
      ensures Valid() && b == Complete(desc, value)
    {
      if memoizedIsInitialized == 1 {
        return true;
      }
      if memoizedIsInitialized == 0 {
        return false;
      }
      b := HasRequired();
      memoizedIsInitialized := if b then 1 else 0;
    }

    method HasRequired() returns (b: bool)
      requires TableOk() && Valid()
      ensures b == Complete(desc, value)
    {
      for i := 0 to |nums|
        invariant forall j | j in desc.required && j < i :: Present(value[j])
      {
        FieldShape(i);
        if i in table.required && !Has(i) {
          assert !Present(value[i]);
          return false;
        }
      }
      return true;
    }

    method HashCode() returns (hash: uint32)
      requires TableOk() && Valid()
      modifies this`memoizedHashCode
      ensures Valid() && |value| <= 32 && hash == HashOf(value, descriptorHash, unknownHash)
    {
      if memoizedHashCode != 0 {
        return memoizedHashCode;
      }
      hash := FieldsHash();
      memoizedHashCode := hash;
    }

    method FieldsHash() returns (hash: uint32)
      requires TableOk() && Valid()
      ensures |value| <= 32 && hash == HashOf(value, descriptorHash, unknownHash)
    {
      hash := Mix(19, 41, descriptorHash);
      for i := 0 to |nums|
        invariant HashFrom(value, i, hash) == HashFrom(value, 0, Mix(19, 41, descriptorHash))
      {
        hash := HashField(i, hash);
      }
      hash := Mix(29, hash, unknownHash);
    }

    method HashField(i: nat, h: uint32) returns (hash: uint32)
      requires TableOk() && Valid() && i < |nums| <= 32
      ensures hash == FieldHash(i + 1, value[i], h)
    {
      FieldShape(i);
      hash := h;
      match table.cases[i] {
        case Scalar(_, _) =>
          if Has(i) {
            hash := Mix(53, Mix(37, hash, i + 1), nums[i]);
          }
        case Repeated(_, _) =>
          if |refs[i].Elems()| > 0 {
            hash := Mix(53, Mix(37, hash, i + 1), ListHash(refs[i].Elems(), 1));
          }
      }
    }

    /** Field i as the getters show it. */
    lemma FieldShape(i: nat)
      requires TableOk() && Open() && mutableBitField0 == {} && i < |nums|
      ensures table.cases[i].Repeated? <==> desc.cases[i].kind.Packed?
      ensures table.cases[i].Repeated? ==> value[i] == List(xs[i]) && refs[i].Elems() == xs[i]
      ensures table.cases[i].Scalar? ==> value[i] == Num(if i in has then Some(nums[i]) else None)
    {
      ViewToAt(desc, has, nums, xs, |nums|, i);
      assert desc.cases[i] == CaseOf(table, i);
      assert SlotOk(desc, i, refs[i], xs[i], this, false);
    }

    /** Presence and values of the scalars, elements of the lists; equal messages have equal hashes. */
    method Equals(other: JavaMessage) returns (b: bool)
      requires TableOk() && Valid() && other.TableOk() && other.Valid() && other.table == table
      ensures b <==> value == other.value
      ensures b && other.descriptorHash == descriptorHash && other.unknownHash == unknownHash && |value| <= 32 ==>
        HashOf(value, descriptorHash, unknownHash) == HashOf(other.value, other.descriptorHash, other.unknownHash)
    {
      for i := 0 to |nums|
        invariant forall j | 0 <= j < i :: value[j] == other.value[j]
      {
        FieldShape(i);
        other.FieldShape(i);
        match table.cases[i] {
          case Scalar(_, _) =>
            if Has(i) != other.Has(i) || (Has(i) && nums[i] != other.nums[i]) {
              assert value[i] != other.value[i];
              return false;
            }
          case Repeated(_, _) =>
            if refs[i].Elems() != other.refs[i].Elems() {
              assert value[i] != other.value[i];
              return false;
            }
        }
      }
      return true;
    }
  }

  /** `m` once list i, now `ys`, has taken the elements that remain in s; whether all could be read. */
  ghost function WithRest(m: Message, i: nat, ys: seq<uint32>, s: seq<byte>): (bool, Message)
    requires i < |m|
  {
    (ReadPacked(s).0, m[i := List(ys + ReadPacked(s).1)])
  }

  lemma WithRestStep(m: Message, i: nat, ys: seq<uint32>, s: seq<byte>)
    requires i < |m| && m[i] == List(ys)
    ensures s == [] ==> WithRest(m, i, ys, s) == (true, m)
    ensures s != [] && ReadVarint32(s).None? ==> WithRest(m, i, ys, s) == (false, m)
    ensures s != [] && ReadVarint32(s).Some? ==>
      var p := ReadVarint32(s).value;
      WithRest(m, i, ys, s) == WithRest(m[i := List(ys + [p.0])], i, ys + [p.0], s[p.1..])
  {
    assert ys + [] == ys && m[i := List(ys)] == m;
    if s != [] && ReadVarint32(s).Some? {
      var p := ReadVarint32(s).value;
      var ys': seq<uint32> := ys + [p.0];
      assert m[i := List(ys')][i := List(ys' + ReadPacked(s[p.1..]).1)] == m[i := List(ys' + ReadPacked(s[p.1..]).1)];
      ConcatAssociative(ys, [p.0], ReadPacked(s[p.1..]).1);
    }
  }

  /** Every required scalar is present. */
  ghost predicate Complete(d: Desc, m: Message)
    requires |m| == |d.cases|
  {
    forall i | i in d.required && i < |m| :: Present(m[i])
  }

  lemma RequiredFields(t: JavaTable)
    requires t in [JAVA_INITIAL, JAVA_MSG0, JAVA_MSG1, JAVA_MSG2, JAVA_MSG3, JAVA_ATTESTATION]
    ensures |t.cases| >= 2 && t.cases[0].Scalar?
    ensures t == JAVA_MSG0 || t == JAVA_ATTESTATION ==> t.required == {0, 1} && t.cases[1].Scalar?
    ensures t != JAVA_MSG0 && t != JAVA_ATTESTATION ==> t.required == {0}
  {
  }

  /** MessageMsg0 and AttestationMessage require their first two fields, the other classes their type. */
  lemma CompleteIff(t: JavaTable, m: Message)
    requires t in [JAVA_INITIAL, JAVA_MSG0, JAVA_MSG1, JAVA_MSG2, JAVA_MSG3, JAVA_ATTESTATION]
    requires Typed(DescOf(t), m)
    ensures |m| >= 2 && |m| == |DescOf(t).cases| && m[0].Num?
    ensures t == JAVA_MSG0 || t == JAVA_ATTESTATION ==>
      m[1].Num? && (Complete(DescOf(t), m) <==> m[0].num.Some? && m[1].num.Some?)
    ensures t != JAVA_MSG0 && t != JAVA_ATTESTATION ==> (Complete(DescOf(t), m) <==> m[0].num.Some?)
  {
    RequiredFields(t);
    RequiredShown(t, m, t == JAVA_MSG0 || t == JAVA_ATTESTATION);
  }

  lemma RequiredShown(t: JavaTable, m: Message, both: bool)
    requires |t.cases| >= 2 && t.cases[0].Scalar? && (both ==> t.cases[1].Scalar?)
    requires t.required == if both then {0, 1} else {0}
    requires Typed(DescOf(t), m)
    ensures |m| == |DescOf(t).cases| == |t.cases| && m[0].Num? && (both ==> m[1].Num?)
    ensures Complete(DescOf(t), m) <==> m[0].num.Some? && (both ==> m[1].num.Some?)
  {
    var d := DescOf(t);
    assert d.cases[0] == CaseOf(t, 0) && d.cases[1] == CaseOf(t, 1);
    assert TypedVal(d, 0, m[0]) && TypedVal(d, 1, m[1]);
  }

  /** PARSER.parseFrom() before its check of required fields; a refused input leaves `m` unfinished. */
  method ParsePartialFrom(table: JavaTable, descriptorHash: uint32, unknownHash: uint32, bytes: seq<byte>,
                          skip: (nat, seq<byte>) -> Option<nat>) returns (ok: bool, m: JavaMessage)
    requires JavaTables.TableOk(table)
    ensures fresh(m) && m.table == table && m.TableOk() && m.Valid() && Typed(m.desc, Empty(m.desc))
    ensures (ok, m.value) == JavaParse(m.desc, JavaLibrary(skip), bytes, Empty(m.desc))
    ensures m.descriptorHash == descriptorHash && m.unknownHash == unknownHash
  {
    m := new JavaMessage.Default(table, descriptorHash, unknownHash);
    var input := new CodedInputStream(bytes, JavaLibrary(skip));
    ok := m.ParseFields(input, skip);
    m.FreezeLists();
  }

  /** One list's block of getSerializedSize(). */
  method RepeatedSize(tag: nat, tagSize: nat, xs: seq<uint32>) returns (size: int32, dataSize: int32)
    requires tag < 0x4000 && tagSize == VarintSize(tag)
    requires |Wire.Packed(xs)| <= INT_MAX && PackedFieldSize(tag, xs) <= INT_MAX
    ensures size == PackedFieldSize(tag, xs) && dataSize == |Wire.Packed(xs)|
  {
    dataSize := 0;
    for i := 0 to |xs|
      invariant dataSize == |Wire.Packed(xs[..i])|
    {
      PackedPrefix(xs, i);
      dataSize := dataSize + VarintSize(xs[i]);
    }
    assert xs[..|xs|] == xs;
    size := dataSize;
    if |xs| > 0 {
      size := size + tagSize;
      size := size + VarintSize(dataSize);
    }
  }
}
