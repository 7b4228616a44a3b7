/**
 A C++ message object without sub-messages: the generated class template over the table of one of
 the eleven leaf messages. Scalars, lists, has-bits and cached sizes are fields updated in place.
 */
module LeafMessage {
  import opened Wrappers
  import opened Wire
  import opened Schema
  import opened CodedStream
  import CodecTheorems

  // ----- The order of the fields in memory, which Clear relies on ------------------------------

  /**
   One statement of a Clear: zero the memory from field `first` to field `last`, behind a test of
   the has-bits in `guard` (the empty guard stands for no test). A plain `x_ = 0` has first == last.
   */
  datatype Zeroing = Zeroing(guard: set<nat>, first: nat, last: nat)

  /** `offset[i]` is field i's place among the data members of the class. */
  datatype Layout = Layout(offset: seq<nat>, steps: seq<Zeroing>)

  predicate Touches(l: Layout, k: nat, i: nat)
    requires k < |l.steps| && i < |l.offset|
  {
    var s := l.steps[k];
    s.first < |l.offset| && s.last < |l.offset| && l.offset[s.first] <= l.offset[i] <= l.offset[s.last]
  }

  predicate ClearedBy(l: Layout, i: nat, k: nat) {
    && k < |l.steps| && i < |l.offset|
    && Touches(l, k, i)
    && (l.steps[k].guard == {} || i in l.steps[k].guard)
  }

  /** Every memset stays on scalars, and every scalar is zeroed whenever its has-bit may be set. */
  ghost predicate LayoutOk(d: Desc, l: Layout) {
    && |l.offset| == |d.cases|
    && (forall k, i | 0 <= k < |l.steps| && 0 <= i < |d.cases| && Touches(l, k, i) :: !d.cases[i].kind.Packed?)
    && (forall i | 0 <= i < |d.cases| && !d.cases[i].kind.Packed? :: exists k :: ClearedBy(l, i, k))
  }

  // ----- Initialization -----------------------------------------------------------------------

  ghost predicate Initialized(d: Desc, m: Message)
    requires WellFormed(d) && Typed(d, m)
    decreases d
  {
    && (forall i | i in d.required :: Present(m[i]))
    && (forall i | 0 <= i < |m| :: d.cases[i].kind.Sub? ==> InitializedSub(d, i, m))
  }

  ghost predicate InitializedSub(d: Desc, i: nat, m: Message)
    requires WellFormed(d) && Typed(d, m) && i < |m| && d.cases[i].kind.Sub?
    decreases d, 0
  {
    assert SubOk(d, i) && TypedVal(d, i, m[i]);
    m[i].msg.Some? ==> Initialized(d.cases[i].kind.desc, m[i].msg.value)
  }

  predicate Present(v: Val) {
    (v.Num? && v.num.Some?) || (v.Msg? && v.msg.Some?)
  }

  // ----- Sums of field sizes ------------------------------------------------------------------

  /** The two ways ByteSize walks the fields: the non-list fields of one group, or the lists. */
  datatype Walk = Scalars(group: nat) | Lists

  predicate On(d: Desc, w: Walk, i: nat)
    requires i < |d.cases|
  {
    if d.cases[i].kind.Packed? then w.Lists? else w == Scalars(d.cases[i].group)
  }

  function FieldSize(d: Desc, m: Message, i: nat): nat
    requires Typed(d, m) && i < |m|
  {
    assert TypedVal(d, i, m[i]);
    |SerField(d, i, m[i])|
  }

  /** The bytes of the walk's fields among the first n. */
  function WalkSize(d: Desc, m: Message, w: Walk, n: nat): nat
    requires Typed(d, m) && n <= |m|
  {
    if n == 0 then 0
    else WalkSize(d, m, w, n - 1) + if On(d, w, n - 1) then FieldSize(d, m, n - 1) else 0
  }

  /** The bytes of the first `groups` groups among the first n fields. */
  function GroupsSize(d: Desc, m: Message, groups: nat, n: nat): nat
    requires Typed(d, m) && n <= |m|
  {
    if groups == 0 then 0 else GroupsSize(d, m, groups - 1, n) + WalkSize(d, m, Scalars(groups - 1), n)
  }

  lemma {:induction false} GroupsSizeStep(d: Desc, m: Message, groups: nat, n: nat)
    requires Typed(d, m) && n < |m|
    ensures
      GroupsSize(d, m, groups, n + 1)
      == GroupsSize(d, m, groups, n)
         + if !d.cases[n].kind.Packed? && d.cases[n].group < groups then FieldSize(d, m, n) else 0
  {
    if groups > 0 {
      GroupsSizeStep(d, m, groups - 1, n);
    }
  }

  /** The groups and the lists together cover every field once. */
  lemma {:induction false} WalksCover(d: Desc, m: Message, n: nat)
    requires WellFormed(d) && Typed(d, m) && n <= |m|
    ensures GroupsSize(d, m, |d.groups|, n) + WalkSize(d, m, Lists, n) + |SerFrom(d, m, n)| == |Ser(d, m)|
  {
    if n == 0 {
      NoFields(d, m, |d.groups|);
    } else {
      WalksCover(d, m, n - 1);
      GroupsSizeStep(d, m, |d.groups|, n - 1);
      assert CaseOk(d, n - 1) && TypedVal(d, n - 1, m[n - 1]);
    }
  }

  lemma {:induction false} NoFields(d: Desc, m: Message, groups: nat)
    requires Typed(d, m)
    ensures GroupsSize(d, m, groups, 0) == 0
  {
    if groups > 0 {
      NoFields(d, m, groups - 1);
    }
  }

  lemma {:induction false} WalkGrows(d: Desc, m: Message, w: Walk, n: nat)
    requires Typed(d, m) && n <= |m|
    ensures WalkSize(d, m, w, n) <= WalkSize(d, m, w, |m|)
    decreases |m| - n
  {
    if n < |m| {
      WalkGrows(d, m, w, n + 1);
    }
  }

  lemma {:induction false} GroupsGrow(d: Desc, m: Message, groups: nat)
    requires Typed(d, m) && groups <= |d.groups|
    ensures GroupsSize(d, m, groups, |m|) <= GroupsSize(d, m, |d.groups|, |m|)
    decreases |d.groups| - groups
  {
    if groups < |d.groups| {
      GroupsGrow(d, m, groups + 1);
    }
  }

  lemma {:induction false} FieldWithin(d: Desc, m: Message, i: nat, n: nat)
    requires Typed(d, m) && n <= i < |m|
    ensures FieldSize(d, m, i) <= |SerFrom(d, m, n)|
    decreases i - n
  {
    if n < i {
      FieldWithin(d, m, i, n + 1);
    }
  }

  /** A group none of whose has-bits is set has no bytes. */
  lemma {:induction false} EmptyWalk(d: Desc, m: Message, w: Walk, n: nat)
    requires Typed(d, m) && n <= |m|
    requires forall i | 0 <= i < |m| && On(d, w, i) :: m[i] == EmptyVal(d.cases[i].kind)
    ensures WalkSize(d, m, w, n) == 0
  {
    if n > 0 {
      EmptyWalk(d, m, w, n - 1);
    }
  }

  // ----- Merging in the order of the walks -------------------------------------------------------

  /** `b`'s fields on the walk, among the first n, merged into `c`. */
  function MergeWalk(d: Desc, c: Message, b: Message, w: Walk, n: nat): (r: Message)
    requires Typed(d, c) && Typed(d, b) && n <= |c|
    ensures Typed(d, r)
  {
    if n == 0 then c
    else
      var r := MergeWalk(d, c, b, w, n - 1);
      if On(d, w, n - 1) then MergeOne(d, r, b, n - 1) else r
  }

  function MergeOne(d: Desc, c: Message, b: Message, i: nat): (r: Message)
    requires Typed(d, c) && Typed(d, b) && i < |c|
    ensures Typed(d, r)
  {
    assert TypedVal(d, i, c[i]) && TypedVal(d, i, b[i]);
    c[i := MergeVal(d, i, c[i], b[i])]
  }

  /** The lists, then the first `groups` groups. */
  function MergeGroups(d: Desc, a: Message, b: Message, groups: nat): (r: Message)
    requires Typed(d, a) && Typed(d, b)
    ensures Typed(d, r)
  {
    if groups == 0 then MergeWalk(d, a, b, Lists, |a|)
    else MergeWalk(d, MergeGroups(d, a, b, groups - 1), b, Scalars(groups - 1), |a|)
  }

  lemma {:induction false} MergeWalkAt(d: Desc, c: Message, b: Message, w: Walk, n: nat, j: nat)
    requires Typed(d, c) && Typed(d, b) && n <= |c| && j < |c|
    ensures TypedVal(d, j, c[j]) && TypedVal(d, j, b[j])
    ensures MergeWalk(d, c, b, w, n)[j] == if j < n && On(d, w, j) then MergeVal(d, j, c[j], b[j]) else c[j]
  {
    assert TypedVal(d, j, c[j]) && TypedVal(d, j, b[j]);
    if n > 0 {
      MergeWalkAt(d, c, b, w, n - 1, j);
    }
  }

  lemma {:induction false} MergeGroupsAt(d: Desc, a: Message, b: Message, groups: nat, j: nat)
    requires Typed(d, a) && Typed(d, b) && j < |a|
    ensures TypedVal(d, j, a[j]) && TypedVal(d, j, b[j])
    ensures
      MergeGroups(d, a, b, groups)[j]
      == if d.cases[j].kind.Packed? || d.cases[j].group < groups then MergeVal(d, j, a[j], b[j]) else a[j]
  {
    if groups == 0 {
      MergeWalkAt(d, a, b, Lists, |a|, j);
    } else {
      MergeGroupsAt(d, a, b, groups - 1, j);
      MergeWalkAt(d, MergeGroups(d, a, b, groups - 1), b, Scalars(groups - 1), |a|, j);
    }
  }

  /** The lists and every group: each field has been merged once. */
  lemma MergeGroupsIsMerge(d: Desc, a: Message, b: Message)
    requires WellFormed(d) && Typed(d, a) && Typed(d, b)
    ensures MergeGroups(d, a, b, |d.groups|) == Merge(d, a, b)
  {
    forall j | 0 <= j < |a| ensures MergeGroups(d, a, b, |d.groups|)[j] == Merge(d, a, b)[j] {
      MergeGroupsAt(d, a, b, |d.groups|, j);
      assert CaseOk(d, j);
    }
  }

  lemma {:induction false} MergeNothing(d: Desc, c: Message, b: Message, w: Walk, n: nat)
    requires Typed(d, c) && Typed(d, b) && n <= |c|
    requires forall i | 0 <= i < |b| && On(d, w, i) :: b[i] == EmptyVal(d.cases[i].kind)
    ensures MergeWalk(d, c, b, w, n) == c
  {
    if n > 0 {
      MergeNothing(d, c, b, w, n - 1);
      MergeOneAbsent(d, c, b, n - 1);
    }
  }

  lemma MergeOneAbsent(d: Desc, c: Message, b: Message, i: nat)
    requires Typed(d, c) && Typed(d, b) && i < |c|
    ensures b[i] == EmptyVal(d.cases[i].kind) ==> MergeOne(d, c, b, i) == c
  {
    assert TypedVal(d, i, c[i]);
    assert c[i].List? ==> c[i].xs + [] == c[i].xs;
  }

  // ----- The switch of the parser -------------------------------------------------------------

  /** The generated switch: by field number behind the cutoff, then by exact tag. */
  function Switch(d: Desc, tag: nat, known: bool): Action {
    var n := tag / 8;
    if !known || n == 0 || n > |d.cases| then Unusual
    else if tag == d.cases[n - 1].tag then Field(n - 1)
    else if d.cases[n - 1].kind.Packed? && tag == 8 * n then UnpackedField(n - 1)
    else Unusual
  }

  /** The cutoff never diverts a tag that belongs to a field, nor does the field-number switch. */
  lemma SwitchIsDispatch(d: Desc, tag: nat, known: bool)
    requires WellFormed(d)
    requires known ==> tag <= d.cutoff
    requires !known ==> tag > d.cutoff || tag == 0
    ensures Switch(d, tag, known) == Dispatch(d, tag, 0)
  {
    var a := Dispatch(d, tag, 0);
    if !a.Unusual? {
      assert CaseOk(d, a.i);
    }
    var b := Switch(d, tag, known);
    if b.Field? {
      CodecTheorems.DispatchOfTag(d, b.i, 0);
    } else if b.UnpackedField? {
      assert CaseOk(d, b.i);
      CodecTheorems.DispatchOfUnpackedTag(d, b.i, 0);
    }
  }

  // ----- The fields of a message object ---------------------------------------------------------

  function FieldView(k: Kind, present: bool, n: uint32, xs: seq<uint32>): Val {
    if k.Packed? then List(xs) else if present then Num(Some(n)) else Num(None)
  }

  /** The first n fields of the message that has-bits, scalars and lists stand for. */
  function ViewTo(d: Desc, has: set<nat>, nums: seq<uint32>, lists: seq<seq<uint32>>, n: nat): (m: Message)
    requires |nums| == |lists| == |d.cases| && n <= |nums|
    ensures |m| == n
  {
    if n == 0 then []
    else ViewTo(d, has, nums, lists, n - 1) + [FieldView(d.cases[n - 1].kind, n - 1 in has, nums[n - 1], lists[n - 1])]
  }

  function View(d: Desc, has: set<nat>, nums: seq<uint32>, lists: seq<seq<uint32>>): (m: Message)
    requires |nums| == |lists| == |d.cases|
  {
    ViewTo(d, has, nums, lists, |nums|)
  }

  lemma {:induction false} ViewToAt(d: Desc, has: set<nat>, nums: seq<uint32>, lists: seq<seq<uint32>>, n: nat, i: nat)
    requires |nums| == |lists| == |d.cases| && i < n <= |nums|
    ensures ViewTo(d, has, nums, lists, n)[i] == FieldView(d.cases[i].kind, i in has, nums[i], lists[i])
  {
    if i < n - 1 {
      ViewToAt(d, has, nums, lists, n - 1, i);
    }
  }

  lemma ViewAt(d: Desc, has: set<nat>, nums: seq<uint32>, lists: seq<seq<uint32>>)
    requires |nums| == |lists| == |d.cases|
    ensures
      var m := View(d, has, nums, lists);
      forall i | 0 <= i < |m| :: m[i] == FieldView(d.cases[i].kind, i in has, nums[i], lists[i])
  {
    forall i | 0 <= i < |nums|
      ensures View(d, has, nums, lists)[i] == FieldView(d.cases[i].kind, i in has, nums[i], lists[i])
    {
      ViewToAt(d, has, nums, lists, |nums|, i);
    }
  }

  /**
   Shapes; a scalar is non-zero only if its has-bit is set; an enum holds a declared value, which
   the setters assert.
   */
  predicate Coherent(d: Desc, has: set<nat>, nums: seq<uint32>, lists: seq<seq<uint32>>) {
    && IsLeaf(d)
    && |nums| == |lists| == |d.cases|
    && (forall i | i in has :: i < |nums| && !d.cases[i].kind.Packed?)
    && (forall i | 0 <= i < |nums| && nums[i] != 0 :: i in has)
    && (forall i | 0 <= i < |nums| && d.cases[i].kind.Enum? :: IsValidType(nums[i]))
    && (forall i | 0 <= i < |lists| && lists[i] != [] :: d.cases[i].kind.Packed?)
  }

  lemma ViewTyped(d: Desc, has: set<nat>, nums: seq<uint32>, lists: seq<seq<uint32>>)
    requires Coherent(d, has, nums, lists)
    ensures Typed(d, View(d, has, nums, lists))
  {
    ViewAt(d, has, nums, lists);
  }

  lemma CoherentSet(d: Desc, has: set<nat>, nums: seq<uint32>, lists: seq<seq<uint32>>, i: nat, n: uint32)
    requires Coherent(d, has, nums, lists) && i < |nums| && !d.cases[i].kind.Packed?
    requires d.cases[i].kind.Enum? ==> IsValidType(n)
    ensures Coherent(d, has + {i}, nums[i := n], lists)
    ensures Coherent(d, has - {i}, nums[i := 0], lists)
  {
  }

  lemma ViewOfSet(d: Desc, has: set<nat>, nums: seq<uint32>, lists: seq<seq<uint32>>, i: nat, n: uint32)
    requires |nums| == |lists| == |d.cases| && i < |nums| && !d.cases[i].kind.Packed?
    ensures View(d, has + {i}, nums[i := n], lists) == View(d, has, nums, lists)[i := Num(Some(n))]
    ensures View(d, has - {i}, nums[i := n], lists) == View(d, has, nums, lists)[i := Num(None)]
  {
    ViewAt(d, has, nums, lists);
    ViewAt(d, has + {i}, nums[i := n], lists);
    ViewAt(d, has - {i}, nums[i := n], lists);
  }

  lemma CoherentList(d: Desc, has: set<nat>, nums: seq<uint32>, lists: seq<seq<uint32>>, i: nat, xs: seq<uint32>)
    requires Coherent(d, has, nums, lists) && i < |nums| && d.cases[i].kind.Packed?
    ensures Coherent(d, has, nums, lists[i := xs])
  {
  }

  lemma ViewOfList(d: Desc, has: set<nat>, nums: seq<uint32>, lists: seq<seq<uint32>>, i: nat, xs: seq<uint32>)
    requires |nums| == |lists| == |d.cases| && i < |nums| && d.cases[i].kind.Packed?
    ensures View(d, has, nums, lists[i := xs]) == View(d, has, nums, lists)[i := List(xs)]
  {
    ViewAt(d, has, nums, lists);
    ViewAt(d, has, nums, lists[i := xs]);
  }

  lemma Missed(has: set<nat>, guard: set<nat>, i: nat)
    requires has * guard == {} && i in guard
    ensures i !in has
  {
    assert i in has ==> i in has * guard;
  }

  /** A guard that fails hides only absent fields. */
  lemma GuardMiss(d: Desc, has: set<nat>, nums: seq<uint32>, lists: seq<seq<uint32>>, g: nat)
    requires WellFormed(d) && Coherent(d, has, nums, lists) && g < |d.groups|
    requires has * GuardBits(d.groups[g]) == {}
    ensures
      forall i | 0 <= i < |nums| && On(d, Scalars(g), i) ::
        View(d, has, nums, lists)[i] == EmptyVal(d.cases[i].kind)
  {
    ViewAt(d, has, nums, lists);
    forall i | 0 <= i < |nums| && On(d, Scalars(g), i) ensures i !in has {
      assert CaseOk(d, i);
      Missed(has, GuardBits(d.groups[g]), i);
    }
  }

  /** What field i adds to the walk over group g. */
  lemma ScalarStep(d: Desc, has: set<nat>, nums: seq<uint32>, lists: seq<seq<uint32>>, g: nat, i: nat)
    requires WellFormed(d) && Coherent(d, has, nums, lists) && i < |nums|
    ensures d.cases[i].tag < 0x4000
    ensures Typed(d, View(d, has, nums, lists))
    ensures
      WalkSize(d, View(d, has, nums, lists), Scalars(g), i + 1)
      == WalkSize(d, View(d, has, nums, lists), Scalars(g), i)
         + if d.cases[i].group == g && i in has then VarintSize(d.cases[i].tag) + VarintSize(nums[i]) else 0
  {
    var m := View(d, has, nums, lists);
    ViewTyped(d, has, nums, lists);
    ViewToAt(d, has, nums, lists, |nums|, i);
    assert CaseOk(d, i) && TypedVal(d, i, m[i]);
    VarintSizeIsLength(d.cases[i].tag);
    VarintSizeIsLength(nums[i]);
  }

  /** What field i adds to the walk over the lists, whose packed bytes a fitting message bounds. */
  lemma ListStep(d: Desc, has: set<nat>, nums: seq<uint32>, lists: seq<seq<uint32>>, i: nat)
    requires WellFormed(d) && Coherent(d, has, nums, lists) && i < |nums|
    requires Typed(d, View(d, has, nums, lists)) && Fits(d, View(d, has, nums, lists))
    ensures d.cases[i].tag < 0x4000 && |Wire.Packed(lists[i])| <= INT_MAX
    ensures
      WalkSize(d, View(d, has, nums, lists), Lists, i + 1)
      == WalkSize(d, View(d, has, nums, lists), Lists, i) + PackedFieldSize(d.cases[i].tag, lists[i])
    ensures
      d.cases[i].kind.Packed? ==>
        FieldSize(d, View(d, has, nums, lists), i) == PackedFieldSize(d.cases[i].tag, lists[i])
  {
    var m := View(d, has, nums, lists);
    ViewToAt(d, has, nums, lists, |nums|, i);
    assert CaseOk(d, i) && TypedVal(d, i, m[i]);
    FieldWithin(d, m, i, 0);
    VarintSizeIsLength(d.cases[i].tag);
    VarintSizeIsLength(|Wire.Packed(lists[i])|);
  }

  /** A tag that belongs to a field is neither 0 nor an end-group tag. */
  lemma DispatchIsPlain(d: Desc, tag: nat)
    requires WellFormed(d)
    ensures tag == 0 || tag % 8 == END_GROUP ==> Dispatch(d, tag, 0).Unusual?
  {
    var a := Dispatch(d, tag, 0);
    if !a.Unusual? {
      assert CaseOk(d, a.i);
    }
  }

  /** What reading a packed list gives once the elements `got` are read and the bytes s remain. */
  function ReadAfter(got: seq<uint32>, s: seq<byte>): (bool, seq<uint32>) {
    (ReadPacked(s).0, got + ReadPacked(s).1)
  }

  lemma ReadPackedAfter(got: seq<uint32>, s: seq<byte>)
    ensures ReadAfter([], s) == ReadPacked(s)
    ensures s == [] ==> ReadAfter(got, s) == (true, got)
    ensures s != [] && ReadVarint32(s).None? ==> ReadAfter(got, s) == (false, got)
    ensures s != [] && ReadVarint32(s).Some? ==>
      ReadAfter(got, s) == ReadAfter(got + [ReadVarint32(s).value.0], s[ReadVarint32(s).value.1..])
  {
    assert got + [] == got && [] + ReadPacked(s).1 == ReadPacked(s).1;
    if s != [] && ReadVarint32(s).Some? {
      var p := ReadVarint32(s).value;
      assert got + ([p.0] + ReadPacked(s[p.1..]).1) == (got + [p.0]) + ReadPacked(s[p.1..]).1;
    }
  }

  // ----- The message object ---------------------------------------------------------------------

  class Leaf {
    const desc: Desc
    const layout: Layout
    var hasBits: set<nat>
    var nums: seq<uint32>
    var lists: seq<seq<uint32>>
    var listSizes: seq<int32>
    var cachedSize: int32

    /** What the accessors of the object show. */
    ghost var value: Message

    /** The field of the owning message that points here. */
    ghost var slot: nat

    /** The tables are those of a well-formed message class; they never change. */
    ghost predicate TableOk() {
      WellFormed(desc) && LayoutOk(desc, layout)
    }

    ghost predicate Valid()
      reads this
    {
      && |listSizes| == |desc.cases|
      && Coherent(desc, hasBits, nums, lists)
      && value == View(desc, hasBits, nums, lists)
      && Typed(desc, value)
    }

    /** The cached length of every list is the length of its packed bytes. */
    ghost predicate CachesAgree()
      requires Valid()
      reads this
    {
      && cachedSize == |Ser(desc, value)|
      && forall i | 0 <= i < |lists| :: listSizes[i] == |Wire.Packed(lists[i])|
    }

    constructor (desc: Desc, layout: Layout)
      requires WellFormed(desc) && IsLeaf(desc) && LayoutOk(desc, layout)
      ensures this.desc == desc && this.layout == layout && TableOk() && Valid() && value == Empty(desc)
    {
      this.desc, this.layout := desc, layout;
      hasBits := {};
      nums := seq(|desc.cases|, _ => 0);
      lists := seq(|desc.cases|, _ => []);
      listSizes := seq(|desc.cases|, _ => 0);
      cachedSize := 0;
      value := Empty(desc);
      new;
      ViewAt(desc, hasBits, nums, lists);
      EmptyTyped(desc);
    }

    // ----- Accessors ---------------------------------------------------------------------------

    method Set(i: nat, n: uint32)
      requires Valid() && i < |nums| && !desc.cases[i].kind.Packed?
      requires desc.cases[i].kind.Enum? ==> IsValidType(n)
      modifies this`hasBits, this`nums, this`value
      ensures Valid() && value == old(value)[i := Num(Some(n))]
    {
      CoherentSet(desc, hasBits, nums, lists, i, n);
      ViewOfSet(desc, hasBits, nums, lists, i, n);
      hasBits := hasBits + {i};
      nums := nums[i := n];
      value := value[i := Num(Some(n))];
      ViewTyped(desc, hasBits, nums, lists);
    }

    method ClearField(i: nat)
      requires Valid() && i < |nums|
      modifies this`hasBits, this`nums, this`lists, this`value
      ensures Valid() && value == old(value)[i := EmptyVal(desc.cases[i].kind)]
    {
      if desc.cases[i].kind.Packed? {
        CoherentList(desc, hasBits, nums, lists, i, []);
        ViewOfList(desc, hasBits, nums, lists, i, []);
        lists := lists[i := []];
      } else {
        CoherentSet(desc, hasBits, nums, lists, i, 0);
        ViewOfSet(desc, hasBits, nums, lists, i, 0);
        nums := nums[i := 0];
        hasBits := hasBits - {i};
      }
      value := value[i := EmptyVal(desc.cases[i].kind)];
      ViewTyped(desc, hasBits, nums, lists);
    }

    method AddAll(i: nat, xs: seq<uint32>)
      requires Valid() && i < |nums| && desc.cases[i].kind.Packed?
      modifies this`lists, this`value
      ensures Valid() && value == old(value)[i := List(old(lists)[i] + xs)]
      ensures lists == old(lists)[i := old(lists)[i] + xs]
    {
      CoherentList(desc, hasBits, nums, lists, i, lists[i] + xs);
      ViewOfList(desc, hasBits, nums, lists, i, lists[i] + xs);
      lists := lists[i := lists[i] + xs];
      value := value[i := List(lists[i])];
      ViewTyped(desc, hasBits, nums, lists);
    }

    method SetElement(i: nat, k: nat, x: uint32)
      requires Valid() && i < |nums| && desc.cases[i].kind.Packed? && k < |lists[i]|
      modifies this`lists, this`value
      ensures Valid() && value == old(value)[i := List(old(lists)[i][k := x])]
    {
      var xs: seq<uint32> := lists[i];
      var updated: seq<uint32> := xs[k := x];
      CoherentList(desc, hasBits, nums, lists, i, updated);
      ViewOfList(desc, hasBits, nums, lists, i, updated);
      lists := lists[i := updated];
      value := value[i := List(updated)];
      ViewTyped(desc, hasBits, nums, lists);
    }

    // ----- Clear --------------------------------------------------------------------------------

    /** The guarded memsets leave the object as a new one has it, field by field. */
    method Clear()
      requires TableOk() && Valid()
      modifies this`hasBits, this`nums, this`lists, this`value
      ensures Valid() && value == Empty(desc)
      ensures hasBits == {} && (forall i | 0 <= i < |nums| :: nums[i] == 0 && lists[i] == [])
    {
      for k := 0 to |layout.steps|
        invariant hasBits == old(hasBits) && lists == old(lists) && |nums| == |old(nums)|
        invariant forall i | 0 <= i < |nums| :: nums[i] == old(nums)[i] || nums[i] == 0
        invariant forall i, j | 0 <= i < |nums| && 0 <= j < k && ClearedBy(layout, i, j) :: nums[i] == 0
      {
        var s := layout.steps[k];
        if s.guard == {} || hasBits * s.guard != {} {
          ZeroRun(k);
        } else {
          forall i | 0 <= i < |nums| && ClearedBy(layout, i, k) ensures nums[i] == 0 {
            Missed(hasBits, s.guard, i);
          }
        }
      }
      forall i | 0 <= i < |nums| ensures nums[i] == 0 {
        if !desc.cases[i].kind.Packed? {
          var k :| ClearedBy(layout, i, k);
        }
      }
      ghost var cleared := nums;
      for i := 0 to |lists|
        invariant nums == cleared && |lists| == |old(lists)|
        invariant forall j | 0 <= j < |lists| :: lists[j] == if j < i then [] else old(lists)[j]
      {
        lists := lists[i := []];
      }
      hasBits := {};
      ViewAt(desc, hasBits, nums, lists);
      EmptyTyped(desc);
      value := Empty(desc);
    }

    /** The memset from the first to the last member of one run. */
    method ZeroRun(k: nat)
      requires |nums| == |layout.offset| && k < |layout.steps|
      modifies this`nums
      ensures |nums| == |old(nums)|
      ensures forall j | 0 <= j < |nums| :: nums[j] == if Touches(layout, k, j) then 0 else old(nums)[j]
    {
      for i := 0 to |nums|
        invariant |nums| == |old(nums)|
        invariant forall j | 0 <= j < |nums| :: nums[j] == if j < i && Touches(layout, k, j) then 0 else old(nums)[j]
      {
        if Touches(layout, k, i) {
          nums := nums[i := 0];
        }
      }
    }

    // ----- Sizes --------------------------------------------------------------------------------

    /** One guarded block of `if (has_x()) total_size += ...`. */
    method GroupSize(g: nat) returns (size: int32)
      requires TableOk() && Valid() && g < |desc.groups|
      requires WalkSize(desc, value, Scalars(g), |nums|) <= INT_MAX
      ensures size == WalkSize(desc, value, Scalars(g), |nums|)
    {
      ghost var m := value;
      size := 0;
      if hasBits * GuardBits(desc.groups[g]) != {} {
        for i := 0 to |nums|
          invariant size == WalkSize(desc, m, Scalars(g), i)
        {
          ScalarStep(desc, hasBits, nums, lists, g, i);
          WalkGrows(desc, m, Scalars(g), i + 1);
          if desc.cases[i].group == g && i in hasBits {
            size := size + VarintSize(desc.cases[i].tag) + VarintSize(nums[i]);
          }
        }
      } else {
        GuardMiss(desc, hasBits, nums, lists, g);
        EmptyWalk(desc, m, Scalars(g), |m|);
      }
    }

    /** The blocks for the lists, each caching its packed length. */
    method ListsSize() returns (size: int32)
      requires TableOk() && Valid() && Fits(desc, value)
      requires WalkSize(desc, value, Lists, |nums|) <= INT_MAX
      modifies this`listSizes
      ensures Valid() && size == WalkSize(desc, value, Lists, |nums|)
      ensures forall i | 0 <= i < |lists| :: listSizes[i] == |Wire.Packed(lists[i])|
    {
      ghost var m := value;
      size := 0;
      for i := 0 to |lists|
        invariant Valid()
        invariant size == WalkSize(desc, m, Lists, i)
        invariant forall j | 0 <= j < i :: listSizes[j] == |Wire.Packed(lists[j])|
      {
        ListStep(desc, hasBits, nums, lists, i);
        WalkGrows(desc, m, Lists, i + 1);
        var fieldSize, dataSize := SizeOfList(desc.cases[i].tag, lists[i]);
        size := size + fieldSize;
        listSizes := listSizes[i := dataSize];
      }
    }

    /**
     The number of bytes the serializers emit; the length of every list is cached on the way.
     No int overflows on a message within the size limit.
     */
    method ByteSize() returns (total: int32)
      requires TableOk() && Valid() && Fits(desc, value)
      modifies this`listSizes, this`cachedSize
      ensures Valid() && CachesAgree()
      ensures total == |Ser(desc, value)| == cachedSize
    {
      ghost var m := value;
      WalksCover(desc, m, |m|);
      total := 0;
      for g := 0 to |desc.groups|
        invariant listSizes == old(listSizes)
        invariant total == GroupsSize(desc, m, g, |m|)
      {
        GroupsGrow(desc, m, g + 1);
        var size := GroupSize(g);
        total := total + size;
      }
      var size := ListsSize();
      total := total + size;
      cachedSize := total;
    }

    // ----- Serialization ------------------------------------------------------------------------

    method WriteField(i: nat, target: ArrayTarget)
      requires TableOk() && Valid() && Fits(desc, value) && CachesAgree() && i < |nums|
      requires target.Valid() && target.Room() >= FieldSize(desc, value, i)
      modifies target, target.data
      ensures target.Valid() && target.Bytes() == old(target.Bytes()) + SerField(desc, i, value[i])
    {
      ViewToAt(desc, hasBits, nums, lists, |nums|, i);
      assert CaseOk(desc, i);
      VarintSizeIsLength(desc.cases[i].tag);
      VarintSizeIsLength(nums[i]);
      if i in hasBits {
        WriteScalar(desc.cases[i].tag, nums[i], target);
      } else if desc.cases[i].kind.Packed? {
        ListStep(desc, hasBits, nums, lists, i);
        WriteList(desc.cases[i].tag, lists[i], listSizes[i], target);
      }
    }

    /** Emits what ByteSize counted, in field order, with no write past the end of the array. */
    method SerializeWithCachedSizesToArray(target: ArrayTarget)
      requires TableOk() && Valid() && Fits(desc, value) && CachesAgree()
      requires target.Valid() && target.Room() >= cachedSize
      modifies target, target.data
      ensures target.Valid() && target.Bytes() == old(target.Bytes()) + Ser(desc, value)
    {
      ghost var m := value;
      for i := 0 to |nums|
        invariant target.Valid() && target.Room() >= |SerFrom(desc, m, i)|
        invariant target.Bytes() + SerFrom(desc, m, i) == old(target.Bytes()) + Ser(desc, m)
      {
        ghost var was, bytes := target.Bytes(), SerField(desc, i, m[i]);
        assert SerFrom(desc, m, i) == bytes + SerFrom(desc, m, i + 1);
        WriteField(i, target);
        assert was + SerFrom(desc, m, i) == (was + bytes) + SerFrom(desc, m, i + 1);
      }
    }

    // ----- Merging -------------------------------------------------------------------------------

    /** Lists first, then the guarded groups of scalars. */
    method MergeFrom(from: Leaf)
      requires TableOk() && Valid() && from.Valid() && from != this && from.desc == desc
      modifies this`hasBits, this`nums, this`lists, this`value
      ensures Valid() && value == Merge(desc, old(value), from.value)
    {
      ghost var a, b := value, from.value;
      MergeLists(from);
      for g := 0 to |desc.groups|
        invariant Valid() && value == MergeGroups(desc, a, b, g)
      {
        MergeGroup(from, g);
      }
      MergeGroupsIsMerge(desc, a, b);
    }

    method MergeLists(from: Leaf)
      requires Valid() && from.Valid() && from != this && from.desc == desc
      modifies this`lists, this`value
      ensures Valid() && value == MergeWalk(desc, old(value), from.value, Lists, |nums|)
    {
      ghost var a, b := value, from.value;
      for i := 0 to |lists|
        invariant Valid() && value == MergeWalk(desc, a, b, Lists, i)
      {
        if desc.cases[i].kind.Packed? {
          ViewToAt(desc, hasBits, nums, lists, |nums|, i);
          ViewToAt(desc, from.hasBits, from.nums, from.lists, |nums|, i);
          AddAll(i, from.lists[i]);
        }
      }
    }

    method MergeGroup(from: Leaf, g: nat)
      requires TableOk() && Valid() && from.Valid() && from != this && from.desc == desc && g < |desc.groups|
      modifies this`hasBits, this`nums, this`value
      ensures Valid() && value == MergeWalk(desc, old(value), from.value, Scalars(g), |nums|)
    {
      ghost var c, b := value, from.value;
      if from.hasBits * GuardBits(desc.groups[g]) != {} {
        for i := 0 to |nums|
          invariant Valid() && value == MergeWalk(desc, c, b, Scalars(g), i)
        {
          MergeMember(from, g, i);
        }
      } else {
        GuardMiss(desc, from.hasBits, from.nums, from.lists, g);
        MergeNothing(desc, c, b, Scalars(g), |nums|);
      }
    }

    /** One `if (from.has_x()) set_x(from.x())`. */
    method MergeMember(from: Leaf, g: nat, i: nat)
      requires Valid() && from.Valid() && from != this && from.desc == desc && i < |nums|
      modifies this`hasBits, this`nums, this`value
      ensures Valid()
      ensures value == if On(desc, Scalars(g), i) then MergeOne(desc, old(value), from.value, i) else old(value)
    {
      MergeOneAbsent(desc, value, from.value, i);
      ViewToAt(desc, from.hasBits, from.nums, from.lists, |nums|, i);
      if desc.cases[i].group == g && i in from.hasBits {
        Set(i, from.nums[i]);
      }
    }

    // ----- Parsing -------------------------------------------------------------------------------

    /** The body of one case of the switch, from its parse_x label to its ExpectTag. */
    method ReadField(i: nat, input: CodedInputStream) returns (ok: bool)
      requires Valid() && input.Valid() && i < |nums|
      modifies this`hasBits, this`nums, this`lists, this`value, input
      ensures Valid() && input.Valid()
      ensures ok ==> input.limit == old(input.limit) && input.pos >= old(input.pos)
      ensures TypedVal(desc, i, old(value)[i])
      ensures
        var r := ReadVal(desc, i, input.lib, old(input.Rest()), old(value)[i]);
        ok == r.ok && value == old(value)[i := r.v] && (ok ==> input.Rest() == r.rest)
    {
      ViewToAt(desc, hasBits, nums, lists, |nums|, i);
      if desc.cases[i].kind.Packed? {
        ok := ReadList(i, input);
      } else {
        var n;
        ok, n := input.ReadVarint32();
        if ok && (desc.cases[i].kind.UInt32? || IsValidType(n)) {
          Set(i, n);
        }
      }
    }

    /** A packed list under its limit. */
    method ReadList(i: nat, input: CodedInputStream) returns (ok: bool)
      requires Valid() && input.Valid() && i < |nums| && desc.cases[i].kind.Packed?
      modifies this`lists, this`value, input
      ensures Valid() && input.Valid()
      ensures ok ==> input.limit == old(input.limit) && input.pos >= old(input.pos)
      ensures
        var r := ReadVal(desc, i, input.lib, old(input.Rest()), List(old(lists)[i]));
        ok == r.ok && value == old(value)[i := r.v] && (ok ==> input.Rest() == r.rest)
    {
      ghost var was := value;
      ViewToAt(desc, hasBits, nums, lists, |nums|, i);
      assert was[i := List(lists[i])] == was;
      var outer;
      ok, outer := input.EnterPrefixed();
      if ok {
        ok := ReadElements(i, input);
        if ok {
          input.PopLimit(outer);
        }
      }
    }

    /** Elements are added one by one up to the limit, also before a malformed one. */
    method ReadElements(i: nat, input: CodedInputStream) returns (ok: bool)
      requires Valid() && input.Valid() && i < |nums| && desc.cases[i].kind.Packed?
      modifies this`lists, this`value, input`pos
      ensures Valid() && input.Valid() && input.pos >= old(input.pos)
      ensures
        var r := ReadPacked(old(input.Rest()));
        && ok == r.0 && (ok ==> input.pos == input.limit)
        && value == old(value)[i := List(old(lists)[i] + r.1)]
    {
      ghost var m, had := value, lists[i];
      ghost var got: seq<uint32> := [];
      ViewToAt(desc, hasBits, nums, lists, |nums|, i);
      assert had + got == had && m[i := List(had)] == m;
      ReadPackedAfter(got, input.Rest());
      while input.pos < input.limit
        invariant Valid() && input.Valid()
        invariant lists[i] == had + got && value == m[i := List(had + got)]
        invariant ReadAfter(got, input.Rest()) == ReadPacked(old(input.Rest()))
        decreases input.limit - input.pos
      {
        ReadPackedAfter(got, input.Rest());
        var x;
        ok, x := input.ReadVarint32();
        if !ok {
          return;
        }
        AddAll(i, [x]);
        assert had + got + [x] == had + (got + [x]);
        got := got + [x];
      }
      ReadPackedAfter(got, input.Rest());
      ok := true;
    }

    /**
     The generated parser: the switch on a tag read with a cutoff, and after each case a jump to the
     next one when its tag follows. On every input it ends as the plain loop does.
     */
    method MergePartialFromCodedStream(input: CodedInputStream) returns (ok: bool)
      requires TableOk() && Valid() && input.Valid()
      modifies this`hasBits, this`nums, this`lists, this`value, input
      ensures Valid() && input.Valid()
      ensures ok ==> input.limit == old(input.limit) && input.pos >= old(input.pos)
      ensures
        var o := Parse(desc, input.lib, old(input.Rest()), old(value));
        && ok == o.ok && value == o.m
        && (ok ==> input.legitimateEnd == o.legit)
        && (ok && o.legit ==> input.pos == input.limit)
    {
      var done := false;
      ok := true;
      while ok && !done
        invariant Valid() && input.Valid()
        invariant ok ==> input.limit == old(input.limit) && input.pos >= old(input.pos)
        invariant
          var goal := Parse(desc, input.lib, old(input.Rest()), old(value));
          if !ok then goal == Outcome(false, false, value)
          else if done then
            goal == Outcome(true, input.legitimateEnd, value) && (goal.legit ==> input.pos == input.limit)
          else Parse(desc, input.lib, input.Rest(), value) == goal
        decreases !done, ok, input.limit - input.pos
      {
        ok, done := Round(input);
      }
    }

    /** One turn of the outer loop: a tag, its case, and every case whose tag follows. */
    method Round(input: CodedInputStream) returns (ok: bool, done: bool)
      requires TableOk() && Valid() && input.Valid()
      modifies this`hasBits, this`nums, this`lists, this`value, input
      ensures Valid() && input.Valid()
      ensures ok ==> input.limit == old(input.limit) && input.pos >= old(input.pos)
      ensures ok && !done ==> input.pos > old(input.pos)
      ensures
        var goal := Parse(desc, input.lib, old(input.Rest()), old(value));
        if !ok then goal == Outcome(false, false, value)
        else if done then
          goal == Outcome(true, input.legitimateEnd, value) && (goal.legit ==> input.pos == input.limit)
        else Parse(desc, input.lib, input.Rest(), value) == goal
    {
      done := false;
      var tag, known := input.ReadTagWithCutoff(desc.cutoff);
      SwitchIsDispatch(desc, tag, known);
      var at := Switch(desc, tag, known);
      if at.Unusual? && (tag == 0 || tag % 8 == END_GROUP) {
        return true, true;
      }
      DispatchIsPlain(desc, tag);
      ok := TakeField(at, tag, input);
      if ok && !at.Unusual? {
        ok, done := FollowTags(at.i, input);
      }
    }

    /** What the switch does with one tag: a case, the library's unpacked read, or a skip. */
    method TakeField(at: Action, tag: uint32, input: CodedInputStream) returns (ok: bool)
      requires Valid() && input.Valid() && at == Dispatch(desc, tag, 0)
      modifies this`hasBits, this`nums, this`lists, this`value, input
      ensures Valid() && input.Valid()
      ensures ok ==> input.limit == old(input.limit) && input.pos >= old(input.pos)
      ensures
        var r := Step(desc, input.lib, tag, old(input.Rest()), old(value));
        ok == r.0 && value == r.1 && (ok ==> input.Rest() == r.2)
    {
      match at {
        case Field(i) => ok := ReadField(i, input);
        case UnpackedField(i) => ok := ReadUnpacked(i, tag, input);
        case Unusual => ok := input.SkipField(tag);
      }
    }

    /** The `goto` chain: from the end of case i through every case whose tag comes next. */
    method FollowTags(i: nat, input: CodedInputStream) returns (ok: bool, done: bool)
      requires TableOk() && Valid() && input.Valid() && i < |nums|
      modifies this`hasBits, this`nums, this`lists, this`value, input
      ensures Valid() && input.Valid() && (ok ==> input.limit == old(input.limit))
      ensures ok && !done ==>
        && input.pos >= old(input.pos)
        && Parse(desc, input.lib, input.Rest(), value) == Parse(desc, input.lib, old(input.Rest()), old(value))
      ensures ok && done ==>
        && input.legitimateEnd && input.pos == input.limit
        && Parse(desc, input.lib, old(input.Rest()), old(value)) == Outcome(true, true, value)
      ensures !ok ==> Parse(desc, input.lib, old(input.Rest()), old(value)) == Outcome(false, false, value)
    {
      ghost var goal := Parse(desc, input.lib, input.Rest(), value);
      var k := i;
      while true
        invariant k < |nums|
        invariant Valid() && input.Valid() && input.limit == old(input.limit) && input.pos >= old(input.pos)
        invariant Parse(desc, input.lib, input.Rest(), value) == goal
        decreases |nums| - k
      {
        assert CaseOk(desc, k);
        if desc.cases[k].next == 0 {
          done := input.ExpectAtEnd();
          return true, done;
        }
        var found;
        k := k + 1;
        found, ok := JumpTo(k, input);
        if !found || !ok {
          return ok, false;
        }
      }
    }

    /** `if (input->ExpectTag(t)) goto parse_x;` and the case under that label. */
    method JumpTo(k: nat, input: CodedInputStream) returns (found: bool, ok: bool)
      requires TableOk() && Valid() && input.Valid() && k < |nums|
      modifies this`hasBits, this`nums, this`lists, this`value, input
      ensures Valid() && input.Valid()
      ensures ok ==> input.limit == old(input.limit) && input.pos >= old(input.pos)
      ensures !found ==> ok
      ensures
        var was := Parse(desc, input.lib, old(input.Rest()), old(value));
        if ok then Parse(desc, input.lib, input.Rest(), value) == was
        else was == Outcome(false, false, value)
    {
      CodecTheorems.TagIsPlain(desc, k);
      ok := true;
      ghost var rest := input.Rest();
      found := input.ExpectTag(desc.cases[k].tag);
      if found {
        assert rest == Varint(desc.cases[k].tag) + input.Rest();
        CodecTheorems.ParseAtTag(desc, input.lib, k, input.Rest(), value);
        ok := ReadField(k, input);
      }
    }

    /** A list field under its unpacked tag, left to the library. */
    method ReadUnpacked(i: nat, tag: nat, input: CodedInputStream) returns (ok: bool)
      requires Valid() && input.Valid() && i < |nums| && desc.cases[i].kind.Packed?
      modifies this`lists, this`value, input`pos
      ensures Valid() && input.Valid() && input.pos >= old(input.pos)
      ensures old(value)[i] == List(old(lists)[i])
      ensures
        match input.lib.Unpacked(tag, old(input.Rest()))
        case None => !ok && value == old(value)
        case Some(p) =>
          && ok && value == old(value)[i := List(old(lists)[i] + p.0)]
          && input.Rest() == old(input.Rest())[p.1..]
    {
      ViewToAt(desc, hasBits, nums, lists, |nums|, i);
      var xs;
      ok, xs := input.ReadUnpacked(tag);
      if ok {
        AddAll(i, xs);
      }
    }

    method IsInitialized() returns (b: bool)
      requires TableOk() && Valid()
      ensures b <==> Initialized(desc, value)
    {
      ViewAt(desc, hasBits, nums, lists);
      b := hasBits * desc.required == desc.required;
      assert b <==> forall i | i in desc.required :: i in hasBits * desc.required;
    }
  }

  /** The bytes of a list field: none when empty, else tag, length and elements. */
  function PackedFieldSize(tag: nat, xs: seq<uint32>): nat
    requires tag < 0x4000 && |Wire.Packed(xs)| <= INT_MAX
  {
    if xs == [] then 0 else VarintSize(tag) + VarintSize(|Wire.Packed(xs)|) + |Wire.Packed(xs)|
  }

  /** One list's block; its test `data_size > 0` agrees with the serializers' `x_size() > 0`. */
  method SizeOfList(tag: nat, xs: seq<uint32>) returns (size: int32, dataSize: int32)
    requires tag < 0x4000 && |Wire.Packed(xs)| <= INT_MAX && PackedFieldSize(tag, xs) <= INT_MAX
    ensures size == PackedFieldSize(tag, xs) && dataSize == |Wire.Packed(xs)|
  {
    size, dataSize := 0, 0;
    for i := 0 to |xs|
      invariant dataSize == |Wire.Packed(xs[..i])|
    {
      PackedPrefix(xs, i);
      dataSize := dataSize + VarintSize(xs[i]);
    }
    assert xs[..|xs|] == xs;
    PackedEmpty(xs);
    if dataSize > 0 {
      size := size + VarintSize(tag) + VarintSize(dataSize);
    }
    size := size + dataSize;
  }

  method WriteScalar(tag: nat, value: uint32, target: ArrayTarget)
    requires tag < 0x4000 && target.Valid() && target.Room() >= VarintSize(tag) + VarintSize(value)
    modifies target, target.data
    ensures target.Valid() && target.Bytes() == old(target.Bytes()) + (Varint(tag) + Varint(value))
  {
    VarintSizeIsLength(tag);
    target.WriteVarint32(tag);
    target.WriteVarint32(value);
  }

  method WriteList(tag: nat, xs: seq<uint32>, size: int32, target: ArrayTarget)
    requires tag < 0x4000 && size == |Wire.Packed(xs)|
    requires target.Valid() && target.Room() >= PackedFieldSize(tag, xs)
    modifies target, target.data
    ensures target.Valid()
    ensures
      target.Bytes() == old(target.Bytes())
      + if xs == [] then [] else Varint(tag) + Varint(|Wire.Packed(xs)|) + Wire.Packed(xs)
  {
    PackedEmpty(xs);
    ghost var room := target.Room();
    if |xs| > 0 {
      VarintSizeIsLength(tag);
      VarintSizeIsLength(size);
      WriteScalar(tag, size, target);
    }
    ghost var head := target.Bytes();
    for i := 0 to |xs|
      invariant target.Valid() && target.Room() + |Wire.Packed(xs[..i])| >= size
      invariant target.Bytes() == head + Wire.Packed(xs[..i])
    {
      PackedPrefix(xs, i);
      VarintSizeIsLength(xs[i]);
      target.WriteVarint32(xs[i]);
      assert head + Wire.Packed(xs[..i]) + Varint(xs[i]) == head + (Wire.Packed(xs[..i]) + Varint(xs[i]));
    }
    assert xs[..|xs|] == xs;
  }
}
