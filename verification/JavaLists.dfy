/**
 The list references that Java messages and builders hold, and who may write the array lists
 behind them.
 */
module JavaLists {
  import opened Wire
  import opened Schema
  import opened LeafMessage
  import opened JavaTables

  // ----- Lists ----------------------------------------------------------------------------------

  /** `owner` is the one object that may still write, null once the list is only seen through views. */
  class ArrayList {
    var elems: seq<uint32>
    ghost var owner: object?
    ghost var slot: nat

    constructor (xs: seq<uint32>, ghost owner: object, ghost slot: nat)
      ensures elems == xs && this.owner == owner && this.slot == slot
    {
      elems := xs;
      this.owner := owner;
      this.slot := slot;
    }

    method Add(x: uint32)
      requires owner != null
      modifies this`elems
      ensures elems == old(elems) + [x]
    {
      elems := elems + [x];
    }

    method AddAll(ys: seq<uint32>)
      requires owner != null
      modifies this`elems
      ensures elems == old(elems) + ys
    {
      elems := elems + ys;
    }

    method Set(k: nat, x: uint32)
      requires owner != null && k < |elems|
      modifies this`elems
      ensures elems == old(elems)[k := x]
    {
      var xs: seq<uint32> := elems;
      elems := xs[k := x];
    }
  }

  /** emptyList(), an ArrayList, or unmodifiableList() of one. */
  datatype ListRef = EmptyList | Mutable(a: ArrayList) | Unmodifiable(a: ArrayList) {
    function Elems(): seq<uint32>
      reads if EmptyList? then {} else {a}
    {
      if EmptyList? then [] else a.elems
    }
  }

  ghost function Backing(refs: seq<ListRef>): set<ArrayList> {
    set r | r in refs && !r.EmptyList? :: r.a
  }

  ghost function Owned(refs: seq<ListRef>): set<ArrayList> {
    set r | r in refs && r.Mutable? :: r.a
  }

  /** A mutable list is this owner's alone; a view's list has no writer left. */
  ghost predicate SlotOk(d: Desc, i: nat, r: ListRef, xs: seq<uint32>, owner: object, mutable: bool)
    requires i < |d.cases|
    reads if r.EmptyList? then {} else {r.a}
  {
    && (r.Mutable? <==> mutable && d.cases[i].kind.Packed?)
    && match r
      case EmptyList => xs == []
      case Mutable(a) => a.owner == owner && a.slot == i && a.elems == xs
      case Unmodifiable(a) => d.cases[i].kind.Packed? && a.owner == null && a.elems == xs
  }

  /** The reference of field i is mutable exactly if i is in `mutable`. */
  ghost predicate RefsOk(d: Desc, refs: seq<ListRef>, xs: seq<seq<uint32>>, owner: object, mutable: set<nat>)
    reads Backing(refs)
  {
    && |refs| == |xs| == |d.cases|
    && forall i | 0 <= i < |refs| :: SlotOk(d, i, refs[i], xs[i], owner, i in mutable)
  }

  lemma SameMutable(d: Desc, refs: seq<ListRef>, xs: seq<seq<uint32>>, owner: object,
                    mutable: set<nat>, mutable': set<nat>)
    requires RefsOk(d, refs, xs, owner, mutable)
    requires forall j | 0 <= j < |refs| && d.cases[j].kind.Packed? :: j in mutable <==> j in mutable'
    ensures RefsOk(d, refs, xs, owner, mutable')
  {
    forall j | 0 <= j < |refs| ensures SlotOk(d, j, refs[j], xs[j], owner, j in mutable') {
      assert SlotOk(d, j, refs[j], xs[j], owner, j in mutable);
    }
  }

  /** Another reference for field i, with no array list changed. */
  lemma SlotReplaced(d: Desc, refs: seq<ListRef>, xs: seq<seq<uint32>>, owner: object, mutable: set<nat>,
                     i: nat, r: ListRef, ys: seq<uint32>, mutable': set<nat>)
    requires RefsOk(d, refs, xs, owner, mutable) && i < |refs| && SlotOk(d, i, r, ys, owner, i in mutable')
    requires forall j | 0 <= j < |refs| && j != i :: j in mutable <==> j in mutable'
    ensures RefsOk(d, refs[i := r], xs[i := ys], owner, mutable')
  {
    forall j | 0 <= j < |refs| && j != i ensures SlotOk(d, j, refs[j], xs[j], owner, j in mutable') {
      assert SlotOk(d, j, refs[j], xs[j], owner, j in mutable);
    }
  }

  /** The list references of one object, and the field whose list an operation touches. */
  datatype Slots = Slots(d: Desc, refs: seq<ListRef>, xs: seq<seq<uint32>>, owner: object, mutable: set<nat>, i: nat)

  /** Field i owns its ArrayList, which changed; nothing else did. */
  twostate predicate OnlyList(s: Slots)
    reads Backing(s.refs)
  {
    && s.i < |s.refs| && s.refs[s.i].Mutable?
    && old(RefsOk(s.d, s.refs, s.xs, s.owner, s.mutable))
    && forall a: ArrayList | a in Backing(s.refs) && a != s.refs[s.i].a :: unchanged(a)
  }

  twostate lemma OthersKept(s: Slots)
    requires OnlyList(s)
    ensures |s.refs| == |s.xs| == |s.d.cases|
    ensures forall j | 0 <= j < |s.refs| && j != s.i :: SlotOk(s.d, j, s.refs[j], s.xs[j], s.owner, j in s.mutable)
    ensures s.d.cases[s.i].kind.Packed? && s.i in s.mutable
  {
    var i := s.i;
    assert old(SlotOk(s.d, i, s.refs[i], s.xs[i], s.owner, i in s.mutable));
    forall j | 0 <= j < |s.refs| && j != i ensures SlotOk(s.d, j, s.refs[j], s.xs[j], s.owner, j in s.mutable) {
      assert old(SlotOk(s.d, j, s.refs[j], s.xs[j], s.owner, j in s.mutable));
      assert s.refs[j] in s.refs;
      assert !s.refs[j].EmptyList? ==> s.refs[j].a in Backing(s.refs);
    }
  }

  twostate lemma ListChanged(s: Slots)
    requires OnlyList(s) && s.refs[s.i].a.owner == s.owner && s.refs[s.i].a.slot == s.i
    ensures RefsOk(s.d, s.refs, s.xs[s.i := s.refs[s.i].a.elems], s.owner, s.mutable)
  {
    OthersKept(s);
    assert SlotOk(s.d, s.i, s.refs[s.i], s.refs[s.i].a.elems, s.owner, true);
  }

  /** unmodifiableList(): the last writer is gone, the elements stay. */
  twostate lemma ListFrozen(s: Slots)
    requires OnlyList(s) && s.refs[s.i].a.owner == null && s.refs[s.i].a.elems == old(s.refs[s.i].a.elems)
    ensures RefsOk(s.d, s.refs[s.i := Unmodifiable(s.refs[s.i].a)], s.xs, s.owner, s.mutable - {s.i})
  {
    OthersKept(s);
    assert old(SlotOk(s.d, s.i, s.refs[s.i], s.xs[s.i], s.owner, true));
    assert SlotOk(s.d, s.i, Unmodifiable(s.refs[s.i].a), s.xs[s.i], s.owner, false);
  }

  lemma OwnedUpdate(refs: seq<ListRef>, i: nat, r: ListRef)
    requires i < |refs|
    ensures forall a | a in Owned(refs[i := r]) :: a in Owned(refs) || (r.Mutable? && a == r.a)
  {
    forall x | x in refs[i := r] && x.Mutable? ensures x in refs || x == r {
      var k :| 0 <= k < |refs| && refs[i := r][k] == x;
      assert k != i ==> refs[k] == x;
    }
  }

  lemma PlainTyped(d: Desc, has: set<nat>, nums: seq<uint32>, xs: seq<seq<uint32>>)
    requires Plain(d) && |nums| == |xs| == |d.cases|
    ensures Typed(d, View(d, has, nums, xs))
  {
    ViewAt(d, has, nums, xs);
  }

  /** The bit of a list does not show. */
  lemma ViewOfListBit(d: Desc, has: set<nat>, nums: seq<uint32>, xs: seq<seq<uint32>>, i: nat)
    requires |nums| == |xs| == |d.cases| && i < |nums| && d.cases[i].kind.Packed?
    ensures View(d, has + {i}, nums, xs) == View(d, has, nums, xs) == View(d, has - {i}, nums, xs)
  {
    ViewAt(d, has, nums, xs);
    ViewAt(d, has + {i}, nums, xs);
    ViewAt(d, has - {i}, nums, xs);
  }

  /** Without mutable lists the owner does not matter. */
  lemma NobodyWrites(d: Desc, refs: seq<ListRef>, xs: seq<seq<uint32>>, owner: object, owner': object)
    requires RefsOk(d, refs, xs, owner, {})
    ensures RefsOk(d, refs, xs, owner', {})
  {
    forall j | 0 <= j < |refs| ensures SlotOk(d, j, refs[j], xs[j], owner', false) {
      assert SlotOk(d, j, refs[j], xs[j], owner, false);
    }
  }
}
