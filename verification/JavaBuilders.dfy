/**
 The builder of a Java message class: it copies a list before writing it unless it owns the list
 alone, and shares lists with the messages it builds and merges.
 */
module JavaBuilders {
  import opened Wrappers
  import opened Wire
  import opened Schema
  import opened LeafMessage
  import opened JavaTables
  import opened JavaCodec
  import opened JavaLists
  import opened JavaMessages

  class Builder {
    const table: JavaTable
    const desc: Desc
    var bitField0: set<nat>
    var nums: seq<uint32>
    var refs: seq<ListRef>

    /** What the lists hold and what the getters show. */
    ghost var xs: seq<seq<uint32>>
    ghost var value: Message

    ghost predicate TableOk() {
      desc == DescOf(table) && JavaTables.TableOk(table)
    }

    ghost predicate Shapes()
      reads this
    {
      && Plain(desc) && |nums| == |refs| == |xs| == |desc.cases|
      && (forall i | i in bitField0 :: i < |nums|)
      && (forall i | 0 <= i < |nums| && nums[i] != 0 :: i in bitField0 && !desc.cases[i].kind.Packed?)
      && value == View(desc, bitField0, nums, xs) && Typed(desc, value)
    }

    /** A list's bit is set exactly when the builder alone owns the ArrayList behind it. */
    ghost predicate Valid()
      reads this, Backing(refs)
    {
      Shapes() && RefsOk(desc, refs, xs, this, bitField0)
    }

    /** Lists written later are those owned before or new ones. */
    twostate predicate OwnedGrown()
      reads this
    {
      forall a: ArrayList | a in Owned(refs) :: a in old(Owned(refs)) || fresh(a)
    }

    constructor (table: JavaTable)
      requires JavaTables.TableOk(table)
      ensures this.table == table && TableOk() && Valid() && value == Empty(desc) && Owned(refs) == {}
    {
      this.table := table;
      desc := DescOf(table);
      bitField0 := {};
      nums := seq(|table.cases|, _ => 0);
      refs := seq(|table.cases|, _ => EmptyList);
      xs := seq(|table.cases|, _ => []);
      value := Empty(DescOf(table));
      new;
      DescOfWellFormed(table);
      ViewAt(desc, bitField0, nums, xs);
      EmptyTyped(desc);
    }

    method SetScalar(i: nat, n: uint32)
      requires Valid() && i < |nums| && !desc.cases[i].kind.Packed?
      modifies this`bitField0, this`nums, this`value
      ensures Valid() && value == old(value)[i := Num(Some(n))]
    {
      ViewOfSet(desc, bitField0, nums, xs, i, n);
      SameMutable(desc, refs, xs, this, bitField0, bitField0 + {i});
      bitField0 := bitField0 + {i};
      nums := nums[i := n];
      value := value[i := Num(Some(n))];
      PlainTyped(desc, bitField0, nums, xs);
    }

    method ClearScalar(i: nat)
      requires Valid() && i < |nums| && !desc.cases[i].kind.Packed?
      modifies this`bitField0, this`nums, this`value
      ensures Valid() && value == old(value)[i := Num(None)]
      ensures nums == old(nums)[i := 0] && bitField0 == old(bitField0) - {i}
    {
      ViewOfSet(desc, bitField0, nums, xs, i, 0);
      SameMutable(desc, refs, xs, this, bitField0, bitField0 - {i});
      bitField0 := bitField0 - {i};
      nums := nums[i := 0];
      value := value[i := Num(None)];
      PlainTyped(desc, bitField0, nums, xs);
    }

    /** ensureXIsMutable(): a private copy unless the builder already owns one. */
    method EnsureMutable(i: nat)
      requires Valid() && i < |nums| && desc.cases[i].kind.Packed?
      modifies this`bitField0, this`refs
      ensures Valid() && refs == old(refs)[i := refs[i]] && i in bitField0
      ensures refs[i].Mutable? && (refs[i] == old(refs)[i] || fresh(refs[i].a))
    {
      assert SlotOk(desc, i, refs[i], xs[i], this, i in bitField0);
      if i !in bitField0 {
        var a := new ArrayList(refs[i].Elems(), this, i);
        assert SlotOk(desc, i, Mutable(a), xs[i], this, true);
        Adopt(i, a);
      }
    }

    method Adopt(i: nat, a: ArrayList)
      requires Valid() && i < |nums| && desc.cases[i].kind.Packed?
      requires SlotOk(desc, i, Mutable(a), xs[i], this, true)
      modifies this`bitField0, this`refs
      ensures Valid() && refs == old(refs)[i := Mutable(a)] && i in bitField0
    {
      ViewOfListBit(desc, bitField0, nums, xs, i);
      assert xs[i := xs[i]] == xs;
      SlotReplaced(desc, refs, xs, this, bitField0, i, Mutable(a), xs[i], bitField0 + {i});
      bitField0 := bitField0 + {i};
      refs := refs[i := Mutable(a)];
    }

    /** What the ArrayList of field i holds now is what the getters show. */
    twostate lemma Note(i: nat)
      requires unchanged(this) && old(Shapes()) && OnlyList(Slots(desc, refs, xs, this, bitField0, i))
      requires refs[i].a.owner == this && refs[i].a.slot == i
      ensures
        var ys := refs[i].a.elems;
        && RefsOk(desc, refs, xs[i := ys], this, bitField0)
        && View(desc, bitField0, nums, xs[i := ys]) == value[i := List(ys)]
        && Typed(desc, value[i := List(ys)])
    {
      var s := Slots(desc, refs, xs, this, bitField0, i);
      OthersKept(s);
      ListChanged(s);
      ViewOfList(desc, bitField0, nums, xs, i, refs[i].a.elems);
      PlainTyped(desc, bitField0, nums, xs[i := refs[i].a.elems]);
    }

    method Add(i: nat, x: uint32)
      requires Valid() && i < |nums| && desc.cases[i].kind.Packed?
      modifies this, Owned(refs)
      ensures Valid() && value == old(value)[i := List(old(xs)[i] + [x])] && OwnedGrown()
    {
      EnsureMutable(i);
      AddOwned(i, x);
    }

    method AddOwned(i: nat, x: uint32)
      requires Valid() && i < |nums| && refs[i].Mutable?
      modifies this`xs, this`value, refs[i].a
      ensures Valid() && value == old(value)[i := List(old(xs)[i] + [x])]
    {
      label Mine:
      assert SlotOk(desc, i, refs[i], xs[i], this, i in bitField0);
      refs[i].a.Add(x);
      Note@Mine(i);
      xs := xs[i := refs[i].a.elems];
      value := value[i := List(xs[i])];
    }

    method AddAll(i: nat, ys: seq<uint32>)
      requires Valid() && i < |nums| && desc.cases[i].kind.Packed?
      modifies this, Owned(refs)
      ensures Valid() && value == old(value)[i := List(old(xs)[i] + ys)] && OwnedGrown()
    {
      EnsureMutable(i);
      AddAllOwned(i, ys);
    }

    method AddAllOwned(i: nat, ys: seq<uint32>)
      requires Valid() && i < |nums| && refs[i].Mutable?
      modifies this`xs, this`value, refs[i].a
      ensures Valid() && value == old(value)[i := List(old(xs)[i] + ys)]
    {
      label Mine:
      assert SlotOk(desc, i, refs[i], xs[i], this, i in bitField0);
      refs[i].a.AddAll(ys);
      Note@Mine(i);
      xs := xs[i := refs[i].a.elems];
      value := value[i := List(xs[i])];
    }

    /** An index out of range throws, after the copy. */
    method SetElement(i: nat, k: nat, x: uint32) returns (ok: bool)
      requires Valid() && i < |nums| && desc.cases[i].kind.Packed?
      modifies this, Owned(refs)
      ensures Valid() && OwnedGrown() && ok == (k < |old(xs)[i]|)
      ensures value == if ok then old(value)[i := List(old(xs)[i][k := x])] else old(value)
    {
      EnsureMutable(i);
      assert SlotOk(desc, i, refs[i], xs[i], this, true);
      ok := k < |refs[i].a.elems|;
      if ok {
        SetOwned(i, k, x);
      }
    }

    method SetOwned(i: nat, k: nat, x: uint32)
      requires Valid() && i < |nums| && refs[i].Mutable? && k < |xs[i]|
      modifies this`xs, this`value, refs[i].a
      ensures Valid() && value == old(value)[i := List(old(xs)[i][k := x])]
    {
      label Mine:
      assert SlotOk(desc, i, refs[i], xs[i], this, i in bitField0);
      refs[i].a.Set(k, x);
      Note@Mine(i);
      xs := xs[i := refs[i].a.elems];
      value := value[i := List(xs[i])];
    }

    method ClearList(i: nat)
      requires Valid() && i < |nums| && desc.cases[i].kind.Packed?
      modifies this`bitField0, this`refs, this`xs, this`value
      ensures Valid() && value == old(value)[i := List([])] && OwnedGrown()
      ensures refs == old(refs)[i := EmptyList] && bitField0 == old(bitField0) - {i}
    {
      OwnedUpdate(refs, i, EmptyList);
      SlotReplaced(desc, refs, xs, this, bitField0, i, EmptyList, [], bitField0 - {i});
      ViewOfListBit(desc, bitField0, nums, xs, i);
      ViewOfList(desc, bitField0 - {i}, nums, xs, i, []);
      refs := refs[i := EmptyList];
      bitField0 := bitField0 - {i};
      xs := xs[i := []];
      value := value[i := List([])];
      PlainTyped(desc, bitField0, nums, xs);
    }

    /** clear(): every field back to its default, lists to the shared empty one. */
    method Clear()
      requires Valid()
      modifies this`bitField0, this`nums, this`refs, this`xs, this`value
      ensures Valid() && value == Empty(desc) && OwnedGrown()
      ensures bitField0 == {} && forall i | 0 <= i < |nums| :: nums[i] == 0 && refs[i] == EmptyList
    {
      for i := 0 to |nums|
        invariant Valid() && OwnedGrown()
        invariant forall j | 0 <= j < i ::
          j !in bitField0 && nums[j] == 0 && refs[j] == EmptyList && value[j] == EmptyVal(desc.cases[j].kind)
      {
        if desc.cases[i].kind.Packed? {
          ClearList(i);
        } else {
          ClearScalar(i);
        }
      }
    }

    // ----- Merging and building ---------------------------------------------------------------------

    /** What nobody writes stays. */
    twostate lemma StillValid()
      requires old(Valid()) && unchanged(this) && forall a: ArrayList | a in Backing(refs) :: unchanged(a)
      ensures Valid()
    {
      forall j | 0 <= j < |refs| ensures SlotOk(desc, j, refs[j], xs[j], this, j in bitField0) {
        assert old(SlotOk(desc, j, refs[j], xs[j], this, j in bitField0));
        assert refs[j] in refs;
        assert !refs[j].EmptyList? ==> refs[j].a in Backing(refs);
      }
    }

    /** The same when no list at all is written. */
    twostate lemma NothingWritten()
      requires old(Valid()) && unchanged(this)
      requires forall a: ArrayList | a in Backing(refs) && old(allocated(a)) :: unchanged(a)
      ensures Valid()
    {
      forall j | 0 <= j < |refs| ensures SlotOk(desc, j, refs[j], xs[j], this, j in bitField0) {
        assert old(SlotOk(desc, j, refs[j], xs[j], this, j in bitField0));
        assert refs[j] in refs;
        assert !refs[j].EmptyList? ==> refs[j].a in Backing(refs);
      }
    }

    /** A list behind any of the references is this builder's or nobody's. */
    lemma MineOrNobodys()
      requires Valid()
      ensures forall a | a in Backing(refs) :: a.owner == this || a.owner == null
    {
      forall a | a in Backing(refs) ensures a.owner == this || a.owner == null {
        var r :| r in refs && !r.EmptyList? && r.a == a;
        var k :| 0 <= k < |refs| && refs[k] == r;
        assert SlotOk(desc, k, refs[k], xs[k], this, k in bitField0);
      }
    }

    lemma OwnedIsMine()
      requires Valid()
      ensures forall a | a in Owned(refs) :: a.owner == this
    {
      forall a | a in Owned(refs) ensures a.owner == this {
        var r :| r in refs && r.Mutable? && r.a == a;
        var k :| 0 <= k < |refs| && refs[k] == r;
        assert SlotOk(desc, k, refs[k], xs[k], this, k in bitField0);
      }
    }

    /** The lists this builder may write are not those of a finished message. */
    lemma ListsApart(m: JavaMessage)
      requires Valid() && m.Valid()
      ensures Owned(refs) !! Backing(m.refs)
    {
      OwnedIsMine();
      m.NobodyOwns();
    }

    /** Present scalars overwrite; a list is shared if this builder's is empty, and else appended. */
    method MergeFrom(other: JavaMessage)
      requires TableOk() && Valid() && other.TableOk() && other.Valid() && other.table == table
      modifies this, Owned(refs)
      ensures Valid() && OwnedGrown() && other.Valid() && other.value == old(other.value)
      ensures value == Merge(desc, old(value), other.value)
    {
      ghost var a, b := value, other.value;
      for i := 0 to |nums|
        invariant Valid() && OwnedGrown() && other.Valid() && other.value == b
        invariant value == MergeHead(desc, a, b, i)
      {
        MergeField(i, other);
        MergeHeadStep(desc, a, b, i);
      }
      assert value == Merge(desc, a, b);
    }

    /**
     mergeFrom(CodedInputStream): whatever the parser read is merged, also when it throws. Exactly a
     parse that stops at the unreadable first value of a scalar sets that scalar to 0.
     */
    method MergeFromStream(bytes: seq<byte>, skip: (nat, seq<byte>) -> Option<nat>, hashes: (uint32, uint32))
      requires TableOk() && Valid()
      modifies this, Owned(refs)
      ensures Valid() && OwnedGrown() && Typed(desc, Empty(desc))
      ensures
        var o := Parse(desc, JavaLibrary(skip), bytes, Empty(desc));
        value == Unfinished(Merge(desc, old(value), o.m), CutAt(desc, JavaLibrary(skip), bytes, Empty(desc)))
    {
      DescOfWellFormed(table);
      StreamMerge(desc, skip, bytes, value);
      var parsed := ParseStream(bytes, skip, hashes);
      MergeFrom(parsed);
    }

    method ParseStream(bytes: seq<byte>, skip: (nat, seq<byte>) -> Option<nat>, hashes: (uint32, uint32))
      returns (m: JavaMessage)
      requires TableOk() && Valid()
      ensures Valid() && fresh(m) && m.TableOk() && m.Valid() && m.table == table && Typed(desc, Empty(desc))
      ensures m.value == JavaParse(desc, JavaLibrary(skip), bytes, Empty(desc)).1
    {
      var ok;
      ok, m := ParsePartialFrom(table, hashes.0, hashes.1, bytes, skip);
      NothingWritten();
    }

    method MergeField(i: nat, other: JavaMessage)
      requires TableOk() && Valid() && other.TableOk() && other.Valid() && other.table == table && i < |nums|
      modifies this, Owned(refs)
      ensures Valid() && OwnedGrown() && other.Valid() && other.value == old(other.value)
      ensures value == MergeOne(desc, old(value), other.value, i)
    {
      other.FieldShape(i);
      ListsApart(other);
      match table.cases[i] {
        case Scalar(_, _) =>
          MergeScalar(i, other);
        case Repeated(_, _) =>
          MergeOfLists(desc, value, other.value, i, xs[i], other.xs[i]);
          ViewToAt(desc, bitField0, nums, xs, |nums|, i);
          MergeList(i, other);
      }
    }

    method MergeScalar(i: nat, other: JavaMessage)
      requires Valid() && other.TableOk() && other.Valid() && other.desc == desc && i < |nums|
      requires other.table.cases[i].Scalar? && !desc.cases[i].kind.Packed?
      modifies this`bitField0, this`nums, this`value
      ensures Valid() && other.Valid() && refs == old(refs) && other.value == old(other.value)
      ensures value == MergeOne(desc, old(value), other.value, i)
    {
      other.FieldShape(i);
      MergeOneAbsent(desc, value, other.value, i);
      if other.Has(i) {
        SetScalar(i, other.nums[i]);
        other.StillValid();
      }
    }

    method MergeList(i: nat, other: JavaMessage)
      requires TableOk() && Valid() && other.TableOk() && other.Valid() && other.table == table && i < |nums|
      requires desc.cases[i].kind.Packed? && Owned(refs) !! Backing(other.refs)
      modifies this, Owned(refs)
      ensures Valid() && OwnedGrown() && other.Valid() && other.value == old(other.value)
      ensures value == old(value)[i := List(old(xs)[i] + other.xs[i])]
    {
      ViewToAt(desc, bitField0, nums, xs, |nums|, i);
      assert xs[i] + [] == xs[i] && value[i := List(xs[i])] == value && [] + other.xs[i] == other.xs[i];
      assert SlotOk(desc, i, refs[i], xs[i], this, i in bitField0);
      assert SlotOk(desc, i, other.refs[i], other.xs[i], other, false);
      if other.refs[i].Elems() != [] {
        if refs[i].Elems() == [] {
          ShareList(i, other);
        } else {
          AppendList(i, other);
        }
      }
    }

    method ShareList(i: nat, other: JavaMessage)
      requires Valid() && other.Valid() && i < |nums| && i < |other.refs| && desc.cases[i].kind.Packed?
      requires SlotOk(desc, i, other.refs[i], other.xs[i], this, false)
      modifies this`bitField0, this`refs, this`xs, this`value
      ensures Valid() && OwnedGrown() && other.Valid() && value == old(value)[i := List(other.xs[i])]
    {
      Share(i, other.refs[i], other.xs[i]);
      other.StillValid();
    }

    method AppendList(i: nat, other: JavaMessage)
      requires Valid() && other.Valid() && i < |nums| && i < |other.refs| && desc.cases[i].kind.Packed?
      requires Owned(refs) !! Backing(other.refs) && other.refs[i].Elems() == other.xs[i]
      modifies this, Owned(refs)
      ensures Valid() && OwnedGrown() && other.Valid()
      ensures value == old(value)[i := List(old(xs)[i] + other.xs[i])]
    {
      AddAll(i, other.refs[i].Elems());
      other.StillValid();
    }

    /** The builder takes over a reference to a view. */
    method Share(i: nat, r: ListRef, ghost ys: seq<uint32>)
      requires Valid() && i < |nums| && desc.cases[i].kind.Packed? && SlotOk(desc, i, r, ys, this, false)
      modifies this`bitField0, this`refs, this`xs, this`value
      ensures Valid() && OwnedGrown() && value == old(value)[i := List(ys)]
    {
      OwnedUpdate(refs, i, r);
      SlotReplaced(desc, refs, xs, this, bitField0, i, r, ys, bitField0 - {i});
      ViewOfListBit(desc, bitField0, nums, xs, i);
      ViewOfList(desc, bitField0 - {i}, nums, xs, i, ys);
      refs := refs[i := r];
      bitField0 := bitField0 - {i};
      xs := xs[i := ys];
      value := value[i := List(ys)];
      PlainTyped(desc, bitField0, nums, xs);
    }

    /** unmodifiableList() around an owned list, whose bit is cleared. */
    method FreezeList(i: nat)
      requires Valid() && i < |nums| && refs[i].Mutable?
      modifies this`refs, this`bitField0, Owned(refs)
      ensures Valid() && value == old(value) && refs == old(refs)[i := Unmodifiable(old(refs)[i].a)]
      ensures bitField0 == old(bitField0) - {i}
    {
      label Before:
      assert SlotOk(desc, i, refs[i], xs[i], this, i in bitField0);
      refs[i].a.owner := null;
      ListFrozen@Before(Slots(desc, refs, xs, this, bitField0, i));
      ViewOfListBit(desc, bitField0, nums, xs, i);
      refs := refs[i := Unmodifiable(refs[i].a)];
      bitField0 := bitField0 - {i};
    }

    method FreezeLists()
      requires Valid()
      modifies this`refs, this`bitField0, Owned(refs)
      ensures Valid() && Owned(refs) <= old(Owned(refs)) && forall j | j in bitField0 :: !desc.cases[j].kind.Packed?
    {
      for i := 0 to |nums|
        invariant Valid() && Owned(refs) <= old(Owned(refs))
        invariant forall j | j in bitField0 && j < i :: !desc.cases[j].kind.Packed?
      {
        assert SlotOk(desc, i, refs[i], xs[i], this, i in bitField0);
        if desc.cases[i].kind.Packed? && i in bitField0 {
          OwnedUpdate(refs, i, Unmodifiable(refs[i].a));
          FreezeList(i);
        }
      }
    }

    /** The message shares the builder's lists, which from now on nobody writes. */
    method BuildPartial(descriptorHash: uint32, unknownHash: uint32) returns (result: JavaMessage)
      requires TableOk() && Valid()
      modifies this`refs, this`bitField0, Owned(refs)
      ensures Valid() && Owned(refs) <= old(Owned(refs)) && value == old(value)
      ensures fresh(result) && result.table == table && result.TableOk() && result.Valid() && result.value == value
      ensures result.descriptorHash == descriptorHash && result.unknownHash == unknownHash
    {
      FreezeLists();
      result := NewMessage(descriptorHash, unknownHash);
    }

    method NewMessage(descriptorHash: uint32, unknownHash: uint32) returns (result: JavaMessage)
      requires TableOk() && Valid() && forall j | j in bitField0 :: !desc.cases[j].kind.Packed?
      ensures Valid()
      ensures fresh(result) && result.table == table && result.TableOk() && result.Valid() && result.value == value
      ensures result.descriptorHash == descriptorHash && result.unknownHash == unknownHash
    {
      var bits := ScalarBits();
      NoneMutable();
      ScalarsOnly();
      result := Snapshot(bits, descriptorHash, unknownHash);
    }

    method ScalarBits() returns (bits: set<nat>)
      requires TableOk() && Valid()
      ensures Valid() && BitsOf(table, bitField0, bits)
    {
      bits := MessageBits(table, bitField0);
      NothingWritten();
    }

    lemma NoneMutable()
      requires Valid() && forall j | j in bitField0 :: !desc.cases[j].kind.Packed?
      ensures RefsOk(desc, refs, xs, this, {})
    {
      forall j | 0 <= j < |refs| ensures SlotOk(desc, j, refs[j], xs[j], this, false) {
        assert SlotOk(desc, j, refs[j], xs[j], this, j in bitField0);
      }
    }

    method Snapshot(bits: set<nat>, descriptorHash: uint32, unknownHash: uint32) returns (result: JavaMessage)
      requires TableOk() && Valid() && |table.cases| == |nums| && RefsOk(desc, refs, xs, this, {})
      requires BitsOf(table, bitField0, bits)
      requires forall i | i in bitField0 :: table.cases[i].Scalar?
      ensures Valid()
      ensures fresh(result) && result.table == table && result.TableOk() && result.Valid() && result.value == value
      ensures result.descriptorHash == descriptorHash && result.unknownHash == unknownHash
    {
      label Before:
      result := new JavaMessage.Built(table, descriptorHash, unknownHash, bits, nums, refs, bitField0, xs, this);
      StillValid@Before();
    }

    lemma ScalarsOnly()
      requires TableOk() && Shapes() && forall j | j in bitField0 :: !desc.cases[j].kind.Packed?
      ensures |table.cases| == |nums| && forall i | i in bitField0 :: table.cases[i].Scalar?
    {
      forall i | i in bitField0 ensures table.cases[i].Scalar? {
        assert desc.cases[i] == CaseOf(table, i);
      }
    }

    /** build(): None stands for the exception about a missing required field. */
    method Build(descriptorHash: uint32, unknownHash: uint32) returns (result: Option<JavaMessage>)
      requires TableOk() && Valid()
      modifies this`refs, this`bitField0, Owned(refs)
      ensures Valid() && Owned(refs) <= old(Owned(refs)) && value == old(value)
      ensures result.Some? <==> Complete(desc, value)
      ensures result.Some? ==>
        var m := result.value;
        && fresh(m) && m.table == table && m.TableOk() && m.Valid() && m.value == value
        && m.descriptorHash == descriptorHash && m.unknownHash == unknownHash
    {
      var m := BuildPartial(descriptorHash, unknownHash);
      var ok := m.IsInitialized();
      result := if ok then Some(m) else None;
    }
  }

  /** `b`'s first n fields merged into `a`. */
  ghost function MergeHead(d: Desc, a: Message, b: Message, n: nat): (r: Message)
    requires Typed(d, a) && Typed(d, b) && n <= |a|
    ensures Typed(d, r)
  {
    seq(|a|, i requires 0 <= i < |a| => if i < n then MergeVal(d, i, a[i], b[i]) else a[i])
  }

  lemma MergeOfLists(d: Desc, a: Message, b: Message, i: nat, xs: seq<uint32>, ys: seq<uint32>)
    requires Typed(d, a) && Typed(d, b) && i < |a|
    ensures a[i] == List(xs) && b[i] == List(ys) ==> MergeOne(d, a, b, i) == a[i := List(xs + ys)]
  {
  }

  lemma MergeHeadStep(d: Desc, a: Message, b: Message, n: nat)
    requires Typed(d, a) && Typed(d, b) && n < |a|
    ensures MergeHead(d, a, b, 0) == a && MergeHead(d, a, b, |a|) == Merge(d, a, b)
    ensures MergeOne(d, MergeHead(d, a, b, n), b, n) == MergeHead(d, a, b, n + 1)
  {
  }
}
