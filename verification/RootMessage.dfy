/**
 The C++ AllInOneMessage object: a type and eleven owned sub-message pointers, each with a has-bit
 that is kept apart from the pointer being null.
 */
module RootMessage {
  import opened Wrappers
  import opened Wire
  import opened Schema
  import opened CodedStream
  import opened LeafMessage
  import CodecTheorems

  /** An enum `type` in front of sub-messages only. */
  predicate IsRoot(d: Desc) {
    && |d.cases| >= 1 && d.cases[0].kind.Enum?
    && forall i | 1 <= i < |d.cases| :: d.cases[i].kind.Sub? && IsLeaf(d.cases[i].kind.desc)
  }

  function SubEmpty(d: Desc, i: nat): (m: Message)
    requires IsRoot(d) && 1 <= i < |d.cases|
    ensures Typed(d.cases[i].kind.desc, m)
  {
    EmptyTyped(d.cases[i].kind.desc);
    Empty(d.cases[i].kind.desc)
  }

  /** `value` has the present fields; an absent one is absent whatever its pointer holds. */
  predicate Shows(d: Desc, has: set<nat>, kind: uint32, held: seq<Message>, value: Message) {
    && IsRoot(d) && |held| == |value| == |d.cases|
    && IsValidType(kind) && (0 !in has ==> kind == 0)
    && (forall i | i in has :: i < |held|)
    && value[0] == Num(if 0 in has then Some(kind) else None)
    && (forall i {:trigger value[i]} {:trigger held[i]} | 1 <= i < |held| ::
          value[i] == Msg(if i in has then Some(held[i]) else None))
    && (forall i {:trigger held[i]} | 1 <= i < |held| :: Typed(d.cases[i].kind.desc, held[i]))
  }

  /** Nothing lingers behind the pointer of an absent sub-message. */
  predicate TidyFields(d: Desc, has: set<nat>, held: seq<Message>)
    requires IsRoot(d) && |held| == |d.cases|
  {
    forall i | 1 <= i < |held| && i !in has :: held[i] == SubEmpty(d, i)
  }

  lemma ShowsTyped(d: Desc, has: set<nat>, kind: uint32, held: seq<Message>, value: Message)
    requires Shows(d, has, kind, held, value)
    ensures Typed(d, value)
  {
  }

  /** The present sub-messages among the first n fields of a group. */
  ghost function GroupSubs(d: Desc, has: set<nat>, g: nat, n: nat): set<nat>
    requires n <= |d.cases|
  {
    if n == 0 then {}
    else GroupSubs(d, has, g, n - 1) + One(d, has, g, n - 1)
  }

  ghost function One(d: Desc, has: set<nat>, g: nat, i: nat): set<nat>
    requires i < |d.cases|
  {
    if i > 0 && i in has && d.cases[i].group == g then {i} else {}
  }

  lemma {:induction false} GroupSubsHas(d: Desc, has: set<nat>, g: nat, n: nat, j: nat)
    requires 0 < j < n <= |d.cases| && j in has && d.cases[j].group == g
    ensures j in GroupSubs(d, has, g, n)
  {
    if j < n - 1 {
      GroupSubsHas(d, has, g, n - 1, j);
    }
  }

  ghost function AllSubs(d: Desc, has: set<nat>, groups: nat): set<nat> {
    if groups == 0 then {} else AllSubs(d, has, groups - 1) + GroupSubs(d, has, groups - 1, |d.cases|)
  }

  lemma {:induction false} AllSubsHas(d: Desc, has: set<nat>, groups: nat, j: nat)
    requires 0 < j < |d.cases| && j in has && d.cases[j].group < groups
    ensures j in AllSubs(d, has, groups)
  {
    if d.cases[j].group == groups - 1 {
      GroupSubsHas(d, has, groups - 1, |d.cases|, j);
    } else {
      AllSubsHas(d, has, groups - 1, j);
    }
  }

  lemma {:induction false} GroupSubsNone(d: Desc, has: set<nat>, g: nat, n: nat)
    requires n <= |d.cases| && forall i | 0 <= i < n && d.cases[i].group == g :: i !in has
    ensures GroupSubs(d, has, g, n) == {}
  {
    if n > 0 {
      GroupSubsNone(d, has, g, n - 1);
    }
  }

  /** The message with the sub-messages in `opens` present and showing what their pointers hold. */
  ghost function Opened(d: Desc, value: Message, held: seq<Message>, opens: set<nat>): (m: Message)
    requires Holds(d, value, held)
    ensures Typed(d, m)
  {
    seq(|value|, i requires 0 <= i < |value| => if i > 0 && i in opens then Msg(Some(held[i])) else value[i])
  }

  ghost predicate Holds(d: Desc, value: Message, held: seq<Message>) {
    && IsRoot(d) && Typed(d, value) && |held| == |value|
    && forall i {:trigger held[i]} | 1 <= i < |held| :: Typed(d.cases[i].kind.desc, held[i])
  }

  /** Opening a field behind which nothing lingers does not show in a merge that has the field. */
  lemma OpenedTidy(d: Desc, has: set<nat>, kind: uint32, held: seq<Message>, value: Message,
                   kind': uint32, held': seq<Message>, b: Message, opens: set<nat>)
    requires Shows(d, has, kind, held, value) && TidyFields(d, has, held) && Shows(d, opens, kind', held', b)
    ensures Holds(d, value, held) && Typed(d, b)
    ensures Merge(d, Opened(d, value, held, opens), b) == Merge(d, value, b)
  {
    ShowsTyped(d, has, kind, held, value);
    ShowsTyped(d, opens, kind', held', b);
    var a := Opened(d, value, held, opens);
    forall i | 0 <= i < |b| ensures MergeVal(d, i, a[i], b[i]) == MergeVal(d, i, value[i], b[i]) {
      assert TypedVal(d, i, value[i]) && TypedVal(d, i, a[i]) && TypedVal(d, i, b[i]);
      assert 0 < i && i !in has ==> held[i] == SubEmpty(d, i);
    }
  }

  lemma OpenedType(d: Desc, value: Message, held: seq<Message>, opens: set<nat>, b: Message, n: uint32)
    requires Holds(d, value, held) && Typed(d, b) && b[0] == Num(Some(n)) && IsValidType(n)
    ensures Holds(d, value[0 := Num(Some(n))], held)
    ensures Opened(d, value[0 := Num(Some(n))], held, opens) == MergeOne(d, Opened(d, value, held, opens), b, 0)
  {
  }

  /** Merging into an opened sub-message. */
  lemma OpenedMerge(d: Desc, value: Message, held: seq<Message>, opens: set<nat>, b: Message, i: nat, y: Message)
    requires Holds(d, value, held) && Typed(d, b) && 1 <= i < |b| && i in opens && b[i] == Msg(Some(y))
    ensures Typed(d.cases[i].kind.desc, y) && Typed(d.cases[i].kind.desc, held[i])
    ensures
      var r := Merge(d.cases[i].kind.desc, held[i], y);
      && Holds(d, value[i := Msg(Some(r))], held[i := r])
      && Opened(d, value[i := Msg(Some(r))], held[i := r], opens)
         == MergeOne(d, Opened(d, value, held, opens), b, i)
  {
    assert TypedVal(d, i, b[i]);
    var r := Merge(d.cases[i].kind.desc, held[i], y);
    var m := value[i := Msg(Some(r))];
    forall j | 0 <= j < |m| ensures TypedVal(d, j, m[j]) {
      assert TypedVal(d, j, value[j]);
    }
  }

  class Root {
    const desc: Desc
    const layouts: seq<Layout>
    const clearMasks: seq<set<nat>>
    var hasBits: set<nat>
    var kind: uint32
    var children: seq<Leaf?>
    var cachedSize: int32

    /** The present fields: what has_x(), serialization and merging see. */
    ghost var value: Message

    /**
     What each pointer holds; a null pointer stands for the default sub-message. The getter x() shows
     this, whether the field is present or not.
     */
    ghost var held: seq<Message>

    ghost predicate TableOk() {
      && WellFormed(desc) && IsRoot(desc)
      && |layouts| == |desc.cases| && |clearMasks| == |desc.groups|
      && (forall i | 1 <= i < |desc.cases| :: LayoutFits(i))
      && (forall i | 0 <= i < |desc.cases| :: MaskFits(i))
    }

    ghost predicate LayoutFits(i: nat)
      requires IsRoot(desc) && |layouts| == |desc.cases| && 1 <= i < |desc.cases|
    {
      LayoutOk(desc.cases[i].kind.desc, layouts[i])
    }

    /** Clear's mask of the field's group contains its has-bit. */
    ghost predicate MaskFits(i: nat)
      requires i < |desc.cases|
    {
      desc.cases[i].group < |clearMasks| && i in clearMasks[desc.cases[i].group]
    }

    ghost predicate Shapes()
      reads this
      ensures Shapes() ==> Typed(desc, value)
    {
      && Shows(desc, hasBits, kind, held, value)
      && (ShowsTyped(desc, hasBits, kind, held, value); true)
      && |children| == |layouts| == |desc.cases| && children[0] == null
    }

    /** A set has-bit has its pointer; each pointer has its own object, of its field's class. */
    ghost predicate Valid()
      reads this, children
    {
      Shapes() && forall i | 1 <= i < |children| :: SlotOk(i)
    }

    ghost predicate SlotOk(i: nat)
      requires Shapes() && 1 <= i < |children|
      reads this, children
    {
      var c := children[i];
      if c == null then i !in hasBits && held[i] == SubEmpty(desc, i)
      else c.slot == i && ChildOk(i, c) && c.value == held[i]
    }

    ghost predicate ChildOk(i: nat, c: Leaf)
      requires IsRoot(desc) && |layouts| == |desc.cases| && 1 <= i < |desc.cases|
      reads c
    {
      c.desc == desc.cases[i].kind.desc && c.layout == layouts[i] && c.Valid()
    }

    ghost predicate Tidy()
      requires Shapes()
      reads this
    {
      TidyFields(desc, hasBits, held)
    }

    constructor (desc: Desc, layouts: seq<Layout>, clearMasks: seq<set<nat>>)
      requires IsRoot(desc) && |layouts| == |desc.cases|
      ensures this.desc == desc && this.layouts == layouts && this.clearMasks == clearMasks
      ensures Valid() && Tidy() && value == Empty(desc) && forall k | 0 <= k < |children| :: children[k] == null
    {
      this.desc, this.layouts, this.clearMasks := desc, layouts, clearMasks;
      hasBits, kind, cachedSize := {}, 0, 0;
      children := seq(|desc.cases|, _ => null);
      value := Empty(desc);
      held := seq(|desc.cases|, i requires 0 <= i < |desc.cases| => if i == 0 then [] else SubEmpty(desc, i));
    }

    /** Only field i changed: its has-bit, its pointer or the object behind the pointer. */
    twostate lemma Restored(i: nat)
      requires old(Valid()) && Shapes() && 1 <= i < |children|
      requires forall j | 0 <= j < |children| && j != i :: children[j] == old(children)[j] && held[j] == old(held)[j]
      requires hasBits - {i} <= old(hasBits) - {i}
      requires forall c: Leaf | c in old(children) && c != old(children)[i] :: unchanged(c)
      requires SlotOk(i)
      ensures Valid()
    {
      forall j | 1 <= j < |children| && j != i ensures SlotOk(j) {
        assert old(SlotOk(j)) && old(SlotOk(i));
        assert j in hasBits ==> j in hasBits - {i};
        if children[j] != null {
          assert old(children)[j] in old(children) && old(children[j].slot) == j;
        }
      }
    }

    method SetType(n: uint32)
      requires Valid() && IsValidType(n)
      modifies this`hasBits, this`kind, this`value
      ensures Valid() && value == old(value)[0 := Num(Some(n))] && hasBits == old(hasBits) + {0}
      ensures old(Tidy()) ==> Tidy()
    {
      hasBits := hasBits + {0};
      kind := n;
      value := value[0 := Num(Some(n))];
      assert forall j | 1 <= j < |children| :: old(SlotOk(j)) ==> SlotOk(j);
    }

    /** x(): what the pointer holds, without a look at the has-bit; a null pointer gives the default instance. */
    method Get(i: nat) returns (m: Message)
      requires Valid() && 1 <= i < |children|
      ensures m == held[i]
      ensures i in hasBits ==> value[i] == Msg(Some(m))
      ensures Tidy() && i !in hasBits ==> m == SubEmpty(desc, i)
    {
      assert SlotOk(i);
      var child := children[i];
      if child == null {
        m := SubEmpty(desc, i);
      } else {
        m := View(child.desc, child.hasBits, child.nums, child.lists);
      }
    }

    /** mutable_x(): the has-bit is set and the sub-message exists; what it shows is what lingered. */
    method Mutable(i: nat) returns (child: Leaf)
      requires TableOk() && Valid() && 1 <= i < |children|
      modifies this`hasBits, this`children, this`value
      ensures Valid() && hasBits == old(hasBits) + {i}
      ensures children == old(children)[i := child] && child.value == held[i]
      ensures child == old(children)[i] || fresh(child)
      ensures value == old(value)[i := Msg(Some(held[i]))]
      ensures old(Tidy()) ==> Tidy()
      ensures old(Tidy()) && old(value)[i] == Msg(None) ==> held[i] == SubEmpty(desc, i)
    {
      assert SlotOk(i);
      if children[i] == null {
        assert SubOk(desc, i) && LayoutFits(i);
        child := new Leaf(desc.cases[i].kind.desc, layouts[i]);
        child.slot := i;
        children := children[i := child];
      }
      child := children[i];
      hasBits := hasBits + {i};
      value := value[i := Msg(Some(child.value))];
      Restored(i);
    }

    /** Valid, but for what the ghost fields say of the object behind pointer i. */
    ghost predicate WrittenThrough(i: nat)
      reads this, children
    {
      && Shapes() && 1 <= i < |children| && children[i] != null && children[i].slot == i && ChildOk(i, children[i])
      && forall j | 1 <= j < |children| && j != i :: SlotOk(j)
    }

    /** A caller wrote to sub-message i through a pointer that mutable_x() gave it. */
    twostate lemma PointerWrite(i: nat)
      requires old(Valid()) && unchanged(this) && 1 <= i < |children| && children[i] != null
      requires forall c: Leaf | c in children && c != children[i] :: unchanged(c)
      requires ChildOk(i, children[i]) && children[i].slot == old(children[i].slot)
      ensures WrittenThrough(i)
    {
      assert old(SlotOk(i));
      forall j | 1 <= j < |children| && j != i ensures SlotOk(j) {
        assert old(SlotOk(j));
        assert children[j] != null ==> children[j] in children && children[j] != children[i];
      }
    }

    /**
     The getter shows the write at once. The field has it if it is present; through a pointer kept after
     the field was cleared the write lingers behind an absent field.
     */
    ghost method AcceptWrite(i: nat)
      requires WrittenThrough(i)
      modifies this`value, this`held
      ensures Valid() && held == old(held)[i := children[i].value]
      ensures value == if i in hasBits then old(value)[i := Msg(Some(children[i].value))] else old(value)
      ensures i in hasBits && old(Tidy()) ==> Tidy()
      ensures i !in hasBits ==> (Tidy() ==> children[i].value == SubEmpty(desc, i))
    {
      held := held[i := children[i].value];
      if i in hasBits {
        value := value[i := Msg(Some(children[i].value))];
      }
      assert forall j | 1 <= j < |children| && j != i :: old(SlotOk(j)) ==> SlotOk(j);
      assert SlotOk(i);
    }

    /** clear_x(): the sub-message object stays, emptied. */
    method ClearSub(i: nat)
      requires TableOk() && Valid() && 1 <= i < |children|
      modifies this`hasBits, this`value, this`held, if children[i] == null then {} else {children[i]}
      ensures Valid() && value == old(value)[i := Msg(None)] && held == old(held)[i := SubEmpty(desc, i)]
      ensures old(Tidy()) ==> Tidy()
    {
      assert SlotOk(i);
      if children[i] != null {
        assert LayoutFits(i) && SubOk(desc, i);
        children[i].Clear();
      }
      hasBits := hasBits - {i};
      value := value[i := Msg(None)];
      held := held[i := SubEmpty(desc, i)];
      Restored(i);
    }

    /** release_x(): ownership passes to the caller, with whatever the pointer held. */
    method Release(i: nat) returns (child: Leaf?)
      requires Valid() && 1 <= i < |children|
      modifies this`hasBits, this`children, this`value, this`held
      ensures Valid() && value == old(value)[i := Msg(None)] && held == old(held)[i := SubEmpty(desc, i)]
      ensures child == old(children)[i] && children == old(children)[i := null]
      ensures child != null ==> child !in children && child.value == old(held)[i]
      ensures old(Tidy()) ==> Tidy()
    {
      forall j | 1 <= j < |children| ensures children[j] != null ==> children[j].slot == j {
        assert SlotOk(j);
      }
      assert SlotOk(i);
      child := children[i];
      hasBits := hasBits - {i};
      children := children[i := null];
      value := value[i := Msg(None)];
      held := held[i := SubEmpty(desc, i)];
      Restored(i);
    }

    /** set_allocated_x(): the old sub-message is dropped, the given one owned; null clears. */
    method SetAllocated(i: nat, child: Leaf?)
      requires Valid() && 1 <= i < |children|
      requires child != null ==> ChildOk(i, child) && child !in children
      modifies this`hasBits, this`children, this`value, this`held, if child == null then {} else {child}`slot
      ensures Valid() && children == old(children)[i := child]
      ensures value == old(value)[i := Msg(if child == null then None else Some(child.value))]
      ensures old(Tidy()) ==> Tidy()
    {
      children := children[i := child];
      if child != null {
        child.slot := i;
        hasBits := hasBits + {i};
        held := held[i := child.value];
      } else {
        hasBits := hasBits - {i};
        held := held[i := SubEmpty(desc, i)];
      }
      value := value[i := Msg(if child == null then None else Some(child.value))];
      Restored(i);
    }

    // ----- Clear --------------------------------------------------------------------------------

    /**
     Every field is absent afterwards. What the getters and a later mutable_x() show is default data
     exactly if nothing lingered before: the guards skip the pointers of absent sub-messages.
     */
    method Clear()
      requires TableOk() && Valid()
      modifies this`hasBits, this`kind, this`value, this`held, children
      ensures Valid() && value == Empty(desc) && hasBits == {} && children == old(children)
      ensures forall i | 1 <= i < |held| :: held[i] == if i in old(hasBits) then SubEmpty(desc, i) else old(held)[i]
      ensures Tidy() <==> old(Tidy())
    {
      for g := 0 to |clearMasks|
        invariant Valid() && hasBits == old(hasBits) && children == old(children)
        invariant forall i | 1 <= i < |held| ::
          held[i] == if i in hasBits && desc.cases[i].group < g then SubEmpty(desc, i) else old(held)[i]
        invariant desc.cases[0].group < g ==> kind == 0
      {
        ClearGroup(g);
      }
      assert MaskFits(0);
      forall i | 1 <= i < |held| ensures held[i] == if i in hasBits then SubEmpty(desc, i) else old(held)[i] {
        assert MaskFits(i);
      }
      ZeroBits();
    }

    /** The memset of the has-bits that ends Clear. */
    method ZeroBits()
      requires Valid() && kind == 0
      modifies this`hasBits, this`value
      ensures Valid() && value == Empty(desc) && hasBits == {}
    {
      assert forall i | 1 <= i < |held| :: SlotOk(i);
      hasBits := {};
      value := Empty(desc);
      assert forall i | 1 <= i < |held| :: old(SlotOk(i)) ==> SlotOk(i);
    }

    /** One guarded block of Clear. */
    method ClearGroup(g: nat)
      requires TableOk() && Valid() && g < |clearMasks|
      modifies this`kind, this`value, this`held, children
      ensures Valid() && (desc.cases[0].group == g || old(kind) == 0 ==> kind == 0)
      ensures forall i | 1 <= i < |held| ::
        held[i] == if i in hasBits && desc.cases[i].group == g then SubEmpty(desc, i) else old(held)[i]
    {
      if hasBits * clearMasks[g] == {} {
        forall i | 0 <= i < |children| && desc.cases[i].group == g ensures i !in hasBits {
          assert MaskFits(i);
          Missed(hasBits, clearMasks[g], i);
        }
        return;
      }
      ClearKind(g);
      for k := 1 to |children|
        invariant Valid() && (desc.cases[0].group == g || old(kind) == 0 ==> kind == 0)
        invariant forall i | 1 <= i < |held| ::
          held[i] == if i in hasBits && desc.cases[i].group == g && i < k then SubEmpty(desc, i) else old(held)[i]
      {
        if desc.cases[k].group == g && k in hasBits {
          ClearChild(k);
        }
      }
    }

    method ClearKind(g: nat)
      requires Valid()
      modifies this`kind, this`value
      ensures Valid() && kind == if desc.cases[0].group == g then 0 else old(kind)
    {
      if desc.cases[0].group == g {
        kind := 0;
        value := value[0 := Num(if 0 in hasBits then Some(0) else None)];
        assert forall j | 1 <= j < |children| :: old(SlotOk(j)) ==> SlotOk(j);
      }
    }

    method ClearChild(k: nat)
      requires TableOk() && Valid() && 1 <= k < |children| && k in hasBits
      modifies this`value, this`held, if children[k] == null then {} else {children[k]}
      ensures Valid() && held == old(held)[k := SubEmpty(desc, k)]
    {
      assert SlotOk(k) && LayoutFits(k) && SubOk(desc, k);
      children[k].Clear();
      value := value[k := Msg(Some(children[k].value))];
      held := held[k := children[k].value];
      Restored(k);
    }

    // ----- Parsing -------------------------------------------------------------------------------

    /** Pointers are kept, or were null and now point to a new sub-message. */
    twostate predicate Grown()
      reads this
    {
      |children| == |old(children)|
      && forall i | 0 <= i < |children| && children[i] != old(children)[i] :: children[i] != null && fresh(children[i])
    }

    /** The body of one case of the switch, from its parse_x label to its ExpectTag. */
    method ReadField(i: nat, input: CodedInputStream) returns (ok: bool)
      requires TableOk() && Valid() && Tidy() && input.Valid() && i < |children|
      modifies this`hasBits, this`kind, this`children, this`value, this`held, children, input
      ensures Valid() && Tidy() && Grown() && input.Valid()
      ensures ok ==> input.limit == old(input.limit) && input.pos >= old(input.pos)
      ensures TypedVal(desc, i, old(value)[i])
      ensures
        var r := ReadVal(desc, i, input.lib, old(input.Rest()), old(value)[i]);
        ok == r.ok && value == old(value)[i := r.v] && (ok ==> input.Rest() == r.rest)
    {
      assert TypedVal(desc, i, value[i]);
      if i == 0 {
        var n;
        ok, n := input.ReadVarint32();
        if ok && IsValidType(n) {
          SetType(n);
        }
      } else {
        ok := ReadSub(i, input);
      }
    }

    /** ReadMessageNoVirtual into mutable_x(), which runs first. */
    method ReadSub(i: nat, input: CodedInputStream) returns (ok: bool)
      requires TableOk() && Valid() && Tidy() && input.Valid() && 1 <= i < |children|
      modifies this`hasBits, this`children, this`value, this`held, input
      modifies if children[i] == null then {} else {children[i]}
      ensures Valid() && Tidy() && Grown() && input.Valid()
      ensures ok ==> input.limit == old(input.limit) && input.pos >= old(input.pos)
      ensures TypedVal(desc, i, old(value)[i])
      ensures
        var r := ReadVal(desc, i, input.lib, old(input.Rest()), old(value)[i]);
        ok == r.ok && value == old(value)[i := r.v] && (ok ==> input.Rest() == r.rest)
    {
      assert TypedVal(desc, i, value[i]);
      var child := Mutable(i);
      ok := ReadUnderLimit(i, input);
    }

    /** Push the limit, parse up to it, pop it. */
    method ReadUnderLimit(i: nat, input: CodedInputStream) returns (ok: bool)
      requires TableOk() && Valid() && input.Valid() && 1 <= i < |children| && i in hasBits
      modifies this`value, this`held, input
      modifies if children[i] == null then {} else {children[i]}
      ensures Valid() && input.Valid()
      ensures held == old(held)[i := held[i]] && value == old(value)[i := Msg(Some(held[i]))]
      ensures ok ==> input.limit == old(input.limit) && input.pos >= old(input.pos)
      ensures
        var w := Prefixed(input.lib, old(input.Rest()));
        if w.None? then !ok && held[i] == old(held)[i]
        else
          var o := Parse(desc.cases[i].kind.desc, input.lib, w.value.0, old(held)[i]);
          ok == (o.ok && o.legit) && held[i] == o.m && (ok ==> input.Rest() == w.value.1)
    {
      assert value[i := value[i]] == value && held[i := held[i]] == held;
      var outer;
      ok, outer := input.EnterPrefixed();
      if ok {
        ok := MergeChild(i, input);
        if ok {
          ok := input.legitimateEnd;
          input.PopLimit(outer);
        }
      }
    }

    /** The sub-message's own parser, up to the pushed limit. */
    method MergeChild(i: nat, input: CodedInputStream) returns (ok: bool)
      requires TableOk() && Valid() && input.Valid() && 1 <= i < |children| && i in hasBits
      modifies this`value, this`held, input
      modifies if children[i] == null then {} else {children[i]}
      ensures Valid() && input.Valid()
      ensures ok ==> input.limit == old(input.limit) && input.pos >= old(input.pos)
      ensures
        var o := Parse(desc.cases[i].kind.desc, input.lib, old(input.Rest()), old(held)[i]);
        && ok == o.ok
        && value == old(value)[i := Msg(Some(o.m))] && held == old(held)[i := o.m]
        && (ok ==> input.legitimateEnd == o.legit)
        && (ok && o.legit ==> input.pos == input.limit)
    {
      assert SlotOk(i) && LayoutFits(i) && SubOk(desc, i);
      var child := children[i];
      ok := child.MergePartialFromCodedStream(input);
      value := value[i := Msg(Some(child.value))];
      held := held[i := child.value];
      Restored(i);
    }

    /**
     The generated parser: the switch on a tag read with a cutoff, and after each case a jump to the
     next one when its tag follows. On every input it ends as the plain loop does.
     */
    method MergePartialFromCodedStream(input: CodedInputStream) returns (ok: bool)
      requires TableOk() && Valid() && Tidy() && input.Valid()
      modifies this`hasBits, this`kind, this`children, this`value, this`held, children, input
      ensures Valid() && Tidy() && Grown() && input.Valid()
      ensures ok ==> input.limit == old(input.limit) && input.pos >= old(input.pos)
      ensures
        var o := Parse(desc, input.lib, old(input.Rest()), old(value));
        && ok == o.ok && value == o.m
        && (ok ==> input.legitimateEnd == o.legit)
        && (ok && o.legit ==> input.pos == input.limit)
    {
      var done := false;
      ok := true;
      while ok && !done
        invariant Valid() && Tidy() && Grown() && input.Valid()
        invariant ok ==> input.limit == old(input.limit) && input.pos >= old(input.pos)
        invariant
          var goal := Parse(desc, input.lib, old(input.Rest()), old(value));
          if !ok then goal == Outcome(false, false, value)
          else if done then
            goal == Outcome(true, input.legitimateEnd, value) && (goal.legit ==> input.pos == input.limit)
          else Parse(desc, input.lib, input.Rest(), value) == goal
        decreases !done, ok, input.limit - input.pos
      {
        ok, done := Round(input);
      }
    }

    /** One turn of the outer loop: a tag, its case, and every case whose tag follows. */
    method Round(input: CodedInputStream) returns (ok: bool, done: bool)
      requires TableOk() && Valid() && Tidy() && input.Valid()
      modifies this`hasBits, this`kind, this`children, this`value, this`held, children, input
      ensures Valid() && Tidy() && Grown() && input.Valid()
      ensures ok ==> input.limit == old(input.limit) && input.pos >= old(input.pos)
      ensures ok && !done ==> input.pos > old(input.pos)
      ensures
        var goal := Parse(desc, input.lib, old(input.Rest()), old(value));
        if !ok then goal == Outcome(false, false, value)
        else if done then
          goal == Outcome(true, input.legitimateEnd, value) && (goal.legit ==> input.pos == input.limit)
        else Parse(desc, input.lib, input.Rest(), value) == goal
    {
      done := false;
      var tag, known := input.ReadTagWithCutoff(desc.cutoff);
      SwitchIsDispatch(desc, tag, known);
      var at := Switch(desc, tag, known);
      if at.Unusual? && (tag == 0 || tag % 8 == END_GROUP) {
        return true, true;
      }
      DispatchIsPlain(desc, tag);
      ok := TakeField(at, tag, input);
      if ok && !at.Unusual? {
        ok, done := FollowTags(at.i, input);
      }
    }

    /** What the switch does with one tag: a case or a skip. */
    method TakeField(at: Action, tag: uint32, input: CodedInputStream) returns (ok: bool)
      requires TableOk() && Valid() && Tidy() && input.Valid() && at == Dispatch(desc, tag, 0)
      modifies this`hasBits, this`kind, this`children, this`value, this`held, children, input
      ensures Valid() && Tidy() && Grown() && input.Valid()
      ensures ok ==> input.limit == old(input.limit) && input.pos >= old(input.pos)
      ensures
        var r := Step(desc, input.lib, tag, old(input.Rest()), old(value));
        ok == r.0 && value == r.1 && (ok ==> input.Rest() == r.2)
    {
      match at {
        case Field(i) => ok := ReadField(i, input);
        case Unusual => ok := input.SkipField(tag);
      }
    }

    /** The `goto` chain: from the end of case i through every case whose tag comes next. */
    method FollowTags(i: nat, input: CodedInputStream) returns (ok: bool, done: bool)
      requires TableOk() && Valid() && Tidy() && input.Valid() && i < |children|
      modifies this`hasBits, this`kind, this`children, this`value, this`held, children, input
      ensures Valid() && Tidy() && Grown() && input.Valid() && (ok ==> input.limit == old(input.limit))
      ensures ok && !done ==>
        && input.pos >= old(input.pos)
        && Parse(desc, input.lib, input.Rest(), value) == Parse(desc, input.lib, old(input.Rest()), old(value))
      ensures ok && done ==>
        && input.legitimateEnd && input.pos == input.limit
        && Parse(desc, input.lib, old(input.Rest()), old(value)) == Outcome(true, true, value)
      ensures !ok ==> Parse(desc, input.lib, old(input.Rest()), old(value)) == Outcome(false, false, value)
    {
      ghost var goal := Parse(desc, input.lib, input.Rest(), value);
      var k := i;
      while true
        invariant k < |children|
        invariant Valid() && Tidy() && Grown() && input.Valid()
        invariant input.limit == old(input.limit) && input.pos >= old(input.pos)
        invariant Parse(desc, input.lib, input.Rest(), value) == goal
        decreases |children| - k
      {
        assert CaseOk(desc, k);
        if desc.cases[k].next == 0 {
          done := input.ExpectAtEnd();
          return true, done;
        }
        var found;
        k := k + 1;
        found, ok := JumpTo(k, input);
        if !found || !ok {
          return ok, false;
        }
      }
    }

    /** `if (input->ExpectTag(t)) goto parse_x;` and the case under that label. */
    method JumpTo(k: nat, input: CodedInputStream) returns (found: bool, ok: bool)
      requires TableOk() && Valid() && Tidy() && input.Valid() && k < |children|
      modifies this`hasBits, this`kind, this`children, this`value, this`held, children, input
      ensures Valid() && Tidy() && Grown() && input.Valid()
      ensures ok ==> input.limit == old(input.limit) && input.pos >= old(input.pos)
      ensures !found ==> ok
      ensures
        var was := Parse(desc, input.lib, old(input.Rest()), old(value));
        if ok then Parse(desc, input.lib, input.Rest(), value) == was
        else was == Outcome(false, false, value)
    {
      CodecTheorems.TagIsPlain(desc, k);
      ok := true;
      ghost var rest := input.Rest();
      found := input.ExpectTag(desc.cases[k].tag);
      if found {
        assert rest == Varint(desc.cases[k].tag) + input.Rest();
        CodecTheorems.ParseAtTag(desc, input.lib, k, input.Rest(), value);
        ok := ReadField(k, input);
      }
    }

    // ----- Sizes and serialization ------------------------------------------------------------------

    /** Every present sub-message has its size cached. */
    ghost predicate CachesAgree()
      requires Valid()
      reads this, children
    {
      cachedSize == |Ser(desc, value)| && AllCached(hasBits - {0})
    }

    ghost predicate AllCached(fields: set<nat>)
      requires Valid()
      reads this, children
    {
      forall i {:trigger i in fields} | i in fields :: 1 <= i < |children| && i in hasBits && CacheOk(i)
    }

    ghost predicate CacheOk(i: nat)
      requires Valid() && 1 <= i < |children| && i in hasBits
      reads this, children
    {
      SlotOk(i) && children[i].CachesAgree()
    }

    /** What field i adds to the size; a sub-message of a fitting message fits. */
    lemma FieldBytes(i: nat)
      requires TableOk() && Shapes() && i < |children| && FieldSize(desc, value, i) <= INT_MAX
      ensures desc.cases[i].tag < 0x4000
      ensures i !in hasBits ==> FieldSize(desc, value, i) == 0
      ensures i == 0 && i in hasBits ==> FieldSize(desc, value, i) == VarintSize(desc.cases[i].tag) + VarintSize(kind)
      ensures i > 0 && i in hasBits ==>
        && Fits(desc.cases[i].kind.desc, held[i])
        && FieldSize(desc, value, i)
           == VarintSize(desc.cases[i].tag) + VarintSize(|Ser(desc.cases[i].kind.desc, held[i])|)
              + |Ser(desc.cases[i].kind.desc, held[i])|
    {
      assert CaseOk(desc, i) && TypedVal(desc, i, value[i]);
      VarintSizeIsLength(desc.cases[i].tag);
      if i == 0 {
        VarintSizeIsLength(kind);
      } else if i in hasBits {
        VarintSizeIsLength(|Ser(desc.cases[i].kind.desc, held[i])|);
      }
    }

    /** The sub-message's ByteSize, which caches its own size and its lists' sizes. */
    method ChildSize(i: nat, ghost done: set<nat>) returns (size: int32)
      requires TableOk() && Valid() && AllCached(done) && 1 <= i < |children| && i in hasBits
      requires Fits(desc.cases[i].kind.desc, held[i])
      modifies if children[i] == null then {} else {children[i]}
      ensures Valid() && AllCached(done + {i}) && size == |Ser(desc.cases[i].kind.desc, held[i])|
    {
      assert SlotOk(i) && LayoutFits(i) && SubOk(desc, i);
      size := children[i].ByteSize();
      Restored(i);
      forall j | j in done && j != i ensures CacheOk(j) {
        assert SlotOk(j) && old(CacheOk(j));
      }
    }

    /** One `if (has_x()) total_size += ...`. */
    method MemberSize(i: nat, ghost done: set<nat>) returns (size: int32)
      requires TableOk() && Valid() && AllCached(done) && i < |children|
      requires FieldSize(desc, value, i) <= INT_MAX
      modifies children
      ensures Valid() && AllCached(done + if i > 0 && i in hasBits then {i} else {})
      ensures size == FieldSize(desc, value, i)
    {
      FieldBytes(i);
      size := 0;
      if i in hasBits {
        if i == 0 {
          size := VarintSize(desc.cases[i].tag) + VarintSize(kind);
        } else {
          assert SlotOk(i);
          var n := ChildSize(i, done);
          size := VarintSize(desc.cases[i].tag) + VarintSize(n) + n;
        }
      }
    }

    /** One guarded block of ByteSize. */
    method GroupSize(g: nat, ghost done: set<nat>) returns (size: int32)
      requires TableOk() && Valid() && AllCached(done) && g < |desc.groups|
      requires WalkSize(desc, value, Scalars(g), |children|) <= INT_MAX
      modifies children
      ensures Valid() && AllCached(done + GroupSubs(desc, hasBits, g, |children|))
      ensures size == WalkSize(desc, value, Scalars(g), |children|)
    {
      if hasBits * GuardBits(desc.groups[g]) != {} {
        ghost var cached;
        size, cached := GroupMembers(g, |children|, done);
      } else {
        size := 0;
        forall i | 0 <= i < |children| && desc.cases[i].group == g ensures i !in hasBits {
          assert CaseOk(desc, i);
          Missed(hasBits, GuardBits(desc.groups[g]), i);
        }
        GroupSubsNone(desc, hasBits, g, |children|);
        EmptyWalk(desc, value, Scalars(g), |children|);
      }
    }

    /** Its statements, up to that of field n. */
    method GroupMembers(g: nat, n: nat, ghost done: set<nat>) returns (size: int32, ghost cached: set<nat>)
      requires TableOk() && Valid() && AllCached(done) && n <= |children|
      requires WalkSize(desc, value, Scalars(g), |children|) <= INT_MAX
      modifies children
      ensures Valid() && AllCached(cached) && cached == done + GroupSubs(desc, hasBits, g, n)
      ensures size == WalkSize(desc, value, Scalars(g), n)
      decreases n
    {
      size, cached := 0, done;
      if n > 0 {
        size, cached := GroupMembers(g, n - 1, done);
        size := MemberStep(g, n - 1, size, cached);
        cached := cached + One(desc, hasBits, g, n - 1);
      }
    }

    method MemberStep(g: nat, i: nat, sofar: int32, ghost done: set<nat>) returns (size: int32)
      requires TableOk() && Valid() && i < |children| && sofar == WalkSize(desc, value, Scalars(g), i)
      requires AllCached(done) && WalkSize(desc, value, Scalars(g), |children|) <= INT_MAX
      modifies children
      ensures Valid() && AllCached(done + One(desc, hasBits, g, i))
      ensures size == WalkSize(desc, value, Scalars(g), i + 1)
    {
      WalkGrows(desc, value, Scalars(g), i + 1);
      size := sofar;
      if desc.cases[i].group == g {
        var n := MemberSize(i, done);
        size := sofar + n;
      }
    }

    /** The number of bytes the serializers emit; every nested size is cached on the way. */
    method ByteSize() returns (total: int32)
      requires TableOk() && Valid() && Fits(desc, value)
      modifies this`cachedSize, children
      ensures Valid() && CachesAgree() && total == |Ser(desc, value)| == cachedSize
    {
      WalksCover(desc, value, |value|);
      EmptyWalk(desc, value, Lists, |value|);
      total := GroupsTotal(|desc.groups|);
      forall j | j in hasBits - {0} ensures j in AllSubs(desc, hasBits, |desc.groups|) {
        assert CaseOk(desc, j);
        AllSubsHas(desc, hasBits, |desc.groups|, j);
      }
      SetCachedSize(total, AllSubs(desc, hasBits, |desc.groups|));
    }

    /** The first n guarded blocks. */
    method GroupsTotal(n: nat) returns (total: int32)
      requires TableOk() && Valid() && n <= |desc.groups|
      requires GroupsSize(desc, value, |desc.groups|, |value|) <= INT_MAX
      modifies children
      ensures Valid() && AllCached(AllSubs(desc, hasBits, n))
      ensures total == GroupsSize(desc, value, n, |value|)
      decreases n
    {
      if n == 0 {
        return 0;
      }
      total := GroupsTotal(n - 1);
      total := AddGroup(n - 1, total);
    }

    method AddGroup(g: nat, sofar: int32) returns (total: int32)
      requires TableOk() && Valid() && g < |desc.groups| && AllCached(AllSubs(desc, hasBits, g))
      requires sofar == GroupsSize(desc, value, g, |value|)
      requires GroupsSize(desc, value, |desc.groups|, |value|) <= INT_MAX
      modifies children
      ensures Valid() && AllCached(AllSubs(desc, hasBits, g + 1))
      ensures total == GroupsSize(desc, value, g + 1, |value|)
    {
      GroupsGrow(desc, value, g + 1);
      var size := GroupSize(g, AllSubs(desc, hasBits, g));
      total := sofar + size;
    }

    method SetCachedSize(size: int32, ghost done: set<nat>)
      requires Valid() && size == |Ser(desc, value)| && AllCached(done) && hasBits - {0} <= done
      modifies this`cachedSize
      ensures Valid() && CachesAgree() && cachedSize == size
    {
      cachedSize := size;
      assert forall j | 1 <= j < |children| :: old(SlotOk(j)) ==> SlotOk(j);
      assert forall j | j in hasBits - {0} :: old(CacheOk(j)) ==> CacheOk(j);
    }

    method WriteField(i: nat, target: ArrayTarget)
      requires TableOk() && Valid() && Fits(desc, value) && CachesAgree() && i < |children|
      requires target.Valid() && target.Room() >= FieldSize(desc, value, i)
      modifies target, target.data
      ensures target.Valid() && target.Bytes() == old(target.Bytes()) + SerField(desc, i, value[i])
    {
      FieldWithin(desc, value, i, 0);
      FieldBytes(i);
      if i in hasBits {
        if i == 0 {
          WriteScalar(desc.cases[i].tag, kind, target);
        } else {
          assert i in hasBits - {0};
          WriteSub(i, target);
        }
      }
    }

    /** WriteMessageNoVirtualToArray: tag, cached size, and the sub-message's own serializer. */
    method WriteSub(i: nat, target: ArrayTarget)
      requires TableOk() && Valid() && 1 <= i < |children| && i in hasBits && CacheOk(i)
      requires Fits(desc.cases[i].kind.desc, held[i]) && desc.cases[i].tag < 0x4000
      requires
        var body := |Ser(desc.cases[i].kind.desc, held[i])|;
        target.Valid() && target.Room() >= VarintSize(desc.cases[i].tag) + VarintSize(body) + body
      modifies target, target.data
      ensures
        var body := Ser(desc.cases[i].kind.desc, held[i]);
        target.Valid()
        && target.Bytes() == old(target.Bytes()) + (Varint(desc.cases[i].tag) + Varint(|body|) + body)
    {
      assert SlotOk(i) && LayoutFits(i) && SubOk(desc, i);
      var child := children[i];
      VarintSizeIsLength(desc.cases[i].tag);
      VarintSizeIsLength(child.cachedSize);
      WriteScalar(desc.cases[i].tag, child.cachedSize, target);
      child.SerializeWithCachedSizesToArray(target);
    }

    /** Emits what ByteSize counted, sub-messages under the lengths it cached. */
    method SerializeWithCachedSizesToArray(target: ArrayTarget)
      requires TableOk() && Valid() && Fits(desc, value) && CachesAgree()
      requires target.Valid() && target.Room() >= cachedSize
      modifies target, target.data
      ensures target.Valid() && target.Bytes() == old(target.Bytes()) + Ser(desc, value)
    {
      ghost var m := value;
      for i := 0 to |children|
        invariant target.Valid() && target.Room() >= |SerFrom(desc, m, i)|
        invariant target.Bytes() + SerFrom(desc, m, i) == old(target.Bytes()) + Ser(desc, m)
      {
        ghost var was, bytes := target.Bytes(), SerField(desc, i, m[i]);
        assert SerFrom(desc, m, i) == bytes + SerFrom(desc, m, i + 1);
        WriteField(i, target);
        assert was + SerFrom(desc, m, i) == (was + bytes) + SerFrom(desc, m, i + 1);
      }
    }

    // ----- Merging -------------------------------------------------------------------------------

    /** Two messages that own no sub-message in common. */
    ghost predicate Apart(other: Root)
      reads this, other
    {
      other != this && forall c: Leaf | c in children :: c !in other.children
    }

    /** The message once mutable_x() was called for the sub-messages in `opens`. */
    ghost function Shown(opens: set<nat>): Message
      requires Shapes()
      reads this
    {
      Opened(desc, value, held, opens)
    }

    /**
     Present fields of `from`, group by group; sub-messages merge into mutable_x(), so what lingers
     behind an absent field takes part. With nothing lingering it is the merge of the two messages.
     */
    method MergeFrom(from: Root)
      requires TableOk() && Valid() && from.Valid() && Apart(from) && from.desc == desc
      modifies this`hasBits, this`kind, this`children, this`value, this`held, children
      ensures Valid() && Grown() && value == Merge(desc, old(Shown(from.hasBits)), from.value)
      ensures old(Tidy()) ==> Tidy() && value == Merge(desc, old(value), from.value)
    {
      ghost var opens := from.hasBits;
      MergeGroupsIsMerge(desc, Shown(opens), from.value);
      if Tidy() {
        OpenedTidy(desc, hasBits, kind, held, value, from.kind, from.held, from.value, opens);
      }
      MergeGroupsOf(from);
      AllOpen(opens);
    }

    method MergeGroupsOf(from: Root)
      requires TableOk() && Valid() && from.Valid() && Apart(from) && from.desc == desc
      modifies this`hasBits, this`kind, this`children, this`value, this`held, children
      ensures Valid() && Grown() && (old(Tidy()) ==> Tidy())
      ensures
        Shown(from.hasBits) == MergeGroups(desc, old(Shown(from.hasBits)), from.value, |desc.groups|)
      ensures AllSubs(desc, from.hasBits, |desc.groups|) <= hasBits
    {
      ghost var a, b, opens := Shown(from.hasBits), from.value, from.hasBits;
      MergeNothing(desc, a, b, Lists, |a|);
      for g := 0 to |desc.groups|
        invariant Valid() && Grown() && from.Valid() && Apart(from) && from.value == b && (old(Tidy()) ==> Tidy())
        invariant Shown(opens) == MergeGroups(desc, a, b, g) && AllSubs(desc, opens, g) <= hasBits
      {
        MergeNext(from, g, a);
      }
    }

    method MergeNext(from: Root, g: nat, ghost a: Message)
      requires TableOk() && Valid() && from.Valid() && Apart(from) && from.desc == desc && g < |desc.groups|
      requires Typed(desc, a) && Shown(from.hasBits) == MergeGroups(desc, a, from.value, g)
      requires AllSubs(desc, from.hasBits, g) <= hasBits
      modifies this`hasBits, this`kind, this`children, this`value, this`held, children
      ensures Valid() && Grown() && from.Valid() && Apart(from) && from.value == old(from.value)
      ensures Shown(from.hasBits) == MergeGroups(desc, a, from.value, g + 1)
      ensures AllSubs(desc, from.hasBits, g + 1) <= hasBits && (old(Tidy()) ==> Tidy())
    {
      MergeGroup(from, g);
    }

    lemma AllOpen(opens: set<nat>)
      requires TableOk() && Shapes() && AllSubs(desc, opens, |desc.groups|) <= hasBits
      ensures Shown(opens) == value
    {
      forall i | 1 <= i < |value| && i in opens ensures i in hasBits {
        assert CaseOk(desc, i);
        AllSubsHas(desc, opens, |desc.groups|, i);
      }
    }

    method MergeGroup(from: Root, g: nat)
      requires TableOk() && Valid() && from.Valid() && Apart(from) && from.desc == desc && g < |desc.groups|
      modifies this`hasBits, this`kind, this`children, this`value, this`held, children
      ensures Valid() && Grown() && from.Valid() && Apart(from) && from.value == old(from.value)
      ensures Shown(from.hasBits) == MergeWalk(desc, old(Shown(from.hasBits)), from.value, Scalars(g), |value|)
      ensures old(hasBits) + GroupSubs(desc, from.hasBits, g, |children|) <= hasBits && (old(Tidy()) ==> Tidy())
    {
      if from.hasBits * GuardBits(desc.groups[g]) != {} {
        MergeMembers(from, g);
      } else {
        forall i | 0 <= i < |children| && desc.cases[i].group == g ensures i !in from.hasBits {
          assert CaseOk(desc, i);
          Missed(from.hasBits, GuardBits(desc.groups[g]), i);
        }
        GroupSubsNone(desc, from.hasBits, g, |children|);
        MergeNothing(desc, Shown(from.hasBits), from.value, Scalars(g), |value|);
      }
    }

    method MergeMembers(from: Root, g: nat)
      requires TableOk() && Valid() && from.Valid() && Apart(from) && from.desc == desc
      modifies this`hasBits, this`kind, this`children, this`value, this`held, children
      ensures Valid() && Grown() && from.Valid() && Apart(from) && from.value == old(from.value)
      ensures Shown(from.hasBits) == MergeWalk(desc, old(Shown(from.hasBits)), from.value, Scalars(g), |value|)
      ensures old(hasBits) + GroupSubs(desc, from.hasBits, g, |children|) <= hasBits && (old(Tidy()) ==> Tidy())
    {
      ghost var a, b, opens := Shown(from.hasBits), from.value, from.hasBits;
      for i := 0 to |children|
        invariant Valid() && Grown() && from.Valid() && Apart(from) && from.value == b && (old(Tidy()) ==> Tidy())
        invariant Shown(opens) == MergeWalk(desc, a, b, Scalars(g), i)
        invariant old(hasBits) + GroupSubs(desc, opens, g, i) <= hasBits
      {
        if desc.cases[i].group == g {
          MergeMember(from, i);
        }
      }
    }

    /** One `if (from.has_x())`. */
    method MergeMember(from: Root, i: nat)
      requires TableOk() && Valid() && from.Valid() && Apart(from) && from.desc == desc && i < |children|
      modifies this`hasBits, this`kind, this`children, this`value, this`held, children
      ensures Valid() && Grown() && from.Valid() && Apart(from) && from.value == old(from.value)
      ensures Shown(from.hasBits) == MergeOne(desc, old(Shown(from.hasBits)), from.value, i)
      ensures hasBits == old(hasBits) + (if i in from.hasBits then {i} else {}) && (old(Tidy()) ==> Tidy())
    {
      ghost var opens := from.hasBits;
      MergeOneAbsent(desc, Shown(opens), from.value, i);
      if i in from.hasBits {
        if i == 0 {
          OpenedType(desc, value, held, opens, from.value, from.kind);
          SetType(from.kind);
        } else {
          OpenedMerge(desc, value, held, opens, from.value, i, from.held[i]);
          MergeSub(from, i);
        }
      }
    }

    /** mutable_x()->MergeFrom(from.x()). */
    method MergeSub(from: Root, i: nat)
      requires TableOk() && Valid() && from.Valid() && Apart(from) && from.desc == desc
      requires 1 <= i < |children| && i in from.hasBits
      modifies this`hasBits, this`children, this`value, this`held
      modifies if children[i] == null then {} else {children[i]}
      ensures Valid() && Grown() && from.Valid() && Apart(from)
      ensures hasBits == old(hasBits) + {i} && (old(Tidy()) ==> Tidy())
      ensures held == old(held)[i := Merge(desc.cases[i].kind.desc, old(held)[i], from.held[i])]
      ensures value == old(value)[i := Msg(Some(held[i]))]
    {
      assert from.SlotOk(i);
      ghost var other := from.children[i];
      assert other in from.children && other !in children;
      var child := Mutable(i);
      assert child != other && children == old(children)[i := child];
      AbsorbChild(i, from.children[i]);
      forall j | 1 <= j < |from.children| ensures from.SlotOk(j) {
        assert old(from.SlotOk(j));
        assert from.children[j] != null ==> from.children[j] in from.children;
      }
    }

    method AbsorbChild(i: nat, other: Leaf)
      requires TableOk() && Valid() && 1 <= i < |children| && i in hasBits
      requires other.Valid() && other.desc == desc.cases[i].kind.desc && other !in children
      modifies this`value, this`held, if children[i] == null then {} else {children[i]}
      ensures Valid()
      ensures held == old(held)[i := Merge(other.desc, old(held)[i], other.value)]
      ensures value == old(value)[i := Msg(Some(held[i]))]
    {
      assert SlotOk(i) && LayoutFits(i) && SubOk(desc, i);
      var child := children[i];
      child.MergeFrom(other);
      held := held[i := child.value];
      value := value[i := Msg(Some(child.value))];
      Restored(i);
    }

    // ----- Initialization --------------------------------------------------------------------------

    /** Required bits first, then every present sub-message. */
    method IsInitialized() returns (b: bool)
      requires TableOk() && Valid()
      ensures b <==> Initialized(desc, value)
    {
      if hasBits * desc.required != desc.required {
        assert exists i :: i in desc.required && i !in hasBits;
        return false;
      }
      assert forall i | i in desc.required :: i in hasBits * desc.required;
      for i := 1 to |children|
        invariant forall j | 1 <= j < i :: InitializedSub(desc, j, value)
      {
        if i in hasBits {
          assert SlotOk(i) && LayoutFits(i) && SubOk(desc, i);
          var ok := children[i].IsInitialized();
          assert InitializedSub(desc, i, value) <==> ok;
          if !ok {
            return false;
          }
        }
      }
      return true;
    }

    // ----- What callers use ------------------------------------------------------------------------

    /** Clear, parse, and accept a message that ends with the bytes and has its required fields. */
    method ParseFromString(bytes: seq<byte>, lib: Library) returns (ok: bool)
      requires TableOk() && Valid() && Tidy()
      modifies this`hasBits, this`kind, this`children, this`value, this`held, children
      ensures Valid() && Tidy() && Grown() && Typed(desc, Empty(desc))
      ensures
        var o := Parse(desc, lib, bytes, Empty(desc));
        value == o.m && (ok <==> o.ok && o.legit && Initialized(desc, value))
    {
      Clear();
      var input := new CodedInputStream(bytes, lib);
      ok := MergePartialFromCodedStream(input);
      if ok && input.legitimateEnd {
        ok := IsInitialized();
      } else {
        ok := false;
      }
    }

    /** Sizes first, then the bytes into a buffer of exactly that size. */
    method SerializeToString() returns (bytes: seq<byte>)
      requires TableOk() && Valid() && Fits(desc, value)
      modifies this`cachedSize, children
      ensures Valid() && CachesAgree() && bytes == Ser(desc, value)
    {
      var size := ByteSize();
      var target := new ArrayTarget(size);
      SerializeWithCachedSizesToArray(target);
      bytes := target.data[..];
    }
  }
}
