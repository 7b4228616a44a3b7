/**
 The replies of the message handler: one freshly built sub-message under an AllInOneMessage of the
 same type, serialized; and what any receiver gets when it parses them.
 */
module Replies {
  import opened Wrappers
  import opened Wire
  import opened Schema
  import opened MessageTables
  import opened LeafMessage
  import opened RootMessage
  import AllInOne

  /** No list of a reply is longer than this. */
  const CAP := 2048

  predicate Capped(m: Message) {
    forall i | 0 <= i < |m| && m[i].List? :: |m[i].xs| <= CAP
  }

  // ----- Reply sizes ----------------------------------------------------------------------------------

  lemma {:induction false} PackedBound(xs: seq<uint32>)
    ensures |Wire.Packed(xs)| <= 5 * |xs|
  {
    if xs != [] {
      PackedBound(xs[1..]);
      VarintSizeIsLength(xs[0]);
    }
  }

  lemma {:induction false} LeafBound(d: Desc, m: Message, i: nat)
    requires WellFormed(d) && IsLeaf(d) && Typed(d, m) && Capped(m) && i <= |m|
    ensures |SerFrom(d, m, i)| <= (7 + 5 * CAP) * (|m| - i)
    decreases |m| - i
  {
    if i < |m| {
      LeafBound(d, m, i + 1);
      FieldBound(d, m, i);
    }
  }

  lemma FieldBound(d: Desc, m: Message, i: nat)
    requires WellFormed(d) && IsLeaf(d) && Typed(d, m) && Capped(m) && i < |m|
    ensures TypedVal(d, i, m[i]) && |SerField(d, i, m[i])| <= 7 + 5 * CAP
  {
    assert CaseOk(d, i) && TypedVal(d, i, m[i]);
    VarintSizeIsLength(d.cases[i].tag);
    if m[i].List? {
      PackedBound(m[i].xs);
      VarintSizeIsLength(|Wire.Packed(m[i].xs)|);
    } else if m[i].num.Some? {
      VarintSizeIsLength(m[i].num.value);
    }
  }

  // ----- The reply as a message -------------------------------------------------------------------------

  /** AllInOneMessage with a type and one sub-message. */
  function ReplyMessage(kind: uint32, i: nat, child: Message): (m: Message)
    requires 1 <= i < |ALL_IN_ONE.cases|
    ensures |m| == |ALL_IN_ONE.cases|
  {
    Empty(ALL_IN_ONE)[0 := Num(Some(kind))][i := Msg(Some(child))]
  }

  /** Field i is the one sub-message, and its type is `kind` too. */
  ghost predicate OnlySub(m: Message, i: nat, kind: uint32) {
    && 1 <= i < |m| && m[i].Msg? && m[i].msg.Some? && |m[i].msg.value| > 0 && m[i].msg.value[0] == Num(Some(kind))
    && forall j | 1 <= j < |m| && j != i :: m[j] == Msg(None)
  }

  /** The bytes parse, to the end, as an initialized AllInOneMessage of this type with one sub-message of it. */
  ghost predicate ParsesAs(lib: Library, bytes: seq<byte>, kind: uint32)
    requires Typed(ALL_IN_ONE, Empty(ALL_IN_ONE))
  {
    var o := Parse(ALL_IN_ONE, lib, bytes, Empty(ALL_IN_ONE));
    && o.ok && o.legit && o.m[0] == Num(Some(kind))
    && (AllInOneWellFormed(); Initialized(ALL_IN_ONE, o.m))
    && exists i :: OnlySub(o.m, i, kind)
  }

  /** A sub-message fit to be sent under this type: its own type agrees and its required fields are set. */
  ghost predicate Sendable(kind: uint32, i: nat, child: Message) {
    && 1 <= i < |ALL_IN_ONE.cases| && IsValidType(kind)
    && (AllInOne.LayoutsFit(i); AllInOneWellFormed();
        assert SubOk(ALL_IN_ONE, i);
        var d := ALL_IN_ONE.cases[i].kind.desc;
        Typed(d, child) && Capped(child) && |child| > 0 && child[0] == Num(Some(kind)) && Initialized(d, child))
  }

  lemma ReplyTyped(kind: uint32, i: nat, child: Message)
    requires Sendable(kind, i, child)
    ensures Typed(ALL_IN_ONE, ReplyMessage(kind, i, child))
  {
    AllInOneWellFormed();
    AllInOne.AllInOneIsRoot();
    EmptyTyped(ALL_IN_ONE);
    var m := ReplyMessage(kind, i, child);
    forall j | 0 <= j < |m| ensures TypedVal(ALL_IN_ONE, j, m[j]) {
      assert TypedVal(ALL_IN_ONE, j, Empty(ALL_IN_ONE)[j]);
    }
  }

  lemma ReplyFits(kind: uint32, i: nat, child: Message)
    requires Sendable(kind, i, child) && Typed(ALL_IN_ONE, ReplyMessage(kind, i, child))
    ensures Fits(ALL_IN_ONE, ReplyMessage(kind, i, child))
  {
    AllInOneWellFormed();
    AllInOne.LayoutsFit(i);
    var d := ALL_IN_ONE.cases[i].kind.desc;
    assert SubOk(ALL_IN_ONE, i);
    LeafBound(d, child, 0);
    SparseBound(kind, i, child, 0);
  }

  /** Absent fields have no bytes, so the reply is its type and one sub-message. */
  lemma {:induction false} SparseBound(kind: uint32, i: nat, child: Message, n: nat)
    requires Sendable(kind, i, child) && Typed(ALL_IN_ONE, ReplyMessage(kind, i, child)) && n <= |ALL_IN_ONE.cases|
    requires |Ser(ALL_IN_ONE.cases[i].kind.desc, child)| <= 0x10_0000
    ensures
      |SerFrom(ALL_IN_ONE, ReplyMessage(kind, i, child), n)|
      <= (if n == 0 then 7 else 0) + (if n <= i then 7 + 0x10_0000 else 0)
    decreases |ALL_IN_ONE.cases| - n
  {
    var m := ReplyMessage(kind, i, child);
    if n < |m| {
      SparseBound(kind, i, child, n + 1);
      AllInOneWellFormed();
      assert CaseOk(ALL_IN_ONE, n) && TypedVal(ALL_IN_ONE, n, m[n]);
      VarintSizeIsLength(ALL_IN_ONE.cases[n].tag);
      if n == i {
        VarintSizeIsLength(|Ser(ALL_IN_ONE.cases[i].kind.desc, child)|);
      } else if n == 0 {
        VarintSizeIsLength(kind);
      } else {
        assert m[n] == EmptyVal(ALL_IN_ONE.cases[n].kind);
      }
    }
  }

  /** Whatever receives the reply gets the type, the one sub-message, and nothing else. */
  lemma ReplyParses(lib: Library, kind: uint32, i: nat, child: Message)
    requires Sendable(kind, i, child)
    ensures Typed(ALL_IN_ONE, ReplyMessage(kind, i, child)) && Typed(ALL_IN_ONE, Empty(ALL_IN_ONE))
    ensures ParsesAs(lib, Ser(ALL_IN_ONE, ReplyMessage(kind, i, child)), kind)
  {
    var m := ReplyMessage(kind, i, child);
    ReplyTyped(kind, i, child);
    ReplyFits(kind, i, child);
    AllInOne.RoundTrip(lib, m);
    AllInOneWellFormed();
    AllInOne.AllInOneIsRoot();
    ReplyInitialized(kind, i, child);
    assert OnlySub(m, i, kind);
  }

  lemma ReplyInitialized(kind: uint32, i: nat, child: Message)
    requires Sendable(kind, i, child) && Typed(ALL_IN_ONE, ReplyMessage(kind, i, child)) && WellFormed(ALL_IN_ONE)
    ensures Initialized(ALL_IN_ONE, ReplyMessage(kind, i, child))
  {
    var m := ReplyMessage(kind, i, child);
    forall j | 0 <= j < |m| && ALL_IN_ONE.cases[j].kind.Sub? ensures InitializedSub(ALL_IN_ONE, j, m) {
      if j != i {
        assert m[j] == EmptyVal(ALL_IN_ONE.cases[j].kind);
      }
    }
  }

  /** set_type(), set_allocated_x() and SerializeToString() on a new AllInOneMessage. */
  method SendReply(kind: uint32, i: nat, child: Leaf) returns (bytes: seq<byte>)
    requires 1 <= i < |ALL_IN_ONE.cases| && ALL_IN_ONE.cases[i].kind.Sub?
    requires child.desc == ALL_IN_ONE.cases[i].kind.desc && child.layout == AllInOne.LAYOUTS[i] && child.Valid()
    requires Sendable(kind, i, child.value)
    modifies child
    ensures Typed(ALL_IN_ONE, ReplyMessage(kind, i, old(child.value)))
    ensures bytes == Ser(ALL_IN_ONE, ReplyMessage(kind, i, old(child.value)))
  {
    ReplyTyped(kind, i, child.value);
    ReplyFits(kind, i, child.value);
    var aio := AllInOne.New();
    aio.SetType(kind);
    ghost var empty := aio.children;
    assert child !in empty;
    aio.SetAllocated(i, child);
    assert forall k | 0 <= k < |empty| && k != i :: aio.children[k] == empty[k] && empty[k] in empty;
    bytes := aio.SerializeToString();
  }
}
