/**
 What the generated message code does, read off one table per message.

 All twelve message classes are instances of one code template. A Desc holds what differs between
 them: the cases of the parser's switch with their literal tags, the operand of the ExpectTag at
 the end of each case, the cutoff, the guards over groups of has-bits and the mask of required fields.
 Case i is field number i + 1 and owns has-bit i; a has-bits word is the set of its set bits.
 */
module Schema {
  import opened Wrappers
  import opened Wire

  datatype Kind = Enum | UInt32 | Packed | Sub(desc: Desc)

  /**
   `next` is the operand of the ExpectTag that ends the case; 0 stands for ExpectAtEnd. `group` says
   which guarded block of has_x() tests handles the field in ByteSize and MergeFrom (0 for a list).
   */
  datatype Case = Case(number: nat, tag: nat, kind: Kind, next: nat, group: nat)

  /** `groups` holds the shift of each guard `_has_bits_[0] & (0xffu << shift)`. */
  datatype Desc = Desc(cases: seq<Case>, cutoff: nat, groups: seq<nat>, required: set<nat>)

  // ----- Message values -------------------------------------------------------------------

  /** A field's observable value: absent fields read as None, lists are never absent. */
  datatype Val =
    | Num(num: Option<uint32>)
    | List(xs: seq<uint32>)
    | Msg(msg: Option<seq<Val>>)

  type Message = seq<Val>

  const MAX_TYPE := 10

  predicate IsValidType(n: int) {
    0 <= n <= MAX_TYPE
  }

  function EmptyVal(k: Kind): Val {
    match k
    case Enum => Num(None)
    case UInt32 => Num(None)
    case Packed => List([])
    case Sub(_) => Msg(None)
  }

  function Empty(d: Desc): Message {
    seq(|d.cases|, i requires 0 <= i < |d.cases| => EmptyVal(d.cases[i].kind))
  }

  /** A message of this description whose enum fields hold declared values. */
  predicate Typed(d: Desc, m: Message)
    decreases d, 1
  {
    |m| == |d.cases| && forall i | 0 <= i < |m| :: TypedVal(d, i, m[i])
  }

  predicate TypedVal(d: Desc, i: nat, v: Val)
    requires i < |d.cases|
    decreases d, 0
  {
    match d.cases[i].kind
    case Enum => v.Num? && (v.num.Some? ==> IsValidType(v.num.value))
    case UInt32 => v.Num?
    case Packed => v.List?
    case Sub(e) => v.Msg? && (v.msg.Some? ==> Typed(e, v.msg.value))
  }

  lemma EmptyTyped(d: Desc)
    ensures Typed(d, Empty(d))
  {
  }

  // ----- The tables' own consistency ------------------------------------------------------

  function WireType(k: Kind): nat {
    if k.Enum? || k.UInt32? then 0 else 2
  }

  predicate CaseOk(d: Desc, i: nat)
    requires i < |d.cases|
  {
    var c := d.cases[i];
    && c.number == i + 1
    && c.tag == 8 * c.number + WireType(c.kind)
    && c.tag <= d.cutoff
    && c.next == (if i + 1 < |d.cases| then d.cases[i + 1].tag else 0)
    && c.group < |d.groups|
    && (!c.kind.Packed? ==> i in GuardBits(d.groups[c.group]))
  }

  /** The bits of `0xffu << shift`. */
  function GuardBits(shift: nat): set<nat> {
    {shift, shift + 1, shift + 2, shift + 3, shift + 4, shift + 5, shift + 6, shift + 7}
  }

  ghost predicate WellFormed(d: Desc) {
    && 1 <= |d.cases| <= 32
    && d.cutoff < 0x4000
    && (forall i | 0 <= i < |d.cases| :: CaseOk(d, i))
    && (forall i | i in d.required :: i < |d.cases| && !d.cases[i].kind.Packed?)
    && (forall i | 0 <= i < |d.cases| :: SubOk(d, i))
  }

  ghost predicate SubOk(d: Desc, i: nat)
    requires i < |d.cases|
  {
    d.cases[i].kind.Sub? ==> WellFormed(d.cases[i].kind.desc)
  }

  predicate IsLeaf(d: Desc) {
    forall i | 0 <= i < |d.cases| :: !d.cases[i].kind.Sub?
  }

  // ----- Serialized form ------------------------------------------------------------------

  /** One field's bytes: tag and value, tag and length and payload, or nothing when absent. */
  function SerField(d: Desc, i: nat, v: Val): seq<byte>
    requires i < |d.cases| && TypedVal(d, i, v)
    decreases d, 0, 0
  {
    var tag := Varint(d.cases[i].tag);
    match v
    case Num(None) => []
    case Num(Some(n)) => tag + Varint(n)
    case List(xs) => if xs == [] then [] else tag + Varint(|Wire.Packed(xs)|) + Wire.Packed(xs)
    case Msg(None) => []
    case Msg(Some(a)) =>
      var body := Ser(d.cases[i].kind.desc, a);
      tag + Varint(|body|) + body
  }

  function SerFrom(d: Desc, m: Message, i: nat): seq<byte>
    requires Typed(d, m) && i <= |m|
    decreases d, 1, |m| - i
  {
    if i == |m| then [] else SerField(d, i, m[i]) + SerFrom(d, m, i + 1)
  }

  /** The serialized message: its present fields in field-number order. */
  function Ser(d: Desc, m: Message): seq<byte>
    requires Typed(d, m)
    decreases d, 2, 0
  {
    SerFrom(d, m, 0)
  }

  /** Messages a 32-bit `int` size can describe, the limit of both implementations. */
  predicate Fits(d: Desc, m: Message)
    requires Typed(d, m)
  {
    |Ser(d, m)| <= INT_MAX
  }

  // ----- Merging --------------------------------------------------------------------------

  /** MergeFrom of `b` into `a`: scalars of `b` win, lists append, sub-messages merge. */
  function Merge(d: Desc, a: Message, b: Message): (m: Message)
    requires Typed(d, a) && Typed(d, b)
    ensures Typed(d, m)
    decreases d, 1
  {
    seq(|a|, i requires 0 <= i < |a| => MergeVal(d, i, a[i], b[i]))
  }

  function MergeVal(d: Desc, i: nat, a: Val, b: Val): (v: Val)
    requires i < |d.cases| && TypedVal(d, i, a) && TypedVal(d, i, b)
    ensures TypedVal(d, i, v)
    decreases d, 0
  {
    match b
    case Num(n) => if n.Some? then b else a
    case List(ys) => List(a.xs + ys)
    case Msg(None) => a
    case Msg(Some(y)) =>
      var e := d.cases[i].kind.desc;
      if a.msg.Some? then EmptyTyped(e); Msg(Some(Merge(e, a.msg.value, y)))
      else EmptyTyped(e); Msg(Some(Merge(e, Empty(e), y)))
  }

  // ----- Parsing: read a tag, dispatch, repeat ---------------------------------------------

  /**
   The callees that are not in the repository, each an arbitrary function:
   `skip` gives the bytes an unknown field takes, `unpacked` reads the elements of a list field
   that arrives under its unpacked tag, `overlong` says how many of the available bytes a length
   prefix larger than the rest of the input gets, None for a refusal.
   */
  datatype Library = Library(
    skip: (nat, seq<byte>) -> Option<nat>,
    unpacked: (nat, seq<byte>) -> Option<(seq<uint32>, nat)>,
    overlong: (nat, nat) -> Option<nat>)
  {
    function Skip(tag: nat, s: seq<byte>): (r: Option<nat>)
      ensures r.Some? ==> r.value <= |s|
    {
      var r := skip(tag, s);
      if r.Some? && r.value <= |s| then r else None
    }

    function Unpacked(tag: nat, s: seq<byte>): (r: Option<(seq<uint32>, nat)>)
      ensures r.Some? ==> r.value.1 <= |s|
    {
      var r := unpacked(tag, s);
      if r.Some? && r.value.1 <= |s| then r else None
    }

    function Window(length: nat, available: nat): (r: Option<nat>)
      ensures r.Some? ==> r.value <= available
    {
      if length <= available then Some(length)
      else
        var r := overlong(length, available);
        if r.Some? && r.value <= available then r else None
    }
  }

  /** What a parse leaves: the message even when it failed, and whether it stopped at the end. */
  datatype Outcome = Outcome(ok: bool, legit: bool, m: Message)

  datatype Read = Read(ok: bool, v: Val, rest: seq<byte>)

  /** The payload of case i, after its tag, into the field's current value. */
  function ReadVal(d: Desc, i: nat, lib: Library, s: seq<byte>, v: Val): (r: Read)
    requires i < |d.cases| && TypedVal(d, i, v)
    ensures TypedVal(d, i, r.v) && |r.rest| <= |s|
    decreases d, |s|, 0
  {
    match d.cases[i].kind
    case Enum => (
      match ReadVarint32(s)
      case None => Read(false, v, s)
      case Some(p) => Read(true, if IsValidType(p.0) then Num(Some(p.0)) else v, s[p.1..]))
    case UInt32 => (
      match ReadVarint32(s)
      case None => Read(false, v, s)
      case Some(p) => Read(true, Num(Some(p.0)), s[p.1..]))
    case Packed => (
      match Prefixed(lib, s)
      case None => Read(false, v, s)
      case Some(w) => var r := ReadPacked(w.0); Read(r.0, List(v.xs + r.1), w.1))
    case Sub(e) =>
      EmptyTyped(e);
      var was := if v.msg.Some? then v.msg.value else Empty(e);
      match Prefixed(lib, s)
      case None => Read(false, Msg(Some(was)), s)
      case Some(w) =>
        var o := Parse(e, lib, w.0, was);
        Read(o.ok && o.legit, Msg(Some(o.m)), w.1)
  }

  /** A length prefix, the bytes under it and the bytes after them. */
  function Prefixed(lib: Library, s: seq<byte>): (r: Option<(seq<byte>, seq<byte>)>)
    ensures r.Some? ==> |r.value.0| + |r.value.1| < |s|
  {
    match ReadVarint32(s)
    case None => None
    case Some(p) =>
      match lib.Window(p.0, |s| - p.1)
      case None => None
      case Some(n) => Some((s[p.1..p.1 + n], s[p.1 + n..]))
  }

  datatype Action = Field(i: nat) | UnpackedField(i: nat) | Unusual

  /** The first case, from k on, that this exact tag belongs to. */
  function Dispatch(d: Desc, tag: nat, k: nat): (a: Action)
    requires k <= |d.cases|
    ensures !a.Unusual? ==> k <= a.i < |d.cases|
    ensures a.Field? ==> d.cases[a.i].tag == tag
    ensures a.UnpackedField? ==> d.cases[a.i].kind.Packed? && tag == 8 * d.cases[a.i].number
    decreases |d.cases| - k
  {
    if k == |d.cases| then Unusual
    else if d.cases[k].tag == tag then Field(k)
    else if d.cases[k].kind.Packed? && tag == 8 * d.cases[k].number then UnpackedField(k)
    else Dispatch(d, tag, k + 1)
  }

  const END_GROUP := 4

  /** One field, after its tag: the message and the bytes that follow. */
  function Step(d: Desc, lib: Library, tag: nat, s: seq<byte>, m: Message): (r: (bool, Message, seq<byte>))
    requires Typed(d, m)
    ensures Typed(d, r.1) && |r.2| <= |s|
    decreases d, |s|, 1
  {
    match Dispatch(d, tag, 0)
    case Field(i) =>
      var r := ReadVal(d, i, lib, s, m[i]);
      (r.ok, m[i := r.v], r.rest)
    case UnpackedField(i) => (
      assert TypedVal(d, i, m[i]);
      match lib.Unpacked(tag, s)
      case None => (false, m, s)
      case Some(p) => (true, m[i := List(m[i].xs + p.0)], s[p.1..]))
    case Unusual => (
      match lib.Skip(tag, s)
      case None => (false, m, s)
      case Some(n) => (true, m, s[n..]))
  }

  /** The plain loop: read a tag; stop at 0 or an end-group tag; take one field; repeat. */
  function Parse(d: Desc, lib: Library, s: seq<byte>, m: Message): (o: Outcome)
    requires Typed(d, m)
    ensures Typed(d, o.m)
    decreases d, |s|, 2
  {
    if s == [] then Outcome(true, true, m)
    else match ReadVarint32(s)
      case None => Outcome(true, false, m)
      case Some(p) =>
        if p.0 == 0 || p.0 % 8 == END_GROUP then Outcome(true, false, m)
        else
          var r := Step(d, lib, p.0, s[p.1..], m);
          if r.0 then Parse(d, lib, r.2, r.1) else Outcome(false, false, r.1)
  }
}
