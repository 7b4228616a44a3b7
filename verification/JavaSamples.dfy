/**
 One run of Java builders and messages with every answer in full: fill, build, edit, merge, build again, ask.
 */
module JavaSamples {
  import opened Wrappers
  import opened Wire
  import opened Schema
  import opened JavaTables
  import opened JavaSession
  import CodecTheorems

  /** The run can be made and gives these answers. */
  ghost predicate Gives(d: Desc, skip: (nat, seq<byte>) -> Option<nat>, hashes: (uint32, uint32), ops: seq<Op>,
                        v: Values, answers: seq<Answer>) {
    && Plain(d) && |d.cases| <= 32 && ValuesOk(d, v) && Runnable(d, skip, ops, v)
    && AnswersTo(d, skip, hashes, ops, v) == answers
  }

  /** One more operation in front of a run. */
  lemma Before(d: Desc, skip: (nat, seq<byte>) -> Option<nat>, hashes: (uint32, uint32), op: Op, ops: seq<Op>,
               v: Values, answers: seq<Answer>)
    requires ops != [] && ops[0] == op && Plain(d) && |d.cases| <= 32 && ValuesOk(d, v) && Callable(d, op, v)
    requires answers != [] && AnswerTo(d, skip, hashes, op, v) == answers[0]
    requires Gives(d, skip, hashes, ops[1..], Apply(d, skip, op, v), answers[1..])
    ensures Gives(d, skip, hashes, ops, v, answers)
  {
    assert answers == [answers[0]] + answers[1..];
  }

  /** A MessageMSG1 with a type and the first of its three lists. */
  function Msg1Of(t: Option<uint32>, xs: seq<uint32>): Message {
    [Num(t), List(xs), List([]), List([])]
  }

  lemma Msg1Typed(t: Option<uint32>, xs: seq<uint32>)
    ensures Typed(DescOf(JAVA_MSG1), Msg1Of(t, xs)) && Plain(DescOf(JAVA_MSG1)) && |DescOf(JAVA_MSG1).cases| == 4
  {
    var d := DescOf(JAVA_MSG1);
    assert d.cases[0] == CaseOf(JAVA_MSG1, 0) && d.cases[1] == CaseOf(JAVA_MSG1, 1);
    assert d.cases[2] == CaseOf(JAVA_MSG1, 2) && d.cases[3] == CaseOf(JAVA_MSG1, 3);
    forall i | 0 <= i < 4 ensures TypedVal(d, i, Msg1Of(t, xs)[i]) {
      assert i == 0 || i == 1 || i == 2 || i == 3;
    }
  }

  /** Its bytes. */
  lemma Msg1Bytes(t: byte, xs: seq<uint32>)
    requires t < 128 && 0 < |Wire.Packed(xs)| < 128
    ensures Typed(DescOf(JAVA_MSG1), Msg1Of(Some(t), xs))
    ensures Ser(DescOf(JAVA_MSG1), Msg1Of(Some(t), xs)) == [8, t, 18, |Wire.Packed(xs)|] + Wire.Packed(xs)
  {
    var d, m := DescOf(JAVA_MSG1), Msg1Of(Some(t), xs);
    Msg1Typed(Some(t), xs);
    assert d.cases[0] == CaseOf(JAVA_MSG1, 0) && d.cases[1] == CaseOf(JAVA_MSG1, 1);
    assert d.cases[2] == CaseOf(JAVA_MSG1, 2) && d.cases[3] == CaseOf(JAVA_MSG1, 3);
    CodecTheorems.AbsentTail(d, m, 2);
    assert SerFrom(d, m, 1) == [18, |Wire.Packed(xs)|] + Wire.Packed(xs) by {
      assert SerFrom(d, m, 1) == SerField(d, 1, m[1]) + SerFrom(d, m, 2);
    }
    assert Ser(d, m) == SerField(d, 0, m[0]) + SerFrom(d, m, 1);
    assert SerField(d, 0, m[0]) == [8, t];
  }

  /** An edit of the only builder. */
  lemma EditFirst(skip: (nat, seq<byte>) -> Option<nat>, hashes: (uint32, uint32), e: Edit, ops: seq<Op>,
                  m: Message, r: Message, messages: seq<Message>, answers: seq<Answer>)
    requires ops != [] && ops[0] == EditBuilder(0, e) && Plain(DescOf(JAVA_MSG1))
    requires ValuesOk(DescOf(JAVA_MSG1), Values([m], messages)) && EditOk(DescOf(JAVA_MSG1), e)
    requires Typed(DescOf(JAVA_MSG1), m) && r == Edited(DescOf(JAVA_MSG1), e, m)
    requires answers != [] && answers[0] == EditAnswer(e, m)
    requires Gives(DescOf(JAVA_MSG1), skip, hashes, ops[1..], Values([r], messages), answers[1..])
    ensures Gives(DescOf(JAVA_MSG1), skip, hashes, ops, Values([m], messages), answers)
  {
    var d, v := DescOf(JAVA_MSG1), Values([m], messages);
    assert v.builders[0] == m && [m][0 := r] == [r];
    Before(d, skip, hashes, EditBuilder(0, e), ops, v, answers);
  }

  /** Queries about two messages. */
  lemma Asked(skip: (nat, seq<byte>) -> Option<nat>, hashes: (uint32, uint32))
    ensures
      Gives(DescOf(JAVA_MSG1), skip, hashes, [Ask(0, Bytes), Ask(1, Bytes), Ask(1, Size), Ask(0, Equal(1))],
            Values([Msg1Of(Some(5), [9, 8, 7])], [Msg1Of(Some(5), [7]), Msg1Of(Some(5), [9, 8, 7])]),
            [Data([8, 5, 18, 1, 7]), Data([8, 5, 18, 3, 9, 8, 7]), Number(7), Flag(false)])
  {
    var d := DescOf(JAVA_MSG1);
    var one, all := Msg1Of(Some(5), [7]), Msg1Of(Some(5), [9, 8, 7]);
    SampleBytes();
    var v := Values([all], [one, all]);
    var ops := [Ask(0, Bytes), Ask(1, Bytes), Ask(1, Size), Ask(0, Equal(1))];
    var answers := [Data([8, 5, 18, 1, 7]), Data([8, 5, 18, 3, 9, 8, 7]), Number(7), Flag(false)];
    assert one[1] != all[1];
    assert Gives(d, skip, hashes, ops[4..], v, answers[4..]);
    assert ops[3..][1..] == ops[4..] && answers[3..][1..] == answers[4..];
    Before(d, skip, hashes, ops[3], ops[3..], v, answers[3..]);
    assert ops[2..][1..] == ops[3..] && answers[2..][1..] == answers[3..];
    Before(d, skip, hashes, ops[2], ops[2..], v, answers[2..]);
    assert ops[1..][1..] == ops[2..] && answers[1..][1..] == answers[2..];
    Before(d, skip, hashes, ops[1], ops[1..], v, answers[1..]);
    Before(d, skip, hashes, ops[0], ops, v, answers);
  }

  lemma SampleBytes()
    ensures Plain(DescOf(JAVA_MSG1)) && |DescOf(JAVA_MSG1).cases| == 4
    ensures Typed(DescOf(JAVA_MSG1), Msg1Of(Some(5), [7])) && Typed(DescOf(JAVA_MSG1), Msg1Of(Some(5), [9, 8, 7]))
    ensures Ser(DescOf(JAVA_MSG1), Msg1Of(Some(5), [7])) == [8, 5, 18, 1, 7]
    ensures Ser(DescOf(JAVA_MSG1), Msg1Of(Some(5), [9, 8, 7])) == [8, 5, 18, 3, 9, 8, 7]
  {
    assert [9, 8, 7][1..] == [8, 7] && [8, 7][1..] == [7] && [7][1..] == [];
    assert Wire.Packed([7]) == [7];
    assert Wire.Packed([8, 7]) == [8, 7];
    assert Wire.Packed([9, 8, 7]) == [9, 8, 7];
    Msg1Bytes(5, [7]);
    Msg1Bytes(5, [9, 8, 7]);
  }

  /** The builder that holds 9, 8 takes over the message that holds 7, and is built. */
  lemma MergedAndBuilt(skip: (nat, seq<byte>) -> Option<nat>, hashes: (uint32, uint32))
    ensures
      Gives(DescOf(JAVA_MSG1), skip, hashes,
            [MergeFrom(0, 0), BuildPartial(0), Ask(0, Bytes), Ask(1, Bytes), Ask(1, Size), Ask(0, Equal(1))],
            Values([Msg1Of(Some(5), [9, 8])], [Msg1Of(Some(5), [7])]),
            [Done, Done, Data([8, 5, 18, 1, 7]), Data([8, 5, 18, 3, 9, 8, 7]), Number(7), Flag(false)])
  {
    var d := DescOf(JAVA_MSG1);
    var one, two, all := Msg1Of(Some(5), [7]), Msg1Of(Some(5), [9, 8]), Msg1Of(Some(5), [9, 8, 7]);
    Msg1Typed(Some(5), [7]);
    Msg1Typed(Some(5), [9, 8]);
    Msg1Typed(Some(5), [9, 8, 7]);
    Asked(skip, hashes);
    var ops := [MergeFrom(0, 0), BuildPartial(0), Ask(0, Bytes), Ask(1, Bytes), Ask(1, Size), Ask(0, Equal(1))];
    var answers := [Done, Done, Data([8, 5, 18, 1, 7]), Data([8, 5, 18, 3, 9, 8, 7]), Number(7), Flag(false)];
    assert ops[1..][1..] == [Ask(0, Bytes), Ask(1, Bytes), Ask(1, Size), Ask(0, Equal(1))];
    assert answers[1..][1..] == [Data([8, 5, 18, 1, 7]), Data([8, 5, 18, 3, 9, 8, 7]), Number(7), Flag(false)];
    assert [one] + [all] == [one, all];
    Before(d, skip, hashes, BuildPartial(0), ops[1..], Values([all], [one]), answers[1..]);
    assert Merge(d, two, one) == all by {
      var xs, none: seq<uint32> := [9, 8], [];
      assert xs + [7] == [9, 8, 7] && none + none == none;
      forall i | 0 <= i < 4 ensures Merge(d, two, one)[i] == all[i] {
        assert TypedVal(d, i, two[i]) && TypedVal(d, i, one[i]);
        assert i == 0 || i == 1 || i == 2 || i == 3;
      }
    }
    assert [two][0 := all] == [all];
    Before(d, skip, hashes, MergeFrom(0, 0), ops, Values([two], [one]), answers);
  }

  lemma EditedTwice(skip: (nat, seq<byte>) -> Option<nat>, hashes: (uint32, uint32), ops: seq<Op>,
                    answers: seq<Answer>)
    requires |ops| >= 3 && ops[0] == EditBuilder(0, SetElement(1, 0, 9)) && ops[1] == EditBuilder(0, AddAll(1, [8]))
    requires ops[2] == EditBuilder(0, SetElement(1, 2, 1))
    requires |answers| >= 3 && answers[0] == Flag(true) && answers[1] == Done && answers[2] == Flag(false)
    requires
      Gives(DescOf(JAVA_MSG1), skip, hashes, ops[1..][1..][1..],
            Values([Msg1Of(Some(5), [9, 8])], [Msg1Of(Some(5), [7])]), answers[1..][1..][1..])
    ensures
      Gives(DescOf(JAVA_MSG1), skip, hashes, ops, Values([Msg1Of(Some(5), [7])], [Msg1Of(Some(5), [7])]), answers)
  {
    var seven, nine, two := Msg1Of(Some(5), [7]), Msg1Of(Some(5), [9]), Msg1Of(Some(5), [9, 8]);
    Msg1Typed(Some(5), [7]);
    Msg1Typed(Some(5), [9]);
    Msg1Typed(Some(5), [9, 8]);
    assert [9] + [8] == [9, 8] && [7][0 := 9] == [9] && two[1 := List([9, 8])] == two;
    EditFirst(skip, hashes, SetElement(1, 2, 1), ops[1..][1..], two, two, [seven], answers[1..][1..]);
    EditFirst(skip, hashes, AddAll(1, [8]), ops[1..], nine, two, [seven], answers[1..]);
    EditFirst(skip, hashes, SetElement(1, 0, 9), ops, seven, nine, [seven], answers);
  }

  lemma FilledAndBuilt(skip: (nat, seq<byte>) -> Option<nat>, hashes: (uint32, uint32), ops: seq<Op>,
                       answers: seq<Answer>)
    requires |ops| >= 3 && ops[0] == EditBuilder(0, SetScalar(0, 5)) && ops[1] == EditBuilder(0, Add(1, 7))
    requires ops[2] == BuildPartial(0) && |answers| >= 3 && answers[0] == answers[1] == answers[2] == Done
    requires
      Gives(DescOf(JAVA_MSG1), skip, hashes, ops[1..][1..][1..], Values([Msg1Of(Some(5), [7])], [Msg1Of(Some(5), [7])]),
            answers[1..][1..][1..])
    ensures Gives(DescOf(JAVA_MSG1), skip, hashes, ops, Values([Msg1Of(None, [])], []), answers)
  {
    var none, typed, seven := Msg1Of(None, []), Msg1Of(Some(5), []), Msg1Of(Some(5), [7]);
    Msg1Typed(None, []);
    Msg1Typed(Some(5), []);
    Msg1Typed(Some(5), [7]);
    assert [] + [7] == [7] && [] + [seven] == [seven];
    Before(DescOf(JAVA_MSG1), skip, hashes, BuildPartial(0), ops[1..][1..], Values([seven], []), answers[1..][1..]);
    EditFirst(skip, hashes, Add(1, 7), ops[1..], typed, seven, [], answers[1..]);
    EditFirst(skip, hashes, SetScalar(0, 5), ops, none, typed, [], answers);
  }

  /** From the first build on. */
  lemma EditedAndMerged(skip: (nat, seq<byte>) -> Option<nat>, hashes: (uint32, uint32))
    ensures
      Gives(DescOf(JAVA_MSG1), skip, hashes,
            [EditBuilder(0, SetElement(1, 0, 9)), EditBuilder(0, AddAll(1, [8])), EditBuilder(0, SetElement(1, 2, 1)),
             MergeFrom(0, 0), BuildPartial(0), Ask(0, Bytes), Ask(1, Bytes), Ask(1, Size), Ask(0, Equal(1))],
            Values([Msg1Of(Some(5), [7])], [Msg1Of(Some(5), [7])]),
            [Flag(true), Done, Flag(false), Done, Done,
             Data([8, 5, 18, 1, 7]), Data([8, 5, 18, 3, 9, 8, 7]), Number(7), Flag(false)])
  {
    var ops := [
      EditBuilder(0, SetElement(1, 0, 9)), EditBuilder(0, AddAll(1, [8])), EditBuilder(0, SetElement(1, 2, 1)),
      MergeFrom(0, 0), BuildPartial(0), Ask(0, Bytes), Ask(1, Bytes), Ask(1, Size), Ask(0, Equal(1))];
    var answers := [
      Flag(true), Done, Flag(false), Done, Done,
      Data([8, 5, 18, 1, 7]), Data([8, 5, 18, 3, 9, 8, 7]), Number(7), Flag(false)];
    assert ops[1..][1..][1..]
           == [MergeFrom(0, 0), BuildPartial(0), Ask(0, Bytes), Ask(1, Bytes), Ask(1, Size), Ask(0, Equal(1))];
    assert answers[1..][1..][1..]
           == [Done, Done, Data([8, 5, 18, 1, 7]), Data([8, 5, 18, 3, 9, 8, 7]), Number(7), Flag(false)];
    MergedAndBuilt(skip, hashes);
    EditedTwice(skip, hashes, ops, answers);
  }

  /**
   A builder with a type and one element is built. It is edited, the first message is merged into it and
   it is built again: the first message still has what it was built with.
   */
  lemma SampleRun(skip: (nat, seq<byte>) -> Option<nat>, hashes: (uint32, uint32))
    ensures
      Gives(DescOf(JAVA_MSG1), skip, hashes,
            [NewBuilder, EditBuilder(0, SetScalar(0, 5)), EditBuilder(0, Add(1, 7)), BuildPartial(0),
             EditBuilder(0, SetElement(1, 0, 9)), EditBuilder(0, AddAll(1, [8])), EditBuilder(0, SetElement(1, 2, 1)),
             MergeFrom(0, 0), BuildPartial(0), Ask(0, Bytes), Ask(1, Bytes), Ask(1, Size), Ask(0, Equal(1))],
            Values([], []),
            [Done, Done, Done, Done, Flag(true), Done, Flag(false), Done, Done,
             Data([8, 5, 18, 1, 7]), Data([8, 5, 18, 3, 9, 8, 7]), Number(7), Flag(false)])
  {
    var d := DescOf(JAVA_MSG1);
    var ops := [
      NewBuilder, EditBuilder(0, SetScalar(0, 5)), EditBuilder(0, Add(1, 7)), BuildPartial(0),
      EditBuilder(0, SetElement(1, 0, 9)), EditBuilder(0, AddAll(1, [8])), EditBuilder(0, SetElement(1, 2, 1)),
      MergeFrom(0, 0), BuildPartial(0), Ask(0, Bytes), Ask(1, Bytes), Ask(1, Size), Ask(0, Equal(1))];
    var answers := [
      Done, Done, Done, Done, Flag(true), Done, Flag(false), Done, Done,
      Data([8, 5, 18, 1, 7]), Data([8, 5, 18, 3, 9, 8, 7]), Number(7), Flag(false)];
    assert ops[1..][1..][1..][1..]
           == [EditBuilder(0, SetElement(1, 0, 9)), EditBuilder(0, AddAll(1, [8])),
               EditBuilder(0, SetElement(1, 2, 1)), MergeFrom(0, 0), BuildPartial(0),
               Ask(0, Bytes), Ask(1, Bytes), Ask(1, Size), Ask(0, Equal(1))];
    assert answers[1..][1..][1..][1..]
           == [Flag(true), Done, Flag(false), Done, Done,
               Data([8, 5, 18, 1, 7]), Data([8, 5, 18, 3, 9, 8, 7]), Number(7), Flag(false)];
    EditedAndMerged(skip, hashes);
    FilledAndBuilt(skip, hashes, ops[1..], answers[1..]);
    NewFirst(skip, hashes, ops, answers);
  }

  lemma NewFirst(skip: (nat, seq<byte>) -> Option<nat>, hashes: (uint32, uint32), ops: seq<Op>, answers: seq<Answer>)
    requires ops != [] && ops[0] == NewBuilder && answers != [] && answers[0] == Done
    requires Gives(DescOf(JAVA_MSG1), skip, hashes, ops[1..], Values([Msg1Of(None, [])], []), answers[1..])
    ensures Gives(DescOf(JAVA_MSG1), skip, hashes, ops, Values([], []), answers)
  {
    var d := DescOf(JAVA_MSG1);
    Msg1Typed(None, []);
    assert Empty(d) == Msg1Of(None, []) by {
      assert d.cases[0] == CaseOf(JAVA_MSG1, 0) && d.cases[1] == CaseOf(JAVA_MSG1, 1);
      assert d.cases[2] == CaseOf(JAVA_MSG1, 2) && d.cases[3] == CaseOf(JAVA_MSG1, 3);
    }
    assert [] + [Msg1Of(None, [])] == [Msg1Of(None, [])];
    Before(d, skip, hashes, NewBuilder, ops, Values([], []), answers);
  }
}
