/**
 The order of the data members of the eleven leaf classes and the statements of their Clear, which
 zeroes runs of neighbouring members.
 */
module MessageLayouts {
  import opened Schema
  import opened MessageTables
  import opened LeafMessage

  const SECRET_LAYOUT := Layout(
    [0, 1],
    [Zeroing({}, 0, 1)])

  lemma SecretLayoutOk()
    ensures WellFormed(SECRET) && IsLeaf(SECRET) && LayoutOk(SECRET, SECRET_LAYOUT)
  {
    SecretWellFormed();
    assert ClearedBy(SECRET_LAYOUT, 0, 0);
    assert ClearedBy(SECRET_LAYOUT, 1, 0);
  }

  const INITIAL_LAYOUT := Layout(
    [0, 1],
    [Zeroing({}, 0, 1)])

  lemma InitialLayoutOk()
    ensures WellFormed(INITIAL) && IsLeaf(INITIAL) && LayoutOk(INITIAL, INITIAL_LAYOUT)
  {
    InitialWellFormed();
    assert ClearedBy(INITIAL_LAYOUT, 0, 0);
    assert ClearedBy(INITIAL_LAYOUT, 1, 0);
  }

  const MSG0_LAYOUT := Layout(
    [0, 1, 2],
    [Zeroing({}, 0, 2)])

  lemma Msg0LayoutOk()
    ensures WellFormed(MSG0) && IsLeaf(MSG0) && LayoutOk(MSG0, MSG0_LAYOUT)
  {
    Msg0WellFormed();
    assert ClearedBy(MSG0_LAYOUT, 0, 0);
    assert ClearedBy(MSG0_LAYOUT, 1, 0);
    assert ClearedBy(MSG0_LAYOUT, 2, 0);
  }

  const MSG1_LAYOUT := Layout(
    [3, 0, 1, 2],
    [Zeroing({}, 0, 0)])

  lemma Msg1LayoutOk()
    ensures WellFormed(MSG1) && IsLeaf(MSG1) && LayoutOk(MSG1, MSG1_LAYOUT)
  {
    Msg1WellFormed();
    assert ClearedBy(MSG1_LAYOUT, 0, 0);
  }

  const MSG2_LAYOUT := Layout(
    [0, 1, 2, 3, 5, 4, 6, 7, 8, 9, 11, 10],
    [Zeroing({}, 0, 1), Zeroing({}, 4, 6), Zeroing({}, 10, 10)])

  lemma Msg2LayoutOk()
    ensures WellFormed(MSG2) && IsLeaf(MSG2) && LayoutOk(MSG2, MSG2_LAYOUT)
  {
    Msg2WellFormed();
    assert ClearedBy(MSG2_LAYOUT, 0, 0);
    assert ClearedBy(MSG2_LAYOUT, 1, 0);
    assert ClearedBy(MSG2_LAYOUT, 4, 1);
    assert ClearedBy(MSG2_LAYOUT, 6, 1);
    assert ClearedBy(MSG2_LAYOUT, 10, 2);
  }

  const MSG3_LAYOUT := Layout(
    [0, 1, 2, 3, 4, 5, 6],
    [Zeroing({}, 0, 1)])

  lemma Msg3LayoutOk()
    ensures WellFormed(MSG3) && IsLeaf(MSG3) && LayoutOk(MSG3, MSG3_LAYOUT)
  {
    Msg3WellFormed();
    assert ClearedBy(MSG3_LAYOUT, 0, 0);
    assert ClearedBy(MSG3_LAYOUT, 1, 0);
  }

  const ATTESTATION_LAYOUT := Layout(
    [0, 1, 2, 3, 8, 4, 5, 6, 7, 10, 11, 12, 9, 13, 14, 15],
    [Zeroing({0, 1, 2, 3, 4}, 0, 3), Zeroing({0, 1, 2, 3, 4}, 4, 4), Zeroing({}, 12, 12)])

  lemma AttestationSteps()
    ensures
      forall k, i | 0 <= k < |ATTESTATION_LAYOUT.steps| && 0 <= i < |ATTESTATION.cases| ::
        Touches(ATTESTATION_LAYOUT, k, i) ==> !ATTESTATION.cases[i].kind.Packed?
  {
  }

  lemma AttestationLayoutOk()
    ensures WellFormed(ATTESTATION) && IsLeaf(ATTESTATION) && LayoutOk(ATTESTATION, ATTESTATION_LAYOUT)
  {
    AttestationWellFormed();
    AttestationSteps();
    assert ClearedBy(ATTESTATION_LAYOUT, 0, 0);
    assert ClearedBy(ATTESTATION_LAYOUT, 1, 0);
    assert ClearedBy(ATTESTATION_LAYOUT, 2, 0);
    assert ClearedBy(ATTESTATION_LAYOUT, 3, 0);
    assert ClearedBy(ATTESTATION_LAYOUT, 4, 1);
    assert ClearedBy(ATTESTATION_LAYOUT, 12, 2);
  }

  const REGISTER_LAYOUT := Layout(
    [1, 0, 2, 3],
    [Zeroing({}, 0, 2)])

  lemma RegisterLayoutOk()
    ensures WellFormed(REGISTER) && IsLeaf(REGISTER) && LayoutOk(REGISTER, REGISTER_LAYOUT)
  {
    RegisterWellFormed();
    assert ClearedBy(REGISTER_LAYOUT, 0, 0);
    assert ClearedBy(REGISTER_LAYOUT, 2, 0);
  }

  const RESPONSE_LAYOUT := Layout(
    [1, 0, 2],
    [Zeroing({}, 0, 2)])

  lemma ResponseLayoutOk()
    ensures WellFormed(RESPONSE) && IsLeaf(RESPONSE) && LayoutOk(RESPONSE, RESPONSE_LAYOUT)
  {
    ResponseWellFormed();
    assert ClearedBy(RESPONSE_LAYOUT, 0, 0);
    assert ClearedBy(RESPONSE_LAYOUT, 2, 0);
  }

  const SMS_LAYOUT := Layout(
    [1, 0, 3, 2],
    [Zeroing({}, 0, 3)])

  lemma SmsLayoutOk()
    ensures WellFormed(SMS) && IsLeaf(SMS) && LayoutOk(SMS, SMS_LAYOUT)
  {
    SmsWellFormed();
    assert ClearedBy(SMS_LAYOUT, 0, 0);
    assert ClearedBy(SMS_LAYOUT, 3, 0);
  }

  const SMS_RESPONSE_LAYOUT := Layout(
    [0, 1, 2],
    [Zeroing({}, 0, 2)])

  lemma SmsResponseLayoutOk()
    ensures WellFormed(SMS_RESPONSE) && IsLeaf(SMS_RESPONSE) && LayoutOk(SMS_RESPONSE, SMS_RESPONSE_LAYOUT)
  {
    SmsResponseWellFormed();
    assert ClearedBy(SMS_RESPONSE_LAYOUT, 0, 0);
    assert ClearedBy(SMS_RESPONSE_LAYOUT, 1, 0);
    assert ClearedBy(SMS_RESPONSE_LAYOUT, 2, 0);
  }
}
