/**
 The tables of the twelve message classes: tags, ExpectTag operands, cutoffs, guarded groups
 of has-bits and required fields as they stand in the parse, size, merge and initialization code.
 */
module MessageTables {
  import opened Wire
  import opened Schema

  // The Type enum.
  const RA_MSG0: uint32 := 0
  const RA_MSG1: uint32 := 1
  const RA_MSG2: uint32 := 2
  const RA_MSG3: uint32 := 3
  const RA_ATT_RESULT: uint32 := 4
  const RA_VERIFICATION: uint32 := 5
  const RA_APP_ATT_OK: uint32 := 6
  const PHONE_REG: uint32 := 7
  const PHONE_RES: uint32 := 8
  const SMS_SEND: uint32 := 9
  const SMS_RES: uint32 := 10

  // SecretMessage
  const SECRET: Desc := Desc(
    [
      Case(1, 8, Enum, 16, 0),                 // type
      Case(2, 16, UInt32, 0, 0)                // size
    ],
    127, [0], {0})

  lemma SecretWellFormed()
    ensures WellFormed(SECRET) && IsLeaf(SECRET)
  {
    assert CaseOk(SECRET, 0);
    assert CaseOk(SECRET, 1);
  }

  // InitialMessage
  const INITIAL: Desc := Desc(
    [
      Case(1, 8, Enum, 16, 0),                 // type
      Case(2, 16, UInt32, 0, 0)                // size
    ],
    127, [0], {0})

  lemma InitialWellFormed()
    ensures WellFormed(INITIAL) && IsLeaf(INITIAL)
  {
    assert CaseOk(INITIAL, 0);
    assert CaseOk(INITIAL, 1);
  }

  // MessageMSG0
  const MSG0: Desc := Desc(
    [
      Case(1, 8, Enum, 16, 0),                 // type
      Case(2, 16, UInt32, 24, 0),              // epid
      Case(3, 24, UInt32, 0, 0)                // status
    ],
    127, [0], {0, 1})

  lemma Msg0WellFormed()
    ensures WellFormed(MSG0) && IsLeaf(MSG0)
  {
    assert CaseOk(MSG0, 0);
    assert CaseOk(MSG0, 1);
    assert CaseOk(MSG0, 2);
  }

  // MessageMSG1
  const MSG1: Desc := Desc(
    [
      Case(1, 8, Enum, 18, 0),                 // type
      Case(2, 18, Packed, 26, 0),              // GaX
      Case(3, 26, Packed, 34, 0),              // GaY
      Case(4, 34, Packed, 0, 0)                // GID
    ],
    127, [0], {0})

  lemma Msg1WellFormed()
    ensures WellFormed(MSG1) && IsLeaf(MSG1)
  {
    assert CaseOk(MSG1, 0);
    assert CaseOk(MSG1, 1);
    assert CaseOk(MSG1, 2);
    assert CaseOk(MSG1, 3);
  }

  // MessageMSG2
  const MSG2: Desc := Desc(
    [
      Case(1, 8, Enum, 16, 0),                 // type
      Case(2, 16, UInt32, 26, 0),              // size
      Case(3, 26, Packed, 34, 0),              // publicKeyGx
      Case(4, 34, Packed, 40, 0),              // publicKeyGy
      Case(5, 40, UInt32, 50, 0),              // quoteType
      Case(6, 50, Packed, 56, 0),              // spid
      Case(7, 56, UInt32, 66, 0),              // cmacKdfId
      Case(8, 66, Packed, 74, 0),              // signatureX
      Case(9, 74, Packed, 82, 0),              // signatureY
      Case(10, 82, Packed, 88, 0),             // smac
      Case(11, 88, UInt32, 98, 1),             // sizeSigrl
      Case(12, 98, Packed, 0, 0)               // sigrl
    ],
    127, [0, 10], {0})

  lemma Msg2Cases()
    ensures forall i | 0 <= i < 6 :: CaseOk(MSG2, i)
    ensures forall i | 6 <= i < 12 :: CaseOk(MSG2, i)
  {
    assert CaseOk(MSG2, 0);
    assert CaseOk(MSG2, 1);
    assert CaseOk(MSG2, 2);
    assert CaseOk(MSG2, 3);
    assert CaseOk(MSG2, 4);
    assert CaseOk(MSG2, 5);
    assert CaseOk(MSG2, 6);
    assert CaseOk(MSG2, 7);
    assert CaseOk(MSG2, 8);
    assert CaseOk(MSG2, 9);
    assert CaseOk(MSG2, 10);
    assert CaseOk(MSG2, 11);
  }

  lemma Msg2WellFormed()
    ensures WellFormed(MSG2) && IsLeaf(MSG2)
  {
    Msg2Cases();
  }

  // MessageMSG3
  const MSG3: Desc := Desc(
    [
      Case(1, 8, Enum, 16, 0),                 // type
      Case(2, 16, UInt32, 26, 0),              // size
      Case(3, 26, Packed, 34, 0),              // sgxMac
      Case(4, 34, Packed, 42, 0),              // gaxMsg3
      Case(5, 42, Packed, 50, 0),              // gayMsg3
      Case(6, 50, Packed, 58, 0),              // secProperty
      Case(7, 58, Packed, 0, 0)                // quote
    ],
    127, [0], {0})

  lemma Msg3WellFormed()
    ensures WellFormed(MSG3) && IsLeaf(MSG3)
  {
    assert CaseOk(MSG3, 0);
    assert CaseOk(MSG3, 1);
    assert CaseOk(MSG3, 2);
    assert CaseOk(MSG3, 3);
    assert CaseOk(MSG3, 4);
    assert CaseOk(MSG3, 5);
    assert CaseOk(MSG3, 6);
  }

  // AttestationMessage
  const ATTESTATION: Desc := Desc(
    [
      Case(1, 8, Enum, 16, 0),                 // type
      Case(2, 16, UInt32, 24, 0),              // size
      Case(3, 24, UInt32, 32, 0),              // epidGroupStatus
      Case(4, 32, UInt32, 40, 0),              // tcbEvaluationStatus
      Case(5, 40, UInt32, 50, 0),              // pseEvaluationStatus
      Case(6, 50, Packed, 58, 0),              // latestEquivalentTcbPsvn
      Case(7, 58, Packed, 66, 0),              // latestPseIsvsvn
      Case(8, 66, Packed, 74, 0),              // latestPsdaSvn
      Case(9, 74, Packed, 82, 0),              // performanceRekeyGid
      Case(10, 82, Packed, 90, 0),             // ecSign256X
      Case(11, 90, Packed, 98, 0),             // ecSign256Y
      Case(12, 98, Packed, 104, 0),            // macSmk
      Case(13, 104, UInt32, 114, 1),           // resultSize
      Case(14, 114, Packed, 122, 0),           // reserved
      Case(15, 122, Packed, 130, 0),           // payloadTag
      Case(16, 130, Packed, 0, 0)              // payload
    ],
    16383, [0, 12], {0, 1})

  lemma AttestationFront()
    ensures forall i | 0 <= i < 8 :: CaseOk(ATTESTATION, i)
  {
    assert CaseOk(ATTESTATION, 0);
    assert CaseOk(ATTESTATION, 1);
    assert CaseOk(ATTESTATION, 2);
    assert CaseOk(ATTESTATION, 3);
    assert CaseOk(ATTESTATION, 4);
    assert CaseOk(ATTESTATION, 5);
    assert CaseOk(ATTESTATION, 6);
    assert CaseOk(ATTESTATION, 7);
  }

  lemma AttestationBack()
    ensures forall i | 8 <= i < 16 :: CaseOk(ATTESTATION, i)
  {
    assert CaseOk(ATTESTATION, 8);
    assert CaseOk(ATTESTATION, 9);
    assert CaseOk(ATTESTATION, 10);
    assert CaseOk(ATTESTATION, 11);
    assert CaseOk(ATTESTATION, 12);
    assert CaseOk(ATTESTATION, 13);
    assert CaseOk(ATTESTATION, 14);
    assert CaseOk(ATTESTATION, 15);
  }

  lemma AttestationWellFormed()
    ensures WellFormed(ATTESTATION) && IsLeaf(ATTESTATION)
  {
    AttestationFront();
    AttestationBack();
  }

  // RegisterMessage
  const REGISTER: Desc := Desc(
    [
      Case(1, 8, Enum, 18, 0),                 // type
      Case(2, 18, Packed, 24, 0),              // cipherPhone
      Case(3, 24, UInt32, 34, 0),              // size
      Case(4, 34, Packed, 0, 0)                // mac
    ],
    127, [0], {0})

  lemma RegisterWellFormed()
    ensures WellFormed(REGISTER) && IsLeaf(REGISTER)
  {
    assert CaseOk(REGISTER, 0);
    assert CaseOk(REGISTER, 1);
    assert CaseOk(REGISTER, 2);
    assert CaseOk(REGISTER, 3);
  }

  // ResponseMessage
  const RESPONSE: Desc := Desc(
    [
      Case(1, 8, Enum, 18, 0),                 // type
      Case(2, 18, Packed, 24, 0),              // userID
      Case(3, 24, UInt32, 0, 0)                // size
    ],
    127, [0], {0})

  lemma ResponseWellFormed()
    ensures WellFormed(RESPONSE) && IsLeaf(RESPONSE)
  {
    assert CaseOk(RESPONSE, 0);
    assert CaseOk(RESPONSE, 1);
    assert CaseOk(RESPONSE, 2);
  }

  // SMSMessage
  const SMS: Desc := Desc(
    [
      Case(1, 8, Enum, 18, 0),                 // type
      Case(2, 18, Packed, 26, 0),              // userID
      Case(3, 26, Packed, 32, 0),              // sms
      Case(4, 32, UInt32, 0, 0)                // size
    ],
    127, [0], {0})

  lemma SmsWellFormed()
    ensures WellFormed(SMS) && IsLeaf(SMS)
  {
    assert CaseOk(SMS, 0);
    assert CaseOk(SMS, 1);
    assert CaseOk(SMS, 2);
    assert CaseOk(SMS, 3);
  }

  // SMSResponseMessage
  const SMS_RESPONSE: Desc := Desc(
    [
      Case(1, 8, Enum, 16, 0),                 // type
      Case(2, 16, UInt32, 24, 0),              // statusCode
      Case(3, 24, UInt32, 0, 0)                // size
    ],
    127, [0], {0, 1})

  lemma SmsResponseWellFormed()
    ensures WellFormed(SMS_RESPONSE) && IsLeaf(SMS_RESPONSE)
  {
    assert CaseOk(SMS_RESPONSE, 0);
    assert CaseOk(SMS_RESPONSE, 1);
    assert CaseOk(SMS_RESPONSE, 2);
  }

  /** The list fields of the two longest classes. */
  lemma ListFields(i: nat)
    ensures |MSG2.cases| == 12 && |ATTESTATION.cases| == 16
    ensures i < 12 ==> (MSG2.cases[i].kind.Packed? <==> i in {2, 3, 5, 7, 8, 9, 11})
    ensures i < 16 ==> (ATTESTATION.cases[i].kind.Packed? <==> i in {5, 6, 7, 8, 9, 10, 11, 13, 14, 15})
  {
  }

  // AllInOneMessage
  const ALL_IN_ONE: Desc := Desc(
    [
      Case(1, 8, Enum, 18, 0),                 // type
      Case(2, 18, Sub(SECRET), 26, 0),         // secretMsg
      Case(3, 26, Sub(INITIAL), 34, 0),        // initMsg
      Case(4, 34, Sub(MSG0), 42, 0),           // msg0
      Case(5, 42, Sub(MSG1), 50, 0),           // msg1
      Case(6, 50, Sub(MSG2), 58, 0),           // msg2
      Case(7, 58, Sub(MSG3), 66, 0),           // msg3
      Case(8, 66, Sub(ATTESTATION), 74, 0),    // attestMsg
      Case(9, 74, Sub(REGISTER), 82, 1),       // regMsg
      Case(10, 82, Sub(RESPONSE), 90, 1),      // resMsg
      Case(11, 90, Sub(SMS), 98, 1),           // smsMsg
      Case(12, 98, Sub(SMS_RESPONSE), 0, 1)    // smsresMsg
    ],
    127, [0, 8], {0})

  lemma AllInOneFront()
    ensures forall i | 0 <= i < 6 :: CaseOk(ALL_IN_ONE, i)
  {
    assert CaseOk(ALL_IN_ONE, 0);
    assert CaseOk(ALL_IN_ONE, 1);
    assert CaseOk(ALL_IN_ONE, 2);
    assert CaseOk(ALL_IN_ONE, 3);
    assert CaseOk(ALL_IN_ONE, 4);
    assert CaseOk(ALL_IN_ONE, 5);
  }

  lemma AllInOneBack()
    ensures forall i | 6 <= i < 12 :: CaseOk(ALL_IN_ONE, i)
  {
    assert CaseOk(ALL_IN_ONE, 6);
    assert CaseOk(ALL_IN_ONE, 7);
    assert CaseOk(ALL_IN_ONE, 8);
    assert CaseOk(ALL_IN_ONE, 9);
    assert CaseOk(ALL_IN_ONE, 10);
    assert CaseOk(ALL_IN_ONE, 11);
  }

  lemma AllInOneSubs()
    ensures forall i | 0 <= i < |ALL_IN_ONE.cases| :: SubOk(ALL_IN_ONE, i)
  {
    SecretWellFormed();
    InitialWellFormed();
    Msg0WellFormed();
    Msg1WellFormed();
    Msg2WellFormed();
    Msg3WellFormed();
    AttestationWellFormed();
    RegisterWellFormed();
    ResponseWellFormed();
    SmsWellFormed();
    SmsResponseWellFormed();
    assert SubOk(ALL_IN_ONE, 0);
    assert SubOk(ALL_IN_ONE, 1);
    assert SubOk(ALL_IN_ONE, 2);
    assert SubOk(ALL_IN_ONE, 3);
    assert SubOk(ALL_IN_ONE, 4);
    assert SubOk(ALL_IN_ONE, 5);
    assert SubOk(ALL_IN_ONE, 6);
    assert SubOk(ALL_IN_ONE, 7);
    assert SubOk(ALL_IN_ONE, 8);
    assert SubOk(ALL_IN_ONE, 9);
    assert SubOk(ALL_IN_ONE, 10);
    assert SubOk(ALL_IN_ONE, 11);
  }

  lemma AllInOneWellFormed()
    ensures WellFormed(ALL_IN_ONE)
  {
    AllInOneFront();
    AllInOneBack();
    AllInOneSubs();
  }
}
