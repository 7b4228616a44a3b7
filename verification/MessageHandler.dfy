/**
 The message handler of the service: one request in, one reply out, with the phone registry behind
 two of the requests. What SGX and the enclave answer is a parameter of each call.
 */
module MessageHandler {
  import opened Wrappers
  import opened Wire
  import opened Schema
  import opened MessageTables
  import opened MessageLayouts
  import opened LeafMessage
  import opened RootMessage
  import opened HexText
  import opened Registry
  import Attestation
  import AllInOne
  import opened Replies

  const DATA_SIZE := 32
  const MSG3_PROPERTY_SIZE := 256
  const MSG3_QUOTE_SIZE := 1116

  datatype Msg1 = Msg1(gx: seq<byte>, gy: seq<byte>, gid: seq<byte>)
  datatype Msg3 = Msg3(
    size: uint32, mac: seq<byte>, gx: seq<byte>, gy: seq<byte>, property: seq<byte>, quote: seq<byte>)

  /** The outcomes of the calls a request leads to; None and false stand for an error status. */
  datatype Platform = Platform(
    extendedGroup: uint32, enclaveUp: bool, msg1: Option<Msg1>, msg3: Option<Msg3>,
    macOk: bool, secretOk: bool, salt: nat)

  /** The fixed sizes of SGX's structures. */
  predicate Sized(p: Platform) {
    && (p.msg1.Some? ==> |p.msg1.value.gx| == |p.msg1.value.gy| == 32 && |p.msg1.value.gid| == 4)
    && (p.msg3.Some? ==>
        && |p.msg3.value.mac| == 16 && |p.msg3.value.gx| == |p.msg3.value.gy| == 32
        && |p.msg3.value.property| == MSG3_PROPERTY_SIZE && |p.msg3.value.quote| == MSG3_QUOTE_SIZE)
  }

  // ----- Replies, by their contents ----------------------------------------------------------------------

  function Numbers(b: seq<byte>): (r: seq<uint32>)
    ensures |r| == |b| && forall k | 0 <= k < |b| :: r[k] == b[k]
  {
    if b == [] then [] else Numbers(b[..|b| - 1]) + [b[|b| - 1]]
  }

  function Msg0Value(group: uint32): Message {
    [Num(Some(RA_MSG0)), Num(Some(group)), Num(None)]
  }

  function Msg1Value(m: Msg1): Message {
    [Num(Some(RA_MSG1)), List(Numbers(m.gx)), List(Numbers(m.gy)), List(Numbers(m.gid))]
  }

  function Msg3Value(m: Msg3): Message {
    [Num(Some(RA_MSG3)), Num(Some(m.size)), List(Numbers(m.mac)), List(Numbers(m.gx)), List(Numbers(m.gy)),
     List(Numbers(m.property)), List(Numbers(m.quote))]
  }

  function OkValue(): Message {
    [Num(Some(RA_APP_ATT_OK)), Num(Some(0))]
  }

  function ResponseValue(id: seq<byte>): Message {
    [Num(Some(PHONE_RES)), List(Numbers(id)), Num(Some(USER_ID_SIZE))]
  }

  function SmsResponseValue(code: uint32): Message {
    [Num(Some(SMS_RES)), Num(Some(code)), Num(None)]
  }

  /** `bytes` is the reply of this type with this sub-message. */
  ghost predicate IsReplyOf(bytes: seq<byte>, kind: uint32, i: nat, child: Message) {
    && Sendable(kind, i, child)
    && (ReplyTyped(kind, i, child); bytes == Ser(ALL_IN_ONE, ReplyMessage(kind, i, child)))
  }

  ghost predicate IsReply(bytes: seq<byte>, kind: uint32) {
    exists i, child :: IsReplyOf(bytes, kind, i, child)
  }

  /** Any receiver parses a reply to an initialized message of its type with one sub-message of it. */
  lemma RepliesParse(lib: Library, bytes: seq<byte>, kind: uint32)
    requires IsReply(bytes, kind)
    ensures Typed(ALL_IN_ONE, Empty(ALL_IN_ONE)) && ParsesAs(lib, bytes, kind)
  {
    var i, child :| IsReplyOf(bytes, kind, i, child);
    ReplyParses(lib, kind, i, child);
  }

  lemma SendableLeaf(kind: uint32, i: nat, child: Message)
    requires 1 <= i < |ALL_IN_ONE.cases| && ALL_IN_ONE.cases[i].kind.Sub? && IsValidType(kind)
    requires
      var d := ALL_IN_ONE.cases[i].kind.desc;
      Typed(d, child) && IsLeaf(d) && |child| > 0 && forall j | j in d.required :: j < |child| && Present(child[j])
    requires child[0] == Num(Some(kind)) && Capped(child)
    ensures Sendable(kind, i, child)
  {
    AllInOne.LayoutsFit(i);
    AllInOneWellFormed();
    assert SubOk(ALL_IN_ONE, i);
  }

  /** `for (x : bytes) msg->add_y(x)`. */
  method AddBytes(msg: Leaf, i: nat, bytes: seq<byte>)
    requires msg.Valid() && i < |msg.value| == |msg.desc.cases|
    requires msg.desc.cases[i].kind.Packed? && msg.value[i] == List([])
    modifies msg`lists, msg`value
    ensures msg.Valid() && msg.value == old(msg.value)[i := List(Numbers(bytes))]
  {
    ghost var m := msg.value;
    assert m[i := List([])] == m;
    ViewToAt(msg.desc, msg.hasBits, msg.nums, msg.lists, |msg.nums|, i);
    for k := 0 to |bytes|
      invariant msg.Valid() && msg.lists[i] == Numbers(bytes[..k]) && msg.value == m[i := List(Numbers(bytes[..k]))]
    {
      assert bytes[..k + 1][..k] == bytes[..k];
      msg.AddAll(i, [bytes[k]]);
    }
    assert bytes[..|bytes|] == bytes;
  }

  // ----- Requests that only concern attestation ------------------------------------------------------------

  /** getExtendedEPID_GID() overwrites its status with success, so the terminate branch never runs. */
  method GenerateMSG0(p: Platform) returns (s: seq<byte>)
    ensures IsReplyOf(s, RA_MSG0, 3, Msg0Value(p.extendedGroup))
  {
    Msg0LayoutOk();
    var msg := new Leaf(MSG0, MSG0_LAYOUT);
    msg.Set(0, RA_MSG0);
    msg.Set(1, p.extendedGroup);
    assert msg.value == Msg0Value(p.extendedGroup);
    Msg0Sendable(p.extendedGroup);
    s := SendReply(RA_MSG0, 3, msg);
  }

  lemma Msg0Sendable(group: uint32)
    ensures Sendable(RA_MSG0, 3, Msg0Value(group))
  {
    Msg0WellFormed();
    SendableLeaf(RA_MSG0, 3, Msg0Value(group));
  }

  method GenerateMSG1(p: Platform) returns (s: seq<byte>)
    requires Sized(p)
    ensures p.msg1.None? ==> s == []
    ensures p.msg1.Some? ==> IsReplyOf(s, RA_MSG1, 4, Msg1Value(p.msg1.value))
  {
    if p.msg1.None? {
      return [];
    }
    var msg := FillMsg1(p.msg1.value);
    Msg1Sendable(p.msg1.value);
    s := SendReply(RA_MSG1, 4, msg);
  }

  method FillMsg1(m: Msg1) returns (msg: Leaf)
    ensures fresh(msg) && msg.desc == MSG1 && msg.layout == MSG1_LAYOUT && msg.Valid() && msg.value == Msg1Value(m)
  {
    Msg1LayoutOk();
    msg := new Leaf(MSG1, MSG1_LAYOUT);
    msg.Set(0, RA_MSG1);
    AddBytes(msg, 1, m.gx);
    AddBytes(msg, 2, m.gy);
    AddBytes(msg, 3, m.gid);
    assert msg.value == Msg1Value(m);
  }

  lemma Msg1Sendable(m: Msg1)
    requires |m.gx| == |m.gy| == 32 && |m.gid| == 4
    ensures Sendable(RA_MSG1, 4, Msg1Value(m))
  {
    Msg1WellFormed();
    SendableLeaf(RA_MSG1, 4, Msg1Value(m));
  }

  const TYPE_OK: uint32 := 0

  method HandleMSG0(m: Message, p: Platform) returns (s: seq<byte>)
    requires Sized(p)
    ensures
      if Attestation.Scalar(m, 2) == TYPE_OK && p.enclaveUp && p.msg1.Some?
      then s != [] && IsReplyOf(s, RA_MSG1, 4, Msg1Value(p.msg1.value))
      else s == []
  {
    s := [];
    if Attestation.Scalar(m, 2) == TYPE_OK {
      if p.enclaveUp {
        s := GenerateMSG1(p);
        if p.msg1.Some? {
          ReplyNotEmpty(s, RA_MSG1, 4, Msg1Value(p.msg1.value));
        }
      }
    }
  }

  lemma ReplyNotEmpty(bytes: seq<byte>, kind: uint32, i: nat, child: Message)
    requires IsReplyOf(bytes, kind, i, child)
    ensures bytes != []
  {
    ReplyTyped(kind, i, child);
    var m := ReplyMessage(kind, i, child);
    assert m[0] == Num(Some(kind)) && TypedVal(ALL_IN_ONE, 0, m[0]);
    assert Ser(ALL_IN_ONE, m) == SerField(ALL_IN_ONE, 0, m[0]) + SerFrom(ALL_IN_ONE, m, 1);
  }

  method HandleMSG2(p: Platform) returns (s: seq<byte>)
    requires Sized(p)
    ensures p.msg3.None? ==> s == []
    ensures p.msg3.Some? ==> IsReplyOf(s, RA_MSG3, 6, Msg3Value(p.msg3.value))
  {
    if p.msg3.None? {
      return [];
    }
    var msg := FillMsg3(p.msg3.value);
    Msg3Sendable(p.msg3.value);
    s := SendReply(RA_MSG3, 6, msg);
  }

  method FillMsg3(m: Msg3) returns (msg: Leaf)
    ensures fresh(msg) && msg.desc == MSG3 && msg.layout == MSG3_LAYOUT && msg.Valid() && msg.value == Msg3Value(m)
  {
    Msg3LayoutOk();
    msg := new Leaf(MSG3, MSG3_LAYOUT);
    msg.Set(0, RA_MSG3);
    msg.Set(1, m.size);
    assert msg.value == Msg3Empty(m.size);
    FillKeys(msg, m);
    FillQuote(msg, m);
  }

  function Msg3Empty(size: uint32): Message {
    [Num(Some(RA_MSG3)), Num(Some(size)), List([]), List([]), List([]), List([]), List([])]
  }

  method FillKeys(msg: Leaf, m: Msg3)
    requires msg.desc == MSG3 && msg.Valid() && msg.value == Msg3Empty(m.size)
    modifies msg`lists, msg`value
    ensures msg.Valid() && msg.value == Msg3Value(m)[5 := List([])][6 := List([])]
  {
    AddBytes(msg, 2, m.mac);
    AddBytes(msg, 3, m.gx);
    AddBytes(msg, 4, m.gy);
    assert msg.value == Msg3Value(m)[5 := List([])][6 := List([])];
  }

  method FillQuote(msg: Leaf, m: Msg3)
    requires msg.desc == MSG3 && msg.Valid()
    requires msg.value == Msg3Value(m)[5 := List([])][6 := List([])]
    modifies msg`lists, msg`value
    ensures msg.Valid() && msg.value == Msg3Value(m)
  {
    AddBytes(msg, 5, m.property);
    AddBytes(msg, 6, m.quote);
    assert msg.value == Msg3Value(m);
  }

  lemma Msg3Sendable(m: Msg3)
    requires |m.mac| == 16 && |m.gx| == |m.gy| == 32
    requires |m.property| == MSG3_PROPERTY_SIZE && |m.quote| == MSG3_QUOTE_SIZE
    ensures Sendable(RA_MSG3, 6, Msg3Value(m))
  {
    Msg3WellFormed();
    SendableLeaf(RA_MSG3, 6, Msg3Value(m));
  }

  /** The status bytes the test reads are the zeros of the memset, so only the two enclave calls decide. */
  method HandleAttestationResult(m: Message, p: Platform) returns (s: seq<byte>)
    requires Attestation.InBounds(Attestation.Scalar(m, 1), Attestation.Scalar(m, 12)) && Attestation.ListsLongEnough(m)
    ensures if p.macOk && p.secretOk then IsReplyOf(s, RA_APP_ATT_OK, 2, OkValue()) else s == []
  {
    var buffer := Attestation.AssembleAttestationMSG(m);
    if !p.macOk {
      return [];
    }
    if Attestation.StatusRejects(buffer) || !p.secretOk {
      return [];
    }
    s := SendOk();
  }

  method SendOk() returns (s: seq<byte>)
    ensures IsReplyOf(s, RA_APP_ATT_OK, 2, OkValue())
  {
    InitialLayoutOk();
    var msg := new Leaf(INITIAL, INITIAL_LAYOUT);
    msg.Set(0, RA_APP_ATT_OK);
    msg.Set(1, 0);
    assert msg.value == OkValue();
    OkSendable();
    s := SendReply(RA_APP_ATT_OK, 2, msg);
  }

  lemma OkSendable()
    ensures Sendable(RA_APP_ATT_OK, 2, OkValue())
  {
    InitialWellFormed();
    SendableLeaf(RA_APP_ATT_OK, 2, OkValue());
  }

  // ----- The registry's requests -----------------------------------------------------------------------------

  /** The first n elements of a list, each stored in a uint8_t. */
  function Cut(xs: seq<uint32>, n: nat): (b: seq<byte>)
    requires n <= |xs|
    ensures |b| == n && forall k | 0 <= k < n :: b[k] == xs[k] % 256
  {
    if n == 0 then [] else Cut(xs, n - 1) + [xs[n - 1] % 256]
  }

  method CopyList(xs: seq<uint32>, n: nat) returns (a: array<byte>)
    requires n <= |xs|
    ensures fresh(a) && a.Length == n && a[..] == Cut(xs, n)
  {
    a := new byte[n];
    for k := 0 to n
      invariant forall j | 0 <= j < k :: a[j] == xs[j] % 256
    {
      a[k] := xs[k] % 256;
    }
  }

  function PhoneCipher(m: Message): seq<byte>
    requires RegisterListsOk(m)
  {
    Cut(Attestation.Elements(m, 1), PHONE_SIZE)
  }

  const CIPHER_MAC_SIZE := 16

  function PhoneMac(m: Message): seq<byte>
    requires RegisterListsOk(m)
  {
    Cut(Attestation.Elements(m, 3), CIPHER_MAC_SIZE)
  }

  predicate RegisterListsOk(m: Message) {
    |Attestation.Elements(m, 1)| >= PHONE_SIZE && |Attestation.Elements(m, 3)| >= CIPHER_MAC_SIZE
  }

  class Handler {
    const crypto: Crypto
    const db: Database

    ghost predicate Valid()
      reads db
    {
      Lawful(crypto) && Invariant(crypto, db.rows)
    }

    constructor (crypto: Crypto)
      requires Lawful(crypto)
      ensures this.crypto == crypto && fresh(db) && Valid() && db.rows == map[]
    {
      this.crypto := crypto;
      db := new Database();
    }

    method PutSealedPhone(userId: array<byte>, sealed: array<byte>, sealedLen: nat)
      requires userId.Length == USER_ID_SIZE && sealedLen <= sealed.Length
      modifies db
      ensures db.rows == old(db.rows)[Hex(userId[..]) := Hex(sealed[..sealedLen])]
    {
      var key := ByteArrayToString(userId, USER_ID_SIZE);
      assert userId[..USER_ID_SIZE] == userId[..];
      var blob := ByteArrayToString(sealed, sealedLen);
      db.Upsert(key, blob);
    }

    /** For an id with a row: the phone that was registered under it. */
    method GetPhoneByUserID(userId: array<byte>, phone: array<byte>) returns (ok: bool)
      requires Valid() && userId.Length == USER_ID_SIZE && phone.Length == UNSEALED_SIZE && userId != phone
      requires Hex(userId[..]) in db.rows
      modifies phone
      ensures ok && UserId(crypto, phone[..PHONE_SIZE]) == userId[..]
      ensures crypto.unseal(Unhex(db.rows[Hex(userId[..])])) == Some(phone[..PHONE_SIZE])
    {
      var key := ByteArrayToString(userId, USER_ID_SIZE);
      assert userId[..USER_ID_SIZE] == userId[..];
      assert RowOk(crypto, key, db.rows[key]);
      HexInjective(UserId(crypto, crypto.unseal(Unhex(db.rows[key])).value), userId[..]);
      var sealed := new byte[CIPHER_SIZE];
      var sealedLen := db.Select(key, sealed);
      var unsealed := new byte[UNSEALED_SIZE];
      var n;
      ok, n := UnsealPhone(crypto, sealed[..sealedLen], unsealed);
      CopyInto(phone, unsealed[..n]);
    }

    /** The enclave's calls succeed: the phone is stored and its id is the reply. */
    method HandleRegisterMSG(m: Message, salt: nat) returns (s: seq<byte>)
      requires Valid() && RegisterListsOk(m) && EnclaveAccepts(crypto, PhoneCipher(m), PhoneMac(m), salt)
      modifies db
      ensures Valid() && db.rows == Stored(crypto, old(db.rows), PhoneCipher(m), PhoneMac(m), salt)
      ensures
        var id := UserId(crypto, crypto.decrypt(PhoneCipher(m), PhoneMac(m)).value);
        IsReplyOf(s, PHONE_RES, 9, ResponseValue(id))
    {
      var cipher := CopyList(Attestation.Elements(m, 1), PHONE_SIZE);
      var mac := CopyList(Attestation.Elements(m, 3), CIPHER_MAC_SIZE);
      var userId := new byte[USER_ID_SIZE];
      var sealed := new byte[CIPHER_SIZE];
      var ok, sealedLen := RegisterUser(crypto, cipher[..], mac[..], salt, userId, sealed);
      StoredKeeps(crypto, db.rows, cipher[..], mac[..], salt);
      PutSealedPhone(userId, sealed, sealedLen);
      s := SendResponse(userId[..]);
    }

    /**
     For an id with a row: code 200, and the first characters of the unpadded texts of the phone
     behind the id and of the message, as many as there are bytes.
     */
    method HandleSMS(m: Message, data: array<char>) returns (s: seq<byte>, size: nat)
      requires Valid() && SmsListsOk(m) && data.Length >= PHONE_SIZE + Attestation.Scalar(m, 3)
      requires Hex(SmsId(m)) in db.rows
      modifies data
      ensures IsReplyOf(s, SMS_RES, 11, SmsResponseValue(200)) && size == 2
      ensures exists phone :: SmsTo(crypto, db.rows, m, data, phone)
    {
      var ok := FillData(m, data);
      ghost var phone :| SmsTo(crypto, db.rows, m, data, phone);
      s := SendSmsResponse(if ok then 200 else 400);
      size := 2;
      assert SmsTo(crypto, db.rows, m, data, phone);
    }

    method FillData(m: Message, data: array<char>) returns (ok: bool)
      requires Valid() && SmsListsOk(m) && data.Length >= PHONE_SIZE + Attestation.Scalar(m, 3)
      requires Hex(SmsId(m)) in db.rows
      modifies data
      ensures ok && exists phone :: SmsTo(crypto, db.rows, m, data, phone)
    {
      var userId := CopyList(Attestation.Elements(m, 1), USER_ID_SIZE);
      var phone := new byte[UNSEALED_SIZE];
      var sms := CopyList(Attestation.Elements(m, 2), Attestation.Scalar(m, 3));
      ok := GetPhoneByUserID(userId, phone);
      ghost var found := phone[..PHONE_SIZE];
      WriteTexts(data, phone, sms);
      assert SmsTo(crypto, db.rows, m, data, found);
    }

    // ----- Dispatch --------------------------------------------------------------------------------------------

    /**
     One request. Refused input gets no reply. A request that is answered gets a reply of its type's
     successor, which any receiver parses (RepliesParse); only a registration changes the table.
     */
    method HandleMessages(bytes: seq<byte>, lib: Library, p: Platform, data: array<char>)
      returns (res: seq<byte>, size: nat)
      requires Valid() && Sized(p) && data.Length == DATA_SIZE
      requires Accepted(lib, bytes) ==> RequestOk(crypto, db.rows, Received(lib, bytes).m, p.salt)
      modifies db, data
      ensures Valid() && (!Accepted(lib, bytes) ==> res == [] && db.rows == old(db.rows))
      ensures Accepted(lib, bytes) ==>
        var m := Received(lib, bytes).m;
        && m[0] == Num(Some(Attestation.Scalar(m, 0))) && IsValidType(Attestation.Scalar(m, 0))
        && Answered(crypto, m, p, old(db.rows), db.rows, res)
        && (Attestation.Scalar(m, 0) == SMS_SEND ==>
            exists phone :: SmsTo(crypto, db.rows, SubOf(m, 10), data, phone))
    {
      res, size := [], 0;
      var ok, aio := AllInOne.Receive(bytes, lib);
      if ok {
        TypePresent(aio.value);
        assert aio.value == Received(lib, bytes).m;
        res, size := Dispatch(aio, p, data);
      }
    }

    method Dispatch(aio: Root, p: Platform, data: array<char>) returns (res: seq<byte>, size: nat)
      requires Valid() && Sized(p) && data.Length == DATA_SIZE
      requires aio.Valid() && aio.Tidy() && aio.desc == ALL_IN_ONE && 0 in aio.hasBits
      requires RequestOk(crypto, db.rows, aio.value, p.salt)
      modifies db, data
      ensures Valid() && Answered(crypto, aio.value, p, old(db.rows), db.rows, res)
      ensures aio.kind == SMS_SEND ==> exists phone :: SmsTo(crypto, db.rows, SubOf(aio.value, 10), data, phone)
    {
      res, size := [], 0;
      assert Attestation.Scalar(aio.value, 0) == aio.kind;
      match aio.kind {
        case 7 =>
          res := Enroll(aio, p);
        case 9 =>
          res, size := Forward(aio, p, data);
        case _ =>
          res := Attest(aio, p);
      }
    }

    method Enroll(aio: Root, p: Platform) returns (res: seq<byte>)
      requires Valid() && aio.Valid() && aio.Tidy() && aio.desc == ALL_IN_ONE && 0 in aio.hasBits
      requires RequestOk(crypto, db.rows, aio.value, p.salt) && aio.kind == PHONE_REG
      modifies db
      ensures Valid() && Answered(crypto, aio.value, p, old(db.rows), db.rows, res)
    {
      assert Attestation.Scalar(aio.value, 0) == aio.kind;
      var reg := CopySub(aio, 8);
      res := HandleRegisterMSG(reg, p.salt);
    }

    method Forward(aio: Root, p: Platform, data: array<char>) returns (res: seq<byte>, size: nat)
      requires Valid() && data.Length == DATA_SIZE
      requires aio.Valid() && aio.Tidy() && aio.desc == ALL_IN_ONE && 0 in aio.hasBits
      requires RequestOk(crypto, db.rows, aio.value, p.salt) && aio.kind == SMS_SEND
      modifies data
      ensures Answered(crypto, aio.value, p, db.rows, db.rows, res)
      ensures exists phone :: SmsTo(crypto, db.rows, SubOf(aio.value, 10), data, phone)
    {
      assert Attestation.Scalar(aio.value, 0) == aio.kind;
      var sms := CopySub(aio, 10);
      res, size := HandleSMS(sms, data);
    }

    /** The requests of remote attestation, and the types that are never answered. */
    method Attest(aio: Root, p: Platform) returns (res: seq<byte>)
      requires Sized(p) && aio.Valid() && aio.Tidy() && aio.desc == ALL_IN_ONE && 0 in aio.hasBits
      requires RequestOk(crypto, db.rows, aio.value, p.salt) && aio.kind != PHONE_REG && aio.kind != SMS_SEND
      ensures Answered(crypto, aio.value, p, db.rows, db.rows, res)
    {
      res := [];
      assert Attestation.Scalar(aio.value, 0) == aio.kind;
      match aio.kind {
        case 5 =>
          res := GenerateMSG0(p);
        case 0 =>
          var msg0 := CopySub(aio, 3);
          res := HandleMSG0(msg0, p);
        case 2 =>
          res := HandleMSG2(p);
        case 4 =>
          var att := CopySub(aio, 7);
          res := HandleAttestationResult(att, p);
        case _ =>
      }
    }
  }

  predicate SmsListsOk(m: Message) {
    |Attestation.Elements(m, 1)| >= USER_ID_SIZE && |Attestation.Elements(m, 2)| >= Attestation.Scalar(m, 3)
  }

  function SmsId(m: Message): seq<byte>
    requires SmsListsOk(m)
  {
    Cut(Attestation.Elements(m, 1), USER_ID_SIZE)
  }

  function SmsText(m: Message): seq<byte>
    requires SmsListsOk(m)
  {
    Cut(Attestation.Elements(m, 2), Attestation.Scalar(m, 3))
  }

  /** `phone` is the one sealed under the id, it hashes to the id, and the data is its text and the message's. */
  ghost predicate SmsTo(c: Crypto, rows: Rows, m: Message, data: array<char>, phone: seq<byte>)
    reads data
  {
    && SmsListsOk(m) && |phone| == PHONE_SIZE && Hex(SmsId(m)) in rows
    && c.unseal(Unhex(rows[Hex(SmsId(m))])) == Some(phone)
    && |c.hash(phone)| == HASH_SIZE && UserId(c, phone) == SmsId(m)
    && |NoFill(phone)| >= PHONE_SIZE && |NoFill(SmsText(m))| >= |SmsText(m)|
    && data.Length >= PHONE_SIZE + |SmsText(m)|
    && data[..PHONE_SIZE] == NoFill(phone)[..PHONE_SIZE]
    && data[PHONE_SIZE..PHONE_SIZE + |SmsText(m)|] == NoFill(SmsText(m))[..|SmsText(m)|]
  }

  /** The data holds a whole text, one digit a byte, exactly if every byte of it is below 16. */
  lemma DigitsExact(c: Crypto, rows: Rows, m: Message, data: array<char>, phone: seq<byte>)
    requires SmsTo(c, rows, m, data, phone)
    ensures AllShort(phone) <==> data[..PHONE_SIZE] == NoFill(phone)
    ensures AllShort(SmsText(m)) <==> data[PHONE_SIZE..PHONE_SIZE + |SmsText(m)|] == NoFill(SmsText(m))
    ensures AllShort(phone) ==> forall k | 0 <= k < PHONE_SIZE :: data[k] == Digit(phone[k])
    ensures AllShort(SmsText(m)) ==> forall k | 0 <= k < |SmsText(m)| :: data[PHONE_SIZE + k] == Digit(SmsText(m)[k])
  {
    NoFillLength(phone);
    NoFillLength(SmsText(m));
    if AllShort(phone) {
      forall k | 0 <= k < PHONE_SIZE ensures data[k] == Digit(phone[k]) {
        NoFillAt(phone, k);
        assert data[k] == data[..PHONE_SIZE][k];
      }
    }
    if AllShort(SmsText(m)) {
      forall k | 0 <= k < |SmsText(m)| ensures data[PHONE_SIZE + k] == Digit(SmsText(m)[k]) {
        NoFillAt(SmsText(m), k);
        assert data[PHONE_SIZE + k] == data[PHONE_SIZE..PHONE_SIZE + |SmsText(m)|][k];
      }
    }
  }

  method WriteTexts(data: array<char>, phone: array<byte>, sms: array<byte>)
    requires phone.Length >= PHONE_SIZE && data.Length >= PHONE_SIZE + sms.Length
    modifies data
    ensures |NoFill(phone[..PHONE_SIZE])| >= PHONE_SIZE && |NoFill(sms[..])| >= sms.Length
    ensures data[..PHONE_SIZE] == NoFill(phone[..PHONE_SIZE])[..PHONE_SIZE]
    ensures data[PHONE_SIZE..PHONE_SIZE + sms.Length] == NoFill(sms[..])[..sms.Length]
  {
    var phoneText := ByteArrayToStringNoFill(phone, PHONE_SIZE);
    var smsText := ByteArrayToStringNoFill(sms, sms.Length);
    NoFillLength(phone[..PHONE_SIZE]);
    NoFillLength(sms[..]);
    assert sms[..sms.Length] == sms[..];
    CopyText(data, 0, phoneText, PHONE_SIZE);
    ghost var front := data[..PHONE_SIZE];
    CopyText(data, PHONE_SIZE, smsText, sms.Length);
    assert data[..PHONE_SIZE] == front;
  }

  /** memcpy(data + at, text.c_str(), n). */
  method CopyText(data: array<char>, at: nat, text: string, n: nat)
    requires n <= |text| && at + n <= data.Length
    modifies data
    ensures data[at..at + n] == text[..n]
    ensures forall j | 0 <= j < data.Length && !(at <= j < at + n) :: data[j] == old(data[j])
  {
    for k := 0 to n
      invariant forall j | 0 <= j < k :: data[at + j] == text[j]
      invariant forall j | 0 <= j < data.Length && !(at <= j < at + k) :: data[j] == old(data[j])
    {
      data[at + k] := text[k];
    }
  }

  method SendSmsResponse(code: uint32) returns (s: seq<byte>)
    ensures IsReplyOf(s, SMS_RES, 11, SmsResponseValue(code))
  {
    SmsResponseLayoutOk();
    var msg := new Leaf(SMS_RESPONSE, SMS_RESPONSE_LAYOUT);
    msg.Set(0, SMS_RES);
    msg.Set(1, code);
    assert msg.value == SmsResponseValue(code);
    SmsResponseSendable(code);
    s := SendReply(SMS_RES, 11, msg);
  }

  lemma SmsResponseSendable(code: uint32)
    ensures Sendable(SMS_RES, 11, SmsResponseValue(code))
  {
    SmsResponseWellFormed();
    SendableLeaf(SMS_RES, 11, SmsResponseValue(code));
  }

  method SendResponse(id: seq<byte>) returns (s: seq<byte>)
    requires |id| == USER_ID_SIZE
    ensures IsReplyOf(s, PHONE_RES, 9, ResponseValue(id))
  {
    ResponseLayoutOk();
    var msg := new Leaf(RESPONSE, RESPONSE_LAYOUT);
    msg.Set(0, PHONE_RES);
    AddBytes(msg, 1, id);
    msg.Set(2, USER_ID_SIZE);
    assert msg.value == ResponseValue(id);
    ResponseSendable(id);
    s := SendReply(PHONE_RES, 9, msg);
  }

  lemma ResponseSendable(id: seq<byte>)
    requires |id| == USER_ID_SIZE
    ensures Sendable(PHONE_RES, 9, ResponseValue(id))
  {
    ResponseWellFormed();
    SendableLeaf(PHONE_RES, 9, ResponseValue(id));
  }

  // ----- Dispatch ---------------------------------------------------------------------------------------------

  /** What the parser makes of the received bytes. */
  ghost function Received(lib: Library, bytes: seq<byte>): (o: Outcome)
    ensures Typed(ALL_IN_ONE, o.m)
  {
    EmptyTyped(ALL_IN_ONE);
    Parse(ALL_IN_ONE, lib, bytes, Empty(ALL_IN_ONE))
  }

  ghost predicate Accepted(lib: Library, bytes: seq<byte>) {
    AllInOneWellFormed();
    Received(lib, bytes).ok && Received(lib, bytes).legit && Initialized(ALL_IN_ONE, Received(lib, bytes).m)
  }

  /** A sub-message getter: the default instance when absent. */
  function SubOf(m: Message, i: nat): Message
    requires Typed(ALL_IN_ONE, m) && 1 <= i < |ALL_IN_ONE.cases|
  {
    AllInOne.AllInOneIsRoot();
    assert TypedVal(ALL_IN_ONE, i, m[i]);
    if m[i].msg.Some? then m[i].msg.value else SubEmpty(ALL_IN_ONE, i)
  }

  /** The reply type each request type leads to, for the six requests that are answered at all. */
  function Successor(kind: uint32): Option<uint32> {
    if kind == RA_VERIFICATION then Some(RA_MSG0)
    else if kind == RA_MSG0 then Some(RA_MSG1)
    else if kind == RA_MSG2 then Some(RA_MSG3)
    else if kind == RA_ATT_RESULT then Some(RA_APP_ATT_OK)
    else if kind == PHONE_REG then Some(PHONE_RES)
    else if kind == SMS_SEND then Some(SMS_RES)
    else None
  }

  /** What the handlers rely on without checking: long enough lists, a registered id, enclave success. */
  ghost predicate RequestOk(c: Crypto, rows: Rows, m: Message, salt: nat)
    requires Typed(ALL_IN_ONE, m)
  {
    var kind := Attestation.Scalar(m, 0);
    && (kind == RA_ATT_RESULT ==>
        var a := SubOf(m, 7);
        Attestation.InBounds(Attestation.Scalar(a, 1), Attestation.Scalar(a, 12)) && Attestation.ListsLongEnough(a))
    && (kind == PHONE_REG ==>
        var r := SubOf(m, 8);
        RegisterListsOk(r) && EnclaveAccepts(c, PhoneCipher(r), PhoneMac(r), salt))
    && (kind == SMS_SEND ==>
        var s := SubOf(m, 10);
        SmsListsOk(s) && PHONE_SIZE + Attestation.Scalar(s, 3) <= DATA_SIZE && Hex(SmsId(s)) in rows)
  }

  /** What the service does with an accepted request, by its type. */
  ghost predicate Answered(c: Crypto, m: Message, p: Platform, was: Rows, rows: Rows, res: seq<byte>)
    requires Typed(ALL_IN_ONE, m)
  {
    var kind := Attestation.Scalar(m, 0);
    && (res != [] ==> Successor(kind).Some? && IsReply(res, Successor(kind).value))
    && (kind != PHONE_REG ==> rows == was)
    && (kind == RA_VERIFICATION ==> IsReplyOf(res, RA_MSG0, 3, Msg0Value(p.extendedGroup)))
    && (kind == RA_MSG0 ==>
        if Attestation.Scalar(SubOf(m, 3), 2) == TYPE_OK && p.enclaveUp && p.msg1.Some?
        then IsReplyOf(res, RA_MSG1, 4, Msg1Value(p.msg1.value))
        else res == [])
    && (kind == RA_MSG2 ==>
        if p.msg3.Some? then IsReplyOf(res, RA_MSG3, 6, Msg3Value(p.msg3.value)) else res == [])
    && (kind == RA_ATT_RESULT ==>
        if p.macOk && p.secretOk then IsReplyOf(res, RA_APP_ATT_OK, 2, OkValue()) else res == [])
    && (kind == PHONE_REG ==> Registers(c, SubOf(m, 8), p.salt, was, rows, res))
    && (kind == SMS_SEND ==> IsReplyOf(res, SMS_RES, 11, SmsResponseValue(200)))
  }

  /** The table gains the phone's row and the reply is the phone's id. */
  ghost predicate Registers(c: Crypto, m: Message, salt: nat, was: Rows, rows: Rows, res: seq<byte>) {
    && RegisterListsOk(m) && EnclaveAccepts(c, PhoneCipher(m), PhoneMac(m), salt)
    && var phone := c.decrypt(PhoneCipher(m), PhoneMac(m)).value;
       && |c.hash(phone)| == HASH_SIZE && rows == Stored(c, was, PhoneCipher(m), PhoneMac(m), salt)
       && IsReplyOf(res, PHONE_RES, 9, ResponseValue(UserId(c, phone)))
  }

  /** The required type of an initialized AllInOneMessage is present, and declared. */
  lemma TypePresent(m: Message)
    requires Typed(ALL_IN_ONE, m) && WellFormed(ALL_IN_ONE) && Initialized(ALL_IN_ONE, m)
    ensures m[0] == Num(Some(Attestation.Scalar(m, 0))) && IsValidType(Attestation.Scalar(m, 0))
  {
    assert TypedVal(ALL_IN_ONE, 0, m[0]) && 0 in ALL_IN_ONE.required;
  }

  /** `aio_msg.x()` of a parsed message, copied out: nothing lingers, so an absent field gives the default. */
  method CopySub(aio: Root, i: nat) returns (m: Message)
    requires aio.Valid() && aio.Tidy() && aio.desc == ALL_IN_ONE && 1 <= i < |aio.children|
    ensures m == SubOf(aio.value, i)
  {
    m := aio.Get(i);
  }
}
