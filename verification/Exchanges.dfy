/**
 What goes over the wire, in literal messages: which requests are taken, what a registration and a short
 message mean, and what the receiver of each reply parses. Fields are counted from 0 here, so field 0 is
 the type and field 8 of AllInOneMessage is regMsg.
 */
module Exchanges {
  import opened Wrappers
  import opened Wire
  import opened Schema
  import opened MessageTables
  import opened LeafMessage
  import opened HexText
  import opened Registry
  import opened Replies
  import opened MessageHandler
  import AllInOne
  import Attestation

  /** Accepted is a parse to the end of the bytes, the type, and in each present sub-message what it requires. */
  lemma AcceptedIff(lib: Library, bytes: seq<byte>)
    ensures Typed(ALL_IN_ONE, Empty(ALL_IN_ONE))
    ensures
      var o := Parse(ALL_IN_ONE, lib, bytes, Empty(ALL_IN_ONE));
      Accepted(lib, bytes) <==>
        && o.ok && o.legit && |o.m| == 12 && o.m[0].Num? && o.m[0].num.Some?
        && forall i | 1 <= i < 12 && o.m[i].Msg? && o.m[i].msg.Some? ::
          var c := o.m[i].msg.value;
          && |c| > 1 && c[0].Num? && c[0].num.Some?
          && (i == 3 || i == 7 || i == 11 ==> c[1].Num? && c[1].num.Some?)
  {
    EmptyTyped(ALL_IN_ONE);
    AllInOne.InitializedIff(Parse(ALL_IN_ONE, lib, bytes, Empty(ALL_IN_ONE)).m);
  }

  // ----- Replies ---------------------------------------------------------------------------------------

  /** The receiver of a reply parses its type, its one sub-message with these contents, and nothing else. */
  lemma ReplyContents(lib: Library, bytes: seq<byte>, kind: uint32, i: nat, child: Message)
    requires IsReplyOf(bytes, kind, i, child)
    ensures Typed(ALL_IN_ONE, Empty(ALL_IN_ONE)) && 1 <= i < 12
    ensures
      var o := Parse(ALL_IN_ONE, lib, bytes, Empty(ALL_IN_ONE));
      && o.ok && o.legit && |o.m| == 12 && o.m[0] == Num(Some(kind)) && o.m[i] == Msg(Some(child))
      && forall j | 1 <= j < 12 && j != i :: o.m[j] == Msg(None)
  {
    ReplyTyped(kind, i, child);
    ReplyFits(kind, i, child);
    AllInOne.RoundTrip(lib, ReplyMessage(kind, i, child));
    forall j | 1 <= j < 12 && j != i ensures ReplyMessage(kind, i, child)[j] == Msg(None) {
      AllInOne.LayoutsFit(j);
      assert Empty(ALL_IN_ONE)[j] == Msg(None);
    }
  }

  lemma NumbersAre(b: seq<byte>)
    ensures Numbers(b) == b
  {
  }

  /** The answer to a verification request. */
  lemma VerificationReply(lib: Library, c: Crypto, m: Message, p: Platform, was: Rows, rows: Rows, res: seq<byte>)
    requires Typed(ALL_IN_ONE, m) && m[0] == Num(Some(5)) && Answered(c, m, p, was, rows, res)
    ensures Typed(ALL_IN_ONE, Empty(ALL_IN_ONE)) && rows == was
    ensures
      var o := Parse(ALL_IN_ONE, lib, res, Empty(ALL_IN_ONE));
      && o.ok && o.legit && |o.m| == 12 && o.m[0] == Num(Some(0))
      && o.m[3] == Msg(Some([Num(Some(0)), Num(Some(p.extendedGroup)), Num(None)]))
  {
    ReplyContents(lib, res, RA_MSG0, 3, Msg0Value(p.extendedGroup));
  }

  /** The answer to MSG0: its status must be 0, as which an absent status and an absent msg0 read. */
  lemma Msg0Reply(lib: Library, c: Crypto, m: Message, p: Platform, was: Rows, rows: Rows, res: seq<byte>)
    requires Typed(ALL_IN_ONE, m) && m[0] == Num(Some(0)) && Answered(c, m, p, was, rows, res)
    ensures Typed(ALL_IN_ONE, Empty(ALL_IN_ONE)) && rows == was
    ensures m[3].Msg? && (m[3].msg.Some? ==> |m[3].msg.value| == 3)
    ensures
      var o := Parse(ALL_IN_ONE, lib, res, Empty(ALL_IN_ONE));
      var status := if m[3].msg.Some? then m[3].msg.value[2] else Num(None);
      if (status == Num(None) || status == Num(Some(0))) && p.enclaveUp && p.msg1.Some? then
        && o.ok && o.legit && |o.m| == 12 && o.m[0] == Num(Some(1))
        && o.m[4] == Msg(Some([Num(Some(1)), List(p.msg1.value.gx), List(p.msg1.value.gy), List(p.msg1.value.gid)]))
      else
        res == []
  {
    Msg0Status(m);
    if p.msg1.Some? {
      NumbersAre(p.msg1.value.gx);
      NumbersAre(p.msg1.value.gy);
      NumbersAre(p.msg1.value.gid);
      if Attestation.Scalar(SubOf(m, 3), 2) == 0 && p.enclaveUp {
        ReplyContents(lib, res, RA_MSG1, 4, Msg1Value(p.msg1.value));
      }
    }
  }

  lemma Msg0Status(m: Message)
    requires Typed(ALL_IN_ONE, m)
    ensures Typed(ALL_IN_ONE, Empty(ALL_IN_ONE))
    ensures m[3].Msg? && (m[3].msg.Some? ==> |m[3].msg.value| == 3)
    ensures
      var status := if m[3].msg.Some? then m[3].msg.value[2] else Num(None);
      Attestation.Scalar(SubOf(m, 3), 2) == 0 <==> status == Num(None) || status == Num(Some(0))
  {
    EmptyTyped(ALL_IN_ONE);
    AllInOne.AllInOneIsRoot();
    assert TypedVal(ALL_IN_ONE, 3, m[3]);
    assert Attestation.Scalar(Empty(MSG0), 2) == 0;
    if m[3].msg.Some? {
      assert Typed(MSG0, m[3].msg.value) && TypedVal(MSG0, 2, m[3].msg.value[2]);
    }
  }

  /** The answer to MSG2. */
  lemma Msg2Reply(lib: Library, c: Crypto, m: Message, p: Platform, was: Rows, rows: Rows, res: seq<byte>)
    requires Typed(ALL_IN_ONE, m) && m[0] == Num(Some(2)) && Answered(c, m, p, was, rows, res)
    ensures Typed(ALL_IN_ONE, Empty(ALL_IN_ONE)) && rows == was
    ensures
      var o := Parse(ALL_IN_ONE, lib, res, Empty(ALL_IN_ONE));
      if p.msg3.Some? then
        var g := p.msg3.value;
        && o.ok && o.legit && |o.m| == 12 && o.m[0] == Num(Some(3))
        && o.m[6]
           == Msg(Some([Num(Some(3)), Num(Some(g.size)), List(g.mac), List(g.gx), List(g.gy), List(g.property),
                        List(g.quote)]))
      else
        res == []
  {
    EmptyTyped(ALL_IN_ONE);
    if p.msg3.Some? {
      var g := p.msg3.value;
      NumbersAre(g.mac);
      NumbersAre(g.gx);
      NumbersAre(g.gy);
      NumbersAre(g.property);
      NumbersAre(g.quote);
      ReplyContents(lib, res, RA_MSG3, 6, Msg3Value(g));
    }
  }

  /** The answer to an attestation result. */
  lemma AttestationReply(lib: Library, c: Crypto, m: Message, p: Platform, was: Rows, rows: Rows, res: seq<byte>)
    requires Typed(ALL_IN_ONE, m) && m[0] == Num(Some(4)) && Answered(c, m, p, was, rows, res)
    ensures Typed(ALL_IN_ONE, Empty(ALL_IN_ONE)) && rows == was
    ensures
      var o := Parse(ALL_IN_ONE, lib, res, Empty(ALL_IN_ONE));
      if p.macOk && p.secretOk then
        && o.ok && o.legit && |o.m| == 12 && o.m[0] == Num(Some(6))
        && o.m[2] == Msg(Some([Num(Some(6)), Num(Some(0))]))
      else
        res == []
  {
    EmptyTyped(ALL_IN_ONE);
    if p.macOk && p.secretOk {
      ReplyContents(lib, res, RA_APP_ATT_OK, 2, OkValue());
    }
  }

  /** The answer to a short message: code 200. */
  lemma SmsReply(lib: Library, c: Crypto, m: Message, p: Platform, was: Rows, rows: Rows, res: seq<byte>)
    requires Typed(ALL_IN_ONE, m) && m[0] == Num(Some(9)) && Answered(c, m, p, was, rows, res)
    ensures Typed(ALL_IN_ONE, Empty(ALL_IN_ONE)) && rows == was
    ensures
      var o := Parse(ALL_IN_ONE, lib, res, Empty(ALL_IN_ONE));
      && o.ok && o.legit && |o.m| == 12 && o.m[0] == Num(Some(10))
      && o.m[11] == Msg(Some([Num(Some(10)), Num(Some(200)), Num(None)]))
  {
    ReplyContents(lib, res, SMS_RES, 11, SmsResponseValue(200));
  }

  /** Requests of the five other types are taken and not answered. */
  lemma NoReply(c: Crypto, m: Message, p: Platform, was: Rows, rows: Rows, res: seq<byte>, kind: uint32)
    requires Typed(ALL_IN_ONE, m) && m[0] == Num(Some(kind)) && kind in [1, 3, 6, 8, 10]
    requires Answered(c, m, p, was, rows, res)
    ensures res == [] && rows == was
  {
  }

  // ----- Registrations -------------------------------------------------------------------------------------

  /** A registration that the handler can serve has a regMsg with these lists. */
  lemma RegistrationLists(c: Crypto, rows: Rows, m: Message, salt: nat)
    requires Typed(ALL_IN_ONE, m) && m[0] == Num(Some(7)) && RequestOk(c, rows, m, salt)
    ensures m[8].Msg? && m[8].msg.Some? && |m[8].msg.value| == 4
    ensures
      var r := m[8].msg.value;
      r[1].List? && r[3].List? && |r[1].xs| >= 11 && |r[3].xs| >= 16
  {
    AllInOne.AllInOneIsRoot();
    assert TypedVal(ALL_IN_ONE, 8, m[8]);
    assert Attestation.Elements(Empty(REGISTER), 1) == [];
    assert m[8].msg.Some?;
    var r := m[8].msg.value;
    assert Typed(REGISTER, r) && TypedVal(REGISTER, 1, r[1]) && TypedVal(REGISTER, 3, r[3]);
  }

  /** The first n elements, each modulo 256. */
  lemma {:induction false} CutIs(xs: seq<uint32>, b: seq<byte>)
    requires |b| <= |xs| && forall k | 0 <= k < |b| :: b[k] == xs[k] % 256
    ensures Cut(xs, |b|) == b
  {
  }

  /** cipherPhone is field 1 and mac is field 3. */
  lemma RegistrationFields(m: Message, cipher: seq<byte>, mac: seq<byte>)
    requires Typed(ALL_IN_ONE, m) && m[8].Msg? && m[8].msg.Some?
    requires |m[8].msg.value| == 4 && m[8].msg.value[1].List? && m[8].msg.value[3].List?
    requires |cipher| == 11 <= |m[8].msg.value[1].xs| && |mac| == 16 <= |m[8].msg.value[3].xs|
    requires forall k | 0 <= k < 11 :: cipher[k] == m[8].msg.value[1].xs[k] % 256
    requires forall k | 0 <= k < 16 :: mac[k] == m[8].msg.value[3].xs[k] % 256
    ensures SubOf(m, 8) == m[8].msg.value && RegisterListsOk(SubOf(m, 8))
    ensures PhoneCipher(SubOf(m, 8)) == cipher && PhoneMac(SubOf(m, 8)) == mac
  {
    CutIs(m[8].msg.value[1].xs, cipher);
    CutIs(m[8].msg.value[3].xs, mac);
  }

  /**
   The phone in the first 11 elements of cipherPhone, decrypted under the first 16 of mac, gets one row:
   the sealed phone, under the first half of its hash.
   */
  lemma RegistrationStores(c: Crypto, m: Message, salt: nat, was: Rows, rows: Rows, cipher: seq<byte>, mac: seq<byte>,
                           res: seq<byte>)
    requires Lawful(c) && Typed(ALL_IN_ONE, m) && m[8].Msg? && m[8].msg.Some?
    requires |m[8].msg.value| == 4 && m[8].msg.value[1].List? && m[8].msg.value[3].List?
    requires |cipher| == 11 <= |m[8].msg.value[1].xs| && |mac| == 16 <= |m[8].msg.value[3].xs|
    requires forall k | 0 <= k < 11 :: cipher[k] == m[8].msg.value[1].xs[k] % 256
    requires forall k | 0 <= k < 16 :: mac[k] == m[8].msg.value[3].xs[k] % 256
    requires Registers(c, SubOf(m, 8), salt, was, rows, res)
    ensures c.decrypt(cipher, mac).Some?
    ensures
      var phone := c.decrypt(cipher, mac).value;
      && |phone| == 11 && |c.hash(phone)| == 32
      && var key := Hex(c.hash(phone)[..16]);
         && rows.Keys == was.Keys + {key} && (forall k | k in was && k != key :: rows[k] == was[k])
         && c.unseal(Unhex(rows[key])) == Some(phone)
         && IsReplyOf(res, PHONE_RES, 9, ResponseValue(c.hash(phone)[..16]))
  {
    RegistrationFields(m, cipher, mac);
    var phone := c.decrypt(cipher, mac).value;
    RoundTrip(c.seal(phone, salt).value);
  }

  /** The same for an answered request, whose reply carries the id. */
  lemma RegistrationReply(lib: Library, c: Crypto, m: Message, p: Platform, was: Rows, rows: Rows, res: seq<byte>,
                          cipher: seq<byte>, mac: seq<byte>)
    requires Lawful(c) && Typed(ALL_IN_ONE, m) && m[0] == Num(Some(7)) && Answered(c, m, p, was, rows, res)
    requires m[8].Msg? && m[8].msg.Some?
    requires |m[8].msg.value| == 4 && m[8].msg.value[1].List? && m[8].msg.value[3].List?
    requires |cipher| == 11 <= |m[8].msg.value[1].xs| && |mac| == 16 <= |m[8].msg.value[3].xs|
    requires forall k | 0 <= k < 11 :: cipher[k] == m[8].msg.value[1].xs[k] % 256
    requires forall k | 0 <= k < 16 :: mac[k] == m[8].msg.value[3].xs[k] % 256
    ensures Typed(ALL_IN_ONE, Empty(ALL_IN_ONE)) && c.decrypt(cipher, mac).Some?
    ensures
      var phone := c.decrypt(cipher, mac).value;
      var o := Parse(ALL_IN_ONE, lib, res, Empty(ALL_IN_ONE));
      && |phone| == 11 && |c.hash(phone)| == 32
      && var id := c.hash(phone)[..16];
         && rows.Keys == was.Keys + {Hex(id)} && (forall k | k in was && k != Hex(id) :: rows[k] == was[k])
         && c.unseal(Unhex(rows[Hex(id)])) == Some(phone)
         && o.ok && o.legit && |o.m| == 12 && o.m[0] == Num(Some(8))
         && o.m[9] == Msg(Some([Num(Some(8)), List(id), Num(Some(16))]))
  {
    RegistrationStores(c, m, p.salt, was, rows, cipher, mac, res);
    var id := c.hash(c.decrypt(cipher, mac).value)[..16];
    NumbersAre(id);
    ReplyContents(lib, res, PHONE_RES, 9, ResponseValue(id));
  }

  // ----- Short messages ------------------------------------------------------------------------------------

  /** In smsMsg the id is field 1, the text field 2 and its size field 3, absent for 0. */
  lemma SmsFields(m: Message, id: seq<byte>, text: seq<byte>)
    requires Typed(ALL_IN_ONE, m) && m[10].Msg? && m[10].msg.Some?
    requires |m[10].msg.value| == 4 && m[10].msg.value[1].List? && m[10].msg.value[2].List?
    requires var n := m[10].msg.value[3]; n.Num? && |text| == if n.num.Some? then n.num.value else 0
    requires |id| == 16 <= |m[10].msg.value[1].xs| && |text| <= |m[10].msg.value[2].xs|
    requires forall k | 0 <= k < 16 :: id[k] == m[10].msg.value[1].xs[k] % 256
    requires forall k | 0 <= k < |text| :: text[k] == m[10].msg.value[2].xs[k] % 256
    ensures SubOf(m, 10) == m[10].msg.value && SmsListsOk(SubOf(m, 10)) && Attestation.Scalar(SubOf(m, 10), 3) == |text|
    ensures SmsId(SubOf(m, 10)) == id && SmsText(SubOf(m, 10)) == text
  {
    CutIs(m[10].msg.value[1].xs, id);
    CutIs(m[10].msg.value[2].xs, text);
  }

  /** A short message goes to the phone that is sealed under its id, and that hashes to the id. */
  lemma SmsGoesTo(c: Crypto, rows: Rows, m: Message, data: array<char>, phone: seq<byte>,
                  id: seq<byte>, text: seq<byte>)
    requires Typed(ALL_IN_ONE, m) && m[10].Msg? && m[10].msg.Some?
    requires |m[10].msg.value| == 4 && m[10].msg.value[1].List? && m[10].msg.value[2].List?
    requires var n := m[10].msg.value[3]; n.Num? && |text| == if n.num.Some? then n.num.value else 0
    requires |id| == 16 <= |m[10].msg.value[1].xs| && |text| <= |m[10].msg.value[2].xs|
    requires forall k | 0 <= k < 16 :: id[k] == m[10].msg.value[1].xs[k] % 256
    requires forall k | 0 <= k < |text| :: text[k] == m[10].msg.value[2].xs[k] % 256
    requires SmsTo(c, rows, SubOf(m, 10), data, phone)
    ensures Hex(id) in rows && c.unseal(Unhex(rows[Hex(id)])) == Some(phone)
    ensures |phone| == 11 && |c.hash(phone)| == 32 && c.hash(phone)[..16] == id
  {
    SmsFields(m, id, text);
  }

  /**
   What the caller's buffer holds afterwards: the front of the unpadded texts of the phone and of the
   message, digit by digit where all bytes are below 16.
   */
  lemma SmsDelivers(c: Crypto, rows: Rows, m: Message, data: array<char>, phone: seq<byte>,
                    id: seq<byte>, text: seq<byte>)
    requires Typed(ALL_IN_ONE, m) && m[10].Msg? && m[10].msg.Some?
    requires |m[10].msg.value| == 4 && m[10].msg.value[1].List? && m[10].msg.value[2].List?
    requires var n := m[10].msg.value[3]; n.Num? && |text| == if n.num.Some? then n.num.value else 0
    requires |id| == 16 <= |m[10].msg.value[1].xs| && |text| <= |m[10].msg.value[2].xs|
    requires forall k | 0 <= k < 16 :: id[k] == m[10].msg.value[1].xs[k] % 256
    requires forall k | 0 <= k < |text| :: text[k] == m[10].msg.value[2].xs[k] % 256
    requires SmsTo(c, rows, SubOf(m, 10), data, phone)
    ensures |phone| == 11 && data.Length >= 11 + |text| && |NoFill(phone)| >= 11 && |NoFill(text)| >= |text|
    ensures data[..11] == NoFill(phone)[..11] && data[11..11 + |text|] == NoFill(text)[..|text|]
    ensures AllShort(phone) ==> forall k | 0 <= k < 11 :: data[k] == "0123456789abcdef"[phone[k]]
    ensures AllShort(text) ==> forall k | 0 <= k < |text| :: data[11 + k] == "0123456789abcdef"[text[k]]
  {
    SmsFields(m, id, text);
    DigitsExact(c, rows, SubOf(m, 10), data, phone);
    if AllShort(phone) {
      forall k | 0 <= k < 11 ensures data[k] == "0123456789abcdef"[phone[k]] {
        DigitIs(phone[k]);
      }
    }
    if AllShort(text) {
      forall k | 0 <= k < |text| ensures data[11 + k] == "0123456789abcdef"[text[k]] {
        DigitIs(text[k]);
      }
    }
  }
}
