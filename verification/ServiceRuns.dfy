/**
 Runs of the service: any sequence of received byte strings, each handled over the table the earlier
 ones left.
 */
module ServiceRuns {
  import opened Wrappers
  import opened Wire
  import opened Schema
  import opened HexText
  import opened Registry
  import Attestation
  import opened MessageTables
  import opened MessageHandler
  import Exchanges

  /** What is received, and what the platform answers while it is handled. */
  datatype Call = Call(bytes: seq<byte>, platform: Platform)

  ghost predicate CallOk(c: Crypto, lib: Library, rows: Rows, call: Call) {
    && Sized(call.platform)
    && (Accepted(lib, call.bytes) ==> RequestOk(c, rows, Received(lib, call.bytes).m, call.platform.salt))
  }

  ghost predicate IsRegistration(lib: Library, call: Call) {
    Accepted(lib, call.bytes) && Attestation.Scalar(Received(lib, call.bytes).m, 0) == PHONE_REG
  }

  /** The id that a registration replies. */
  ghost function ReturnedId(c: Crypto, lib: Library, rows: Rows, call: Call): seq<byte>
    requires Lawful(c) && CallOk(c, lib, rows, call) && IsRegistration(lib, call)
  {
    var reg := SubOf(Received(lib, call.bytes).m, 8);
    UserId(c, c.decrypt(PhoneCipher(reg), PhoneMac(reg)).value)
  }

  ghost function AfterCall(c: Crypto, lib: Library, rows: Rows, call: Call): Rows
    requires Lawful(c) && CallOk(c, lib, rows, call)
  {
    if IsRegistration(lib, call) then
      var reg := SubOf(Received(lib, call.bytes).m, 8);
      Stored(c, rows, PhoneCipher(reg), PhoneMac(reg), call.platform.salt)
    else rows
  }

  /** Each call is one the handlers can serve over the table at its time. */
  ghost predicate RunOk(c: Crypto, lib: Library, rows: Rows, calls: seq<Call>)
    requires Lawful(c)
    decreases |calls|
  {
    calls == [] || (CallOk(c, lib, rows, calls[0]) && RunOk(c, lib, AfterCall(c, lib, rows, calls[0]), calls[1..]))
  }

  ghost function AfterRun(c: Crypto, lib: Library, rows: Rows, calls: seq<Call>): Rows
    requires Lawful(c) && RunOk(c, lib, rows, calls)
    decreases |calls|
  {
    if calls == [] then rows else AfterRun(c, lib, AfterCall(c, lib, rows, calls[0]), calls[1..])
  }

  /** Each reply answers its call over the tables before and after it. */
  ghost predicate AllAnswered(c: Crypto, lib: Library, rows: Rows, calls: seq<Call>, replies: seq<seq<byte>>)
    requires Lawful(c) && RunOk(c, lib, rows, calls)
    decreases |calls|
  {
    && |replies| == |calls|
    && (calls != [] ==>
        && (if Accepted(lib, calls[0].bytes)
            then
              Answered(c, Received(lib, calls[0].bytes).m, calls[0].platform, rows,
                       AfterCall(c, lib, rows, calls[0]), replies[0])
            else replies[0] == [])
        && AllAnswered(c, lib, AfterCall(c, lib, rows, calls[0]), calls[1..], replies[1..]))
  }

  method Serve(h: Handler, lib: Library, calls: seq<Call>, data: array<char>) returns (replies: seq<seq<byte>>)
    requires h.Valid() && data.Length == DATA_SIZE && RunOk(h.crypto, lib, h.db.rows, calls)
    modifies h.db, data
    ensures h.Valid() && h.db.rows == AfterRun(h.crypto, lib, old(h.db.rows), calls)
    ensures AllAnswered(h.crypto, lib, old(h.db.rows), calls, replies)
    decreases |calls|
  {
    if calls == [] {
      return [];
    }
    var reply, _ := h.HandleMessages(calls[0].bytes, lib, calls[0].platform, data);
    assert h.db.rows == AfterCall(h.crypto, lib, old(h.db.rows), calls[0]);
    var rest := Serve(h, lib, calls[1..], data);
    replies := [reply] + rest;
    assert replies[1..] == rest;
  }

  lemma CallKeeps(c: Crypto, lib: Library, rows: Rows, call: Call)
    requires Lawful(c) && Invariant(c, rows) && CallOk(c, lib, rows, call)
    ensures Invariant(c, AfterCall(c, lib, rows, call)) && rows.Keys <= AfterCall(c, lib, rows, call).Keys
    ensures IsRegistration(lib, call) ==> Hex(ReturnedId(c, lib, rows, call)) in AfterCall(c, lib, rows, call)
  {
    if IsRegistration(lib, call) {
      var reg := SubOf(Received(lib, call.bytes).m, 8);
      StoredKeeps(c, rows, PhoneCipher(reg), PhoneMac(reg), call.platform.salt);
    }
  }

  lemma {:induction false} RunKeeps(c: Crypto, lib: Library, rows: Rows, calls: seq<Call>)
    requires Lawful(c) && Invariant(c, rows) && RunOk(c, lib, rows, calls)
    ensures Invariant(c, AfterRun(c, lib, rows, calls)) && rows.Keys <= AfterRun(c, lib, rows, calls).Keys
    decreases |calls|
  {
    if calls != [] {
      CallKeeps(c, lib, rows, calls[0]);
      RunKeeps(c, lib, AfterCall(c, lib, rows, calls[0]), calls[1..]);
    }
  }

  /** One more call at the end of a run. */
  lemma {:induction false} RunOkThen(c: Crypto, lib: Library, rows: Rows, calls: seq<Call>, last: Call)
    requires Lawful(c) && RunOk(c, lib, rows, calls) && CallOk(c, lib, AfterRun(c, lib, rows, calls), last)
    ensures RunOk(c, lib, rows, calls + [last])
    decreases |calls|
  {
    if calls == [] {
      assert ([] + [last])[1..] == [];
    } else {
      RunOkThen(c, lib, AfterCall(c, lib, rows, calls[0]), calls[1..], last);
      assert (calls + [last])[1..] == calls[1..] + [last];
    }
  }

  /** The last reply answers the last call over the table that the calls before it made. */
  lemma {:induction false} LastAnswered(c: Crypto, lib: Library, rows: Rows, calls: seq<Call>, last: Call,
                                        replies: seq<seq<byte>>)
    requires Lawful(c) && RunOk(c, lib, rows, calls) && CallOk(c, lib, AfterRun(c, lib, rows, calls), last)
    requires RunOk(c, lib, rows, calls + [last]) && AllAnswered(c, lib, rows, calls + [last], replies)
    requires Accepted(lib, last.bytes)
    ensures |replies| == |calls| + 1
    ensures
      var before := AfterRun(c, lib, rows, calls);
      var after := AfterCall(c, lib, before, last);
      Answered(c, Received(lib, last.bytes).m, last.platform, before, after, replies[|calls|])
    decreases |calls|
  {
    if calls != [] {
      assert (calls + [last])[1..] == calls[1..] + [last];
      LastAnswered(c, lib, AfterCall(c, lib, rows, calls[0]), calls[1..], last, replies[1..]);
    }
  }

  /** After a registration and any further calls the returned id has a row, with a phone that hashes to the id. */
  lemma {:induction false} ReturnedIdIsStored(c: Crypto, lib: Library, rows: Rows, first: Call, later: seq<Call>)
    requires Lawful(c) && Invariant(c, rows) && RunOk(c, lib, rows, [first] + later)
    requires IsRegistration(lib, first) && CallOk(c, lib, rows, first)
    ensures
      var id := ReturnedId(c, lib, rows, first);
      var after := AfterRun(c, lib, rows, [first] + later);
      && Hex(id) in after
      && var phone := c.unseal(Unhex(after[Hex(id)]));
         phone.Some? && |phone.value| == 11 && |c.hash(phone.value)| == 32 && c.hash(phone.value)[..16] == id
  {
    var calls := [first] + later;
    assert calls[0] == first && calls[1..] == later;
    CallKeeps(c, lib, rows, first);
    var mid := AfterCall(c, lib, rows, first);
    RunKeeps(c, lib, mid, later);
    var key := Hex(ReturnedId(c, lib, rows, first));
    var after := AfterRun(c, lib, rows, calls);
    assert after == AfterRun(c, lib, mid, later);
    assert key in mid.Keys && key in after.Keys && RowOk(c, key, after[key]);
    RoundTrip(ReturnedId(c, lib, rows, first));
  }

  /**
   The row right after a registration, and the id it returns: the phone in the first 11 elements of
   cipherPhone, decrypted under the first 16 of mac, and the first half of its hash.
   */
  lemma RegistrationRow(c: Crypto, lib: Library, rows: Rows, call: Call, cipher: seq<byte>, mac: seq<byte>)
    requires Lawful(c) && CallOk(c, lib, rows, call) && Accepted(lib, call.bytes)
    requires
      var m := Received(lib, call.bytes).m;
      && |m| == 12 && m[0] == Num(Some(7)) && m[8].Msg? && m[8].msg.Some? && |m[8].msg.value| == 4
      && m[8].msg.value[1].List? && |m[8].msg.value[1].xs| >= 11
      && m[8].msg.value[3].List? && |m[8].msg.value[3].xs| >= 16
      && |cipher| == 11 && (forall k | 0 <= k < 11 :: cipher[k] == m[8].msg.value[1].xs[k] % 256)
      && |mac| == 16 && (forall k | 0 <= k < 16 :: mac[k] == m[8].msg.value[3].xs[k] % 256)
    ensures IsRegistration(lib, call) && c.decrypt(cipher, mac).Some?
    ensures
      var phone := c.decrypt(cipher, mac).value;
      && |phone| == 11 && |c.hash(phone)| == 32
      && var id := c.hash(phone)[..16];
         && ReturnedId(c, lib, rows, call) == id && Hex(id) in AfterCall(c, lib, rows, call)
         && c.unseal(Unhex(AfterCall(c, lib, rows, call)[Hex(id)])) == Some(phone)
  {
    Exchanges.RegistrationFields(Received(lib, call.bytes).m, cipher, mac);
    RoundTrip(c.seal(c.decrypt(cipher, mac).value, call.platform.salt).value);
  }

  /** A short message to an id with a row, with the room that the handler relies on. */
  lemma SmsCallOk(c: Crypto, lib: Library, rows: Rows, sms: Call, id: seq<byte>, text: seq<byte>)
    requires Accepted(lib, sms.bytes) && Sized(sms.platform)
    requires
      var m := Received(lib, sms.bytes).m;
      && |m| == 12 && m[0] == Num(Some(9)) && m[10].Msg? && m[10].msg.Some? && |m[10].msg.value| == 4
      && m[10].msg.value[1].List? && |m[10].msg.value[1].xs| >= 16
      && m[10].msg.value[2].List? && |m[10].msg.value[2].xs| >= |text|
      && m[10].msg.value[3].Num? && |text| == (if m[10].msg.value[3].num.Some? then m[10].msg.value[3].num.value else 0)
      && |id| == 16 && (forall k | 0 <= k < 16 :: id[k] == m[10].msg.value[1].xs[k] % 256)
      && (forall k | 0 <= k < |text| :: text[k] == m[10].msg.value[2].xs[k] % 256)
    requires |text| <= 21 && Hex(id) in rows
    ensures CallOk(c, lib, rows, sms)
  {
    Exchanges.SmsFields(Received(lib, sms.bytes).m, id, text);
  }

  /**
   A short message to the id that a registration returned can always be served, whatever came between,
   and the receiver of its reply reads code 200.
   */
  lemma {:induction false} ReturnedIdIsServed(c: Crypto, lib: Library, rows: Rows, first: Call, later: seq<Call>,
                                              sms: Call, text: seq<byte>, replies: seq<seq<byte>>, receiver: Library)
    requires Lawful(c) && Invariant(c, rows) && RunOk(c, lib, rows, [first] + later)
    requires IsRegistration(lib, first) && CallOk(c, lib, rows, first)
    requires Accepted(lib, sms.bytes) && Sized(sms.platform) && |text| <= 21
    requires
      var m := Received(lib, sms.bytes).m;
      var id := ReturnedId(c, lib, rows, first);
      && |m| == 12 && m[0] == Num(Some(9)) && m[10].Msg? && m[10].msg.Some? && |m[10].msg.value| == 4
      && m[10].msg.value[1].List? && |m[10].msg.value[1].xs| >= 16
      && m[10].msg.value[2].List? && |m[10].msg.value[2].xs| >= |text|
      && m[10].msg.value[3].Num? && |text| == (if m[10].msg.value[3].num.Some? then m[10].msg.value[3].num.value else 0)
      && |id| == 16 && (forall k | 0 <= k < 16 :: id[k] == m[10].msg.value[1].xs[k] % 256)
      && (forall k | 0 <= k < |text| :: text[k] == m[10].msg.value[2].xs[k] % 256)
    ensures RunOk(c, lib, rows, [first] + later + [sms]) && Typed(ALL_IN_ONE, Empty(ALL_IN_ONE))
    ensures AllAnswered(c, lib, rows, [first] + later + [sms], replies) ==>
      && |replies| == |later| + 2
      && var o := Parse(ALL_IN_ONE, receiver, replies[|later| + 1], Empty(ALL_IN_ONE));
         && o.ok && o.legit && |o.m| == 12 && o.m[0] == Num(Some(10))
         && o.m[11] == Msg(Some([Num(Some(10)), Num(Some(200)), Num(None)]))
  {
    EmptyTyped(ALL_IN_ONE);
    var calls := [first] + later;
    var id := ReturnedId(c, lib, rows, first);
    ReturnedIdIsStored(c, lib, rows, first, later);
    var before := AfterRun(c, lib, rows, calls);
    SmsCallOk(c, lib, before, sms, id, text);
    RunOkThen(c, lib, rows, calls, sms);
    if AllAnswered(c, lib, rows, calls + [sms], replies) {
      LastAnswered(c, lib, rows, calls, sms, replies);
      var after := AfterCall(c, lib, before, sms);
      Exchanges.SmsReply(receiver, c, Received(lib, sms.bytes).m, sms.platform, before, after, replies[|calls|]);
    }
  }
}
