/**
 The phone registry: the enclave's register and unseal calls over abstract cryptography, the table
 from hexadecimal user ids to hexadecimal sealed phones, and what holds of it over every run.
 */
module Registry {
  import opened Wrappers
  import opened Wire
  import opened HexText

  const PHONE_SIZE := 11
  const USER_ID_SIZE := 16
  const CIPHER_SIZE := 1024
  const HASH_SIZE := 32
  const UNSEALED_SIZE := 32

  /**
   The SGX library, as arbitrary functions; None is an error status. `decrypt` stands for all that comes
   before the first write of a registration, the session key and the status of the hash included.
   Sealing is randomized; `salt` stands for its choice.
   */
  datatype Crypto = Crypto(
    decrypt: (seq<byte>, seq<byte>) -> Option<seq<byte>>,
    hash: seq<byte> -> seq<byte>,
    seal: (seq<byte>, nat) -> Option<seq<byte>>,
    unseal: seq<byte> -> Option<seq<byte>>)

  /** Only this is known of it: unsealing undoes sealing, and the sizes. */
  ghost predicate Lawful(c: Crypto) {
    && (forall x, salt | c.seal(x, salt).Some? :: c.unseal(c.seal(x, salt).value) == Some(x))
    && (forall x :: |c.hash(x)| == HASH_SIZE)
    && (forall cipher, mac | c.decrypt(cipher, mac).Some? :: |c.decrypt(cipher, mac).value| == |cipher|)
    && (forall x, salt | |x| == PHONE_SIZE && c.seal(x, salt).Some? :: |c.seal(x, salt).value| <= CIPHER_SIZE)
  }

  /** The enclave's part of a registration succeeds. */
  predicate EnclaveAccepts(c: Crypto, cipher: seq<byte>, mac: seq<byte>, salt: nat) {
    c.decrypt(cipher, mac).Some? && c.seal(c.decrypt(cipher, mac).value, salt).Some?
  }

  /** The first half of the hash. */
  function UserId(c: Crypto, phone: seq<byte>): (id: seq<byte>)
    requires |c.hash(phone)| == HASH_SIZE
    ensures |id| == USER_ID_SIZE
  {
    c.hash(phone)[..HASH_SIZE / 2]
  }

  // ----- The enclave's half -----------------------------------------------------------------------------

  method CopyInto(target: array<byte>, bytes: seq<byte>)
    requires |bytes| <= target.Length
    modifies target
    ensures target[..|bytes|] == bytes
  {
    for k := 0 to |bytes|
      invariant forall j | 0 <= j < k :: target[j] == bytes[j]
    {
      target[k] := bytes[k];
    }
  }

  /**
   register_user: decrypt, name by the truncated hash, seal. A decryption error writes nothing; a sealing
   error comes after the id was written.
   */
  method RegisterUser(c: Crypto, cipher: seq<byte>, mac: seq<byte>, salt: nat, userId: array<byte>, sealed: array<byte>)
    returns (ok: bool, sealedLen: nat)
    requires Lawful(c) && |cipher| == PHONE_SIZE && userId != sealed
    requires userId.Length == USER_ID_SIZE && sealed.Length == CIPHER_SIZE
    modifies userId, sealed
    ensures ok == EnclaveAccepts(c, cipher, mac, salt) && sealedLen <= sealed.Length
    ensures
      var phone := c.decrypt(cipher, mac);
      && userId[..] == (if phone.Some? then UserId(c, phone.value) else old(userId[..]))
      && (ok ==> |phone.value| == PHONE_SIZE && sealed[..sealedLen] == c.seal(phone.value, salt).value)
    ensures !ok ==> sealed[..] == old(sealed[..]) && sealedLen == 0
  {
    var decrypted := c.decrypt(cipher, mac);
    ok, sealedLen := decrypted.Some?, 0;
    if ok {
      var hash := c.hash(decrypted.value);
      CopyInto(userId, hash[..HASH_SIZE / 2]);
      var blob := c.seal(decrypted.value, salt);
      ok := blob.Some?;
      if ok {
        CopyInto(sealed, blob.value);
        sealedLen := |blob.value|;
      }
    }
  }

  /** unseal_phone: the caller's buffer must hold the unsealed text. */
  method UnsealPhone(c: Crypto, sealed: seq<byte>, phone: array<byte>) returns (ok: bool, phoneLen: nat)
    requires c.unseal(sealed).Some? ==> |c.unseal(sealed).value| <= phone.Length
    modifies phone
    ensures ok == c.unseal(sealed).Some?
    ensures ok ==> phoneLen == |c.unseal(sealed).value| && phone[..phoneLen] == c.unseal(sealed).value
  {
    var unsealed := c.unseal(sealed);
    ok, phoneLen := unsealed.Some?, 0;
    if ok {
      CopyInto(phone, unsealed.value);
      phoneLen := |unsealed.value|;
    }
  }

  // ----- The table ----------------------------------------------------------------------------------------

  type Rows = map<string, string>

  /** The key is the hexadecimal id of the phone sealed in the row. */
  ghost predicate RowOk(c: Crypto, key: string, blob: string) {
    var phone := c.unseal(Unhex(blob));
    && phone.Some? && |phone.value| == PHONE_SIZE && |Unhex(blob)| <= CIPHER_SIZE && |blob| <= 2 * CIPHER_SIZE
    && |c.hash(phone.value)| == HASH_SIZE
    && Unhex(key) == UserId(c, phone.value) && key == Hex(UserId(c, phone.value))
  }

  ghost predicate Invariant(c: Crypto, rows: Rows) {
    forall key | key in rows :: RowOk(c, key, rows[key])
  }

  /** INSERT ... ON DUPLICATE KEY UPDATE, and SELECT by key. */
  class Database {
    var rows: Rows

    constructor ()
      ensures rows == map[]
    {
      rows := map[];
    }

    method Upsert(key: string, blob: string)
      modifies this
      ensures rows == old(rows)[key := blob]
    {
      rows := rows[key := blob];
    }

    method Select(key: string, sealed: array<byte>) returns (sealedLen: nat)
      requires key in rows && (|rows[key]| + 1) / 2 <= sealed.Length
      modifies sealed
      ensures sealedLen == |Unhex(rows[key])| && sealedLen <= sealed.Length && sealed[..sealedLen] == Unhex(rows[key])
    {
      sealedLen := HexStringToByteArray(rows[key], sealed);
    }
  }

  // ----- Registrations --------------------------------------------------------------------------------------------

  /** What a registration stores, its enclave and database calls succeeding. */
  function Stored(c: Crypto, rows: Rows, cipher: seq<byte>, mac: seq<byte>, salt: nat): Rows
    requires EnclaveAccepts(c, cipher, mac, salt) && |c.hash(c.decrypt(cipher, mac).value)| == HASH_SIZE
  {
    var phone := c.decrypt(cipher, mac).value;
    rows[Hex(UserId(c, phone)) := Hex(c.seal(phone, salt).value)]
  }

  lemma StoredKeeps(c: Crypto, rows: Rows, cipher: seq<byte>, mac: seq<byte>, salt: nat)
    requires Lawful(c) && Invariant(c, rows) && |cipher| == PHONE_SIZE && EnclaveAccepts(c, cipher, mac, salt)
    ensures Invariant(c, Stored(c, rows, cipher, mac, salt))
  {
    var phone := c.decrypt(cipher, mac).value;
    var sealed := c.seal(phone, salt).value;
    var key, blob := Hex(UserId(c, phone)), Hex(sealed);
    RoundTrip(UserId(c, phone));
    RoundTrip(sealed);
    HexLength(sealed);
    assert RowOk(c, key, blob);
  }
}
