/**
 The buffer that assembleAttestationMSG lays out for the enclave: a packed response header and
 attestation result, written field by field into zeroed memory.
 */
module Attestation {
  import opened Wire
  import opened Schema
  import opened MessageTables

  // ----- The getters of a C++ message ---------------------------------------------------------------

  /** A scalar's getter: 0 when the field is absent. */
  function Scalar(m: Message, i: nat): uint32 {
    if i < |m| && m[i].Num? && m[i].num.Some? then m[i].num.value else 0
  }

  function Elements(m: Message, i: nat): seq<uint32> {
    if i < |m| && m[i].List? then m[i].xs else []
  }

  // ----- Packed layout ------------------------------------------------------------------------------

  const HEADER_SIZE := 8
  const PSVN_SIZE := 18
  const ISVSVN_SIZE := 2
  const PSDA_SVN_SIZE := 4
  const GID_SIZE := 4
  const SAMPLE_NISTP256_KEY_SIZE := 8
  const SAMPLE_MAC_SIZE := 16
  const RESERVED_SIZE := 12
  const SAMPLE_SP_TAG_SIZE := 16

  /** Offsets from the start of the header, with no padding anywhere. */
  const SIZE_AT := 3
  const EPID_AT := HEADER_SIZE
  const TCB_AT := EPID_AT + 1
  const PSE_AT := TCB_AT + 2
  const PSVN_AT := PSE_AT + 2
  const ISVSVN_AT := PSVN_AT + PSVN_SIZE
  const PSDA_AT := ISVSVN_AT + ISVSVN_SIZE
  const GID_AT := PSDA_AT + PSDA_SVN_SIZE
  const X_AT := GID_AT + GID_SIZE
  const Y_AT := X_AT + 4 * SAMPLE_NISTP256_KEY_SIZE
  const MAC_AT := Y_AT + 4 * SAMPLE_NISTP256_KEY_SIZE
  const PAYLOAD_SIZE_AT := MAC_AT + SAMPLE_MAC_SIZE
  const RESERVED_AT := PAYLOAD_SIZE_AT + 4
  const TAG_AT := RESERVED_AT + RESERVED_SIZE
  const PAYLOAD_AT := TAG_AT + SAMPLE_SP_TAG_SIZE

  /** The conversion of an unsigned sum to int. */
  function ToInt(n: nat): int {
    (n + 0x8000_0000) % 0x1_0000_0000 - 0x8000_0000
  }

  /** What is passed to malloc(). */
  function TotalSize(size: uint32, resultSize: uint32): int {
    ToInt(size + HEADER_SIZE + resultSize)
  }

  /** The last byte any write touches lies inside the allocation. */
  predicate InBounds(size: uint32, resultSize: uint32) {
    PAYLOAD_AT + resultSize <= TotalSize(size, resultSize)
  }

  /** Exactly when the message claims a body of at least 145 bytes and the sum fits an int. */
  lemma InBoundsIff(size: uint32, resultSize: uint32)
    ensures PAYLOAD_AT == 153
    ensures InBounds(size, resultSize) <==> size >= 145 && size + 8 + resultSize <= 0x7fff_ffff
    ensures InBounds(size, resultSize) ==> TotalSize(size, resultSize) == size + 8 + resultSize
  {
    var sum := size + HEADER_SIZE + resultSize;
    if sum >= 0x8000_0000 {
      assert ToInt(sum) <= sum - 0x1_0000_0000 || sum >= 0x1_8000_0000;
      assert sum < 0x2_0000_0008;
    }
  }

  /** Little-endian numbers in the buffer. */
  function U16(b: array<byte>, at: nat): nat
    requires at + 2 <= b.Length
    reads b
  {
    b[at] as int + 0x100 * b[at + 1] as int
  }

  function U32(b: array<byte>, at: nat): nat
    requires at + 4 <= b.Length
    reads b
  {
    b[at] as int + 0x100 * b[at + 1] as int + 0x1_0000 * b[at + 2] as int + 0x100_0000 * b[at + 3] as int
  }

  // ----- Writing ------------------------------------------------------------------------------------

  /** Only the bytes from `from` to `to` changed. */
  twostate predicate OnlyAt(b: array<byte>, from: nat, to: nat)
    reads b
  {
    forall j | 0 <= j < b.Length && !(from <= j < to) :: b[j] == old(b[j])
  }

  method Write16(buffer: array<byte>, at: nat, n: nat)
    requires at + 2 <= buffer.Length
    modifies buffer
    ensures U16(buffer, at) == n % 65536 && OnlyAt(buffer, at, at + 2)
  {
    buffer[at] := n % 256;
    buffer[at + 1] := n / 256 % 256;
  }

  lemma FourBytes(n: uint32)
    ensures n / 0x100_0000 < 0x100
    ensures
      n % 0x100 + 0x100 * (n / 0x100 % 0x100) + 0x1_0000 * (n / 0x1_0000 % 0x100) + 0x100_0000 * (n / 0x100_0000)
      == n
  {
    var a := n / 0x100;
    var b := a / 0x100;
    assert n / 0x1_0000 == b && n / 0x100_0000 == b / 0x100;
  }

  method Write32(buffer: array<byte>, at: nat, n: uint32)
    requires at + 4 <= buffer.Length
    modifies buffer
    ensures U32(buffer, at) == n && OnlyAt(buffer, at, at + 4)
  {
    FourBytes(n);
    buffer[at] := n % 0x100;
    buffer[at + 1] := n / 0x100 % 0x100;
    buffer[at + 2] := n / 0x1_0000 % 0x100;
    buffer[at + 3] := n / 0x100_0000;
  }

  /** `for (i < n) field[i] = list(i)`, each element cut to a byte. */
  method WriteBytes(buffer: array<byte>, at: nat, xs: seq<uint32>, n: nat)
    requires n <= |xs| && at + n <= buffer.Length
    modifies buffer
    ensures BytesAt(buffer, at, xs, n) && OnlyAt(buffer, at, at + n)
  {
    for i := 0 to n
      invariant BytesAt(buffer, at, xs, i) && OnlyAt(buffer, at, at + i)
    {
      buffer[at + i] := xs[i] % 256;
    }
  }

  predicate BytesAt(b: array<byte>, at: nat, xs: seq<uint32>, n: nat)
    reads b
  {
    n <= |xs| && at + n <= b.Length && forall k | 0 <= k < n :: b[at + k] == xs[k] % 256
  }

  predicate WordsAt(b: array<byte>, at: nat, xs: seq<uint32>, n: nat)
    reads b
  {
    n <= |xs| && at + 4 * n <= b.Length && forall k | 0 <= k < n :: U32(b, at + 4 * k) == xs[k]
  }

  predicate ZeroAt(b: array<byte>, at: nat, end: nat)
    reads b
  {
    end <= b.Length && forall j | at <= j < end :: b[j] == 0
  }

  // ----- The fields as the enclave reads them ---------------------------------------------------------

  /** Lists as long as the loops over them. */
  predicate ListsLongEnough(m: Message) {
    && |Elements(m, 5)| >= PSVN_SIZE && |Elements(m, 6)| >= ISVSVN_SIZE && |Elements(m, 7)| >= PSDA_SVN_SIZE
    && |Elements(m, 8)| >= GID_SIZE && |Elements(m, 9)| >= SAMPLE_NISTP256_KEY_SIZE
    && |Elements(m, 10)| >= SAMPLE_NISTP256_KEY_SIZE && |Elements(m, 11)| >= SAMPLE_MAC_SIZE
    && |Elements(m, 13)| >= RESERVED_SIZE && |Elements(m, 14)| >= SAMPLE_SP_TAG_SIZE
    && |Elements(m, 15)| >= Scalar(m, 12)
  }

  /** The header: type, two status bytes that nothing writes, and the body size. */
  predicate HeaderOk(b: array<byte>, m: Message)
    reads b
  {
    && b.Length >= HEADER_SIZE && b[0] == RA_ATT_RESULT && b[1] == b[2] == 0
    && U32(b, SIZE_AT) == Scalar(m, 1) && b[7] == 0
  }

  predicate PlatformOk(b: array<byte>, m: Message)
    reads b
  {
    && b.Length >= X_AT && b[EPID_AT] == Scalar(m, 2) % 256
    && U16(b, TCB_AT) == Scalar(m, 3) % 65536 && U16(b, PSE_AT) == Scalar(m, 4) % 65536
    && BytesAt(b, PSVN_AT, Elements(m, 5), PSVN_SIZE)
    && BytesAt(b, ISVSVN_AT, Elements(m, 6), ISVSVN_SIZE)
    && BytesAt(b, PSDA_AT, Elements(m, 7), PSDA_SVN_SIZE)
    && BytesAt(b, GID_AT, Elements(m, 8), GID_SIZE)
  }

  predicate SignatureOk(b: array<byte>, m: Message)
    reads b
  {
    && WordsAt(b, X_AT, Elements(m, 9), SAMPLE_NISTP256_KEY_SIZE)
    && WordsAt(b, Y_AT, Elements(m, 10), SAMPLE_NISTP256_KEY_SIZE)
  }

  predicate SecretOk(b: array<byte>, m: Message)
    reads b
  {
    && BytesAt(b, MAC_AT, Elements(m, 11), SAMPLE_MAC_SIZE)
    && PAYLOAD_SIZE_AT + 4 <= b.Length && U32(b, PAYLOAD_SIZE_AT) == Scalar(m, 12)
    && BytesAt(b, RESERVED_AT, Elements(m, 13), RESERVED_SIZE)
    && BytesAt(b, TAG_AT, Elements(m, 14), SAMPLE_SP_TAG_SIZE)
    && BytesAt(b, PAYLOAD_AT, Elements(m, 15), Scalar(m, 12))
  }

  // ----- assembleAttestationMSG ----------------------------------------------------------------------------

  method WriteHeader(buffer: array<byte>, m: Message)
    requires buffer.Length >= HEADER_SIZE && ZeroAt(buffer, 0, buffer.Length)
    modifies buffer
    ensures HeaderOk(buffer, m) && ZeroAt(buffer, HEADER_SIZE, buffer.Length)
  {
    buffer[0] := RA_ATT_RESULT;
    Write32(buffer, SIZE_AT, Scalar(m, 1));
  }

  method WritePlatform(buffer: array<byte>, m: Message)
    requires buffer.Length >= X_AT && ListsLongEnough(m)
    modifies buffer
    ensures PlatformOk(buffer, m) && OnlyAt(buffer, EPID_AT, X_AT)
  {
    buffer[EPID_AT] := Scalar(m, 2) % 256;
    Write16(buffer, TCB_AT, Scalar(m, 3));
    Write16(buffer, PSE_AT, Scalar(m, 4));
    WriteBytes(buffer, PSVN_AT, Elements(m, 5), PSVN_SIZE);
    WriteBytes(buffer, ISVSVN_AT, Elements(m, 6), ISVSVN_SIZE);
    WriteBytes(buffer, PSDA_AT, Elements(m, 7), PSDA_SVN_SIZE);
    WriteBytes(buffer, GID_AT, Elements(m, 8), GID_SIZE);
  }

  /** x and y in one loop. */
  method WriteSignature(buffer: array<byte>, m: Message)
    requires buffer.Length >= MAC_AT && ListsLongEnough(m)
    modifies buffer
    ensures SignatureOk(buffer, m) && OnlyAt(buffer, X_AT, MAC_AT)
  {
    for i := 0 to SAMPLE_NISTP256_KEY_SIZE
      invariant WordsAt(buffer, X_AT, Elements(m, 9), i) && WordsAt(buffer, Y_AT, Elements(m, 10), i)
      invariant OnlyAt(buffer, X_AT, MAC_AT)
    {
      WritePair(buffer, i, Elements(m, 9)[i], Elements(m, 10)[i]);
    }
  }

  method WritePair(buffer: array<byte>, i: nat, x: uint32, y: uint32)
    requires buffer.Length >= MAC_AT && i < SAMPLE_NISTP256_KEY_SIZE
    modifies buffer
    ensures OnlyAt(buffer, X_AT, MAC_AT)
    ensures forall k | 0 <= k < SAMPLE_NISTP256_KEY_SIZE ::
      U32(buffer, X_AT + 4 * k) == if k == i then x else old(U32(buffer, X_AT + 4 * k))
    ensures forall k | 0 <= k < SAMPLE_NISTP256_KEY_SIZE ::
      U32(buffer, Y_AT + 4 * k) == if k == i then y else old(U32(buffer, Y_AT + 4 * k))
  {
    Write32(buffer, X_AT + 4 * i, x);
    Write32(buffer, Y_AT + 4 * i, y);
  }

  method WriteSecret(buffer: array<byte>, m: Message)
    requires buffer.Length >= PAYLOAD_AT + Scalar(m, 12) && ListsLongEnough(m)
    modifies buffer
    ensures SecretOk(buffer, m) && OnlyAt(buffer, MAC_AT, PAYLOAD_AT + Scalar(m, 12))
  {
    WriteBytes(buffer, MAC_AT, Elements(m, 11), SAMPLE_MAC_SIZE);
    Write32(buffer, PAYLOAD_SIZE_AT, Scalar(m, 12));
    WriteBytes(buffer, RESERVED_AT, Elements(m, 13), RESERVED_SIZE);
    WriteBytes(buffer, TAG_AT, Elements(m, 14), SAMPLE_SP_TAG_SIZE);
    WriteBytes(buffer, PAYLOAD_AT, Elements(m, 15), Scalar(m, 12));
  }

  /**
   Every write stays inside the allocation, every field reads back its source value cut to the field's
   width, and the status bytes, like everything behind the payload, are zero.
   */
  method AssembleAttestationMSG(m: Message) returns (buffer: array<byte>)
    requires InBounds(Scalar(m, 1), Scalar(m, 12)) && ListsLongEnough(m)
    ensures fresh(buffer) && buffer.Length == TotalSize(Scalar(m, 1), Scalar(m, 12))
    ensures HeaderOk(buffer, m) && PlatformOk(buffer, m) && SignatureOk(buffer, m) && SecretOk(buffer, m)
    ensures ZeroAt(buffer, PAYLOAD_AT + Scalar(m, 12), buffer.Length)
    ensures !StatusRejects(buffer)
  {
    buffer := new byte[TotalSize(Scalar(m, 1), Scalar(m, 12))](_ => 0);
    WriteHeader(buffer, m);
    label Header:
    WritePlatform(buffer, m);
    HeaderKept@Header(Image(buffer, m));
    label Platform:
    WriteSignature(buffer, m);
    HeaderKept@Platform(Image(buffer, m));
    PlatformKept@Platform(Image(buffer, m));
    label Signature:
    WriteSecret(buffer, m);
    HeaderKept@Signature(Image(buffer, m));
    PlatformKept@Signature(Image(buffer, m));
    SignatureKept@Signature(Image(buffer, m));
  }

  datatype Image = Image(b: array<byte>, m: Message)

  /** Writes behind a part of the buffer leave the part as it is. */
  twostate lemma HeaderKept(s: Image)
    requires old(HeaderOk(s.b, s.m)) && OnlyAt(s.b, HEADER_SIZE, s.b.Length)
    ensures HeaderOk(s.b, s.m)
  {
  }

  twostate lemma PlatformKept(s: Image)
    requires old(PlatformOk(s.b, s.m)) && OnlyAt(s.b, X_AT, s.b.Length)
    ensures PlatformOk(s.b, s.m)
  {
  }

  twostate lemma SignatureKept(s: Image)
    requires old(SignatureOk(s.b, s.m)) && OnlyAt(s.b, MAC_AT, s.b.Length)
    ensures SignatureOk(s.b, s.m)
  {
  }

  // ----- The buffer, byte by byte --------------------------------------------------------------------------

  lemma BytesOf16(b: array<byte>, at: nat, n: nat)
    requires at + 2 <= b.Length && U16(b, at) == n % 65536
    ensures b[at] == n % 256 && b[at + 1] == n / 256 % 256
  {
  }

  lemma BytesOf32(b: array<byte>, at: nat, n: uint32)
    requires at + 4 <= b.Length && U32(b, at) == n
    ensures b[at] == n % 0x100 && b[at + 1] == n / 0x100 % 0x100
    ensures b[at + 2] == n / 0x1_0000 % 0x100 && b[at + 3] == n / 0x100_0000
  {
  }

  /** Type, status and size: the packed header of 8 bytes. */
  lemma HeaderBytes(b: array<byte>, m: Message)
    requires HeaderOk(b, m) && |m| == 16 && m[1].Num?
    ensures b[0] == 4 && b[1] == 0 && b[2] == 0 && b[7] == 0
    ensures
      var size := if m[1].num.Some? then m[1].num.value else 0;
      && b[3] == size % 0x100 && b[4] == size / 0x100 % 0x100
      && b[5] == size / 0x1_0000 % 0x100 && b[6] == size / 0x100_0000
  {
    BytesOf32(b, 3, Scalar(m, 1));
  }

  /** The status fields and the four byte lists of the platform information. */
  lemma PlatformBytes(b: array<byte>, m: Message)
    requires PlatformOk(b, m) && |m| == 16 && m[2].Num? && m[3].Num? && m[4].Num?
    requires m[5].List? && m[6].List? && m[7].List? && m[8].List?
    ensures b[8] == (if m[2].num.Some? then m[2].num.value else 0) % 256
    ensures
      var tcb := if m[3].num.Some? then m[3].num.value else 0;
      b[9] == tcb % 256 && b[10] == tcb / 256 % 256
    ensures
      var pse := if m[4].num.Some? then m[4].num.value else 0;
      b[11] == pse % 256 && b[12] == pse / 256 % 256
    ensures |m[5].xs| >= 18 && forall k | 0 <= k < 18 :: b[13 + k] == m[5].xs[k] % 256
    ensures |m[6].xs| >= 2 && b[31] == m[6].xs[0] % 256 && b[32] == m[6].xs[1] % 256
    ensures |m[7].xs| >= 4 && forall k | 0 <= k < 4 :: b[33 + k] == m[7].xs[k] % 256
    ensures |m[8].xs| >= 4 && forall k | 0 <= k < 4 :: b[37 + k] == m[8].xs[k] % 256
  {
    BytesOf16(b, 9, Scalar(m, 3));
    BytesOf16(b, 11, Scalar(m, 4));
  }

  /** Eight little-endian words each of x and of y. */
  lemma SignatureBytes(b: array<byte>, m: Message, k: nat)
    requires SignatureOk(b, m) && |m| == 16 && m[9].List? && m[10].List? && k < 8
    ensures |m[9].xs| >= 8 && |m[10].xs| >= 8 && b.Length >= 105
    ensures b[41 + 4 * k] == m[9].xs[k] % 0x100 && b[41 + 4 * k + 1] == m[9].xs[k] / 0x100 % 0x100
    ensures b[41 + 4 * k + 2] == m[9].xs[k] / 0x1_0000 % 0x100 && b[41 + 4 * k + 3] == m[9].xs[k] / 0x100_0000
    ensures b[73 + 4 * k] == m[10].xs[k] % 0x100 && b[73 + 4 * k + 1] == m[10].xs[k] / 0x100 % 0x100
    ensures b[73 + 4 * k + 2] == m[10].xs[k] / 0x1_0000 % 0x100 && b[73 + 4 * k + 3] == m[10].xs[k] / 0x100_0000
  {
    BytesOf32(b, 41 + 4 * k, m[9].xs[k]);
    BytesOf32(b, 73 + 4 * k, m[10].xs[k]);
  }

  /** The MAC and the encrypted payload behind it. */
  lemma SecretBytes(b: array<byte>, m: Message)
    requires SecretOk(b, m) && |m| == 16 && m[11].List? && m[12].Num? && m[13].List? && m[14].List? && m[15].List?
    ensures |m[11].xs| >= 16 && b.Length >= 153 && forall k | 0 <= k < 16 :: b[105 + k] == m[11].xs[k] % 256
    ensures
      var n := if m[12].num.Some? then m[12].num.value else 0;
      && b[121] == n % 0x100 && b[122] == n / 0x100 % 0x100
      && b[123] == n / 0x1_0000 % 0x100 && b[124] == n / 0x100_0000
      && n <= |m[15].xs| && 153 + n <= b.Length && forall k | 0 <= k < n :: b[153 + k] == m[15].xs[k] % 256
    ensures |m[13].xs| >= 12 && forall k | 0 <= k < 12 :: b[125 + k] == m[13].xs[k] % 256
    ensures |m[14].xs| >= 16 && forall k | 0 <= k < 16 :: b[137 + k] == m[14].xs[k] % 256
  {
    BytesOf32(b, 121, Scalar(m, 12));
  }

  /** The test of the status bytes in handleAttestationResult. */
  predicate StatusRejects(b: array<byte>)
    requires b.Length >= 3
    reads b
  {
    b[1] != 0 || b[2] != 0
  }
}
