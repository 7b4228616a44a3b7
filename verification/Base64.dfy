/**
 The streaming base64 encoder and decoder against the block form of section 4 of RFC 4648. Bytes
 and characters are 8-bit vectors, so every stored sum and shift is cut to 8 bits as in the source.
 */
module Base64 {
  import opened Sequences

  const PAD: bv8 := 61

  /** The alphabet A-Z a-z 0-9 + / at position v. */
  function Letter(v: bv8): bv8
    requires v < 64
  {
    if v < 26 then v + 65
    else if v < 52 then v + 71
    else if v < 62 then v - 4
    else if v == 62 then 43
    else 47
  }

  /** The character codes of the alphabet, one line of it at a time. */
  lemma Lines(k: nat)
    ensures k < 26 ==> "ABCDEFGHIJKLMNOPQRSTUVWXYZ"[k] as int == k + 65
    ensures k < 26 ==> "abcdefghijklmnopqrstuvwxyz"[k] as int == k + 97
    ensures k < 12 ==> "0123456789+/"[k] as int == if k < 10 then k + 48 else if k == 10 then 43 else 47
  {
  }

  lemma LetterCode(v: bv8)
    requires v < 64
    ensures
      var k := v as int;
      k < 64
      && Letter(v) as int
         == if k < 26 then k + 65 else if k < 52 then k + 71 else if k < 62 then k - 4 else if k == 62 then 43 else 47
  {
  }

  /** The alphabet is the text of section 4 of RFC 4648. */
  lemma Alphabet(v: bv8)
    requires v < 64
    ensures v as int < 64
    ensures
      Letter(v) as int
      == ("ABCDEFGHIJKLMNOPQRSTUVWXYZ" + "abcdefghijklmnopqrstuvwxyz" + "0123456789+/")[v as int] as int
  {
    LetterCode(v);
    AlphabetAt(v as int);
  }

  lemma AlphabetAt(k: nat)
    requires k < 64
    ensures
      ("ABCDEFGHIJKLMNOPQRSTUVWXYZ" + "abcdefghijklmnopqrstuvwxyz" + "0123456789+/")[k] as int
      == if k < 26 then k + 65 else if k < 52 then k + 71 else if k < 62 then k - 4 else if k == 62 then 43 else 47
  {
    if k < 26 {
      Lines(k);
    } else if k < 52 {
      Lines(k - 26);
    } else {
      Lines(k - 52);
    }
  }

  predicate IsBase64(c: bv8) {
    65 <= c <= 90 || 97 <= c <= 122 || 48 <= c <= 57 || c == 43 || c == 47
  }

  /** The position of c in the alphabet as an unsigned char: an absent character's becomes 255. */
  function Find(c: bv8): bv8 {
    if 65 <= c <= 90 then c - 65
    else if 97 <= c <= 122 then c - 71
    else if 48 <= c <= 57 then c + 4
    else if c == 43 then 62
    else if c == 47 then 63
    else 255
  }

  lemma FindOfLetter(v: bv8)
    requires v < 64
    ensures IsBase64(Letter(v)) && Letter(v) != PAD && Find(Letter(v)) == v
  {
  }

  lemma LetterOfFind(c: bv8)
    requires IsBase64(c)
    ensures Find(c) < 64 && Letter(Find(c)) == c && c != PAD
  {
  }

  // ----- Section 4 of RFC 4648: 24-bit groups as four 6-bit characters ------------------------------

  function Joined(a: bv8, b: bv8, c: bv8): bv24 {
    ((a as bv24) << 16) | ((b as bv24) << 8) | (c as bv24)
  }

  function Sextet(g: bv24, k: nat): (v: bv8)
    requires k < 4
    ensures v < 64
  {
    var shifted := if k == 0 then g >> 18 else if k == 1 then g >> 12 else if k == 2 then g >> 6 else g;
    assert shifted & 63 < 64;
    (shifted & 63) as bv8
  }

  /** The first n characters of a group. */
  function Letters(g: bv24, n: nat): (s: seq<bv8>)
    requires n <= 4
    ensures |s| == n
  {
    if n == 0 then [] else Letters(g, n - 1) + [Letter(Sextet(g, n - 1))]
  }

  lemma {:induction false} LettersAre(g: bv24, n: nat)
    requires n <= 4
    ensures forall k | 0 <= k < n :: Letters(g, n)[k] == Letter(Sextet(g, k))
  {
    if n > 0 {
      LettersAre(g, n - 1);
    }
  }

  function Encoded(b: seq<bv8>): seq<bv8> {
    if |b| == 0 then []
    else if |b| == 1 then Letters(Joined(b[0], 0, 0), 2) + [PAD, PAD]
    else if |b| == 2 then Letters(Joined(b[0], b[1], 0), 3) + [PAD]
    else Letters(Joined(b[0], b[1], b[2]), 4) + Encoded(b[3..])
  }

  function Sextets(a: bv8, b: bv8, c: bv8, d: bv8): bv24 {
    ((a as bv24) << 18) | ((b as bv24) << 12) | ((c as bv24) << 6) | (d as bv24)
  }

  function Octet(g: bv24, k: nat): bv8
    requires k < 3
  {
    var shifted := if k == 0 then g >> 16 else if k == 1 then g >> 8 else g;
    (shifted & 255) as bv8
  }

  /** Alphabet characters by fours; of a shorter last group the complete bytes. */
  function Decoded(p: seq<bv8>): seq<bv8> {
    if |p| <= 1 then []
    else if |p| == 2 then Octets(Sextets(Find(p[0]), Find(p[1]), 0, 0), 1)
    else if |p| == 3 then Octets(Sextets(Find(p[0]), Find(p[1]), Find(p[2]), 0), 2)
    else Octets(Sextets(Find(p[0]), Find(p[1]), Find(p[2]), Find(p[3])), 3) + Decoded(p[4..])
  }

  /** The first n bytes of a group. */
  function Octets(g: bv24, n: nat): (s: seq<bv8>)
    requires n <= 3
    ensures |s| == n
  {
    if n == 0 then [] else Octets(g, n - 1) + [Octet(g, n - 1)]
  }

  lemma {:induction false} OctetsAre(g: bv24, n: nat)
    requires n <= 3
    ensures forall k | 0 <= k < n :: Octets(g, n)[k] == Octet(g, k)
  {
    if n > 0 {
      OctetsAre(g, n - 1);
    }
  }

  /** The longest prefix of alphabet characters. */
  function Body(s: seq<bv8>): (p: seq<bv8>)
    ensures |p| <= |s|
  {
    if s == [] || !IsBase64(s[0]) then [] else [s[0]] + Body(s[1..])
  }

  predicate AllLetters(p: seq<bv8>) {
    forall k | 0 <= k < |p| :: IsBase64(p[k])
  }

  lemma {:induction false} BodySpec(s: seq<bv8>)
    ensures Body(s) == s[..|Body(s)|] && AllLetters(Body(s)) && (|Body(s)| < |s| ==> !IsBase64(s[|Body(s)|]))
  {
    if s != [] && IsBase64(s[0]) {
      BodySpec(s[1..]);
    }
  }

  // ----- Lengths and concatenation ---------------------------------------------------------------------

  lemma {:induction false} EncodedLength(b: seq<bv8>)
    ensures |Encoded(b)| == 4 * ((|b| + 2) / 3)
    ensures forall k | 0 <= k < |Encoded(b)| :: Encoded(b)[k] == 61 <==> k >= |Encoded(b)| - (3 - |b| % 3) % 3
  {
    if |b| >= 3 {
      EncodedLength(b[3..]);
      LettersAre(Joined(b[0], b[1], b[2]), 4);
    } else if |b| > 0 {
      LettersAre(Joined(b[0], if |b| == 2 then b[1] else 0, 0), |b| + 1);
    }
    forall v: bv8 | v < 64 ensures Letter(v) != PAD {
      FindOfLetter(v);
    }
  }

  /** The text of one, two and three bytes, bit by bit. */
  lemma GroupText(a: bv8, b: bv8, c: bv8)
    ensures a >> 2 < 64 && ((a & 3) << 4) | (b >> 4) < 64 && ((b & 15) << 2) | (c >> 6) < 64 && c & 63 < 64
    ensures (a & 3) << 4 < 64 && (b & 15) << 2 < 64
    ensures Encoded([a]) == [Letter(a >> 2), Letter((a & 3) << 4), 61, 61]
    ensures Encoded([a, b]) == [Letter(a >> 2), Letter(((a & 3) << 4) | (b >> 4)), Letter((b & 15) << 2), 61]
    ensures
      Encoded([a, b, c])
      == [Letter(a >> 2), Letter(((a & 3) << 4) | (b >> 4)), Letter(((b & 15) << 2) | (c >> 6)), Letter(c & 63)]
  {
    SextetBits(a, 0, 0);
    SextetBits(a, b, 0);
    SextetBits(a, b, c);
    LettersAre(Joined(a, 0, 0), 2);
    LettersAre(Joined(a, b, 0), 3);
    LettersAre(Joined(a, b, c), 4);
    assert [a, b, c][3..] == [];
  }

  lemma SextetBits(a: bv8, b: bv8, c: bv8)
    ensures Sextet(Joined(a, b, c), 0) == a >> 2 && Sextet(Joined(a, b, c), 1) == ((a & 3) << 4) | (b >> 4)
    ensures Sextet(Joined(a, b, c), 2) == ((b & 15) << 2) | (c >> 6) && Sextet(Joined(a, b, c), 3) == c & 63
    ensures (a & 3) << 4 == ((a & 3) << 4) | (0 >> 4) && (b & 15) << 2 == ((b & 15) << 2) | (0 >> 6)
  {
  }

  /** "A" is QQ==, "AB" is QUI= and "ABC" is QUJD. */
  lemma ShortTexts()
    ensures Encoded([65]) == [81, 81, 61, 61]
    ensures Encoded([65, 66]) == [81, 85, 73, 61]
    ensures Encoded([65, 66, 67]) == [81, 85, 74, 68]
  {
    GroupText(65, 66, 67);
  }

  /** The bytes of a last group of two and of three characters; its unused bits do not count. */
  lemma GroupBytes(a: bv8, b: bv8, c: bv8, d: bv8)
    requires a < 64 && b < 64 && c < 64 && d < 64
    ensures Decoded([Letter(a), Letter(b)]) == [(a << 2) | (b >> 4)]
    ensures Decoded([Letter(a), Letter(b), Letter(c)]) == [(a << 2) | (b >> 4), (b << 4) | (c >> 2)]
    ensures
      Decoded([Letter(a), Letter(b), Letter(c), Letter(d)])
      == [(a << 2) | (b >> 4), (b << 4) | (c >> 2), (c << 6) | d]
  {
    FindOfLetter(a);
    FindOfLetter(b);
    FindOfLetter(c);
    FindOfLetter(d);
    OctetBits(a, b, 0, 0);
    OctetBits(a, b, c, 0);
    OctetBits(a, b, c, d);
    OctetsAre(Sextets(a, b, 0, 0), 1);
    OctetsAre(Sextets(a, b, c, 0), 2);
    OctetsAre(Sextets(a, b, c, d), 3);
    assert [Letter(a), Letter(b), Letter(c), Letter(d)][4..] == [];
  }

  lemma OctetBits(a: bv8, b: bv8, c: bv8, d: bv8)
    requires a < 64 && b < 64 && c < 64 && d < 64
    ensures Octet(Sextets(a, b, c, d), 0) == (a << 2) | (b >> 4)
    ensures Octet(Sextets(a, b, c, d), 1) == (b << 4) | (c >> 2)
    ensures Octet(Sextets(a, b, c, d), 2) == (c << 6) | d
  {
  }

  /** Groups encode on their own: the encoding splits at every multiple of 3 bytes. */
  lemma {:induction false} EncodedConcat(a: seq<bv8>, b: seq<bv8>)
    requires |a| % 3 == 0
    ensures Encoded(a + b) == Encoded(a) + Encoded(b)
  {
    if a == [] {
      assert a + b == b;
    } else {
      EncodedConcat(a[3..], b);
      assert (a + b)[3..] == a[3..] + b && (a + b)[0] == a[0] && (a + b)[1] == a[1] && (a + b)[2] == a[2];
      ConcatAssociative(Letters(Joined(a[0], a[1], a[2]), 4), Encoded(a[3..]), Encoded(b));
    }
  }

  lemma {:induction false} DecodedLength(p: seq<bv8>)
    ensures |Decoded(p)| == 3 * |p| / 4
  {
    if |p| >= 4 {
      DecodedLength(p[4..]);
    }
  }

  lemma {:induction false} DecodedConcat(a: seq<bv8>, b: seq<bv8>)
    requires |a| % 4 == 0
    ensures Decoded(a + b) == Decoded(a) + Decoded(b)
  {
    if a == [] {
      assert a + b == b;
    } else {
      DecodedConcat(a[4..], b);
      assert (a + b)[4..] == a[4..] + b && (a + b)[0] == a[0] && (a + b)[1] == a[1];
      assert (a + b)[2] == a[2] && (a + b)[3] == a[3];
      ConcatAssociative(
        Octets(Sextets(Find(a[0]), Find(a[1]), Find(a[2]), Find(a[3])), 3), Decoded(a[4..]), Decoded(b));
    }
  }

  // ----- One group ------------------------------------------------------------------------------------

  lemma SplitGroup(a: bv8, b: bv8, c: bv8)
    ensures (a & 0xfc) >> 2 == Sextet(Joined(a, b, c), 0)
    ensures ((a & 0x03) << 4) + ((b & 0xf0) >> 4) == Sextet(Joined(a, b, c), 1)
    ensures ((b & 0x0f) << 2) + ((c & 0xc0) >> 6) == Sextet(Joined(a, b, c), 2)
    ensures c & 0x3f == Sextet(Joined(a, b, c), 3)
  {
  }

  /** The decoder's sums, each of the two characters it comes from. */
  lemma FirstOctet(a: bv8, b: bv8, c: bv8, d: bv8)
    requires a < 64 && b < 64 && c < 64 && d < 64
    ensures (a << 2) + ((b & 0x30) >> 4) == Octet(Sextets(a, b, c, d), 0)
  {
  }

  lemma SecondOctet(a: bv8, b: bv8, c: bv8, d: bv8)
    requires a < 64 && b < 64 && c < 64 && d < 64
    ensures ((b & 0x0f) << 4) + ((c & 0x3c) >> 2) == Octet(Sextets(a, b, c, d), 1)
  {
  }

  lemma ThirdOctet(a: bv8, b: bv8, c: bv8, d: bv8)
    requires a < 64 && b < 64 && c < 64 && d < 64
    ensures ((c & 0x03) << 6) + d == Octet(Sextets(a, b, c, d), 2)
  {
  }

  /** Joining what was split, and splitting what was joined. */
  lemma SplitJoined(g: bv24)
    ensures Sextets(Sextet(g, 0), Sextet(g, 1), Sextet(g, 2), Sextet(g, 3)) == g
    ensures Joined(Octet(g, 0), Octet(g, 1), Octet(g, 2)) == g
  {
  }

  lemma OctetsOfJoined(a: bv8, b: bv8, c: bv8)
    ensures Octet(Joined(a, b, c), 0) == a && Octet(Joined(a, b, c), 1) == b && Octet(Joined(a, b, c), 2) == c
  {
  }

  lemma SextetsOfJoined(a: bv8, b: bv8, c: bv8, d: bv8)
    requires a < 64 && b < 64 && c < 64 && d < 64
    ensures Sextet(Sextets(a, b, c, d), 0) == a && Sextet(Sextets(a, b, c, d), 1) == b
    ensures Sextet(Sextets(a, b, c, d), 2) == c && Sextet(Sextets(a, b, c, d), 3) == d
  {
  }

  /** In a full group no sum passes 8 bits, so nothing is cut off. */
  lemma NoOverflow(a: bv8, b: bv8, c: bv8, d: bv8)
    requires a < 64 && b < 64 && c < 64 && d < 64
    ensures ((a as bv16) << 2) + (((b as bv16) & 0x30) >> 4) < 256
    ensures (((b as bv16) & 0x0f) << 4) + (((c as bv16) & 0x3c) >> 2) < 256
    ensures (((c as bv16) & 0x03) << 6) + (d as bv16) < 256
  {
  }

  // ----- The encoder ------------------------------------------------------------------------------------

  method Encode(bytes: seq<bv8>) returns (ret: seq<bv8>)
    ensures ret == Encoded(bytes)
  {
    ret := [];
    var three, four := new bv8[3], new bv8[4];
    var i, at := 0, 0;
    ghost var start := 0;
    while at < |bytes|
      invariant i < 3 && start + i == at <= |bytes| && start % 3 == 0
      invariant forall k | 0 <= k < i :: three[k] == bytes[start + k]
      invariant ret == Encoded(bytes[..start])
    {
      three[i] := bytes[at];
      i, at := i + 1, at + 1;
      if i == 3 {
        EncodedBlock(bytes, start);
        var letters := EncodeGroup(three, four, 4);
        ret := ret + letters;
        i := 0;
        start := at;
      }
    }
    EncodedSplit(bytes, start);
    if i > 0 {
      assert three[..i] == bytes[start..];
      var tail := EncodeTail(three, four, i);
      ret := ret + tail;
    }
  }

  lemma {:induction false} EncodedSplit(b: seq<bv8>, n: nat)
    requires n <= |b| && n % 3 == 0
    ensures Encoded(b) == Encoded(b[..n]) + Encoded(b[n..])
  {
    var x, y := b[..n], b[n..];
    EncodedConcat(x, y);
    assert x + y == b;
  }

  method EncodeGroup(three: array<bv8>, four: array<bv8>, n: nat) returns (letters: seq<bv8>)
    requires three.Length == 3 && four.Length == 4 && three != four && n <= 4
    modifies four
    ensures letters == Letters(Joined(three[0], three[1], three[2]), n)
  {
    Split(three, four);
    letters := Spell(four, Joined(three[0], three[1], three[2]), n);
  }

  /** The four shifts and masks. */
  method Split(three: array<bv8>, four: array<bv8>)
    requires three.Length == 3 && four.Length == 4 && three != four
    modifies four
    ensures forall k | 0 <= k < 4 :: four[k] == Sextet(Joined(three[0], three[1], three[2]), k)
  {
    SplitGroup(three[0], three[1], three[2]);
    four[0] := (three[0] & 0xfc) >> 2;
    four[1] := ((three[0] & 0x03) << 4) + ((three[1] & 0xf0) >> 4);
    four[2] := ((three[1] & 0x0f) << 2) + ((three[2] & 0xc0) >> 6);
    four[3] := three[2] & 0x3f;
  }

  method Spell(four: array<bv8>, ghost g: bv24, n: nat) returns (letters: seq<bv8>)
    requires four.Length == 4 && n <= 4 && forall k | 0 <= k < 4 :: four[k] == Sextet(g, k)
    ensures letters == Letters(g, n)
  {
    letters := [];
    for j := 0 to n
      invariant letters == Letters(g, j)
    {
      letters := letters + [Letter(four[j])];
    }
  }

  method EncodeTail(three: array<bv8>, four: array<bv8>, i: nat) returns (tail: seq<bv8>)
    requires three.Length == 3 && four.Length == 4 && three != four && 1 <= i <= 2
    modifies three, four
    ensures tail == Encoded(old(three[..i]))
  {
    for j := i to 3
      invariant forall k | 0 <= k < i :: three[k] == old(three[k])
      invariant forall k | i <= k < j :: three[k] == 0
    {
      three[j] := 0;
    }
    tail := EncodeGroup(three, four, i + 1);
    ghost var letters := tail;
    var k := i;
    while k < 3
      invariant i <= k <= 3 && tail == letters + (if k == i then [] else if k == i + 1 then [PAD] else [PAD, PAD])
    {
      tail := tail + [PAD];
      k := k + 1;
    }
  }

  lemma {:induction false} EncodedBlock(b: seq<bv8>, n: nat)
    requires n % 3 == 0 && n + 3 <= |b|
    ensures Encoded(b[..n + 3]) == Encoded(b[..n]) + Letters(Joined(b[n], b[n + 1], b[n + 2]), 4)
  {
    var group := [b[n], b[n + 1], b[n + 2]];
    assert b[..n + 3] == b[..n] + group;
    EncodedConcat(b[..n], group);
    assert Encoded(group) == Letters(Joined(b[n], b[n + 1], b[n + 2]), 4) + Encoded(group[3..]);
  }

  // ----- The decoder ------------------------------------------------------------------------------------

  /** Stops at the first character outside the alphabet; what follows it does not count. */
  method Decode(s: seq<bv8>) returns (ret: seq<bv8>)
    ensures ret == Decoded(Body(s))
  {
    ghost var p := Body(s);
    BodySpec(s);
    ret := [];
    var four, three := new bv8[4], new bv8[3];
    var i, at := 0, 0;
    var more := Continues(s, at);
    ghost var blocks := 0;
    while more
      invariant i < 4 && 4 * blocks + i == at <= |p| && more == (at < |p|)
      invariant forall k | 0 <= k < i :: four[k] == p[4 * blocks + k]
      invariant ret == Decoded(p[..4 * blocks])
      decreases |p| - at
    {
      assert s[at] == p[at];
      var octets;
      i, octets := Accept(p, blocks, s[at], four, three, i);
      at := at + 1;
      ret := ret + octets;
      if i == 0 {
        blocks := blocks + 1;
      }
      more := Continues(s, at);
    }
    var tail := DecodeRest(p, blocks, four, three, i);
    ret := ret + tail;
  }

  /** What is left in the accumulator at the end. */
  method DecodeRest(ghost p: seq<bv8>, ghost blocks: nat, four: array<bv8>, three: array<bv8>, i: nat)
    returns (tail: seq<bv8>)
    requires i < 4 && 4 * blocks + i == |p| && AllLetters(p)
    requires four.Length == 4 && three.Length == 3 && four != three
    requires forall k | 0 <= k < i :: four[k] == p[4 * blocks + k]
    modifies four, three
    ensures Decoded(p) == Decoded(p[..4 * blocks]) + tail
  {
    DecodedSplit(p, 4 * blocks);
    tail := [];
    if i > 0 {
      LastLetters(p, i);
      tail := DecodeTail(p[4 * blocks..], four, three, i);
    }
  }

  /** One character into the accumulator, which is decoded and emptied when full. */
  method Accept(ghost p: seq<bv8>, ghost blocks: nat, c: bv8, four: array<bv8>, three: array<bv8>, i: nat)
    returns (next: nat, octets: seq<bv8>)
    requires i < 4 && 4 * blocks + i < |p| && AllLetters(p) && c == p[4 * blocks + i]
    requires four.Length == 4 && three.Length == 3 && four != three
    requires forall k | 0 <= k < i :: four[k] == p[4 * blocks + k]
    modifies four, three
    ensures next == (if i == 3 then 0 else i + 1) && forall k | 0 <= k < next :: four[k] == p[4 * blocks + k]
    ensures if i == 3 then Decoded(p[..4 * (blocks + 1)]) == Decoded(p[..4 * blocks]) + octets else octets == []
  {
    four[i] := c;
    next, octets := i + 1, [];
    if next == 4 {
      octets := DecodeNext(p, 4 * blocks, four, three);
      next := 0;
    }
  }

  /** The loop's condition: more input, not '=', and in the alphabet. */
  method Continues(s: seq<bv8>, at: nat) returns (more: bool)
    requires at <= |Body(s)|
    ensures more == (at < |Body(s)|)
  {
    BodySpec(s);
    assert at < |Body(s)| ==> s[at] == Body(s)[at];
    more := at < |s| && s[at] != PAD && IsBase64(s[at]);
  }

  lemma {:induction false} DecodedSplit(p: seq<bv8>, n: nat)
    requires n <= |p| && n % 4 == 0
    ensures Decoded(p) == Decoded(p[..n]) + Decoded(p[n..])
    ensures n == |p| ==> Decoded(p) == Decoded(p[..n])
  {
    var x, y := p[..n], p[n..];
    DecodedConcat(x, y);
    assert x + y == p;
  }

  lemma LastLetters(p: seq<bv8>, i: nat)
    requires i <= |p| && AllLetters(p)
    ensures AllLetters(p[|p| - i..])
  {
    var t := p[|p| - i..];
    forall k | 0 <= k < i ensures IsBase64(t[k]) {
      assert t[k] == p[|p| - i + k];
    }
  }

  /** The group that starts at position `at`. */
  method DecodeNext(ghost p: seq<bv8>, ghost at: nat, four: array<bv8>, three: array<bv8>) returns (octets: seq<bv8>)
    requires at + 4 <= |p| && at % 4 == 0 && AllLetters(p)
    requires four.Length == 4 && three.Length == 3 && four != three
    requires forall k | 0 <= k < 4 :: four[k] == p[at + k]
    modifies four, three
    ensures Decoded(p[..at + 4]) == Decoded(p[..at]) + octets
  {
    assert AllLetters(four[..]) by {
      forall k | 0 <= k < 4 ensures IsBase64(four[..][k]) {
        assert four[..][k] == p[at + k];
      }
    }
    DecodedBlock(p, at);
    octets := DecodeGroup(four, three);
  }

  method DecodeGroup(four: array<bv8>, three: array<bv8>) returns (octets: seq<bv8>)
    requires four.Length == 4 && three.Length == 3 && four != three
    requires AllLetters(four[..])
    modifies four, three
    ensures octets == old(Octets(Sextets(Find(four[0]), Find(four[1]), Find(four[2]), Find(four[3])), 3))
  {
    LetterGroup(four[..]);
    Lookup(four);
    Join(four, three);
    var a, b, c, d := four[0], four[1], four[2], four[3];
    FirstOctet(a, b, c, d);
    SecondOctet(a, b, c, d);
    ThirdOctet(a, b, c, d);
    octets := Take(three, Sextets(a, b, c, d), 3);
  }

  /** char_array_4[i] = base64_chars.find(char_array_4[i]), cut to 8 bits. */
  method Lookup(four: array<bv8>)
    requires four.Length == 4
    modifies four
    ensures forall k | 0 <= k < 4 :: four[k] == Find(old(four[k]))
  {
    for j := 0 to 4
      invariant forall k | 0 <= k < 4 :: four[k] == if k < j then Find(old(four[k])) else old(four[k])
    {
      four[j] := Find(four[j]);
    }
  }

  method Join(four: array<bv8>, three: array<bv8>)
    requires four.Length == 4 && three.Length == 3 && four != three
    modifies three
    ensures three[0] == (four[0] << 2) + ((four[1] & 0x30) >> 4)
    ensures three[1] == ((four[1] & 0x0f) << 4) + ((four[2] & 0x3c) >> 2)
    ensures three[2] == ((four[2] & 0x03) << 6) + four[3]
  {
    three[0] := (four[0] << 2) + ((four[1] & 0x30) >> 4);
    three[1] := ((four[1] & 0x0f) << 4) + ((four[2] & 0x3c) >> 2);
    three[2] := ((four[2] & 0x03) << 6) + four[3];
  }

  method Take(three: array<bv8>, ghost g: bv24, n: nat) returns (octets: seq<bv8>)
    requires three.Length == 3 && n <= 3 && forall k | 0 <= k < n :: three[k] == Octet(g, k)
    ensures octets == Octets(g, n)
  {
    octets := [];
    for j := 0 to n
      invariant octets == Octets(g, j)
    {
      octets := octets + [three[j]];
    }
  }

  /** The filler find('\0') is 255 after the cut; no emitted byte depends on it. */
  method DecodeTail(ghost p: seq<bv8>, four: array<bv8>, three: array<bv8>, i: nat) returns (tail: seq<bv8>)
    requires four.Length == 4 && three.Length == 3 && four != three && 1 <= i <= 3
    requires |p| == i && AllLetters(p) && forall k | 0 <= k < i :: four[k] == p[k]
    modifies four, three
    ensures tail == Decoded(p)
  {
    for j := i to 4
      invariant forall k | 0 <= k < i :: four[k] == p[k]
      invariant forall k | i <= k < j :: four[k] == 0
    {
      four[j] := 0;
    }
    Lookup(four);
    LettersFound(p);
    tail := JoinTail(four, three, i);
  }

  lemma LettersFound(p: seq<bv8>)
    requires AllLetters(p)
    ensures forall k | 0 <= k < |p| :: Find(p[k]) < 64
  {
    forall k | 0 <= k < |p| ensures Find(p[k]) < 64 {
      LetterOfFind(p[k]);
    }
  }

  method JoinTail(four: array<bv8>, three: array<bv8>, i: nat) returns (tail: seq<bv8>)
    requires four.Length == 4 && three.Length == 3 && four != three && 1 <= i <= 3
    requires forall k | 0 <= k < i :: four[k] < 64
    modifies three
    ensures tail == Octets(Sextets(four[0], if i >= 2 then four[1] else 0, if i == 3 then four[2] else 0, 0), i - 1)
  {
    Join(four, three);
    ghost var a, b, c := four[0], if i >= 2 then four[1] else 0, if i == 3 then four[2] else 0;
    ShortTail(i, a, b, c, four[2], three[0], three[1]);
    tail := Take(three, Sextets(a, b, c, 0), i - 1);
  }

  lemma ShortTail(n: nat, a: bv8, b: bv8, c: bv8, third: bv8, first: bv8, second: bv8)
    requires 1 <= n <= 3 && a < 64 && b < 64 && c < 64 && (n == 3 ==> third == c)
    requires n >= 2 ==> first == (a << 2) + ((b & 0x30) >> 4) && second == ((b & 0x0f) << 4) + ((third & 0x3c) >> 2)
    ensures n >= 2 ==> first == Octet(Sextets(a, b, c, 0), 0)
    ensures n == 3 ==> second == Octet(Sextets(a, b, c, 0), 1)
  {
    FirstOctet(a, b, c, 0);
    SecondOctet(a, b, c, 0);
  }

  lemma LetterGroup(p: seq<bv8>)
    requires |p| == 4 && AllLetters(p)
    ensures Find(p[0]) < 64 && Find(p[1]) < 64 && Find(p[2]) < 64 && Find(p[3]) < 64
  {
    LetterOfFind(p[0]);
    LetterOfFind(p[1]);
    LetterOfFind(p[2]);
    LetterOfFind(p[3]);
  }

  lemma {:induction false} DecodedBlock(s: seq<bv8>, n: nat)
    requires n % 4 == 0 && n + 4 <= |s|
    ensures
      Decoded(s[..n + 4])
      == Decoded(s[..n]) + Octets(Sextets(Find(s[n]), Find(s[n + 1]), Find(s[n + 2]), Find(s[n + 3])), 3)
  {
    var group := [s[n], s[n + 1], s[n + 2], s[n + 3]];
    assert s[..n + 4] == s[..n] + group;
    DecodedConcat(s[..n], group);
    var g := Sextets(Find(s[n]), Find(s[n + 1]), Find(s[n + 2]), Find(s[n + 3]));
    assert Decoded(group) == Octets(g, 3) + Decoded(group[4..]);
  }

  lemma {:induction false} BodyIs(s: seq<bv8>, n: nat)
    requires n <= |s| && (forall k | 0 <= k < n :: IsBase64(s[k])) && (n < |s| ==> !IsBase64(s[n]))
    ensures Body(s) == s[..n]
  {
    if n > 0 {
      BodyIs(s[1..], n - 1);
    }
  }

  // ----- Round trips ------------------------------------------------------------------------------------

  /** Decoding what was encoded gives every byte sequence back. */
  lemma {:induction false} RoundTrip(b: seq<bv8>)
    ensures Decoded(Body(Encoded(b))) == b
  {
    if |b| == 0 {
    } else if |b| < 3 {
      var c := if |b| == 1 then 0 else b[1];
      var g := Joined(b[0], c, 0);
      LettersAre(g, |b| + 1);
      OctetsAre(g, |b|);
      OctetsOfJoined(b[0], c, 0);
      ShortGroup(b[0], c);
      SplitJoined(g);
      forall k | 0 <= k < 4 ensures IsBase64(Letter(Sextet(g, k))) && Find(Letter(Sextet(g, k))) == Sextet(g, k) {
        FindOfLetter(Sextet(g, k));
      }
      BodyIs(Encoded(b), |b| + 1);
      assert Octets(g, |b|) == b;
    } else {
      var g := Joined(b[0], b[1], b[2]);
      OctetsAre(g, 3);
      OctetsOfJoined(b[0], b[1], b[2]);
      SplitJoined(g);
      RoundTrip(b[3..]);
      BodyOfLetters(g, Encoded(b[3..]));
      DecodedConcat(Letters(g, 4), Body(Encoded(b[3..])));
      DecodedLetters(g);
      assert Octets(g, 3) + b[3..] == b;
    }
  }

  /** One or two bytes leave the unused bits of their last character zero. */
  lemma ShortGroup(a: bv8, b: bv8)
    ensures Sextet(Joined(a, 0, 0), 2) == 0 && Sextet(Joined(a, 0, 0), 3) == 0 && Sextet(Joined(a, b, 0), 3) == 0
  {
  }

  lemma DecodedLetters(g: bv24)
    ensures Decoded(Letters(g, 4)) == Octets(g, 3)
  {
    var p := Letters(g, 4);
    LettersAre(g, 4);
    forall k | 0 <= k < 4 ensures Find(p[k]) == Sextet(g, k) {
      FindOfLetter(Sextet(g, k));
    }
    SplitJoined(g);
    assert p[4..] == [];
  }

  lemma {:induction false} BodyOfLetters(g: bv24, s: seq<bv8>)
    ensures Body(Letters(g, 4) + s) == Letters(g, 4) + Body(s)
  {
    BodySpec(s);
    LettersAre(g, 4);
    var p, t := Letters(g, 4), Letters(g, 4) + s;
    var n := 4 + |Body(s)|;
    forall k | 0 <= k < n ensures IsBase64(t[k]) {
      if k < 4 {
        FindOfLetter(Sextet(g, k));
      } else {
        assert t[k] == s[k - 4] == Body(s)[k - 4];
      }
    }
    BodyIs(t, n);
    assert t[..n] == p + s[..n - 4];
  }

  // ----- Canonical text ----------------------------------------------------------------------------------

  predicate FourLetters(s: seq<bv8>) {
    |s| >= 4 && IsBase64(s[0]) && IsBase64(s[1]) && IsBase64(s[2]) && IsBase64(s[3])
  }

  /** A last group of four with one or two '=' and zeros in the unused bits. */
  predicate Padded(s: seq<bv8>) {
    && |s| == 4 && IsBase64(s[0]) && IsBase64(s[1]) && s[3] == PAD
    && if s[2] == PAD then Find(s[1]) & 0x0f == 0 else IsBase64(s[2]) && Find(s[2]) & 0x03 == 0
  }

  predicate Canonical(s: seq<bv8>) {
    s == [] || Padded(s) || (FourLetters(s) && Canonical(s[4..]))
  }

  /** Encoding the decoded bytes gives the text back exactly if the text is canonical. */
  lemma {:induction false} CanonicalIff(s: seq<bv8>)
    ensures Canonical(s) <==> Encoded(Decoded(Body(s))) == s
  {
    if FourLetters(s) {
      var t := s[4..];
      CanonicalIff(t);
      FourFirst(s);
      assert s == s[..4] + t;
    } else {
      ShortBody(s);
    }
  }

  /** Four characters in front decode and encode on their own. */
  lemma {:induction false} FourFirst(s: seq<bv8>)
    requires FourLetters(s)
    ensures Encoded(Decoded(Body(s))) == s[..4] + Encoded(Decoded(Body(s[4..])))
    ensures !Padded(s)
  {
    var t := s[4..];
    var a, b, c, d := Find(s[0]), Find(s[1]), Find(s[2]), Find(s[3]);
    var g := Sextets(a, b, c, d);
    LetterOfFind(s[0]);
    LetterOfFind(s[1]);
    LetterOfFind(s[2]);
    LetterOfFind(s[3]);
    SextetsOfJoined(a, b, c, d);
    LettersAre(g, 4);
    assert Letters(g, 4) == s[..4];
    BodyOfLetters(g, t);
    assert s == s[..4] + t;
    DecodedConcat(Letters(g, 4), Body(t));
    DecodedLetters(g);
    EncodedOctets(g);
    EncodedConcat(Octets(g, 3), Decoded(Body(t)));
  }

  lemma EncodedOctets(g: bv24)
    ensures Encoded(Octets(g, 3)) == Letters(g, 4)
  {
    var b := Octets(g, 3);
    OctetsAre(g, 3);
    SplitJoined(g);
    assert b[3..] == [] && Letters(g, 4) + [] == Letters(g, 4);
  }

  lemma ShortBody(s: seq<bv8>)
    requires !FourLetters(s)
    ensures s == [] || Padded(s) <==> Encoded(Decoded(Body(s))) == s
  {
    BodySpec(s);
    BodyStarts(s);
    var p := Body(s);
    EncodedLength(Decoded(p));
    if |p| >= 2 {
      ShortText(s, p);
    }
  }

  lemma BodyStarts(s: seq<bv8>)
    ensures |Body(s)| >= 4 ==> FourLetters(s)
    ensures |s| >= 2 && IsBase64(s[0]) && IsBase64(s[1]) ==> |Body(s)| >= 2
  {
    BodySpec(s);
    if |Body(s)| >= 4 {
      assert IsBase64(Body(s)[0]) && IsBase64(Body(s)[1]) && IsBase64(Body(s)[2]) && IsBase64(Body(s)[3]);
    }
  }

  lemma {:induction false} ShortText(s: seq<bv8>, p: seq<bv8>)
    requires 2 <= |p| <= 3 && p == Body(s) == s[..|p|] && AllLetters(p) && (|p| < |s| ==> !IsBase64(s[|p|]))
    ensures Padded(s) <==> Encoded(Decoded(p)) == s
  {
    var a, b, c := Find(p[0]), Find(p[1]), if |p| == 3 then Find(p[2]) else 0;
    LettersFound(p);
    LetterOfFind(p[0]);
    LetterOfFind(p[1]);
    var g := Sextets(a, b, c, 0);
    OctetsAre(g, |p| - 1);
    LettersAre(Joined(Octet(g, 0), if |p| == 2 then 0 else Octet(g, 1), 0), |p|);
    if |p| == 2 {
      TwoLetters(a, b);
      assert Encoded(Decoded(p)) == [Letter(a), Letter(b & 0x30), PAD, PAD];
      Injective(b & 0x30, b);
    } else {
      LetterOfFind(p[2]);
      ThreeLetters(a, b, c);
      assert Encoded(Decoded(p)) == [Letter(a), Letter(b), Letter(c & 0x3c), PAD];
      Injective(c & 0x3c, c);
    }
  }

  lemma Injective(v: bv8, w: bv8)
    requires v < 64 && w < 64
    ensures Letter(v) == Letter(w) <==> v == w
  {
    FindOfLetter(v);
    FindOfLetter(w);
  }

  lemma TwoLetters(a: bv8, b: bv8)
    requires a < 64 && b < 64
    ensures
      var o := Octet(Sextets(a, b, 0, 0), 0);
      Sextet(Joined(o, 0, 0), 0) == a && Sextet(Joined(o, 0, 0), 1) == b & 0x30
    ensures b & 0x30 < 64 && (b & 0x30 == b <==> b & 0x0f == 0)
  {
  }

  lemma ThreeLetters(a: bv8, b: bv8, c: bv8)
    requires a < 64 && b < 64 && c < 64
    ensures
      var g := Sextets(a, b, c, 0);
      var h := Joined(Octet(g, 0), Octet(g, 1), 0);
      Sextet(h, 0) == a && Sextet(h, 1) == b && Sextet(h, 2) == c & 0x3c
    ensures c & 0x3c < 64 && (c & 0x3c == c <==> c & 0x03 == 0)
  {
    var g := Sextets(a, b, c, 0);
    assert Joined(Octet(g, 0), Octet(g, 1), 0) == Sextets(a, b, c & 0x3c, 0);
    SextetsOfJoined(a, b, c & 0x3c, 0);
  }
}
