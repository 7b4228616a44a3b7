/**
 The hexadecimal text of byte arrays: the padded form that keys and blobs are stored in, its
 reader, which goes through strtol() and a signed char, and the form without padding.
 */
module HexText {
  import opened Wire

  function Digit(n: nat): char
    requires n < 16
  {
    if n < 10 then ('0' as int + n) as char else ('a' as int + n - 10) as char
  }

  /** The value of a hexadecimal digit as strtol() reads it, -1 for any other character. */
  function DigitValue(c: char): (v: int)
    ensures -1 <= v < 16
  {
    if '0' <= c <= '9' then c as int - '0' as int
    else if 'a' <= c <= 'f' then c as int - 'a' as int + 10
    else if 'A' <= c <= 'F' then c as int - 'A' as int + 10
    else -1
  }

  lemma ValueOfDigit(n: nat)
    requires n < 16
    ensures DigitValue(Digit(n)) == n && !IsSpace(Digit(n)) && Digit(n) != '+' && Digit(n) != '-'
  {
  }

  // ----- Writing ----------------------------------------------------------------------------------------

  /** Two lower-case digits a byte. */
  function Hex(a: seq<byte>): string {
    if a == [] then [] else [Digit(a[0] / 16), Digit(a[0] % 16)] + Hex(a[1..])
  }

  /** As many digits as the number needs. */
  function Short(b: byte): string {
    if b < 16 then [Digit(b)] else [Digit(b / 16), Digit(b % 16)]
  }

  function NoFill(a: seq<byte>): string {
    if a == [] then [] else Short(a[0]) + NoFill(a[1..])
  }

  lemma {:induction false} HexSnoc(a: seq<byte>, b: byte)
    ensures Hex(a + [b]) == Hex(a) + [Digit(b / 16), Digit(b % 16)]
  {
    if a == [] {
      assert [b][1..] == [];
    } else {
      HexSnoc(a[1..], b);
      assert (a + [b])[1..] == a[1..] + [b];
    }
  }

  lemma {:induction false} NoFillSnoc(a: seq<byte>, b: byte)
    ensures NoFill(a + [b]) == NoFill(a) + Short(b)
  {
    if a == [] {
      assert [b][1..] == [];
    } else {
      NoFillSnoc(a[1..], b);
      assert (a + [b])[1..] == a[1..] + [b];
    }
  }

  lemma DigitIs(n: nat)
    requires n < 16
    ensures Digit(n) == "0123456789abcdef"[n]
  {
  }

  /** The padded text, character by character. */
  lemma {:induction false} HexChars(a: seq<byte>, k: nat)
    requires k < |a|
    ensures |Hex(a)| == 2 * |a|
    ensures Hex(a)[2 * k] == "0123456789abcdef"[a[k] / 16] && Hex(a)[2 * k + 1] == "0123456789abcdef"[a[k] % 16]
  {
    if k > 0 {
      HexChars(a[1..], k - 1);
    } else {
      HexLength(a);
      DigitIs(a[0] / 16);
      DigitIs(a[0] % 16);
    }
  }

  /** The text without padding: one digit for a byte below 16, and else two, byte after byte. */
  lemma {:induction false} NoFillChars(a: seq<byte>, b: byte)
    ensures NoFill([]) == ""
    ensures
      NoFill(a + [b])
      == NoFill(a)
         + if b < 16 then ["0123456789abcdef"[b]] else ["0123456789abcdef"[b / 16], "0123456789abcdef"[b % 16]]
  {
    NoFillSnoc(a, b);
    if b < 16 {
      DigitIs(b);
    } else {
      DigitIs(b / 16);
      DigitIs(b % 16);
    }
  }

  method ByteArrayToString(arr: array<byte>, size: nat) returns (text: string)
    requires size <= arr.Length
    ensures text == Hex(arr[..size]) && |text| == 2 * size
  {
    text := "";
    for a := 0 to size
      invariant text == Hex(arr[..a])
    {
      HexSnoc(arr[..a], arr[a]);
      assert arr[..a + 1] == arr[..a] + [arr[a]];
      text := text + [Digit(arr[a] / 16), Digit(arr[a] % 16)];
    }
    HexLength(arr[..size]);
  }

  method ByteArrayToStringNoFill(arr: array<byte>, size: nat) returns (text: string)
    requires size <= arr.Length
    ensures text == NoFill(arr[..size])
  {
    text := "";
    for a := 0 to size
      invariant text == NoFill(arr[..a])
    {
      NoFillSnoc(arr[..a], arr[a]);
      assert arr[..a + 1] == arr[..a] + [arr[a]];
      text := text + Short(arr[a]);
    }
  }

  // ----- Reading ----------------------------------------------------------------------------------------

  predicate IsSpace(c: char) {
    c == ' ' || '\t' <= c <= '\r'
  }

  function SkipSpace(s: string): string {
    if s != [] && IsSpace(s[0]) then SkipSpace(s[1..]) else s
  }

  /** The digits in front, most significant first, after those already worth `sofar`. */
  function Digits(s: string, sofar: nat): nat {
    if s == [] || DigitValue(s[0]) < 0 then sofar else Digits(s[1..], 16 * sofar + DigitValue(s[0]))
  }

  /**
   strtol(s, NULL, 16) for the two characters it is given here, where a 0x prefix has no digits
   behind it and reads as 0.
   */
  function Strtol(s: string): int {
    var t := SkipSpace(s);
    if t == [] then 0
    else if t[0] == '-' then var v: int := Digits(t[1..], 0); -v
    else if t[0] == '+' then Digits(t[1..], 0)
    else Digits(t, 0)
  }

  /** The conversion to a signed char. */
  function ToChar(v: int): int {
    (v + 128) % 256 - 128
  }

  /** The conversion of a signed char to an unsigned one. */
  function ToByte(c: int): (b: byte)
    ensures -128 <= c < 0 ==> b == c + 256
    ensures 0 <= c < 128 ==> b == c
  {
    c % 256
  }

  lemma DigitValues(i: nat)
    requires i < 16
    ensures DigitValue("0123456789abcdef"[i]) == DigitValue("0123456789ABCDEF"[i]) == i
  {
  }

  /** Two digits of either case, a digit in front of something else, and a sign or a space in front of one. */
  lemma StrtolReads(i: nat, j: nat, a: char, b: char, other: char)
    requires i < 16 && j < 16 && a in ["0123456789abcdef"[i], "0123456789ABCDEF"[i]]
    requires b in ["0123456789abcdef"[j], "0123456789ABCDEF"[j]]
    requires !('0' <= other <= '9' || 'a' <= other <= 'f' || 'A' <= other <= 'F')
    ensures Strtol([a, b]) == 16 * i + j && Strtol([a]) == Strtol([a, other]) == i
    ensures other == '-' ==> Strtol([other, b]) == 0 - j
    ensures other != '-' ==>
      Strtol([other, b]) == if other == '+' || other == ' ' || '\t' <= other <= '\r' then j else 0
  {
    DigitValues(i);
    DigitValues(j);
    DigitsFirst(a, b, other);
    DigitSecond(other, b);
  }

  lemma DigitsFirst(a: char, b: char, other: char)
    requires DigitValue(a) >= 0 && DigitValue(b) >= 0 && DigitValue(other) < 0
    ensures Strtol([a, b]) == 16 * DigitValue(a) + DigitValue(b)
    ensures Strtol([a]) == Strtol([a, other]) == DigitValue(a)
  {
    assert [a, b][1..] == [b] && [a, other][1..] == [other] && [b][1..] == [] && [a][1..] == [];
    assert SkipSpace([a, b]) == [a, b] && SkipSpace([a]) == [a] && SkipSpace([a, other]) == [a, other];
    assert Digits([b], DigitValue(a)) == Digits([b][1..], 16 * DigitValue(a) + DigitValue(b));
    assert Digits([a, b], 0) == Digits([a, b][1..], DigitValue(a));
    assert Digits([a, other], 0) == Digits([a, other][1..], DigitValue(a));
    assert Digits([a], 0) == Digits([a][1..], DigitValue(a));
  }

  lemma DigitSecond(other: char, b: char)
    requires DigitValue(other) < 0 && DigitValue(b) >= 0
    ensures other == '-' ==> Strtol([other, b]) == 0 - DigitValue(b)
    ensures other != '-' ==>
      Strtol([other, b]) == if other == '+' || other == ' ' || '\t' <= other <= '\r' then DigitValue(b) else 0
  {
    assert [other, b][1..] == [b] && [b][1..] == [];
    assert SkipSpace([b]) == [b];
    assert SkipSpace([other, b]) == if IsSpace(other) then SkipSpace([other, b][1..]) else [other, b];
    assert Digits([b], 0) == Digits([b][1..], DigitValue(b));
  }

  function Unhex(s: string): seq<byte> {
    if s == [] then []
    else if |s| == 1 then [ToByte(ToChar(Strtol(s)))]
    else [ToByte(ToChar(Strtol(s[..2])))] + Unhex(s[2..])
  }

  lemma {:induction false} UnhexAt(s: string, n: nat)
    requires 2 * n < |s|
    ensures |Unhex(s)| == (|s| + 1) / 2
    ensures Unhex(s)[n] == ToByte(ToChar(Strtol(if 2 * n + 1 < |s| then s[2 * n..2 * n + 2] else s[2 * n..])))
  {
    if |s| == 1 {
      assert s[0..] == s;
    } else if n > 0 {
      var t, i := s[2..], 2 * (n - 1);
      UnhexAt(t, n - 1);
      assert t[i..] == s[i + 2..];
      assert i + 1 < |t| ==> t[i..i + 2] == s[i + 2..i + 4];
    } else if |s| > 2 {
      UnhexAt(s[2..], 0);
    }
  }

  /** Byte n of the read array comes from the two characters, or the last one, that strtol() is given for it. */
  lemma {:induction false} UnhexMeans(s: string, n: nat)
    requires 2 * n < |s|
    ensures |Unhex(s)| == (|s| + 1) / 2
    ensures
      var v := Strtol(if 2 * n + 1 < |s| then s[2 * n..2 * n + 2] else s[2 * n..]);
      0 <= v < 256 ==> Unhex(s)[n] == v
    ensures
      var v := Strtol(if 2 * n + 1 < |s| then s[2 * n..2 * n + 2] else s[2 * n..]);
      -128 <= v < 0 ==> Unhex(s)[n] == v + 256
  {
    UnhexAt(s, n);
  }

  /** Reads two characters at a time, the last one alone if the length is odd, into the caller's array. */
  method HexStringToByteArray(str: string, arr: array<byte>) returns (n: nat)
    requires arr.Length >= (|str| + 1) / 2
    modifies arr
    ensures n == |Unhex(str)| == (|str| + 1) / 2 && arr[..n] == Unhex(str) && arr[n..] == old(arr[n..])
  {
    var bytes: seq<byte> := [];
    var i := 0;
    while i < |str|
      invariant arr[..] == old(arr[..])
      invariant i == 2 * |bytes| && |bytes| <= (|str| + 1) / 2
      invariant forall k | 0 <= k < |bytes| :: k < |Unhex(str)| && bytes[k] == Unhex(str)[k]
    {
      UnhexAt(str, |bytes|);
      var byteString := if i + 1 < |str| then str[i..i + 2] else str[i..];
      var c := ToChar(Strtol(byteString));
      bytes := bytes + [ToByte(c)];
      i := i + 2;
    }
    if str != [] {
      UnhexAt(str, 0);
    }
    assert bytes == Unhex(str);
    for k := 0 to |bytes|
      invariant arr[..k] == bytes[..k] && forall j | k <= j < arr.Length :: arr[j] == old(arr[j])
    {
      arr[k] := bytes[k];
    }
    n := |bytes|;
  }

  // ----- Round trips --------------------------------------------------------------------------------------

  lemma {:induction false} HexLength(a: seq<byte>)
    ensures |Hex(a)| == 2 * |a|
  {
    if a != [] {
      HexLength(a[1..]);
    }
  }

  lemma TwoDigits(b: byte)
    ensures Strtol([Digit(b / 16), Digit(b % 16)]) == b
    ensures ToByte(ToChar(b)) == b
  {
    var s := [Digit(b / 16), Digit(b % 16)];
    ValueOfDigit(b / 16);
    ValueOfDigit(b % 16);
    assert SkipSpace(s) == s && s[1..] == [Digit(b % 16)] && s[1..][1..] == [];
    assert Digits(s, 0) == Digits(s[1..], b / 16) == Digits(s[1..][1..], b);
  }

  /** The stored text reads back as the bytes, through the signed char. */
  lemma {:induction false} RoundTrip(a: seq<byte>)
    ensures Unhex(Hex(a)) == a
  {
    if a != [] {
      RoundTrip(a[1..]);
      TwoDigits(a[0]);
      assert Hex(a)[..2] == [Digit(a[0] / 16), Digit(a[0] % 16)] && Hex(a)[2..] == Hex(a[1..]);
    }
  }

  /** Different bytes have different texts, so a text names its bytes. */
  lemma HexInjective(a: seq<byte>, b: seq<byte>)
    ensures Hex(a) == Hex(b) <==> a == b
  {
    RoundTrip(a);
    RoundTrip(b);
  }

  predicate AllShort(a: seq<byte>) {
    forall k | 0 <= k < |a| :: a[k] < 16
  }

  /** One digit a byte exactly if every byte is below 16. */
  lemma {:induction false} NoFillLength(a: seq<byte>)
    ensures |a| <= |NoFill(a)| <= 2 * |a|
    ensures |NoFill(a)| == |a| <==> AllShort(a)
  {
    if a != [] {
      NoFillLength(a[1..]);
      assert AllShort(a) <==> a[0] < 16 && AllShort(a[1..]) by {
        assert forall k | 0 <= k < |a[1..]| :: a[1..][k] == a[k + 1];
        assert forall k | 1 <= k < |a| :: a[k] == a[1..][k - 1];
      }
    }
  }

  lemma {:induction false} NoFillAt(a: seq<byte>, k: nat)
    requires AllShort(a) && k < |a|
    ensures k < |NoFill(a)| && NoFill(a)[k] == Digit(a[k])
  {
    if k > 0 {
      NoFillAt(a[1..], k - 1);
    }
  }

  /** On bytes below 16 the text determines the bytes; with larger ones it need not. */
  lemma NoFillInjective(a: seq<byte>, b: seq<byte>)
    requires AllShort(a) && AllShort(b) && NoFill(a) == NoFill(b)
    ensures a == b
  {
    NoFillLength(a);
    NoFillLength(b);
    forall k | 0 <= k < |a| ensures a[k] == b[k] {
      NoFillAt(a, k);
      NoFillAt(b, k);
      ValueOfDigit(a[k]);
      ValueOfDigit(b[k]);
    }
  }

  lemma NoFillAmbiguous()
    ensures NoFill([0x11]) == NoFill([1, 1])
  {
    var one: seq<byte> := [0x11];
    var two: seq<byte> := [1, 1];
    assert one[1..] == [] && two[1..] == [1] && two[1..][1..] == [];
    assert NoFill(one) == Short(0x11) + NoFill(one[1..]);
    assert NoFill(two) == Short(1) + (Short(1) + NoFill(two[1..][1..]));
  }
}
