/** Base64 (openbsd-compat/base64.c), after sections 3.5 and 4 of RFC 4648: encoding,
    decoding, and that the strings accepted are exactly the canonical encodings. Bit
    patterns are naturals: shifts and masks are divisions and remainders. */
module Base64 {
  import opened Common
  import Modular

  const PAD: byte := 61

  type Digit = x: int | 0 <= x < 64

  // The table, and strchr in it.
  function Char(d: Digit): byte {
    if d < 26 then 65 + d else if d < 52 then 97 + (d - 26) else if d < 62 then 48 + (d - 52) else if d == 62 then 43 else 47
  }

  function Value(c: byte): Option<Digit> {
    if 65 <= c <= 90 then Some(c - 65)
    else if 97 <= c <= 122 then Some(c - 97 + 26)
    else if 48 <= c <= 57 then Some(c - 48 + 52)
    else if c == 43 then Some(62)
    else if c == 47 then Some(63)
    else None
  }

  lemma {:induction false} TableIsABijection(c: byte, d: Digit)
    ensures Value(c) == Some(d) <==> c == Char(d)
    ensures Char(d) != PAD && !IsSpace(Char(d)) && !IsSpace(PAD) && Value(PAD) == None
  {
  }

  // The alphabet of RFC 4648: A to Z, a to z, 0 to 9, plus and slash, in that order.
  lemma {:induction false} TableIsTheAlphabet(d: Digit)
    ensures Char(0) == 'A' as byte && Char(26) == 'a' as byte && Char(52) == '0' as byte && Char(62) == '+' as byte && Char(63) == '/' as byte
    ensures d < 25 || 26 <= d < 51 || 52 <= d < 61 ==> Char(d + 1) == Char(d) + 1
  {
  }

  predicate IsSpace(c: byte) {
    c == 32 || 9 <= c <= 13
  }

  function Chars(p: seq<Digit>): (s: seq<byte>)
    ensures |s| == |p| && forall i :: 0 <= i < |p| ==> s[i] == Char(p[i])
  {
    seq(|p|, i requires 0 <= i < |p| => Char(p[i]))
  }

  /*** Bytes and digits ***/

  // The digits of a byte string, six bits each, the last filled up with zeros.
  function Digits(x: seq<byte>): (p: seq<Digit>)
    ensures |p| == (4 * |x| + 2) / 3
  {
    if |x| == 0 then []
    else if |x| == 1 then [x[0] / 4, x[0] % 4 * 16]
    else if |x| == 2 then [x[0] / 4, x[0] % 4 * 16 + x[1] / 16, x[1] % 16 * 4]
    else [x[0] / 4, x[0] % 4 * 16 + x[1] / 16, x[1] % 16 * 4 + x[2] / 64, x[2] % 64] + Digits(x[3..])
  }

  // The bytes that are complete after some digits, and the bits left over, as the high bits
  // of the next byte.
  function Bytes(p: seq<Digit>): (x: seq<byte>)
    ensures |x| == 3 * |p| / 4
  {
    if |p| <= 1 then []
    else if |p| == 2 then [p[0] as int * 4 + p[1] as int / 16]
    else if |p| == 3 then [p[0] as int * 4 + p[1] as int / 16, p[1] as int % 16 * 16 + p[2] as int / 4]
    else [p[0] as int * 4 + p[1] as int / 16, p[1] as int % 16 * 16 + p[2] as int / 4, p[2] as int % 4 * 64 + p[3] as int] + Bytes(p[4..])
  }

  function Left(p: seq<Digit>): byte {
    if |p| == 0 then 0
    else if |p| == 1 then p[0] * 4
    else if |p| == 2 then p[1] % 16 * 16
    else if |p| == 3 then p[2] % 4 * 64
    else Left(p[4..])
  }

  // The number a byte string, or a string of digits, stands for behind the number n.
  function ByteNumber(x: seq<byte>, n: nat): nat {
    if x == [] then n else ByteNumber(x[1..], 256 * n + x[0] as int)
  }

  function DigitNumber(p: seq<Digit>, n: nat): nat {
    if p == [] then n else DigitNumber(p[1..], 64 * n + p[0] as int)
  }

  // The digits are the bits of the bytes, in order, with zeros up to a multiple of six.
  lemma {:induction false} SameBits(x: seq<byte>, n: nat)
    ensures DigitNumber(Digits(x), n) == ByteNumber(x, n) * (if |x| % 3 == 0 then 1 else if |x| % 3 == 1 then 16 else 4)
    decreases |x|
  {
    hide DigitNumber, ByteNumber;
    if |x| == 0 {
      NoDigits(n);
      NoBytes(n);
    } else if |x| == 1 {
      OneByte(x, n);
    } else if |x| == 2 {
      TwoBytes(x, n);
    } else {
      hide Digits;
      var p := Digits(x);
      GroupValue(x);
      FourDigits(p, n);
      ThreeBytes(x, n);
      SameBits(x[3..], 16777216 * n + 65536 * x[0] as int + 256 * x[1] as int + x[2] as int);
    }
  }

  lemma {:induction false} GroupValue(x: seq<byte>)
    requires |x| >= 3
    ensures var p := Digits(x);
            |p| >= 4 && p[4..] == Digits(x[3..])
            && 262144 * p[0] as int + 4096 * p[1] as int + 64 * p[2] as int + p[3] as int == 65536 * x[0] as int + 256 * x[1] as int + x[2] as int
  {
  }

  lemma {:induction false} OneByte(x: seq<byte>, n: nat)
    requires |x| == 1
    ensures DigitNumber(Digits(x), n) == ByteNumber(x, n) * 16
  {
    hide DigitNumber, ByteNumber;
    var p := Digits(x);
    NextDigit(p, n);
    NextDigit(p[1..], 64 * n + p[0] as int);
    NoDigits(4096 * n + 64 * p[0] as int + p[1] as int);
    NextByte(x, n);
    NoBytes(256 * n + x[0] as int);
  }

  lemma {:induction false} TwoBytes(x: seq<byte>, n: nat)
    requires |x| == 2
    ensures DigitNumber(Digits(x), n) == ByteNumber(x, n) * 4
  {
    hide DigitNumber, ByteNumber;
    var p := Digits(x);
    NextDigit(p, n);
    NextDigit(p[1..], 64 * n + p[0] as int);
    NextDigit(p[2..], 4096 * n + 64 * p[0] as int + p[1] as int);
    NoDigits(262144 * n + 4096 * p[0] as int + 64 * p[1] as int + p[2] as int);
    NextByte(x, n);
    NextByte(x[1..], 256 * n + x[0] as int);
    NoBytes(65536 * n + 256 * x[0] as int + x[1] as int);
  }

  lemma {:induction false} FourDigits(p: seq<Digit>, n: nat)
    requires |p| >= 4
    ensures DigitNumber(p, n) == DigitNumber(p[4..], 16777216 * n + 262144 * p[0] as int + 4096 * p[1] as int + 64 * p[2] as int + p[3] as int)
  {
    hide DigitNumber;
    NextDigit(p, n);
    NextDigit(p[1..], 64 * n + p[0] as int);
    NextDigit(p[2..], 4096 * n + 64 * p[0] as int + p[1] as int);
    NextDigit(p[3..], 262144 * n + 4096 * p[0] as int + 64 * p[1] as int + p[2] as int);
  }

  lemma {:induction false} ThreeBytes(x: seq<byte>, n: nat)
    requires |x| >= 3
    ensures ByteNumber(x, n) == ByteNumber(x[3..], 16777216 * n + 65536 * x[0] as int + 256 * x[1] as int + x[2] as int)
  {
    hide ByteNumber;
    NextByte(x, n);
    NextByte(x[1..], 256 * n + x[0] as int);
    NextByte(x[2..], 65536 * n + 256 * x[0] as int + x[1] as int);
  }

  lemma {:induction false} NoDigits(n: nat)
    ensures DigitNumber([], n) == n
  {
  }

  lemma {:induction false} NoBytes(n: nat)
    ensures ByteNumber([], n) == n
  {
  }

  lemma {:induction false} NextDigit(p: seq<Digit>, n: nat)
    requires p != []
    ensures DigitNumber(p, n) == DigitNumber(p[1..], 64 * n + p[0] as int)
    ensures |p| > 1 ==> p[1..][1..] == p[2..] && p[1..][0] == p[1]
    ensures |p| == 1 ==> p[1..] == []
  {
  }

  lemma {:induction false} NextByte(x: seq<byte>, n: nat)
    requires x != []
    ensures ByteNumber(x, n) == ByteNumber(x[1..], 256 * n + x[0] as int)
    ensures |x| > 1 ==> x[1..][1..] == x[2..] && x[1..][0] == x[1]
    ensures |x| == 1 ==> x[1..] == []
  {
  }

  lemma {:induction false} BytesOfDigits(x: seq<byte>)
    ensures Bytes(Digits(x)) == x && Left(Digits(x)) == 0
  {
    if |x| >= 3 {
      BytesOfDigits(x[3..]);
      var p := Digits(x);
      assert p[4..] == Digits(x[3..]);
      assert x == [x[0], x[1], x[2]] + x[3..];
    }
  }

  lemma {:induction false} DigitsOfBytes(p: seq<Digit>)
    requires Left(p) == 0 && |p| % 4 != 1
    ensures Digits(Bytes(p)) == p
  {
    hide Digits, Bytes, Left;
    if |p| >= 4 {
      FirstBytes(p);
      DigitsOfBytes(p[4..]);
      DigitsOfGroup(p[0], p[1], p[2], p[3], Bytes(p[4..]));
      assert p == [p[0], p[1], p[2], p[3]] + p[4..];
    } else {
      FewDigits(p);
    }
  }

  lemma {:induction false} FirstBytes(p: seq<Digit>)
    requires |p| >= 4
    ensures Bytes(p) == [p[0] as int * 4 + p[1] as int / 16, p[1] as int % 16 * 16 + p[2] as int / 4, p[2] as int % 4 * 64 + p[3] as int] + Bytes(p[4..])
    ensures Left(p) == Left(p[4..])
  {
  }

  lemma {:induction false} FewDigits(p: seq<Digit>)
    requires |p| < 4 && Left(p) == 0 && |p| != 1
    ensures Digits(Bytes(p)) == p
  {
  }

  lemma {:induction false} DigitsOfGroup(a: Digit, b: Digit, c: Digit, d: Digit, rest: seq<byte>)
    ensures Digits([a as int * 4 + b as int / 16, b as int % 16 * 16 + c as int / 4, c as int % 4 * 64 + d as int] + rest) == [a, b, c, d] + Digits(rest)
  {
    var x, y, z := a as int * 4 + b as int / 16, b as int % 16 * 16 + c as int / 4, c as int % 4 * 64 + d as int;
    Regroup(a, b, c, d);
    assert ([x, y, z] + rest)[3..] == rest;
    hide Digits;
    FirstGroup([x, y, z] + rest);
  }

  lemma {:induction false} FirstGroup(x: seq<byte>)
    requires |x| >= 3
    ensures Digits(x) == [x[0] / 4, x[0] % 4 * 16 + x[1] / 16, x[1] % 16 * 4 + x[2] / 64, x[2] % 64] + Digits(x[3..])
  {
  }

  lemma {:induction false} Regroup(a: int, b: int, c: int, d: int)
    requires 0 <= a < 64 && 0 <= b < 64 && 0 <= c < 64 && 0 <= d < 64
    ensures var x, y, z := a * 4 + b / 16, b % 16 * 16 + c / 4, c % 4 * 64 + d;
            x / 4 == a && x % 4 * 16 + y / 16 == b && y % 16 * 4 + z / 64 == c && z % 64 == d
  {
  }

  /*** Encoding and decoding ***/

  function Pads(n: nat): (s: seq<byte>) {
    if n % 3 == 0 then [] else if n % 3 == 1 then [PAD, PAD] else [PAD]
  }

  function Encode(x: seq<byte>): seq<byte> {
    Chars(Digits(x)) + Pads(|x|)
  }

  // Test vectors of section 10 of RFC 4648, and one for the last two digits.
  lemma {:induction false} Vectors()
    ensures Encode([102]) == [90, 103, 61, 61]
    ensures Encode([102, 111]) == [90, 109, 56, 61]
    ensures Encode([251, 255]) == [43, 47, 56, 61]
  {
    assert Digits([102]) == [25, 32];
    assert Digits([102, 111]) == [25, 38, 60];
    assert Digits([251, 255]) == [62, 63, 60];
    assert Chars([25, 32]) == [90, 103] && Chars([25, 38, 60]) == [90, 109, 56] && Chars([62, 63, 60]) == [43, 47, 56];
  }

  lemma {:induction false} LongVectors()
    ensures Encode([]) == []
    ensures Encode([102, 111, 111, 98, 97, 114]) == [90, 109, 57, 118, 89, 109, 70, 121]
  {
    var foo, bar := [102, 111, 111], [98, 97, 114];
    assert [102, 111, 111, 98, 97, 114] == foo + bar;
    assert foo[3..] == [] && (foo + bar)[3..] == bar && bar[3..] == [];
    assert Digits(bar) == [24, 38, 5, 50];
    assert Digits(foo + bar) == [25, 38, 61, 47] + Digits(bar);
    assert Chars([25, 38, 61, 47, 24, 38, 5, 50]) == [90, 109, 57, 118, 89, 109, 70, 121];
  }

  function Strip(s: seq<byte>): (t: seq<byte>)
    ensures forall i :: 0 <= i < |t| ==> !IsSpace(t[i])
  {
    if s == [] then [] else (if IsSpace(s[0]) then [] else [s[0]]) + Strip(s[1..])
  }

  // The digits at the start of a string.
  function Leading(s: seq<byte>): (p: seq<Digit>)
    ensures |p| <= |s| && s[..|p|] == Chars(p) && (|p| < |s| ==> Value(s[|p|]).None?)
  {
    if s == [] || Value(s[0]).None? then []
    else
      var p := [Value(s[0]).value] + Leading(s[1..]);
      TableIsABijection(s[0], p[0]);
      assert s[..|p|] == [s[0]] + s[1..][..|p| - 1];
      p
  }

  // b64_pton on a string without white space
  function Decode(s: seq<byte>): Option<seq<byte>> {
    var p := Leading(s);
    var rest := s[|p|..];
    if rest == [] then (if |p| % 4 == 0 then Some(Bytes(p)) else None)
    else if ((|p| % 4 == 2 && rest == [PAD, PAD]) || (|p| % 4 == 3 && rest == [PAD])) && Left(p) == 0 then Some(Bytes(p))
    else None
  }

  lemma {:induction false} LeadingIs(p: seq<Digit>, rest: seq<byte>)
    requires rest == [] || Value(rest[0]).None?
    ensures Leading(Chars(p) + rest) == p
  {
    var s := Chars(p) + rest;
    if p == [] {
      assert s == rest;
    } else {
      TableIsABijection(s[0], p[0]);
      assert s[1..] == Chars(p[1..]) + rest;
      LeadingIs(p[1..], rest);
    }
  }

  // The strings that decode are exactly the encodings, each to what was encoded.
  lemma {:induction false} DecodeIsInverse(s: seq<byte>, x: seq<byte>)
    ensures Decode(s) == Some(x) <==> s == Encode(x)
  {
    hide Decode, Encode;
    DecodeOfEncode(x);
    if Decode(s) == Some(x) { EncodeOfDecode(s); }
  }

  // What b64_ntop writes has no white space in it, so b64_pton gets back the bytes from it,
  // given one byte more than they take.
  lemma {:induction false} RoundTrip(x: seq<byte>)
    ensures Strip(Encode(x)) == Encode(x) && Decode(Strip(Encode(x))) == Some(x) && Fits(x, |x| + 1)
  {
    hide Encode, Decode;
    DecodeIsInverse(Encode(x), x);
    NoSpaces(x);
    StripNothing(Encode(x));
  }

  lemma {:induction false} NoSpaces(x: seq<byte>)
    ensures forall i :: 0 <= i < |Encode(x)| ==> !IsSpace(Encode(x)[i])
  {
    hide Digits;
    var p := Digits(x);
    forall i | 0 <= i < |p| ensures !IsSpace(Chars(p)[i]) {
      TableIsABijection(PAD, p[i]);
    }
  }

  lemma {:induction false} StripNothing(s: seq<byte>)
    requires forall i :: 0 <= i < |s| ==> !IsSpace(s[i])
    ensures Strip(s) == s
  {
    if s != [] {
      StripNothing(s[1..]);
    }
  }

  lemma {:induction false} DecodeOfEncode(x: seq<byte>)
    ensures Decode(Encode(x)) == Some(x)
  {
    hide Digits, Bytes, Left, Leading;
    LeadingIs(Digits(x), Pads(|x|));
    BytesOfDigits(x);
    DigitCount(|x|);
    assert Encode(x)[|Digits(x)|..] == Pads(|x|);
  }

  lemma {:induction false} DigitCount(n: nat)
    ensures (4 * n + 2) / 3 % 4 == if n % 3 == 0 then 0 else 1 + n % 3
  {
    var q, r := n / 3, n % 3;
    assert n == 3 * q + r && (4 * n + 2) / 3 == 4 * q + (4 * r + 2) / 3;
  }

  lemma {:induction false} EncodeOfDecode(s: seq<byte>)
    requires Decode(s).Some?
    ensures Encode(Decode(s).value) == s
  {
    hide Digits, Bytes, Left, Leading, Pads, Chars;
    var p := Leading(s);
    ExactLeft(p);
    DigitsOfBytes(p);
    PadsFit(|p|);
    assert s == s[..|p|] + s[|p|..];
  }

  lemma {:induction false} PadsFit(n: nat)
    ensures n % 4 == 0 ==> Pads(3 * n / 4) == []
    ensures n % 4 == 2 ==> Pads(3 * n / 4) == [PAD, PAD]
    ensures n % 4 == 3 ==> Pads(3 * n / 4) == [PAD]
  {
    ByteCount(n);
  }

  // Each group of four digits makes three bytes, and what is left one fewer than its digits.
  lemma {:induction false} ByteCount(n: nat)
    ensures 3 * n / 4 == 3 * (n / 4) + 3 * (n % 4) / 4
    ensures n % 4 != 1 ==> 3 * n / 4 % 3 == if n % 4 == 0 then 0 else n % 4 - 1
  {
    var q, r := n / 4, n % 4;
    Modular.ModUnique(3 * n, 4, 3 * q + 3 * r / 4, 3 * r % 4);
    Modular.ModUnique(3 * q + 3 * r / 4, 3, q, 3 * r / 4);
  }

  lemma {:induction false} ExactLeft(p: seq<Digit>)
    ensures |p| % 4 == 0 ==> Left(p) == 0
  {
    if |p| >= 4 { ExactLeft(p[4..]); }
  }

  /*** The code ***/

  // b64_ntop: the encoding and a terminator, if they fit.
  method Ntop(src: seq<byte>, target: array<byte>) returns (r: int)
    modifies target
    ensures r == -1 <==> |Encode(src)| >= target.Length
    ensures r != -1 ==> r == |Encode(src)| && target[..r] == Encode(src) && target[r] == 0
  {
    hide Digits, Encode;
    var pos: nat, datalength: nat := 0, 0;
    EncodeNone();
    assert src[..0] == [];
    while 2 < |src| - pos
      invariant pos <= |src| && pos % 3 == 0 && datalength == |Encode(src[..pos])| <= target.Length
      invariant target[..datalength] == Encode(src[..pos])
    {
      EncodeGroup(src, pos);
      if datalength + 4 > target.Length {
        EncodeLonger(src, pos + 3);
        return -1;
      }
      var a, b, c := src[pos], src[pos + 1], src[pos + 2];
      PutFour(target, datalength, [Char(a / 4), Char(a % 4 * 16 + b / 16), Char(b % 16 * 4 + c / 64), Char(c % 64)]);
      datalength := datalength + 4;
      pos := pos + 3;
    }
    EncodeTail(src, pos);
    if pos < |src| {
      if datalength + 4 > target.Length { return -1; }
      var one := |src| - pos == 1;
      var a, b := src[pos], if one then 0 else src[pos + 1];
      PutFour(target, datalength, [Char(a / 4), Char(a % 4 * 16 + b / 16), if one then PAD else Char(b % 16 * 4), PAD]);
      datalength := datalength + 4;
    } else {
      assert src[..pos] == src;
    }
    if datalength >= target.Length { return -1; }
    ghost var done := target[..datalength];
    target[datalength] := 0;
    assert target[..datalength] == done;
    r := datalength;
  }

  method PutFour(target: array<byte>, at: nat, four: seq<byte>)
    requires |four| == 4 && at + 4 <= target.Length
    modifies target
    ensures target[..at + 4] == old(target[..at]) + four
  {
    target[at] := four[0];
    target[at + 1] := four[1];
    target[at + 2] := four[2];
    target[at + 3] := four[3];
  }

  lemma {:induction false} EncodeNone()
    ensures Encode([]) == []
  {
  }

  // Encoding goes group by group.
  lemma {:induction false} EncodeConcat(x: seq<byte>, y: seq<byte>)
    requires |x| % 3 == 0
    ensures Encode(x + y) == Encode(x) + Encode(y)
    decreases |x|
  {
    if x == [] {
      assert x + y == y && Encode(x) == [];
    } else {
      EncodeConcat(x[3..], y);
      assert (x + y)[3..] == x[3..] + y;
      EncodeFirst(x);
      EncodeFirst(x + y);
      hide Encode;
      Assoc(Encode(x[..3]), Encode(x[3..]), Encode(y));
      assert (x + y)[..3] == x[..3];
    }
  }

  lemma {:induction false} EncodeFirst(x: seq<byte>)
    requires |x| >= 3
    ensures Encode(x) == Encode(x[..3]) + Encode(x[3..])
    ensures Encode(x[..3]) == [Char(x[0] / 4), Char(x[0] % 4 * 16 + x[1] / 16), Char(x[1] % 16 * 4 + x[2] / 64), Char(x[2] % 64)]
  {
    hide Digits, Chars, Char;
    var g := x[..3];
    FirstDigits(x);
    CharsConcat(Digits(g), Digits(x[3..]));
    assert |x[3..]| % 3 == |x| % 3;
    Assoc(Chars(Digits(g)), Chars(Digits(x[3..])), Pads(|x|));
    assert Encode(g) == Chars(Digits(g)) + [] == Chars(Digits(g));
  }

  lemma {:induction false} CharsConcat(p: seq<Digit>, q: seq<Digit>)
    ensures Chars(p + q) == Chars(p) + Chars(q)
  {
  }

  lemma {:induction false} FirstDigits(x: seq<byte>)
    requires |x| >= 3
    ensures Digits(x) == Digits(x[..3]) + Digits(x[3..])
    ensures Chars(Digits(x[..3])) == [Char(x[0] / 4), Char(x[0] % 4 * 16 + x[1] / 16), Char(x[1] % 16 * 4 + x[2] / 64), Char(x[2] % 64)]
  {
    hide Char;
    var g := x[..3];
    assert g[3..] == [] && Digits(g[3..]) == [];
  }

  lemma {:induction false} EncodeGroup(src: seq<byte>, pos: nat)
    requires pos + 3 <= |src| && pos % 3 == 0
    ensures Encode(src[..pos + 3]) == Encode(src[..pos]) +
              [Char(src[pos] / 4), Char(src[pos] % 4 * 16 + src[pos + 1] / 16), Char(src[pos + 1] % 16 * 4 + src[pos + 2] / 64), Char(src[pos + 2] % 64)]
  {
    hide Encode;
    var g := src[pos..pos + 3];
    assert src[..pos + 3] == src[..pos] + g;
    EncodeConcat(src[..pos], g);
    EncodeFirst(g);
    assert g[..3] == g && g[3..] == [];
    EncodeNone();
  }

  lemma {:induction false} EncodeLonger(src: seq<byte>, pos: nat)
    requires pos <= |src| && pos % 3 == 0
    ensures |Encode(src)| >= |Encode(src[..pos])|
  {
    hide Encode;
    assert src == src[..pos] + src[pos..];
    EncodeConcat(src[..pos], src[pos..]);
  }

  lemma {:induction false} EncodeTail(src: seq<byte>, pos: nat)
    requires pos <= |src| < pos + 3 && pos % 3 == 0
    ensures |src| - pos == 1 ==> Encode(src) == Encode(src[..pos]) + [Char(src[pos] / 4), Char(src[pos] % 4 * 16), PAD, PAD]
    ensures |src| - pos == 2 ==>
              Encode(src) == Encode(src[..pos]) + [Char(src[pos] / 4), Char(src[pos] % 4 * 16 + src[pos + 1] / 16), Char(src[pos + 1] % 16 * 4), PAD]
  {
    var t := src[pos..];
    assert src == src[..pos] + t;
    EncodeConcat(src[..pos], t);
    assert |t| == 1 ==> Encode(t) == [Char(t[0] / 4), Char(t[0] % 4 * 16), PAD, PAD];
    assert |t| == 2 ==> Encode(t) == [Char(t[0] / 4), Char(t[0] % 4 * 16 + t[1] / 16), Char(t[1] % 16 * 4), PAD];
  }

  /*** b64_pton ***/

  // Bitwise or, which is a sum where no bit is set in both.
  function Or(a: nat, b: nat): nat {
    if a == 0 && b == 0 then 0 else 2 * Or(a / 2, b / 2) + Max(a % 2, b % 2)
  }

  lemma {:induction false} OrIsSum(a: nat, b: nat, bits: nat)
    requires b < Pow2(bits) && a % Pow2(bits) == 0
    ensures Or(a, b) == a + b
    decreases bits
  {
    if bits == 0 {
      OrZero(a);
    } else {
      var m := Pow2(bits - 1);
      HalfMultiple(a, m);
      OrIsSum(a / 2, b / 2, bits - 1);
    }
  }

  lemma {:induction false} HalfMultiple(a: nat, m: nat)
    requires m > 0 && a % (2 * m) == 0
    ensures a % 2 == 0 && (a / 2) % m == 0
  {
    var q := a / (2 * m);
    assert a == 2 * (m * q);
    Modular.ModUnique(a / 2, m, q, 0);
  }

  lemma {:induction false} OrZero(a: nat)
    ensures Or(a, 0) == a
  {
    if a > 0 { OrZero(a / 2); }
  }

  lemma {:induction false} SmallTwos()
    ensures Pow2(2) == 4 && Pow2(4) == 16 && Pow2(6) == 64
  {
    assert Pow2(1) == 2 && Pow2(3) == 8 && Pow2(5) == 32;
  }

  // The low bits of a byte that is not complete are clear.
  predicate Aligned(left: byte, k: nat) {
    (k == 1 ==> left % 4 == 0) && (k == 2 ==> left % 16 == 0) && (k == 3 ==> left % 64 == 0)
  }

  // The byte that one more digit completes (none for the first of four), and the bits it
  // leaves over.
  function Completed(left: byte, k: nat, d: Digit): (x: seq<byte>)
    requires Aligned(left, k)
  {
    if k == 1 then [left as int + d as int / 16]
    else if k == 2 then [left as int + d as int / 4]
    else if k == 3 then [left as int + d as int]
    else []
  }

  function Rest(k: nat, d: Digit): byte {
    if k == 0 then d as int * 4 else if k == 1 then d as int % 16 * 16 else if k == 2 then d as int % 4 * 64 else 0
  }

  lemma {:induction false} LeftBits(p: seq<Digit>)
    ensures Aligned(Left(p), |p| % 4)
  {
    if |p| >= 4 { LeftBits(p[4..]); }
  }

  lemma {:induction false} FirstFour(p: seq<Digit>)
    requires |p| >= 4
    ensures Bytes(p) == Bytes(p[..4]) + Bytes(p[4..]) && Left(p) == Left(p[4..])
  {
    var g := p[..4];
    assert g[4..] == [] && Bytes(g[4..]) == [];
  }

  lemma {:induction false} OneMore(p: seq<Digit>, d: Digit)
    requires Aligned(Left(p), |p| % 4)
    ensures Bytes(p + [d]) == Bytes(p) + Completed(Left(p), |p| % 4, d) && Left(p + [d]) == Rest(|p| % 4, d)
    decreases |p|
  {
    hide Bytes, Left, Completed, Rest, Aligned;
    if |p| >= 4 {
      var q := p + [d];
      assert q[4..] == p[4..] + [d] && q[..4] == p[..4] && |p[4..]| % 4 == |p| % 4;
      FirstFour(p);
      FirstFour(q);
      OneMore(p[4..], d);
      Assoc(Bytes(p[..4]), Bytes(p[4..]), Completed(Left(p), |p| % 4, d));
    } else {
      FewMore(p, d);
    }
  }

  lemma {:induction false} FewMore(p: seq<Digit>, d: Digit)
    requires |p| < 4 && Aligned(Left(p), |p|)
    ensures Bytes(p + [d]) == Bytes(p) + Completed(Left(p), |p|, d) && Left(p + [d]) == Rest(|p|, d)
  {
    var q := p + [d];
    if |p| == 3 {
      assert q[4..] == [] && Bytes(q[4..]) == [] && Left(q[4..]) == 0;
    }
  }

  // How much room decoding some digits takes: the bytes, and one more while bits are left.
  function Room(p: seq<Digit>): nat {
    |Bytes(p)| + if |p| % 4 == 0 then 0 else 1
  }

  predicate Fits(x: seq<byte>, size: nat) {
    |x| + (if |x| % 3 == 0 then 0 else 1) <= size
  }

  // b64_pton into a buffer: the result is -1 or the number of bytes. It decodes exactly the
  // encodings, with white space anywhere, whose bytes fit.
  method Pton(src: seq<byte>, target: array<byte>) returns (r: int)
    modifies target
    ensures var d := Decode(Strip(src));
            if d.Some? && Fits(d.value, target.Length) then r == |d.value| && target[..r] == d.value else r == -1
  {
    hide Decode, Decoded, Fits;
    var i: nat, state: nat, tarindex: nat := 0, 0, 0;
    ghost var p: seq<Digit> := [];
    Begin(src, target);
    while i < |src| && src[i] != PAD
      invariant i <= |src| && Decoded(src, i, state, tarindex, target, p)
    {
      var ch := src[i];
      if IsSpace(ch) {
        SpaceAt(src, i, state, tarindex, target, p);
        i := i + 1;
        continue;
      }
      match Value(ch)
      case None =>
        NotADigit(src, i, state, tarindex, target, p);
        return -1;
      case Some(d) =>
        var ok := Accept(src, i, target, tarindex, state, d, p);
        if !ok { return -1; }
        tarindex := if state == 0 then tarindex else tarindex + 1;
        state := if state == 3 then 0 else state + 1;
        p := p + [d];
        i := i + 1;
    }
    var good := Finish(src, i, state, target, tarindex, p);
    if !good { return -1; }
    r := tarindex;
  }

  // The string up to i has given the digits p, and the target holds what they make up.
  ghost predicate Decoded(src: seq<byte>, i: nat, state: nat, t: nat, target: array<byte>, p: seq<Digit>)
    reads target
  {
    && i <= |src| && Strip(src) == Chars(p) + Strip(src[i..])
    && state == |p| % 4 && t == |Bytes(p)| && Room(p) <= target.Length && target[..t] == Bytes(p)
    && (state != 0 ==> target[t] == Left(p))
  }

  lemma {:induction false} SpaceAt(src: seq<byte>, i: nat, state: nat, t: nat, target: array<byte>, p: seq<Digit>)
    requires i < |src| && IsSpace(src[i]) && Decoded(src, i, state, t, target, p)
    ensures Decoded(src, i + 1, state, t, target, p)
  {
    hide Strip, Bytes, Left, Chars;
    StripAt(src, i);
  }

  method OrInto(target: array<byte>, t: nat, v: nat, bits: nat)
    requires t < target.Length && v < Pow2(bits) && target[t] as int % Pow2(bits) == 0 && target[t] as int + v < 256
    modifies target
    ensures target[t] as int == old(target[t]) as int + v && target[..t] == old(target[..t])
  {
    OrIsSum(target[t], v, bits);
    target[t] := Or(target[t], v);
  }

  // One case of the decoder's switch.
  method PutDigit(target: array<byte>, t: nat, k: nat, d: Digit, ghost p: seq<Digit>) returns (ok: bool)
    requires k == |p| % 4 && t == |Bytes(p)| && Room(p) <= target.Length && target[..t] == Bytes(p)
    requires Aligned(Left(p), k)
    requires k != 0 ==> target[t] == Left(p)
    requires Bytes(p + [d]) == Bytes(p) + Completed(Left(p), k, d) && Left(p + [d]) == Rest(k, d)
    modifies target
    ensures ok == (Room(p + [d]) <= target.Length)
    ensures ok ==> var n := |Bytes(p + [d])|; target[..n] == Bytes(p + [d]) && (k != 3 ==> target[n] == Left(p + [d]))
  {
    hide Bytes, Left, Or, Pow2;
    SmallTwos();
    if k == 0 {
      if t >= target.Length { return false; }
      target[t] := d as int * 4;
      assert target[..t] == Bytes(p);
    } else if k == 1 {
      if t + 1 >= target.Length { return false; }
      OrInto(target, t, d as int / 16, 2);
      target[t + 1] := d as int % 16 * 16;
      assert target[..t + 1] == Bytes(p) + [target[t]];
    } else if k == 2 {
      if t + 1 >= target.Length { return false; }
      OrInto(target, t, d as int / 4, 4);
      target[t + 1] := d as int % 4 * 64;
      assert target[..t + 1] == Bytes(p) + [target[t]];
    } else {
      if t >= target.Length { return false; }
      OrInto(target, t, d as int, 6);
      assert target[..t + 1] == Bytes(p) + [target[t]];
    }
    ok := true;
  }

  // A digit at i: it is added to the target, or there is no room for what the string encodes.
  method Accept(src: seq<byte>, i: nat, target: array<byte>, t: nat, k: nat, d: Digit, ghost p: seq<Digit>) returns (ok: bool)
    requires i < |src| && Value(src[i]) == Some(d) && Decoded(src, i, k, t, target, p)
    modifies target
    ensures !ok ==> var x := Decode(Strip(src)); x.Some? ==> !Fits(x.value, target.Length)
    ensures ok ==> Decoded(src, i + 1, if k == 3 then 0 else k + 1, if k == 0 then t else t + 1, target, p + [d])
  {
    hide Decode, Strip, Bytes, Left, Chars, Rest, Aligned, Char, Fits;
    TableIsABijection(src[i], d);
    LeftBits(p);
    OneMore(p, d);
    Snoc(src, i, p, d);
    ok := PutDigit(target, t, k, d, p);
    if !ok {
      TooSmall(src, i + 1, p + [d], target.Length);
    }
  }

  // What follows the digits: nothing, or padding that fits their number.
  method Finish(src: seq<byte>, i: nat, state: nat, target: array<byte>, tarindex: nat, ghost p: seq<Digit>) returns (good: bool)
    requires Decoded(src, i, state, tarindex, target, p) && (i < |src| ==> src[i] == PAD)
    ensures tarindex <= target.Length && (good <==> Decode(Strip(src)).Some?)
    ensures good ==> Decode(Strip(src)) == Some(target[..tarindex]) && Fits(target[..tarindex], target.Length)
  {
    hide Decode, Strip, Bytes, Left, Digits, Leading, Chars;
    RoomFits(p, target.Length);
    if i == |src| {
      StripNone(src);
      DecodeEnd(p, []);
      return state == 0;
    }
    StripAt(src, i);
    DecodeEnd(p, Strip(src[i..]));
    var j := SkipSpaces(src, i + 1);
    if state == 0 || state == 1 { return false; }
    if state == 2 {
      if j == |src| {
        StripNone(src);
        return false;
      }
      StripAt(src, j);
      assert Strip(src[i..])[1] == src[j];
      if src[j] != PAD { return false; }
      j := SkipSpaces(src, j + 1);
    }
    if j < |src| {
      StripAt(src, j);
      return false;
    }
    StripNone(src);
    good := target[tarindex] == 0;
  }

  method SkipSpaces(src: seq<byte>, i: nat) returns (j: nat)
    requires i <= |src|
    ensures i <= j <= |src| && Strip(src[i..]) == Strip(src[j..]) && (j < |src| ==> !IsSpace(src[j]))
  {
    hide Strip;
    j := i;
    while j < |src| && IsSpace(src[j])
      invariant i <= j <= |src| && Strip(src[i..]) == Strip(src[j..])
    {
      StripAt(src, j);
      j := j + 1;
    }
  }

  lemma {:induction false} Begin(src: seq<byte>, target: array<byte>)
    ensures Decoded(src, 0, 0, 0, target, [])
  {
    assert src[0..] == src && Chars([]) == [];
  }

  lemma {:induction false} StripNone(src: seq<byte>)
    ensures Strip(src[|src|..]) == []
  {
  }

  lemma {:induction false} StripAt(src: seq<byte>, i: nat)
    requires i < |src|
    ensures Strip(src[i..]) == (if IsSpace(src[i]) then [] else [src[i]]) + Strip(src[i + 1..])
    ensures IsSpace(src[i]) ==> Strip(src[i..]) == Strip(src[i + 1..])
  {
    assert src[i..][1..] == src[i + 1..];
  }

  lemma {:induction false} Snoc(src: seq<byte>, i: nat, p: seq<Digit>, d: Digit)
    requires i < |src| && Strip(src) == Chars(p) + Strip(src[i..]) && src[i] == Char(d) && !IsSpace(src[i])
    ensures Strip(src) == Chars(p + [d]) + Strip(src[i + 1..])
  {
    hide Strip, Chars;
    StripAt(src, i);
    CharsConcat(p, [d]);
    assert Chars([d]) == [src[i]];
    Assoc(Chars(p), [src[i]], Strip(src[i + 1..]));
  }

  lemma {:induction false} DecodeEnd(p: seq<Digit>, rest: seq<byte>)
    requires rest == [] || Value(rest[0]).None?
    ensures Decode(Chars(p) + rest) ==
              if (rest == [] && |p| % 4 == 0) || (((|p| % 4 == 2 && rest == [PAD, PAD]) || (|p| % 4 == 3 && rest == [PAD])) && Left(p) == 0)
              then Some(Bytes(p)) else None
  {
    hide Bytes, Left, Leading;
    LeadingIs(p, rest);
    assert (Chars(p) + rest)[|p|..] == rest;
  }

  lemma {:induction false} NotADigit(src: seq<byte>, i: nat, state: nat, t: nat, target: array<byte>, p: seq<Digit>)
    requires i < |src| && Decoded(src, i, state, t, target, p) && !IsSpace(src[i]) && src[i] != PAD && Value(src[i]).None?
    ensures Decode(Strip(src)).None?
  {
    hide Decode, Strip, Chars, Bytes, Left;
    StripAt(src, i);
    DecodeEnd(p, Strip(src[i..]));
  }

  lemma {:induction false} RoomFits(p: seq<Digit>, size: nat)
    requires Room(p) <= size
    ensures Fits(Bytes(p), size) || |p| % 4 == 1
  {
    var q, r := |p| / 4, |p| % 4;
    assert 3 * |p| / 4 == 3 * q + 3 * r / 4;
  }

  lemma {:induction false} LeadingMore(q: seq<Digit>, t: seq<byte>)
    ensures Leading(Chars(q) + t) == q + Leading(t)
  {
    hide Leading, Chars, Value;
    var p := Leading(t);
    assert t == Chars(p) + t[|p|..];
    CharsConcat(q, p);
    Assoc(Chars(q), Chars(p), t[|p|..]);
    LeadingIs(q + p, t[|p|..]);
  }

  lemma {:induction false} TooSmall(src: seq<byte>, i: nat, q: seq<Digit>, size: nat)
    requires i <= |src| && Strip(src) == Chars(q) + Strip(src[i..]) && Room(q) > size
    ensures var d := Decode(Strip(src)); d.Some? ==> !Fits(d.value, size)
  {
    hide Strip, Chars, Bytes, Left, Leading;
    LeadingMore(q, Strip(src[i..]));
    var p := Leading(Strip(src));
    RoomGrows(|q|, |p|);
    RoomExact(|p|);
  }

  lemma {:induction false} RoomGrows(n: nat, m: nat)
    requires n <= m
    ensures 3 * n / 4 + (if n % 4 == 0 then 0 else 1) <= 3 * m / 4 + (if m % 4 == 0 then 0 else 1)
  {
    RoomIs(n);
    RoomIs(m);
    assert m / 4 - n / 4 <= m - n;
  }

  lemma {:induction false} RoomIs(n: nat)
    ensures 3 * n / 4 + (if n % 4 == 0 then 0 else 1) == n - n / 4
  {
    ByteCount(n);
  }

  lemma {:induction false} RoomExact(n: nat)
    ensures n % 4 != 1 ==> (3 * n / 4 % 3 == 0 <==> n % 4 == 0)
  {
    ByteCount(n);
  }
}
