/** IsValidUtf8 (src/clickhouse_utils.cpp) against RFC 3629. */
module Utf8 {

  newtype Byte = b: int | 0 <= b < 256

  // ---------------------------------------------------------------- RFC 3629

  /** A Unicode scalar value: no surrogate, nothing above U+10FFFF. */
  predicate IsScalar(codePoint: nat) {
    codePoint <= 0x10FFFF && !(0xD800 <= codePoint <= 0xDFFF)
  }

  function Tail(sixBits: nat): Byte
    requires sixBits < 64
  {
    (0x80 + sixBits) as Byte
  }

  /** Section 3 of RFC 3629: the octets of one character. */
  function Encode(codePoint: nat): (r: seq<Byte>)
    requires IsScalar(codePoint)
    ensures 1 <= |r| <= 4
  {
    if codePoint < 0x80 then [codePoint as Byte]
    else if codePoint < 0x800 then [(0xC0 + codePoint / 64) as Byte, Tail(codePoint % 64)]
    else if codePoint < 0x10000 then
      [(0xE0 + codePoint / 4096) as Byte, Tail(codePoint / 64 % 64), Tail(codePoint % 64)]
    else
      [(0xF0 + codePoint / 262144) as Byte, Tail(codePoint / 4096 % 64), Tail(codePoint / 64 % 64),
       Tail(codePoint % 64)]
  }

  predicate AllScalars(codePoints: seq<nat>) {
    forall k :: 0 <= k < |codePoints| ==> IsScalar(codePoints[k])
  }

  function EncodeAll(codePoints: seq<nat>): seq<Byte>
    requires AllScalars(codePoints)
  {
    if codePoints == [] then [] else Encode(codePoints[0]) + EncodeAll(codePoints[1..])
  }

  ghost predicate IsUtf8(bytes: seq<Byte>) {
    exists codePoints :: AllScalars(codePoints) && EncodeAll(codePoints) == bytes
  }

  predicate IsTail(b: Byte) {
    0x80 <= b <= 0xBF
  }

  /** Section 4 of RFC 3629: UTF8-1 to UTF8-4, the syntax of one character; 0 where none matches. */
  function CharacterLength(bytes: seq<Byte>): (n: nat)
    ensures n <= |bytes| && n <= 4
  {
    if bytes == [] then 0
    else
      var b := bytes[0];
      if b <= 0x7F then 1
      else if 0xC2 <= b <= 0xDF && |bytes| >= 2 && IsTail(bytes[1]) then 2
      else if 0xE0 <= b <= 0xEF && |bytes| >= 3 && IsTail(bytes[1]) && IsTail(bytes[2]) &&
              (b == 0xE0 ==> bytes[1] >= 0xA0) && (b == 0xED ==> bytes[1] <= 0x9F) then 3
      else if 0xF0 <= b <= 0xF4 && |bytes| >= 4 && IsTail(bytes[1]) && IsTail(bytes[2]) && IsTail(bytes[3]) &&
              (b == 0xF0 ==> bytes[1] >= 0x90) && (b == 0xF4 ==> bytes[1] <= 0x8F) then 4
      else 0
  }

  predicate MatchesSyntax(bytes: seq<Byte>) {
    bytes == [] || (CharacterLength(bytes) > 0 && MatchesSyntax(bytes[CharacterLength(bytes)..]))
  }

  // ---------------------------------------------------------------- the validator's arithmetic

  /** (c & 0xE0) == 0xC0 and the like: the leading bits that give the length; 0 for none. */
  function LeadLength(c: Byte): nat {
    if c < 0x80 then 1
    else if c / 32 == 6 then 2
    else if c / 16 == 14 then 3
    else if c / 8 == 30 then 4
    else 0
  }

  function LeadBits(c: Byte): nat {
    match LeadLength(c)
    case 2 => (c % 32) as nat
    case 3 => (c % 16) as nat
    case 4 => (c % 8) as nat
    case _ => c as nat
  }

  /** (codePoint << 6) | (continuation & 0x3F), byte by byte. */
  function Accumulate(codePoint: nat, tails: seq<Byte>): nat
    decreases |tails|
  {
    if tails == [] then codePoint
    else Accumulate(codePoint, tails[..|tails| - 1]) * 64 + (tails[|tails| - 1] % 64) as nat
  }

  predicate Accepted(length: nat, codePoint: nat) {
    !((length == 2 && codePoint < 0x80) || (length == 3 && codePoint < 0x800) ||
      (length == 4 && codePoint < 0x10000) || codePoint > 0x10FFFF || (0xD800 <= codePoint <= 0xDFFF))
  }

  predicate AllTails(bytes: seq<Byte>) {
    forall k :: 0 <= k < |bytes| ==> bytes[k] / 64 == 2
  }

  /** The code point of the character `bytes` start with, by the validator's arithmetic. */
  function CodePoint(bytes: seq<Byte>, length: nat): nat
    requires 1 <= length <= |bytes|
  {
    Accumulate(LeadBits(bytes[0]), bytes[1..length])
  }

  predicate StartsWithCharacter(bytes: seq<Byte>, length: nat) {
    1 <= length <= |bytes| && length == LeadLength(bytes[0]) && AllTails(bytes[1..length]) &&
    (length == 1 || Accepted(length, CodePoint(bytes, length)))
  }

  lemma AccumulateOne(cp: nat, a: Byte)
    ensures Accumulate(cp, [a]) == cp * 64 + (a % 64) as nat
  {
    assert [a][..0] == [];
    assert Accumulate(cp, []) == cp;
  }

  lemma AccumulateTwo(cp: nat, a: Byte, b: Byte)
    ensures Accumulate(cp, [a, b]) == (cp * 64 + (a % 64) as nat) * 64 + (b % 64) as nat
  {
    assert [a, b][..1] == [a];
    AccumulateOne(cp, a);
  }

  lemma AccumulateThree(cp: nat, a: Byte, b: Byte, c: Byte)
    ensures Accumulate(cp, [a, b, c]) == ((cp * 64 + (a % 64) as nat) * 64 + (b % 64) as nat) * 64 + (c % 64) as nat
  {
    assert [a, b, c][..2] == [a, b];
    AccumulateTwo(cp, a, b);
  }

  lemma TwoBytes(a: Byte, b: Byte)
    requires LeadLength(a) == 2 && b / 64 == 2 && Accepted(2, LeadBits(a) * 64 + (b % 64) as nat)
    ensures var cp := LeadBits(a) * 64 + (b % 64) as nat; IsScalar(cp) && Encode(cp) == [a, b]
  {
    var cp := LeadBits(a) * 64 + (b % 64) as nat;
    assert cp / 64 == LeadBits(a) && cp % 64 == (b % 64) as nat;
  }

  lemma ThreeBytes(a: Byte, b: Byte, c: Byte)
    requires LeadLength(a) == 3 && b / 64 == 2 && c / 64 == 2
    requires Accepted(3, (LeadBits(a) * 64 + (b % 64) as nat) * 64 + (c % 64) as nat)
    ensures var cp := (LeadBits(a) * 64 + (b % 64) as nat) * 64 + (c % 64) as nat;
      IsScalar(cp) && Encode(cp) == [a, b, c]
  {
    var high := LeadBits(a) * 64 + (b % 64) as nat;
    var cp := high * 64 + (c % 64) as nat;
    assert cp / 64 == high && cp % 64 == (c % 64) as nat;
    assert high / 64 == LeadBits(a) && high % 64 == (b % 64) as nat;
    assert cp / 4096 == LeadBits(a);
  }

  lemma FourBytes(a: Byte, b: Byte, c: Byte, d: Byte)
    requires LeadLength(a) == 4 && b / 64 == 2 && c / 64 == 2 && d / 64 == 2
    requires Accepted(4, ((LeadBits(a) * 64 + (b % 64) as nat) * 64 + (c % 64) as nat) * 64 + (d % 64) as nat)
    ensures var cp := ((LeadBits(a) * 64 + (b % 64) as nat) * 64 + (c % 64) as nat) * 64 + (d % 64) as nat;
      IsScalar(cp) && Encode(cp) == [a, b, c, d]
  {
    var top := LeadBits(a) * 64 + (b % 64) as nat;
    var high := top * 64 + (c % 64) as nat;
    var cp := high * 64 + (d % 64) as nat;
    assert cp / 64 == high && cp % 64 == (d % 64) as nat;
    assert high / 64 == top && high % 64 == (c % 64) as nat;
    assert top / 64 == LeadBits(a) && top % 64 == (b % 64) as nat;
    assert cp / 4096 == top && cp / 262144 == LeadBits(a);
  }

  /** What the validator takes for a character is the encoding of one. */
  lemma AcceptedIsEncoding(bytes: seq<Byte>, length: nat)
    requires StartsWithCharacter(bytes, length)
    ensures IsScalar(CodePoint(bytes, length)) && Encode(CodePoint(bytes, length)) == bytes[..length]
  {
    hide Encode, IsScalar, Accepted, LeadBits, Accumulate;
    var tails := bytes[1..length];
    assert bytes[..length] == [bytes[0]] + tails;
    assert forall k :: 0 <= k < |tails| ==> tails[k] == bytes[k + 1];
    if length == 1 {
      OneByte(bytes[0]);
      assert tails == [];
    } else if length == 2 {
      assert tails == [bytes[1]];
      AccumulateOne(LeadBits(bytes[0]), bytes[1]);
      TwoBytes(bytes[0], bytes[1]);
    } else if length == 3 {
      assert tails == [bytes[1], bytes[2]];
      AccumulateTwo(LeadBits(bytes[0]), bytes[1], bytes[2]);
      ThreeBytes(bytes[0], bytes[1], bytes[2]);
    } else {
      assert tails == [bytes[1], bytes[2], bytes[3]];
      AccumulateThree(LeadBits(bytes[0]), bytes[1], bytes[2], bytes[3]);
      FourBytes(bytes[0], bytes[1], bytes[2], bytes[3]);
    }
  }

  lemma OneByte(a: Byte)
    requires LeadLength(a) == 1
    ensures IsScalar(LeadBits(a)) && Encode(LeadBits(a)) == [a] && Accumulate(LeadBits(a), []) == LeadBits(a)
  {
  }

  lemma LeadOfTwo(cp: nat)
    requires 0x80 <= cp < 0x800
    ensures var a := (0xC0 + cp / 64) as Byte;
      LeadLength(a) == 2 && LeadBits(a) * 64 + (Tail(cp % 64) % 64) as nat == cp
  {
  }

  lemma LeadOfThree(cp: nat)
    requires 0x800 <= cp < 0x10000
    ensures var a := (0xE0 + cp / 4096) as Byte;
      LeadLength(a) == 3 &&
      (LeadBits(a) * 64 + (Tail(cp / 64 % 64) % 64) as nat) * 64 + (Tail(cp % 64) % 64) as nat == cp
  {
    assert cp / 4096 == cp / 64 / 64;
  }

  lemma LeadOfFour(cp: nat)
    requires 0x10000 <= cp <= 0x10FFFF
    ensures var a := (0xF0 + cp / 262144) as Byte;
      LeadLength(a) == 4 &&
      ((LeadBits(a) * 64 + (Tail(cp / 4096 % 64) % 64) as nat) * 64 + (Tail(cp / 64 % 64) % 64) as nat) * 64 +
      (Tail(cp % 64) % 64) as nat == cp
  {
    assert cp / 4096 == cp / 64 / 64 && cp / 262144 == cp / 4096 / 64;
  }

  /** The encoding of a scalar value is taken for a character of just its length. */
  lemma EncodingIsAccepted(cp: nat)
    requires IsScalar(cp)
    ensures StartsWithCharacter(Encode(cp), |Encode(cp)|)
    ensures cp >= 0x80 ==> CodePoint(Encode(cp), |Encode(cp)|) == cp
  {
    hide LeadLength, LeadBits, Accumulate;
    var e := Encode(cp);
    if cp < 0x80 {
      OneByteLead(e[0]);
    } else if cp < 0x800 {
      LeadOfTwo(cp);
      assert e[1..2] == [e[1]];
      AccumulateOne(LeadBits(e[0]), e[1]);
    } else if cp < 0x10000 {
      LeadOfThree(cp);
      assert e[1..3] == [e[1], e[2]];
      AccumulateTwo(LeadBits(e[0]), e[1], e[2]);
    } else {
      LeadOfFour(cp);
      assert e[1..4] == [e[1], e[2], e[3]];
      AccumulateThree(LeadBits(e[0]), e[1], e[2], e[3]);
    }
  }

  lemma OneByteLead(a: Byte)
    requires a < 0x80
    ensures LeadLength(a) == 1
  {
  }

  /** A character is recognized whatever follows it. */
  lemma EncodingAtStart(cp: nat, rest: seq<Byte>)
    requires IsScalar(cp)
    ensures StartsWithCharacter(Encode(cp) + rest, |Encode(cp)|)
  {
    hide LeadLength, LeadBits, Accumulate, Encode, AllTails, Accepted;
    EncodingIsAccepted(cp);
    var e := Encode(cp);
    assert (e + rest)[1..|e|] == e[1..|e|];
    assert (e + rest)[0] == e[0];
  }

  // ---------------------------------------------------------------- the whole text

  lemma IsUtf8Nothing()
    ensures IsUtf8([])
  {
    assert AllScalars([]) && EncodeAll([]) == [];
  }

  lemma IsUtf8Cons(bytes: seq<Byte>, length: nat)
    requires StartsWithCharacter(bytes, length)
    ensures IsUtf8(bytes) <==> IsUtf8(bytes[length..])
  {
    hide StartsWithCharacter, CodePoint, Encode, IsScalar;
    AcceptedLength(bytes, length);
    AcceptedIsEncoding(bytes, length);
    var cp := CodePoint(bytes, length);
    if IsUtf8(bytes[length..]) {
      var rest :| AllScalars(rest) && EncodeAll(rest) == bytes[length..];
      assert ([cp] + rest)[1..] == rest;
      assert EncodeAll([cp] + rest) == bytes[..length] + bytes[length..] == bytes;
    }
    if IsUtf8(bytes) {
      var all :| AllScalars(all) && EncodeAll(all) == bytes;
      FirstEncoding(all, bytes, length);
      assert EncodeAll(all[1..]) == bytes[length..];
    }
  }

  lemma AcceptedLength(bytes: seq<Byte>, length: nat)
    requires StartsWithCharacter(bytes, length)
    ensures 1 <= length <= |bytes|
  {
  }

  /** The first of the encoded characters is the one the validator sees: the lead byte gives its length. */
  lemma FirstEncoding(all: seq<nat>, bytes: seq<Byte>, length: nat)
    requires AllScalars(all) && EncodeAll(all) == bytes && StartsWithCharacter(bytes, length)
    ensures all != [] && |Encode(all[0])| == length && bytes == Encode(all[0]) + EncodeAll(all[1..])
  {
    hide Encode, LeadLength, Accepted, AllTails, CodePoint;
    EncodingAtStart(all[0], EncodeAll(all[1..]));
  }

  lemma NoCharacter(bytes: seq<Byte>)
    requires bytes != [] && (LeadLength(bytes[0]) > |bytes| || !StartsWithCharacter(bytes, LeadLength(bytes[0])))
    ensures !IsUtf8(bytes)
  {
    hide Encode, LeadLength, Accepted, AllTails, CodePoint;
    if IsUtf8(bytes) {
      var all :| AllScalars(all) && EncodeAll(all) == bytes;
      EncodingAtStart(all[0], EncodeAll(all[1..]));
    }
  }

  /** One round of the loop: the length of the character at `i`, 0 if there is none. */
  method ReadCharacter(data: array<Byte>, i: nat) returns (length: nat)
    requires i < data.Length
    ensures length > 0 ==> StartsWithCharacter(data[i..], length)
    ensures length == 0 ==>
      LeadLength(data[i]) > data.Length - i || !StartsWithCharacter(data[i..], LeadLength(data[i]))
  {
    hide Accumulate;
    ghost var rest := data[i..];
    var c := data[i];
    assert rest[0] == c;
    if c < 0x80 {
      return 1;
    }
    var codePoint: nat;
    if c / 32 == 6 {
      length, codePoint := 2, (c % 32) as nat;
    } else if c / 16 == 14 {
      length, codePoint := 3, (c % 16) as nat;
    } else if c / 8 == 30 {
      length, codePoint := 4, (c % 8) as nat;
    } else {
      return 0;
    }
    if i + length > data.Length {
      return 0;
    }
    AccumulateNone(LeadBits(c));
    for k := 1 to length
      invariant AllTails(rest[1..k]) && codePoint == Accumulate(LeadBits(c), rest[1..k])
    {
      var continuation := data[i + k];
      assert rest[k] == continuation;
      assert rest[1..length][k - 1] == continuation;
      if continuation / 64 != 2 {
        return 0;
      }
      AccumulateSnoc(LeadBits(c), rest[1..k], continuation);
      assert rest[1..k + 1] == rest[1..k] + [continuation];
      codePoint := codePoint * 64 + (continuation % 64) as nat;
    }
    if (length == 2 && codePoint < 0x80) || (length == 3 && codePoint < 0x800) ||
       (length == 4 && codePoint < 0x10000) || codePoint > 0x10FFFF || (0xD800 <= codePoint <= 0xDFFF) {
      return 0;
    }
  }

  lemma AccumulateNone(cp: nat)
    ensures Accumulate(cp, []) == cp
  {
  }

  lemma AccumulateSnoc(cp: nat, tails: seq<Byte>, b: Byte)
    ensures Accumulate(cp, tails + [b]) == Accumulate(cp, tails) * 64 + (b % 64) as nat
  {
    assert (tails + [b])[..|tails|] == tails;
  }

  /** True exactly if the bytes are the UTF-8 encoding of some Unicode scalar values. Every read is within the
      array. */
  method IsValidUtf8(data: array<Byte>) returns (valid: bool)
    ensures valid <==> IsUtf8(data[..])
  {
    hide IsUtf8, StartsWithCharacter, LeadLength;
    var i := 0;
    assert data[0..] == data[..];
    while i < data.Length
      invariant i <= data.Length
      invariant IsUtf8(data[..]) <==> IsUtf8(data[i..])
    {
      var length := ReadCharacter(data, i);
      if length == 0 {
        NoCharacter(data[i..]);
        return false;
      }
      AcceptedLength(data[i..], length);
      IsUtf8Cons(data[i..], length);
      assert data[i..][length..] == data[i + length..];
      i := i + length;
    }
    assert data[i..] == [];
    IsUtf8Nothing();
    return true;
  }

  // ---------------------------------------------------------------- the syntax of section 4

  lemma TwoBounds(a: Byte, b: Byte)
    ensures LeadLength(a) == 2 && b / 64 == 2 && Accepted(2, LeadBits(a) * 64 + (b % 64) as nat) <==>
            0xC2 <= a <= 0xDF && IsTail(b)
  {
  }

  lemma ThreeBounds(a: Byte, b: Byte, c: Byte)
    ensures LeadLength(a) == 3 && b / 64 == 2 && c / 64 == 2 &&
            Accepted(3, (LeadBits(a) * 64 + (b % 64) as nat) * 64 + (c % 64) as nat) <==>
            0xE0 <= a <= 0xEF && IsTail(b) && IsTail(c) && (a == 0xE0 ==> b >= 0xA0) && (a == 0xED ==> b <= 0x9F)
  {
  }

  lemma FourBounds(a: Byte, b: Byte, c: Byte, d: Byte)
    ensures LeadLength(a) == 4 && b / 64 == 2 && c / 64 == 2 && d / 64 == 2 &&
            Accepted(4, ((LeadBits(a) * 64 + (b % 64) as nat) * 64 + (c % 64) as nat) * 64 + (d % 64) as nat) <==>
            0xF0 <= a <= 0xF4 && IsTail(b) && IsTail(c) && IsTail(d) &&
            (a == 0xF0 ==> b >= 0x90) && (a == 0xF4 ==> b <= 0x8F)
  {
  }

  lemma LeadRange(a: Byte)
    ensures LeadLength(a) <= 4
    ensures LeadLength(a) == 1 <==> a <= 0x7F
    ensures LeadLength(a) == 2 <==> 0xC0 <= a <= 0xDF
    ensures LeadLength(a) == 3 <==> 0xE0 <= a <= 0xEF
    ensures LeadLength(a) == 4 <==> 0xF0 <= a <= 0xF7
  {
  }

  lemma SyntaxOfCharacter(bytes: seq<Byte>, length: nat)
    ensures StartsWithCharacter(bytes, length) <==> length > 0 && CharacterLength(bytes) == length
  {
    hide LeadLength, LeadBits, Accumulate, Accepted, IsTail;
    if bytes != [] {
      LeadRange(bytes[0]);
      if |bytes| >= 2 {
        assert bytes[1..2] == [bytes[1]];
        AccumulateOne(LeadBits(bytes[0]), bytes[1]);
        TwoBounds(bytes[0], bytes[1]);
      }
      if |bytes| >= 3 {
        assert bytes[1..3] == [bytes[1], bytes[2]];
        AccumulateTwo(LeadBits(bytes[0]), bytes[1], bytes[2]);
        ThreeBounds(bytes[0], bytes[1], bytes[2]);
      }
      if |bytes| >= 4 {
        assert bytes[1..4] == [bytes[1], bytes[2], bytes[3]];
        AccumulateThree(LeadBits(bytes[0]), bytes[1], bytes[2], bytes[3]);
        FourBounds(bytes[0], bytes[1], bytes[2], bytes[3]);
      }
    }
  }

  /** The two sections agree: the text matches the syntax exactly if it encodes scalar values. */
  lemma {:induction false} SyntaxExact(bytes: seq<Byte>)
    ensures MatchesSyntax(bytes) <==> IsUtf8(bytes)
    decreases |bytes|
  {
    hide IsUtf8, StartsWithCharacter, CharacterLength, LeadLength;
    if bytes == [] {
      IsUtf8Nothing();
    } else {
      var n := CharacterLength(bytes);
      SyntaxOfCharacter(bytes, n);
      SyntaxOfCharacter(bytes, LeadLength(bytes[0]));
      LeadLengthPositive(bytes);
      if n > 0 {
        AcceptedLength(bytes, n);
        IsUtf8Cons(bytes, n);
        SyntaxExact(bytes[n..]);
      } else {
        NoCharacter(bytes);
      }
    }
  }

  lemma LeadLengthPositive(bytes: seq<Byte>)
    requires bytes != []
    ensures StartsWithCharacter(bytes, LeadLength(bytes[0])) ==> LeadLength(bytes[0]) > 0
  {
  }
}
