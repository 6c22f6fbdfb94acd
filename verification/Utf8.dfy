/** The UTF-8 check on names, against the grammar of section 4 of RFC 3629. */
module Utf8 {
  import opened Bytes
  import opened Bits

  // ----- the grammar

  predicate Tail(b: Byte) {
    0x80 <= b <= 0xBF
  }

  /** UTF8-char: one of the well-formed sequences of section 4 of RFC 3629. */
  predicate Utf8Char(s: seq<Byte>) {
    || (|s| == 1 && s[0] <= 0x7F)
    || (|s| == 2 && 0xC2 <= s[0] <= 0xDF && Tail(s[1]))
    || (|s| == 3 && Tail(s[2]) && (
      || (s[0] == 0xE0 && 0xA0 <= s[1] <= 0xBF)
      || (0xE1 <= s[0] <= 0xEC && Tail(s[1]))
      || (s[0] == 0xED && 0x80 <= s[1] <= 0x9F)
      || (0xEE <= s[0] <= 0xEF && Tail(s[1]))))
    || (|s| == 4 && Tail(s[2]) && Tail(s[3]) && (
      || (s[0] == 0xF0 && 0x90 <= s[1] <= 0xBF)
      || (0xF1 <= s[0] <= 0xF3 && Tail(s[1]))
      || (s[0] == 0xF4 && 0x80 <= s[1] <= 0x8F)))
  }

  function Concat(chars: seq<seq<Byte>>): seq<Byte> {
    if chars == [] then [] else chars[0] + Concat(chars[1..])
  }

  predicate AllChars(chars: seq<seq<Byte>>) {
    forall i :: 0 <= i < |chars| ==> Utf8Char(chars[i])
  }

  /** UTF8-octets: any concatenation of them. */
  ghost predicate WellFormed(bytes: seq<Byte>) {
    exists chars :: AllChars(chars) && Concat(chars) == bytes
  }

  // ----- the check

  predicate Continues(bytes: seq<Byte>, i: nat) {
    i < |bytes| && And(bytes[i], 0xC0) == 0x80
  }

  lemma {:induction false} SmallAnd(k: nat)
    requires k < 4
    ensures And(k, 3) == k
  {
  }

  lemma {:induction false} HalfAnd(a: nat, mask: nat, half: nat)
    requires mask == 2 * half
    ensures And(a, mask) == 2 * And(a / 2, half)
  {
  }

  lemma {:induction false} TopBits(b: Byte)
    ensures And(b, 0xC0) == 64 * And(b / 64, 3)
  {
    HalfAnd(b, 0xC0, 0x60);
    HalfAnd(b / 2, 0x60, 0x30);
    HalfAnd(b / 2 / 2, 0x30, 0x18);
    HalfAnd(b / 2 / 2 / 2, 0x18, 0x0C);
    HalfAnd(b / 2 / 2 / 2 / 2, 0x0C, 0x06);
    HalfAnd(b / 2 / 2 / 2 / 2 / 2, 0x06, 0x03);
    assert b / 2 / 2 / 2 / 2 / 2 / 2 == b / 64;
  }

  lemma {:induction false} ContinuationIsTail(b: Byte)
    ensures And(b, 0xC0) == 0x80 <==> Tail(b)
  {
    TopBits(b);
    SmallAnd(b / 64);
  }

  /** The length of the character the bytes begin with, by the source's tests; 0 if there is none. */
  function CharLength(bytes: seq<Byte>): (n: nat)
    requires bytes != []
    ensures n <= |bytes|
  {
    var byte := bytes[0];
    if byte <= 0x7F then 1
    else if 0xC2 <= byte <= 0xDF && Continues(bytes, 1) then 2
    else if 0xE0 <= byte <= 0xEF && Continues(bytes, 1) && Continues(bytes, 2)
      && (byte != 0xE0 || bytes[1] >= 0xA0) && (byte != 0xED || bytes[1] <= 0x9F) then 3
    else if 0xF0 <= byte <= 0xF4 && Continues(bytes, 1) && Continues(bytes, 2) && Continues(bytes, 3)
      && (byte != 0xF0 || bytes[1] >= 0x90) && (byte != 0xF4 || bytes[1] <= 0x8F) then 4
    else 0
  }

  /** Those tests find exactly the one character the bytes can begin with. */
  lemma {:induction false} CharLengthMeans(bytes: seq<Byte>, n: nat)
    requires bytes != [] && n <= |bytes|
    ensures Utf8Char(bytes[..n]) <==> 0 < n == CharLength(bytes)
  {
    if 1 < |bytes| {
      ContinuationIsTail(bytes[1]);
    }
    if 2 < |bytes| {
      ContinuationIsTail(bytes[2]);
    }
    if 3 < |bytes| {
      ContinuationIsTail(bytes[3]);
    }
  }

  predicate Valid(bytes: seq<Byte>) {
    bytes == [] || (CharLength(bytes) > 0 && Valid(bytes[CharLength(bytes)..]))
  }

  lemma {:induction false} ConcatIsValid(chars: seq<seq<Byte>>)
    requires AllChars(chars)
    ensures Valid(Concat(chars))
  {
    if chars != [] {
      ConcatIsValid(chars[1..]);
      var bytes, first := Concat(chars), chars[0];
      assert bytes[..|first|] == first && bytes[|first|..] == Concat(chars[1..]);
      CharLengthMeans(bytes, |first|);
    }
  }

  lemma {:induction false} ValidIsConcat(bytes: seq<Byte>) returns (chars: seq<seq<Byte>>)
    requires Valid(bytes)
    ensures AllChars(chars) && Concat(chars) == bytes
  {
    if bytes == [] {
      chars := [];
    } else {
      var n := CharLength(bytes);
      var rest := ValidIsConcat(bytes[n..]);
      CharLengthMeans(bytes, n);
      chars := [bytes[..n]] + rest;
      assert chars[1..] == rest && bytes == bytes[..n] + bytes[n..];
    }
  }

  lemma {:induction false} NotWellFormed(bytes: seq<Byte>)
    requires !Valid(bytes)
    ensures !WellFormed(bytes)
  {
    forall chars | AllChars(chars) && Concat(chars) == bytes
      ensures false
    {
      ConcatIsValid(chars);
    }
  }

  /** `IsValidUtf8`: accepts exactly the concatenations of well-formed sequences. */
  method IsValidUtf8(bytes: seq<Byte>) returns (ok: bool)
    ensures ok <==> WellFormed(bytes)
  {
    var index := 0;
    assert bytes[0..] == bytes;
    while index < |bytes|
      invariant index <= |bytes| && (Valid(bytes) <==> Valid(bytes[index..]))
    {
      var n := CharLength(bytes[index..]);
      if n == 0 {
        NotWellFormed(bytes);
        return false;
      }
      assert bytes[index..][n..] == bytes[index + n..];
      index := index + n;
    }
    assert bytes[index..] == [];
    ghost var chars := ValidIsConcat(bytes);
    ok := true;
  }

  // ----- scalar values

  /** A Unicode scalar value: a code point that is no surrogate. */
  predicate Scalar(c: nat) {
    c <= 0x10FFFF && !(0xD800 <= c <= 0xDFFF)
  }

  function TailOf(x: nat): (b: Byte)
    ensures Tail(b)
  {
    0x80 + x % 64
  }

  function EncodeChar(c: nat): seq<Byte>
    requires Scalar(c)
  {
    if c < 0x80 then [c]
    else if c < 0x800 then [0xC0 + c / 64, TailOf(c)]
    else if c < 0x1_0000 then [0xE0 + c / 64 / 64, TailOf(c / 64), TailOf(c)]
    else [0xF0 + c / 64 / 64 / 64, TailOf(c / 64 / 64), TailOf(c / 64), TailOf(c)]
  }

  /** A tail byte appends its six bits. */
  function Append6(head: nat, b: Byte): nat
    requires Tail(b)
  {
    head * 64 + (b - 0x80)
  }

  function DecodeChar(s: seq<Byte>): nat
    requires Utf8Char(s)
  {
    if |s| == 1 then s[0]
    else if |s| == 2 then Append6(s[0] - 0xC0, s[1])
    else if |s| == 3 then Append6(Append6(s[0] - 0xE0, s[1]), s[2])
    else Append6(Append6(Append6(s[0] - 0xF0, s[1]), s[2]), s[3])
  }

  lemma {:induction false} Append6Splits(head: nat, b: Byte)
    requires Tail(b)
    ensures Append6(head, b) / 64 == head && TailOf(Append6(head, b)) == b
  {
  }

  lemma {:induction false} TailAppends(c: nat)
    ensures Append6(c / 64, TailOf(c)) == c
  {
  }

  lemma {:induction false} EncodedChar(c: nat)
    requires Scalar(c)
    ensures Utf8Char(EncodeChar(c)) && DecodeChar(EncodeChar(c)) == c
  {
    TailAppends(c);
    TailAppends(c / 64);
    TailAppends(c / 64 / 64);
  }

  lemma {:induction false} DecodedChar(s: seq<Byte>)
    requires Utf8Char(s)
    ensures Scalar(DecodeChar(s)) && EncodeChar(DecodeChar(s)) == s
  {
    if |s| == 2 {
      Append6Splits(s[0] - 0xC0, s[1]);
    } else if |s| == 3 {
      Append6Splits(s[0] - 0xE0, s[1]);
      Append6Splits(Append6(s[0] - 0xE0, s[1]), s[2]);
    } else if |s| == 4 {
      Append6Splits(s[0] - 0xF0, s[1]);
      Append6Splits(Append6(s[0] - 0xF0, s[1]), s[2]);
      Append6Splits(Append6(Append6(s[0] - 0xF0, s[1]), s[2]), s[3]);
    }
  }

  predicate AllScalars(text: seq<nat>) {
    forall i :: 0 <= i < |text| ==> Scalar(text[i])
  }

  function Encode(text: seq<nat>): seq<Byte>
    requires AllScalars(text)
  {
    if text == [] then [] else EncodeChar(text[0]) + Encode(text[1..])
  }

  function Decode(bytes: seq<Byte>): (text: seq<nat>)
    requires Valid(bytes)
  {
    if bytes == [] then []
    else
      CharLengthMeans(bytes, CharLength(bytes));
      [DecodeChar(bytes[..CharLength(bytes)])] + Decode(bytes[CharLength(bytes)..])
  }

  lemma {:induction false} EncodeCons(c: nat, text: seq<nat>)
    requires Scalar(c) && AllScalars(text)
    ensures AllScalars([c] + text) && Encode([c] + text) == EncodeChar(c) + Encode(text)
  {
  }

  lemma {:induction false} FirstChar(bytes: seq<Byte>) returns (n: nat, c: nat)
    requires Valid(bytes) && bytes != []
    ensures 0 < n <= |bytes| && Valid(bytes[n..]) && Scalar(c) && EncodeChar(c) == bytes[..n]
    ensures Decode(bytes) == [c] + Decode(bytes[n..])
  {
    n := CharLength(bytes);
    CharLengthMeans(bytes, n);
    c := DecodeChar(bytes[..n]);
    DecodedChar(bytes[..n]);
  }

  lemma {:induction false} DecodeThenEncode(bytes: seq<Byte>)
    requires Valid(bytes)
    ensures AllScalars(Decode(bytes)) && Encode(Decode(bytes)) == bytes
  {
    if bytes != [] {
      var n, c := FirstChar(bytes);
      DecodeThenEncode(bytes[n..]);
      EncodeCons(c, Decode(bytes[n..]));
      assert bytes == bytes[..n] + bytes[n..];
    }
  }

  lemma {:induction false} EncodeThenDecode(text: seq<nat>)
    requires AllScalars(text)
    ensures Valid(Encode(text)) && Decode(Encode(text)) == text
  {
    if text != [] {
      EncodedChar(text[0]);
      EncodeThenDecode(text[1..]);
      var bytes, first := Encode(text), EncodeChar(text[0]);
      assert bytes[..|first|] == first && bytes[|first|..] == Encode(text[1..]);
      CharLengthMeans(bytes, |first|);
    }
  }

  /** The check accepts a byte string exactly when it is the encoding of scalar values, and of only one list of them. */
  lemma {:induction false} AcceptedTextIsUnique(bytes: seq<Byte>)
    ensures WellFormed(bytes) <==> exists text :: AllScalars(text) && Encode(text) == bytes
    ensures forall text, other :: AllScalars(text) && AllScalars(other) && Encode(text) == Encode(other) ==>
      text == other
  {
    if WellFormed(bytes) {
      if !Valid(bytes) {
        NotWellFormed(bytes);
      }
      DecodeThenEncode(bytes);
    }
    if text :| AllScalars(text) && Encode(text) == bytes {
      EncodeThenDecode(text);
      var chars := ValidIsConcat(bytes);
    }
    forall text, other | AllScalars(text) && AllScalars(other) && Encode(text) == Encode(other)
      ensures text == other
    {
      EncodeThenDecode(text);
      EncodeThenDecode(other);
    }
  }
}
