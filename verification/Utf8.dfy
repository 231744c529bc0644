/** UTF-8 (section 3 of RFC 3629) as Go's unicode/utf8 reads and writes it. */
module Utf8 {
  import opened Base

  /** utf8.RuneError, what an invalid byte decodes to. */
  const RUNE_ERROR: char := 0xFFFD as char

  predicate IsContinuation(b: Byte) { 0x80 <= b < 0xC0 }

  /** The character's bits in groups of six, the last group in the last byte. */
  function EncodeChar(c: char): (bytes: seq<Byte>)
    ensures 1 <= |bytes| <= 4
  {
    var v := c as int;
    var v1 := v / 0x40;
    var v2 := v1 / 0x40;
    if v < 0x80 then [v]
    else if v < 0x800 then [0xC0 + v1, 0x80 + v % 0x40]
    else if v < 0x1_0000 then [0xE0 + v2, 0x80 + v1 % 0x40, 0x80 + v % 0x40]
    else [0xF0 + v2 / 0x40, 0x80 + v2 % 0x40, 0x80 + v1 % 0x40, 0x80 + v % 0x40]
  }

  function Encode(s: string): seq<Byte> {
    if s == "" then [] else EncodeChar(s[0]) + Encode(s[1..])
  }

  /** The result of utf8.DecodeRune: an invalid start is RUNE_ERROR of size 1. */
  datatype Rune = Rune(c: char, size: nat, valid: bool)

  const INVALID := Rune(RUNE_ERROR, 1, false)

  predicate IsPair(b: seq<Byte>) {
    |b| >= 2 && 0xC2 <= b[0] < 0xE0 && IsContinuation(b[1])
  }

  predicate IsTriple(b: seq<Byte>) {
    && |b| >= 3 && 0xE0 <= b[0] < 0xF0 && IsContinuation(b[1]) && IsContinuation(b[2])
    && (b[0] == 0xE0 ==> b[1] >= 0xA0)
    && (b[0] == 0xED ==> b[1] < 0xA0)
  }

  predicate IsQuadruple(b: seq<Byte>) {
    && |b| >= 4 && 0xF0 <= b[0] < 0xF5 && IsContinuation(b[1]) && IsContinuation(b[2]) && IsContinuation(b[3])
    && (b[0] == 0xF0 ==> b[1] >= 0x90)
    && (b[0] == 0xF4 ==> b[1] < 0x90)
  }

  /** Six more bits, from a continuation byte. */
  function Extend(v: nat, b: Byte): nat
    requires IsContinuation(b)
  {
    0x40 * v + (b as int - 0x80)
  }

  function PairValue(b: seq<Byte>): char
    requires IsPair(b)
  {
    Extend(b[0] as int - 0xC0, b[1]) as char
  }

  function TripleValue(b: seq<Byte>): char
    requires IsTriple(b)
  {
    Extend(Extend(b[0] as int - 0xE0, b[1]), b[2]) as char
  }

  function QuadrupleValue(b: seq<Byte>): char
    requires IsQuadruple(b)
  {
    Extend(Extend(Extend(b[0] as int - 0xF0, b[1]), b[2]), b[3]) as char
  }

  function DecodeRune(b: seq<Byte>): (r: Rune)
    requires b != []
    ensures 1 <= r.size <= |b|
  {
    if b[0] < 0x80 then Rune(b[0] as char, 1, true)
    else if IsPair(b) then Rune(PairValue(b), 2, true)
    else if IsTriple(b) then Rune(TripleValue(b), 3, true)
    else if IsQuadruple(b) then Rune(QuadrupleValue(b), 4, true)
    else INVALID
  }

  /** utf8.Valid */
  predicate Valid(b: seq<Byte>) {
    b == [] || (DecodeRune(b).valid && Valid(b[DecodeRune(b).size..]))
  }

  /** The conversion []rune(b): every invalid byte becomes one RUNE_ERROR. */
  function Runes(b: seq<Byte>): string
  {
    if b == [] then "" else [DecodeRune(b).c] + Runes(b[DecodeRune(b).size..])
  }

  lemma ExtendDigits(v: nat, b: Byte)
    requires IsContinuation(b)
    ensures Extend(v, b) / 0x40 == v && 0x80 + Extend(v, b) % 0x40 == b
  {
  }

  lemma DigitsExtend(v: nat)
    ensures Extend(v / 0x40, 0x80 + v % 0x40) == v
  {
  }

  /** The encoding of a character is read back as that character, whatever follows it. */
  lemma DecodeEncodeChar(c: char, rest: seq<Byte>)
    ensures DecodeRune(EncodeChar(c) + rest) == Rune(c, |EncodeChar(c)|, true)
    ensures (EncodeChar(c) + rest)[|EncodeChar(c)|..] == rest
  {
    var b := EncodeChar(c) + rest;
    var v := c as int;
    var v1 := v / 0x40;
    var v2 := v1 / 0x40;
    DigitsExtend(v);
    DigitsExtend(v1);
    DigitsExtend(v2);
    if v < 0x80 {
    } else if v < 0x800 {
      assert IsPair(b);
    } else if v < 0x1_0000 {
      assert b[0] == 0xE0 + v2 && b[1] == 0x80 + v1 % 0x40 && b[2] == 0x80 + v % 0x40;
      assert IsTriple(b);
    } else {
      assert b[0] == 0xF0 + v2 / 0x40 && b[1] == 0x80 + v2 % 0x40;
      assert b[2] == 0x80 + v1 % 0x40 && b[3] == 0x80 + v % 0x40;
      assert IsQuadruple(b);
    }
  }

  /** A valid character at the start of the bytes is spelled by exactly its encoding. */
  lemma EncodeDecodeRune(b: seq<Byte>)
    requires b != [] && DecodeRune(b).valid
    ensures EncodeChar(DecodeRune(b).c) == b[..DecodeRune(b).size]
  {
    var r := DecodeRune(b);
    if r.size == 1 {
    } else if r.size == 2 {
      ExtendDigits(b[0] as int - 0xC0, b[1]);
    } else if r.size == 3 {
      ExtendDigits(b[0] as int - 0xE0, b[1]);
      ExtendDigits(Extend(b[0] as int - 0xE0, b[1]), b[2]);
    } else {
      ExtendDigits(b[0] as int - 0xF0, b[1]);
      ExtendDigits(Extend(b[0] as int - 0xF0, b[1]), b[2]);
      ExtendDigits(Extend(Extend(b[0] as int - 0xF0, b[1]), b[2]), b[3]);
    }
  }

  /** What starts with the encoding of a character is decoded as that, and anything else as one invalid byte. */
  lemma RuneExactly(b: seq<Byte>)
    requires b != []
    ensures forall c :: EncodeChar(c) <= b ==> DecodeRune(b) == Rune(c, |EncodeChar(c)|, true)
    ensures (forall c :: !(EncodeChar(c) <= b)) ==> DecodeRune(b) == Rune(0xFFFD as char, 1, false)
  {
    hide EncodeChar;
    forall c | EncodeChar(c) <= b
      ensures DecodeRune(b) == Rune(c, |EncodeChar(c)|, true)
    {
      hide DecodeRune;
      DecodeEncodeChar(c, b[|EncodeChar(c)|..]);
      assert b == EncodeChar(c) + b[|EncodeChar(c)|..];
    }
    if DecodeRune(b).valid {
      EncodeDecodeRune(b);
      assert EncodeChar(DecodeRune(b).c) <= b;
    }
  }

  lemma {:induction false} EncodeValid(s: string)
    ensures Valid(Encode(s)) && Runes(Encode(s)) == s
  {
    if s != "" {
      DecodeEncodeChar(s[0], Encode(s[1..]));
      EncodeValid(s[1..]);
    }
  }

  lemma {:induction false} EncodeAppend(a: string, b: string)
    ensures Encode(a + b) == Encode(a) + Encode(b)
  {
    if a == "" {
      assert a + b == b;
    } else {
      assert (a + b)[0] == a[0] && (a + b)[1..] == a[1..] + b;
      EncodeAppend(a[1..], b);
    }
  }
}
