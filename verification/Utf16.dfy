/** The UTF-16 encoding form (RFC 2781, sections 2.1 and 2.2) as Go's unicode/utf16 computes it, and its
    little-endian serialisation. A Dafny char is a Unicode scalar value, so a string is valid Unicode text. */
module Utf16 {
  import opened Base

  /** utf8.RuneError, which stands for what could not be decoded. */
  const RUNE_ERROR: char := 0xFFFD as char

  predicate IsHigh(w: Word) { 0xD800 <= w < 0xDC00 }

  predicate IsLow(w: Word) { 0xDC00 <= w < 0xE000 }

  function EncodeChar(c: char): (words: seq<Word>)
  {
    var v := c as int;
    if v < 0x1_0000 then [v]
    else [0xD800 + (v - 0x1_0000) / 0x400, 0xDC00 + (v - 0x1_0000) % 0x400]
  }

  function Encode(s: string): seq<Word> {
    if s == "" then [] else EncodeChar(s[0]) + Encode(s[1..])
  }

  function Combine(high: Word, low: Word): char
    requires IsHigh(high) && IsLow(low)
  {
    (0x1_0000 + (high - 0xD800) * 0x400 + (low - 0xDC00)) as char
  }

  /** utf16.Decode: a surrogate that is not part of a pair decodes to RUNE_ERROR. */
  function Decode(w: seq<Word>): string {
    if w == [] then ""
    else if IsHigh(w[0]) && |w| > 1 && IsLow(w[1]) then [Combine(w[0], w[1])] + Decode(w[2..])
    else if IsHigh(w[0]) || IsLow(w[0]) then [RUNE_ERROR] + Decode(w[1..])
    else [w[0] as char] + Decode(w[1..])
  }

  lemma DecodeChar(c: char, rest: seq<Word>)
    ensures Decode(EncodeChar(c) + rest) == [c] + Decode(rest)
  {
    var w := EncodeChar(c) + rest;
    if c as int < 0x1_0000 {
      assert w[1..] == rest;
    } else {
      assert w[2..] == rest;
    }
  }

  /** RFC 2781, sections 2.1 and 2.2: decoding undoes encoding on every text. */
  lemma {:induction false} DecodeEncode(s: string)
    ensures Decode(Encode(s)) == s
  {
    if s != "" {
      DecodeChar(s[0], Encode(s[1..]));
      DecodeEncode(s[1..]);
    }
  }

  lemma {:induction false} EncodeAppend(a: string, b: string)
    ensures Encode(a + b) == Encode(a) + Encode(b)
  {
    if a == "" {
      assert a + b == b;
    } else {
      assert (a + b)[0] == a[0] && (a + b)[1..] == a[1..] + b;
      EncodeAppend(a[1..], b);
    }
  }

  /** Words whose decoding shows no replacement character are reproduced exactly by encoding it again. */
  lemma {:induction false} EncodeDecode(w: seq<Word>)
    requires RUNE_ERROR !in Decode(w)
    ensures Encode(Decode(w)) == w
    decreases |w|
  {
    if w == [] {
    } else if IsHigh(w[0]) && |w| > 1 && IsLow(w[1]) {
      assert Decode(w)[1..] == Decode(w[2..]);
      EncodeDecode(w[2..]);
      assert w == [w[0], w[1]] + w[2..];
    } else {
      assert Decode(w)[0] in Decode(w);
      assert Decode(w)[1..] == Decode(w[1..]);
      EncodeDecode(w[1..]);
      assert w == [w[0]] + w[1..];
    }
  }

  /** How many words the first character takes. */
  function FirstLength(w: seq<Word>): (n: nat)
    requires w != []
    ensures n <= |w|
  {
    if IsHigh(w[0]) && |w| > 1 && IsLow(w[1]) then 2 else 1
  }

  lemma DecodeFirst(w: seq<Word>)
    requires w != []
    ensures var n := FirstLength(w); Decode(w) == Decode(w[..n]) + Decode(w[n..])
  {
    hide Combine;
    var n := FirstLength(w);
    var first := w[..n];
    assert first[n..] == [];
  }

  lemma FirstOfBoth(a: seq<Word>, b: seq<Word>)
    requires a != [] && !(b != [] && IsHigh(a[|a| - 1]) && IsLow(b[0]))
    ensures var n := FirstLength(a);
            && FirstLength(a + b) == n && (a + b)[n..] == a[n..] + b && (a + b)[..n] == a[..n]
            && |a[n..]| < |a| && (a[n..] != [] ==> a[n..][|a[n..]| - 1] == a[|a| - 1])
  {
  }

  /** Words are decoded piece by piece, unless a pair of surrogates is cut; a surrogate by itself is one replacement
      character. */
  lemma {:induction false} DecodeAppend(a: seq<Word>, b: seq<Word>)
    requires !(a != [] && b != [] && IsHigh(a[|a| - 1]) && IsLow(b[0]))
    ensures Decode(a + b) == Decode(a) + Decode(b)
    decreases |a|
  {
    if a == [] {
      assert a + b == b;
    } else {
      hide Decode, FirstLength, IsHigh, IsLow;
      var n := FirstLength(a);
      FirstOfBoth(a, b);
      DecodeFirst(a);
      DecodeFirst(a + b);
      DecodeAppend(a[n..], b);
      Assoc(Decode(a[..n]), Decode(a[n..]), Decode(b));
    }
  }

  lemma DecodeOne(w: Word)
    ensures Decode([w]) == if 0xD800 <= w < 0xE000 then [0xFFFD as char] else [w as char]
  {
    assert [w][1..] == [];
  }

  /** A character below U+10000 occurs in the text exactly when its word occurs in the encoding, apart from
      surrogates. */
  lemma {:induction false} EncodeMember(s: string, c: char)
    requires c as int < 0xD800
    ensures c in s <==> c as int in Encode(s)
  {
    if s != "" {
      EncodeMember(s[1..], c);
      assert s == [s[0]] + s[1..];
      assert c as int in EncodeChar(s[0]) <==> c == s[0];
    }
  }

  /** The word at byte i, low byte first. */
  function WordAt(b: seq<Byte>, i: nat): Word
    requires i + 1 < |b|
  {
    b[i] as int + 0x100 * (b[i + 1] as int)
  }

  /** The words as bytes, low byte first. */
  function ToBytes(w: seq<Word>): (bytes: seq<Byte>)
    ensures |bytes| == 2 * |w|
  {
    if w == [] then [] else [w[0] % 0x100, w[0] / 0x100] + ToBytes(w[1..])
  }

  /** The little-endian words of the bytes; a last odd byte is not part of any. */
  function FromBytes(b: seq<Byte>): (w: seq<Word>)
    ensures |w| == |b| / 2
  {
    if |b| < 2 then [] else [WordAt(b, 0)] + FromBytes(b[2..])
  }

  lemma {:induction false} FromToBytes(w: seq<Word>)
    ensures FromBytes(ToBytes(w)) == w
  {
    if w != [] {
      FromToBytes(w[1..]);
      assert ToBytes(w)[2..] == ToBytes(w[1..]);
    }
  }

  lemma {:induction false} ToFromBytes(b: seq<Byte>)
    requires |b| % 2 == 0
    ensures ToBytes(FromBytes(b)) == b
  {
    if b != [] {
      ToFromBytes(b[2..]);
      assert b == [b[0], b[1]] + b[2..];
      assert FromBytes(b)[1..] == FromBytes(b[2..]);
    }
  }

  lemma {:induction false} ToBytesAppend(a: seq<Word>, b: seq<Word>)
    ensures ToBytes(a + b) == ToBytes(a) + ToBytes(b)
  {
    if a == [] {
      assert a + b == b;
    } else {
      assert (a + b)[0] == a[0] && (a + b)[1..] == a[1..] + b;
      ToBytesAppend(a[1..], b);
    }
  }

  lemma {:induction false} FromBytesAt(b: seq<Byte>, k: nat)
    requires 2 * k + 1 < |b|
    ensures FromBytes(b)[k] == WordAt(b, 2 * k)
  {
    if k > 0 {
      FromBytesAt(b[2..], k - 1);
    }
  }

  lemma ToBytesSnoc(w: seq<Word>, x: Word)
    ensures ToBytes(w + [x]) == ToBytes(w) + [x % 0x100, x / 0x100]
  {
    ToBytesAppend(w, [x]);
    assert [x][1..] == [];
    assert ToBytes([x]) == [x % 0x100, x / 0x100] + ToBytes([]);
  }

  /** binary.LittleEndian.PutUint16 for every word in turn, from offset at on. */
  method PutWords(out: array<Byte>, at: nat, words: seq<Word>)
    requires at + 2 * |words| <= out.Length
    modifies out
    ensures out[..at] == old(out[..at])
    ensures out[at..at + 2 * |words|] == ToBytes(words)
    ensures out[at + 2 * |words|..] == old(out[at + 2 * |words|..])
  {
    for i := 0 to |words|
      invariant out[..at] == old(out[..at])
      invariant out[at..at + 2 * i] == ToBytes(words[..i])
      invariant out[at + 2 * |words|..] == old(out[at + 2 * |words|..])
    {
      ToBytesSnoc(words[..i], words[i]);
      assert words[..i] + [words[i]] == words[..i + 1];
      var o := at + 2 * i;
      out[o], out[o + 1] := words[i] % 0x100, words[i] / 0x100;
      assert out[at..o + 2] == out[at..o] + [out[o], out[o + 1]];
    }
    assert words[..|words|] == words;
  }
}
