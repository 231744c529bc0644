/** Telling UTF-16 without a byte order mark by its zero bytes (detectUTF16WithoutBOM, vfs/codepages.go). */
module Utf16Detect {
  import opened Base
  import Utf16

  datatype Verdict = Utf16Le | Utf16Be | Unknown

  const MIN_BYTES: nat := 16
  const MIN_ZERO_SHARE: nat := 8
  const SIDEDNESS: nat := 8

  /** How many of the pairs have a zero first byte, and a zero second byte; a last odd byte is not looked at. */
  function EvenZeros(data: Bytes): nat {
    if |data| < 2 then 0 else (if data[0] == 0 then 1 else 0) + EvenZeros(data[2..])
  }

  function OddZeros(data: Bytes): nat {
    if |data| < 2 then 0 else (if data[1] == 0 then 1 else 0) + OddZeros(data[2..])
  }

  predicate HasNul(data: Bytes) {
    |data| >= 2 && ((data[0] == 0 && data[1] == 0) || HasNul(data[2..]))
  }

  /** Enough zeros on one side, and far more than on the other. */
  predicate Outweighs(zeros: nat, others: nat, pairs: nat) {
    zeros * MIN_ZERO_SHARE >= pairs && zeros > others * SIDEDNESS
  }

  function Detect(data: Bytes): Verdict {
    if |data| < MIN_BYTES || HasNul(data) then Unknown
    else if Outweighs(OddZeros(data), EvenZeros(data), |data| / 2) then Utf16Le
    else if Outweighs(EvenZeros(data), OddZeros(data), |data| / 2) then Utf16Be
    else Unknown
  }

  lemma {:induction false} FirstPair(data: Bytes)
    requires |data| >= 2
    ensures HasNul(data) <==> (data[0] == 0 && data[1] == 0) || HasNul(data[2..])
    ensures EvenZeros(data) == (if data[0] == 0 then 1 else 0) + EvenZeros(data[2..])
    ensures OddZeros(data) == (if data[1] == 0 then 1 else 0) + OddZeros(data[2..])
  {
  }

  lemma NoPair(data: Bytes)
    requires |data| < 2
    ensures !HasNul(data) && EvenZeros(data) == OddZeros(data) == 0
  {
  }

  lemma Verdicts(data: Bytes)
    ensures |data| < MIN_BYTES || HasNul(data) ==> Detect(data) == Unknown
    ensures |data| >= MIN_BYTES && !HasNul(data) ==>
              var even, odd, pairs := EvenZeros(data), OddZeros(data), |data| / 2;
              Detect(data) == if Outweighs(odd, even, pairs) then Utf16Le
                              else if Outweighs(even, odd, pairs) then Utf16Be else Unknown
  {
  }

  /** What is left to look at, and what was counted before it. */
  predicate IsCounted(data: Bytes, left: Bytes, even: nat, odd: nat) {
    && (HasNul(data) <==> HasNul(left))
    && EvenZeros(data) == even + EvenZeros(left) && OddZeros(data) == odd + OddZeros(left)
  }

  lemma CountPair(data: Bytes, left: Bytes, even: nat, odd: nat)
    requires IsCounted(data, left, even, odd) && |left| >= 2
    ensures left[0] == 0 && left[1] == 0 ==> HasNul(data)
    ensures !(left[0] == 0 && left[1] == 0) ==>
              IsCounted(data, left[2..], even + if left[0] == 0 then 1 else 0, odd + if left[1] == 0 then 1 else 0)
  {
    FirstPair(left);
  }

  method DetectUtf16WithoutBom(data: Bytes) returns (v: Verdict)
    ensures v == Detect(data)
  {
    hide HasNul, EvenZeros, OddZeros, IsCounted, Detect;
    Verdicts(data);
    if |data| < MIN_BYTES {
      return Unknown;
    }
    var pairs := |data| / 2;
    var evenZeros, oddZeros := 0, 0;
    var i := 0;
    assert data[0..] == data;
    NothingCounted(data);
    while i < pairs * 2
      invariant 0 <= i <= pairs * 2 && i % 2 == 0
      invariant IsCounted(data, data[i..], evenZeros, oddZeros)
    {
      assert data[i..][2..] == data[i + 2..] && data[i..][0] == data[i] && data[i..][1] == data[i + 1];
      CountPair(data, data[i..], evenZeros, oddZeros);
      if data[i] == 0 && data[i + 1] == 0 {
        return Unknown;
      }
      if data[i] == 0 {
        evenZeros := evenZeros + 1;
      }
      if data[i + 1] == 0 {
        oddZeros := oddZeros + 1;
      }
      i := i + 2;
    }
    AllCounted(data, data[i..], evenZeros, oddZeros);
    if oddZeros * MIN_ZERO_SHARE >= pairs && oddZeros > evenZeros * SIDEDNESS {
      return Utf16Le;
    }
    if evenZeros * MIN_ZERO_SHARE >= pairs && evenZeros > oddZeros * SIDEDNESS {
      return Utf16Be;
    }
    v := Unknown;
  }

  lemma NothingCounted(data: Bytes)
    ensures IsCounted(data, data, 0, 0)
  {
  }

  lemma AllCounted(data: Bytes, left: Bytes, even: nat, odd: nat)
    requires IsCounted(data, left, even, odd) && |left| < 2
    ensures !HasNul(data) && EvenZeros(data) == even && OddZeros(data) == odd
  {
    NoPair(left);
  }

  // ----- the two byte orders

  /** The bytes of every pair swapped. */
  function Swapped(data: Bytes): (r: Bytes)
    ensures |r| == |data|
  {
    if |data| < 2 then data else [data[1], data[0]] + Swapped(data[2..])
  }

  function Opposite(v: Verdict): Verdict {
    match v
    case Utf16Le => Utf16Be
    case Utf16Be => Utf16Le
    case Unknown => Unknown
  }

  lemma {:induction false} SwappedCounts(data: Bytes)
    ensures EvenZeros(Swapped(data)) == OddZeros(data) && OddZeros(Swapped(data)) == EvenZeros(data)
    ensures HasNul(Swapped(data)) <==> HasNul(data)
  {
    if |data| >= 2 {
      SwappedCounts(data[2..]);
      assert Swapped(data)[2..] == Swapped(data[2..]);
    }
  }

  /** Not both sides can outweigh each other, so it does not matter which is looked at first. */
  lemma OutweighsOneWay(a: nat, b: nat, pairs: nat)
    requires Outweighs(a, b, pairs)
    ensures !Outweighs(b, a, pairs)
  {
  }

  /** The other byte order gives the opposite verdict. */
  lemma SwappedDetect(data: Bytes)
    ensures Detect(Swapped(data)) == Opposite(Detect(data))
  {
    SwappedCounts(data);
    if Outweighs(OddZeros(data), EvenZeros(data), |data| / 2) {
      OutweighsOneWay(OddZeros(data), EvenZeros(data), |data| / 2);
    }
  }

  lemma {:induction false} NoZeros(data: Bytes)
    requires 0 !in data
    ensures EvenZeros(data) == OddZeros(data) == 0
  {
    if |data| >= 2 {
      NoZeros(data[2..]);
    }
  }

  /** Data without zero bytes, such as any 8-bit text, is never taken for UTF-16. */
  lemma NoZerosUnknown(data: Bytes)
    requires 0 !in data
    ensures Detect(data) == Unknown
  {
    NoZeros(data);
  }

  // ----- text

  /** Words below U+0100, and words with a zero low byte. */
  function LowWords(w: seq<Word>): nat {
    if w == [] then 0 else (if w[0] < 0x100 then 1 else 0) + LowWords(w[1..])
  }

  function RoundWords(w: seq<Word>): nat {
    if w == [] then 0 else (if w[0] % 0x100 == 0 then 1 else 0) + RoundWords(w[1..])
  }

  lemma {:induction false} WordCounts(w: seq<Word>)
    ensures OddZeros(Utf16.ToBytes(w)) == LowWords(w) && EvenZeros(Utf16.ToBytes(w)) == RoundWords(w)
    ensures HasNul(Utf16.ToBytes(w)) <==> 0 in w
  {
    if w != [] {
      WordCounts(w[1..]);
      assert Utf16.ToBytes(w)[2..] == Utf16.ToBytes(w[1..]);
      assert w == [w[0]] + w[1..];
    }
  }

  /** Characters below U+0100. */
  function LowChars(text: string): nat {
    if text == "" then 0 else (if text[0] as int < 0x100 then 1 else 0) + LowChars(text[1..])
  }

  lemma {:induction false} LowWordsAppend(a: seq<Word>, b: seq<Word>)
    ensures LowWords(a + b) == LowWords(a) + LowWords(b)
  {
    if a == [] {
      assert a + b == b;
    } else {
      assert (a + b)[0] == a[0] && (a + b)[1..] == a[1..] + b;
      LowWordsAppend(a[1..], b);
    }
  }

  lemma LowWordsOfChar(c: char)
    ensures LowWords(Utf16.EncodeChar(c)) == if c as int < 0x100 then 1 else 0
  {
    var w := Utf16.EncodeChar(c);
    if |w| == 1 {
      assert w[1..] == [];
    } else {
      assert w[1..] == [w[1]] && w[1..][1..] == [];
      assert LowWords([w[1]]) == 0;
    }
  }

  lemma {:induction false} LowCharsAreWords(text: string)
    ensures LowWords(Utf16.Encode(text)) == LowChars(text)
  {
    if text != "" {
      LowCharsAreWords(text[1..]);
      LowWordsAppend(Utf16.EncodeChar(text[0]), Utf16.Encode(text[1..]));
      LowWordsOfChar(text[0]);
    }
  }

  /** Exactly which text is recognised when it is written in UTF-16LE: at least 8 words, no NUL character, an eighth of
      the words characters below U+0100, and these more than 8 times as many as words with a zero low byte. */
  lemma TextDetected(text: string)
    ensures var w := Utf16.Encode(text);
            (Detect(Utf16.ToBytes(w)) == Utf16Le <==>
               |w| >= 8 && 0 as char !in text && LowChars(text) * 8 >= |w| && LowChars(text) > 8 * RoundWords(w))
  {
    var w := Utf16.Encode(text);
    WordCounts(w);
    LowCharsAreWords(text);
    Utf16.EncodeMember(text, 0 as char);
  }
}
