/** Searching the contents of files for a text, with case (findQueryMatcher.hasMatch and OSVFS.findFileContains,
    vfs/os_vfs_search.go). */
module Search {
  import opened Base
  import Utf8

  /** isFindWordRune: which characters make up words. */
  type IsWord = char -> bool

  predicate OccursAt(data: Bytes, needle: Bytes, at: nat) {
    at + |needle| <= |data| && data[at..at + |needle|] == needle
  }

  predicate Occurs(data: Bytes, needle: Bytes) {
    exists at :: 0 <= at <= |data| && OccursAt(data, needle, at)
  }

  // ----- neighbours of an occurrence

  /** Where utf8.DecodeLastRune looks for the start of the last character: at the nearest byte that can start one, going
      down from start, or just below the limit. */
  function LastStart(b: Bytes, start: int, limit: nat): (r: int)
    requires limit - 1 <= start < |b|
    ensures limit - 1 <= r <= start
    decreases start
  {
    if start < limit || !Utf8.IsContinuation(b[start]) then start else LastStart(b, start - 1, limit)
  }

  /** utf8.DecodeLastRune */
  function LastRune(b: Bytes): char
    requires b != []
  {
    if b[|b| - 1] < 0x80 then b[|b| - 1] as char
    else
      var limit := if |b| > 4 then |b| - 4 else 0;
      var found := LastStart(b, |b| - 2, limit);
      var start := if found < 0 then 0 else found;
      var r := Utf8.DecodeRune(b[start..]);
      if start + r.size == |b| then r.c else Utf8.RUNE_ERROR
  }

  lemma EncodeCharShape(c: char)
    ensures var e := Utf8.EncodeChar(c);
            && !Utf8.IsContinuation(e[0]) && (|e| == 1 <==> e[0] < 0x80)
            && forall i :: 1 <= i < |e| ==> Utf8.IsContinuation(e[i])
  {
  }

  lemma {:induction false} LastStartFound(b: Bytes, start: int, limit: nat, lead: nat)
    requires limit <= lead <= start < |b| && !Utf8.IsContinuation(b[lead])
    requires forall i :: lead < i <= start ==> Utf8.IsContinuation(b[i])
    ensures LastStart(b, start, limit) == lead
    decreases start
  {
    if start > lead {
      LastStartFound(b, start - 1, limit, lead);
    }
  }

  /** Whatever precedes a character in UTF-8, it is decoded as the last one. */
  lemma LastRuneOf(before: Bytes, c: char)
    ensures LastRune(before + Utf8.EncodeChar(c)) == c
  {
    var e := Utf8.EncodeChar(c);
    var b := before + e;
    EncodeCharShape(c);
    Utf8.DecodeEncodeChar(c, []);
    assert e + [] == e;
    if |e| > 1 {
      assert forall i :: 0 <= i < |e| ==> b[|before| + i] == e[i];
      LastStartFound(b, |b| - 2, if |b| > 4 then |b| - 4 else 0, |before|);
      assert b[|before|..] == e;
    }
  }

  predicate WordBefore(isWord: IsWord, data: Bytes, at: nat)
    requires at <= |data|
  {
    at > 0 && isWord(LastRune(data[..at]))
  }

  predicate WordAfter(isWord: IsWord, data: Bytes, at: nat)
    requires at <= |data|
  {
    at < |data| && isWord(Utf8.DecodeRune(data[at..]).c)
  }

  /** findWholeWord */
  predicate IsWholeWord(isWord: IsWord, data: Bytes, start: nat, end: nat)
    requires start <= |data| && end <= |data|
  {
    !WordBefore(isWord, data, start) && !WordAfter(isWord, data, end)
  }

  datatype Query = Query(needle: Bytes, wholeWords: bool, notContaining: bool)

  predicate IsMatch(isWord: IsWord, q: Query, data: Bytes, at: nat) {
    OccursAt(data, q.needle, at) && (q.wholeWords ==> IsWholeWord(isWord, data, at, at + |q.needle|))
  }

  /** Some occurrence, overlapping ones included, is a match. */
  predicate Matches(isWord: IsWord, q: Query, data: Bytes) {
    exists at :: 0 <= at <= |data| && IsMatch(isWord, q, data, at)
  }

  // ----- one buffer

  /** strings.Index: the first occurrence. */
  method Index(data: Bytes, needle: Bytes) returns (r: Option<nat>)
    ensures r == None ==> forall at :: 0 <= at <= |data| ==> !OccursAt(data, needle, at)
    ensures r.Some? ==>
              OccursAt(data, needle, r.value) && forall at :: 0 <= at < r.value ==> !OccursAt(data, needle, at)
  {
    for at := 0 to |data| + 1
      invariant forall k :: 0 <= k < at ==> !OccursAt(data, needle, k)
    {
      if at + |needle| <= |data| && data[at..at + |needle|] == needle {
        return Some(at);
      }
    }
    r := None;
  }

  lemma OccursBehind(data: Bytes, needle: Bytes, from: nat, k: nat)
    requires from <= |data|
    ensures OccursAt(data[from..], needle, k) <==> OccursAt(data, needle, from + k)
  {
    if from + k + |needle| <= |data| {
      assert data[from..][k..k + |needle|] == data[from + k..from + k + |needle|];
    }
  }

  /** The first occurrence at or behind from. */
  method IndexFrom(data: Bytes, needle: Bytes, from: nat) returns (r: Option<nat>)
    requires from <= |data|
    ensures r == None ==> forall at :: from <= at <= |data| ==> !OccursAt(data, needle, at)
    ensures r.Some? ==> from <= r.value && OccursAt(data, needle, r.value)
    ensures r.Some? ==> forall at :: from <= at < r.value ==> !OccursAt(data, needle, at)
  {
    var next := Index(data[from..], needle);
    forall at | from <= at <= |data|
      ensures OccursAt(data, needle, at) <==> OccursAt(data[from..], needle, at - from)
    {
      OccursBehind(data, needle, from, at - from);
    }
    r := if next.Some? then Some(from + next.value) else None;
  }

  predicate NoneBefore(isWord: IsWord, q: Query, data: Bytes, n: nat) {
    forall at :: 0 <= at < n && at <= |data| ==> !IsMatch(isWord, q, data, at)
  }

  lemma NoneFurther(isWord: IsWord, q: Query, data: Bytes, from: nat, to: nat)
    requires NoneBefore(isWord, q, data, from)
    requires forall at :: from <= at < to && at <= |data| ==> !OccursAt(data, q.needle, at)
    ensures NoneBefore(isWord, q, data, to)
  {
  }

  lemma NotHere(isWord: IsWord, q: Query, data: Bytes, at: nat)
    requires NoneBefore(isWord, q, data, at) && (at <= |data| ==> !IsMatch(isWord, q, data, at))
    ensures NoneBefore(isWord, q, data, at + 1)
  {
  }

  /** hasMatch for a literal query with case: it tries every occurrence. */
  method HasMatch(isWord: IsWord, q: Query, data: Bytes) returns (found: bool)
    ensures found <==> Matches(isWord, q, data)
  {
    var from := 0;
    while from <= |data|
      invariant from <= |data| + 1 && NoneBefore(isWord, q, data, from)
    {
      var next := IndexFrom(data, q.needle, from);
      if next == None {
        NoneFurther(isWord, q, data, from, |data| + 1);
        return false;
      }
      var at := next.value;
      NoneFurther(isWord, q, data, from, at);
      if !q.wholeWords || IsWholeWord(isWord, data, at, at + |q.needle|) {
        assert IsMatch(isWord, q, data, at);
        return true;
      }
      NotHere(isWord, q, data, at);
      from := at + 1;
    }
    found := false;
  }

  // ----- what a search in bytes means for UTF-8 text

  /** The word is in the text at character i; as a whole word it has no word character next to it. */
  predicate IsTextMatch(isWord: IsWord, wholeWords: bool, text: string, word: string, i: nat) {
    && i + |word| <= |text| && text[i..i + |word|] == word
    && (wholeWords ==>
          && (i > 0 ==> !isWord(text[i - 1]))
          && (i + |word| < |text| ==> !isWord(text[i + |word|])))
  }

  lemma {:induction false} PrefixOfEncoding(word: string, text: string)
    requires Utf8.Encode(word) <= Utf8.Encode(text)
    ensures word <= text
    decreases |word|
  {
    hide Utf8.EncodeChar, Utf8.DecodeRune;
    if word != "" {
      var e, rest := Utf8.EncodeChar(word[0]), Utf8.Encode(word[1..]);
      assert text != "";
      var more := Utf8.Encode(text)[|e|..];
      assert e == Utf8.Encode(word)[..|e|] == Utf8.Encode(text)[..|e|];
      assert Utf8.Encode(text) == e + more;
      Utf8.DecodeEncodeChar(word[0], more);
      Utf8.DecodeEncodeChar(text[0], Utf8.Encode(text[1..]));
      assert Utf8.Encode(word)[|e|..] == rest;
      PrefixOfEncoding(word[1..], text[1..]);
    }
  }

  lemma OffsetStep(text: string, j: nat)
    requires j < |text|
    ensures |Utf8.Encode(text[..j + 1])| == |Utf8.EncodeChar(text[0])| + |Utf8.Encode(text[1..][..j])|
  {
    assert text[..j + 1] == [text[0]] + text[1..][..j];
  }

  lemma EncodeRest(text: string)
    requires text != ""
    ensures |Utf8.EncodeChar(text[0])| <= |Utf8.Encode(text)|
    ensures Utf8.Encode(text)[|Utf8.EncodeChar(text[0])|..] == Utf8.Encode(text[1..])
    ensures forall at :: 0 < at < |Utf8.EncodeChar(text[0])| ==> Utf8.IsContinuation(Utf8.Encode(text)[at])
  {
    EncodeCharShape(text[0]);
  }

  lemma {:induction false} NotInsideCharacter(text: string, word: string, at: nat)
    requires word != "" && OccursAt(Utf8.Encode(text), Utf8.Encode(word), at) && at > 0
    ensures text != "" && at >= |Utf8.EncodeChar(text[0])|
    ensures OccursAt(Utf8.Encode(text[1..]), Utf8.Encode(word), at - |Utf8.EncodeChar(text[0])|)
  {
    var data, needle := Utf8.Encode(text), Utf8.Encode(word);
    EncodeCharShape(word[0]);
    assert needle[0] == data[at];
    EncodeRest(text);
    OccursBehind(data, needle, |Utf8.EncodeChar(text[0])|, at - |Utf8.EncodeChar(text[0])|);
  }

  /** An occurrence of encoded text starts at a character. */
  lemma {:induction false} OccursAtCharacter(text: string, word: string, at: nat) returns (i: nat)
    requires word != "" && OccursAt(Utf8.Encode(text), Utf8.Encode(word), at)
    ensures i + |word| <= |text| && text[i..i + |word|] == word && |Utf8.Encode(text[..i])| == at
    decreases |text|
  {
    if at == 0 {
      PrefixOfEncoding(word, text);
      assert text[..|word|] == word;
      i := 0;
    } else {
      NotInsideCharacter(text, word, at);
      var j := OccursAtCharacter(text[1..], word, at - |Utf8.EncodeChar(text[0])|);
      i := j + 1;
      assert text[1..][j..j + |word|] == text[i..i + |word|];
      OffsetStep(text, j);
    }
  }

  lemma EncodedParts(before: string, word: string, behind: string)
    ensures var data := Utf8.Encode(before + word + behind);
            var at := |Utf8.Encode(before)|;
            && data == Utf8.Encode(before) + Utf8.Encode(word) + Utf8.Encode(behind)
            && OccursAt(data, Utf8.Encode(word), at)
            && data[..at] == Utf8.Encode(before) && data[at + |Utf8.Encode(word)|..] == Utf8.Encode(behind)
  {
    Utf8.EncodeAppend(before + word, behind);
    Utf8.EncodeAppend(before, word);
  }

  lemma EncodeSnoc(init: string, c: char)
    ensures Utf8.Encode(init + [c]) == Utf8.Encode(init) + Utf8.EncodeChar(c)
  {
    Utf8.EncodeAppend(init, [c]);
    assert [c][1..] == "";
    assert Utf8.Encode([c]) == Utf8.EncodeChar(c) + [];
  }

  lemma LastOfEncoding(before: string)
    requires before != ""
    ensures Utf8.Encode(before) != [] && LastRune(Utf8.Encode(before)) == before[|before| - 1]
  {
    var init, c := before[..|before| - 1], before[|before| - 1];
    assert before == init + [c];
    EncodeSnoc(init, c);
    LastRuneOf(Utf8.Encode(init), c);
  }

  lemma FirstOfEncoding(behind: string)
    requires behind != ""
    ensures Utf8.Encode(behind) != [] && Utf8.DecodeRune(Utf8.Encode(behind)).c == behind[0]
  {
    Utf8.DecodeEncodeChar(behind[0], Utf8.Encode(behind[1..]));
  }

  /** At a character the match in bytes is the match in text. */
  lemma MatchAtCharacter(isWord: IsWord, q: Query, text: string, word: string, i: nat)
    requires q.needle == Utf8.Encode(word) && i + |word| <= |text| && text[i..i + |word|] == word
    ensures IsMatch(isWord, q, Utf8.Encode(text), |Utf8.Encode(text[..i])|)
        <==> IsTextMatch(isWord, q.wholeWords, text, word, i)
  {
    var before, behind := text[..i], text[i + |word|..];
    assert text == before + word + behind;
    EncodedParts(before, word, behind);
    if before != "" {
      LastOfEncoding(before);
    }
    if behind != "" {
      FirstOfEncoding(behind);
    }
  }

  /** In UTF-8 text the search finds exactly the words that are there. */
  lemma MatchesText(isWord: IsWord, q: Query, text: string, word: string)
    requires word != "" && q.needle == Utf8.Encode(word)
    ensures Matches(isWord, q, Utf8.Encode(text))
        <==> exists i :: 0 <= i <= |text| && IsTextMatch(isWord, q.wholeWords, text, word, i)
  {
    var data := Utf8.Encode(text);
    if Matches(isWord, q, data) {
      var at :| 0 <= at <= |data| && IsMatch(isWord, q, data, at);
      var i := OccursAtCharacter(text, word, at);
      MatchAtCharacter(isWord, q, text, word, i);
    }
    if i :| 0 <= i <= |text| && IsTextMatch(isWord, q.wholeWords, text, word, i) {
      MatchAtCharacter(isWord, q, text, word, i);
    }
  }
}
