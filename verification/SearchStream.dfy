/** Searching a file that is read in portions (OSVFS.findFileContains, vfs/os_vfs_search.go): what the loop answers, and
    exactly when that is the answer for the file. */
module SearchStream {
  import opened Base
  import opened Search
  import Utf8

  /** How a file ends: at its end or with a read error. */
  datatype End = Eof | ReadError

  function Overlap(needle: Bytes): nat { |needle| + 4 }

  /** The end of a text, at most n bytes of it. */
  function Tail(data: Bytes, n: nat): (r: Bytes)
    ensures |r| == Min(|data|, n)
  {
    data[|data| - Min(|data|, n)..]
  }

  /** What is searched when portion i has come: the carried tail of the portions before it, and the portion. */
  function Window(needle: Bytes, portions: seq<Bytes>, i: nat): Bytes
    requires i < |portions|
  {
    Tail(Flatten(portions[..i]), Overlap(needle)) + portions[i]
  }

  predicate FoundIn(isWord: IsWord, q: Query, portions: seq<Bytes>, i: nat)
    requires i < |portions|
  {
    portions[i] != [] && Matches(isWord, q, Window(q.needle, portions, i))
  }

  /** What the loop finds in the portions. */
  predicate Found(isWord: IsWord, q: Query, portions: seq<Bytes>) {
    exists i :: 0 <= i < |portions| && FoundIn(isWord, q, portions, i)
  }

  lemma NextTail(needle: Bytes, portions: seq<Bytes>, i: nat)
    requires i < |portions|
    ensures var n, data := Overlap(needle), Window(needle, portions, i);
            Tail(Flatten(portions[..i + 1]), n) == if |data| > n then data[|data| - n..] else data
  {
    FlattenSnoc(portions[..i], portions[i]);
    assert portions[..i + 1] == portions[..i] + [portions[i]];
    TailOfTail(Flatten(portions[..i]), portions[i], Overlap(needle));
  }

  lemma TailOfTail(data: Bytes, more: Bytes, n: nat)
    ensures Tail(Tail(data, n) + more, n) == Tail(data + more, n)
  {
  }

  /** Nothing is found in the first i windows, and carry is what is kept for the next. */
  predicate NothingYet(isWord: IsWord, q: Query, portions: seq<Bytes>, i: nat, carry: Bytes) {
    && i <= |portions| && carry == Tail(Flatten(portions[..i]), Overlap(q.needle))
    && forall k :: 0 <= k < i ==> !FoundIn(isWord, q, portions, k)
  }

  lemma NextWindow(isWord: IsWord, q: Query, portions: seq<Bytes>, i: nat, carry: Bytes)
    requires NothingYet(isWord, q, portions, i, carry) && i < |portions| && portions[i] != []
    ensures var n, data := Overlap(q.needle), carry + portions[i];
            if Matches(isWord, q, data) then Found(isWord, q, portions)
            else NothingYet(isWord, q, portions, i + 1, if |data| > n then data[|data| - n..] else data)
  {
    NextTail(q.needle, portions, i);
    assert FoundIn(isWord, q, portions, i) <==> Matches(isWord, q, carry + portions[i]);
    if !FoundIn(isWord, q, portions, i) {
      StillNothing(isWord, q, portions, i, carry, Tail(Flatten(portions[..i + 1]), Overlap(q.needle)));
    }
  }

  lemma StillNothing(isWord: IsWord, q: Query, portions: seq<Bytes>, i: nat, carry: Bytes, next: Bytes)
    requires NothingYet(isWord, q, portions, i, carry) && i < |portions| && !FoundIn(isWord, q, portions, i)
    requires next == Tail(Flatten(portions[..i + 1]), Overlap(q.needle))
    ensures NothingYet(isWord, q, portions, i + 1, next)
  {
  }

  lemma EmptyWindow(isWord: IsWord, q: Query, portions: seq<Bytes>, i: nat, carry: Bytes)
    requires NothingYet(isWord, q, portions, i, carry) && i < |portions| && portions[i] == []
    ensures NothingYet(isWord, q, portions, i + 1, carry)
  {
    NextTail(q.needle, portions, i);
    assert carry + [] == carry;
  }

  /** findFileContains: whether something is found in some window, or that turned round. A read error hides what is
      behind it, but what was found before it counts. */
  method FindFileContains(isWord: IsWord, q: Query, portions: seq<Bytes>, end: End) returns (r: Option<bool>)
    requires q.needle != []
    ensures Found(isWord, q, portions) ==> r == Some(!q.notContaining)
    ensures !Found(isWord, q, portions) ==> r == if end == Eof then Some(q.notContaining) else None
  {
    var overlap := Overlap(q.needle);
    var carry: Bytes := [];
    for i := 0 to |portions|
      invariant NothingYet(isWord, q, portions, i, carry)
    {
      if portions[i] == [] {
        EmptyWindow(isWord, q, portions, i, carry);
      } else {
        NextWindow(isWord, q, portions, i, carry);
        var data := carry + portions[i];
        var found := HasMatch(isWord, q, data);
        if found {
          return Some(!q.notContaining);
        }
        carry := if |data| > overlap then data[|data| - overlap..] else data;
      }
    }
    r := if end == Eof then Some(q.notContaining) else None;
  }

  // ----- neighbours seen from inside a window

  lemma RuneSpelled(b: Bytes)
    requires b != [] && Utf8.DecodeRune(b).c != Utf8.RUNE_ERROR
    ensures Utf8.EncodeChar(Utf8.DecodeRune(b).c) == b[..Utf8.DecodeRune(b).size]
  {
    assert Utf8.DecodeRune(b).valid;
    Utf8.EncodeDecodeRune(b);
  }

  /** A decoded first character is spelled at the start of the bytes. */
  lemma FirstRuneStarts(b: Bytes)
    requires b != [] && Utf8.DecodeRune(b).c != Utf8.RUNE_ERROR
    ensures var e := Utf8.EncodeChar(Utf8.DecodeRune(b).c); |e| <= |b| && b[..|e|] == e
  {
    RuneSpelled(b);
  }

  lemma LastDecoded(b: Bytes) returns (start: nat)
    requires b != [] && b[|b| - 1] >= 0x80 && LastRune(b) != Utf8.RUNE_ERROR
    ensures start < |b| && LastRune(b) == Utf8.DecodeRune(b[start..]).c
    ensures start + Utf8.DecodeRune(b[start..]).size == |b|
  {
    var found := LastStart(b, |b| - 2, if |b| > 4 then |b| - 4 else 0);
    start := if found < 0 then 0 else found;
  }

  /** A decoded last character is spelled at the end of the bytes. */
  lemma LastRuneEnds(b: Bytes)
    requires b != [] && LastRune(b) != Utf8.RUNE_ERROR
    ensures var e := Utf8.EncodeChar(LastRune(b)); |e| <= |b| && b[|b| - |e|..] == e
  {
    if b[|b| - 1] < 0x80 {
      assert Utf8.EncodeChar(b[|b| - 1] as char) == [b[|b| - 1]];
    } else {
      var start := LastDecoded(b);
      RuneSpelled(b[start..]);
      assert b[start..][..|b| - start] == b[start..];
    }
  }

  /** The last character decoded from some bytes is the last one behind any others, too. */
  lemma LastBehind(a: Bytes, u: Bytes)
    requires u != [] && LastRune(u) != Utf8.RUNE_ERROR
    ensures LastRune(a + u) == LastRune(u) && |u| >= |Utf8.EncodeChar(LastRune(u))|
  {
    LastRuneEnds(u);
    var e := Utf8.EncodeChar(LastRune(u));
    assert a + u == (a + u[..|u| - |e|]) + e;
    LastRuneOf(a + u[..|u| - |e|], LastRune(u));
  }

  lemma LastWithin(a: Bytes, u: Bytes)
    requires a + u != [] && LastRune(a + u) != Utf8.RUNE_ERROR && |u| >= |Utf8.EncodeChar(LastRune(a + u))|
    ensures u != [] && LastRune(u) == LastRune(a + u)
  {
    LastRuneEnds(a + u);
    var c := LastRune(a + u);
    var e := Utf8.EncodeChar(c);
    assert (a + u)[|a + u| - |e|..] == u[|u| - |e|..];
    assert u == u[..|u| - |e|] + e;
    LastRuneOf(u[..|u| - |e|], c);
  }

  /** Behind other bytes the same last character is seen if and only if it lies within. */
  lemma LastSeen(isWord: IsWord, a: Bytes, u: Bytes)
    requires !isWord(Utf8.RUNE_ERROR)
    ensures u != [] && isWord(LastRune(u))
        <==> a + u != [] && isWord(LastRune(a + u)) && |u| >= |Utf8.EncodeChar(LastRune(a + u))|
  {
    if u != [] && isWord(LastRune(u)) {
      LastBehind(a, u);
    }
    if a + u != [] && isWord(LastRune(a + u)) && |u| >= |Utf8.EncodeChar(LastRune(a + u))| {
      LastWithin(a, u);
    }
  }

  lemma FirstSeen(isWord: IsWord, u: Bytes, b: Bytes)
    requires !isWord(Utf8.RUNE_ERROR)
    ensures u != [] && isWord(Utf8.DecodeRune(u).c)
        <==> u + b != [] && isWord(Utf8.DecodeRune(u + b).c) && |u| >= |Utf8.EncodeChar(Utf8.DecodeRune(u + b).c)|
  {
    if u != [] && isWord(Utf8.DecodeRune(u).c) {
      FirstRuneStarts(u);
      var e := Utf8.EncodeChar(Utf8.DecodeRune(u).c);
      assert u + b == e + (u[|e|..] + b);
      Utf8.DecodeEncodeChar(Utf8.DecodeRune(u).c, u[|e|..] + b);
    }
    if u + b != [] && isWord(Utf8.DecodeRune(u + b).c) && |u| >= |Utf8.EncodeChar(Utf8.DecodeRune(u + b).c)| {
      FirstRuneStarts(u + b);
      var e := Utf8.EncodeChar(Utf8.DecodeRune(u + b).c);
      assert u == e + u[|e|..];
      Utf8.DecodeEncodeChar(Utf8.DecodeRune(u + b).c, u[|e|..]);
    }
  }

  /** The bytes the character before a place takes, and the one behind it. */
  function SizeBefore(data: Bytes, at: nat): nat
    requires 0 < at <= |data|
  {
    |Utf8.EncodeChar(LastRune(data[..at]))|
  }

  function SizeBehind(data: Bytes, at: nat): nat
    requires at < |data|
  {
    |Utf8.EncodeChar(Utf8.DecodeRune(data[at..]).c)|
  }

  /** From data[lo..hi] alone, data[at..end] looks like a whole word: every word character next to it is cut off. */
  predicate LooksWhole(isWord: IsWord, data: Bytes, lo: nat, hi: nat, at: nat, end: nat)
    requires lo <= at <= end <= hi <= |data|
  {
    && (WordBefore(isWord, data, at) ==> at - lo < SizeBefore(data, at))
    && (WordAfter(isWord, data, end) ==> hi - end < SizeBehind(data, end))
  }

  /** What is a whole word of a part of the data looks like one from there. */
  lemma WholeInPart(isWord: IsWord, data: Bytes, lo: nat, hi: nat, at: nat, end: nat)
    requires lo <= at <= end <= hi <= |data| && !isWord(Utf8.RUNE_ERROR)
    ensures IsWholeWord(isWord, data[lo..hi], at - lo, end - lo) <==> LooksWhole(isWord, data, lo, hi, at, end)
  {
    hide LastRune, Utf8.EncodeChar, Utf8.DecodeRune;
    var part := data[lo..hi];
    assert part[..at - lo] == data[lo..at] && data[..at] == data[..lo] + data[lo..at];
    LastSeen(isWord, data[..lo], data[lo..at]);
    assert part[end - lo..] == data[end..hi] && data[end..] == data[end..hi] + data[hi..];
    FirstSeen(isWord, data[end..hi], data[hi..]);
  }

  // ----- the windows of a file

  /** Where window i starts and ends in the file. */
  function WindowStart(needle: Bytes, portions: seq<Bytes>, i: nat): nat
    requires i < |portions|
  {
    |Flatten(portions[..i])| - Min(|Flatten(portions[..i])|, Overlap(needle))
  }

  function WindowEnd(portions: seq<Bytes>, i: nat): nat
    requires i < |portions|
  {
    |Flatten(portions[..i + 1])|
  }

  /** The window is that part of the file. */
  lemma WindowOfFile(needle: Bytes, portions: seq<Bytes>, i: nat)
    requires i < |portions|
    ensures var data := Flatten(portions);
            var lo, hi := WindowStart(needle, portions, i), WindowEnd(portions, i);
            lo <= hi <= |data| && Window(needle, portions, i) == data[lo..hi]
            && lo <= |Flatten(portions[..i])| <= hi && hi == |Flatten(portions[..i])| + |portions[i]|
  {
    var before := Flatten(portions[..i]);
    FlattenSnoc(portions[..i], portions[i]);
    assert portions[..i + 1] == portions[..i] + [portions[i]];
    FlattenAppend(portions[..i + 1], portions[i + 1..]);
    assert portions == portions[..i + 1] + portions[i + 1..];
    TailInside(before, portions[i], Flatten(portions[i + 1..]), Overlap(needle));
  }

  lemma TailInside(before: Bytes, more: Bytes, behind: Bytes, n: nat)
    ensures var lo := |before| - Min(|before|, n);
            (before + more + behind)[lo..|before + more|] == Tail(before, n) + more
  {
  }

  /** An occurrence within data[lo..hi] that looks like a match from there. */
  predicate IsSeen(isWord: IsWord, q: Query, data: Bytes, lo: nat, hi: nat, at: nat) {
    && lo <= at && at + |q.needle| <= hi <= |data| && OccursAt(data, q.needle, at)
    && (q.wholeWords ==> LooksWhole(isWord, data, lo, hi, at, at + |q.needle|))
  }

  lemma OccursInPart(data: Bytes, needle: Bytes, lo: nat, hi: nat, at: nat)
    requires lo <= at <= hi <= |data|
    ensures OccursAt(data[lo..hi], needle, at - lo) <==> at + |needle| <= hi && OccursAt(data, needle, at)
  {
    var k := at - lo;
    if at + |needle| <= hi {
      var x, y := data[lo..hi][k..k + |needle|], data[at..at + |needle|];
      forall j | 0 <= j < |needle|
        ensures x[j] == y[j]
      {
      }
      assert x == y;
    }
  }

  lemma SeenInPart(isWord: IsWord, q: Query, data: Bytes, lo: nat, hi: nat, at: nat)
    requires lo <= at <= hi <= |data| && !isWord(Utf8.RUNE_ERROR)
    ensures IsMatch(isWord, q, data[lo..hi], at - lo) <==> IsSeen(isWord, q, data, lo, hi, at)
  {
    hide LooksWhole, IsWholeWord, OccursAt;
    OccursInPart(data, q.needle, lo, hi, at);
    if at + |q.needle| <= hi {
      WholeInPart(isWord, data, lo, hi, at, at + |q.needle|);
      assert at + |q.needle| - lo == at - lo + |q.needle|;
    }
  }

  /** A part of the data has a match exactly when some occurrence in it looks like one from there. */
  lemma SomeSeen(isWord: IsWord, q: Query, data: Bytes, lo: nat, hi: nat)
    requires lo <= hi <= |data| && !isWord(Utf8.RUNE_ERROR)
    ensures Matches(isWord, q, data[lo..hi])
        <==> exists at :: 0 <= at <= |data| && IsSeen(isWord, q, data, lo, hi, at)
  {
    var part := data[lo..hi];
    if k :| 0 <= k <= |part| && IsMatch(isWord, q, part, k) {
      SeenInPart(isWord, q, data, lo, hi, lo + k);
      assert IsSeen(isWord, q, data, lo, hi, lo + k);
    }
    if at :| 0 <= at <= |data| && IsSeen(isWord, q, data, lo, hi, at) {
      SeenInPart(isWord, q, data, lo, hi, at);
      assert IsMatch(isWord, q, part, at - lo);
    }
  }

  /** An occurrence of the file seen in window i. */
  predicate IsMatchSeen(isWord: IsWord, q: Query, portions: seq<Bytes>, i: nat, at: nat)
    requires i < |portions|
  {
    IsSeen(isWord, q, Flatten(portions), WindowStart(q.needle, portions, i), WindowEnd(portions, i), at)
  }

  lemma FoundSeen(isWord: IsWord, q: Query, portions: seq<Bytes>, i: nat)
    requires i < |portions| && !isWord(Utf8.RUNE_ERROR)
    ensures FoundIn(isWord, q, portions, i)
        <==> portions[i] != [] && exists at :: 0 <= at <= |Flatten(portions)| && IsMatchSeen(isWord, q, portions, i, at)
  {
    var data := Flatten(portions);
    var lo, hi := WindowStart(q.needle, portions, i), WindowEnd(portions, i);
    WindowOfFile(q.needle, portions, i);
    SomeSeen(isWord, q, data, lo, hi);
    if at :| 0 <= at <= |data| && IsSeen(isWord, q, data, lo, hi, at) {
      assert IsMatchSeen(isWord, q, portions, i, at);
    }
    if at :| 0 <= at <= |data| && IsMatchSeen(isWord, q, portions, i, at) {
      assert IsSeen(isWord, q, data, lo, hi, at);
    }
  }

  // ----- nothing is missed

  /** The portion with the last byte of data[..end]. */
  lemma {:induction false} PortionOf(portions: seq<Bytes>, end: nat) returns (i: nat)
    requires 0 < end <= |Flatten(portions)|
    ensures i < |portions| && |Flatten(portions[..i])| < end <= |Flatten(portions[..i + 1])|
    decreases |portions|
  {
    var last := |portions| - 1;
    assert portions != [];
    var init := portions[..last];
    assert portions == init + [portions[last]] && portions[..last + 1] == portions;
    if end > |Flatten(init)| {
      i := last;
    } else {
      i := PortionOf(init, end);
      assert init[..i] == portions[..i] && init[..i + 1] == portions[..i + 1];
    }
  }

  /** A match in the file is seen in the window in which it is complete for the first time: all of it lies there, and a
      part of the file cannot show a word character next to it that the file does not have. */
  lemma MatchSeen(isWord: IsWord, q: Query, portions: seq<Bytes>, at: nat) returns (i: nat)
    requires q.needle != [] && IsMatch(isWord, q, Flatten(portions), at)
    ensures i < |portions| && portions[i] != [] && IsMatchSeen(isWord, q, portions, i, at)
  {
    i := PortionOf(portions, at + |q.needle|);
    WindowOfFile(q.needle, portions, i);
  }

  /** However a file is split, nothing that is in it is missed, whole words included. */
  lemma NeverMissed(isWord: IsWord, q: Query, portions: seq<Bytes>)
    requires q.needle != [] && !isWord(Utf8.RUNE_ERROR) && Matches(isWord, q, Flatten(portions))
    ensures Found(isWord, q, portions)
  {
    var data := Flatten(portions);
    var at :| 0 <= at <= |data| && IsMatch(isWord, q, data, at);
    var i := MatchSeen(isWord, q, portions, at);
    FoundSeen(isWord, q, portions, i);
  }

  /** In a UTF-8 file no word that is there is missed, whole words included, wherever the file is split, also within a
      character. */
  lemma TextNeverMissed(isWord: IsWord, q: Query, portions: seq<Bytes>, text: string, word: string, i: nat)
    requires word != "" && q.needle == Utf8.Encode(word) && !isWord(Utf8.RUNE_ERROR)
    requires Flatten(portions) == Utf8.Encode(text) && IsTextMatch(isWord, q.wholeWords, text, word, i)
    ensures Found(isWord, q, portions)
  {
    MatchesText(isWord, q, text, word);
    EncodeCharShape(word[0]);
    NeverMissed(isWord, q, portions);
  }

  // ----- when the answer is wrong

  /** An occurrence that is no whole word of the file, while in the window of portion i every word character next to it
      is cut off. */
  predicate IsFake(isWord: IsWord, q: Query, portions: seq<Bytes>, i: nat, at: nat)
    requires i < |portions|
  {
    && portions[i] != [] && IsMatchSeen(isWord, q, portions, i, at)
    && !IsWholeWord(isWord, Flatten(portions), at, at + |q.needle|)
  }

  ghost predicate HasFake(isWord: IsWord, q: Query, portions: seq<Bytes>) {
    q.wholeWords
    && exists i, at :: 0 <= i < |portions| && 0 <= at <= |Flatten(portions)| && IsFake(isWord, q, portions, i, at)
  }

  /** What the loop finds: the matches of the file and nothing else but occurrences whose neighbours are cut off. */
  lemma FoundExactly(isWord: IsWord, q: Query, portions: seq<Bytes>)
    requires q.needle != [] && !isWord(Utf8.RUNE_ERROR)
    ensures Found(isWord, q, portions) <==> Matches(isWord, q, Flatten(portions)) || HasFake(isWord, q, portions)
  {
    var data := Flatten(portions);
    if Matches(isWord, q, data) {
      NeverMissed(isWord, q, portions);
    }
    if i, at :| 0 <= i < |portions| && 0 <= at <= |data| && IsFake(isWord, q, portions, i, at) {
      FoundSeen(isWord, q, portions, i);
    }
    if i :| 0 <= i < |portions| && FoundIn(isWord, q, portions, i) {
      FoundSeen(isWord, q, portions, i);
      var at :| 0 <= at <= |data| && IsMatchSeen(isWord, q, portions, i, at);
      if q.wholeWords && !IsWholeWord(isWord, data, at, at + |q.needle|) {
        assert IsFake(isWord, q, portions, i, at);
      } else {
        assert IsMatch(isWord, q, data, at);
      }
    }
  }

  /** The answer is right for the file, and with it the one turned round, if and only if the file has a match or no
      occurrence in it has its neighbours cut off in some window. Without whole words it is always right. */
  lemma RightExactly(isWord: IsWord, q: Query, portions: seq<Bytes>)
    requires q.needle != [] && !isWord(Utf8.RUNE_ERROR)
    ensures (Found(isWord, q, portions) <==> Matches(isWord, q, Flatten(portions)))
        <==> Matches(isWord, q, Flatten(portions)) || !HasFake(isWord, q, portions)
    ensures !q.wholeWords ==> (Found(isWord, q, portions) <==> Occurs(Flatten(portions), q.needle))
  {
    FoundExactly(isWord, q, portions);
    if !q.wholeWords {
      PlainMatches(isWord, q, Flatten(portions));
    }
  }

  lemma PlainMatches(isWord: IsWord, q: Query, data: Bytes)
    requires !q.wholeWords
    ensures Matches(isWord, q, data) <==> Occurs(data, q.needle)
  {
    if at :| 0 <= at <= |data| && OccursAt(data, q.needle, at) {
      assert IsMatch(isWord, q, data, at);
    }
  }

  /** A file that comes in one portion is always answered rightly. */
  lemma OnePortion(isWord: IsWord, q: Query, data: Bytes)
    requires q.needle != []
    ensures Found(isWord, q, [data]) <==> Matches(isWord, q, Flatten([data]))
  {
    assert [data][..0] == [] && [data][1..] == [];
    assert Window(q.needle, [data], 0) == [] + data == data && Flatten([data]) == data + [] == data;
    if Matches(isWord, q, data) {
      assert FoundIn(isWord, q, [data], 0);
    }
  }

  // ----- splits that give a wrong answer

  /** An occurrence with an ASCII word character next to it. */
  predicate HasNeighbour(isWord: IsWord, data: Bytes, at: nat)
    requires at < |data|
  {
    || (at > 0 && data[at - 1] < 0x80 && isWord(data[at - 1] as char))
    || (at + 1 < |data| && data[at + 1] < 0x80 && isWord(data[at + 1] as char))
  }

  /** A query for one byte as a whole word. */
  predicate IsOneByte(q: Query, c: Byte) {
    q.wholeWords && |q.needle| == 1 && q.needle[0] == c
  }

  lemma NoWholeWord(isWord: IsWord, q: Query, c: Byte, data: Bytes)
    requires IsOneByte(q, c)
    requires forall at :: 0 <= at < |data| && data[at] == c ==> HasNeighbour(isWord, data, at)
    ensures !Matches(isWord, q, data)
  {
    forall at | 0 <= at <= |data|
      ensures !IsMatch(isWord, q, data, at)
    {
      if OccursAt(data, q.needle, at) {
        assert data[at..at + 1][0] == data[at];
        assert HasNeighbour(isWord, data, at);
      }
    }
  }

  lemma WholeWordAlone(isWord: IsWord, q: Query, c: Byte, data: Bytes)
    requires IsOneByte(q, c)
    requires data != [] && data[0] == c && (|data| > 1 ==> data[1] < 0x80 && !isWord(data[1] as char))
    ensures Matches(isWord, q, data)
  {
    assert data[0..1] == q.needle;
    assert IsMatch(isWord, q, data, 0);
  }

  lemma FlattenTwo(a: Bytes, b: Bytes)
    ensures Flatten([a, b]) == a + b && Flatten([a, b][..1]) == a && [a, b][..0] == []
  {
    assert [a, b][1..] == [b] && [b][1..] == [] && [a, b][..1] == [a] && [a][1..] == [];
    assert Flatten([b]) == b + [] == b && Flatten([a]) == a + [] == a;
  }

  lemma FoundInTwo(isWord: IsWord, q: Query, a: Bytes, b: Bytes)
    requires a != [] && b != []
    requires Matches(isWord, q, a) || Matches(isWord, q, Tail(a, Overlap(q.needle)) + b)
    ensures Found(isWord, q, [a, b])
  {
    FlattenTwo(a, b);
    if Matches(isWord, q, a) {
      assert Window(q.needle, [a, b], 0) == [] + a == a;
      assert FoundIn(isWord, q, [a, b], 0);
    } else {
      assert FoundIn(isWord, q, [a, b], 1);
    }
  }

  /** "ab" read byte by byte: the "a" is found as a whole word before the "b" has come. */
  lemma NeighbourToCome(isWord: IsWord)
    requires isWord('b')
    ensures var q, portions := Query([0x61], true, false), [[0x61], [0x62]];
            Found(isWord, q, portions) && !Matches(isWord, q, Flatten(portions))
  {
    var a: Bytes, b: Bytes := [0x61], [0x62];
    ComingInTwo(isWord, Query([0x61], true, false), a, b);
    FlattenTwo(a, b);
  }

  lemma ComingInTwo(isWord: IsWord, q: Query, a: Bytes, b: Bytes)
    requires IsOneByte(q, 0x61) && isWord('b') && |a| == |b| == 1 && a[0] == 0x61 && b[0] == 0x62
    ensures Found(isWord, q, [a, b]) && !Matches(isWord, q, a + b)
  {
    WholeWordAlone(isWord, q, 0x61, a);
    FoundInTwo(isWord, q, a, b);
    FirstOnly(isWord, q, a + b);
  }

  lemma FirstOnly(isWord: IsWord, q: Query, data: Bytes)
    requires IsOneByte(q, 0x61) && isWord('b') && |data| == 2 && data[0] == 0x61 && data[1] == 0x62
    ensures !Matches(isWord, q, data)
  {
    assert 0x62 as char == 'b';
    NoWholeWord(isWord, q, 0x61, data);
  }

  /** "ab....x" with the "x" by itself: the carried tail starts with the "b", so its neighbour is dropped and it is
      found as a whole word. */
  lemma NeighbourDropped(isWord: IsWord)
    requires isWord('a') && !isWord('.')
    ensures var q, portions := Query([0x62], true, false), [[0x61, 0x62, 0x2E, 0x2E, 0x2E, 0x2E], [0x78]];
            Found(isWord, q, portions) && !Matches(isWord, q, Flatten(portions))
  {
    var a: Bytes, b: Bytes := [0x61, 0x62, 0x2E, 0x2E, 0x2E, 0x2E], [0x78];
    DroppedInTwo(isWord, Query([0x62], true, false), a, b);
    FlattenTwo(a, b);
  }

  lemma DroppedInTwo(isWord: IsWord, q: Query, a: Bytes, b: Bytes)
    requires IsOneByte(q, 0x62) && isWord('a') && !isWord('.')
    requires |a| == 6 && a[0] == 0x61 && a[1] == 0x62 && a[2] == 0x2E && b != []
    requires (forall k :: 2 <= k < 6 ==> a[k] != 0x62) && forall k :: 0 <= k < |b| ==> b[k] != 0x62
    ensures Found(isWord, q, [a, b]) && !Matches(isWord, q, a + b)
  {
    DroppedWindow(isWord, q, a, b);
    FoundInTwo(isWord, q, a, b);
    SecondOnly(isWord, q, a + b);
  }

  lemma SecondOnly(isWord: IsWord, q: Query, data: Bytes)
    requires IsOneByte(q, 0x62)
    requires |data| > 1 && isWord('a') && data[0] == 0x61 && forall k :: 2 <= k < |data| ==> data[k] != 0x62
    ensures !Matches(isWord, q, data)
  {
    assert 0x61 as char == 'a';
    NoWholeWord(isWord, q, 0x62, data);
  }

  lemma DroppedWindow(isWord: IsWord, q: Query, a: Bytes, b: Bytes)
    requires IsOneByte(q, 0x62) && !isWord('.') && |a| == 6 && a[1] == 0x62 && a[2] == 0x2E
    ensures Matches(isWord, q, Tail(a, Overlap(q.needle)) + b)
  {
    var window := Tail(a, Overlap(q.needle)) + b;
    assert window[0] == a[1] && window[1] == a[2];
    WholeWordAlone(isWord, q, 0x62, window);
  }
}
