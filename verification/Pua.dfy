/** File names that are not UTF-8, carried as private-use characters behind a mark (vfs/pua.go). A name is the bytes of
    a Go string. */
module Pua {
  import opened Base
  import Utf8

  /** MappedStringMark, a noncharacter. */
  const MARK: char := 0xFFFE as char

  const MARK_BYTES: Bytes := Utf8.EncodeChar(MARK)

  const PRIVATE_USE_BASE: nat := 0xE000

  const SLASH: Byte := 0x2F

  predicate IsMarked(s: Bytes) { MARK_BYTES <= s }

  predicate IsPrivateUse(c: char) {
    PRIVATE_USE_BASE <= c as int <= PRIVATE_USE_BASE + 0xFF
  }

  /** One private-use character per byte. */
  function Hide(b: Bytes): (s: string)
    ensures |s| == |b|
  {
    seq(|b|, i requires 0 <= i < |b| => (PRIVATE_USE_BASE + b[i] as int) as char)
  }

  function BareByte(c: char): Byte
    requires IsPrivateUse(c)
  {
    c as int - PRIVATE_USE_BASE
  }

  /** The bytes behind private-use characters. */
  function Bare(s: string): (b: Bytes)
    requires forall i :: 0 <= i < |s| ==> IsPrivateUse(s[i])
    ensures |b| == |s|
  {
    seq(|s|, i requires 0 <= i < |s| => BareByte(s[i]))
  }

  /** decodeUTF8OrMap */
  function Map(b: Bytes): Bytes {
    if Utf8.Valid(b) then b else MARK_BYTES + Utf8.Encode(Hide(b))
  }

  /** Whether a marked name is one the mapping makes: everything behind the mark is in the mapped range. */
  predicate IsMapped(s: Bytes) {
    IsMarked(s) && var rest := Utf8.Runes(s[|MARK_BYTES|..]); forall i :: 0 <= i < |rest| ==> IsPrivateUse(rest[i])
  }

  /** encodeMappedString */
  function Unmap(s: Bytes): Bytes {
    if IsMapped(s) then Bare(Utf8.Runes(s[|MARK_BYTES|..])) else s
  }

  // ----- the loops

  method DecodeUtf8OrMap(b: Bytes) returns (s: Bytes)
    ensures s == Map(b)
  {
    if Utf8.Valid(b) {
      return b;
    }
    s := MARK_BYTES;
    for i := 0 to |b|
      invariant s == MARK_BYTES + Utf8.Encode(Hide(b[..i]))
    {
      var c := (PRIVATE_USE_BASE + b[i] as int) as char;
      assert Hide(b[..i + 1]) == Hide(b[..i]) + [c];
      Utf8.EncodeAppend(Hide(b[..i]), [c]);
      EncodeOne(c);
      Assoc(MARK_BYTES, Utf8.Encode(Hide(b[..i])), Utf8.EncodeChar(c));
      s := s + Utf8.EncodeChar(c);
    }
    assert b[..|b|] == b;
  }

  lemma EncodeOne(c: char)
    ensures Utf8.Encode([c]) == Utf8.EncodeChar(c)
  {
    assert [c][1..] == "";
  }

  lemma MarkedRunes(s: Bytes)
    requires IsMarked(s)
    ensures Utf8.Runes(s) == [MARK] + Utf8.Runes(s[|MARK_BYTES|..])
  {
    var rest := s[|MARK_BYTES|..];
    assert s == MARK_BYTES + rest;
    Utf8.DecodeEncodeChar(MARK, rest);
  }

  method EncodeMappedString(s: Bytes) returns (r: Bytes)
    ensures r == Unmap(s)
  {
    if !IsMarked(s) {
      return s;
    }
    MarkedRunes(s);
    var runes := Utf8.Runes(s);
    ghost var rest := Utf8.Runes(s[|MARK_BYTES|..]);
    var b := new Byte[|runes| - 1];
    var i := 1;
    while i < |runes|
      invariant 1 <= i <= |runes| && rest == runes[1..]
      invariant forall k :: 0 <= k < i - 1 ==> IsPrivateUse(rest[k]) && b[k] == rest[k] as int - PRIVATE_USE_BASE
    {
      assert rest[i - 1] == runes[i];
      if runes[i] as int < PRIVATE_USE_BASE || runes[i] as int > PRIVATE_USE_BASE + 0xFF {
        assert !IsPrivateUse(rest[i - 1]);
        return s;
      }
      b[i - 1] := runes[i] as int - PRIVATE_USE_BASE;
      i := i + 1;
    }
    assert IsMapped(s);
    r := b[..];
    assert r == Bare(rest);
  }

  // ----- the mapping is undone

  /** Whatever the name, the mapping of it is UTF-8. */
  lemma MapValid(b: Bytes)
    ensures Utf8.Valid(Map(b))
  {
    if !Utf8.Valid(b) {
      Utf8.DecodeEncodeChar(MARK, Utf8.Encode(Hide(b)));
      Utf8.EncodeValid(Hide(b));
    }
  }

  lemma {:induction false} RunesShorter(b: Bytes)
    ensures |Utf8.Runes(b)| <= |b|
    decreases |b|
  {
    if b != [] {
      RunesShorter(b[Utf8.DecodeRune(b).size..]);
    }
  }

  lemma UnmapHidden(b: Bytes)
    ensures Unmap(MARK_BYTES + Utf8.Encode(Hide(b))) == b
  {
    var s := MARK_BYTES + Utf8.Encode(Hide(b));
    assert s[|MARK_BYTES|..] == Utf8.Encode(Hide(b));
    Utf8.EncodeValid(Hide(b));
    assert Bare(Hide(b)) == b;
  }

  /** A name comes back from its mapping exactly when it is not UTF-8 or does not itself look like a mapping. */
  lemma UnmapMap(b: Bytes)
    ensures Unmap(Map(b)) == b <==> !Utf8.Valid(b) || !IsMapped(b)
  {
    if !Utf8.Valid(b) {
      UnmapHidden(b);
    } else if IsMapped(b) {
      RunesShorter(b[|MARK_BYTES|..]);
      assert |Unmap(b)| < |b|;
    }
  }

  /** Names that come back have different mappings. */
  lemma MapInjective(a: Bytes, b: Bytes)
    requires !Utf8.Valid(a) || !IsMapped(a)
    requires !Utf8.Valid(b) || !IsMapped(b)
    requires Map(a) == Map(b)
    ensures a == b
  {
    UnmapMap(a);
    UnmapMap(b);
  }

  /** The other names do not: the mapping of a name that is not UTF-8 is also the mapping of itself. */
  lemma MappingCollides(a: Bytes)
    requires !Utf8.Valid(a)
    ensures Map(Map(a)) == Map(a) && Map(a) != a
  {
    MapValid(a);
  }

  // ----- paths

  function UnmapAll(names: seq<Bytes>): (r: seq<Bytes>)
    ensures |r| == |names|
  {
    seq(|names|, i requires 0 <= i < |names| => Unmap(names[i]))
  }

  function MapAll(names: seq<Bytes>): (r: seq<Bytes>)
    ensures |r| == |names|
  {
    seq(|names|, i requires 0 <= i < |names| => Map(names[i]))
  }

  /** Each part of a path is unmapped by itself. */
  function UnmapPath(p: Bytes): Bytes {
    Join(UnmapAll(Split(p, SLASH)), SLASH)
  }

  predicate StartsAt(s: Bytes, part: Bytes, i: nat) {
    i <= |s| && part <= s[i..]
  }

  predicate Contains(s: Bytes, part: Bytes) {
    exists i :: 0 <= i <= |s| && StartsAt(s, part, i)
  }

  /** Every part of a path is somewhere in it. */
  lemma {:induction false} PieceStarts(p: Bytes, k: nat) returns (i: nat)
    requires k < |Split(p, SLASH)|
    ensures StartsAt(p, Split(p, SLASH)[k], i)
    ensures k == 0 ==> i == 0
  {
    if p == [] {
      i := 0;
    } else {
      var rest := Split(p[1..], SLASH);
      if p[0] == SLASH && k > 0 {
        var j := PieceStarts(p[1..], k - 1);
        i := j + 1;
        assert p[1..][j..] == p[i..];
      } else if p[0] != SLASH && k > 0 {
        var j := PieceStarts(p[1..], k);
        i := j + 1;
        assert p[1..][j..] == p[i..];
      } else if p[0] != SLASH {
        i := PieceStarts(p[1..], 0);
        assert p[1..][0..] == p[1..];
        assert p == [p[0]] + p[1..];
      } else {
        i := 0;
      }
    }
  }

  /** Without a mark in it a path stays as it is. */
  lemma UnmarkedPath(p: Bytes)
    requires !Contains(p, MARK_BYTES)
    ensures UnmapPath(p) == p
  {
    var pieces := Split(p, SLASH);
    JoinSplit(p, SLASH);
    forall k | 0 <= k < |pieces|
      ensures !IsMarked(pieces[k])
    {
      var i := PieceStarts(p, k);
      if IsMarked(pieces[k]) {
        MarkStarts(p, pieces[k], i);
      }
    }
    assert UnmapAll(pieces) == pieces;
  }

  lemma MarkStarts(p: Bytes, piece: Bytes, i: nat)
    requires StartsAt(p, piece, i) && IsMarked(piece)
    ensures Contains(p, MARK_BYTES)
  {
    assert p[i..][..|MARK_BYTES|] == piece[..|MARK_BYTES|];
    assert StartsAt(p, MARK_BYTES, i);
  }

  lemma UnmapFirst(seg: Bytes, rest: Bytes)
    requires SLASH !in seg
    ensures UnmapPath(seg + [SLASH] + rest) == Unmap(seg) + [SLASH] + UnmapPath(rest)
  {
    hide Unmap, Split;
    SplitAppend(seg, SLASH, rest);
    SplitFree(seg, SLASH);
    var pieces := Split(rest, SLASH);
    assert UnmapAll([seg] + pieces) == [Unmap(seg)] + UnmapAll(pieces);
    assert ([Unmap(seg)] + UnmapAll(pieces))[1..] == UnmapAll(pieces);
  }

  lemma UnmapLast(seg: Bytes)
    requires SLASH !in seg
    ensures UnmapPath(seg) == Unmap(seg)
  {
    SplitFree(seg, SLASH);
  }

  /** r is what the path becomes up to the part that starts at start; that part goes at least up to i. */
  predicate Reached(p: Bytes, r: Bytes, start: nat, i: nat) {
    start <= i <= |p| && SLASH !in p[start..i] && UnmapPath(p) == r + UnmapPath(p[start..])
  }

  lemma SegmentEnds(p: Bytes, r: Bytes, start: nat, i: nat)
    requires Reached(p, r, start, i) && i < |p| && p[i] == SLASH
    ensures Reached(p, r + Unmap(p[start..i]) + [SLASH], i + 1, i + 1)
  {
    var seg, rest := p[start..i], p[i + 1..];
    assert p[start..] == seg + [SLASH] + rest;
    UnmapFirst(seg, rest);
    Assoc4(r, Unmap(seg), [SLASH], UnmapPath(rest));
    Assoc(Unmap(seg), [SLASH], UnmapPath(rest));
  }

  lemma SegmentGoesOn(p: Bytes, r: Bytes, start: nat, i: nat)
    requires Reached(p, r, start, i) && i < |p| && p[i] != SLASH
    ensures Reached(p, r, start, i + 1)
  {
    assert p[start..i + 1] == p[start..i] + [p[i]];
  }

  lemma PathEnds(p: Bytes, r: Bytes, start: nat)
    requires Reached(p, r, start, |p|)
    ensures UnmapPath(p) == r + Unmap(p[start..|p|])
  {
    assert p[start..|p|] == p[start..];
    UnmapLast(p[start..]);
  }

  /** decodeMappedPathSegments */
  method DecodeMappedPathSegments(p: Bytes) returns (r: Bytes)
    ensures r == UnmapPath(p)
  {
    if !Contains(p, MARK_BYTES) {
      UnmarkedPath(p);
      return p;
    }
    r := [];
    var start := 0;
    var i := 0;
    assert p[0..] == p;
    while i <= |p|
      invariant i <= |p| ==> Reached(p, r, start, i)
      invariant i > |p| ==> i == |p| + 1 && r == UnmapPath(p)
    {
      if i == |p| || p[i] == SLASH {
        ghost var before := r;
        var seg := p[start..i];
        if IsMarked(seg) {
          seg := EncodeMappedString(seg);
        }
        assert seg == Unmap(p[start..i]);
        r := r + seg;
        if i < |p| {
          SegmentEnds(p, before, start, i);
          r := r + [SLASH];
        } else {
          PathEnds(p, before, start);
        }
        start := i + 1;
      } else {
        SegmentGoesOn(p, r, start, i);
      }
      i := i + 1;
    }
  }

  lemma {:induction false} HiddenNoSlash(s: string)
    requires forall i :: 0 <= i < |s| ==> s[i] as int >= 0x80
    ensures SLASH !in Utf8.Encode(s)
    decreases |s|
  {
    if s != "" {
      HiddenNoSlash(s[1..]);
    }
  }

  lemma MapNoSlash(b: Bytes)
    requires SLASH !in b
    ensures SLASH !in Map(b)
  {
    HiddenNoSlash(Hide(b));
  }

  lemma {:induction false} JoinLength(names: seq<Bytes>, more: seq<Bytes>)
    requires |names| == |more| && forall i :: 0 <= i < |names| ==> |names[i]| <= |more[i]|
    ensures |Join(names, SLASH)| <= |Join(more, SLASH)|
    ensures (exists i :: 0 <= i < |names| && |names[i]| < |more[i]|) ==> |Join(names, SLASH)| < |Join(more, SLASH)|
    decreases |names|
  {
    if |names| > 1 {
      JoinLength(names[1..], more[1..]);
      if i :| 0 <= i < |names| && |names[i]| < |more[i]| {
        if i > 0 {
          assert names[1..][i - 1] == names[i] && more[1..][i - 1] == more[i];
        }
      }
    }
  }

  lemma UnmapMapLength(b: Bytes)
    ensures |Unmap(Map(b))| <= |b|
    ensures |Unmap(Map(b))| == |b| ==> Unmap(Map(b)) == b
  {
    UnmapMap(b);
    if Utf8.Valid(b) && IsMapped(b) {
      RunesShorter(b[|MARK_BYTES|..]);
    }
  }

  /** A path joined from mapped names leads to the raw names exactly when each of them comes back by itself. */
  lemma {:induction false} PathOfMapped(names: seq<Bytes>)
    requires names != [] && forall i :: 0 <= i < |names| ==> SLASH !in names[i]
    ensures UnmapPath(Join(MapAll(names), SLASH)) == Join(names, SLASH)
        <==> forall i :: 0 <= i < |names| ==> !Utf8.Valid(names[i]) || !IsMapped(names[i])
  {
    forall i | 0 <= i < |names|
      ensures SLASH !in MapAll(names)[i]
    {
      MapNoSlash(names[i]);
    }
    SplitJoin(MapAll(names), SLASH);
    var back := UnmapAll(MapAll(names));
    assert UnmapPath(Join(MapAll(names), SLASH)) == Join(back, SLASH);
    forall i | 0 <= i < |names|
      ensures |back[i]| <= |names[i]| && (|back[i]| == |names[i]| ==> back[i] == names[i])
      ensures back[i] == names[i] <==> !Utf8.Valid(names[i]) || !IsMapped(names[i])
    {
      assert back[i] == Unmap(Map(names[i]));
      UnmapMapLength(names[i]);
      UnmapMap(names[i]);
    }
    SameJoins(back, names);
  }

  lemma {:induction false} SameJoins(back: seq<Bytes>, names: seq<Bytes>)
    requires |back| == |names| != 0
    requires forall i :: 0 <= i < |names| ==>
               |back[i]| <= |names[i]| && (|back[i]| == |names[i]| ==> back[i] == names[i])
    ensures Join(back, SLASH) == Join(names, SLASH) <==> forall i :: 0 <= i < |names| ==> back[i] == names[i]
  {
    JoinLength(back, names);
    if forall i :: 0 <= i < |names| ==> back[i] == names[i] {
      assert back == names;
    }
  }

  /** The bytes of a mapped name behind the mark: for each byte of the name, the character that far from U+E000 on. */
  function MappedBytes(b: Bytes): Bytes {
    if b == [] then [] else [0xEE, 0x80 + b[0] / 0x40, 0x80 + b[0] % 0x40] + MappedBytes(b[1..])
  }

  lemma {:induction false} HiddenBytes(b: Bytes)
    ensures Utf8.Encode(Hide(b)) == MappedBytes(b)
  {
    if b == [] {
      assert Hide(b) == "";
    } else {
      HiddenBytes(b[1..]);
      var c := (PRIVATE_USE_BASE + b[0] as int) as char;
      assert Hide(b)[0] == c && Hide(b)[1..] == Hide(b[1..]);
      HiddenByte(b[0]);
    }
  }

  lemma HiddenByte(x: Byte)
    ensures Utf8.EncodeChar((0xE000 + x as int) as char) == [0xEE, 0x80 + x / 0x40, 0x80 + x % 0x40]
  {
  }

  lemma MappingIs(b: Bytes)
    requires !Utf8.Valid(b)
    ensures Map(b) == [0xEF, 0xBF, 0xBE] + MappedBytes(b)
  {
    HiddenBytes(b);
    assert Utf8.EncodeChar(0xFFFE as char) == [0xEF, 0xBF, 0xBE];
  }

  lemma PrivateIsValid(b: Bytes)
    requires b != []
    ensures IsPrivateUse(Utf8.DecodeRune(b).c) ==> Utf8.DecodeRune(b).valid
  {
  }

  lemma {:induction false} PrivateSpelled(b: Bytes)
    requires forall i :: 0 <= i < |Utf8.Runes(b)| ==> IsPrivateUse(Utf8.Runes(b)[i])
    ensures Utf8.Encode(Utf8.Runes(b)) == b
    decreases |b|
  {
    hide Utf8.DecodeRune, Utf8.EncodeChar, IsPrivateUse;
    if b != [] {
      var r := Utf8.DecodeRune(b);
      var runes := Utf8.Runes(b);
      assert runes == [r.c] + Utf8.Runes(b[r.size..]) && runes[1..] == Utf8.Runes(b[r.size..]);
      assert IsPrivateUse(runes[0]);
      PrivateIsValid(b);
      forall i | 0 <= i < |runes[1..]|
        ensures IsPrivateUse(runes[1..][i])
      {
        assert runes[1..][i] == runes[i + 1];
      }
      Utf8.EncodeDecodeRune(b);
      PrivateSpelled(b[r.size..]);
    }
  }

  /** Exactly the mark with such characters behind it is unmapped, to the bytes they stand for; every other name stays.
      */
  lemma UnmappedExactly(s: Bytes)
    ensures forall b :: s == [0xEF, 0xBF, 0xBE] + MappedBytes(b) ==> Unmap(s) == b
    ensures (forall b :: s != [0xEF, 0xBF, 0xBE] + MappedBytes(b)) ==> Unmap(s) == s
  {
    hide Unmap, MappedBytes, IsMapped, Utf8.EncodeChar;
    MarkIs();
    forall b | s == [0xEF, 0xBF, 0xBE] + MappedBytes(b)
      ensures Unmap(s) == b
    {
      HiddenBytes(b);
      UnmapHidden(b);
    }
    if IsMapped(s) {
      var b := MappedIs(s);
      assert s == [0xEF, 0xBF, 0xBE] + MappedBytes(b);
    } else {
      NotMapped(s);
    }
  }

  lemma MarkIs()
    ensures MARK_BYTES == [0xEF, 0xBF, 0xBE]
  {
  }

  lemma NotMapped(s: Bytes)
    requires !IsMapped(s)
    ensures Unmap(s) == s
  {
  }

  lemma MappedIs(s: Bytes) returns (b: Bytes)
    requires IsMapped(s)
    ensures s == MARK_BYTES + MappedBytes(b)
  {
    var rest := s[|MARK_BYTES|..];
    var runes := Utf8.Runes(rest);
    b := Bare(runes);
    PrivateSpelled(rest);
    assert Hide(b) == runes;
    HiddenBytes(b);
  }
}
