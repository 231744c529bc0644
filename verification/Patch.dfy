/** Writing a file or a disk over itself piece by piece (ValidateInPlacePieces, vfs/vfs.go, and the two PatchInPlace,
    vfs/os_vfs.go and vfs/disks_vfs.go). */
module Patch {
  import opened Base
  import IO = ElevatedIO

  /** PatchPiece: new bytes, or without data the length bytes at offset of the file as it was. */
  datatype Piece = Piece(offset: int, length: int, data: Option<Bytes>)

  /** What the writer of the pieces has to keep to: data of the stated length, copies from within the file. */
  predicate IsSound(original: Bytes, p: Piece) {
    if p.data.Some? then p.length == |p.data.value|
    else 0 <= p.offset && 0 <= p.length && p.offset + p.length <= |original|
  }

  predicate AreSound(original: Bytes, pieces: seq<Piece>) {
    forall i :: 0 <= i < |pieces| ==> IsSound(original, pieces[i])
  }

  /** The bytes a piece stands for. */
  function BytesOf(original: Bytes, p: Piece): Bytes
    requires IsSound(original, p)
  {
    if p.data.Some? then p.data.value else original[p.offset..p.offset + p.length]
  }

  /** The file the pieces describe. */
  function Whole(original: Bytes, pieces: seq<Piece>): Bytes
    requires AreSound(original, pieces)
  {
    if pieces == [] then []
    else Whole(original, pieces[..|pieces| - 1]) + BytesOf(original, pieces[|pieces| - 1])
  }

  /** Every copied piece is where it will be copied to. */
  predicate StaysInPlace(pieces: seq<Piece>, offset: int)
    decreases |pieces|
  {
    pieces == []
    || ((pieces[0].data == None ==> pieces[0].offset == offset)
        && StaysInPlace(pieces[1..], offset + pieces[0].length))
  }

  /** The file with its first part replaced and the rest as it was. */
  function Replaced(original: Bytes, front: Bytes): Bytes {
    front + if |front| < |original| then original[|front|..] else []
  }

  /** ValidateInPlacePieces */
  method ValidateInPlacePieces(pieces: seq<Piece>) returns (ok: bool)
    ensures ok <==> StaysInPlace(pieces, 0)
  {
    var offset := 0;
    for i := 0 to |pieces|
      invariant StaysInPlace(pieces, 0) <==> StaysInPlace(pieces[i..], offset)
    {
      var p := pieces[i];
      assert pieces[i..][0] == p && pieces[i..][1..] == pieces[i + 1..];
      if p.data == None && p.offset != offset {
        return false;
      }
      offset := offset + p.length;
    }
    ok := true;
  }

  /** Where a copied piece is accepted, it is at the end of the pieces before it. */
  lemma {:induction false} InPlaceAt(original: Bytes, pieces: seq<Piece>, offset: int, i: nat)
    requires AreSound(original, pieces) && StaysInPlace(pieces, offset) && i < |pieces| && pieces[i].data == None
    ensures pieces[i].offset == offset + |Whole(original, pieces[..i])|
    decreases i
  {
    if i > 0 {
      var rest := pieces[1..];
      assert rest[i - 1] == pieces[i];
      InPlaceAt(original, rest, offset + pieces[0].length, i - 1);
      WholeCons(original, pieces[..i]);
      assert pieces[..i][1..] == rest[..i - 1];
    }
  }

  lemma {:induction false} WholeCons(original: Bytes, pieces: seq<Piece>)
    requires AreSound(original, pieces) && pieces != []
    ensures Whole(original, pieces) == BytesOf(original, pieces[0]) + Whole(original, pieces[1..])
    decreases |pieces|
  {
    var last := |pieces| - 1;
    if last > 0 {
      var init, rest := pieces[..last], pieces[1..];
      WholeCons(original, init);
      assert init[1..] == rest[..last - 1] && rest[last - 1] == pieces[last];
      assert Whole(original, rest) == Whole(original, rest[..last - 1]) + BytesOf(original, pieces[last]);
      Assoc(BytesOf(original, pieces[0]), Whole(original, init[1..]), BytesOf(original, pieces[last]));
    } else {
      assert pieces[..0] == [] && pieces[1..] == [];
      assert Whole(original, pieces) == [] + BytesOf(original, pieces[0]);
    }
  }

  lemma WholeSnoc(original: Bytes, pieces: seq<Piece>, i: nat)
    requires AreSound(original, pieces) && i < |pieces|
    ensures Whole(original, pieces[..i + 1]) == Whole(original, pieces[..i]) + BytesOf(original, pieces[i])
  {
    assert pieces[..i + 1][..i] == pieces[..i];
  }

  // ----- the file

  lemma DataReplaces(original: Bytes, front: Bytes, data: Bytes)
    ensures IO.Overwritten(Replaced(original, front), |front|, data) == Replaced(original, front + data)
  {
  }

  lemma CopyReplaces(original: Bytes, front: Bytes, length: nat)
    requires |front| + length <= |original|
    ensures Replaced(original, front) == Replaced(original, front + original[|front|..|front| + length])
  {
  }

  datatype Status = Patched | Refused | Cancelled | Failed

  /** An open file; a disk is one whose size cannot change. */
  class File {
    const fixedSize: bool
    var content: Bytes

    /** How many of its calls have failed. */
    ghost var failures: nat

    constructor (content: Bytes, fixedSize: bool)
      ensures this.content == content && this.fixedSize == fixedSize && failures == 0
    {
      this.content, this.fixedSize, failures := content, fixedSize, 0;
    }

    /** os.File.WriteAt: may fail, always so before the start of a file or where it would make a disk longer. */
    method WriteAt(data: Bytes, offset: int) returns (ok: bool)
      modifies this`content, this`failures
      ensures failures == old(failures) + if ok then 0 else 1
      ensures ok ==> offset >= 0 && content == IO.Overwritten(old(content), offset, data)
      ensures fixedSize ==> |content| == |old(content)|
    {
      var works: bool := *;
      if !works || offset < 0 || (fixedSize && offset + |data| > |content|) {
        failures := failures + 1;
        return false;
      }
      content := IO.Overwritten(content, offset, data);
      ok := true;
    }

    method Truncate(n: int) returns (ok: bool)
      modifies this`content, this`failures
      ensures failures == old(failures) + if ok then 0 else 1
      ensures ok ==> n >= 0 && content == (old(content) + IO.Zeros(n))[..n]
    {
      var works: bool := *;
      ok := works && n >= 0;
      if ok {
        content := (content + IO.Zeros(n))[..n];
      } else {
        failures := failures + 1;
      }
    }
  }

  /** After a cancelled patch: the front of the file is what some of the pieces describe, the rest is as it was. */
  ghost predicate IsPartOf(original: Bytes, pieces: seq<Piece>, content: Bytes)
    requires AreSound(original, pieces)
  {
    exists i :: 0 <= i < |pieces| && content == Replaced(original, Whole(original, pieces[..i]))
  }

  /** The loop of both PatchInPlace: at every step the front of the file is what the pieces so far describe and the rest
      is as it was, so giving up between two pieces leaves nothing else changed. */
  method WritePieces(f: File, pieces: seq<Piece>) returns (status: Status, offset: int)
    requires StaysInPlace(pieces, 0)
    modifies f`content, f`failures
    ensures status in {Patched, Cancelled, Failed}
    ensures status == Failed <==> f.failures != old(f.failures)
    ensures f.fixedSize ==> |f.content| == |old(f.content)|
    ensures AreSound(old(f.content), pieces) && status == Patched ==>
              f.content == Replaced(old(f.content), Whole(old(f.content), pieces))
              && offset == |Whole(old(f.content), pieces)|
    ensures AreSound(old(f.content), pieces) && status == Cancelled ==> IsPartOf(old(f.content), pieces, f.content)
  {
    ghost var original := f.content;
    ghost var sound := AreSound(original, pieces);
    offset := 0;
    for i := 0 to |pieces|
      invariant f.failures == old(f.failures)
      invariant sound ==> offset == |Whole(original, pieces[..i])|
      invariant sound ==> f.content == Replaced(original, Whole(original, pieces[..i]))
      invariant f.fixedSize ==> |f.content| == |original|
    {
      var cancelled: bool := *;
      if cancelled {
        return Cancelled, offset;
      }
      var p := pieces[i];
      if sound {
        PieceReplaces(original, pieces, i);
      }
      if p.data.Some? {
        var ok := f.WriteAt(p.data.value, offset);
        if !ok {
          return Failed, offset;
        }
      }
      offset := offset + p.length;
    }
    assert pieces[..|pieces|] == pieces;
    status := Patched;
  }

  /** The next piece: writing its data, or doing nothing for a copy, puts its bytes behind those before it. */
  lemma PieceReplaces(original: Bytes, pieces: seq<Piece>, i: nat)
    requires AreSound(original, pieces) && StaysInPlace(pieces, 0) && i < |pieces|
    ensures var front, next := Whole(original, pieces[..i]), Whole(original, pieces[..i + 1]);
            && |next| == |front| + pieces[i].length
            && Replaced(original, next)
               == (if pieces[i].data.None? then Replaced(original, front)
                   else IO.Overwritten(Replaced(original, front), |front|, pieces[i].data.value))
  {
    var front := Whole(original, pieces[..i]);
    assert IsSound(original, pieces[i]);
    WholeSnoc(original, pieces, i);
    if pieces[i].data.Some? {
      DataReplaces(original, front, pieces[i].data.value);
    } else {
      InPlaceAt(original, pieces, 0, i);
      CopyReplaces(original, front, pieces[i].length);
    }
  }

  /** OSVFS.PatchInPlace: a refused list changes nothing; afterwards the file is what the pieces describe, also when
      that is shorter. */
  method PatchInPlace(f: File, pieces: seq<Piece>) returns (status: Status)
    modifies f`content, f`failures
    ensures status == Failed <==> f.failures != old(f.failures)
    ensures status == Refused <==> !StaysInPlace(pieces, 0)
    ensures status == Refused ==> f.content == old(f.content)
    ensures AreSound(old(f.content), pieces) && status == Patched ==> f.content == Whole(old(f.content), pieces)
    ensures AreSound(old(f.content), pieces) && status == Cancelled ==> IsPartOf(old(f.content), pieces, f.content)
  {
    var valid := ValidateInPlacePieces(pieces);
    if !valid {
      return Refused;
    }
    var offset;
    status, offset := WritePieces(f, pieces);
    if status == Patched {
      var ok := f.Truncate(offset);
      if !ok {
        status := Failed;
      }
    }
  }

  /** DisksVFS.PatchInPlace: what is behind the last piece stays. */
  method PatchDiskInPlace(f: File, pieces: seq<Piece>) returns (status: Status)
    requires f.fixedSize
    modifies f`content, f`failures
    ensures status == Failed <==> f.failures != old(f.failures)
    ensures status == Refused <==> !StaysInPlace(pieces, 0)
    ensures status == Refused ==> f.content == old(f.content)
    ensures |f.content| == |old(f.content)|
    ensures AreSound(old(f.content), pieces) && status == Patched ==>
              var front := Whole(old(f.content), pieces);
              |front| <= |f.content| && f.content == front + old(f.content)[|front|..]
    ensures AreSound(old(f.content), pieces) && status == Cancelled ==> IsPartOf(old(f.content), pieces, f.content)
  {
    var valid := ValidateInPlacePieces(pieces);
    if !valid {
      return Refused;
    }
    var offset;
    status, offset := WritePieces(f, pieces);
  }

  /** Where a piece begins: the lengths before it. */
  function Place(pieces: seq<Piece>, i: nat): int
    requires i <= |pieces|
  {
    if i == 0 then 0 else Place(pieces, i - 1) + pieces[i - 1].length
  }

  lemma {:induction false} PlaceCons(pieces: seq<Piece>, i: nat)
    requires i < |pieces|
    ensures Place(pieces, i + 1) == pieces[0].length + Place(pieces[1..], i)
    decreases i
  {
    if i > 0 {
      PlaceCons(pieces, i - 1);
      assert pieces[1..][i - 1] == pieces[i];
    }
  }

  lemma {:induction false} StaysFrom(pieces: seq<Piece>, offset: int)
    ensures StaysInPlace(pieces, offset)
        <==> forall i :: 0 <= i < |pieces| && pieces[i].data == None ==> pieces[i].offset == offset + Place(pieces, i)
    decreases |pieces|
  {
    if pieces != [] {
      var rest := pieces[1..];
      StaysFrom(rest, offset + pieces[0].length);
      forall i | 0 <= i < |rest|
        ensures pieces[i + 1] == rest[i] && Place(pieces, i + 1) == pieces[0].length + Place(rest, i)
      {
        PlaceCons(pieces, i);
      }
      if StaysInPlace(pieces, offset) {
        forall i | 0 <= i < |pieces| && pieces[i].data == None
          ensures pieces[i].offset == offset + Place(pieces, i)
        {
          if i > 0 {
            assert pieces[i] == rest[i - 1];
          }
        }
      }
      if forall i :: 0 <= i < |pieces| && pieces[i].data == None ==> pieces[i].offset == offset + Place(pieces, i) {
        forall i | 0 <= i < |rest| && rest[i].data == None
          ensures rest[i].offset == offset + pieces[0].length + Place(rest, i)
        {
          assert pieces[i + 1] == rest[i];
        }
      }
    }
  }

  /** A list is accepted exactly if every copied piece is where the lengths before it put it. */
  lemma AcceptedExactly(pieces: seq<Piece>)
    ensures StaysInPlace(pieces, 0)
        <==> forall i :: 0 <= i < |pieces| && pieces[i].data == None ==> pieces[i].offset == Place(pieces, i)
  {
    StaysFrom(pieces, 0);
  }
}
