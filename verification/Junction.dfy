/** The reparse data of a directory junction (mountPointReparseBuffer, vfs/junction_buffer.go), the
    MountPointReparseBuffer of section 2.1.2.5 of MS-FSCC, and reading it back (the parsing part of
    resolveWindowsJunction, vfs/os_vfs_windows.go). */
module Junction {
  import opened Base
  import Utf16

  const EXTENDED_PREFIX: string := "\\\\?\\"
  const NT_PREFIX: string := "\\??\\"

  const MOUNT_POINT_HEADER: nat := 8
  const GENERIC_HEADER: nat := 8
  const MAX_BUFFER: nat := 0x4000

  /** A path on a drive: one ASCII character, a colon and a slash. The program looks at bytes; in valid UTF-8 the second
      byte is a colon only behind a one-byte character. */
  predicate IsOnDrive(t: string) {
    |t| >= 3 && t[0] as int < 0x80 && t[1] == ':' && (t[2] == '\\' || t[2] == '/')
  }

  function Backslashes(t: string): (r: string)
    ensures |r| == |t|
  {
    seq(|t|, i requires 0 <= i < |t| => if t[i] == '/' then '\\' else t[i])
  }

  function TrimRightBackslashes(t: string): (r: string)
    ensures r <= t
  {
    if t != "" && t[|t| - 1] == '\\' then TrimRightBackslashes(t[..|t| - 1]) else t
  }

  /** The target with backslashes only and none at its end, but for the root of a drive. */
  function Normalised(target: string): string {
    var t := TrimRightBackslashes(Backslashes(TrimPrefix(target, EXTENDED_PREFIX)));
    if |t| == 2 then t + "\\" else t
  }

  /** Both names with their NULs in bytes, and the fields before them. */
  function DataLength(t: string): nat {
    MOUNT_POINT_HEADER + 2 * (|Utf16.Encode(NT_PREFIX + t)| + 1 + |Utf16.Encode(t)| + 1)
  }

  predicate IsAccepted(target: string) {
    IsOnDrive(TrimPrefix(target, EXTENDED_PREFIX)) && DataLength(Normalised(target)) <= MAX_BUFFER - GENERIC_HEADER
  }

  /** Every length and offset of an accepted target fits its 16 bits. */
  lemma FieldsFit(t: string)
    requires DataLength(t) <= MAX_BUFFER - GENERIC_HEADER
    ensures DataLength(t) < 0x1_0000
    ensures 2 * |Utf16.Encode(NT_PREFIX + t)| + 2 < 0x1_0000 && 2 * |Utf16.Encode(t)| < 0x1_0000
  {
  }

  /** The fields before the names, as 16-bit words: the tag, the data length, two reserved bytes, then offset and length
      of the substitute name and of the print name. */
  function Header(t: string): (h: seq<Word>)
    requires DataLength(t) <= MAX_BUFFER - GENERIC_HEADER
    ensures |h| == 8
  {
    FieldsFit(t);
    var substitute, print_ := 2 * |Utf16.Encode(NT_PREFIX + t)|, 2 * |Utf16.Encode(t)|;
    [0x0003, 0xA000, DataLength(t), 0, 0, substitute, substitute + 2, print_]
  }

  /** The whole buffer in words. */
  function Words(t: string): (w: seq<Word>)
    requires DataLength(t) <= MAX_BUFFER - GENERIC_HEADER
    ensures 2 * |w| == GENERIC_HEADER + DataLength(t)
  {
    Header(t) + Utf16.Encode(NT_PREFIX + t) + [0] + Utf16.Encode(t) + [0]
  }

  /** The fields and both names put into a zeroed buffer, a NUL's room left behind each name. */
  method FillBuffer(buf: array<Byte>, header: seq<Word>, substitute: seq<Word>, printName: seq<Word>)
    requires |header| == 8 && buf.Length == 2 * (8 + |substitute| + 1 + |printName| + 1)
    requires forall i :: 0 <= i < buf.Length ==> buf[i] == 0
    modifies buf
    ensures buf[..] == Utf16.ToBytes(header + substitute + [0] + printName + [0])
  {
    ghost var b0 := buf[..];
    Utf16.PutWords(buf, 0, header);
    var offset := GENERIC_HEADER + MOUNT_POINT_HEADER;
    ghost var b1 := buf[..];
    PutMore(b0, b1, [], Utf16.ToBytes(header));
    Utf16.PutWords(buf, offset, substitute);
    offset := offset + 2 * |substitute|;
    ghost var b2 := buf[..];
    PutMore(b1, b2, Utf16.ToBytes(header), Utf16.ToBytes(substitute));
    offset := offset + 2; // NUL
    PutNul(b2, Utf16.ToBytes(header) + Utf16.ToBytes(substitute));
    ghost var second := Utf16.ToBytes(header) + Utf16.ToBytes(substitute) + [0, 0];
    Utf16.PutWords(buf, offset, printName);
    PutMore(b2, buf[..], second, Utf16.ToBytes(printName));
    PutNul(buf[..], second + Utf16.ToBytes(printName));
    BufferBytes(header, substitute, printName);
  }

  /** The buffer starts with what is done and is still zero behind it. */
  predicate IsPut(b: seq<Byte>, done: seq<Byte>) {
    done <= b && forall i :: |done| <= i < |b| ==> b[i] == 0
  }

  lemma PutMore(before: seq<Byte>, after: seq<Byte>, done: seq<Byte>, more: seq<Byte>)
    requires IsPut(before, done) && |done| + |more| <= |before| == |after|
    requires after[..|done|] == before[..|done|] && after[|done|..|done| + |more|] == more
    requires after[|done| + |more|..] == before[|done| + |more|..]
    ensures IsPut(after, done + more)
  {
    assert after[..|done| + |more|] == after[..|done|] + after[|done|..|done| + |more|];
    forall i | |done| + |more| <= i < |after|
      ensures after[i] == 0
    {
      assert after[|done| + |more|..][i - |done| - |more|] == before[|done| + |more|..][i - |done| - |more|];
    }
  }

  lemma PutNul(b: seq<Byte>, done: seq<Byte>)
    requires IsPut(b, done) && |done| + 2 <= |b|
    ensures IsPut(b, done + [0, 0])
  {
    assert b[..|done| + 2] == b[..|done|] + [b[|done|], b[|done| + 1]];
  }

  lemma BufferBytes(header: seq<Word>, substitute: seq<Word>, printName: seq<Word>)
    ensures Utf16.ToBytes(header + substitute + [0] + printName + [0])
         == Utf16.ToBytes(header) + Utf16.ToBytes(substitute) + [0, 0] + Utf16.ToBytes(printName) + [0, 0]
  {
    Utf16.ToBytesAppend(header, substitute);
    Utf16.ToBytesSnoc(header + substitute, 0);
    Utf16.ToBytesAppend(header + substitute + [0], printName);
    Utf16.ToBytesSnoc(header + substitute + [0] + printName, 0);
  }

  /** Refused is exactly what is not on a drive or needs more than 16 KiB. */
  method MountPointReparseBuffer(target: string) returns (r: Option<seq<Byte>>)
    ensures r.Some? <==> IsAccepted(target)
    ensures var t, n := TrimPrefix(target, "\\\\?\\"), Normalised(target);
            r.Some? <==> |t| >= 3 && t[0] as int < 0x80 && t[1] == ':' && (t[2] == '\\' || t[2] == '/')
                         && 16 + 2 * |Utf16.Encode("\\??\\" + n)| + 2 + 2 * |Utf16.Encode(n)| + 2 <= 0x4000
    ensures r.Some? ==> r.value == Utf16.ToBytes(Words(Normalised(target)))
  {
    var t := TrimPrefix(target, EXTENDED_PREFIX);
    if !IsOnDrive(t) {
      return None;
    }
    t := TrimRightBackslashes(Backslashes(t));
    if |t| == 2 {
      t := t + "\\";
    }
    var substitute := Utf16.Encode(NT_PREFIX + t);
    var printName := Utf16.Encode(t);
    var pathBytes := (|substitute| + 1 + |printName| + 1) * 2;
    var dataLength := MOUNT_POINT_HEADER + pathBytes;
    if dataLength > MAX_BUFFER - GENERIC_HEADER {
      return None;
    }
    var buf := new Byte[GENERIC_HEADER + dataLength](_ => 0);
    FieldsFit(t);
    FillBuffer(buf, Header(t), substitute, printName);
    r := Some(buf[..]);
  }

  // ----- reading it back

  datatype Parsed = Target(target: string) | NoJunction | Invalid | OutOfRange

  /** What resolveWindowsJunction takes from the bytes the file system returns; a name that only its own check finds
      within the buffer runs over its end. */
  function ParseTarget(b: seq<Byte>): Parsed
    requires |b| == MAX_BUFFER
  {
    if Utf16.WordAt(b, 0) != 0x0003 || Utf16.WordAt(b, 2) != 0xA000 then NoJunction
    else
      var off, len := Utf16.WordAt(b, 8), Utf16.WordAt(b, 10);
      if off + len > |b| then Invalid
      else if 16 + off + len > |b| then OutOfRange
      else Target(TrimPrefix(Utf16.Decode(Utf16.FromBytes(b[16 + off..16 + off + len])), NT_PREFIX))
  }

  method ParseJunction(b: seq<Byte>) returns (r: Parsed)
    requires |b| == MAX_BUFFER
    ensures r == ParseTarget(b)
  {
    if Utf16.WordAt(b, 0) != 0x0003 || Utf16.WordAt(b, 2) != 0xA000 {
      return NoJunction;
    }
    var off, len := Utf16.WordAt(b, 8), Utf16.WordAt(b, 10);
    if off + len > |b| {
      return Invalid;
    }
    if 16 + off + len > |b| {
      return OutOfRange;
    }
    var bytes := b[16 + off..16 + off + len];
    var words := new Word[|bytes| / 2];
    for i := 0 to words.Length
      invariant words[..i] == Utf16.FromBytes(bytes)[..i]
    {
      Utf16.FromBytesAt(bytes, i);
      words[i] := Utf16.WordAt(bytes, 2 * i);
      assert words[..i + 1] == words[..i] + [words[i]];
    }
    assert words[..] == Utf16.FromBytes(bytes);
    r := Target(TrimPrefix(Utf16.Decode(words[..]), NT_PREFIX));
  }

  /** A word of the buffer, and a run of words, in the bytes, whatever follows the buffer. */
  lemma WordInBytes(w: seq<Word>, rest: seq<Byte>, k: nat)
    requires k < |w|
    ensures Utf16.WordAt(Utf16.ToBytes(w) + rest, 2 * k) == w[k]
  {
    Utf16.FromToBytes(w);
    Utf16.FromBytesAt(Utf16.ToBytes(w), k);
  }

  lemma RunInBytes(before: seq<Word>, run: seq<Word>, behind: seq<Word>, rest: seq<Byte>)
    ensures var b := Utf16.ToBytes(before + run + behind) + rest;
            b[2 * |before|..2 * |before| + 2 * |run|] == Utf16.ToBytes(run)
  {
    Utf16.ToBytesAppend(before + run, behind);
    Utf16.ToBytesAppend(before, run);
  }

  lemma RunRead(before: seq<Word>, text: string, behind: seq<Word>, rest: seq<Byte>)
    ensures var b := Utf16.ToBytes(before + Utf16.Encode(text) + behind) + rest;
            Utf16.Decode(Utf16.FromBytes(b[2 * |before|..2 * |before| + 2 * |Utf16.Encode(text)|])) == text
  {
    RunInBytes(before, Utf16.Encode(text), behind, rest);
    Utf16.FromToBytes(Utf16.Encode(text));
    Utf16.DecodeEncode(text);
  }

  lemma TrimmedNtPrefix(t: string)
    ensures TrimPrefix(NT_PREFIX + t, NT_PREFIX) == t
  {
  }

  /** The layout: both names lie within the declared data, the substitute name first, each followed by its NUL, and the
      data ends behind the second NUL. */
  lemma NamesFit(t: string)
    requires DataLength(t) <= MAX_BUFFER - GENERIC_HEADER
    ensures var w := Words(t);
            var substituteOff, substituteLen, printOff, printLen := w[4] as int, w[5] as int, w[6] as int, w[7] as int;
            && w[2] as int == DataLength(t) == |Utf16.ToBytes(w)| - GENERIC_HEADER
            && substituteOff == 0 && printOff == substituteOff + substituteLen + 2
            && MOUNT_POINT_HEADER + printOff + printLen + 2 == w[2] as int
            && w[8..8 + substituteLen / 2] == Utf16.Encode(NT_PREFIX + t) && w[8 + substituteLen / 2] == 0
            && w[8 + printOff / 2..8 + printOff / 2 + printLen / 2] == Utf16.Encode(t) && w[|w| - 1] == 0
  {
    FieldsFit(t);
  }

  /** What was written for a target is read back as the normalised target, whatever is behind the buffer. */
  lemma ParseBuffer(target: string, rest: seq<Byte>)
    requires IsAccepted(target)
    requires |Utf16.ToBytes(Words(Normalised(target)))| + |rest| == MAX_BUFFER
    ensures ParseTarget(Utf16.ToBytes(Words(Normalised(target))) + rest) == Target(Normalised(target))
  {
    ParseWords(Normalised(target), rest);
  }

  lemma ParseWords(t: string, rest: seq<Byte>)
    requires DataLength(t) <= MAX_BUFFER - GENERIC_HEADER
    requires |Utf16.ToBytes(Words(t))| + |rest| == MAX_BUFFER
    ensures ParseTarget(Utf16.ToBytes(Words(t)) + rest) == Target(t)
  {
    hide Utf16.ToBytes, Utf16.FromBytes, Utf16.Decode, Utf16.Encode;
    var w := Words(t);
    FieldsFit(t);
    HeaderRead(t, rest);
    assert w == Header(t) + Utf16.Encode(NT_PREFIX + t) + ([0] + Utf16.Encode(t) + [0]);
    RunRead(Header(t), NT_PREFIX + t, [0] + Utf16.Encode(t) + [0], rest);
    TrimmedNtPrefix(t);
  }

  lemma HeaderRead(t: string, rest: seq<Byte>)
    requires DataLength(t) <= MAX_BUFFER - GENERIC_HEADER
    ensures var b := Utf16.ToBytes(Words(t)) + rest;
            && Utf16.WordAt(b, 0) == 0x0003 && Utf16.WordAt(b, 2) == 0xA000
            && Utf16.WordAt(b, 8) == 0 && Utf16.WordAt(b, 10) as int == 2 * |Utf16.Encode(NT_PREFIX + t)|
  {
    var w := Words(t);
    FieldsFit(t);
    WordInBytes(w, rest, 0);
    WordInBytes(w, rest, 1);
    WordInBytes(w, rest, 4);
    WordInBytes(w, rest, 5);
  }

  lemma TrimmedKeeps(t: string, k: nat)
    requires k < |t| && t[k] != '\\'
    ensures |TrimRightBackslashes(t)| > k
    decreases |t|
  {
    if t[|t| - 1] == '\\' {
      TrimmedKeeps(t[..|t| - 1], k);
    }
  }

  lemma TrimmedEnd(t: string)
    ensures var r := TrimRightBackslashes(t); r != "" ==> r[|r| - 1] != '\\'
    decreases |t|
  {
    if t != "" && t[|t| - 1] == '\\' {
      TrimmedEnd(t[..|t| - 1]);
    }
  }

  /** The normalised target has the characters of the target behind its prefix, backslashes for slashes, up to the
      slashes at its end; of those only the one behind the drive is kept. */
  lemma NormalisedIsAbsolute(target: string)
    requires IsAccepted(target)
    ensures var t, n := TrimPrefix(target, "\\\\?\\"), Normalised(target);
            && 3 <= |n| <= |t| && n[1] == ':' && n[2] == '\\' && (n[|n| - 1] == '\\' ==> |n| == 3)
            && (forall i :: 0 <= i < |n| ==> n[i] == if t[i] == '/' then '\\' else t[i])
            && (forall i :: |n| <= i < |t| ==> t[i] == '\\' || t[i] == '/')
  {
    var t := TrimPrefix(target, EXTENDED_PREFIX);
    var s := Backslashes(t);
    TrimmedKeeps(s, 1);
    TrimmedEnd(s);
    TrimmedOff(s);
    var r := TrimRightBackslashes(s);
    assert r == s[..|r|];
    forall i | |r| <= i < |t|
      ensures t[i] == '\\' || t[i] == '/'
    {
      assert s[i] == '\\';
    }
  }

  lemma {:induction false} TrimmedOff(t: string)
    ensures forall i :: |TrimRightBackslashes(t)| <= i < |t| ==> t[i] == '\\'
    decreases |t|
  {
    if t != "" && t[|t| - 1] == '\\' {
      TrimmedOff(t[..|t| - 1]);
    }
  }

  // ----- the bytes of the buffer

  function LittleEndian(w: Word): Bytes {
    [w % 0x100, w / 0x100]
  }

  lemma {:induction false} FirstWord(w: Word, rest: seq<Word>)
    ensures Utf16.ToBytes([w] + rest) == LittleEndian(w) + Utf16.ToBytes(rest)
  {
    assert ([w] + rest)[1..] == rest;
  }

  lemma EightWords(a: Word, b: Word, c: Word, d: Word)
    ensures Utf16.ToBytes([0x0003, 0xA000, a, 0, 0, b, c, d])
         == [0x03, 0x00, 0x00, 0xA0] + LittleEndian(a) + [0, 0, 0, 0] + LittleEndian(b) + LittleEndian(c)
            + LittleEndian(d)
  {
    hide Utf16.ToBytes;
    var w: seq<Word> := [0x0003, 0xA000, a, 0, 0, b, c, d];
    FourWords(0x0003, 0xA000, a, 0);
    FourWords(0, b, c, d);
    Utf16.ToBytesAppend([0x0003, 0xA000, a, 0], [0, b, c, d]);
    assert w == [0x0003, 0xA000, a, 0] + [0, b, c, d];
  }

  lemma FourWords(a: Word, b: Word, c: Word, d: Word)
    ensures Utf16.ToBytes([a, b, c, d]) == LittleEndian(a) + LittleEndian(b) + LittleEndian(c) + LittleEndian(d)
  {
    FirstWord(a, [b, c, d]);
    FirstWord(b, [c, d]);
    FirstWord(c, [d]);
    FirstWord(d, []);
    assert [a, b, c, d] == [a] + [b, c, d] && [b, c, d] == [b] + [c, d] && [c, d] == [c] + [d] && [d] == [d] + [];
    assert Utf16.ToBytes([]) == [];
  }

  /** The tag of a mount point, the length of the data, then offset and length of both names, counted from behind these
      fields, and both names in UTF-16LE, each with two zero bytes behind it that no length counts. */
  lemma BufferLayout(target: string)
    requires IsAccepted(target)
    ensures var t := Normalised(target);
            var substitute, printed := Utf16.ToBytes(Utf16.Encode("\\??\\" + t)), Utf16.ToBytes(Utf16.Encode(t));
            var length := 8 + |substitute| + 2 + |printed| + 2;
            && length <= 0x3FF8
            && Utf16.ToBytes(Words(t))
               == [0x03, 0x00, 0x00, 0xA0] + LittleEndian(length) + [0, 0, 0, 0] + LittleEndian(|substitute|)
                  + LittleEndian(|substitute| + 2) + LittleEndian(|printed|)
                  + substitute + [0, 0] + printed + [0, 0]
  {
    var t := Normalised(target);
    FieldsFit(t);
    BufferBytes(Header(t), Utf16.Encode(NT_PREFIX + t), Utf16.Encode(t));
    EightWords(DataLength(t), 2 * |Utf16.Encode(NT_PREFIX + t)|, 2 * |Utf16.Encode(NT_PREFIX + t)| + 2,
               2 * |Utf16.Encode(t)|);
  }
}
