/** Files read and written in chunks through the elevated dispatcher (vfs/sudo_elevated_file.go), and the dispatcher's
    answers to the chunks (vfs/sudo_elevated_ops.go). Nobody else changes the file meanwhile. */
module ElevatedIO {
  import opened Base

  /** SudoChunkLimit, 4 << 20 */
  const CHUNK_LIMIT: nat := 0x40_0000

  // ----- the dispatcher's side

  datatype WriteRequest = WriteRequest(offset: int, data: Bytes, truncate: bool)

  datatype ReadAnswer = Data(data: Bytes, eof: bool) | Refused

  /** The bytes of the content from an offset on, at most size of them. */
  function Slice(content: Bytes, offset: nat, size: nat): (r: Bytes)
    ensures |r| <= size
  {
    if offset >= |content| then [] else content[offset..Min(offset + size, |content|)]
  }

  /** elevatedReadAt; None is a missing file. */
  function AnswerRead(content: Option<Bytes>, offset: int, size: int): ReadAnswer {
    if size <= 0 || size > CHUNK_LIMIT || offset < 0 || content == None then Refused
    else
      var data := Slice(content.value, offset, size);
      Data(data, |data| < size)
  }

  function Zeros(n: nat): (r: Bytes)
    ensures |r| == n
  {
    seq(n, i => 0)
  }

  /** os.File.WriteAt: what is between the end of the file and the offset becomes zeros. */
  function Overwritten(content: Bytes, offset: nat, data: Bytes): Bytes {
    var padded := if offset <= |content| then content else content + Zeros(offset - |content|);
    padded[..offset] + data + if offset + |data| < |content| then content[offset + |data|..] else []
  }

  /** elevatedWriteAt: the file after the request, None where the request is refused. */
  function AnswerWrite(content: Option<Bytes>, req: WriteRequest): Option<Bytes> {
    if |req.data| > CHUNK_LIMIT || req.offset < 0 then None
    else
      var before := if req.truncate then [] else content.GetOr([]);
      Some(if req.data == [] then before else Overwritten(before, req.offset, req.data))
  }

  lemma OverwrittenAtEnd(content: Bytes, data: Bytes)
    ensures Overwritten(content, |content|, data) == content + data
  {
  }

  /** A file the dispatcher works on. Every request may fail on the way; a failed write may have left anything. */
  class RemoteFile {
    var content: Option<Bytes>

    /** The write requests made so far. */
    ghost var log: seq<WriteRequest>

    /** How many requests have failed on the way. */
    ghost var failures: nat

    constructor (content: Option<Bytes>)
      ensures this.content == content && log == [] && failures == 0
    {
      this.content, log, failures := content, [], 0;
    }

    method WriteAt(offset: int, data: Bytes, truncate: bool) returns (ok: bool)
      modifies this
      ensures log == old(log) + [WriteRequest(offset, data, truncate)]
      ensures ok ==> content.Some? && AnswerWrite(old(content), WriteRequest(offset, data, truncate)) == content
      ensures failures == old(failures) ==> ok == AnswerWrite(old(content), WriteRequest(offset, data, truncate)).Some?
      ensures failures == old(failures) && !ok ==> content == old(content)
      ensures failures == old(failures) || (failures == old(failures) + 1 && !ok)
    {
      var req := WriteRequest(offset, data, truncate);
      log := log + [req];
      var answer := AnswerWrite(content, req);
      var reached: bool := *;
      if !reached {
        content, failures := *, failures + 1;
        return false;
      }
      if answer.Some? {
        content := answer;
      }
      ok := answer.Some?;
    }

    method ReadAt(offset: int, size: int) returns (r: ReadAnswer)
      modifies this`failures
      ensures r == Refused || r == AnswerRead(content, offset, size)
      ensures failures == old(failures) ==> r == AnswerRead(content, offset, size)
      ensures failures == old(failures) || (failures == old(failures) + 1 && r == Refused)
    {
      var reached: bool := *;
      if !reached {
        failures := failures + 1;
        return Refused;
      }
      r := AnswerRead(content, offset, size);
    }
  }

  // ----- writing

  /** The data of the requests, one after the other. */
  function Sent(log: seq<WriteRequest>): Bytes
    decreases |log|
  {
    if log == [] then [] else Sent(log[..|log| - 1]) + log[|log| - 1].data
  }

  /** Requests that write a file from its start without gaps: only the first truncates, none is over the limit. */
  predicate IsWriteLog(log: seq<WriteRequest>)
    decreases |log|
  {
    log == []
    || (IsWriteLog(log[..|log| - 1]) && Continues(log[..|log| - 1], log[|log| - 1]))
  }

  predicate Continues(log: seq<WriteRequest>, req: WriteRequest) {
    |req.data| <= CHUNK_LIMIT && (req.truncate <==> log == []) && req.offset == |Sent(log)|
  }

  lemma LogSnoc(log: seq<WriteRequest>, req: WriteRequest)
    ensures Sent(log + [req]) == Sent(log) + req.data
    ensures IsWriteLog(log + [req]) <==> IsWriteLog(log) && Continues(log, req)
  {
    assert (log + [req])[..|log|] == log;
  }

  /** Each request of such a log starts where the data of those before it ends. */
  lemma {:induction false} LogAt(log: seq<WriteRequest>, i: nat)
    requires IsWriteLog(log) && i < |log|
    ensures |log[i].data| <= CHUNK_LIMIT && (log[i].truncate <==> i == 0) && log[i].offset == |Sent(log[..i])|
    decreases |log|
  {
    var init := log[..|log| - 1];
    if i < |log| - 1 {
      LogAt(init, i);
      assert init[..i] == log[..i];
    }
  }

  lemma WrittenAtEnd(content: Option<Bytes>, before: Bytes, data: Bytes, first: bool)
    requires |data| <= CHUNK_LIMIT && if first then before == [] else content == Some(before)
    ensures AnswerWrite(content, WriteRequest(|before|, data, first)) == Some(before + data)
  {
    OverwrittenAtEnd(before, data);
    assert before + [] == before;
  }

  /** The next chunk, sent where the file ends so far. */
  lemma ChunkSent(content: Option<Bytes>, log: seq<WriteRequest>, data: Bytes)
    requires IsWriteLog(log) && |data| <= CHUNK_LIMIT && (log != [] ==> content == Some(Sent(log)))
    ensures var req := WriteRequest(|Sent(log)|, data, log == []);
            && IsWriteLog(log + [req]) && Sent(log + [req]) == Sent(log) + data
            && AnswerWrite(content, req) == Some(Sent(log) + data)
  {
    var req := WriteRequest(|Sent(log)|, data, log == []);
    LogSnoc(log, req);
    WrittenAtEnd(content, Sent(log), data, log == []);
  }

  /** A file being written: what is written is what the requests carried and the buffer still holds. */
  predicate IsUnderWay(log: seq<WriteRequest>, content: Option<Bytes>, off: nat, sent: bool, buf: Bytes,
                       written: Bytes)
  {
    && IsWriteLog(log) && off == |Sent(log)| && written == Sent(log) + buf
    && (sent <==> log != []) && (sent ==> content == Some(Sent(log)))
  }

  lemma ChunkLeaves(log: seq<WriteRequest>, content: Option<Bytes>, off: nat, sent: bool, buf: Bytes, written: Bytes,
                    n: nat)
    requires IsUnderWay(log, content, off, sent, buf, written) && n <= |buf| && n <= CHUNK_LIMIT
    ensures var req := WriteRequest(off, buf[..n], !sent);
            && AnswerWrite(content, req).Some?
            && IsUnderWay(log + [req], AnswerWrite(content, req), off + n, true, buf[n..], written)
  {
    ChunkSent(content, log, buf[..n]);
    assert buf == buf[..n] + buf[n..];
    Assoc(Sent(log), buf[..n], buf[n..]);
  }

  datatype WriteResult = Wrote(n: nat) | ClosedPipe | WriteFailed

  class ElevatedWriter {
    const file: RemoteFile
    var buf: Bytes
    var off: nat
    var sent: bool
    var closed: bool

    /** Everything Write was given, and whether any request has failed. */
    ghost var written: Bytes
    ghost var failed: bool

    /** As long as no request fails, the file holds what is written but not in the buffer. */
    ghost predicate Valid()
      reads this, file
    {
      !failed ==> IsUnderWay(file.log, file.content, off, sent, buf, written)
    }

    /** Between two calls less than a chunk is in the buffer, unless a request has failed. */
    ghost predicate Ready()
      reads this, file
    {
      Valid() && (!failed ==> |buf| < CHUNK_LIMIT)
    }

    constructor (file: RemoteFile)
      requires file.log == []
      ensures this.file == file && Ready() && !failed && !closed && written == []
    {
      this.file := file;
      buf, off, sent, closed := [], 0, false, false;
      written, failed := [], false;
    }

    method Flush(n: nat) returns (ok: bool)
      requires Valid() && n <= |buf| && (!failed ==> n <= CHUNK_LIMIT)
      modifies file, this`buf, this`off, this`sent, this`failed
      ensures Valid() && failed == (old(failed) || !ok)
      ensures file.failures >= old(file.failures)
      ensures !old(failed) ==> ok == (file.failures == old(file.failures))
      ensures ok ==> buf == old(buf)[n..] && sent
      ensures !ok ==> buf == old(buf)
    {
      ghost var log, content := file.log, file.content;
      if !failed {
        ChunkLeaves(log, content, off, sent, buf, written, n);
      }
      ok := file.WriteAt(off, buf[..n], !sent);
      if !ok {
        failed := true;
        return;
      }
      sent := true;
      off := off + n;
      buf := buf[n..];
    }

    method Write(p: Bytes) returns (r: WriteResult)
      requires Ready()
      modifies file, this`buf, this`off, this`sent, this`failed, this`written
      ensures Ready()
      ensures closed ==> r == ClosedPipe && written == old(written) && failed == old(failed) && buf == old(buf)
      ensures closed ==> file.log == old(file.log) && file.content == old(file.content)
      ensures !closed ==> r in {Wrote(|p|), WriteFailed} && written == old(written) + p
      ensures !closed ==> failed == (old(failed) || r == WriteFailed)
      ensures !closed && !old(failed) ==> (r == WriteFailed <==> file.failures != old(file.failures))
    {
      if closed {
        return ClosedPipe;
      }
      buf := buf + p;
      written := written + p;
      while |buf| >= CHUNK_LIMIT
        invariant Valid() && failed == old(failed)
        invariant written == old(written) + p
        invariant !failed ==> file.failures == old(file.failures)
        decreases |buf|
      {
        var ok := Flush(CHUNK_LIMIT);
        if !ok {
          return WriteFailed;
        }
      }
      r := Wrote(|p|);
    }

    /** Close sends what is left; a file that was never written to is created empty. */
    method Close() returns (ok: bool)
      requires Ready()
      modifies file, this`buf, this`off, this`sent, this`failed, this`closed
      ensures Valid() && closed
      ensures old(closed) ==> ok && file.content == old(file.content) && file.log == old(file.log)
      ensures !old(closed) && !old(failed) ==> ok == (file.failures == old(file.failures))
      ensures !old(closed) && ok && !old(failed) ==>
                file.content == Some(written) && IsWriteLog(file.log) && file.log != [] && Sent(file.log) == written
    {
      if closed {
        return true;
      }
      closed := true;
      if |buf| == 0 && sent {
        assert !failed ==> written == Sent(file.log) + [] == Sent(file.log);
        return true;
      }
      ok := Flush(|buf|);
      assert ok && !failed ==> written == Sent(file.log) + [] == Sent(file.log);
    }
  }

  /** Any sequence of writes followed by Close: it fails only where a request fails, and otherwise the file is what was
      written, all of it and in order, sent in requests within the limit of which only the first truncates; nothing
      written leaves an empty file. */
  method WriteAll(file: RemoteFile, pieces: seq<Bytes>) returns (ok: bool)
    requires file.log == []
    modifies file
    ensures ok ==> file.content == Some(Flatten(pieces)) && IsWriteLog(file.log) && file.log != []
    ensures ok <==> file.failures == old(file.failures)
  {
    var w := new ElevatedWriter(file);
    for i := 0 to |pieces|
      invariant file.failures == old(file.failures)
      invariant w.file == file && w.Ready() && !w.failed && !w.closed
      invariant w.written == Flatten(pieces[..i])
      invariant fresh(w)
    {
      assert pieces[..i + 1] == pieces[..i] + [pieces[i]];
      FlattenSnoc(pieces[..i], pieces[i]);
      var r := w.Write(pieces[i]);
      if r == WriteFailed {
        return false;
      }
    }
    assert pieces[..|pieces|] == pieces;
    ok := w.Close();
  }

  // ----- reading

  datatype ReadStatus = Full | AtEnd | ReadFailed

  class ElevatedFile {
    const file: RemoteFile
    var pos: nat

    constructor (file: RemoteFile)
      ensures this.file == file && pos == 0
    {
      this.file, pos := file, 0;
    }

    /** Reads one chunk of what is missing behind the first n bytes of p. */
    method ReadChunk(p: array<Byte>, off: int, n: nat, ghost was: Bytes) returns (more: nat, eof: bool, ok: bool)
      requires n < p.Length && IsFilled(file.content, off, was, p[..], n)
      modifies p, file`failures
      ensures file.failures == old(file.failures) ==> (ok <==> off + n >= 0 && file.content.Some?)
      ensures file.failures != old(file.failures) ==> !ok
      ensures IsFilled(file.content, off, was, p[..], n + more)
      ensures ok ==> off >= 0 && file.content.Some? && if eof then off + n + more >= |file.content.value| else more > 0
      ensures !ok ==> more == 0
    {
      var chunk := Min(p.Length - n, CHUNK_LIMIT);
      var answer := file.ReadAt(off + n, chunk);
      if answer == Refused {
        return 0, false, false;
      }
      FilledMore(file.content, off, was, p[..], n, chunk, answer.data);
      CopyInto(p, n, answer.data);
      more, eof, ok := |answer.data|, answer.eof, true;
    }

    /** Fills p from the file at off, as reading the file directly does: what is read is the file's bytes, and the end
        is reported exactly when there are fewer than asked for. Where no request fails on the way, only an offset
        before the start or a missing file is an error. */
    method ReadAt(p: array<Byte>, off: int) returns (n: nat, status: ReadStatus)
      modifies p, file`failures
      ensures file.failures != old(file.failures) ==> status == ReadFailed
      ensures file.failures == old(file.failures) ==>
                (status == ReadFailed <==> p.Length > 0 && (off < 0 || file.content == None))
      ensures IsFilled(file.content, off, old(p[..]), p[..], n)
      ensures status != ReadFailed ==> (n < p.Length <==> status == AtEnd)
      ensures status != ReadFailed && p.Length > 0 ==>
                off >= 0 && file.content.Some? && p[..n] == Slice(file.content.value, off, p.Length)
    {
      n := 0;
      ghost var was := p[..];
      while n < p.Length
        invariant file.failures == old(file.failures)
        invariant n > 0 ==> off >= 0 && file.content.Some?
        invariant IsFilled(file.content, off, was, p[..], n)
        decreases p.Length - n
      {
        var more, eof, ok := ReadChunk(p, off, n, was);
        if !ok {
          return n, ReadFailed;
        }
        n := n + more;
        if eof {
          FilledWhole(file.content, off, was, p[..], n);
          if n < p.Length {
            return n, AtEnd;
          }
          break;
        }
      }
      if n > 0 {
        FilledWhole(file.content, off, was, p[..], n);
      }
      status := Full;
    }

    /** Reads on from where the last Read ended. */
    method Read(p: array<Byte>) returns (n: nat, status: ReadStatus)
      modifies p, this`pos, file`failures
      ensures file.failures != old(file.failures) ==> status == ReadFailed
      ensures file.failures == old(file.failures) ==> (status == ReadFailed <==> p.Length > 0 && file.content == None)
      ensures n <= p.Length && pos == old(pos) + n
      ensures IsFilled(file.content, old(pos), old(p[..]), p[..], n)
      ensures status != ReadFailed ==> (n < p.Length <==> status == AtEnd)
      ensures status != ReadFailed && p.Length > 0 ==>
                file.content.Some? && p[..n] == Slice(file.content.value, old(pos), p.Length)
    {
      n, status := ReadAt(p, pos);
      pos := pos + n;
    }
  }

  /** Reading on and on with any buffer gives the whole file, unless a request fails or there is no file. */
  method ReadAll(file: RemoteFile, p: array<Byte>) returns (data: Bytes, ok: bool)
    requires p.Length > 0
    modifies p, file`failures
    ensures ok ==> Some(data) == file.content
    ensures file.failures != old(file.failures) ==> !ok
    ensures file.failures == old(file.failures) ==> (ok <==> file.content.Some?)
  {
    data := [];
    var f := new ElevatedFile(file);
    while true
      invariant f.file == file && fresh(f) && file.failures == old(file.failures)
      invariant f.pos == |data|
      invariant data != [] ==> file.content.Some? && data <= file.content.value
      decreases |file.content.GetOr([])| - f.pos
    {
      var n, status := f.Read(p);
      if status == ReadFailed {
        return data, false;
      }
      SliceGoesOn(file.content.value, data, p.Length);
      data := data + p[..n];
      if status == AtEnd {
        return data, true;
      }
    }
  }

  lemma SliceGoesOn(content: Bytes, data: Bytes, size: nat)
    requires data <= content
    ensures data + Slice(content, |data|, size) <= content
    ensures |Slice(content, |data|, size)| < size ==> data + Slice(content, |data|, size) == content
  {
  }

  /** The first n bytes are the file's from off on, the others as they were. */
  predicate IsFilled(content: Option<Bytes>, off: int, was: Bytes, now: Bytes, n: nat) {
    && |now| == |was| && n <= |now| && now[n..] == was[n..]
    && (n > 0 ==> off >= 0 && content.Some? && off + n <= |content.value| && now[..n] == content.value[off..off + n])
  }

  /** data put into p at the given place */
  function Put(p: Bytes, at: nat, data: Bytes): (r: Bytes)
    requires at + |data| <= |p|
    ensures |r| == |p|
  {
    p[..at] + data + p[at + |data|..]
  }

  lemma FilledMore(content: Option<Bytes>, off: int, was: Bytes, now: Bytes, n: nat, chunk: nat, data: Bytes)
    requires IsFilled(content, off, was, now, n) && n + chunk <= |now| && 0 < chunk <= CHUNK_LIMIT
    requires AnswerRead(content, off + n, chunk).Data? && AnswerRead(content, off + n, chunk).data == data
    ensures off >= 0 && content.Some?
    ensures IsFilled(content, off, was, Put(now, n, data), n + |data|)
    ensures |data| < chunk ==> off + n + |data| >= |content.value|
  {
    var all := Put(now, n, data);
    assert all[n + |data|..] == now[n + |data|..] == now[n..][|data|..];
    if |data| > 0 {
      assert data == content.value[off + n..off + n + |data|];
      assert all[..n + |data|] == now[..n] + data;
    }
  }

  lemma FilledWhole(content: Option<Bytes>, off: int, was: Bytes, now: Bytes, n: nat)
    requires IsFilled(content, off, was, now, n) && off >= 0 && content.Some?
    requires off + n >= |content.value| || n == |now|
    ensures now[..n] == Slice(content.value, off, |now|)
  {
  }

  /** copy(p[at:], data) */
  method CopyInto(p: array<Byte>, at: nat, data: Bytes)
    requires at + |data| <= p.Length
    modifies p
    ensures p[..] == Put(old(p[..]), at, data)
  {
    for i := 0 to |data|
      invariant p[..at] == old(p[..at]) && p[at + |data|..] == old(p[at + |data|..])
      invariant p[at..at + i] == data[..i]
    {
      p[at + i] := data[i];
      assert p[at..at + i + 1] == p[at..at + i] + [data[i]];
    }
  }

  // ----- what the dispatcher answers, byte by byte

  /** A read is refused for a missing file, an offset before its start, or a size that is not positive or over 4 MiB;
      otherwise it gives the bytes from the offset on, as many as asked for or as there are, and says whether these were
      fewer. */
  lemma ReadAnswered(content: Option<Bytes>, offset: int, size: int)
    ensures var r := AnswerRead(content, offset, size);
            && (r == Refused <==> content == None || offset < 0 || size <= 0 || size > 0x40_0000)
            && (r.Data? ==>
                  && |r.data| == (if offset >= |content.value| then 0
                                  else if offset + size <= |content.value| then size else |content.value| - offset)
                  && (forall i :: 0 <= i < |r.data| ==> r.data[i] == content.value[offset + i])
                  && (r.eof <==> offset + size > |content.value|))
  {
  }

  /** A write is refused for an offset before the start or more than 4 MiB. Otherwise the file has the data from the
      offset on, what it had before, unless it was emptied, elsewhere, and zeros in a gap between both. */
  lemma WriteAnswered(content: Option<Bytes>, req: WriteRequest)
    ensures var r := AnswerWrite(content, req);
            var before: Bytes := if req.truncate || content == None then [] else content.value;
            && (r == None <==> req.offset < 0 || |req.data| > 0x40_0000)
            && (r.Some? && req.data == [] ==> r.value == before)
            && (r.Some? && req.data != [] ==>
                  && |r.value| == (if req.offset + |req.data| > |before| then req.offset + |req.data| else |before|)
                  && forall i :: 0 <= i < |r.value| ==>
                       r.value[i] == if req.offset <= i < req.offset + |req.data| then req.data[i - req.offset]
                                     else if i < |before| then before[i] else 0)
  {
    hide Overwritten;
    var before: Bytes := if req.truncate || content == None then [] else content.value;
    if req.offset >= 0 && req.data != [] {
      ByteOverwritten(before, req.offset, req.data);
    }
  }

  lemma ByteOverwritten(content: Bytes, offset: nat, data: Bytes)
    ensures var r := Overwritten(content, offset, data);
            && |r| == (if offset + |data| > |content| then offset + |data| else |content|)
            && forall i :: 0 <= i < |r| ==>
                 r[i] == if offset <= i < offset + |data| then data[i - offset]
                         else if i < |content| then content[i] else 0
  {
    var padded := if offset <= |content| then content else content + Zeros(offset - |content|);
    var r := Overwritten(content, offset, data);
    forall i | 0 <= i < |r|
      ensures r[i] == if offset <= i < offset + |data| then data[i - offset]
                      else if i < |content| then content[i] else 0
    {
      if i < offset {
        assert r[i] == padded[..offset][i] == padded[i];
      } else if i >= offset + |data| {
        assert r[i] == content[offset + |data|..][i - offset - |data|];
      }
    }
  }
}
