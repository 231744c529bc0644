/** Messages of the elevated channel as length-prefixed frames (vfs/sudo_frame.go). The payload, JSON in the program, is
    any bytes here. */
module SudoFrame {
  import opened Base

  /** sudoFrameLimit, 64 << 20 */
  const FRAME_LIMIT: nat := 0x400_0000

  /** binary.LittleEndian.PutUint32 */
  function Prefix(n: nat): (b: Bytes)
    requires n <= FRAME_LIMIT
    ensures |b| == 4
  {
    [n % 0x100, n / 0x100 % 0x100, n / 0x1_0000 % 0x100, n / 0x100_0000]
  }

  /** binary.LittleEndian.Uint32 */
  function PrefixValue(b: Bytes): nat
    requires |b| == 4
  {
    b[0] as int + 0x100 * (b[1] as int) + 0x1_0000 * (b[2] as int) + 0x100_0000 * (b[3] as int)
  }

  lemma PrefixRead(n: nat)
    requires n <= FRAME_LIMIT
    ensures PrefixValue(Prefix(n)) == n
  {
    var q1 := n / 0x100;
    var q2 := q1 / 0x100;
    assert n / 0x1_0000 == q2 && n / 0x100_0000 == q2 / 0x100;
    assert n == 0x100 * q1 + n % 0x100 && q1 == 0x100 * q2 + q1 % 0x100 && q2 == 0x100 * (q2 / 0x100) + q2 % 0x100;
  }

  /** writeSudoFrame: a message over the limit is not sent. */
  function Frame(payload: Bytes): Option<Bytes> {
    if |payload| > FRAME_LIMIT then None else Some(Prefix(|payload|) + payload)
  }

  /** What readSudoFrame makes of the bytes still to come. */
  datatype Parsed = Message(payload: Bytes, rest: Bytes) | TooLarge | Ended

  function Parse(stream: Bytes): Parsed {
    if |stream| < 4 then Ended
    else
      var n := PrefixValue(stream[..4]);
      if n > FRAME_LIMIT then TooLarge
      else if |stream| < 4 + n then Ended
      else Message(stream[4..4 + n], stream[4 + n..])
  }

  /** All messages of a stream up to the first that cannot be read. */
  function ParseAll(stream: Bytes): (r: seq<Bytes>)
    decreases |stream|
  {
    match Parse(stream)
    case Message(payload, rest) => [payload] + ParseAll(rest)
    case _ => []
  }

  /** A frame is read back as its payload, whatever follows it. */
  lemma ParseFrame(payload: Bytes, rest: Bytes)
    requires |payload| <= FRAME_LIMIT
    ensures Parse(Frame(payload).value + rest) == Message(payload, rest)
  {
    var n := |payload|;
    var stream := Frame(payload).value + rest;
    PrefixRead(n);
    assert stream == Prefix(n) + (payload + rest);
    assert stream[..4] == Prefix(n) && stream[4..] == payload + rest;
    assert stream[4..4 + n] == stream[4..][..n] && stream[4 + n..] == stream[4..][n..];
  }

  predicate AreSendable(payloads: seq<Bytes>) {
    forall i :: 0 <= i < |payloads| ==> |payloads[i]| <= FRAME_LIMIT
  }

  /** What a sender puts on the wire. */
  function Wire(payloads: seq<Bytes>): Bytes
    requires AreSendable(payloads)
  {
    if payloads == [] then [] else Frame(payloads[0]).value + Wire(payloads[1..])
  }

  /** Everything sent is read back, in order. */
  lemma {:induction false} WireRead(payloads: seq<Bytes>)
    requires AreSendable(payloads)
    ensures ParseAll(Wire(payloads)) == payloads
  {
    if payloads != [] {
      ParseFrame(payloads[0], Wire(payloads[1..]));
      WireRead(payloads[1..]);
    }
  }

  /** A frame cut short is not read as any message. */
  lemma CutFrame(payload: Bytes, cut: Bytes)
    requires |payload| <= FRAME_LIMIT && cut < Frame(payload).value
    ensures Parse(cut) == Ended
  {
    if |cut| >= 4 {
      PrefixRead(|payload|);
      assert cut[..4] == Frame(payload).value[..4] == Prefix(|payload|);
    }
  }

  lemma CutBehind(first: Bytes, rest: Bytes, cut: Bytes) returns (more: Bytes)
    requires cut <= first + rest && |first| <= |cut|
    ensures cut == first + more && more <= rest
  {
    more := cut[|first|..];
    assert cut == (first + rest)[..|cut|];
    assert first == (first + rest)[..|first|] == cut[..|first|];
    assert more == (first + rest)[|first|..|cut|] == rest[..|more|];
  }

  /** Wherever the stream breaks off, what was read until then is what was sent first. */
  lemma {:induction false} CutWireRead(payloads: seq<Bytes>, cut: Bytes)
    requires AreSendable(payloads) && cut <= Wire(payloads)
    ensures ParseAll(cut) <= payloads
  {
    if payloads != [] {
      var first := Frame(payloads[0]).value;
      var rest := Wire(payloads[1..]);
      if |cut| < |first| {
        assert cut == (first + rest)[..|cut|] == first[..|cut|];
        CutFrame(payloads[0], cut);
      } else {
        var more := CutBehind(first, rest, cut);
        ParseFrame(payloads[0], more);
        CutWireRead(payloads[1..], more);
        assert [payloads[0]] + payloads[1..] == payloads;
      }
    }
  }

  /** The number the first four bytes spell, the low one first. */
  function Number(b: Bytes): nat
    requires |b| >= 4
  {
    b[0] as int + 0x100 * (b[1] as int + 0x100 * (b[2] as int + 0x100 * (b[3] as int)))
  }

  lemma PrefixNumber(payload: Bytes)
    requires |payload| <= FRAME_LIMIT
    ensures var frame := Prefix(|payload|) + payload;
            |frame| == 4 + |payload| && frame[4..] == payload && Number(frame) == |payload|
  {
    PrefixRead(|payload|);
  }

  /** A length over 64 MiB is refused before anything behind it is read, and a shorter one waits for all its bytes. */
  lemma LengthDecides(stream: Bytes)
    requires |stream| >= 4
    ensures Number(stream) > 0x400_0000 ==> Parse(stream) == TooLarge
    ensures Number(stream) <= 0x400_0000 && |stream| < 4 + Number(stream) ==> Parse(stream) == Ended
    ensures Number(stream) <= 0x400_0000 && |stream| >= 4 + Number(stream) ==>
              Parse(stream) == Message(stream[4..4 + Number(stream)], stream[4 + Number(stream)..])
  {
    assert PrefixValue(stream[..4]) == Number(stream);
  }

  /** writeSudoFrame, up to the write itself */
  method MakeFrame(payload: Bytes) returns (r: Option<Bytes>)
    ensures r == Frame(payload)
    ensures r.Some? <==> |payload| <= 0x400_0000
    ensures r.Some? ==> |r.value| == 4 + |payload| && r.value[4..] == payload && Number(r.value) == |payload|
  {
    if |payload| > FRAME_LIMIT {
      return None;
    }
    var frame := new Byte[4 + |payload|];
    var prefix := Prefix(|payload|);
    frame[0], frame[1], frame[2], frame[3] := prefix[0], prefix[1], prefix[2], prefix[3];
    for i := 0 to |payload|
      invariant frame[..4] == prefix && frame[4..4 + i] == payload[..i]
    {
      frame[4 + i] := payload[i];
      assert frame[4..4 + i + 1] == frame[4..4 + i] + [payload[i]];
    }
    assert frame[..] == frame[..4] + frame[4..4 + |payload|];
    assert payload[..|payload|] == payload;
    r := Some(frame[..]);
    PrefixNumber(payload);
  }

  // ----- reading from a connection that delivers the bytes in any portions

  class Connection {
    /** The bytes that will still come before the connection ends. */
    var stream: Bytes

    constructor (stream: Bytes)
      ensures this.stream == stream
    {
      this.stream := stream;
    }

    /** One read: at least one and at most n of the bytes; none only at the end. */
    method Read(n: nat) returns (b: Bytes)
      requires n > 0
      modifies this
      ensures b <= old(stream) && stream == old(stream)[|b|..] && |b| <= n
      ensures b == [] <==> old(stream) == []
    {
      if stream == [] {
        return [];
      }
      var k: nat :| 1 <= k <= n && k <= |stream|;
      b := stream[..k];
      stream := stream[k..];
    }

    /** io.ReadFull */
    method ReadFull(n: nat) returns (b: Bytes, ok: bool)
      modifies this
      ensures ok <==> |old(stream)| >= n
      ensures ok ==> b == old(stream)[..n] && stream == old(stream)[n..]
    {
      b := [];
      while |b| < n
        invariant |b| <= n && b + stream == old(stream)
        decreases n - |b|
      {
        var more := Read(n - |b|);
        if more == [] {
          return b, false;
        }
        b := b + more;
      }
      ok := true;
    }

    /** readSudoFrame: what is read does not depend on the portions. */
    method ReadFrame() returns (r: Parsed)
      modifies this
      ensures r == Parse(old(stream))
      ensures r.Message? ==> stream == r.rest
    {
      var prefix, gotPrefix := ReadFull(4);
      if !gotPrefix {
        return Ended;
      }
      var length := PrefixValue(prefix);
      if length > FRAME_LIMIT {
        return TooLarge;
      }
      var payload, gotAll := ReadFull(length);
      if !gotAll {
        return Ended;
      }
      assert payload == old(stream)[4..][..length] == old(stream)[4..4 + length];
      assert old(stream)[4..][length..] == old(stream)[4 + length..];
      r := Message(payload, stream);
    }
  }
}
