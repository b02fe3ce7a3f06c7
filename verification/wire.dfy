/** Framing between batadv-vis and the alfred daemon: the request frame of
    vis_request_data, the push frame vis_publish_data writes, and the
    validation chain of vis_receive_answer_packet over the byte stream the
    daemon answers with. */
module Wire {
  import opened VisTypes
  import opened VisData

  /** Offset of the alfred_data header (type, version, length) in a push
      frame: after the push header and the 6-byte source address. */
  const DataHeaderOffset: nat := PushSize + MacLen

  /** Smallest outer length accepted: the transaction block of the push
      header plus the alfred_data header. */
  const MinOuterLength: nat := PushSize - TlvSize + DataSize

  /** Largest outer length accepted: the receive buffer minus the tlv. */
  const MaxOuterLength: nat := BufSize - TlvSize

  /** The request frame of vis_request_data: type ALFRED_REQUEST, the
      length of what follows the tlv, the requested data type, and
      htons(random()), of which only the low 16 bits survive. */
  function RequestFrame(rnd: nat): (r: seq<Byte>)
    ensures |r| == RequestSize
    ensures r[0] == AlfredRequest && r[1] == AlfredVersion
    ensures Be16(r[2], r[3]) == |r| - TlvSize
    ensures r[4] == VisPacketType
    ensures Be16(r[5], r[6]) == rnd % 0x1_0000
  {
    [AlfredRequest, AlfredVersion] + ToBe16(RequestSize - TlvSize) + [VisPacketType] + ToBe16(rnd % 0x1_0000)
  }

  /** The frame vis_publish_data writes: tlv with the outer length, the
      transaction id and sequence number, the (never set, so zero) source
      address, the vis type, version and inner length, then the payload.
      The outer length counts everything after the tlv; the inner length
      counts the payload. */
  function PushFrame(tx: nat, vmac: Mac, ifaces: seq<Mac>, entries: seq<VisEntry>): (r: seq<Byte>)
    requires tx < 0x1_0000 && |ifaces| < 256 && |entries| < 256
    ensures |r| == PayloadOffset + VisDataSize(|ifaces|, |entries|)
    ensures r[0] == AlfredPushData && r[1] == AlfredVersion
    ensures Be16(r[2], r[3]) == |r| - TlvSize
    ensures Be16(r[4], r[5]) == tx
    ensures r[DataHeaderOffset] == VisPacketType && r[DataHeaderOffset + 1] == VisPacketVersion
    ensures Be16(r[DataHeaderOffset + 2], r[DataHeaderOffset + 3]) == |r| - PayloadOffset
    ensures r[PayloadOffset..] == PackVis(vmac, ifaces, entries)
  {
    var inner := VisDataSize(|ifaces|, |entries|);
    var outer := inner + MinOuterLength;
    [AlfredPushData, AlfredVersion] + ToBe16(outer) + ToBe16(tx) + [0, 0] + [0, 0, 0, 0, 0, 0] +
    [VisPacketType, VisPacketVersion] + ToBe16(inner) + PackVis(vmac, ifaces, entries)
  }

  /** The sequence number and the source address of a push frame are
      zero: vis_server sets the one to 0 and never writes the other. */
  lemma PushFrameZeroSource(tx: nat, vmac: Mac, ifaces: seq<Mac>, entries: seq<VisEntry>)
    requires tx < 0x1_0000 && |ifaces| < 256 && |entries| < 256
    ensures PushFrame(tx, vmac, ifaces, entries)[6..DataHeaderOffset] == [0, 0, 0, 0, 0, 0, 0, 0]
  {
  }

  /** What one call of vis_receive_answer_packet leaves behind: the inner
      length when it returns the payload (None when it returns NULL), the
      static receive buffer, and the unread rest of the stream. */
  datatype Receive = Receive(len: Option<nat>, buf: seq<Byte>, rest: seq<Byte>)

  /** read(sock, buf + off, n) on a stream: takes min(n, |s|) bytes. */
  function ReadInto(buf: seq<Byte>, off: nat, s: seq<Byte>, n: nat): (r: (seq<Byte>, nat))
    requires off + n <= |buf|
    ensures |r.0| == |buf| && r.1 == Min(n, |s|)
  {
    var k := Min(n, |s|);
    (buf[..off] + s[..k] + buf[off + k..], k)
  }

  /** The stream-level description of a frame vis_receive_answer_packet
      accepts: a full tlv of type ALFRED_PUSH_DATA, an outer length within
      [MinOuterLength, MaxOuterLength], that many bytes present, and the
      vis type and version in the alfred_data header. */
  predicate Accepted(s: seq<Byte>)
    ensures Accepted(s) ==> |s| >= PayloadOffset
  {
    |s| >= TlvSize && s[0] == AlfredPushData &&
    var l := Be16(s[2], s[3]);
    MinOuterLength <= l <= MaxOuterLength && |s| >= TlvSize + l &&
    s[DataHeaderOffset] == VisPacketType && s[DataHeaderOffset + 1] == VisPacketVersion
  }

  /** The whole frame at the front of an accepted stream: the tlv and the
      outer length it declares. */
  function FrameLength(s: seq<Byte>): (n: nat)
    requires Accepted(s)
    ensures PayloadOffset <= n <= |s| && n <= BufSize
  {
    TlvSize + Be16(s[2], s[3])
  }

  /** The inner length the alfred_data header of an accepted frame declares. */
  function InnerLength(s: seq<Byte>): nat
    requires Accepted(s)
  {
    Be16(s[DataHeaderOffset + 2], s[DataHeaderOffset + 3])
  }

  /** What an accepted frame leaves: its inner length, its bytes at the
      front of the buffer with the rest of the buffer as it was, and the
      stream positioned right after it. */
  function Received(buf: seq<Byte>, s: seq<Byte>): (r: Receive)
    requires |buf| == BufSize && Accepted(s)
    ensures |r.buf| == BufSize && |r.rest| + PayloadOffset <= |s|
  {
    var n := FrameLength(s);
    Receive(Some(InnerLength(s)), s[..n] + buf[n..], s[n..])
  }

  /** vis_receive_answer_packet on the static buffer `buf` and the stream
      `s`: the two reads and the checks after each, in the program's order.
      Every rejection returns NULL, the same as the end of the stream.
      The payload comes back exactly for the frames `Accepted` describes:
      NULL follows a short header, a type other than ALFRED_PUSH_DATA, an
      outer length above MaxOuterLength or below MinOuterLength, a short
      body, or a wrong vis type or version. */
  method ReceiveAnswerPacket(buf: seq<Byte>, s: seq<Byte>) returns (r: Receive)
    requires |buf| == BufSize
    ensures |r.buf| == BufSize
    ensures r.len.Some? <==> Accepted(s)
    ensures r.len.Some? ==> r == Received(buf, s)
  {
    var b, k := ReadInto(buf, 0, s, TlvSize).0, Min(TlvSize, |s|);
    var rest := s[k..];
    if k < TlvSize {
      return Receive(None, b, rest);
    }
    assert b[..TlvSize] == s[..TlvSize];
    assert b[0] == s[0] && b[2] == s[2] && b[3] == s[3];
    if b[0] != AlfredPushData {
      return Receive(None, b, rest);
    }
    var l := Be16(b[2], b[3]);
    if l > MaxOuterLength {
      return Receive(None, b, rest);
    }
    if l < MinOuterLength {
      return Receive(None, b, rest);
    }
    var m := Min(l, |rest|);
    b := ReadInto(b, TlvSize, rest, l).0;
    assert b[..TlvSize + m] == s[..TlvSize + m];
    rest := rest[m..];
    if m < l {
      return Receive(None, b, rest);
    }
    assert b[DataHeaderOffset] == s[DataHeaderOffset] && b[DataHeaderOffset + 1] == s[DataHeaderOffset + 1];
    assert b[DataHeaderOffset + 2] == s[DataHeaderOffset + 2] && b[DataHeaderOffset + 3] == s[DataHeaderOffset + 3];
    var len := Be16(b[DataHeaderOffset + 2], b[DataHeaderOffset + 3]);
    if b[DataHeaderOffset] != VisPacketType {
      return Receive(None, b, rest);
    }
    if b[DataHeaderOffset + 1] != VisPacketVersion {
      return Receive(None, b, rest);
    }
    assert b == s[..TlvSize + l] + buf[TlvSize + l..];
    return Receive(Some(len), b, rest);
  }

  /** A complete accepted frame followed by anything: the stream is accepted
      and receiving it takes exactly the frame. */
  lemma FrameReceived(buf: seq<Byte>, f: seq<Byte>, rest: seq<Byte>)
    requires |buf| == BufSize && Accepted(f) && |f| == FrameLength(f)
    ensures Accepted(f + rest) && FrameLength(f + rest) == |f| && InnerLength(f + rest) == InnerLength(f)
    ensures Received(buf, f + rest) == Receive(Some(InnerLength(f)), f + buf[|f|..], rest)
  {
    var s := f + rest;
    var n := |f|;
    assert s[..n] == f && s[n..] == rest;
    assert s[0] == f[0] && s[2] == f[2] && s[3] == f[3];
    assert s[DataHeaderOffset] == f[DataHeaderOffset] && s[DataHeaderOffset + 1] == f[DataHeaderOffset + 1];
    assert s[DataHeaderOffset + 2] == f[DataHeaderOffset + 2] && s[DataHeaderOffset + 3] == f[DataHeaderOffset + 3];
  }

  /** A frame vis_publish_data writes is accepted in full, with
      VIS_DATA_SIZE of what it carries as its inner length. */
  lemma PushFrameReceived(buf: seq<Byte>, tx: nat, vmac: Mac, ifaces: seq<Mac>, es: seq<VisEntry>, rest: seq<Byte>)
    requires |buf| == BufSize && tx < 0x1_0000 && |ifaces| < 256 && |es| < 256
    ensures var f := PushFrame(tx, vmac, ifaces, es);
      |f| <= BufSize && Accepted(f + rest) &&
      Received(buf, f + rest) == Receive(Some(VisDataSize(|ifaces|, |es|)), f + buf[|f|..], rest)
  {
    var f := PushFrame(tx, vmac, ifaces, es);
    assert Accepted(f);
    FrameReceived(buf, f, rest);
  }

  /** A frame that carries only headers, with an inner length field of
      `len`. */
  function HeaderOnlyFrame(len: nat): (f: seq<Byte>)
    requires len < 0x1_0000
    ensures |f| == PayloadOffset && Accepted(f) && |f| == FrameLength(f) && InnerLength(f) == len
  {
    [AlfredPushData, AlfredVersion] + ToBe16(MinOuterLength) + [0, 0, 0, 0] + [0, 0, 0, 0, 0, 0] +
    [VisPacketType, VisPacketVersion] + ToBe16(len)
  }

  /** vis_receive_answer_packet with the check it lacks: the inner length
      may not exceed what the outer length leaves for the payload. */
  predicate AcceptedChecked(s: seq<Byte>)
    ensures AcceptedChecked(s) ==> Accepted(s) && PayloadOffset + InnerLength(s) <= |s|
  {
    Accepted(s) && PayloadOffset + InnerLength(s) <= FrameLength(s)
  }

  /** With the check, the declared payload lies inside the frame just read:
      whatever the buffer held before, its bytes are the stream's bytes
      behind the headers. */
  lemma CheckedPayloadFromFrame(buf: seq<Byte>, s: seq<Byte>)
    requires |buf| == BufSize && AcceptedChecked(s)
    ensures var len := InnerLength(s);
      Received(buf, s).buf[PayloadOffset..PayloadOffset + len] == s[PayloadOffset..PayloadOffset + len]
  {
    var n := FrameLength(s);
    var len := InnerLength(s);
    var b := Received(buf, s).buf;
    assert b[..n] == s[..n];
    forall i | PayloadOffset <= i < PayloadOffset + len
      ensures b[i] == s[i]
    {
      assert b[i] == b[..n][i];
    }
  }

  /** With the check, a frame without payload bytes is refused whenever it
      declares a positive inner length. */
  lemma HeaderOnlyFrameRefusedWhenChecked(buf: seq<Byte>, len: nat, rest: seq<Byte>)
    requires |buf| == BufSize && 0 < len < 0x1_0000
    ensures !AcceptedChecked(HeaderOnlyFrame(len) + rest)
  {
    FrameReceived(buf, HeaderOnlyFrame(len), rest);
  }
}
