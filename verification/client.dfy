/** The client half of batadv-vis (vis_read_answer on the dot, json and
    jsondoc path): frames are received one after the other from the alfred
    answer stream, bogus payloads are skipped, and every remaining payload
    is rendered as its interfaces followed by its entries. */
module Client {
  import opened VisTypes
  import opened VisData
  import opened Wire
  import opened Render
  import Options

  /** The renderer the switch of vis_read_answer installs for the format
      chosen with -f. The netjson branch is not part of this model. */
  function Renderer(f: Options.OutputFormat): (r: Option<Format>)
    ensures r.None? <==> f.NetJson?
  {
    match f
    case Dot => Some(Dot)
    case Json => Some(Json)
    case JsonDoc => Some(JsonDoc)
    case NetJson => None
  }

  /** From the -f argument to the renderer: dot for an argument starting
      with "dot", jsondoc for one starting with "jsondoc", json for any
      other starting with "json", none of the modelled ones for "netjson". */
  lemma ChosenRenderer(arg: string)
    requires Options.SelectFormat(arg).Some?
    ensures var r := Renderer(Options.SelectFormat(arg).value);
      (r == Some(Dot) <==> Options.StartsWith(arg, "dot")) &&
      (r == Some(JsonDoc) <==> Options.StartsWith(arg, "jsondoc")) &&
      (r == Some(Json) <==> Options.StartsWith(arg, "json") && !Options.StartsWith(arg, "jsondoc")) &&
      (r.None? <==> Options.StartsWith(arg, "netjson"))
  {
    Options.SelectFormatByPrefix(arg);
  }

  /** The return value of vis_read_answer and what the payloads printed
      between the preamble and the postamble. */
  datatype Answer = Answer(status: int, out: seq<Record>)

  /** The vis_v1 payload in the receive buffer, behind the push and
      alfred_data headers. It is long enough for any pair of counters. */
  function Payload(buf: seq<Byte>): (p: seq<Byte>)
    requires |buf| == BufSize
    ensures |p| >= VisHeaderSize && |p| >= VisDataSize(p[6], p[7])
  {
    buf[PayloadOffset..]
  }

  /** What one payload that passed the checks prints: the interfaces, then
      the entries only when there are any. */
  function Snapshot(fmt: Format, ifaces: seq<Mac>, es: seq<VisEntry>): (rs: seq<Record>)
    requires |ifaces| > 0
    ensures |rs| > 0 && rs[0] == Interfaces(ifaces[0], ifaces[1..])
  {
    InterfacesOutput(ifaces) + (if es == [] then [] else EntriesOutput(fmt, es, ifaces))
  }

  /** The read loop on the receive buffer `buf` and the unread stream `s`:
      - no payload (end of stream or a rejected frame): status 0;
      - a declared length below the vis_v1 header: status -1;
      - a length other than VIS_DATA_SIZE, or no interfaces: skipped;
      - otherwise the payload is rendered and the loop goes on. */
  function ReadLoop(fmt: Format, buf: seq<Byte>, s: seq<Byte>): (a: Answer)
    requires |buf| == BufSize
    ensures a.status == 0 || a.status == -1
    decreases |s|
  {
    if !Accepted(s) then Answer(0, [])
    else
      var r := Received(buf, s);
      var len := r.len.value;
      var p := Payload(r.buf);
      if len < VisHeaderSize then Answer(-1, [])
      else if len != VisDataSize(p[6], p[7]) || p[6] == 0 then ReadLoop(fmt, r.buf, r.rest)
      else
        var d := DecodeVis(p);
        var tail := ReadLoop(fmt, r.buf, r.rest);
        Answer(tail.status, Snapshot(fmt, d.0, d.1) + tail.out)
  }

  /** Everything vis_read_answer prints: the preamble, the payloads, and the
      postamble only when the loop ended normally. */
  function Printed(fmt: Format, a: Answer): (o: seq<Record>)
    ensures fmt != Json ==> |o| > 0 && o[0] == Begin
    ensures fmt != Json && a.status == 0 ==> o[|o| - 1] == End
  {
    Preamble(fmt) + a.out + (if a.status == 0 then Postamble(fmt) else [])
  }

  /** vis_read_answer: the preamble, then one payload after the other until
      the receive function returns nothing or a length is too short. */
  method ReadAnswer(fmt: Format, rxBuf: seq<Byte>, s: seq<Byte>) returns (status: int, out: seq<Record>)
    requires |rxBuf| == BufSize
    ensures status == ReadLoop(fmt, rxBuf, s).status
    ensures out == Printed(fmt, ReadLoop(fmt, rxBuf, s))
  {
    ghost var total := ReadLoop(fmt, rxBuf, s);
    out := Preamble(fmt);
    var buf := rxBuf;
    var rest := s;
    while true
      invariant |buf| == BufSize
      invariant ReadLoop(fmt, buf, rest).status == total.status
      invariant out + ReadLoop(fmt, buf, rest).out == Preamble(fmt) + total.out
      decreases |rest|
    {
      var r := ReceiveAnswerPacket(buf, rest);
      if r.len.None? {
        out := out + Postamble(fmt);
        return 0, out;
      }
      var len := r.len.value;
      var p := Payload(r.buf);
      if len < VisHeaderSize {
        return -1, out;
      }
      buf, rest := r.buf, r.rest;
      if len != VisDataSize(p[6], p[7]) || p[6] == 0 {
        continue;
      }
      var printed := RenderPayload(fmt, p);
      out := out + printed;
    }
  }

  /** The body of the loop for a payload that passed the checks: the
      interfaces callback, then the entries callback unless the payload has
      no entries. It is the method counterpart of `Snapshot`, on the
      decoded payload; what is printed is proved about `Snapshot`. */
  method RenderPayload(fmt: Format, p: seq<Byte>) returns (printed: seq<Record>)
    requires |p| >= VisHeaderSize && |p| >= VisDataSize(p[6], p[7]) && p[6] > 0
    ensures printed == Snapshot(fmt, DecodeVis(p).0, DecodeVis(p).1)
  {
    var body := p[VisHeaderSize..];
    var ifaces := UnpackMacs(body, p[6]);
    printed := InterfacesOutput(ifaces);
    if p[7] == 0 {
      return;
    }
    var es := UnpackEntries(body[IfaceSize * p[6]..], p[7]);
    printed := printed + EntriesOutput(fmt, es, ifaces);
  }

  /** A record a payload can print: a node's interfaces, a link with a
      non-zero quality, a client, or the end of a jsondoc node. */
  predicate PayloadRecord(r: Record)
  {
    r.Interfaces? || (r.Neighbor? && r.qual != 0) || r.Client? || r == NodeEnd
  }

  lemma SnapshotRecords(fmt: Format, ifaces: seq<Mac>, es: seq<VisEntry>, k: nat)
    requires |ifaces| > 0 && k < |Snapshot(fmt, ifaces, es)|
    ensures PayloadRecord(Snapshot(fmt, ifaces, es)[k])
  {
    if k > 0 {
      var e := EntriesOutput(fmt, es, ifaces);
      assert es != [] && Snapshot(fmt, ifaces, es)[k] == e[k - 1];
    }
  }

  /** The defensive checks hold over the whole run: every record the
      payloads print is a payload record, so no link is ever printed with
      quality 0. */
  lemma {:induction false} ReadLoopRecords(fmt: Format, buf: seq<Byte>, s: seq<Byte>, k: nat)
    requires |buf| == BufSize && k < |ReadLoop(fmt, buf, s).out|
    ensures PayloadRecord(ReadLoop(fmt, buf, s).out[k])
    decreases |s|
  {
    var r := Received(buf, s);
    var p := Payload(r.buf);
    if r.len.value != VisDataSize(p[6], p[7]) || p[6] == 0 {
      ReadLoopRecords(fmt, r.buf, r.rest, k);
    } else {
      var d := DecodeVis(p);
      var snap := Snapshot(fmt, d.0, d.1);
      var tail := ReadLoop(fmt, r.buf, r.rest);
      assert ReadLoop(fmt, buf, s).out == snap + tail.out;
      if k < |snap| {
        SnapshotRecords(fmt, d.0, d.1, k);
      } else {
        ReadLoopRecords(fmt, r.buf, r.rest, k - |snap|);
      }
    }
  }

  /** The printed output is framed: the preamble's opening record is only
      ever first, and the postamble's closing record appears exactly when
      the status is 0 (for the formats that have one), and only last. */
  lemma PrintedFramed(fmt: Format, a: Answer)
    requires forall k :: 0 <= k < |a.out| ==> PayloadRecord(a.out[k])
    ensures var o := Printed(fmt, a);
      (End in o <==> a.status == 0 && fmt != Json) &&
      (forall i :: 0 <= i < |o| && o[i] == End ==> i == |o| - 1) &&
      (forall i :: 0 < i < |o| ==> o[i] != Begin)
  {
    var o := Printed(fmt, a);
    var pre := Preamble(fmt);
    forall i | 0 <= i < |o|
      ensures o[i] == End ==> i == |o| - 1 && a.status == 0 && fmt != Json
      ensures o[i] == Begin ==> i == 0
    {
      if |pre| <= i < |pre| + |a.out| {
        assert o[i] == a.out[i - |pre|];
      }
    }
    if a.status == 0 && fmt != Json {
      assert o[|o| - 1] == End;
    }
  }

  /** The whole output of vis_read_answer is framed that way. */
  lemma ReadAnswerFramed(fmt: Format, buf: seq<Byte>, s: seq<Byte>)
    requires |buf| == BufSize
    ensures var a := ReadLoop(fmt, buf, s);
      var o := Printed(fmt, a);
      (End in o <==> a.status == 0 && fmt != Json) &&
      (forall i :: 0 <= i < |o| && o[i] == End ==> i == |o| - 1) &&
      (forall i :: 0 < i < |o| ==> o[i] != Begin)
  {
    var a := ReadLoop(fmt, buf, s);
    forall k | 0 <= k < |a.out|
      ensures PayloadRecord(a.out[k])
    {
      ReadLoopRecords(fmt, buf, s, k);
    }
    PrintedFramed(fmt, a);
  }

  /** A rejected frame ends the read like the end of the stream does:
      status 0, so the postamble follows; nothing after the frame is looked
      at. */
  lemma BadFrameEndsRead(fmt: Format, buf: seq<Byte>, s: seq<Byte>)
    requires |buf| == BufSize && !Accepted(s)
    ensures ReadLoop(fmt, buf, s) == Answer(0, [])
    ensures Printed(fmt, ReadLoop(fmt, buf, s)) == Preamble(fmt) + Postamble(fmt)
  {
  }

  /** The only error exit: an accepted frame whose declared payload length is
      below the vis_v1 header ends the read with -1 and no postamble. */
  lemma ShortPayloadAborts(fmt: Format, buf: seq<Byte>, s: seq<Byte>)
    requires |buf| == BufSize && Accepted(s) && InnerLength(s) < VisHeaderSize
    ensures ReadLoop(fmt, buf, s) == Answer(-1, [])
    ensures Printed(fmt, ReadLoop(fmt, buf, s)) == Preamble(fmt)
  {
  }

  /** A bogus payload (length other than VIS_DATA_SIZE of its own counters,
      or no interfaces) prints nothing and the loop reads on from the next
      frame, with the frame left in the buffer. */
  lemma BogusPayloadSkipped(fmt: Format, buf: seq<Byte>, s: seq<Byte>)
    requires |buf| == BufSize && Accepted(s)
    requires var n := FrameLength(s);
      var p := Payload(s[..n] + buf[n..]);
      InnerLength(s) >= VisHeaderSize && (InnerLength(s) != VisDataSize(p[6], p[7]) || p[6] == 0)
    ensures var n := FrameLength(s);
      ReadLoop(fmt, buf, s) == ReadLoop(fmt, s[..n] + buf[n..], s[n..])
  {
  }

  /** The frame a server publishes is accepted and rendered as exactly its
      interfaces and entries, after which the client reads on. */
  lemma PublishedFrameRendered(fmt: Format, buf: seq<Byte>, tx: nat, vmac: Mac,
                               ifaces: seq<Mac>, es: seq<VisEntry>, rest: seq<Byte>)
    requires |buf| == BufSize && tx < 0x1_0000
    requires 0 < |ifaces| < 256 && |es| < 256
    ensures var f := PushFrame(tx, vmac, ifaces, es);
      |f| <= BufSize &&
      var tail := ReadLoop(fmt, f + buf[|f|..], rest);
      ReadLoop(fmt, buf, f + rest) == Answer(tail.status, Snapshot(fmt, ifaces, es) + tail.out)
  {
    var f := PushFrame(tx, vmac, ifaces, es);
    PushFrameReceived(buf, tx, vmac, ifaces, es, rest);
    assert Payload(f + buf[|f|..]) == PackVis(vmac, ifaces, es) + buf[|f|..];
    DecodePackVis(vmac, ifaces, es, buf[|f|..]);
  }

  /** jsondoc as written: a payload without entries opens a node object
      that nothing closes, because the entries callback, which prints the
      closing brace, is skipped. */
  lemma JsonDocNodeLeftOpen(ifaces: seq<Mac>)
    requires |ifaces| > 0
    ensures Snapshot(JsonDoc, ifaces, [])[0].Interfaces?
    ensures NodeEnd !in Snapshot(JsonDoc, ifaces, [])
  {
  }

  /** The evidently intended rendering: jsondoc always runs the entries
      callback, so that the node it opened gets closed. */
  function SnapshotClosed(fmt: Format, ifaces: seq<Mac>, es: seq<VisEntry>): (rs: seq<Record>)
    requires |ifaces| > 0
    ensures |rs| > 0 && rs[0] == Interfaces(ifaces[0], ifaces[1..])
  {
    InterfacesOutput(ifaces) + (if es == [] && fmt != JsonDoc then [] else EntriesOutput(fmt, es, ifaces))
  }

  /** With the fix every jsondoc node is closed exactly once, at its end,
      and the dot and json output is unchanged. */
  lemma SnapshotClosedBalanced(fmt: Format, ifaces: seq<Mac>, es: seq<VisEntry>)
    requires |ifaces| > 0
    ensures var rs := SnapshotClosed(fmt, ifaces, es);
      fmt == JsonDoc ==> rs[|rs| - 1] == NodeEnd && NodeEnd !in rs[..|rs| - 1]
    ensures fmt != JsonDoc ==> SnapshotClosed(fmt, ifaces, es) == Snapshot(fmt, ifaces, es)
  {
    var rs := SnapshotClosed(fmt, ifaces, es);
    if fmt == JsonDoc {
      var e := EntriesOutput(fmt, es, ifaces);
      assert rs == InterfacesOutput(ifaces) + e;
      assert rs[..|rs| - 1] == InterfacesOutput(ifaces) + e[..|e| - 1];
    }
  }

  /** The inner length is not checked against the outer one: once a
      published frame sits in the receive buffer, a following frame with no
      payload at all whose inner length matches the old payload renders the
      same node again, from the stale bytes. With PublishedFrameRendered,
      that stream prints the node twice. */
  lemma StaleFrameRenderedAgain(fmt: Format, buf: seq<Byte>, tx: nat, vmac: Mac,
                                ifaces: seq<Mac>, es: seq<VisEntry>, rest: seq<Byte>)
    requires |buf| == BufSize && tx < 0x1_0000
    requires 0 < |ifaces| < 256 && |es| < 256
    ensures var f1 := PushFrame(tx, vmac, ifaces, es);
      var f2 := HeaderOnlyFrame(VisDataSize(|ifaces|, |es|));
      |f1| <= BufSize &&
      var b1 := f1 + buf[|f1|..];
      var tail := ReadLoop(fmt, f2 + b1[|f2|..], rest);
      ReadLoop(fmt, b1, f2 + rest) == Answer(tail.status, Snapshot(fmt, ifaces, es) + tail.out)
  {
    var f1 := PushFrame(tx, vmac, ifaces, es);
    var f2 := HeaderOnlyFrame(VisDataSize(|ifaces|, |es|));
    PushFrameReceived(buf, tx, vmac, ifaces, es, rest);
    var b1 := f1 + buf[|f1|..];
    FrameReceived(b1, f2, rest);
    var b2 := f2 + b1[|f2|..];
    assert Payload(b2) == PackVis(vmac, ifaces, es) + buf[|f1|..];
    DecodePackVis(vmac, ifaces, es, buf[|f1|..]);
  }

  /** The corrected loop condition: with the check, the payload a frame
      renders comes from that frame alone, so two receive buffers that
      differ anywhere give the same decoded payload. */
  lemma CheckedPayloadIgnoresBuffer(buf1: seq<Byte>, buf2: seq<Byte>, s: seq<Byte>)
    requires |buf1| == BufSize && |buf2| == BufSize && AcceptedChecked(s)
    requires InnerLength(s) == VisDataSize(Payload(Received(buf1, s).buf)[6], Payload(Received(buf1, s).buf)[7])
    ensures var p1 := Payload(Received(buf1, s).buf);
      var p2 := Payload(Received(buf2, s).buf);
      p2[6] == p1[6] && p2[7] == p1[7] && DecodeVis(p2) == DecodeVis(p1)
  {
    var len := InnerLength(s);
    CheckedPayloadFromFrame(buf1, s);
    CheckedPayloadFromFrame(buf2, s);
    var p1 := Payload(Received(buf1, s).buf);
    var p2 := Payload(Received(buf2, s).buf);
    assert p1[..len] == Received(buf1, s).buf[PayloadOffset..PayloadOffset + len];
    assert p2[..len] == Received(buf2, s).buf[PayloadOffset..PayloadOffset + len];
    DecodeVisReadsPrefix(p1, p2);
  }
}
