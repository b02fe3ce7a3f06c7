/** The server half of batadv-vis: the global state vis_server works on
    (the interface list, the entry list and the send buffer holding the push
    frame) and the steps of one update cycle, which rebuilds both lists,
    packs them into the buffer and writes the frame. */
module Server {
  import opened VisTypes
  import opened CText
  import opened MacText
  import opened VisData
  import opened Wire
  import opened Tables

  /** The vis_v1 address field, which nothing ever sets. */
  const ZeroMac: Mac := [0, 0, 0, 0, 0, 0]

  /** register_interfaces as far as it reaches the tables: get_if_index on
      every interface name found active, in the order found. No interface
      is removed or moved, and each name adds at most one. */
  function Register(table: seq<IfaceEntry>, names: seq<string>, resolve: string -> Option<Mac>): (r: seq<IfaceEntry>)
    ensures |table| <= |r| <= |table| + |names| && r[..|table|] == table
    decreases |names|
  {
    if names == [] then table
    else IfIndex(Register(table, names[..|names| - 1], resolve), Some(names[|names| - 1]), resolve).1
  }

  /** The lists after the first three steps of a cycle: both start empty,
      whatever the previous cycle left, so interface indices are handed out
      afresh; then the active interfaces and the originator table. Every
      entry is then an originator link with a quality of at least 1. */
  function OrigStage(active: seq<string>, orig: Option<string>, resolve: string -> Option<Mac>): (r: Lists)
    ensures forall i :: 0 <= i < |r.entries| ==> 1 <= r.entries[i].qual
  {
    var l1 := Lists(Register([], active, resolve), []);
    if orig.Some? then OrigFile(l1, orig.value, resolve) else l1
  }

  /** The transaction id vis_publish_data sends after `tx`: one more,
      wrapping from 0xffff to 0 in the 16-bit field. */
  function NextTx(tx: nat): (r: nat)
    ensures r < 0x1_0000
    ensures tx < 0xffff ==> r == tx + 1
    ensures tx == 0xffff ==> r == 0
  {
    (tx + 1) % 0x1_0000
  }

  /** The lists one update cycle builds: the local translation table comes
      last, adds no interface and removes no entry. */
  function CycleLists(active: seq<string>, orig: Option<string>, trans: Option<string>,
                      resolve: string -> Option<Mac>): (r: Lists)
    ensures var l2 := OrigStage(active, orig, resolve);
      r.ifaces == l2.ifaces && |l2.entries| <= |r.entries| && r.entries[..|l2.entries|] == l2.entries
  {
    var l2 := OrigStage(active, orig, resolve);
    Lists(l2.ifaces, if trans.Some? then TransFile(l2.entries, trans.value) else l2.entries)
  }

  /** What a cycle puts in the entry list: originator links, each with a
      quality of at least 1, then clients of the local translation table,
      each with the sentinel index and quality 0. */
  lemma CycleEntries(active: seq<string>, orig: Option<string>, trans: Option<string>,
                     resolve: string -> Option<Mac>)
    ensures var l2 := OrigStage(active, orig, resolve);
      var c := CycleLists(active, orig, trans, resolve);
      c.ifaces == l2.ifaces && |l2.entries| <= |c.entries| && c.entries[..|l2.entries|] == l2.entries &&
      (forall i :: 0 <= i < |l2.entries| ==> 1 <= c.entries[i].qual) &&
      (forall i :: |l2.entries| <= i < |c.entries| ==> c.entries[i].ifindex == ClientIndex && c.entries[i].qual == 0)
  {
    var l1 := Lists(Register([], active, resolve), []);
    var l2 := OrigStage(active, orig, resolve);
    if orig.Some? {
      OrigParseAppends(l1, Body(orig.value, 2), resolve);
    }
    assert forall i :: 0 <= i < |l2.entries| ==> 1 <= l2.entries[i].qual;
    var es := if trans.Some? then TransFile(l2.entries, trans.value) else l2.entries;
    if trans.Some? {
      TransParseAddsClients(l2.entries, Body(trans.value, 1));
    }
    assert CycleLists(active, orig, trans, resolve) == Lists(l2.ifaces, es);
    forall i | 0 <= i < |l2.entries|
      ensures 1 <= es[i].qual
    {
      assert es[i] == es[..|l2.entries|][i];
    }
  }

  /** A frame vis_publish_data writes, read back from the buffer: every
      field PushFrame lays out is in place. */
  lemma FrameInBuffer(b: seq<Byte>, tx: nat, ifaces: seq<Mac>, es: seq<VisEntry>)
    requires tx < 0x1_0000 && |ifaces| < 256 && |es| < 256
    requires var inner := VisDataSize(|ifaces|, |es|);
      |b| >= PayloadOffset + inner &&
      b[..2] == [AlfredPushData, AlfredVersion] && b[2..4] == ToBe16(inner + MinOuterLength) &&
      b[4..6] == ToBe16(tx) && b[6..PushSize] == [0, 0] && b[PushSize..DataHeaderOffset] == ZeroMac &&
      b[DataHeaderOffset..DataHeaderOffset + 2] == [VisPacketType, VisPacketVersion] &&
      b[DataHeaderOffset + 2..PayloadOffset] == ToBe16(inner) &&
      b[PayloadOffset..PayloadOffset + inner] == PackVis(ZeroMac, ifaces, es)
    ensures b[..PayloadOffset + VisDataSize(|ifaces|, |es|)] == PushFrame(tx, ZeroMac, ifaces, es)
  {
    var inner := VisDataSize(|ifaces|, |es|);
    var n := PayloadOffset + inner;
    assert b[..n] == b[..2] + b[2..4] + b[4..6] + b[6..PushSize] + b[PushSize..DataHeaderOffset] +
      b[DataHeaderOffset..DataHeaderOffset + 2] + b[DataHeaderOffset + 2..PayloadOffset] + b[PayloadOffset..n];
  }

  /** A payload laid out piece by piece: zero address, the two counters,
      the addresses from offset 8 and the entries right after them make up
      exactly the vis_v1 packing. */
  lemma PayloadPieces(p: seq<Byte>, ifaces: seq<Mac>, es: seq<VisEntry>)
    requires |ifaces| < 256 && |es| < 256
    requires var a := VisHeaderSize + IfaceSize * |ifaces|;
      |p| == a + EntrySize * |es| &&
      p[..MacLen] == ZeroMac && p[6] == |ifaces| && p[7] == |es| &&
      p[VisHeaderSize..a] == PackMacs(ifaces) && p[a..] == PackEntries(es)
    ensures p == PackVis(ZeroMac, ifaces, es)
  {
    var a := VisHeaderSize + IfaceSize * |ifaces|;
    assert p == p[..MacLen] + p[MacLen..VisHeaderSize] + p[VisHeaderSize..a] + p[a..];
    assert p[MacLen..VisHeaderSize] == [|ifaces|, |es|];
  }

  /** The same, read byte by byte from the buffer. */
  lemma PayloadFromBytes(b: seq<Byte>, ifaces: seq<Mac>, es: seq<VisEntry>)
    requires |ifaces| < 256 && |es| < 256 && |b| == BufSize
    requires b[PayloadOffset..PayloadOffset + MacLen] == ZeroMac
    requires b[PayloadOffset + 6] == |ifaces| && b[PayloadOffset + 7] == |es|
    requires forall k :: 0 <= k < IfaceSize * |ifaces| ==>
      b[PayloadOffset + VisHeaderSize + k] == PackMacs(ifaces)[k]
    requires forall k :: 0 <= k < EntrySize * |es| ==>
      b[PayloadOffset + VisHeaderSize + IfaceSize * |ifaces| + k] == PackEntries(es)[k]
    ensures b[PayloadOffset..PayloadOffset + VisDataSize(|ifaces|, |es|)] == PackVis(ZeroMac, ifaces, es)
  {
    var p := b[PayloadOffset..PayloadOffset + VisDataSize(|ifaces|, |es|)];
    var a := VisHeaderSize + IfaceSize * |ifaces|;
    assert p[..MacLen] == b[PayloadOffset..PayloadOffset + MacLen];
    assert p[VisHeaderSize..a] == PackMacs(ifaces) by {
      forall k | 0 <= k < IfaceSize * |ifaces|
        ensures p[VisHeaderSize + k] == PackMacs(ifaces)[k]
      {
        assert p[VisHeaderSize + k] == b[PayloadOffset + VisHeaderSize + k];
      }
    }
    assert p[a..] == PackEntries(es) by {
      forall k | 0 <= k < EntrySize * |es|
        ensures p[a + k] == PackEntries(es)[k]
      {
        assert p[a + k] == b[PayloadOffset + a + k];
      }
    }
    PayloadPieces(p, ifaces, es);
  }

  /** The buffer after vis_publish_data, given the payload
      compile_vis_data left and the headers vis_server set: its first bytes
      are exactly the push frame of the packed lists. */
  lemma PackedFrame(compiled: seq<Byte>, b: seq<Byte>, tx: nat, ifaces: seq<Mac>, es: seq<VisEntry>)
    requires tx < 0x1_0000 && |ifaces| < 256 && |es| < 256
    requires |compiled| == BufSize && |b| == BufSize
    requires compiled[PayloadOffset..PayloadOffset + VisDataSize(|ifaces|, |es|)] == PackVis(ZeroMac, ifaces, es)
    requires forall k :: 0 <= k < BufSize && !(2 <= k < 6) && !(DataHeaderOffset + 2 <= k < PayloadOffset) ==>
      b[k] == compiled[k]
    requires b[0] == AlfredPushData && b[1] == AlfredVersion
    requires forall i :: 6 <= i < DataHeaderOffset ==> b[i] == 0
    requires b[DataHeaderOffset] == VisPacketType && b[DataHeaderOffset + 1] == VisPacketVersion
    requires b[4..6] == ToBe16(tx)
    requires b[DataHeaderOffset + 2..PayloadOffset] == ToBe16(VisDataSize(b[PayloadOffset + 6], b[PayloadOffset + 7]))
    requires b[2..4] == ToBe16(VisDataSize(b[PayloadOffset + 6], b[PayloadOffset + 7]) + MinOuterLength)
    ensures b[..PayloadOffset + VisDataSize(b[PayloadOffset + 6], b[PayloadOffset + 7])] == PushFrame(tx, ZeroMac, ifaces, es)
  {
    var e := PayloadOffset + VisDataSize(|ifaces|, |es|);
    assert b[PayloadOffset..e] == compiled[PayloadOffset..e];
    assert b[PayloadOffset + 6] == b[PayloadOffset..e][6] && b[PayloadOffset + 7] == b[PayloadOffset..e][7];
    assert b[..2] == [AlfredPushData, AlfredVersion];
    assert b[6..PushSize] == [0, 0];
    assert b[PushSize..DataHeaderOffset] == ZeroMac;
    assert b[DataHeaderOffset..DataHeaderOffset + 2] == [VisPacketType, VisPacketVersion];
    FrameInBuffer(b, tx, ifaces, es);
  }

  /** Writing `y` right after bytes that already hold `x` leaves `x + y`
      there. */
  lemma ExtendWritten(b0: seq<Byte>, b1: seq<Byte>, off: nat, x: seq<Byte>, y: seq<Byte>)
    requires |b0| == |b1| && off + |x| + |y| <= |b0|
    requires forall k :: 0 <= k < |x| ==> b0[off + k] == x[k]
    requires forall k :: 0 <= k < |y| ==> b1[off + |x| + k] == y[k]
    requires forall k :: 0 <= k < |b0| && !(off + |x| <= k < off + |x| + |y|) ==> b1[k] == b0[k]
    ensures forall k :: 0 <= k < |x| + |y| ==> b1[off + k] == (x + y)[k]
  {
    forall k | 0 <= k < |x| + |y|
      ensures b1[off + k] == (x + y)[k]
    {
      if k < |x| {
        assert b1[off + k] == b0[off + k];
      } else {
        assert b1[off + |x| + (k - |x|)] == y[k - |x|];
      }
    }
  }

  /** The global state of the server. The lists are the kernel-linked lists
      iface_list and entry_list; `buf` is globals->buf, which holds the push
      frame with the vis_v1 payload behind its headers. */
  class VisServer {
    var ifaceList: seq<IfaceEntry>
    var entryList: seq<VisEntry>
    const buf: array<Byte>

    /** The header bytes vis_server sets once and no step changes again:
        push type and version, sequence number 0, source address 0, vis
        type and version; and the vis_v1 address, which stays 0. */
    predicate Valid()
      reads buf
    {
      buf.Length == BufSize &&
      buf[0] == AlfredPushData && buf[1] == AlfredVersion &&
      (forall i :: 6 <= i < DataHeaderOffset ==> buf[i] == 0) &&
      buf[DataHeaderOffset] == VisPacketType && buf[DataHeaderOffset + 1] == VisPacketVersion &&
      (forall i :: PayloadOffset <= i < PayloadOffset + MacLen ==> buf[i] == 0)
    }

    /** The transaction id in the push header. */
    function TxId(): nat
      reads buf
      requires buf.Length == BufSize
    {
      Be16(buf[4], buf[5])
    }

    /** vis_init clears the globals; vis_server then fills in the push and
        alfred_data headers, with transaction id and sequence number 0, and
        starts with empty lists. Every byte it does not set is 0. */
    constructor ()
      ensures Valid() && fresh(buf)
      ensures ifaceList == [] && entryList == [] && TxId() == 0
      ensures forall i :: 0 <= i < BufSize && i != 0 && i != 1 && i != DataHeaderOffset && i != DataHeaderOffset + 1 ==>
        buf[i] == 0
    {
      ifaceList := [];
      entryList := [];
      buf := new Byte[BufSize](_ => 0);
      new;
      ghost var zeroed := buf[..];
      assert forall i :: 0 <= i < BufSize ==> zeroed[i] == 0;
      buf[0] := AlfredPushData;
      buf[1] := AlfredVersion;
      buf[4], buf[5] := 0, 0;
      buf[6], buf[7] := 0, 0;
      buf[DataHeaderOffset] := VisPacketType;
      buf[DataHeaderOffset + 1] := VisPacketVersion;
      assert forall i :: 0 <= i < BufSize && i != 0 && i != 1 && i != DataHeaderOffset && i != DataHeaderOffset + 1 ==>
        buf[i] == zeroed[i];
    }

    /** clear_lists: both lists emptied. */
    method ClearLists()
      modifies this
      ensures ifaceList == [] && entryList == []
    {
      entryList := [];
      ifaceList := [];
    }

    /** get_if_index: the walk over the interface list, then the address
        lookup and the append for a name not found. */
    method GetIfIndex(name: Option<string>, resolve: string -> Option<Mac>) returns (i: int)
      modifies this
      ensures (i, ifaceList) == IfIndex(old(ifaceList), name, resolve)
      ensures entryList == old(entryList)
    {
      if name.None? {
        return -1;
      }
      i := 0;
      while i < |ifaceList|
        invariant 0 <= i <= |ifaceList|
        invariant forall j :: 0 <= j < i ==> !StrNEq(name.value, ifaceList[j].name, IfaceNameSize)
      {
        if StrNEq(name.value, ifaceList[i].name, IfaceNameSize) {
          assert FirstMatch(ifaceList, name.value) == i;
          return;
        }
        i := i + 1;
      }
      assert FirstMatch(ifaceList, name.value) == |ifaceList|;
      var mac := resolve(Truncate(name.value, IfNameSize));
      if mac.None? {
        return -1;
      }
      ifaceList := ifaceList + [IfaceEntry(Truncate(name.value, IfaceNameSize), mac.value)];
    }

    /** register_interfaces after its directory walk: get_if_index on every
        interface name found active. */
    method RegisterInterfaces(active: seq<string>, resolve: string -> Option<Mac>)
      modifies this
      ensures ifaceList == Register(old(ifaceList), active, resolve)
      ensures entryList == old(entryList)
    {
      var k := 0;
      while k < |active|
        invariant 0 <= k <= |active|
        invariant ifaceList == Register(old(ifaceList), active[..k], resolve)
        invariant entryList == old(entryList)
      {
        var _ := GetIfIndex(Some(active[k]), resolve);
        assert active[..k + 1][..k] == active[..k];
        k := k + 1;
      }
      assert active[..k] == active;
    }

    /** One line of parse_orig_list: the column walk, then the checks in the
        program's order and the append. */
    method ParseOrigLine(line: string, resolve: string -> Option<Mac>)
      modifies this
      ensures Lists(ifaceList, entryList) == OrigLine(Lists(old(ifaceList), old(entryList)), line, resolve)
    {
      var toks := Tokens(line, OrigDelims);
      var dest, tq, neigh, iface := "", "", "", "";
      var tnum := 0;
      while tnum < |toks|
        invariant 0 <= tnum <= |toks|
        invariant tnum > 0 ==> dest == toks[0]
        invariant tnum > 2 ==> tq == toks[2]
        invariant tnum > 3 ==> neigh == toks[3]
        invariant tnum > 4 ==> iface == toks[4]
      {
        if tnum == 0 {
          dest := toks[tnum];
        } else if tnum == 2 {
          tq := toks[tnum];
        } else if tnum == 3 {
          neigh := toks[tnum];
        } else if tnum == 4 {
          iface := toks[tnum];
        }
        tnum := tnum + 1;
      }
      if tnum > 4 && dest == neigh {
        var tqVal := ToInt32(StrToLong(tq));
        if tqVal < 1 || tqVal > 255 {
          return;
        }
        var mac := StrToMac(Some(dest));
        if mac.None? {
          return;
        }
        var ifindex := GetIfIndex(Some(iface), resolve);
        if ifindex < 0 {
          return;
        }
        entryList := entryList + [VisEntry(mac.value, ifindex % 256, tqVal)];
      }
    }

    /** parse_orig_list: -1 when the originator table cannot be read;
        otherwise every line after the two header lines, in order. */
    method ParseOrigList(text: Option<string>, resolve: string -> Option<Mac>) returns (ret: int)
      modifies this
      ensures text.None? ==> ret == -1 && ifaceList == old(ifaceList) && entryList == old(entryList)
      ensures text.Some? ==>
        ret == 0 &&
        Lists(ifaceList, entryList) == OrigFile(Lists(old(ifaceList), old(entryList)), text.value, resolve)
    {
      if text.None? {
        return -1;
      }
      var lines := Tokens(text.value, LineDelims);
      ghost var l0 := Lists(ifaceList, entryList);
      ghost var done: seq<string> := [];
      var lnum := 0;
      while lnum < |lines|
        invariant 0 <= lnum <= |lines|
        invariant done == if lnum <= 2 then [] else lines[2..lnum]
        invariant Lists(ifaceList, entryList) == OrigParse(l0, done, resolve)
      {
        if lnum >= 2 {
          ParseOrigLine(lines[lnum], resolve);
          OrigParseSnoc(l0, done, lines[lnum], resolve);
          done := done + [lines[lnum]];
        }
        lnum := lnum + 1;
      }
      assert done == Body(text.value, 2);
      return 0;
    }

    /** One line of parse_transtable_local: the column walk, with the
        second column turned into a client entry when it is an address. */
    method ParseTransLine(line: string)
      modifies this
      ensures ifaceList == old(ifaceList)
      ensures entryList == TransLine(old(entryList), line)
    {
      var toks := Tokens(line, TransDelims);
      var tnum := 0;
      while tnum < |toks|
        invariant 0 <= tnum <= |toks|
        invariant ifaceList == old(ifaceList)
        invariant entryList == if tnum <= 1 then old(entryList) else TransLine(old(entryList), line)
      {
        if tnum == 1 {
          var mac := StrToMac(Some(toks[tnum]));
          if mac.Some? {
            entryList := entryList + [VisEntry(mac.value, ClientIndex, 0)];
          }
        }
        tnum := tnum + 1;
      }
    }

    /** parse_transtable_local: -1 when the table cannot be read; otherwise
        every line after the header line, in order. */
    method ParseTranstableLocal(text: Option<string>) returns (ret: int)
      modifies this
      ensures ifaceList == old(ifaceList)
      ensures text.None? ==> ret == -1 && entryList == old(entryList)
      ensures text.Some? ==> ret == 0 && entryList == TransFile(old(entryList), text.value)
    {
      if text.None? {
        return -1;
      }
      var lines := Tokens(text.value, LineDelims);
      ghost var e0 := entryList;
      ghost var done: seq<string> := [];
      var lnum := 0;
      while lnum < |lines|
        invariant 0 <= lnum <= |lines|
        invariant ifaceList == old(ifaceList)
        invariant done == if lnum <= 1 then [] else lines[1..lnum]
        invariant entryList == TransParse(e0, done)
      {
        if lnum >= 1 {
          ParseTransLine(lines[lnum]);
          TransParseSnoc(e0, done, lines[lnum]);
          done := done + [lines[lnum]];
        }
        lnum := lnum + 1;
      }
      assert done == Body(text.value, 1);
      return 0;
    }
  
    /** memcpy into the buffer: `bs` at offset `off`, every other byte as
        it was. */
    method CopyBytes(off: nat, bs: seq<Byte>)
      requires buf.Length == BufSize && off + |bs| <= BufSize
      modifies buf
      ensures forall k :: 0 <= k < |bs| ==> buf[off + k] == bs[k]
      ensures forall k :: 0 <= k < BufSize && !(off <= k < off + |bs|) ==> buf[k] == old(buf[k])
    {
      var j := 0;
      while j < |bs|
        invariant 0 <= j <= |bs|
        invariant forall k :: 0 <= k < j ==> buf[off + k] == bs[k]
        invariant forall k :: 0 <= k < BufSize && !(off <= k < off + j) ==> buf[k] == old(buf[k])
      {
        buf[off + j] := bs[j];
        j := j + 1;
      }
    }

    /** The first loop of compile_vis_data: interface addresses from the
        head of the list, back to back from `off`, stopping after 254. */
    method CopyIfaces(off: nat) returns (ifaceN: nat)
      requires buf.Length == BufSize && off + IfaceSize * MaxIfaces <= BufSize
      modifies buf
      ensures ifaceN == Min(|ifaceList|, MaxIfaces)
      ensures forall k :: 0 <= k < IfaceSize * ifaceN ==> buf[off + k] == PackMacs(Macs(ifaceList[..ifaceN]))[k]
      ensures forall k :: 0 <= k < off ==> buf[k] == old(buf[k])
    {
      ifaceN := 0;
      while ifaceN < |ifaceList|
        invariant 0 <= ifaceN <= Min(|ifaceList|, MaxIfaces) && ifaceN < MaxIfaces
        invariant forall k :: 0 <= k < IfaceSize * ifaceN ==> buf[off + k] == PackMacs(Macs(ifaceList[..ifaceN]))[k]
        invariant forall k :: 0 <= k < off ==> buf[k] == old(buf[k])
      {
        ghost var b0 := buf[..];
        ghost var x := PackMacs(Macs(ifaceList[..ifaceN]));
        var mac := ifaceList[ifaceN].mac;
        CopyBytes(off + IfaceSize * ifaceN, mac);
        ExtendWritten(b0, buf[..], off, x, mac);
        MacsSnoc(ifaceList, ifaceN);
        PackMacsSnoc(Macs(ifaceList[..ifaceN]), mac);
        ifaceN := ifaceN + 1;
        if ifaceN == MaxIfaces {
          break;
        }
      }
    }

    /** The second loop of compile_vis_data: entries from the head of the
        list, back to back from `off`, stopping after 255. */
    method CopyEntries(off: nat) returns (entriesN: nat)
      requires buf.Length == BufSize && off + EntrySize * MaxEntries <= BufSize
      modifies buf
      ensures entriesN == Min(|entryList|, MaxEntries)
      ensures forall k :: 0 <= k < EntrySize * entriesN ==> buf[off + k] == PackEntries(entryList[..entriesN])[k]
      ensures forall k :: 0 <= k < off ==> buf[k] == old(buf[k])
    {
      entriesN := 0;
      while entriesN < |entryList|
        invariant 0 <= entriesN <= Min(|entryList|, MaxEntries) && entriesN < MaxEntries
        invariant forall k :: 0 <= k < EntrySize * entriesN ==> buf[off + k] == PackEntries(entryList[..entriesN])[k]
        invariant forall k :: 0 <= k < off ==> buf[k] == old(buf[k])
      {
        ghost var b0 := buf[..];
        ghost var x := PackEntries(entryList[..entriesN]);
        var packed := PackEntry(entryList[entriesN]);
        CopyBytes(off + EntrySize * entriesN, packed);
        ExtendWritten(b0, buf[..], off, x, packed);
        assert entryList[..entriesN + 1] == entryList[..entriesN] + [entryList[entriesN]];
        PackEntriesSnoc(entryList[..entriesN], entryList[entriesN]);
        entriesN := entriesN + 1;
        if entriesN == MaxEntries {
          break;
        }
      }
    }

    /** compile_vis_data: at most 254 interface addresses, then the counter,
        then at most 255 entries starting right after the last address, then
        the counter. The payload in the buffer is then the vis_v1 packing of
        the two list prefixes, and nothing in front of it has changed. */
    method CompileVisData()
      requires Valid()
      modifies buf
      ensures Valid()
      ensures var n := Min(|ifaceList|, MaxIfaces);
        var m := Min(|entryList|, MaxEntries);
        buf[PayloadOffset..PayloadOffset + VisDataSize(n, m)] == PackVis(ZeroMac, Macs(ifaceList[..n]), entryList[..m])
      ensures forall k :: 0 <= k < PayloadOffset ==> buf[k] == old(buf[k])
    {
      var base := PayloadOffset + VisHeaderSize;
      var ifaceN := CopyIfaces(base);
      buf[PayloadOffset + 6] := ifaceN;
      var start := base + IfaceSize * ifaceN;
      ghost var mid := buf[..];
      var entriesN := CopyEntries(start);
      buf[PayloadOffset + 7] := entriesN;
      assert buf[PayloadOffset..PayloadOffset + MacLen] == ZeroMac;
      PayloadFromBytes(buf[..], Macs(ifaceList[..ifaceN]), entryList[..entriesN]);
    }

    /** The transaction id update of vis_publish_data: one more, modulo
        2^16. */
    method NextTxId()
      requires buf.Length == BufSize
      modifies buf
      ensures TxId() == NextTx(old(TxId())) && buf[4..6] == ToBe16(TxId())
      ensures forall k :: 0 <= k < BufSize && k != 4 && k != 5 ==> buf[k] == old(buf[k])
    {
      var tx := ToBe16((Be16(buf[4], buf[5]) + 1) % 0x1_0000);
      buf[4], buf[5] := tx[0], tx[1];
    }

    /** The length fields of vis_publish_data: the inner length is
        VIS_DATA_SIZE of the payload's counters, the outer length adds the
        transaction block and the alfred_data header; `len`, the number of
        bytes to write, adds the tlv. */
    method SetLengths() returns (len: nat)
      requires buf.Length == BufSize
      modifies buf
      ensures var inner := VisDataSize(buf[PayloadOffset + 6], buf[PayloadOffset + 7]);
        buf[DataHeaderOffset + 2..PayloadOffset] == ToBe16(inner) &&
        buf[2..4] == ToBe16(inner + MinOuterLength) &&
        len == PayloadOffset + inner
      ensures forall k :: 0 <= k < BufSize && k != 2 && k != 3 && k != DataHeaderOffset + 2 && k != DataHeaderOffset + 3 ==>
        buf[k] == old(buf[k])
    {
      len := VisDataSize(buf[PayloadOffset + 6], buf[PayloadOffset + 7]);
      var inner := ToBe16(len);
      buf[DataHeaderOffset + 2], buf[DataHeaderOffset + 3] := inner[0], inner[1];
      len := len + (PushSize - TlvSize);
      len := len + DataSize;
      var outer := ToBe16(len);
      buf[2], buf[3] := outer[0], outer[1];
      len := len + TlvSize;
    }

    /** vis_publish_data up to the write: the transaction id goes up by one
        modulo 2^16, the length fields are set, and the bytes written are the
        tlv plus the outer length. Nothing else in the buffer changes. */
    method PublishData() returns (frame: seq<Byte>)
      requires Valid()
      modifies buf
      ensures Valid()
      ensures TxId() == NextTx(old(TxId())) && buf[4..6] == ToBe16(TxId())
      ensures var inner := VisDataSize(buf[PayloadOffset + 6], buf[PayloadOffset + 7]);
        buf[DataHeaderOffset + 2..PayloadOffset] == ToBe16(inner) &&
        buf[2..4] == ToBe16(inner + MinOuterLength) &&
        frame == buf[..PayloadOffset + inner]
      ensures forall k :: 0 <= k < BufSize && !(2 <= k < 6) && !(DataHeaderOffset + 2 <= k < PayloadOffset) ==>
        buf[k] == old(buf[k])
    {
      NextTxId();
      ghost var tx := TxId();
      var len := SetLengths();
      assert buf[4..6] == ToBe16(tx);
      frame := buf[..len];
    }

    /** The first four steps of vis_update_data: clear_lists,
        register_interfaces, parse_orig_list, parse_transtable_local. */
    method RebuildLists(active: seq<string>, orig: Option<string>, trans: Option<string>,
                        resolve: string -> Option<Mac>)
      modifies this
      ensures Lists(ifaceList, entryList) == CycleLists(active, orig, trans, resolve)
    {
      ClearLists();
      RegisterInterfaces(active, resolve);
      var _ := ParseOrigList(orig, resolve);
      var _ := ParseTranstableLocal(trans);
    }

    /** vis_update_data: one server cycle. Both lists are rebuilt from empty
        out of the active interfaces and the two debug tables (None for a
        table that cannot be read), packed, and written as a push frame
        whose transaction id is one more than the last. What a cycle builds
        does not depend on what the previous one built. */
    method UpdateData(active: seq<string>, orig: Option<string>, trans: Option<string>,
                      resolve: string -> Option<Mac>) returns (frame: seq<Byte>)
      requires Valid()
      modifies this, buf
      ensures Valid()
      ensures Lists(ifaceList, entryList) == CycleLists(active, orig, trans, resolve)
      ensures TxId() == NextTx(old(TxId()))
      ensures var n := Min(|ifaceList|, MaxIfaces);
        var m := Min(|entryList|, MaxEntries);
        frame == PushFrame(TxId(), ZeroMac, Macs(ifaceList[..n]), entryList[..m])
    {
      RebuildLists(active, orig, trans, resolve);
      frame := CompileAndPublish();
    }

    /** The last two steps of vis_update_data: compile_vis_data, then
        vis_publish_data, which writes the push frame of the packed list
        prefixes. */
    method CompileAndPublish() returns (frame: seq<Byte>)
      requires Valid()
      modifies buf
      ensures Valid()
      ensures TxId() == NextTx(old(TxId()))
      ensures var n := Min(|ifaceList|, MaxIfaces);
        var m := Min(|entryList|, MaxEntries);
        frame == PushFrame(TxId(), ZeroMac, Macs(ifaceList[..n]), entryList[..m])
    {
      CompileVisData();
      ghost var n := Min(|ifaceList|, MaxIfaces);
      ghost var m := Min(|entryList|, MaxEntries);
      frame := PublishPacked(Macs(ifaceList[..n]), entryList[..m]);
    }

    /** vis_publish_data on a buffer whose payload is the packing of `ifaces`
        and `es`: the frame written is their push frame, under the next
        transaction id. */
    method PublishPacked(ghost ifaces: seq<Mac>, ghost es: seq<VisEntry>) returns (frame: seq<Byte>)
      requires Valid() && |ifaces| < 256 && |es| < 256
      requires buf[PayloadOffset..PayloadOffset + VisDataSize(|ifaces|, |es|)] == PackVis(ZeroMac, ifaces, es)
      modifies buf
      ensures Valid()
      ensures TxId() == NextTx(old(TxId()))
      ensures frame == PushFrame(TxId(), ZeroMac, ifaces, es)
    {
      ghost var compiled := buf[..];
      frame := PublishData();
      PackedFrame(compiled, buf[..], TxId(), ifaces, es);
    }
  }
}
