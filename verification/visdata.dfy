/** The vis_v1 payload: a 6-byte address, the counters iface_n and
    entries_n, then iface_n 6-byte interface addresses immediately followed
    by entries_n 8-byte entries (address, ifindex, quality). */
module VisData {
  import opened VisTypes

  /** VIS_DATA_SIZE: the byte size of a payload with these counters. Any
      pair of byte counters gives a payload that fits, behind the headers,
      in the 65536-byte buffers of both sides. */
  function VisDataSize(ifaceN: nat, entriesN: nat): (n: nat)
    ensures n >= VisHeaderSize
    ensures ifaceN < 256 && entriesN < 256 ==> PayloadOffset + n <= BufSize
  {
    VisHeaderSize + IfaceSize * ifaceN + EntrySize * entriesN
  }

  /** The interface array: the addresses back to back. */
  function PackMacs(ms: seq<Mac>): (b: seq<Byte>)
    ensures |b| == IfaceSize * |ms|
  {
    if ms == [] then [] else ms[0] + PackMacs(ms[1..])
  }

  function PackEntry(e: VisEntry): (b: seq<Byte>)
    ensures |b| == EntrySize
  {
    e.mac + [e.ifindex, e.qual]
  }

  /** The entry array, which starts right after the last interface. */
  function PackEntries(es: seq<VisEntry>): (b: seq<Byte>)
    ensures |b| == EntrySize * |es|
  {
    if es == [] then [] else PackEntry(es[0]) + PackEntries(es[1..])
  }

  /** A whole payload; `vmac` is the vis_v1 address field. */
  function PackVis(vmac: Mac, ifaces: seq<Mac>, entries: seq<VisEntry>): (b: seq<Byte>)
    requires |ifaces| < 256 && |entries| < 256
    ensures |b| == VisDataSize(|ifaces|, |entries|)
    ensures b[6] == |ifaces| && b[7] == |entries|
  {
    vmac + [|ifaces|, |entries|] + PackMacs(ifaces) + PackEntries(entries)
  }

  /** Packing one more address extends the interface array at its end. */
  lemma {:induction false} PackMacsSnoc(ms: seq<Mac>, m: Mac)
    ensures PackMacs(ms + [m]) == PackMacs(ms) + m
  {
    if ms == [] {
      assert [m][1..] == [];
    } else {
      assert (ms + [m])[1..] == ms[1..] + [m];
      PackMacsSnoc(ms[1..], m);
    }
  }

  /** Packing one more entry extends the entry array at its end. */
  lemma {:induction false} PackEntriesSnoc(es: seq<VisEntry>, e: VisEntry)
    ensures PackEntries(es + [e]) == PackEntries(es) + PackEntry(e)
  {
    if es == [] {
      assert [e][1..] == [];
    } else {
      assert (es + [e])[1..] == es[1..] + [e];
      PackEntriesSnoc(es[1..], e);
    }
  }

  /** Reading `n` interface addresses from the front of `b`. */
  function UnpackMacs(b: seq<Byte>, n: nat): (ms: seq<Mac>)
    requires |b| >= IfaceSize * n
    ensures |ms| == n
  {
    if n == 0 then [] else [b[..6]] + UnpackMacs(b[6..], n - 1)
  }

  function UnpackEntry(b: seq<Byte>): VisEntry
    requires |b| >= EntrySize
  {
    VisEntry(b[..6], b[6], b[7])
  }

  /** Reading `n` entries from the front of `b`. */
  function UnpackEntries(b: seq<Byte>, n: nat): (es: seq<VisEntry>)
    requires |b| >= EntrySize * n
    ensures |es| == n
  {
    if n == 0 then [] else [UnpackEntry(b)] + UnpackEntries(b[8..], n - 1)
  }

  /** Where the client finds the interfaces and entries of a payload:
      the counters at offsets 6 and 7, the interfaces from offset 8, the
      entries right after the last interface. */
  function DecodeVis(p: seq<Byte>): (r: (seq<Mac>, seq<VisEntry>))
    requires |p| >= VisHeaderSize && |p| >= VisDataSize(p[6], p[7])
    ensures |r.0| == p[6] && |r.1| == p[7]
  {
    var body := p[VisHeaderSize..];
    (UnpackMacs(body, p[6]), UnpackEntries(body[IfaceSize * p[6]..], p[7]))
  }

  lemma {:induction false} UnpackPackMacs(ms: seq<Mac>, rest: seq<Byte>)
    ensures UnpackMacs(PackMacs(ms) + rest, |ms|) == ms
  {
    if ms != [] {
      var b := PackMacs(ms) + rest;
      assert b == ms[0] + (PackMacs(ms[1..]) + rest);
      assert b[..6] == ms[0];
      assert b[6..] == PackMacs(ms[1..]) + rest;
      UnpackPackMacs(ms[1..], rest);
      assert [ms[0]] + ms[1..] == ms;
    }
  }

  lemma {:induction false} UnpackPackEntries(es: seq<VisEntry>, rest: seq<Byte>)
    ensures UnpackEntries(PackEntries(es) + rest, |es|) == es
  {
    if es != [] {
      var b := PackEntries(es) + rest;
      assert b == PackEntry(es[0]) + (PackEntries(es[1..]) + rest);
      assert b[..6] == es[0].mac && b[6] == es[0].ifindex && b[7] == es[0].qual;
      assert UnpackEntry(b) == es[0];
      assert b[8..] == PackEntries(es[1..]) + rest;
      UnpackPackEntries(es[1..], rest);
      assert [es[0]] + es[1..] == es;
    }
  }

  /** Round trip of the payload layout: decoding a packed payload, whatever
      follows it, gives back exactly the packed interfaces and entries. */
  lemma DecodePackVis(vmac: Mac, ifaces: seq<Mac>, entries: seq<VisEntry>, rest: seq<Byte>)
    requires |ifaces| < 256 && |entries| < 256
    ensures var p := PackVis(vmac, ifaces, entries) + rest;
      |p| >= VisDataSize(p[6], p[7]) && DecodeVis(p) == (ifaces, entries)
  {
    var p := PackVis(vmac, ifaces, entries) + rest;
    var body := p[VisHeaderSize..];
    assert body == PackMacs(ifaces) + (PackEntries(entries) + rest);
    UnpackPackMacs(ifaces, PackEntries(entries) + rest);
    assert body[IfaceSize * |ifaces|..] == PackEntries(entries) + rest;
    UnpackPackEntries(entries, rest);
  }

  /** Decoding reads only the first VIS_DATA_SIZE bytes: two buffers that
      agree on them decode alike. */
  lemma DecodeVisReadsPrefix(p: seq<Byte>, q: seq<Byte>)
    requires |p| >= VisHeaderSize && |p| >= VisDataSize(p[6], p[7])
    requires |q| >= VisDataSize(p[6], p[7])
    requires p[..VisDataSize(p[6], p[7])] == q[..VisDataSize(p[6], p[7])]
    ensures q[6] == p[6] && q[7] == p[7] && DecodeVis(q) == DecodeVis(p)
  {
    var n := VisDataSize(p[6], p[7]);
    assert p[6] == p[..n][6] && q[6] == q[..n][6];
    assert p[7] == p[..n][7] && q[7] == q[..n][7];
    UnpackMacsPrefix(p[VisHeaderSize..], q[VisHeaderSize..], p[6], n - VisHeaderSize);
    var k := IfaceSize * p[6];
    UnpackEntriesPrefix(p[VisHeaderSize..][k..], q[VisHeaderSize..][k..], p[7], n - VisHeaderSize - k);
  }

  lemma {:induction false} UnpackMacsPrefix(b: seq<Byte>, c: seq<Byte>, n: nat, m: nat)
    requires IfaceSize * n <= m <= |b| && m <= |c| && b[..m] == c[..m]
    ensures UnpackMacs(b, n) == UnpackMacs(c, n)
  {
    if n > 0 {
      assert b[..6] == b[..m][..6] == c[..m][..6] == c[..6];
      assert b[6..][..m - 6] == b[..m][6..] == c[..m][6..] == c[6..][..m - 6];
      UnpackMacsPrefix(b[6..], c[6..], n - 1, m - 6);
    }
  }

  lemma {:induction false} UnpackEntriesPrefix(b: seq<Byte>, c: seq<Byte>, n: nat, m: nat)
    requires EntrySize * n <= m <= |b| && m <= |c| && b[..m] == c[..m]
    ensures UnpackEntries(b, n) == UnpackEntries(c, n)
  {
    if n > 0 {
      assert b[..6] == b[..m][..6] == c[..m][..6] == c[..6];
      assert b[6] == b[..m][6] == c[..m][6] == c[6];
      assert b[7] == b[..m][7] == c[..m][7] == c[7];
      assert b[8..][..m - 8] == b[..m][8..] == c[..m][8..] == c[8..][..m - 8];
      UnpackEntriesPrefix(b[8..], c[8..], n - 1, m - 8);
    }
  }
}
