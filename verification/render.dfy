/** The dot, json and jsondoc renderers (`vis_dot_*`, `vis_json_*`,
    `vis_jsondoc_*`) with their printed text abstracted to records: what
    each renderer prints for an interface list and for an entry list. */
module Render {
  import opened VisTypes

  /** The renderers modelled here (the netjson one is not). */
  datatype Format = Dot | Json | JsonDoc

  datatype Record =
    | Begin                                          // preamble: "digraph {" or the jsondoc header
    | Interfaces(primary: Mac, secondary: seq<Mac>)  // a dot cluster, json primary/secondary lines, or a jsondoc node opening
    | Neighbor(router: Mac, neighbor: Mac, qual: Byte) // a link labelled 255.0/qual
    | Client(router: Mac, client: Mac)               // a "TT" client of the node
    | NodeEnd                                        // jsondoc: the brace closing a node
    | End                                            // postamble

  /** Per-entry decision shared by every renderer: the sentinel index is a
      client of the primary interface whatever its quality; any other entry
      is a link from the interface it names, unless that index is past the
      interface list or the quality is 0, in which case it is dropped. */
  function Classify(e: VisEntry, ifaces: seq<Mac>): (r: Option<Record>)
    requires |ifaces| > 0
    ensures r.None? <==> e.ifindex != ClientIndex && (e.ifindex >= |ifaces| || e.qual == 0)
    ensures r.Some? ==> (r.value.Client? <==> e.ifindex == ClientIndex)
    ensures r.Some? && r.value.Client? ==> r.value.router == ifaces[0] && r.value.client == e.mac
    ensures r.Some? && r.value.Neighbor? ==>
      r.value.qual != 0 && e.ifindex < |ifaces| && r.value.router == ifaces[e.ifindex] &&
      r.value.neighbor == e.mac && r.value.qual == e.qual
    ensures r.Some? ==> r.value.Client? || r.value.Neighbor?
  {
    if e.ifindex == ClientIndex then Some(Client(ifaces[0], e.mac))
    else if e.ifindex >= |ifaces| then None
    else if e.qual == 0 then None
    else Some(Neighbor(ifaces[e.ifindex], e.mac, e.qual))
  }

  /** The loop of vis_dot_entries and vis_json_entries: every entry in
      order, a dropped one skipped and the loop continuing. */
  function EntryRecords(es: seq<VisEntry>, ifaces: seq<Mac>): (rs: seq<Record>)
    requires |ifaces| > 0
    ensures |rs| <= |es|
    ensures forall i :: 0 <= i < |rs| ==> (rs[i].Neighbor? && rs[i].qual != 0) || rs[i].Client?
  {
    if es == [] then []
    else
      var head := Classify(es[0], ifaces);
      (if head.Some? then [head.value] else []) + EntryRecords(es[1..], ifaces)
  }

  /** The records of `rs` that are links, in order. */
  function OnlyNeighbors(rs: seq<Record>): (ns: seq<Record>)
    ensures forall i :: 0 <= i < |ns| ==> ns[i].Neighbor? && ns[i] in rs
  {
    if rs == [] then [] else (if rs[0].Neighbor? then [rs[0]] else []) + OnlyNeighbors(rs[1..])
  }

  /** The records of `rs` that are clients, in order. */
  function OnlyClients(rs: seq<Record>): (cs: seq<Record>)
    ensures forall i :: 0 <= i < |cs| ==> cs[i].Client? && cs[i] in rs
  {
    if rs == [] then [] else (if rs[0].Client? then [rs[0]] else []) + OnlyClients(rs[1..])
  }

  /** Output of the preamble callback: dot and jsondoc open the document,
      json prints nothing. */
  function Preamble(fmt: Format): (rs: seq<Record>)
    ensures rs == [] <==> fmt == Json
    ensures forall i :: 0 <= i < |rs| ==> rs[i] == Begin
  {
    if fmt == Json then [] else [Begin]
  }

  /** Output of the postamble callback: dot and jsondoc close the
      document, json prints nothing. */
  function Postamble(fmt: Format): (rs: seq<Record>)
    ensures rs == [] <==> fmt == Json
    ensures forall i :: 0 <= i < |rs| ==> rs[i] == End
  {
    if fmt == Json then [] else [End]
  }

  /** Output of the interfaces callback: the first interface is the
      primary, the others its secondaries, in order. */
  function InterfacesOutput(ifaces: seq<Mac>): (rs: seq<Record>)
    requires |ifaces| > 0
    ensures |rs| == 1 && rs[0].Interfaces? && [rs[0].primary] + rs[0].secondary == ifaces
  {
    [Interfaces(ifaces[0], ifaces[1..])]
  }

  /** Output of the entries callback. dot and json print one record per
      kept entry in entry order; jsondoc prints the "neighbors" array
      (links only), then the "clients" array, then closes the node. */
  function EntriesOutput(fmt: Format, es: seq<VisEntry>, ifaces: seq<Mac>): (rs: seq<Record>)
    requires |ifaces| > 0
    ensures forall i :: 0 <= i < |rs| ==>
      (rs[i].Neighbor? && rs[i].qual != 0) || rs[i].Client? || (fmt == JsonDoc && rs[i] == NodeEnd)
    ensures fmt == JsonDoc ==> |rs| > 0 && rs[|rs| - 1] == NodeEnd && NodeEnd !in rs[..|rs| - 1]
  {
    var recs := EntryRecords(es, ifaces);
    if fmt == JsonDoc then OnlyNeighbors(recs) + OnlyClients(recs) + [NodeEnd]
    else recs
  }

  lemma {:induction false} EntryRecordsAppend(es1: seq<VisEntry>, es2: seq<VisEntry>, ifaces: seq<Mac>)
    requires |ifaces| > 0
    ensures EntryRecords(es1 + es2, ifaces) == EntryRecords(es1, ifaces) + EntryRecords(es2, ifaces)
  {
    if es1 != [] {
      assert (es1 + es2)[1..] == es1[1..] + es2;
      EntryRecordsAppend(es1[1..], es2, ifaces);
    } else {
      assert es1 + es2 == es2;
    }
  }

  /** Every kept entry is rendered, in entry order: the record of entry i
      sits right after the records of the entries before it, and an entry
      that is dropped does not stop the ones after it. */
  lemma EntryRecordsInOrder(es: seq<VisEntry>, ifaces: seq<Mac>, i: nat)
    requires |ifaces| > 0 && i < |es|
    ensures var before := EntryRecords(es[..i], ifaces);
      var c := Classify(es[i], ifaces);
      EntryRecords(es, ifaces) ==
        before + (if c.Some? then [c.value] else []) + EntryRecords(es[i + 1..], ifaces)
  {
    var b := [es[i]] + es[i + 1..];
    assert es == es[..i] + b;
    EntryRecordsAppend(es[..i], b, ifaces);
    assert b[0] == es[i] && b[1..] == es[i + 1..];
  }

  /** Nothing is rendered that no entry gave rise to: each record is the
      classification of some entry. */
  lemma {:induction false} EntryRecordsFromEntries(es: seq<VisEntry>, ifaces: seq<Mac>, k: nat)
    requires |ifaces| > 0 && k < |EntryRecords(es, ifaces)|
    ensures exists i :: 0 <= i < |es| && Classify(es[i], ifaces) == Some(EntryRecords(es, ifaces)[k])
  {
    var head := Classify(es[0], ifaces);
    if head.Some? && k == 0 {
      assert Classify(es[0], ifaces) == Some(EntryRecords(es, ifaces)[k]);
    } else {
      var k' := if head.Some? then k - 1 else k;
      EntryRecordsFromEntries(es[1..], ifaces, k');
      var i :| 0 <= i < |es[1..]| && Classify(es[1..][i], ifaces) == Some(EntryRecords(es[1..], ifaces)[k']);
      assert es[1..][i] == es[i + 1];
    }
  }

  /** The defensive checks of every renderer: a rendered link never has
      quality 0 and always leaves from one of the snapshot's interfaces; a
      rendered client always hangs off the primary interface. */
  lemma RenderedRecordsAreValid(es: seq<VisEntry>, ifaces: seq<Mac>, k: nat)
    requires |ifaces| > 0 && k < |EntryRecords(es, ifaces)|
    ensures var r := EntryRecords(es, ifaces)[k];
      (r.Neighbor? && r.qual != 0 && r.router in ifaces) || (r.Client? && r.router == ifaces[0])
  {
    EntryRecordsFromEntries(es, ifaces, k);
  }

  /** Classification of the sentinel index does not look at the quality:
      any entry with index 255 renders as a client of the primary. */
  lemma SentinelIsClient(e: VisEntry, ifaces: seq<Mac>)
    requires |ifaces| > 0 && e.ifindex == ClientIndex
    ensures EntryRecords([e], ifaces) == [Client(ifaces[0], e.mac)]
  {
    assert [e][1..] == [];
  }
}
