/** The two lists the server rebuilds every cycle, as values: the interface
    table of get_if_index and the entry list that parse_orig_list and
    parse_transtable_local fill from the text of batman-adv's debug files.
    The methods of the server class are proved against these functions. */
module Tables {
  import opened VisTypes
  import opened CText
  import opened MacText
  import opened Render

  /** IFNAMSIZ: the size of the interface name get_if_mac hands to the
      kernel. */
  const IfNameSize: nat := 16

  /** Line separators of the debug files, and the column separators of the
      originator table and of the local translation table. */
  const LineDelims: set<char> := {'\n'}
  const OrigDelims: set<char> := {'\t', ' ', '[', ']', '(', ')'}
  const TransDelims: set<char> := {'\t', ' '}

  /** strncpy of `s` into a buffer of `size` characters whose last one is
      then set to NUL: at most size - 1 characters survive. */
  function Truncate(s: string, size: nat): (t: string)
    requires size > 0
    ensures |t| < size && t <= s
    ensures |s| < size ==> t == s
    ensures |s| >= size ==> |t| == size - 1
  {
    if |s| < size then s else s[..size - 1]
  }

  /** The interface addresses of a table, in order. */
  function Macs(table: seq<IfaceEntry>): (ms: seq<Mac>)
    ensures |ms| == |table|
    ensures forall i :: 0 <= i < |table| ==> ms[i] == table[i].mac
  {
    if table == [] then [] else [table[0].mac] + Macs(table[1..])
  }

  /** The addresses of one more entry of a table. */
  lemma MacsSnoc(table: seq<IfaceEntry>, i: nat)
    requires i < |table|
    ensures Macs(table[..i + 1]) == Macs(table[..i]) + [table[i].mac]
  {
  }

  /** The position get_if_index's walk stops at: the first entry whose
      stored name equals `name` in the first sizeof(name) characters, or
      the length of the table when there is none. */
  function FirstMatch(table: seq<IfaceEntry>, name: string): (k: nat)
    ensures k <= |table|
    ensures forall j :: 0 <= j < k ==> !StrNEq(name, table[j].name, IfaceNameSize)
    ensures k < |table| ==> StrNEq(name, table[k].name, IfaceNameSize)
  {
    if table == [] then 0
    else if StrNEq(name, table[0].name, IfaceNameSize) then 0
    else 1 + FirstMatch(table[1..], name)
  }

  /** get_if_index on the table `table`: the index it returns and the table
      after the call. `resolve` stands for get_if_mac, which is handed the
      name cut to IFNAMSIZ - 1 characters; a new entry stores the name cut
      to sizeof(name) - 1 characters. The table is append-only: the index is
      in range, and a failure leaves the table as it was. */
  function IfIndex(table: seq<IfaceEntry>, name: Option<string>, resolve: string -> Option<Mac>): (r: (int, seq<IfaceEntry>))
    ensures -1 <= r.0 < |r.1|
    ensures |table| <= |r.1| <= |table| + 1 && r.1[..|table|] == table
    ensures r.0 == -1 ==> r.1 == table
  {
    if name.None? then (-1, table)
    else
      var k := FirstMatch(table, name.value);
      if k < |table| then (k as int, table)
      else
        match resolve(Truncate(name.value, IfNameSize))
        case None => (-1, table)
        case Some(m) => (k as int, table + [IfaceEntry(Truncate(name.value, IfaceNameSize), m)])
  }

  /** A name already in the table: the position of its first occurrence,
      and the table unchanged; the address is not looked up again. */
  lemma IfIndexKnown(table: seq<IfaceEntry>, name: string, j: nat, resolve: string -> Option<Mac>)
    requires j < |table| && StrNEq(name, table[j].name, IfaceNameSize)
    requires forall i :: 0 <= i < j ==> !StrNEq(name, table[i].name, IfaceNameSize)
    ensures IfIndex(table, Some(name), resolve) == (j, table)
  {
    var k := FirstMatch(table, name);
    assert k == j by {
      if k < j {
      } else if k > j {
      }
    }
  }

  /** A new name whose address resolves: one entry appended at the tail,
      and its index is the old length of the table. */
  lemma IfIndexNew(table: seq<IfaceEntry>, name: string, m: Mac, resolve: string -> Option<Mac>)
    requires forall i :: 0 <= i < |table| ==> !StrNEq(name, table[i].name, IfaceNameSize)
    requires resolve(Truncate(name, IfNameSize)) == Some(m)
    ensures IfIndex(table, Some(name), resolve) == (|table|, table + [IfaceEntry(Truncate(name, IfaceNameSize), m)])
  {
    assert FirstMatch(table, name) == |table|;
  }

  /** The error result: -1 exactly for a missing name and for a new name
      whose address cannot be read. */
  lemma IfIndexFails(table: seq<IfaceEntry>, name: Option<string>, resolve: string -> Option<Mac>)
    ensures IfIndex(table, name, resolve).0 == -1 <==>
      name.None? ||
      ((forall i :: 0 <= i < |table| ==> !StrNEq(name.value, table[i].name, IfaceNameSize)) &&
       resolve(Truncate(name.value, IfNameSize)).None?)
  {
    if name.Some? {
      var k := FirstMatch(table, name.value);
      if k < |table| {
        assert StrNEq(name.value, table[k].name, IfaceNameSize);
      }
    }
  }

  /** A name shorter than sizeof(name) is found again once registered:
      asking a second time gives the same index and leaves the table alone,
      whatever the lookup would now answer. */
  lemma IfIndexStable(table: seq<IfaceEntry>, name: string, resolve: string -> Option<Mac>, resolve': string -> Option<Mac>)
    requires |name| < IfaceNameSize
    requires IfIndex(table, Some(name), resolve).0 >= 0
    ensures var r := IfIndex(table, Some(name), resolve);
      IfIndex(r.1, Some(name), resolve') == r
  {
    var r := IfIndex(table, Some(name), resolve);
    var k := FirstMatch(table, name);
    assert forall i :: 0 <= i < k ==> r.1[i] == table[i];
    StrNEqIsBoundedEquality(name, Truncate(name, IfaceNameSize), IfaceNameSize);
    IfIndexKnown(r.1, name, r.0, resolve');
  }

  /** A name of sizeof(name) characters or more is stored cut short, and
      the cut name never compares equal to the full one: every lookup of
      such a name appends one more entry. */
  lemma LongNameAddedAgain(table: seq<IfaceEntry>, name: string, resolve: string -> Option<Mac>)
    requires |name| >= IfaceNameSize
    requires forall i :: 0 <= i < |table| ==> !StrNEq(name, table[i].name, IfaceNameSize)
    requires resolve(Truncate(name, IfNameSize)).Some?
    ensures var r := IfIndex(table, Some(name), resolve);
      IfIndex(r.1, Some(name), resolve).1 == r.1 + [r.1[|table|]]
  {
    var m := resolve(Truncate(name, IfNameSize)).value;
    var e := IfaceEntry(Truncate(name, IfaceNameSize), m);
    IfIndexNew(table, name, m, resolve);
    StrNEqIsBoundedEquality(name, e.name, IfaceNameSize);
    var t2 := table + [e];
    forall i | 0 <= i < |t2|
      ensures !StrNEq(name, t2[i].name, IfaceNameSize)
    {
      if i < |table| {
        assert t2[i] == table[i];
      }
    }
    IfIndexNew(t2, name, m, resolve);
  }

  /** The interface table and the entry list between two steps of a server
      cycle. */
  datatype Lists = Lists(ifaces: seq<IfaceEntry>, entries: seq<VisEntry>)

  /** The link quality column as parse_orig_list reads it: strtol, then
      assigned to an int. */
  function Quality(tok: string): int
  {
    ToInt32(StrToLong(tok))
  }

  /** parse_orig_list on one line of the originator table. Of the columns
      (separated by tab, blank, brackets and parentheses) it reads the
      originator (0), the quality (2), the next hop (3) and the outgoing
      interface (4). A line with fewer than five columns, whose originator
      is not its own next hop, whose quality lies outside [1, 255], whose
      originator is not an address, or whose interface cannot be indexed
      leaves both lists alone. Otherwise one entry is appended; the index
      is stored in a byte. */
  function OrigLine(l: Lists, line: string, resolve: string -> Option<Mac>): (r: Lists)
    ensures |l.ifaces| <= |r.ifaces| <= |l.ifaces| + 1 && r.ifaces[..|l.ifaces|] == l.ifaces
    ensures r.entries == l.entries ==> r.ifaces == l.ifaces
    ensures r.entries != l.entries ==>
      |r.entries| == |l.entries| + 1 && r.entries[..|l.entries|] == l.entries &&
      1 <= r.entries[|l.entries|].qual
  {
    var t := Tokens(line, OrigDelims);
    if |t| < 5 || t[0] != t[3] then l
    else
      var q := Quality(t[2]);
      if q < 1 || q > 255 then l
      else
        match StrToMac(Some(t[0]))
        case None => l
        case Some(mac) =>
          var (idx, ifaces) := IfIndex(l.ifaces, Some(t[4]), resolve);
          if idx < 0 then l
          else Lists(ifaces, l.entries + [VisEntry(mac, idx % 256, q)])
  }

  /** The conditions under which parse_orig_list takes a line. */
  predicate OrigLineTaken(l: Lists, line: string, resolve: string -> Option<Mac>)
  {
    var t := Tokens(line, OrigDelims);
    |t| >= 5 && t[0] == t[3] && 1 <= Quality(t[2]) <= 255 &&
    StrToMac(Some(t[0])).Some? && IfIndex(l.ifaces, Some(t[4]), resolve).0 >= 0
  }

  /** A line is taken exactly when all five conditions hold; the entry
      appended then carries the originator's address, the index of the
      outgoing interface cut to a byte, and the quality, and the interface
      table is the one get_if_index left. */
  lemma OrigLineAccepts(l: Lists, line: string, resolve: string -> Option<Mac>)
    ensures OrigLine(l, line, resolve) != l <==> OrigLineTaken(l, line, resolve)
    ensures OrigLineTaken(l, line, resolve) ==>
      var t := Tokens(line, OrigDelims);
      var (idx, ifaces) := IfIndex(l.ifaces, Some(t[4]), resolve);
      OrigLine(l, line, resolve) ==
        Lists(ifaces, l.entries + [VisEntry(StrToMac(Some(t[0])).value, idx % 256, Quality(t[2]))])
  {
    if OrigLineTaken(l, line, resolve) {
      assert |OrigLine(l, line, resolve).entries| == |l.entries| + 1;
    }
  }

  /** The lines of a debug file as strtok_r hands them out (empty lines
      never show up), without the first `k` header lines. */
  function Body(text: string, k: nat): (body: seq<string>)
    ensures |body| + k <= |Tokens(text, LineDelims)| || body == []
    ensures |Tokens(text, LineDelims)| > k ==> |body| + k == |Tokens(text, LineDelims)|
    ensures forall i :: 0 <= i < |body| ==>
      k + i < |Tokens(text, LineDelims)| && body[i] != [] && body[i] == Tokens(text, LineDelims)[k + i]
  {
    var lines := Tokens(text, LineDelims);
    if |lines| <= k then [] else lines[k..]
  }

  /** parse_orig_list over a run of lines, one after the other: both lists
      only grow at the tail, and each line adds at most one interface and
      at most one entry. */
  function OrigParse(l: Lists, lines: seq<string>, resolve: string -> Option<Mac>): (r: Lists)
    ensures |r.ifaces| <= |l.ifaces| + |lines| && |r.entries| <= |l.entries| + |lines|
    ensures |l.ifaces| <= |r.ifaces| && r.ifaces[..|l.ifaces|] == l.ifaces
    ensures |l.entries| <= |r.entries| && r.entries[..|l.entries|] == l.entries
    decreases |lines|
  {
    if lines == [] then l
    else
      var m := OrigParse(l, lines[..|lines| - 1], resolve);
      var r := OrigLine(m, lines[|lines| - 1], resolve);
      assert r.ifaces[..|l.ifaces|] == r.ifaces[..|m.ifaces|][..|l.ifaces|];
      assert r.entries[..|l.entries|] == r.entries[..|m.entries|][..|l.entries|];
      r
  }

  /** One more line is one more step of parse_orig_list. */
  lemma OrigParseSnoc(l: Lists, lines: seq<string>, line: string, resolve: string -> Option<Mac>)
    ensures OrigParse(l, lines + [line], resolve) == OrigLine(OrigParse(l, lines, resolve), line, resolve)
  {
    assert (lines + [line])[..|lines|] == lines;
  }

  /** parse_orig_list on the text of the originator table: the two header
      lines are skipped. Both lists only grow at the tail, and every entry
      added has a quality of at least 1. */
  function OrigFile(l: Lists, text: string, resolve: string -> Option<Mac>): (r: Lists)
    ensures |l.ifaces| <= |r.ifaces| && r.ifaces[..|l.ifaces|] == l.ifaces
    ensures |l.entries| <= |r.entries| && r.entries[..|l.entries|] == l.entries
    ensures forall i :: |l.entries| <= i < |r.entries| ==> 1 <= r.entries[i].qual
  {
    OrigParseAppends(l, Body(text, 2), resolve);
    OrigParse(l, Body(text, 2), resolve)
  }

  /** Both lists are append-only under parse_orig_list, and every entry it
      adds has a quality of at least 1. */
  lemma {:induction false} OrigParseAppends(l: Lists, lines: seq<string>, resolve: string -> Option<Mac>)
    ensures var r := OrigParse(l, lines, resolve);
      |l.ifaces| <= |r.ifaces| && r.ifaces[..|l.ifaces|] == l.ifaces &&
      |l.entries| <= |r.entries| && r.entries[..|l.entries|] == l.entries &&
      forall i :: |l.entries| <= i < |r.entries| ==> 1 <= r.entries[i].qual
    decreases |lines|
  {
    if lines != [] {
      var m := OrigParse(l, lines[..|lines| - 1], resolve);
      OrigParseAppends(l, lines[..|lines| - 1], resolve);
      var r := OrigLine(m, lines[|lines| - 1], resolve);
      forall i | |l.entries| <= i < |r.entries|
        ensures 1 <= r.entries[i].qual
      {
        if i < |m.entries| {
          assert r.entries[i] == r.entries[..|m.entries|][i];
        }
      }
    }
  }

  /** Lines are taken in file order: parsing two runs of lines one after
      the other is parsing them together. */
  lemma {:induction false} OrigParseConcat(l: Lists, a: seq<string>, b: seq<string>, resolve: string -> Option<Mac>)
    ensures OrigParse(l, a + b, resolve) == OrigParse(OrigParse(l, a, resolve), b, resolve)
    decreases |b|
  {
    if b == [] {
      assert a + b == a;
    } else {
      assert (a + b)[..|a + b| - 1] == a + b[..|b| - 1];
      assert (a + b)[|a + b| - 1] == b[|b| - 1];
      OrigParseConcat(l, a, b[..|b| - 1], resolve);
    }
  }

  /** parse_transtable_local on one line of the local translation table:
      when the second column (separated by tab and blank) is an address, a
      client entry for it is appended, with the sentinel index and quality
      0. */
  function TransLine(es: seq<VisEntry>, line: string): (r: seq<VisEntry>)
    ensures r == es || (|r| == |es| + 1 && r[..|es|] == es && r[|es|].ifindex == ClientIndex && r[|es|].qual == 0)
  {
    var t := Tokens(line, TransDelims);
    if |t| < 2 then es
    else
      match StrToMac(Some(t[1]))
      case None => es
      case Some(mac) => es + [VisEntry(mac, ClientIndex, 0)]
  }

  /** A line adds a client exactly when its second column is an address,
      and the client is that address. */
  lemma TransLineAccepts(es: seq<VisEntry>, line: string)
    ensures var t := Tokens(line, TransDelims);
      TransLine(es, line) != es <==> |t| >= 2 && StrToMac(Some(t[1])).Some?
    ensures var t := Tokens(line, TransDelims);
      |t| >= 2 && StrToMac(Some(t[1])).Some? ==>
      TransLine(es, line) == es + [VisEntry(StrToMac(Some(t[1])).value, ClientIndex, 0)]
  {
    var t := Tokens(line, TransDelims);
    if |t| >= 2 && StrToMac(Some(t[1])).Some? {
      assert |TransLine(es, line)| == |es| + 1;
    }
  }

  /** parse_transtable_local over a run of lines: the list only grows at
      the tail, and each line adds at most one entry. */
  function TransParse(es: seq<VisEntry>, lines: seq<string>): (r: seq<VisEntry>)
    ensures |es| <= |r| <= |es| + |lines| && r[..|es|] == es
    decreases |lines|
  {
    if lines == [] then es
    else
      var m := TransParse(es, lines[..|lines| - 1]);
      var r := TransLine(m, lines[|lines| - 1]);
      assert r[..|es|] == r[..|m|][..|es|];
      r
  }

  /** One more line is one more step of parse_transtable_local. */
  lemma TransParseSnoc(es: seq<VisEntry>, lines: seq<string>, line: string)
    ensures TransParse(es, lines + [line]) == TransLine(TransParse(es, lines), line)
  {
    assert (lines + [line])[..|lines|] == lines;
  }

  /** parse_transtable_local on the text of the table: the header line is
      skipped. The list only grows at the tail, and only by clients. */
  function TransFile(es: seq<VisEntry>, text: string): (r: seq<VisEntry>)
    ensures |es| <= |r| && r[..|es|] == es
    ensures forall i :: |es| <= i < |r| ==> r[i].ifindex == ClientIndex && r[i].qual == 0
  {
    TransParseAddsClients(es, Body(text, 1));
    TransParse(es, Body(text, 1))
  }

  /** The entry list is append-only under parse_transtable_local, and
      everything it adds is a client record: the sentinel index, quality
      0. */
  lemma {:induction false} TransParseAddsClients(es: seq<VisEntry>, lines: seq<string>)
    ensures var r := TransParse(es, lines);
      |es| <= |r| <= |es| + |lines| && r[..|es|] == es &&
      forall i :: |es| <= i < |r| ==> r[i].ifindex == ClientIndex && r[i].qual == 0
    decreases |lines|
  {
    if lines != [] {
      var m := TransParse(es, lines[..|lines| - 1]);
      TransParseAddsClients(es, lines[..|lines| - 1]);
      var r := TransLine(m, lines[|lines| - 1]);
      forall i | |es| <= i < |r|
        ensures r[i].ifindex == ClientIndex && r[i].qual == 0
      {
        if i < |m| {
          assert r[i] == r[..|m|][i];
        }
      }
    }
  }

  /** As written, the index get_if_index returns is stored in a byte: once
      the table holds 255 interfaces, the next new interface gets index 255,
      which every renderer reads as the client sentinel, so the link is
      shown as a client of the primary interface. */
  lemma OrigIndexBecomesSentinel(l: Lists, line: string, resolve: string -> Option<Mac>)
    requires |l.ifaces| == 255
    requires var t := Tokens(line, OrigDelims);
      |t| >= 5 && t[0] == t[3] && 1 <= Quality(t[2]) <= 255 && StrToMac(Some(t[0])).Some? &&
      (forall i :: 0 <= i < |l.ifaces| ==> !StrNEq(t[4], l.ifaces[i].name, IfaceNameSize)) &&
      resolve(Truncate(t[4], IfNameSize)).Some?
    ensures var r := OrigLine(l, line, resolve);
      |r.entries| == |l.entries| + 1 && r.entries[|l.entries|].ifindex == ClientIndex &&
      1 <= r.entries[|l.entries|].qual
  {
    var t := Tokens(line, OrigDelims);
    IfIndexNew(l.ifaces, t[4], resolve(Truncate(t[4], IfNameSize)).value, resolve);
    OrigLineAccepts(l, line, resolve);
  }

  /** As written, at 256 registered interfaces the byte wraps: the link
      through the next new interface is stored with index 0 and is shown
      as leaving from the primary interface. */
  lemma OrigIndexWrapsToPrimary(l: Lists, line: string, resolve: string -> Option<Mac>)
    requires |l.ifaces| == 256
    requires var t := Tokens(line, OrigDelims);
      |t| >= 5 && t[0] == t[3] && 1 <= Quality(t[2]) <= 255 && StrToMac(Some(t[0])).Some? &&
      (forall i :: 0 <= i < |l.ifaces| ==> !StrNEq(t[4], l.ifaces[i].name, IfaceNameSize)) &&
      resolve(Truncate(t[4], IfNameSize)).Some?
    ensures var r := OrigLine(l, line, resolve);
      |r.ifaces| == 257 && |r.entries| == |l.entries| + 1 && r.entries[|l.entries|].ifindex == 0
  {
    var t := Tokens(line, OrigDelims);
    IfIndexNew(l.ifaces, t[4], resolve(Truncate(t[4], IfNameSize)).value, resolve);
    OrigLineAccepts(l, line, resolve);
  }

  /** parse_orig_list with the index checked before it is stored: an
      interface past the ones compile_vis_data packs is not linked to. */
  function OrigLineChecked(l: Lists, line: string, resolve: string -> Option<Mac>): (r: Lists)
    ensures |l.ifaces| <= |r.ifaces| && r.ifaces[..|l.ifaces|] == l.ifaces
    ensures r.entries == l.entries ||
      (|r.entries| == |l.entries| + 1 && r.entries[..|l.entries|] == l.entries &&
       1 <= r.entries[|l.entries|].qual && r.entries[|l.entries|].ifindex < Min(|r.ifaces|, MaxIfaces))
  {
    var t := Tokens(line, OrigDelims);
    if |t| < 5 || t[0] != t[3] then l
    else
      var q := Quality(t[2]);
      if q < 1 || q > 255 then l
      else
        match StrToMac(Some(t[0]))
        case None => l
        case Some(mac) =>
          var (idx, ifaces) := IfIndex(l.ifaces, Some(t[4]), resolve);
          if idx < 0 || idx >= MaxIfaces then l
          else Lists(ifaces, l.entries + [VisEntry(mac, idx, q)])
  }

  /** Every originator entry has a quality and names one of the interfaces
      compile_vis_data packs. */
  predicate LinksValid(l: Lists)
  {
    forall i :: 0 <= i < |l.entries| ==>
      1 <= l.entries[i].qual && l.entries[i].ifindex < Min(|l.ifaces|, MaxIfaces)
  }

  /** The checked line keeps every originator entry pointing at a packed
      interface. */
  lemma OrigLineCheckedKeepsLinks(l: Lists, line: string, resolve: string -> Option<Mac>)
    requires LinksValid(l)
    ensures LinksValid(OrigLineChecked(l, line, resolve))
  {
    var r := OrigLineChecked(l, line, resolve);
    forall i | 0 <= i < |r.entries|
      ensures 1 <= r.entries[i].qual && r.entries[i].ifindex < Min(|r.ifaces|, MaxIfaces)
    {
      if i < |l.entries| {
        assert r.entries[i] == l.entries[i];
      }
    }
  }

  /** The checked parse over a run of lines: both lists only grow at the
      tail, by at most one entry per line. */
  function OrigParseChecked(l: Lists, lines: seq<string>, resolve: string -> Option<Mac>): (r: Lists)
    ensures |r.entries| <= |l.entries| + |lines|
    ensures |l.ifaces| <= |r.ifaces| && r.ifaces[..|l.ifaces|] == l.ifaces
    ensures |l.entries| <= |r.entries| && r.entries[..|l.entries|] == l.entries
    decreases |lines|
  {
    if lines == [] then l
    else
      var m := OrigParseChecked(l, lines[..|lines| - 1], resolve);
      var r := OrigLineChecked(m, lines[|lines| - 1], resolve);
      assert r.ifaces[..|l.ifaces|] == r.ifaces[..|m.ifaces|][..|l.ifaces|];
      assert r.entries[..|l.entries|] == r.entries[..|m.entries|][..|l.entries|];
      r
  }

  lemma {:induction false} OrigParseCheckedKeepsLinks(l: Lists, lines: seq<string>, resolve: string -> Option<Mac>)
    requires LinksValid(l)
    ensures LinksValid(OrigParseChecked(l, lines, resolve))
    decreases |lines|
  {
    if lines != [] {
      OrigParseCheckedKeepsLinks(l, lines[..|lines| - 1], resolve);
      OrigLineCheckedKeepsLinks(OrigParseChecked(l, lines[..|lines| - 1], resolve), lines[|lines| - 1], resolve);
    }
  }

  /** With the check, every originator entry is shown as a link from the
      packed interface it names, with its own quality: none is taken for a
      client and none is dropped. */
  lemma CheckedLinksRendered(l: Lists, i: nat)
    requires LinksValid(l) && i < |l.entries|
    ensures var packed := Macs(l.ifaces)[..Min(|l.ifaces|, MaxIfaces)];
      var e := l.entries[i];
      |packed| > 0 &&
      Classify(e, packed) == Some(Neighbor(l.ifaces[e.ifindex].mac, e.mac, e.qual))
  {
  }
}
