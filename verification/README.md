# batadv-vis in Dafny

batadv-vis is a small companion program of the alfred daemon. It runs as a
server or as a client, and both sides talk to alfred over a local stream
socket.

- **Server.** One update cycle rebuilds two lists from empty:
  - the interfaces of the batman-adv mesh, from register_interfaces and
    get_if_index;
  - the neighbour links and local clients, from the batman-adv originator
    table and the local translation table.

  It then packs both lists into a `vis_v1` payload (compile_vis_data) and
  writes it as an alfred push frame with a new transaction id
  (vis_publish_data).
- **Client.** It asks alfred for the vis data (vis_request_data) and reads
  the push frames of the answer one after the other
  (vis_receive_answer_packet). It skips bogus payloads and renders each
  remaining node as dot, json or jsondoc (vis_read_answer).

The model is organised by module:

| module | file | models |
|---|---|---|
| `VisTypes` | `types.dfy` | bytes, addresses, entry records, header sizes, type codes |
| `CText` | `ctext.dfy` | `strtok_r`, `strncmp` and `strtol` on NUL-free strings |
| `MacText` | `mac.dfy` | `mac_to_str` and `str_to_mac`, with their round trip |
| `VisData` | `visdata.dfy` | the `vis_v1` payload layout, packed and decoded |
| `Wire` | `wire.dfy` | the request frame, the push frame, the receive checks |
| `Tables` | `tables.dfy` | get_if_index, parse_orig_list and parse_transtable_local on values |
| `Server` | `server.dfy` | the server state, with the cycle proved against `Tables` and `Wire` |
| `Render` | `render.dfy` | the dot, json and jsondoc renderers, as output records |
| `Options` | `options.dfy` | the `-f` option |
| `Client` | `client.dfy` | the read loop of vis_read_answer |

On the server, state is changed in place:

- `VisServer` is a class.
- Its fields are the interface list, the entry list and the 65536-byte send
  buffer.
- Each step is a method proved against a function of `Tables` or `Wire`.

The client keeps its static receive buffer as a `seq` that is threaded
through the loop. The stream alfred answers with is a byte sequence.

Everything outside the program is a parameter:

- The file contents of the debug tables are `Option<string>`, with None
  where the file cannot be read.
- The interface names found active are a sequence.
- The SIOCGIFHWADDR lookup of get_if_mac is a function `resolve` from
  names to optional addresses.
- The value of `random()` is a number.

Two behaviours of the code are easy to misread; the model follows the code:

- VIS_DATA_SIZE counts the 6-byte address at the start of `vis_v1`. The
  size is 8 + 6·iface_n + 8·entries_n.
- A frame that fails a check in vis_receive_answer_packet is not skipped.
  The function returns NULL, which ends the client's read loop exactly as
  the end of the stream does.

## Model

| member | source | states |
|---|---|---|
| VisTypes.ToBe16 | vis/vis.c:391-398 | htons/ntohs round trip: the two bytes written read back as the 16-bit value |
| CText.Tokens | vis/vis.c:202-211 | strtok_r hands out only non-empty tokens; which tokens they are is stated by `TokensOfRun` and `TokensSplit` |
| CText.TokensOfRun | vis/vis.c:202-211 | a non-empty string without delimiters is handed out whole, as the only token |
| CText.TokensSplit | vis/vis.c:202-211 | a delimiter separates tokens: the tokens of a, a delimiter, then b are the tokens of a followed by those of b; so runs of delimiters and leading or trailing ones yield no empty token |
| CText.TokensHaveNoDelimiters | vis/vis.c:202-211 | no token returned by strtok_r contains a delimiter |
| CText.StrNEqIsBoundedEquality | vis/vis.c:138 | strncmp(a, b, n) == 0 holds exactly when the strings agree on their first n characters, or are equal when one is shorter than n |
| CText.StrNEq | vis/vis.c:138 | strncmp(a, b, n) == 0 on NUL-free strings; equal strings always compare equal |
| CText.StrNEqSymmetric | vis/vis.c:138 | the comparison does not depend on the order of its arguments |
| CText.StrNEqPrefix | vis/vis.c:1010-1017 | strncmp(s, p, strlen(p)) == 0 is the test "s starts with p" |
| CText.StrToLong | vis/vis.c:354 | strtol always yields a value in the range of a 64-bit long; its value is stated by `StrToLongValue` |
| CText.StrToLongValue | vis/vis.c:354 | after leading white space and an optional sign, strtol yields the decimal value of the digit run, negated after a minus and saturated at the bounds of a 64-bit long; no digits give 0 |
| CText.ToInt32 | vis/vis.c:354 | assigning the long to `int` gives a 32-bit value congruent to it modulo 2^32 |
| MacText.MacToStr | vis/vis.c:75-81 | the printed address is always 17 characters long |
| MacText.MacToStrLayout | vis/vis.c:75-81 | mac_to_str prints 17 characters: six pairs of lower-case hex digits separated by colons, each pair the value of its byte |
| MacText.MacRoundTrip | vis/vis.c:75-100 | str_to_mac reads back every address mac_to_str prints |
| MacText.StrToMacRejectsShort | vis/vis.c:91-97 | fewer than 11 characters can never convert six fields, so str_to_mac returns NULL |
| MacText.StrToMacRejectsNonHex | vis/vis.c:91-97 | a string whose first non-blank character is neither a sign nor a hex digit gives NULL |
| MacText.Hex2 | vis/vis.c:78-79 | `%02x` prints two lower-case hex digits whose value is the byte |
| MacText.ScanHexField | vis/vis.c:91-94 | one `%02hhX` conversion that succeeds consumes at least one and at most all of the characters |
| MacText.ScanColonFields | vis/vis.c:91-94 | the conversions after the first, each behind a literal colon, yield exactly as many bytes as fields requested |
| MacText.StrToMac | vis/vis.c:88-89 | a null string gives NULL |
| VisData.VisDataSize | vis/vis.c:393 | VIS_DATA_SIZE is at least the vis_v1 header, and for any byte counters the payload fits behind the headers in the 65536-byte buffer |
| VisData.PackVis | vis/vis.c:412-438 | the packed payload has VIS_DATA_SIZE bytes and carries the two counters at offsets 6 and 7 |
| VisData.DecodeVis | vis/vis.c:941-942 | the client finds exactly as many interfaces and entries as the counters at offsets 6 and 7 declare |
| VisData.DecodePackVis | vis/vis.c:412-438 | the payload packed by compile_vis_data decodes at the client's offsets to exactly its interfaces and entries, whatever bytes follow it |
| VisData.DecodeVisReadsPrefix | vis/vis.c:935-942 | decoding looks only at the first VIS_DATA_SIZE bytes of the payload |
| VisData.PackMacsSnoc | vis/vis.c:419-425 | copying one more interface address extends the packed interface array at its end |
| VisData.PackEntriesSnoc | vis/vis.c:429-435 | copying one more entry extends the packed entry array at its end |
| Wire.RequestFrame | vis/vis.c:453-463 | the request has type ALFRED_REQUEST, a length counting what follows the tlv, the vis data type, and the low 16 bits of the random transaction id |
| Wire.PushFrame | vis/vis.c:384-398 | the push frame carries an outer length counting all bytes after the tlv, the transaction id, the vis type and version, and an inner length counting the payload, followed by the payload itself |
| Wire.PushFrameZeroSource | vis/vis.c:1060-1065 | the sequence number and the source address of the push frame are zero: vis_server sets the one to 0 and never writes the other |
| Wire.ReadInto | vis/vis.c:487-509 | a read of n bytes at an offset takes as many as the stream still holds, up to n, and leaves the buffer size alone |
| Wire.Accepted | vis/vis.c:491-521 | a stream that passes every check holds at least the 18 header bytes in front of the payload |
| Wire.Received | vis/vis.c:509-515 | after an accepted frame the buffer keeps its size and the stream has lost at least the headers |
| Wire.ReceiveAnswerPacket | vis/vis.c:479-524 | a payload is returned exactly for a stream that starts with a complete push frame of bounded outer length and with vis type and version; the frame is then in the buffer and the stream is positioned after it |
| Wire.FrameReceived | vis/vis.c:487-515 | a complete frame followed by anything is received as exactly that frame |
| Wire.PushFrameReceived | vis/vis.c:384-398 | every frame the server writes passes every check of the client, with VIS_DATA_SIZE as its inner length |
| Wire.HeaderOnlyFrame | vis/vis.c:499-515 | a frame with no payload bytes but any inner length passes every check as written |
| Wire.AcceptedChecked | vis/vis.c:499-515 | the corrected check accepts only frames the original check accepts and whose declared payload lies within the bytes of the stream |
| Wire.CheckedPayloadFromFrame | vis/vis.c:499-515 | once the inner length is bounded by the outer one, the payload bytes are the frame's own bytes |
| Wire.HeaderOnlyFrameRefusedWhenChecked | vis/vis.c:499-515 | once the inner length is bounded by the outer one, a frame with no payload bytes is refused whenever it declares a positive inner length |
| Tables.Truncate | vis/vis.c:107-108 | strncpy followed by a NUL in the last slot keeps a prefix of the name: the whole name when it fits, otherwise exactly its first size - 1 characters |
| Tables.Macs | vis/vis.c:419-420 | the addresses of the interface table, position for position |
| Tables.FirstMatch | vis/vis.c:136-141 | the walk stops at the first entry that compares equal under strncmp, and at the end of the list when there is none |
| Tables.IfIndex | vis/vis.c:128-157 | get_if_index never removes or reorders interfaces; it appends at most one; its index is -1 or a valid position; -1 leaves the table as it was |
| Tables.IfIndexKnown | vis/vis.c:136-141 | a name already present gives the position of its first occurrence, without another address lookup |
| Tables.IfIndexNew | vis/vis.c:142-156 | a new name whose address resolves is appended at the tail, with the name cut to 255 characters, and gets the old length as its index |
| Tables.IfIndexFails | vis/vis.c:133-149 | -1 is returned exactly for a null name and for a new name whose address cannot be read |
| Tables.IfIndexStable | vis/vis.c:128-157 | a registered name shorter than 256 characters is found again at the same index, and the table is not touched |
| Tables.LongNameAddedAgain | vis/vis.c:138-153 | a name of 256 characters or more is stored cut short and never matches itself again, so every lookup appends another entry |
| Tables.OrigLine | vis/vis.c:340-375 | one originator line appends at most one interface and at most one entry; if no entry is added the interfaces are unchanged too; an added entry has a quality of at least 1 |
| Tables.OrigLineAccepts | vis/vis.c:352-373 | a line is taken exactly when it has five columns, its originator is its own next hop, its quality lies in [1, 255], its originator is an address, and its interface can be indexed; the entry appended is that address, the index cut to a byte, and the quality |
| Tables.Body | vis/vis.c:333-338 | when the text has more lines than the header, exactly the lines after the header remain, each non-empty and equal to the strtok_r line at the same position; otherwise nothing remains |
| Tables.OrigParse | vis/vis.c:333-378 | both lists only grow at the tail, and each line adds at most one interface and at most one entry |
| Tables.OrigFile | vis/vis.c:317-382 | over the originator table text both lists only grow at the tail, and every added entry has a quality of at least 1 |
| Tables.OrigParseAppends | vis/vis.c:333-378 | over the whole originator table both lists only grow at the tail, and every added entry has a quality of at least 1 |
| Tables.OrigParseConcat | vis/vis.c:333-378 | lines are processed in file order: parsing two runs of lines in turn is parsing their concatenation |
| Tables.TransLine | vis/vis.c:210-229 | a translation-table line leaves the list alone or appends one client entry with index 255 and quality 0 |
| Tables.TransLineAccepts | vis/vis.c:214-228 | a client is added exactly when the second column is an address, and the client is that address |
| Tables.TransParse | vis/vis.c:202-231 | the list only grows at the tail, by at most one entry per line |
| Tables.TransFile | vis/vis.c:185-235 | over the translation table text the list only grows at the tail, and only by client records (index 255, quality 0) |
| Tables.TransParseAddsClients | vis/vis.c:202-231 | over the whole table the entry list only grows at the tail, by at most one entry per line, and every added entry is a client record |
| Tables.OrigIndexBecomesSentinel | vis/vis.c:362-372 | with 255 interfaces registered, a link through a new interface is stored with index 255, the client sentinel |
| Tables.OrigIndexWrapsToPrimary | vis/vis.c:362-372 | with 256 interfaces registered, a link through a new interface is stored with index 0, so it is shown as leaving from the primary interface |
| Tables.OrigLineChecked | vis/vis.c:362-372 | the corrected line step: an added entry has a quality of at least 1 and names an interface that compile_vis_data packs |
| Tables.OrigLineCheckedKeepsLinks | vis/vis.c:362-372 | the corrected line step preserves the property that every link names a packed interface |
| Tables.OrigParseChecked | vis/vis.c:333-378 | the corrected parse only grows both lists at the tail, by at most one entry per line |
| Tables.OrigParseCheckedKeepsLinks | vis/vis.c:333-378 | the corrected parse preserves that property over a whole table |
| Tables.CheckedLinksRendered | vis/vis.c:547-566 | under that property every link is rendered as a link from the interface it names, with its own quality |
| Server.Register | vis/vis.c:275-304 | get_if_index over the active names removes or moves no interface and adds at most one per name |
| Server.NextTx | vis/vis.c:391 | the next transaction id is one more than the last, below 2^16, and 0 after 0xffff |
| Server.OrigStage | vis/vis.c:442-444 | after clearing, registering and the originator table, every entry has a quality of at least 1 |
| Server.CycleLists | vis/vis.c:440-445 | the translation table adds no interface and removes no entry of the originator stage |
| Server.CycleEntries | vis/vis.c:440-451 | a cycle's entry list consists of the originator links, each with a quality of at least 1, followed by the local clients, each with index 255 and quality 0 |
| Server.PayloadPieces | vis/vis.c:412-438 | a zero address, the two counters, the interface addresses from offset 8 and then the entries make up exactly the vis_v1 packing |
| Server.PayloadFromBytes | vis/vis.c:419-436 | the bytes compile_vis_data writes, one by one, form the vis_v1 packing |
| Server.PackedFrame | vis/vis.c:391-404 | after publish, the bytes written from the buffer are the push frame of the packed lists |
| Server.VisServer.constructor | vis/vis.c:1057-1068 | every byte of the buffer is 0 except the push type and version and the vis type and version; the push and vis headers are set, with transaction id and sequence number 0; both lists start empty |
| Server.VisServer.ClearLists | vis/vis.c:237-253 | both lists are empty afterwards |
| Server.VisServer.GetIfIndex | vis/vis.c:128-157 | the list walk, lookup and append compute exactly `Tables.IfIndex` on the old interface list; the entry list is untouched |
| Server.VisServer.RegisterInterfaces | vis/vis.c:298-299 | get_if_index is applied to each active interface in turn |
| Server.VisServer.ParseOrigLine | vis/vis.c:340-375 | the column walk and checks of one line compute exactly `Tables.OrigLine` on both lists |
| Server.VisServer.ParseOrigList | vis/vis.c:317-382 | -1 with both lists unchanged when the table cannot be read; otherwise 0 and every line after the two header lines is processed in order |
| Server.VisServer.ParseTransLine | vis/vis.c:210-230 | one line computes exactly `Tables.TransLine`; the interface list is untouched |
| Server.VisServer.ParseTranstableLocal | vis/vis.c:185-235 | -1 with the list unchanged when the table cannot be read; otherwise 0 and every line after the header line is processed in order |
| Server.VisServer.CopyBytes | vis/vis.c:420-430 | memcpy: the bytes land at the offset and nothing outside them changes |
| Server.VisServer.CopyIfaces | vis/vis.c:419-426 | at most 254 addresses are copied in list order, and nothing in front of them changes |
| Server.VisServer.CopyEntries | vis/vis.c:427-436 | at most 255 entries are copied, starting right after the last address, and nothing in front of them changes |
| Server.VisServer.CompileVisData | vis/vis.c:412-438 | the payload in the buffer is the vis_v1 packing of the first 254 interfaces and the first 255 entries; the headers are untouched |
| Server.VisServer.NextTxId | vis/vis.c:391 | the transaction id goes up by one modulo 2^16, and no other byte changes |
| Server.VisServer.SetLengths | vis/vis.c:393-398 | the inner length is VIS_DATA_SIZE of the payload's counters, the outer length adds 14, and the count of bytes written adds the 4-byte tlv |
| Server.VisServer.PublishData | vis/vis.c:384-404 | new transaction id, both length fields, and the frame written is the buffer up to the end of the payload; nothing else changes |
| Server.VisServer.RebuildLists | vis/vis.c:440-445 | the lists are exactly those one cycle builds from the active interfaces and the two tables, whatever the previous cycle left |
| Server.VisServer.UpdateData | vis/vis.c:440-451 | one cycle: the lists are rebuilt from scratch, the transaction id is incremented, and the frame written is the push frame of the packed list prefixes |
| Server.VisServer.PublishPacked | vis/vis.c:384-404 | vis_publish_data on a buffer holding the packing of some interfaces and entries writes exactly their push frame, under the next transaction id |
| Server.VisServer.CompileAndPublish | vis/vis.c:447-449 | compile followed by publish writes the push frame of the packed list prefixes with the next transaction id |
| Render.Preamble | vis/vis.c:526-529 | dot and jsondoc (vis/vis.c:623-629) open the document with one record, json (vis/vis.c:575-577) prints nothing |
| Render.Postamble | vis/vis.c:570-573 | dot and jsondoc (vis/vis.c:794-798) close the document with one record, json (vis/vis.c:619-621) prints nothing |
| Render.InterfacesOutput | vis/vis.c:531-540 | in every renderer (also vis/vis.c:579-588, 640-660), one record whose primary followed by its secondaries gives back the interface list in order |
| Render.Classify | vis/vis.c:547-566 | index 255 is a client of the primary interface whatever its quality; any other entry is a link from the interface it names with its quality; an index past the interface list or a quality of 0 is dropped |
| Render.EntryRecords | vis/vis.c:590-617 | no more records than entries, and every record is a client or a link of non-zero quality |
| Render.EntriesOutput | vis/vis.c:686-740 | jsondoc ends every entries callback with exactly one closing of the node, and prints only links, clients and that closing |
| Render.EntryRecordsAppend | vis/vis.c:547-567 | rendering two runs of entries in turn renders their concatenation |
| Render.EntryRecordsInOrder | vis/vis.c:547-567 | entries are rendered in order, and a dropped entry does not stop the ones after it |
| Render.EntryRecordsFromEntries | vis/vis.c:547-567 | every rendered record comes from some entry |
| Render.RenderedRecordsAreValid | vis/vis.c:553-560 | a rendered link never has quality 0 and always leaves from one of the node's interfaces; a rendered client always hangs off the primary |
| Render.SentinelIsClient | vis/vis.c:548-551 | an entry with index 255 is rendered as a client of the primary interface |
| Options.SelectFormat | vis/vis.c:1009-1021 | the format is chosen exactly when the argument starts with "dot", "netjson" or "json"; otherwise usage is shown |
| Options.SelectFormatByPrefix | vis/vis.c:1009-1021 | each format is chosen exactly for the arguments starting with its name, except that "jsondoc…" selects jsondoc rather than json; trailing characters are ignored |
| Client.Renderer | vis/vis.c:856-923 | every format chosen with -f has a modelled renderer except netjson |
| Client.ChosenRenderer | vis/vis.c:1009-1021 | an argument starting with "dot" leads to dot, "jsondoc" to jsondoc, any other "json" to json, "netjson" to no modelled renderer |
| Client.Printed | vis/vis.c:926-952 | for dot and jsondoc the output opens with the preamble record, and closes with the postamble record when the status is 0 |
| Client.Payload | vis/vis.c:523 | the payload behind the headers is always long enough for the counters it declares |
| Client.Snapshot | vis/vis.c:941-950 | a node always begins with its interfaces, the first of them as primary |
| Client.ReadLoop | vis/vis.c:928-954 | the read loop ends with status 0 or -1 |
| Client.ReadAnswer | vis/vis.c:847-955 | the loop over received frames returns exactly the status of `ReadLoop` and prints the preamble, the rendered payloads, and the postamble only on status 0 |
| Client.RenderPayload | vis/vis.c:941-950 | a payload is rendered as its decoded interfaces, then its decoded entries unless there are none |
| Client.SnapshotRecords | vis/vis.c:941-950 | a node prints only interfaces, links of non-zero quality, clients and jsondoc node closings |
| Client.ReadLoopRecords | vis/vis.c:928-951 | over the whole answer stream, no link of quality 0 is ever printed |
| Client.PrintedFramed | vis/vis.c:926-952 | the opening record appears only first; the closing record appears only last, and exactly when the status is 0 for a format that has one |
| Client.ReadAnswerFramed | vis/vis.c:926-954 | the whole output of vis_read_answer is framed that way |
| Client.BadFrameEndsRead | vis/vis.c:928-929 | a frame the receive checks reject ends the read with status 0, so only the preamble and postamble are printed |
| Client.ShortPayloadAborts | vis/vis.c:931-932 | an inner length below the vis_v1 header ends the read with -1, and no postamble is printed |
| Client.BogusPayloadSkipped | vis/vis.c:934-939 | a length other than VIS_DATA_SIZE, or zero interfaces, prints nothing, and reading goes on after the frame |
| Client.PublishedFrameRendered | vis/vis.c:928-950 | a frame the server publishes is rendered as exactly the interfaces and entries it packs, and reading goes on after it |
| Client.JsonDocNodeLeftOpen | vis/vis.c:944-947 | a jsondoc node without entries is opened and never closed |
| Client.SnapshotClosed | vis/vis.c:944-950 | the corrected rendering also begins every node with its interfaces |
| Client.SnapshotClosedBalanced | vis/vis.c:944-950 | with the correction, every jsondoc node is closed exactly once, at its end; dot and json output is unchanged |
| Client.StaleFrameRenderedAgain | vis/vis.c:499-515 | after a published frame, a frame with no payload bytes but the same inner length renders the same node again, from stale buffer bytes |
| Client.CheckedPayloadIgnoresBuffer | vis/vis.c:499-515 | once the inner length is bounded by the outer one, the decoded payload does not depend on what the buffer held before |

## Left out

- netjson output (vis/vis.c:631-638, 662-684, 742-792, 800-804, 839-845, and the case at 863-917) is not modelled. That branch is unfinished code: it carries debugging output and dereferences a possibly null list after the loop. `Options.SelectFormat` still selects netjson, and `Client.Renderer` maps it to no modelled renderer.
- The directory walk of register_interfaces (vis/vis.c:255-314) is not modelled. It is file-system I/O, so its result is a parameter: the sequence of interface names found active. Two details of the walk are lost with it:
  - the status file is compared with "active" without stripping its newline (vis/vis.c:298);
  - `strlen(file_content) - 1` is taken on a possibly empty file (vis/vis.c:281).
- read_file is not modelled: a debug table is its text, or None when the file cannot be read. Neither debugfs path construction nor debugfs mounting is modelled.
- The socket and ioctl of get_if_mac are not modelled. They become the `resolve` parameter, which is handed the name cut to IFNAMSIZ - 1 characters.
- The alfred socket is a byte sequence, and opening, connecting and closing it are not modelled.
- `Wire.ReceiveAnswerPacket`: a read error (`ret < 0`) is not modelled, and a read returns fewer bytes than requested only at the end of the stream.
- `Server.VisServer.PublishData`: the write to alfred is not modelled. It returns the bytes it would write, and the error returns of a failed connection or a short write are not modelled; vis_update_data ignores them anyway.
- `Wire.RequestFrame`: the socket part of vis_request_data is not modelled, and `random()` is a parameter.
- vis_get_data, main, vis_usage, getopt_long option handling other than `-f`, the SIGPIPE handler, the `sleep` between server cycles and the endless server loop are left out. They are process control and I/O.
- The failures of `malloc` and `realloc` are not modelled. Their effects differ by call site:
  - in get_if_index (vis/vis.c:142-144) the name is not added and -1 comes back, the same as a name whose address `resolve` cannot find. From register_interfaces (vis/vis.c:299) that skips an interface;
  - in register_interfaces (vis/vis.c:261-264) the path buffer is missing, so no interface is registered at all;
  - in parse_orig_list (vis/vis.c:366-368) the entry is dropped after get_if_index (vis/vis.c:362) may already have appended its interface (see the `Tables.OrigLine` line below);
  - in parse_transtable_local (vis/vis.c:215-217) only the client entry of that line is skipped;
  - in read_file (vis/vis.c:56) the table reads as None, which the model covers.
- Tables.OrigLine: its promise that a line adding no entry leaves the interface list alone holds only because allocation failures are not modelled; after a failed allocation of the entry at vis/vis.c:366-368 the interface get_if_index appended stays.
- The printed text is abstracted to records. The float label 255.0/qual is kept as the raw quality. The renderer separators (commas, braces, "[peripheries=2]") are not modelled, and neither are the stderr diagnostics "ERROR: bad ifindex ..." and "ERROR: quality = 0?" (vis/vis.c:554, 558, 603, 607, 702, 706); the entries they report are dropped as in the program.
- The `static bool first_interface` separator of vis_jsondoc_interfaces is not modelled.
- Strings contain no NUL characters. A NUL inside a debug file would end a C string early; the model does not represent that.
- `MacText.StrToMac`: the `0x` prefix that `%X` accepts is not modelled. In a field written "0x" only the digit 0 is read and the 'x' is left unread; it fails the match only when a further ':' field must follow, so "00:11:22:33:44:0x" converts. The C library consumes "0x" as the value 0 within the width of 2.

## Findings

| source | as written | input that shows it | evidently intended | confidence | as-written member | corrected member |
|---|---|---|---|---|---|---|
| vis/vis.c:362-372 | the index from get_if_index is stored in the 8-bit `ifindex` without a bound check | 255 registered interfaces and an originator line through a new one: the link gets index 255, which the renderers read as a client; at 256 it wraps to 0 | only links to interfaces compile_vis_data packs (fewer than 254) are stored | medium, not executed | Tables.OrigIndexBecomesSentinel, Tables.OrigIndexWrapsToPrimary | Tables.OrigLineChecked, Tables.OrigParseCheckedKeepsLinks, Tables.CheckedLinksRendered |
| vis/vis.c:944-947, 739 | with `entries_n == 0` the loop `continue`s before the jsondoc entries callback, which prints the node's closing brace | a payload with one interface and no entries in jsondoc format: the node object is opened and never closed | every jsondoc node is closed | high, not executed | Client.JsonDocNodeLeftOpen | Client.SnapshotClosed, Client.SnapshotClosedBalanced |
| vis/vis.c:499-515, 935 | the inner length of the alfred_data header is never compared with the outer length actually read | a published frame followed by a frame with only headers, whose inner length equals the first payload's size: the first node is printed twice, from stale bytes of the static buffer | the payload length is bounded by the bytes received | high, not executed | Client.StaleFrameRenderedAgain | Wire.AcceptedChecked, Wire.CheckedPayloadFromFrame, Client.CheckedPayloadIgnoresBuffer |
