/** Primitive values shared by the server and client halves of batadv-vis:
    bytes, hardware addresses, the records of the vis payload, and the
    sizes and type codes that the program takes from its headers. */
module VisTypes {

  datatype Option<+T> = None | Some(value: T)

  type Byte = x: int | 0 <= x < 256

  /** ETH_ALEN. */
  const MacLen: nat := 6

  /** A 6-byte hardware address (ETH_ALEN bytes). */
  type Mac = s: seq<Byte> | |s| == MacLen witness [0, 0, 0, 0, 0, 0]

  /** `struct vis_entry`: the neighbour or client address, the index of the
      local interface it was seen on (255 marks a client), and the raw
      link quality (0 for clients). */
  datatype VisEntry = VisEntry(mac: Mac, ifindex: Byte, qual: Byte)

  /** One element of `iface_list`: the interface name as stored and its MAC. */
  datatype IfaceEntry = IfaceEntry(name: string, mac: Mac)

  // Sizes of the wire structures, declared in the program's headers.
  const TlvSize: nat := 4          // struct alfred_tlv: type, version, 16-bit length
  const PushSize: nat := 8         // struct alfred_push_data_v0: tlv + tx id + seqno
  const DataSize: nat := 10        // struct alfred_data: source mac + tlv
  const VisHeaderSize: nat := 8    // struct vis_v1: mac, iface_n, entries_n
  const IfaceSize: nat := 6        // struct vis_iface
  const EntrySize: nat := 8        // struct vis_entry
  const RequestSize: nat := 7      // struct alfred_request_v0: tlv + requested_type + tx id
  const IfaceNameSize: nat := 256  // sizeof(iface_list_entry.name)
  const BufSize: nat := 65536      // globals->buf and the static receive buffer

  // Type and version codes.
  const AlfredPushData: Byte := 0
  const AlfredRequest: Byte := 2
  const AlfredVersion: Byte := 0
  const VisPacketType: Byte := 1
  const VisPacketVersion: Byte := 1

  // Capacities of compile_vis_data and the client-record sentinel.
  const MaxIfaces: nat := 254
  const MaxEntries: nat := 255
  const ClientIndex: Byte := 255

  /** Offset of the vis_v1 payload inside a push frame. */
  const PayloadOffset: nat := PushSize + DataSize

  /** The 16-bit big-endian value stored at `b[i]`, `b[i+1]` (ntohs). */
  function Be16(hi: Byte, lo: Byte): (v: nat)
    ensures v < 0x1_0000
  {
    hi * 256 + lo
  }

  /** The two bytes of htons(v) for a value already reduced to 16 bits. */
  function ToBe16(v: nat): (r: seq<Byte>)
    requires v < 0x1_0000
    ensures |r| == 2 && Be16(r[0], r[1]) == v
  {
    [v / 256, v % 256]
  }

  function Min(a: int, b: int): int { if a < b then a else b }
}
