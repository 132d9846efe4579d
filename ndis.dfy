// The vocabulary of the ste virtual NIC driver: NDIS status codes, packets
// as chains of buffers, the OIDs it answers, 32-bit counters and the sizes
// and limits of its header.

module Ndis {
  import opened Bytes

  /** Largest Ethernet frame, header included (ETHERMAX). */
  const ETHERMAX: int := 1514
  /** Ethernet payload size (ETHERMTU). */
  const ETHERMTU: int := 1500
  /** Smallest Ethernet frame the driver hands to sted (ETHERMIN). */
  const ETHERMIN: int := 60
  /** Length of an Ethernet address (ETHERADDRL). */
  const ETHERADDRL: int := 6
  /** Link speed reported to NDIS, in units of 100 bps (ETHERLINKSPEED). */
  const ETHERLINKSPEED: int := 1000000
  /** Packets a send or receive queue holds at most (STE_QUEUE_MAX). */
  const STE_QUEUE_MAX: int := 64
  /** Timer calls a pending reset waits for returned packets (STE_MAX_WAIT_FOR_RESET). */
  const STE_MAX_WAIT_FOR_RESET: int := 10
  /** Adapters the driver registers at most; instances are 0..9 (STE_MAX_ADAPTERS). */
  const STE_MAX_ADAPTERS: int := 10
  /** Packets NDIS may hand over in one send request (STE_MAX_SEND_PACKETS). */
  const STE_MAX_SEND_PACKETS: int := 5
  /** Multicast addresses the driver says it can hold (STE_MAX_MCAST_LIST). */
  const STE_MAX_MCAST_LIST: int := 5
  /** STE_DRIVER_VERSION. */
  const STE_DRIVER_VERSION: int := 1
  /** STE_NDIS_VERSION: NDIS 5.0, major version in the high byte. */
  const STE_NDIS_VERSION: int := 0x0500

  /** The NDIS_STATUS values the driver returns or passes to NDIS. */
  datatype NdisStatus =
    | Success | Pending | Failure | Resources | NotSupported | BufferTooShort
    | InvalidLength | InvalidOid | UnsupportedMedia | RequestAborted

  /** The NTSTATUS a dispatch routine completes its IRP with. */
  datatype NtStatus = StatusSuccess | StatusUnsuccessful

  /**
   * One NDIS_BUFFER of a packet's chain: its bytes, and whether
   * NdisQueryBufferSafe could map them (a non-NULL VirtualAddress).
   */
  datatype NdisBuffer = NdisBuffer(data: seq<byte>, mapped: bool)

  /** An NDIS_PACKET: its identity (the pointer NDIS passes) and its chain of buffers. */
  datatype Packet = Packet(id: nat, chain: seq<NdisBuffer>)

  /** The frame a chain holds: its buffers' bytes, in chain order. */
  function ChainBytes(chain: seq<NdisBuffer>): seq<byte>
  {
    if chain == [] then [] else chain[0].data + ChainBytes(chain[1..])
  }

  /** TotalPacketLength as NdisQueryPacket reports it: the sum of the buffer lengths. */
  function TotalLength(chain: seq<NdisBuffer>): (n: nat)
    ensures n == |ChainBytes(chain)|
  {
    if chain == [] then 0 else |chain[0].data| + TotalLength(chain[1..])
  }

  /** A ULONG counter incremented in place: it wraps at 2^32. */
  function Inc32(x: int): (r: int)
    requires IsU32(x)
    ensures IsU32(r) && (r - x - 1) % TWO32 == 0
  {
    (x + 1) % TWO32
  }

  /** A ULONG counter incremented in place n times. */
  function Add32(x: int, n: nat): (r: int)
    requires IsU32(x)
    ensures IsU32(r)
  {
    if n == 0 then x else Inc32(Add32(x, n - 1))
  }

  /** Reducing before adding one does not change the result modulo 2^32. */
  lemma ModSucc(a: nat)
    ensures (a % TWO32 + 1) % TWO32 == (a + 1) % TWO32
  {
    var q, r := a / TWO32, a % TWO32;
    assert a == q * TWO32 + r;
    if r + 1 < TWO32 {
      assert a + 1 == q * TWO32 + (r + 1);
    } else {
      assert a + 1 == (q + 1) * TWO32;
    }
  }

  /** Reducing the summands first does not change a sum modulo 2^32. */
  lemma ModAdd(a: nat, b: nat)
    ensures (a % TWO32 + b % TWO32) % TWO32 == (a + b) % TWO32
  {
    var qa, qb, ra, rb := a / TWO32, b / TWO32, a % TWO32, b % TWO32;
    assert a == qa * TWO32 + ra && b == qb * TWO32 + rb;
    if ra + rb < TWO32 {
      assert a + b == (qa + qb) * TWO32 + (ra + rb);
    } else {
      assert a + b == (qa + qb + 1) * TWO32 + (ra + rb - TWO32);
      assert ra + rb == 1 * TWO32 + (ra + rb - TWO32);
    }
  }

  /** n increments add n, modulo 2^32. */
  lemma {:induction false} Add32IsSum(x: int, n: nat)
    requires IsU32(x)
    ensures Add32(x, n) == (x + n) % TWO32
  {
    if n > 0 {
      Add32IsSum(x, n - 1);
      ModSucc(x + n - 1);
    }
  }

  /** A ULONG as the x86 driver stores it: the four octets, least significant first. */
  function LittleEndian32(x: int): (r: seq<byte>)
    requires IsU32(x)
    ensures |r| == 4
  {
    var b := BigEndian32(x);
    [b[3], b[2], b[1], b[0]]
  }

  /** The ULONG four stored octets hold, as *(ULONG *)p reads it. */
  function FromLittleEndian32(b: seq<byte>): (r: int)
    requires |b| == 4
    ensures IsU32(r)
  {
    FromBigEndian32([b[3], b[2], b[1], b[0]])
  }

  /** Reading back a stored ULONG gives the value stored. */
  lemma LittleEndian32RoundTrip(x: int)
    requires IsU32(x)
    ensures FromLittleEndian32(LittleEndian32(x)) == x
  {
    var b := BigEndian32(x);
    assert [b[0], b[1], b[2], b[3]] == b;
    BigEndian32RoundTrip(x);
  }

  /** Storing a ULONG read from four octets gives those octets back. */
  lemma FromLittleEndian32RoundTrip(b: seq<byte>)
    requires |b| == 4
    ensures LittleEndian32(FromLittleEndian32(b)) == b
  {
    FromBigEndian32RoundTrip([b[3], b[2], b[1], b[0]]);
  }

  /** The OIDs of STESupportedList, and any other OID NDIS may ask about. */
  datatype Oid =
    | GenSupportedList | GenHardwareStatus | GenMediaSupported | GenMediaInUse
    | GenMaximumLookahead | GenMaximumFrameSize | GenLinkSpeed | GenTransmitBufferSpace
    | GenReceiveBufferSpace | GenTransmitBlockSize | GenReceiveBlockSize | GenVendorId
    | GenVendorDescription | GenVendorDriverVersion | GenCurrentPacketFilter
    | GenCurrentLookahead | GenDriverVersion | GenMaximumTotalSize | GenProtocolOptions
    | GenMacOptions | GenMediaConnectStatus | GenMaximumSendPackets
    | GenXmitOk | GenRcvOk | GenXmitError | GenRcvError | GenRcvNoBuffer
    | PermanentAddress | CurrentAddress | MulticastList | MaximumListSize
    | RcvErrorAlignment | XmitOneCollision | XmitMoreCollisions
    | OtherOid(code: int)

  /** The numeric OID codes of ntddndis.h. */
  function OidCode(oid: Oid): int
    requires !oid.OtherOid?
  {
    match oid
    case GenSupportedList => 0x00010101
    case GenHardwareStatus => 0x00010102
    case GenMediaSupported => 0x00010103
    case GenMediaInUse => 0x00010104
    case GenMaximumLookahead => 0x00010105
    case GenMaximumFrameSize => 0x00010106
    case GenLinkSpeed => 0x00010107
    case GenTransmitBufferSpace => 0x00010108
    case GenReceiveBufferSpace => 0x00010109
    case GenTransmitBlockSize => 0x0001010A
    case GenReceiveBlockSize => 0x0001010B
    case GenVendorId => 0x0001010C
    case GenVendorDescription => 0x0001010D
    case GenCurrentPacketFilter => 0x0001010E
    case GenCurrentLookahead => 0x0001010F
    case GenDriverVersion => 0x00010110
    case GenMaximumTotalSize => 0x00010111
    case GenProtocolOptions => 0x00010112
    case GenMacOptions => 0x00010113
    case GenMediaConnectStatus => 0x00010114
    case GenMaximumSendPackets => 0x00010115
    case GenVendorDriverVersion => 0x00010116
    case GenXmitOk => 0x00020101
    case GenRcvOk => 0x00020102
    case GenXmitError => 0x00020103
    case GenRcvError => 0x00020104
    case GenRcvNoBuffer => 0x00020105
    case PermanentAddress => 0x01010101
    case CurrentAddress => 0x01010102
    case MulticastList => 0x01010103
    case MaximumListSize => 0x01010104
    case RcvErrorAlignment => 0x01020101
    case XmitOneCollision => 0x01020102
    case XmitMoreCollisions => 0x01020103
  }

  /** STESupportedList: the 34 OIDs whose support NDIS makes mandatory, in the driver's order. */
  const SupportedList: seq<Oid> := [
    GenSupportedList, GenHardwareStatus, GenMediaSupported, GenMediaInUse,
    GenMaximumLookahead, GenMaximumFrameSize, GenLinkSpeed, GenTransmitBufferSpace,
    GenReceiveBufferSpace, GenTransmitBlockSize, GenReceiveBlockSize, GenVendorId,
    GenVendorDescription, GenVendorDriverVersion, GenCurrentPacketFilter,
    GenCurrentLookahead, GenDriverVersion, GenMaximumTotalSize, GenProtocolOptions,
    GenMacOptions, GenMediaConnectStatus, GenMaximumSendPackets,
    GenXmitOk, GenRcvOk, GenXmitError, GenRcvError, GenRcvNoBuffer,
    PermanentAddress, CurrentAddress, MulticastList, MaximumListSize,
    RcvErrorAlignment, XmitOneCollision, XmitMoreCollisions]

  /** The bytes of an array of ULONG OID codes, as it lies in memory. */
  function OidArrayBytes(oids: seq<Oid>): (r: seq<byte>)
    requires forall i :: 0 <= i < |oids| ==> !oids[i].OtherOid?
    ensures |r| == 4 * |oids|
  {
    if oids == [] then [] else LittleEndian32(OidCode(oids[0])) + OidArrayBytes(oids[1..])
  }

  /** The NDIS packet filter bits (NDIS_PACKET_TYPE_*). */
  const NDIS_PACKET_TYPE_DIRECTED: int := 0x1
  const NDIS_PACKET_TYPE_MULTICAST: int := 0x2
  const NDIS_PACKET_TYPE_ALL_MULTICAST: int := 0x4
  const NDIS_PACKET_TYPE_BROADCAST: int := 0x8

  /** The MAC option bits the driver reports (NDIS_MAC_OPTION_*). */
  const NDIS_MAC_OPTION_COPY_LOOKAHEAD_DATA: int := 0x1
  const NDIS_MAC_OPTION_TRANSFERS_NOT_PEND: int := 0x4
  const NDIS_MAC_OPTION_NO_LOOPBACK: int := 0x8

  /** The enumerators the driver reports: NdisHardwareStatusReady, NdisMedium802_3, NdisMediaStateConnected. */
  const NdisHardwareStatusReady: int := 0
  const NdisMedium802_3: int := 0
  const NdisMediaStateConnected: int := 0

  /** The media an NDIS medium array may offer (NDIS_MEDIUM). */
  datatype Medium = Medium802_3 | OtherMedium(code: int)
}
