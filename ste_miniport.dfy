// The ste driver's NDIS miniport entry points (sys/ste.c): medium selection
// at initialisation, OID queries and sets, sending, reset and the return of
// indicated packets.

module SteMiniport {
  import opened Bytes
  import opened Wrappers
  import opened Ndis
  import opened SteLocal

  // ---------------------------------------------------------- initialisation

  /** The medium loop of SteMiniportInitialize: the first index offering 802.3, index 0 when none does. */
  method SelectMedium(media: seq<Medium>) returns (found: bool, index: nat)
    ensures found <==> Medium802_3 in media
    ensures found ==> index < |media| && media[index] == Medium802_3 && Medium802_3 !in media[..index]
    ensures !found ==> index == 0
  {
    index := 0;
    found := false;
    var i := 0;
    while i < |media|
      invariant 0 <= i <= |media| && Medium802_3 !in media[..i]
    {
      if media[i] == Medium802_3 {
        return true, i;
      }
      i := i + 1;
    }
    assert media[..i] == media;
  }

  /**
   * SteMiniportInitialize: without an 802.3 medium UNSUPPORTED_MEDIA; then
   * the adapter is created, any failure of SteCreateAdapter reported as
   * RESOURCES.
   */
  method MiniportInitialize(list: AdapterList, media: seq<Medium>, device: nat, time: nat, memoryOk: bool)
    returns (status: NdisStatus, selectedIndex: nat, adapter: Option<Adapter>)
    requires list.Valid()
    modifies list`adapters
    ensures list.Valid()
    ensures Medium802_3 !in media ==>
      status == UnsupportedMedia && selectedIndex == 0 && adapter == None && list.adapters == old(list.adapters)
    ensures Medium802_3 in media ==>
      selectedIndex < |media| && media[selectedIndex] == Medium802_3 && Medium802_3 !in media[..selectedIndex]
    ensures Medium802_3 in media ==>
      (status == Success <==> memoryOk && old(list.NextInstance()) < STE_MAX_ADAPTERS)
    ensures status != Success ==> adapter == None && list.adapters == old(list.adapters)
    ensures Medium802_3 in media && status != Success ==> status == Resources
    ensures status == Success ==> adapter.Some? && fresh(adapter.value)
    ensures status == Success ==> var a := adapter.value;
      && list.adapters == old(list.adapters) + [a] && a.Valid()
      && a.instance == old(list.NextInstance()) && a.ethernetAddress == MacAddress(time, a.instance)
  {
    var found;
    found, selectedIndex := SelectMedium(media);
    if !found {
      return UnsupportedMedia, selectedIndex, None;
    }
    status, adapter := CreateAdapter(list, device, time, memoryOk);
    if status != Success {
      status := Resources;
    }
  }

  // ------------------------------------------------------------------ query

  /**
   * The bytes SET_INFORMATION_BY_VALUE copies, as written: length bytes
   * starting at the ULONG ulTemp, running on into whatever follows it on the
   * stack (beyond) when length is over four.
   */
  function ValueBytesAsWritten(length: nat, value: int, beyond: seq<byte>): (r: seq<byte>)
    requires IsU32(value) && length <= 4 + |beyond|
    ensures |r| == length
  {
    (LittleEndian32(value) + beyond)[..length]
  }

  /** A value given as length bytes: the low octets of the ULONG, zero octets past its end. */
  function ValueBytes(length: nat, value: int): (r: seq<byte>)
    requires IsU32(value)
    ensures |r| == length
    ensures length >= 4 ==> r[..4] == LittleEndian32(value) && r[4..] == Zeros(length - 4)
  {
    if length <= 4 then LittleEndian32(value)[..length] else LittleEndian32(value) + Zeros(length - 4)
  }

  /** Up to four bytes the two agree, whatever lies past ulTemp. */
  lemma ValueBytesAgree(length: nat, value: int, beyond: seq<byte>)
    requires IsU32(value) && length <= 4
    ensures ValueBytesAsWritten(length, value, beyond) == ValueBytes(length, value)
  {
  }

  /** As written, the six-byte MULTICAST_LIST answer carries the two stack bytes after ulTemp. */
  lemma MulticastListLeaksStack(beyond: seq<byte>)
    requires |beyond| == 2
    ensures ValueBytesAsWritten(ETHERADDRL, 0, beyond) == Zeros(4) + beyond
    ensures beyond != [0, 0] ==> ValueBytesAsWritten(ETHERADDRL, 0, beyond) != ValueBytes(ETHERADDRL, 0)
  {
    assert LittleEndian32(0) == Zeros(4);
    assert (Zeros(4) + beyond)[..6] == Zeros(4) + beyond;
    if beyond != [0, 0] {
      var w := ValueBytesAsWritten(ETHERADDRL, 0, beyond);
      assert w[4..] == beyond;
      assert ValueBytes(ETHERADDRL, 0)[4..] == [0, 0];
    }
  }

  /** A four-byte value reads back as the ULONG it was given from. */
  lemma ValueBytesReadBack(value: int)
    requires IsU32(value)
    ensures FromLittleEndian32(ValueBytes(4, value)) == value
  {
    assert ValueBytes(4, value) == LittleEndian32(value);
    LittleEndian32RoundTrip(value);
  }

  /** STE_VENDOR_NAME, "Admin2", with its terminating NUL. */
  const VendorName: seq<byte> := [0x41, 0x64, 0x6D, 0x69, 0x6E, 0x32, 0x00]

  /**
   * What the switch of SteMiniportQueryInformation answers an OID with: its
   * bytes, or None for an OID it does not handle (PROTOCOL_OPTIONS is not
   * queried, only set). MULTICAST_LIST is six zero bytes here.
   */
  function Information(a: Adapter, oid: Oid): (r: Option<seq<byte>>)
    reads a
    requires a.Stats()
    ensures oid.OtherOid? ==> r.None?
    ensures r.Some? ==> |r.value| >= 2
  {
    match oid
    case GenSupportedList => Some(OidArrayBytes(SupportedList))
    case GenHardwareStatus => Some(ValueBytes(4, NdisHardwareStatusReady))
    case GenMediaSupported | GenMediaInUse => Some(ValueBytes(4, NdisMedium802_3))
    case GenMaximumLookahead | GenMaximumFrameSize => Some(ValueBytes(4, ETHERMTU))
    case GenLinkSpeed => Some(ValueBytes(4, ETHERLINKSPEED))
    case GenTransmitBufferSpace | GenReceiveBufferSpace => Some(ValueBytes(4, ETHERMTU))
    case GenTransmitBlockSize | GenReceiveBlockSize => Some(ValueBytes(4, ETHERMAX))
    case GenVendorId => Some(ValueBytes(4, 0xFFFFFF))
    case GenVendorDescription => Some(VendorName)
    case GenVendorDriverVersion => Some(ValueBytes(4, STE_DRIVER_VERSION))
    case GenCurrentPacketFilter => Some(ValueBytes(4, a.packetFilter))
    case GenCurrentLookahead => Some(ValueBytes(4, ETHERMTU))
    case GenDriverVersion => Some(ValueBytes(2, STE_NDIS_VERSION))
    case GenMaximumTotalSize => Some(ValueBytes(4, ETHERMAX))
    case GenProtocolOptions => None
    case GenMacOptions =>
      Some(ValueBytes(4, NDIS_MAC_OPTION_NO_LOOPBACK + NDIS_MAC_OPTION_TRANSFERS_NOT_PEND + NDIS_MAC_OPTION_COPY_LOOKAHEAD_DATA))
    case GenMediaConnectStatus => Some(ValueBytes(4, NdisMediaStateConnected))
    case GenMaximumSendPackets => Some(ValueBytes(4, STE_MAX_SEND_PACKETS))
    case GenXmitOk => Some(ValueBytes(4, a.opackets))
    case GenRcvOk => Some(ValueBytes(4, a.ipackets))
    case GenXmitError => Some(ValueBytes(4, a.oerrors))
    case GenRcvError => Some(ValueBytes(4, a.ierrors))
    case GenRcvNoBuffer => Some(ValueBytes(4, a.noResources))
    case PermanentAddress | CurrentAddress => Some(a.ethernetAddress)
    case MulticastList => Some(ValueBytes(ETHERADDRL, 0))
    case MaximumListSize => Some(ValueBytes(4, STE_MAX_MCAST_LIST))
    case RcvErrorAlignment => Some(ValueBytes(4, a.alignErrors))
    case XmitOneCollision => Some(ValueBytes(4, a.oneCollisions))
    case XmitMoreCollisions => Some(ValueBytes(4, a.collisions))
    case OtherOid(_) => None
  }

  /** A query's outcome: the status, the information buffer afterwards, and *BytesWritten and *BytesNeeded when set. */
  datatype QueryResult = QueryResult(status: NdisStatus, buffer: seq<byte>, bytesWritten: Option<int>, bytesNeeded: Option<int>)

  /** SteMiniportQueryInformation on an information buffer of |buffer| bytes. */
  function QueryInformation(a: Adapter, oid: Oid, buffer: seq<byte>): (r: QueryResult)
    reads a
    requires a.Stats()
    ensures |r.buffer| == |buffer|
    ensures oid.OtherOid? ==> r.status == NotSupported && r.buffer == buffer
    ensures r.status == Success ==> r.bytesWritten.Some? && 2 <= r.bytesWritten.value <= |buffer|
  {
    Answer(Information(a, oid), buffer)
  }

  /**
   * The tail of SteMiniportQueryInformation, the buffer-length contract: an
   * unknown OID gives NOT_SUPPORTED and writes nothing; a buffer too short
   * for the answer gives BUFFER_TOO_SHORT, the length needed and nothing
   * written; otherwise the answer is copied to the front of the buffer, the
   * rest is left as it was, and BytesWritten is its length.
   */
  function Answer(answer: Option<seq<byte>>, buffer: seq<byte>): (r: QueryResult)
    ensures |r.buffer| == |buffer|
    ensures answer.None? <==> r.status == NotSupported
    ensures r.status == NotSupported ==> r.buffer == buffer && r.bytesWritten.None? && r.bytesNeeded.None?
    ensures answer.Some? ==> (r.status == Success <==> |answer.value| <= |buffer|)
    ensures answer.Some? && r.status == Success ==>
      var n := |answer.value|;
      r.buffer[..n] == answer.value && r.buffer[n..] == buffer[n..] && r.bytesWritten == Some(n) && r.bytesNeeded.None?
    ensures answer.Some? && r.status != Success ==>
      r.status == BufferTooShort && r.buffer == buffer && r.bytesNeeded == Some(|answer.value|) && r.bytesWritten.None?
  {
    match answer
    case None => QueryResult(NotSupported, buffer, None, None)
    case Some(info) =>
      if |buffer| < |info| then QueryResult(BufferTooShort, buffer, None, Some(|info|))
      else QueryResult(Success, info + buffer[|info|..], Some(|info|), None)
  }

  /**
   * The query answers every OID it names except PROTOCOL_OPTIONS, which
   * NDIS only sets, and answers no other OID; the supported list is given as
   * its 34 codes.
   */
  lemma AnsweredOids(a: Adapter, oid: Oid)
    requires a.Stats()
    ensures Information(a, oid).Some? <==> !oid.OtherOid? && oid != GenProtocolOptions
    ensures oid == GenSupportedList ==> |Information(a, oid).value| == 4 * 34
  {
  }

  /** STESupportedList names every OID the driver knows. */
  lemma SupportedListComplete(oid: Oid)
    ensures !oid.OtherOid? ==> oid in SupportedList
  {
  }

  /** The statistics OIDs answer with four bytes that read back as the adapter's counters. */
  lemma StatisticsReadBack(a: Adapter)
    requires a.Stats()
    ensures Information(a, GenXmitOk).Some? && FromLittleEndian32(Information(a, GenXmitOk).value) == a.opackets
    ensures Information(a, GenRcvOk).Some? && FromLittleEndian32(Information(a, GenRcvOk).value) == a.ipackets
    ensures Information(a, GenXmitError).Some? && FromLittleEndian32(Information(a, GenXmitError).value) == a.oerrors
    ensures Information(a, GenRcvError).Some? && FromLittleEndian32(Information(a, GenRcvError).value) == a.ierrors
    ensures Information(a, GenRcvNoBuffer).Some? && FromLittleEndian32(Information(a, GenRcvNoBuffer).value) == a.noResources
  {
    ValueBytesReadBack(a.opackets);
    ValueBytesReadBack(a.ipackets);
    ValueBytesReadBack(a.oerrors);
    ValueBytesReadBack(a.ierrors);
    ValueBytesReadBack(a.noResources);
  }

  /**
   * The fixed answers: frame sizes and link speed read back as ETHERMTU,
   * ETHERMAX and ETHERLINKSPEED, the MAC options as
   * NO_LOOPBACK | TRANSFERS_NOT_PEND | COPY_LOOKAHEAD_DATA, the NDIS version
   * as the USHORT 0x0500, and both addresses as the adapter's MAC address.
   */
  lemma FixedAnswers(a: Adapter)
    requires a.Stats()
    ensures FromLittleEndian32(Information(a, GenMaximumFrameSize).value) == ETHERMTU
    ensures FromLittleEndian32(Information(a, GenMaximumTotalSize).value) == ETHERMAX
    ensures FromLittleEndian32(Information(a, GenLinkSpeed).value) == ETHERLINKSPEED
    ensures FromLittleEndian32(Information(a, GenMaximumSendPackets).value) == STE_MAX_SEND_PACKETS
    ensures FromLittleEndian32(Information(a, GenMacOptions).value) == 0x0D
    ensures Information(a, GenDriverVersion).value == [0x00, 0x05]
    ensures Information(a, PermanentAddress) == Information(a, CurrentAddress) == Some(a.ethernetAddress)
    ensures |Information(a, PermanentAddress).value| == ETHERADDRL
  {
    ValueBytesReadBack(ETHERMTU);
    ValueBytesReadBack(ETHERMAX);
    ValueBytesReadBack(ETHERLINKSPEED);
    ValueBytesReadBack(STE_MAX_SEND_PACKETS);
    ValueBytesReadBack(0x0D);
  }

  // -------------------------------------------------------------------- set

  /**
   * SteMiniportSetInformation: CURRENT_PACKET_FILTER takes a four-byte
   * ULONG, any other length is INVALID_LENGTH with four bytes needed and
   * none read; CURRENT_LOOKAHEAD, PROTOCOL_OPTIONS and MULTICAST_LIST read
   * every byte and change nothing; any other OID is INVALID_OID.
   */
  method SetInformation(a: Adapter, oid: Oid, buffer: seq<byte>)
    returns (status: NdisStatus, bytesRead: Option<int>, bytesNeeded: Option<int>)
    modifies a`packetFilter
    ensures oid == GenCurrentPacketFilter && |buffer| != 4 ==>
      status == InvalidLength && bytesRead == Some(0) && bytesNeeded == Some(4)
      && a.packetFilter == old(a.packetFilter)
    ensures oid == GenCurrentPacketFilter && |buffer| == 4 ==>
      status == Success && bytesRead == Some(4) && bytesNeeded.None?
      && a.packetFilter == FromLittleEndian32(buffer)
    ensures oid in {GenCurrentLookahead, GenProtocolOptions, MulticastList} ==>
      status == Success && bytesRead == Some(|buffer|) && bytesNeeded.None?
      && a.packetFilter == old(a.packetFilter)
    ensures oid !in {GenCurrentPacketFilter, GenCurrentLookahead, GenProtocolOptions, MulticastList} ==>
      status == InvalidOid && bytesRead.None? && bytesNeeded.None?
      && a.packetFilter == old(a.packetFilter)
  {
    bytesRead, bytesNeeded := None, None;
    match oid
    case GenCurrentPacketFilter =>
      if |buffer| != 4 {
        return InvalidLength, Some(0), Some(4);
      }
      a.packetFilter := FromLittleEndian32(buffer);
      status, bytesRead := Success, Some(|buffer|);
    case GenCurrentLookahead =>
      status, bytesRead := Success, Some(|buffer|);
    case GenProtocolOptions =>
      status, bytesRead := Success, Some(|buffer|);
    case MulticastList =>
      status, bytesRead := Success, Some(|buffer|);
    case _ =>
      status := InvalidOid;
  }

  /** A packet filter set with four bytes is queried back as the same four bytes. */
  lemma PacketFilterRoundTrip(a: Adapter, written: seq<byte>, buffer: seq<byte>)
    requires a.Stats() && |written| == 4 && |buffer| >= 4
    requires a.packetFilter == FromLittleEndian32(written)
    ensures QueryInformation(a, GenCurrentPacketFilter, buffer).status == Success
    ensures QueryInformation(a, GenCurrentPacketFilter, buffer).buffer[..4] == written
  {
    FromLittleEndian32RoundTrip(written);
    assert ValueBytes(4, a.packetFilter) == LittleEndian32(a.packetFilter);
  }

  // ------------------------------------------------------------------- send

  /** How many of a send request's packets SteMiniportSendPackets queues: as many as fit, only once sted has registered its event. */
  function AcceptedCount(n: nat, queueLen: int, registered: bool): (k: nat)
    ensures k <= n
    ensures registered && queueLen + n <= STE_QUEUE_MAX ==> k == n
    ensures !registered || queueLen >= STE_QUEUE_MAX ==> k == 0
  {
    if !registered || queueLen >= STE_QUEUE_MAX then 0
    else if n <= STE_QUEUE_MAX - queueLen then n
    else STE_QUEUE_MAX - queueLen
  }

  /**
   * Counting packet by packet: the next packet is accepted exactly when sted
   * is registered and the queue still has room, and only while every
   * earlier packet was.
   */
  lemma AcceptedStep(i: nat, queueLen: int, registered: bool)
    ensures var k := AcceptedCount(i, queueLen, registered);
      var accept := registered && queueLen + k < STE_QUEUE_MAX;
      && AcceptedCount(i + 1, queueLen, registered) == (if accept then k + 1 else k)
      && (accept ==> k == i)
  {
  }

  /**
   * One packet of a send request: queued and signalled to sted while its
   * event is registered and the queue has room, otherwise completed with
   * RESOURCES and counted as an output error.
   */
  method SendOne(a: Adapter, p: Packet) returns (accepted: bool)
    requires a.Valid()
    modifies a`opackets, a`oerrors, a`sendCompleted, a`eventsSignalled, a.sendQueue
    ensures a.Valid()
    ensures accepted == (a.eventRegistered && |old(a.sendQueue.list)| < STE_QUEUE_MAX)
    ensures accepted ==>
      && a.sendQueue.list == old(a.sendQueue.list) + [p]
      && a.opackets == Inc32(old(a.opackets)) && a.oerrors == old(a.oerrors)
      && a.eventsSignalled == old(a.eventsSignalled) + 1 && a.sendCompleted == old(a.sendCompleted)
    ensures !accepted ==>
      && a.sendQueue.list == old(a.sendQueue.list)
      && a.oerrors == Inc32(old(a.oerrors)) && a.opackets == old(a.opackets)
      && a.eventsSignalled == old(a.eventsSignalled)
      && a.sendCompleted == old(a.sendCompleted) + [SendCompletion(p, Resources)]
  {
    var status := Resources;
    if a.eventRegistered {
      status := a.sendQueue.Put(p);
    }
    accepted := status == Success;
    if accepted {
      a.opackets := Inc32(a.opackets);
      a.eventsSignalled := a.eventsSignalled + 1;
    } else {
      a.sendCompleted := a.sendCompleted + [SendCompletion(p, Resources)];
      a.oerrors := Inc32(a.oerrors);
    }
  }

  /** Completing one more packet extends the completions by one entry. */
  lemma CompletionsSnoc(ps: seq<Packet>, p: Packet, status: NdisStatus)
    ensures Completions(ps + [p], status) == Completions(ps, status) + [SendCompletion(p, status)]
  {
    assert |Completions(ps + [p], status)| == |Completions(ps, status) + [SendCompletion(p, status)]|;
  }

  /**
   * SteMiniportSendPackets: with sted's event registered each packet is
   * queued while there is room and the event is signalled for it; a packet
   * that cannot be queued, or every packet when no event is registered, is
   * completed with RESOURCES and counted as an output error.
   */
  method SendPackets(a: Adapter, packets: seq<Packet>)
    requires a.Valid()
    modifies a`opackets, a`oerrors, a`sendCompleted, a`eventsSignalled, a.sendQueue
    ensures a.Valid()
    ensures var k := AcceptedCount(|packets|, |old(a.sendQueue.list)|, a.eventRegistered);
      && a.sendQueue.list == old(a.sendQueue.list) + packets[..k]
      && a.sendCompleted == old(a.sendCompleted) + Completions(packets[k..], Resources)
      && a.opackets == Add32(old(a.opackets), k)
      && a.oerrors == Add32(old(a.oerrors), |packets| - k)
      && a.eventsSignalled == old(a.eventsSignalled) + k
  {
    ghost var q0 := a.sendQueue.list;
    ghost var o0, e0, c0, s0 := a.opackets, a.oerrors, a.sendCompleted, a.eventsSignalled;
    ghost var k, rejected := 0, [];
    var i := 0;
    while i < |packets|
      invariant 0 <= i <= |packets| && k == AcceptedCount(i, |q0|, a.eventRegistered)
      invariant a.Valid()
      invariant a.sendQueue.list == q0 + packets[..k]
      invariant rejected == packets[k..i] && a.sendCompleted == c0 + Completions(rejected, Resources)
      invariant a.opackets == Add32(o0, k) && a.oerrors == Add32(e0, i - k)
      invariant a.eventsSignalled == s0 + k
    {
      AcceptedStep(i, |q0|, a.eventRegistered);
      var accepted := SendOne(a, packets[i]);
      if accepted {
        PrefixSnoc(packets, i);
        k := k + 1;
      } else {
        SliceSnoc(packets, k, i);
        CompletionsSnoc(rejected, packets[i], Resources);
        rejected := rejected + [packets[i]];
      }
      i := i + 1;
    }
  }

  lemma PrefixSnoc(ps: seq<Packet>, i: nat)
    requires i < |ps|
    ensures ps[..i + 1] == ps[..i] + [ps[i]]
  {
  }

  lemma SliceSnoc(ps: seq<Packet>, lo: nat, hi: nat)
    requires lo <= hi < |ps|
    ensures ps[lo..hi + 1] == ps[lo..hi] + [ps[hi]]
  {
  }

  /** Whatever happens to each packet, Opackets + Oerrors rise by exactly the number of packets sent, modulo 2^32. */
  lemma SendAccountsForEveryPacket(o: int, e: int, n: nat, k: nat)
    requires IsU32(o) && IsU32(e) && k <= n
    ensures (Add32(o, k) + Add32(e, n - k)) % TWO32 == (o + e + n) % TWO32
  {
    Add32IsSum(o, k);
    Add32IsSum(e, n - k);
    ModAdd(o + k, e + (n - k));
  }

  // ------------------------------------------------------ reset and return

  /**
   * SteMiniportReset with the drained receive packets taken off
   * RecvIndicatedPackets and ResetTrys started afresh: queued sends are
   * completed with REQUEST_ABORTED, queued receives freed; PENDING with the
   * reset timer armed while indicated packets are out, SUCCESS otherwise.
   */
  method Reset(a: Adapter) returns (status: NdisStatus, addressingReset: bool)
    requires a.Valid()
    modifies a`sendCompleted, a`freed, a`recvIndicatedPackets, a`resetTrys, a`resetTimerArmed
    modifies a.sendQueue, a.recvQueue
    ensures a.Valid()
    ensures !addressingReset
    ensures a.sendQueue.list == [] && a.recvQueue.list == []
    ensures a.sendCompleted == old(a.sendCompleted) + Completions(old(a.sendQueue.list), RequestAborted)
    ensures a.freed == old(a.freed) + old(a.recvQueue.list)
    ensures a.recvIndicatedPackets == |a.indicated| && a.resetTrys == 0
    ensures status == (if |a.indicated| > 0 then Pending else Success)
    ensures a.resetTimerArmed == (old(a.resetTimerArmed) || |a.indicated| > 0)
  {
    addressingReset := false;
    var aborted := a.sendQueue.Drain();
    a.sendCompleted := a.sendCompleted + Completions(aborted, RequestAborted);
    var dropped := a.recvQueue.Drain();
    a.freed := a.freed + dropped;
    a.recvIndicatedPackets := a.recvIndicatedPackets - |dropped|;
    a.resetTrys := 0;
    if a.recvIndicatedPackets > 0 {
      a.resetTimerArmed := true;
      status := Pending;
    } else {
      status := Success;
    }
  }

  /** SteMiniportReturnPacket: an indicated packet comes back, is freed and leaves the count. */
  method ReturnPacket(a: Adapter, p: Packet)
    requires a.Valid() && p in a.indicated
    modifies a`indicated, a`freed, a`recvIndicatedPackets
    ensures a.Valid()
    ensures a.indicated == Unlinked(old(a.indicated), p) && a.freed == old(a.freed) + [p]
    ensures a.recvIndicatedPackets == old(a.recvIndicatedPackets) - 1
  {
    a.indicated := Unlinked(a.indicated, p);
    a.freed := a.freed + [p];
    a.recvIndicatedPackets := a.recvIndicatedPackets - 1;
  }

  /** The receive bookkeeping in counts: packets in RecvQueue, packets indicated and not yet returned, RecvIndicatedPackets. */
  datatype RecvBooks = RecvBooks(queued: nat, out: nat, counter: int)

  /** What moves it: a write queues a packet, the receive timer indicates the queue, a protocol returns a packet, a reset drains the queue. */
  datatype RecvEvent = Write | Indicate | Return | ResetDrain

  /** One event; asWritten selects SteMiniportReset as written, which frees the drained packets without counting them down. */
  function BooksStep(b: RecvBooks, e: RecvEvent, asWritten: bool): (r: RecvBooks)
    ensures Balanced(b) && (e != ResetDrain || !asWritten) ==> Balanced(r)
    ensures r.queued <= b.queued || r.queued <= STE_QUEUE_MAX
  {
    match e
    case Write => if b.queued < STE_QUEUE_MAX then RecvBooks(b.queued + 1, b.out, b.counter + 1) else b
    case Indicate => RecvBooks(0, b.out + b.queued, b.counter)
    case Return => if b.out > 0 then RecvBooks(b.queued, b.out - 1, b.counter - 1) else b
    case ResetDrain => RecvBooks(0, b.out, if asWritten then b.counter else b.counter - b.queued)
  }

  function BooksRun(b: RecvBooks, es: seq<RecvEvent>, asWritten: bool): RecvBooks
    decreases |es|
  {
    if es == [] then b else BooksRun(BooksStep(b, es[0], asWritten), es[1..], asWritten)
  }

  /** RecvIndicatedPackets counts exactly the packets queued or out. */
  predicate Balanced(b: RecvBooks)
  {
    b.counter == b.queued + b.out
  }

  /** With the corrected reset the count stays exact whatever happens. */
  lemma {:induction false} CorrectedBooksBalanced(b: RecvBooks, es: seq<RecvEvent>)
    requires Balanced(b)
    ensures Balanced(BooksRun(b, es, false))
    decreases |es|
  {
    if es != [] {
      CorrectedBooksBalanced(BooksStep(b, es[0], false), es[1..]);
    }
  }

  /** As written the count never drops below the packets queued or out plus what it counted before. */
  lemma {:induction false} AsWrittenExcessPersists(b: RecvBooks, es: seq<RecvEvent>)
    ensures BooksRun(b, es, true).counter - BooksRun(b, es, true).queued - BooksRun(b, es, true).out
         >= b.counter - b.queued - b.out
    decreases |es|
  {
    if es != [] {
      AsWrittenExcessPersists(BooksStep(b, es[0], true), es[1..]);
    }
  }

  /**
   * As written, one frame written by sted and dropped by a reset before the
   * receive timer ran keeps RecvIndicatedPackets above zero for good: every
   * later reset returns PENDING and its timer ends in FAILURE.
   */
  lemma ResetDroppedPacketNeverSettles(es: seq<RecvEvent>)
    ensures BooksRun(RecvBooks(0, 0, 0), [Write, ResetDrain], true) == RecvBooks(0, 0, 1)
    ensures BooksRun(RecvBooks(0, 0, 1), es, true).counter > 0
  {
    assert [Write, ResetDrain][1..] == [ResetDrain];
    AsWrittenExcessPersists(RecvBooks(0, 0, 1), es);
  }

  /**
   * As written ResetTrys is never set back: a reset after one that gave up
   * (ResetTrys already past STE_MAX_WAIT_FOR_RESET) fails on its first timer
   * call while a packet is out, instead of waiting ten calls.
   */
  lemma CarriedTrysFailAtOnce(trys: nat)
    requires trys > STE_MAX_WAIT_FOR_RESET
    ensures TimerCallsWhileOut(trys) == 1 && TimerCallsWhileOut(0) == STE_MAX_WAIT_FOR_RESET + 1
  {
  }
}
