// The ste driver's own structures and helpers (sys/ste_local.c): the bounded
// packet queues, the adapter list with its instance numbers, the adapter's
// Ethernet address, the copy of a send packet into sted's read IRP, the
// read/write/ioctl dispatch routines sted talks to, and the two timers.

module SteLocal {
  import opened Bytes
  import opened Wrappers
  import opened Ndis

  function Max(a: int, b: int): int { if a < b then b else a }

  function Min(a: int, b: int): int { if a < b then a else b }

  // ------------------------------------------------------------------ queues

  /** The list StePutQueue leaves: p at the tail when there is room, the list as it was otherwise. */
  function Enqueued(list: seq<Packet>, max: int, p: Packet): seq<Packet>
  {
    if |list| < max then list + [p] else list
  }

  /** An STE_QUEUE: its packets in arrival order, QueueCount and QueueMax. */
  class Queue {
    var list: seq<Packet>
    var queueCount: int
    const queueMax: int

    predicate Valid()
      reads this
    {
      queueCount == |list| <= queueMax
    }

    /** The queue initialisation in SteCreateAdapter: an empty list holding at most max packets. */
    constructor (max: nat)
      ensures Valid() && list == [] && queueMax == max
    {
      list := [];
      queueCount := 0;
      queueMax := max;
    }

    /** StePutQueue: a full queue refuses the packet with RESOURCES and is left as it was. */
    method Put(p: Packet) returns (status: NdisStatus)
      requires Valid()
      modifies this
      ensures Valid()
      ensures status == (if |old(list)| < queueMax then Success else Resources)
      ensures list == Enqueued(old(list), queueMax, p)
    {
      if queueCount >= queueMax {
        return Resources;
      }
      list := list + [p];
      queueCount := queueCount + 1;
      status := Success;
    }

    /** SteGetQueue: the oldest packet, or RESOURCES and no packet when the queue is empty. */
    method Get() returns (status: NdisStatus, p: Option<Packet>)
      requires Valid()
      modifies this
      ensures Valid()
      ensures old(list) == [] ==> status == Resources && p == None && list == []
      ensures old(list) != [] ==> status == Success && p == Some(old(list)[0]) && list == old(list)[1..]
    {
      if list == [] {
        return Resources, None;
      }
      p := Some(list[0]);
      list := list[1..];
      queueCount := queueCount - 1;
      status := Success;
    }

    /** The `while (SteGetQueue(...) == NDIS_STATUS_SUCCESS)` loops: every queued packet, oldest first. */
    method Drain() returns (drained: seq<Packet>)
      requires Valid()
      modifies this
      ensures Valid()
      ensures drained == old(list) && list == []
    {
      drained := [];
      while true
        invariant Valid() && drained + list == old(list)
        decreases |list|
      {
        var status, p := Get();
        if status != Success {
          return;
        }
        assert (drained + [p.value]) + list == drained + ([p.value] + list);
        drained := drained + [p.value];
      }
    }
  }

  /** One call on a queue. */
  datatype QueueOp = PutOp(packet: Packet) | GetOp

  /** A run of queue calls: the packets puts accepted, the packets gets returned, the packets left. */
  datatype QueueTrace = QueueTrace(accepted: seq<Packet>, taken: seq<Packet>, list: seq<Packet>)

  /** The calls ops applied, in order, to a queue holding list with room for max packets. */
  function Replay(list: seq<Packet>, max: int, ops: seq<QueueOp>): QueueTrace
    decreases |ops|
  {
    if ops == [] then QueueTrace([], [], list)
    else
      var t := Replay(list, max, ops[..|ops| - 1]);
      match ops[|ops| - 1]
      case PutOp(p) =>
        QueueTrace(if |t.list| < max then t.accepted + [p] else t.accepted, t.taken, Enqueued(t.list, max, p))
      case GetOp =>
        if t.list == [] then t else QueueTrace(t.accepted, t.taken + [t.list[0]], t.list[1..])
  }

  /** The queue is first in, first out: what was taken, then what is left, is what was there, then what was accepted. */
  lemma {:induction false} ReplayIsFifo(list: seq<Packet>, max: int, ops: seq<QueueOp>)
    ensures Replay(list, max, ops).taken + Replay(list, max, ops).list == list + Replay(list, max, ops).accepted
    decreases |ops|
  {
    if ops != [] {
      var t := Replay(list, max, ops[..|ops| - 1]);
      ReplayIsFifo(list, max, ops[..|ops| - 1]);
      match ops[|ops| - 1]
      case PutOp(p) =>
        if |t.list| < max {
          assert t.taken + (t.list + [p]) == (t.taken + t.list) + [p];
          assert list + (t.accepted + [p]) == (list + t.accepted) + [p];
        }
      case GetOp =>
        if t.list != [] {
          assert (t.taken + [t.list[0]]) + t.list[1..] == t.taken + t.list;
        }
    }
  }

  /** A queue never holds more than QueueMax packets. */
  lemma {:induction false} ReplayBounded(list: seq<Packet>, max: int, ops: seq<QueueOp>)
    requires |list| <= max
    ensures |Replay(list, max, ops).list| <= max
    decreases |ops|
  {
    if ops != [] {
      ReplayBounded(list, max, ops[..|ops| - 1]);
    }
  }

  // ----------------------------------------------------------------- adapter

  /** A call of NdisMSendComplete: the send packet handed back to NDIS and its status. */
  datatype SendCompletion = SendCompletion(packet: Packet, status: NdisStatus)

  /** NdisMSendComplete for each packet of ps, in order, with one status. */
  function Completions(ps: seq<Packet>, status: NdisStatus): (r: seq<SendCompletion>)
    ensures |r| == |ps|
    ensures forall i :: 0 <= i < |ps| ==> r[i] == SendCompletion(ps[i], status)
  {
    seq(|ps|, i requires 0 <= i < |ps| => SendCompletion(ps[i], status))
  }

  /** The packet filter SteCreateAdapter starts with: ALL_MULTICAST | BROADCAST | DIRECTED. */
  const INITIAL_PACKET_FILTER: int := 0x0D

  /** The handle sted passes with REGSVC. */
  datatype EventHandle = NullHandle | BadHandle | GoodHandle

  /** The device I/O control codes sted sends. */
  datatype IoControl = RegSvc(event: EventHandle) | UnregSvc | OtherControl(code: int)

  /**
   * An STE_ADAPTER. The NDIS handles, timers and spin locks are left out;
   * what the adapter has handed to NDIS is recorded: send completions,
   * receive packets indicated and not yet returned, receive packets given
   * back to the pools, reset completions, armed timers and event signals.
   */
  class Adapter {
    const deviceObject: nat
    var instance: int
    var packetFilter: int
    var ethernetAddress: seq<byte>
    const sendQueue: Queue
    const recvQueue: Queue
    var recvIndicatedPackets: int
    var resetTrys: nat
    var eventRegistered: bool
    var ipackets: int
    var opackets: int
    var ierrors: int
    var oerrors: int
    var noResources: int
    var alignErrors: int
    var oneCollisions: int
    var collisions: int
    var sendCompleted: seq<SendCompletion>
    var indicated: seq<Packet>
    var freed: seq<Packet>
    var resetCompleted: seq<NdisStatus>
    var recvTimerArmed: bool
    var resetTimerArmed: bool
    var eventsSignalled: nat

    /**
     * The two queues are distinct and each holds at most STE_QUEUE_MAX
     * packets, and RecvIndicatedPackets counts exactly the receive packets
     * queued or indicated and not yet returned.
     */
    predicate Valid()
      reads this, sendQueue, recvQueue
    {
      sendQueue != recvQueue && sendQueue.Valid() && recvQueue.Valid()
      && sendQueue.queueMax == STE_QUEUE_MAX && recvQueue.queueMax == STE_QUEUE_MAX
      && Stats()
      && recvIndicatedPackets == |recvQueue.list| + |indicated|
    }

    /** The address is six octets and the filter and statistics are ULONGs. */
    predicate Stats()
      reads this
    {
      |ethernetAddress| == ETHERADDRL && IsU32(packetFilter)
      && IsU32(ipackets) && IsU32(opackets) && IsU32(ierrors) && IsU32(oerrors)
      && IsU32(noResources) && IsU32(alignErrors) && IsU32(oneCollisions) && IsU32(collisions)
    }

    /** The zeroed STE_ADAPTER of SteCreateAdapter, its queues initialised and its initial packet filter set. */
    constructor (device: nat)
      ensures Valid() && fresh(sendQueue) && fresh(recvQueue)
      ensures deviceObject == device && instance == 0 && packetFilter == INITIAL_PACKET_FILTER
      ensures ethernetAddress == Zeros(ETHERADDRL)
      ensures sendQueue.list == [] && recvQueue.list == []
      ensures recvIndicatedPackets == 0 && resetTrys == 0 && !eventRegistered
      ensures ipackets == 0 && opackets == 0 && ierrors == 0 && oerrors == 0 && noResources == 0
      ensures alignErrors == 0 && oneCollisions == 0 && collisions == 0
      ensures sendCompleted == [] && indicated == [] && freed == [] && resetCompleted == []
      ensures !recvTimerArmed && !resetTimerArmed && eventsSignalled == 0
    {
      deviceObject := device;
      instance := 0;
      packetFilter := INITIAL_PACKET_FILTER;
      ethernetAddress := Zeros(ETHERADDRL);
      sendQueue := new Queue(STE_QUEUE_MAX);
      recvQueue := new Queue(STE_QUEUE_MAX);
      recvIndicatedPackets := 0;
      resetTrys := 0;
      eventRegistered := false;
      ipackets, opackets, ierrors, oerrors, noResources := 0, 0, 0, 0, 0;
      alignErrors, oneCollisions, collisions := 0, 0, 0;
      sendCompleted, indicated, freed, resetCompleted := [], [], [], [];
      recvTimerArmed, resetTimerArmed := false, false;
      eventsSignalled := 0;
    }

    /**
     * SteDispatchWrite once the adapter is found: the frame sted wrote, cut
     * to ETHERMAX, goes into a fresh receive packet queued for indication.
     */
    method Receive(data: seq<byte>, alloc: Option<nat>) returns (nt: NtStatus, information: int)
      requires Valid()
      modifies this`ipackets, this`ierrors, this`noResources, this`recvIndicatedPackets
      modifies this`freed, this`recvTimerArmed, recvQueue
      ensures Valid()
      ensures var o := ReceiveOutcome(|old(recvQueue.list)|, data, alloc);
        && nt == o.nt && information == o.information
        && recvQueue.list == old(recvQueue.list) + OptionSeq(o.queued)
        && freed == old(freed) + OptionSeq(o.released)
        && recvIndicatedPackets == old(recvIndicatedPackets) + |OptionSeq(o.queued)|
        && ipackets == (if o.queued.Some? then Inc32(old(ipackets)) else old(ipackets))
        && ierrors == (if o.nt == StatusUnsuccessful then Inc32(old(ierrors)) else old(ierrors))
        && noResources == (if alloc.None? then Inc32(old(noResources)) else old(noResources))
        && recvTimerArmed == (old(recvTimerArmed) || o.queued.Some?)
    {
      if alloc.None? {
        noResources := Inc32(noResources);
        ierrors := Inc32(ierrors);
        return StatusUnsuccessful, 0;
      }
      var packet := RecvPacket(alloc.value, data);
      var status := recvQueue.Put(packet);
      if status != Success {
        ierrors := Inc32(ierrors);
        freed := freed + [packet];
        return StatusUnsuccessful, 0;
      }
      recvIndicatedPackets := recvIndicatedPackets + 1;
      ipackets := Inc32(ipackets);
      recvTimerArmed := true;
      nt, information := StatusSuccess, |ReceivedFrame(data)|;
    }

    /** SteRecvTimerFunc: every queued receive packet is indicated to the protocols, oldest first. */
    method RecvTimerFunc()
      requires Valid()
      modifies this`indicated, this`recvTimerArmed, recvQueue
      ensures Valid()
      ensures indicated == old(indicated) + old(recvQueue.list) && recvQueue.list == []
      ensures !recvTimerArmed
    {
      var drained := recvQueue.Drain();
      indicated := indicated + drained;
      recvTimerArmed := false;
    }

    /** SteResetTimerFunc: one more try; re-arm while packets are out, complete the reset otherwise. */
    method ResetTimerFunc()
      modifies this`resetTrys, this`resetCompleted, this`resetTimerArmed
      ensures resetTrys == old(resetTrys) + 1
      ensures ResetTimerDecision(resetTrys, recvIndicatedPackets).None? ==>
        resetTimerArmed && resetCompleted == old(resetCompleted)
      ensures ResetTimerDecision(resetTrys, recvIndicatedPackets).Some? ==>
        !resetTimerArmed && resetCompleted == old(resetCompleted) + [ResetTimerDecision(resetTrys, recvIndicatedPackets).value]
    {
      resetTrys := resetTrys + 1;
      var status;
      if recvIndicatedPackets > 0 {
        if resetTrys > STE_MAX_WAIT_FOR_RESET {
          status := Failure;
        } else {
          resetTimerArmed := true;
          return;
        }
      } else {
        status := Success;
      }
      resetTimerArmed := false;
      resetCompleted := resetCompleted + [status];
    }

    /** The REGSVC and UNREGSVC cases of SteDispatchIoctl once the adapter is found. */
    method Control(code: IoControl) returns (nt: NtStatus)
      modifies this`eventRegistered
      ensures code.RegSvc? ==> (nt == StatusSuccess <==> code.event == GoodHandle)
      ensures code.RegSvc? ==> eventRegistered == (old(eventRegistered) || code.event == GoodHandle)
      ensures code.UnregSvc? ==> nt == StatusSuccess && !eventRegistered
      ensures code.OtherControl? ==> nt == StatusUnsuccessful && eventRegistered == old(eventRegistered)
    {
      match code
      case RegSvc(event) =>
        if event == GoodHandle {
          eventRegistered := true;
          nt := StatusSuccess;
        } else {
          nt := StatusUnsuccessful;
        }
      case UnregSvc =>
        eventRegistered := false;
        nt := StatusSuccess;
      case OtherControl(_) =>
        nt := StatusUnsuccessful;
    }
  }

  /** The empty sequence, or the one value an option holds. */
  function OptionSeq<T>(o: Option<T>): (r: seq<T>)
    ensures o.Some? ==> r == [o.value]
    ensures o.None? ==> r == []
  {
    if o.Some? then [o.value] else []
  }

  /** The frame SteDispatchWrite puts into a receive buffer: at most ETHERMAX bytes of what sted wrote. */
  function ReceivedFrame(data: seq<byte>): (f: seq<byte>)
    ensures |f| == Min(|data|, ETHERMAX) && f == data[..|f|]
  {
    if |data| > ETHERMAX then data[..ETHERMAX] else data
  }

  /** A receive packet from SteAllocateRecvPacket holding the frame written: one mapped buffer. */
  function RecvPacket(id: nat, data: seq<byte>): Packet
  {
    Packet(id, [NdisBuffer(ReceivedFrame(data), true)])
  }

  /** What a write does once its adapter is found: the IRP's status and length, the packet queued, the packet freed. */
  datatype ReceiveResult = ReceiveResult(nt: NtStatus, information: int, queued: Option<Packet>, released: Option<Packet>)

  /** The outcome of a write of data on an adapter whose receive queue holds queueLen packets, given what the packet pool handed out. */
  function ReceiveOutcome(queueLen: int, data: seq<byte>, alloc: Option<nat>): (r: ReceiveResult)
    ensures r.nt == StatusSuccess <==> r.queued.Some?
    ensures r.nt != StatusSuccess ==> r.nt == StatusUnsuccessful && r.information == 0
    ensures alloc.None? ==> r.queued.None? && r.released.None?
    ensures r.queued.Some? ==> r.released.None? && queueLen < STE_QUEUE_MAX
  {
    match alloc
    case None => ReceiveResult(StatusUnsuccessful, 0, None, None)
    case Some(id) =>
      if queueLen < STE_QUEUE_MAX then
        ReceiveResult(StatusSuccess, |ReceivedFrame(data)|, Some(RecvPacket(id, data)), None)
      else
        ReceiveResult(StatusUnsuccessful, 0, None, Some(RecvPacket(id, data)))
  }

  /**
   * Every receive packet a write allocates is either queued for the
   * protocols or freed, never both and never neither; the write succeeds
   * exactly when it is queued, and then the protocols get the frame sted
   * wrote, cut to ETHERMAX, and sted is told how many bytes were taken.
   */
  lemma ReceiveAccountsForPacket(queueLen: int, data: seq<byte>, id: nat)
    ensures var o := ReceiveOutcome(queueLen, data, Some(id));
      && (o.queued.Some? != o.released.Some?)
      && (o.nt == StatusSuccess <==> o.queued.Some?)
      && (o.nt == StatusSuccess <==> queueLen < STE_QUEUE_MAX)
      && (o.queued.Some? ==> ChainBytes(o.queued.value.chain) == ReceivedFrame(data)
                             && o.information == Min(|data|, ETHERMAX))
      && (o.nt == StatusUnsuccessful ==> o.information == 0)
  {
    var f := ReceivedFrame(data);
    assert ChainBytes([NdisBuffer(f, true)]) == f + ChainBytes([]);
  }

  /** A frame no longer than ETHERMAX reaches the protocols whole. */
  lemma ShortFrameDeliveredWhole(data: seq<byte>)
    requires |data| <= ETHERMAX
    ensures ReceivedFrame(data) == data
  {
  }

  // ------------------------------------------------------------ reset timer

  /** SteResetTimerFunc's decision once ResetTrys is incremented: None re-arms the timer, Some(s) completes the reset with s. */
  function ResetTimerDecision(trys: int, recvIndicated: int): (r: Option<NdisStatus>)
    ensures r == Some(Success) <==> recvIndicated <= 0
    ensures r.None? ==> recvIndicated > 0 && trys <= STE_MAX_WAIT_FOR_RESET
  {
    if recvIndicated > 0 then
      if trys > STE_MAX_WAIT_FOR_RESET then Some(Failure) else None
    else Some(Success)
  }

  /** Timer calls from a reset that started with ResetTrys = trys, while packets stay out: how many, and how it ends. */
  function TimerCallsWhileOut(trys: nat): (r: nat)
    ensures r >= 1 && trys + r > STE_MAX_WAIT_FOR_RESET
    ensures ResetTimerDecision(trys + r, 1) == Some(Failure)
    ensures forall t :: trys < t < trys + r ==> ResetTimerDecision(t, 1).None?
  {
    if trys >= STE_MAX_WAIT_FOR_RESET then 1 else STE_MAX_WAIT_FOR_RESET + 1 - trys
  }

  /** A reset from ResetTrys = 0 re-arms ten times while packets stay out and fails on the eleventh call. */
  lemma ResetGivesUpAfterTenTries()
    ensures TimerCallsWhileOut(0) == STE_MAX_WAIT_FOR_RESET + 1
  {
  }

  /** Once every indicated packet is back, the next timer call completes the reset with SUCCESS, however many tries came before. */
  lemma ResetSucceedsOncePacketsReturn(trys: int)
    ensures ResetTimerDecision(trys, 0) == Some(Success)
  {
  }

  // ------------------------------------------------------------ MAC address

  /**
   * The Ethernet address SteCreateAdapter derives: 0x0A, 0x00, then bits
   * 31..24, 23..16 and 15..8 of the system time, then the low octet of the
   * time plus the instance number. The first octet has the group bit clear
   * and the locally administered bit set.
   */
  function MacAddress(time: nat, instance: nat): (mac: seq<byte>)
    ensures |mac| == ETHERADDRL
    ensures mac[0] == 0x0A && mac[1] == 0x00
    ensures mac[0] as int % 2 == 0 && (mac[0] as int / 2) % 2 == 1
    ensures mac[5] as int == (time + instance) % 0x100
  {
    [0x0A, 0x00,
     ((time / 0x100_0000) % 0x100) as byte,
     ((time / 0x1_0000) % 0x100) as byte,
     ((time / 0x100) % 0x100) as byte,
     ((time + instance) % 0x100) as byte]
  }

  /** Adapters created from the same system time get distinct addresses: their instances differ by less than 256. */
  lemma {:induction false} DistinctInstancesDistinctMacs(time: nat, i: nat, j: nat)
    requires i < STE_MAX_ADAPTERS && j < STE_MAX_ADAPTERS && i != j
    ensures MacAddress(time, i) != MacAddress(time, j)
  {
  }

  // ------------------------------------------------------------ adapter list

  /** The list after unlinking the first occurrence of x: the elements before it, then those after it. */
  function Unlinked<T(==)>(s: seq<T>, x: T): (r: seq<T>)
    ensures x !in s ==> r == s
    ensures x in s ==> |r| == |s| - 1
  {
    if s == [] then []
    else if s[0] == x then s[1..]
    else [s[0]] + Unlinked(s[1..], x)
  }

  /** SteRemoveAdapterFromList as written: a match at the head sets the head to NULL. */
  function UnlinkedAsWritten<T(==)>(s: seq<T>, x: T): (r: seq<T>)
    ensures x !in s ==> r == s
    ensures x in s ==> |r| < |s|
  {
    if s != [] && s[0] == x then [] else Unlinked(s, x)
  }

  /** The position of the first occurrence of x. */
  function IndexOf<T(==)>(s: seq<T>, x: T): (k: nat)
    requires x in s
    ensures k < |s| && s[k] == x && x !in s[..k]
  {
    if s[0] == x then 0 else 1 + IndexOf(s[1..], x)
  }

  /** Unlinking splices out exactly the first occurrence and keeps the order of the rest. */
  lemma {:induction false} UnlinkedSplices<T>(s: seq<T>, x: T)
    requires x in s
    ensures Unlinked(s, x) == s[..IndexOf(s, x)] + s[IndexOf(s, x) + 1..]
  {
    if s[0] != x {
      UnlinkedSplices(s[1..], x);
      var k := IndexOf(s[1..], x);
      assert s[1..][..k] == s[1..k + 1];
      assert s[1..][k + 1..] == s[k + 2..];
      assert [s[0]] + s[1..k + 1] == s[..k + 1];
    }
  }

  /** As written, removing the head adapter of a longer list loses the adapters behind it. */
  lemma HeadRemovalLosesAdapters<T>(s: seq<T>)
    requires |s| >= 2 && s[0] != s[1]
    ensures UnlinkedAsWritten(s, s[0]) == [] && s[1] !in UnlinkedAsWritten(s, s[0])
    ensures s[1] in Unlinked(s, s[0])
  {
  }

  /** Unlinking one adapter keeps the instances of the others rising and in range. */
  lemma SpliceKeepsOrder(s: seq<Adapter>, k: nat)
    requires k < |s|
    requires forall i, j :: 0 <= i < j < |s| ==> s[i].instance < s[j].instance
    requires forall i :: 0 <= i < |s| ==> 0 <= s[i].instance < STE_MAX_ADAPTERS
    ensures var r := s[..k] + s[k + 1..];
      && (forall i, j :: 0 <= i < j < |r| ==> r[i].instance < r[j].instance)
      && (forall i :: 0 <= i < |r| ==> 0 <= r[i].instance < STE_MAX_ADAPTERS)
  {
    var r := s[..k] + s[k + 1..];
    assert forall i :: 0 <= i < |r| ==> r[i] == s[if i < k then i else i + 1];
  }

  /** The global adapter list SteAdapterHead, NextAdapter after NextAdapter. */
  class AdapterList {
    var adapters: seq<Adapter>

    /** Instance numbers rise along the list and stay below STE_MAX_ADAPTERS. */
    predicate Valid()
      reads this, adapters
    {
      && (forall i, j :: 0 <= i < j < |adapters| ==> adapters[i].instance < adapters[j].instance)
      && (forall i :: 0 <= i < |adapters| ==> 0 <= adapters[i].instance < STE_MAX_ADAPTERS)
    }

    constructor ()
      ensures Valid() && adapters == []
    {
      adapters := [];
    }

    /** The instance number SteInsertAdapterToList gives a new adapter: 0 for the first, the last one's plus one after. */
    function NextInstance(): int
      reads this, adapters
    {
      if adapters == [] then 0 else adapters[|adapters| - 1].instance + 1
    }

    /**
     * SteInsertAdapterToList: the new adapter takes the next instance number
     * and is appended; a number past STE_MAX_ADAPTERS - 1 gives RESOURCES and
     * leaves the list as it was (the adapter keeps the number it was given).
     */
    method Insert(a: Adapter) returns (status: NdisStatus)
      requires Valid() && a !in adapters
      modifies this`adapters, a`instance
      ensures Valid()
      ensures a.instance == old(NextInstance())
      ensures status == Success <==> old(NextInstance()) < STE_MAX_ADAPTERS
      ensures status != Success ==> status == Resources && adapters == old(adapters)
      ensures status == Success ==> adapters == old(adapters) + [a]
    {
      if adapters == [] {
        a.instance := 0;
        adapters := [a];
        return Success;
      }
      var k := 0;
      while k + 1 < |adapters|
        invariant 0 <= k < |adapters|
      {
        k := k + 1;
      }
      a.instance := adapters[k].instance + 1;
      if a.instance > STE_MAX_ADAPTERS - 1 {
        return Resources;
      }
      adapters := adapters + [a];
      status := Success;
    }

    /**
     * SteRemoveAdapterFromList with the head case unlinking the head only:
     * FAILURE when the adapter is not on the list, otherwise it is spliced out.
     */
    method Remove(a: Adapter) returns (status: NdisStatus)
      requires Valid()
      modifies this`adapters
      ensures Valid()
      ensures status == Success <==> a in old(adapters)
      ensures status != Success ==> status == Failure
      ensures adapters == Unlinked(old(adapters), a)
    {
      if adapters == [] {
        return Failure;
      }
      var k := 0;
      while k < |adapters| && adapters[k] != a
        invariant 0 <= k <= |adapters| && a !in adapters[..k]
      {
        k := k + 1;
      }
      if k == |adapters| {
        assert adapters[..k] == adapters;
        return Failure;
      }
      assert IndexOf(adapters, a) == k;
      UnlinkedSplices(adapters, a);
      SpliceKeepsOrder(adapters, k);
      adapters := adapters[..k] + adapters[k + 1..];
      status := Success;
    }

    /** SteFindAdapterByDeviceObject: the first adapter of the list registered for the device, FAILURE if none is. */
    method FindAdapterByDeviceObject(device: nat) returns (status: NdisStatus, adapter: Option<Adapter>)
      ensures FindDevice(adapters, device).None? ==> status == Failure && adapter == None
      ensures FindDevice(adapters, device).Some? ==>
        status == Success && adapter == Some(adapters[FindDevice(adapters, device).value])
    {
      var k := 0;
      while k < |adapters|
        invariant 0 <= k <= |adapters|
        invariant forall i :: 0 <= i < k ==> adapters[i].deviceObject != device
      {
        if adapters[k].deviceObject == device {
          FindDeviceFirst(adapters, device, k);
          return Success, Some(adapters[k]);
        }
        k := k + 1;
      }
      return Failure, None;
    }
  }

  /** The first position of an adapter registered for the device. */
  function FindDevice(s: seq<Adapter>, device: nat): (r: Option<nat>)
    ensures r.None? <==> forall i :: 0 <= i < |s| ==> s[i].deviceObject != device
    ensures r.Some? ==> r.value < |s| && s[r.value].deviceObject == device
    ensures r.Some? ==> forall i :: 0 <= i < r.value ==> s[i].deviceObject != device
  {
    if s == [] then None
    else if s[0].deviceObject == device then Some(0)
    else match FindDevice(s[1..], device)
      case None => None
      case Some(k) => Some(k + 1)
  }

  /** The first match is the one FindDevice reports. */
  lemma FindDeviceFirst(s: seq<Adapter>, device: nat, k: nat)
    requires k < |s| && s[k].deviceObject == device
    requires forall i :: 0 <= i < k ==> s[i].deviceObject != device
    ensures FindDevice(s, device) == Some(k)
  {
    var r := FindDevice(s, device);
    assert r.Some?;
    if r.value < k {
    } else if r.value > k {
    }
  }

  /** Instance numbers at least count positions. */
  lemma InstanceAtLeastIndex(l: AdapterList, i: int)
    requires l.Valid() && 0 <= i < |l.adapters|
    ensures l.adapters[i].instance >= i
    decreases i
  {
    if i > 0 {
      InstanceAtLeastIndex(l, i - 1);
    }
  }

  /** The list never holds more than STE_MAX_ADAPTERS adapters. */
  lemma {:induction false} AtMostMaxAdapters(l: AdapterList)
    requires l.Valid()
    ensures |l.adapters| <= STE_MAX_ADAPTERS
  {
    if |l.adapters| > STE_MAX_ADAPTERS {
      InstanceAtLeastIndex(l, STE_MAX_ADAPTERS);
    }
  }

  /**
   * SteCreateAdapter: a zeroed adapter with empty queues and the initial
   * packet filter is put on the list and given its Ethernet address; an
   * allocation failure or a full list frees it and returns the failure.
   */
  method CreateAdapter(list: AdapterList, device: nat, time: nat, memoryOk: bool)
    returns (status: NdisStatus, adapter: Option<Adapter>)
    requires list.Valid()
    modifies list`adapters
    ensures list.Valid()
    ensures !memoryOk ==> status == Failure
    ensures memoryOk ==> (status == Success <==> old(list.NextInstance()) < STE_MAX_ADAPTERS)
    ensures status != Success ==> adapter == None && list.adapters == old(list.adapters)
    ensures status == Success ==> adapter.Some? && fresh(adapter.value)
    ensures status == Success ==> var a := adapter.value;
      && list.adapters == old(list.adapters) + [a]
      && a.Valid() && fresh(a.sendQueue) && fresh(a.recvQueue)
      && a.deviceObject == device && a.instance == old(list.NextInstance())
      && a.ethernetAddress == MacAddress(time, a.instance)
      && a.packetFilter == INITIAL_PACKET_FILTER
      && a.sendQueue.list == [] && a.recvQueue.list == [] && a.indicated == []
      && !a.eventRegistered
  {
    if !memoryOk {
      return Failure, None;
    }
    var a := new Adapter(device);
    status := list.Insert(a);
    if status != Success {
      return status, None;
    }
    a.ethernetAddress := MacAddress(time, a.instance);
    adapter := Some(a);
  }

  // ----------------------------------------------------- copy to a read IRP

  /** Whether every buffer of a chain could be mapped. */
  predicate AllMapped(chain: seq<NdisBuffer>)
  {
    forall i :: 0 <= i < |chain| ==> chain[i].mapped
  }

  /** What SteCopyPacketToIrp's buffer loop achieves: success, and the bytes moved into the IRP buffer (also on failure). */
  datatype ChainCopy = ChainCopy(ok: bool, moved: seq<byte>)

  /**
   * The buffer loop with left bytes of IRP buffer: a buffer longer than
   * what is left, or one that cannot be mapped, fails; one that fills the
   * IRP buffer exactly ends the loop with success.
   */
  function CopyChain(chain: seq<NdisBuffer>, left: int): (c: ChainCopy)
    requires left >= 0
    ensures |c.moved| <= left
    ensures c.moved <= ChainBytes(chain)
    decreases |chain|
  {
    if chain == [] then ChainCopy(true, [])
    else if |chain[0].data| > left || !chain[0].mapped then ChainCopy(false, [])
    else if left == |chain[0].data| then ChainCopy(true, chain[0].data)
    else
      var rest := CopyChain(chain[1..], left - |chain[0].data|);
      ChainCopy(rest.ok, chain[0].data + rest.moved)
  }

  /** When the whole packet fits, a successful loop moved the whole frame, and mapped buffers always succeed. */
  lemma {:induction false} CopyChainWhole(chain: seq<NdisBuffer>, left: int)
    requires 0 <= left && TotalLength(chain) <= left
    ensures CopyChain(chain, left).ok ==> CopyChain(chain, left).moved == ChainBytes(chain)
    ensures AllMapped(chain) ==> CopyChain(chain, left).ok
    decreases |chain|
  {
    if chain != [] && |chain[0].data| <= left && chain[0].mapped {
      if left == |chain[0].data| {
        assert TotalLength(chain[1..]) == 0;
        assert ChainBytes(chain[1..]) == [];
        assert chain[0].data + [] == chain[0].data;
      } else {
        CopyChainWhole(chain[1..], left - |chain[0].data|);
        assert AllMapped(chain) ==> AllMapped(chain[1..]);
      }
    }
  }

  /** The IRP's outcome: the NDIS status, the bytes moved into its buffer, and IoStatus.Information. */
  datatype IrpCopy = IrpCopy(status: NdisStatus, moved: seq<byte>, information: int)

  /**
   * SteCopyPacketToIrp as written: an IRP buffer under ETHERMIN, a NULL
   * buffer or a packet over ETHERMAX fails with nothing copied; otherwise
   * the loop's result, the reported length padded to ETHERMIN.
   */
  function CopyOutcomeAsWritten(chain: seq<NdisBuffer>, irpSize: nat, bufferNull: bool): (r: IrpCopy)
    ensures |r.moved| <= irpSize
    ensures r.status != Success ==> r.status == Failure && r.information == 0
    ensures r.status == Success ==> !bufferNull && ETHERMIN <= r.information <= irpSize && TotalLength(chain) <= ETHERMAX
  {
    if irpSize < ETHERMIN || bufferNull || TotalLength(chain) > ETHERMAX then IrpCopy(Failure, [], 0)
    else
      var c := CopyChain(chain, irpSize);
      if c.ok then IrpCopy(Success, c.moved, Max(|c.moved|, ETHERMIN)) else IrpCopy(Failure, c.moved, 0)
  }

  /** As written, a packet longer than the IRP buffer whose first buffer fills it exactly is reported as sent whole. */
  lemma TruncatedPacketReportedCopied()
    ensures var chain := [NdisBuffer(Zeros(60), true), NdisBuffer(Zeros(40), true)];
      && TotalLength(chain) == 100
      && CopyOutcomeAsWritten(chain, 60, false) == IrpCopy(Success, Zeros(60), 60)
  {
    var chain := [NdisBuffer(Zeros(60), true), NdisBuffer(Zeros(40), true)];
    assert chain[1..] == [NdisBuffer(Zeros(40), true)];
    assert TotalLength(chain[1..][1..]) == 0;
  }

  /** SteCopyPacketToIrp with the packet also checked against the IRP buffer's size before the loop. */
  function CopyOutcome(chain: seq<NdisBuffer>, irpSize: nat, bufferNull: bool): (r: IrpCopy)
    ensures |r.moved| <= irpSize
    ensures r.status != Success ==> r.status == Failure && r.information == 0
    ensures r.status == Success ==> !bufferNull && ETHERMIN <= r.information <= irpSize && TotalLength(chain) <= irpSize
  {
    if irpSize < ETHERMIN || bufferNull || TotalLength(chain) > ETHERMAX || TotalLength(chain) > irpSize
    then IrpCopy(Failure, [], 0)
    else
      var c := CopyChain(chain, irpSize);
      if c.ok then IrpCopy(Success, c.moved, Max(|c.moved|, ETHERMIN)) else IrpCopy(Failure, c.moved, 0)
  }

  /**
   * A successful copy hands sted the whole frame, its length padded to
   * ETHERMIN and within the IRP buffer; with mapped buffers it succeeds
   * exactly when the buffer is there, holds ETHERMIN bytes and holds the
   * packet, and the packet is no longer than ETHERMAX.
   */
  lemma {:induction false} CopyDeliversWholeFrame(chain: seq<NdisBuffer>, irpSize: nat, bufferNull: bool)
    ensures var o := CopyOutcome(chain, irpSize, bufferNull);
      && (o.status == Success ==>
            && !bufferNull && ETHERMIN <= irpSize
            && TotalLength(chain) <= ETHERMAX && TotalLength(chain) <= irpSize
            && o.moved == ChainBytes(chain)
            && o.information == Max(TotalLength(chain), ETHERMIN) && o.information <= irpSize)
      && (o.status != Success ==> o.status == Failure && o.information == 0)
      && (AllMapped(chain) ==>
            (o.status == Success <==>
               !bufferNull && ETHERMIN <= irpSize && TotalLength(chain) <= ETHERMAX && TotalLength(chain) <= irpSize))
  {
    if ETHERMIN <= irpSize && TotalLength(chain) <= irpSize {
      CopyChainWhole(chain, irpSize);
    }
  }

  /** Where the size checks pass, the correction changes nothing. */
  lemma CopyOutcomeAgrees(chain: seq<NdisBuffer>, irpSize: nat, bufferNull: bool)
    requires TotalLength(chain) <= irpSize
    ensures CopyOutcome(chain, irpSize, bufferNull) == CopyOutcomeAsWritten(chain, irpSize, bufferNull)
  {
  }

  /** One turn of the buffer loop, seen from buffer i on. */
  lemma CopyChainUnroll(chain: seq<NdisBuffer>, i: nat, left: int)
    requires i < |chain| && 0 <= left
    ensures var b := chain[i]; var c := CopyChain(chain[i..], left);
      && (|b.data| > left || !b.mapped ==> c == ChainCopy(false, []))
      && (b.mapped && left == |b.data| ==> c == ChainCopy(true, b.data))
      && (b.mapped && |b.data| < left ==>
            var rest := CopyChain(chain[i + 1..], left - |b.data|);
            c == ChainCopy(rest.ok, b.data + rest.moved))
  {
    assert chain[i..][0] == chain[i] && chain[i..][1..] == chain[i + 1..];
  }

  /** The buffer loop of SteCopyPacketToIrp: it moves what CopyChain says into the front of the IRP buffer. */
  method CopyBuffers(chain: seq<NdisBuffer>, irp: array<byte>) returns (ok: bool, copied: seq<byte>)
    modifies irp
    ensures CopyChain(chain, irp.Length) == ChainCopy(ok, copied)
    ensures irp[..] == Splice(old(irp[..]), 0, copied)
  {
    var size := irp.Length;
    var i, left := 0, size;
    ok, copied := true, [];
    SpliceEmpty(irp[..], 0);
    while i < |chain|
      invariant 0 <= i <= |chain| && 0 <= left && |copied| + left == size
      invariant irp[..] == Splice(old(irp[..]), 0, copied)
      invariant var c := CopyChain(chain[i..], left); CopyChain(chain, size) == ChainCopy(c.ok, copied + c.moved)
      decreases |chain| - i
    {
      var b := chain[i];
      CopyChainUnroll(chain, i, left);
      if |b.data| > left || !b.mapped {
        assert copied + [] == copied;
        return false, copied;
      }
      SpliceAdjacent(old(irp[..]), 0, copied, b.data);
      CopyInto(irp, |copied|, b.data);
      ghost var before := copied;
      copied := copied + b.data;
      left := left - |b.data|;
      if left == 0 {
        return true, copied;
      }
      ghost var rest := CopyChain(chain[i + 1..], left).moved;
      assert before + (b.data + rest) == copied + rest;
      i := i + 1;
    }
    assert chain[i..] == [];
    assert copied + [] == copied;
  }

  /** SteCopyPacketToIrp: copies the packet's buffers into the IRP buffer in chain order. */
  method CopyPacketToIrp(p: Packet, irp: array<byte>, bufferNull: bool) returns (status: NdisStatus, information: int)
    modifies irp
    ensures var o := CopyOutcome(p.chain, irp.Length, bufferNull);
      status == o.status && information == o.information && irp[..] == Splice(old(irp[..]), 0, o.moved)
  {
    var size := irp.Length;
    var total := TotalLength(p.chain);
    if size < ETHERMIN || bufferNull || total > ETHERMAX || total > size {
      SpliceEmpty(irp[..], 0);
      return Failure, 0;
    }
    var ok, copied := CopyBuffers(p.chain, irp);
    if ok {
      status, information := Success, Max(|copied|, ETHERMIN);
    } else {
      status, information := Failure, 0;
    }
  }

  // ------------------------------------------------------ dispatch routines

  /** How SteDispatchWrite as written leaves its early checks: a NULL Adapter in the error block, or the adapter found. */
  datatype EarlyWrite = NullAdapterFault | Found(index: nat)

  /**
   * SteDispatchWrite's checks before the packet is allocated, as written: a
   * zero-length write, a NULL buffer or an unknown device object all reach
   * the error block, which increments Adapter->Ierrors with Adapter NULL.
   */
  function EarlyWriteAsWritten(adapters: seq<Adapter>, device: nat, len: int, bufferNull: bool): (r: EarlyWrite)
    ensures r.Found? <==> len != 0 && !bufferNull && exists i :: 0 <= i < |adapters| && adapters[i].deviceObject == device
    ensures r.Found? ==> r.index < |adapters| && adapters[r.index].deviceObject == device
  {
    if len == 0 || bufferNull then NullAdapterFault
    else match FindDevice(adapters, device)
      case None => NullAdapterFault
      case Some(k) => Found(k)
  }

  /** As written, a zero-length write faults on the NULL adapter even when its device is registered. */
  lemma EmptyWriteFaults(adapters: seq<Adapter>, device: nat)
    ensures EarlyWriteAsWritten(adapters, device, 0, false) == NullAdapterFault
  {
  }

  /** As written, a write to a device no adapter is registered for faults on the NULL adapter. */
  lemma UnknownDeviceWriteFaults(adapters: seq<Adapter>, device: nat, len: int)
    requires len != 0 && forall i :: 0 <= i < |adapters| ==> adapters[i].deviceObject != device
    ensures EarlyWriteAsWritten(adapters, device, len, false) == NullAdapterFault
  {
  }

  /**
   * SteDispatchWrite with the error block charging Ierrors only to an
   * adapter that was found: an empty write, a NULL buffer or an unknown
   * device fail with no adapter touched; otherwise the found adapter
   * receives the frame.
   */
  method DispatchWrite(list: AdapterList, device: nat, data: seq<byte>, bufferNull: bool, alloc: Option<nat>)
    returns (nt: NtStatus, information: int, adapter: Option<Adapter>)
    requires forall a | a in list.adapters :: a.Valid()
    modifies list.adapters, set a | a in list.adapters :: a.recvQueue
    ensures |data| == 0 || bufferNull || FindDevice(list.adapters, device).None? ==>
      nt == StatusUnsuccessful && information == 0 && adapter == None
      && (forall a | a in list.adapters :: unchanged(a) && unchanged(a.sendQueue) && unchanged(a.recvQueue))
    ensures |data| > 0 && !bufferNull && FindDevice(list.adapters, device).Some? ==>
      var a: Adapter := list.adapters[FindDevice(list.adapters, device).value];
      var o := ReceiveOutcome(|old(a.recvQueue.list)|, data, alloc);
      && adapter == Some(a) && old(a.Stats()) && a.Valid()
      && nt == o.nt && information == o.information
      && a.recvQueue.list == old(a.recvQueue.list) + OptionSeq(o.queued)
      && a.freed == old(a.freed) + OptionSeq(o.released)
      && a.recvIndicatedPackets == old(a.recvIndicatedPackets) + |OptionSeq(o.queued)|
      && a.ipackets == (if o.queued.Some? then Inc32(old(a.ipackets)) else old(a.ipackets))
      && a.ierrors == (if o.nt == StatusUnsuccessful then Inc32(old(a.ierrors)) else old(a.ierrors))
      && a.noResources == (if alloc.None? then Inc32(old(a.noResources)) else old(a.noResources))
      && a.recvTimerArmed == (old(a.recvTimerArmed) || o.queued.Some?)
      && unchanged(a`instance, a`packetFilter, a`ethernetAddress, a`resetTrys, a`eventRegistered)
      && unchanged(a`opackets, a`oerrors, a`alignErrors, a`oneCollisions, a`collisions)
      && unchanged(a`sendCompleted, a`indicated, a`resetCompleted, a`resetTimerArmed, a`eventsSignalled)
      && (forall b | b in list.adapters && b != a :: unchanged(b))
      && (forall b | b in list.adapters ::
            (b.sendQueue != a.recvQueue ==> unchanged(b.sendQueue)) && (b.recvQueue != a.recvQueue ==> unchanged(b.recvQueue)))
  {
    if |data| == 0 || bufferNull {
      return StatusUnsuccessful, 0, None;
    }
    var status, found := list.FindAdapterByDeviceObject(device);
    if status != Success {
      return StatusUnsuccessful, 0, None;
    }
    var a := found.value;
    nt, information := a.Receive(data, alloc);
    adapter := found;
  }

  /** What SteDispatchRead does to the send queue and to NDIS, as written: the head is taken, and completed only when the copy succeeds. */
  function ReadAsWritten(queue: seq<Packet>, copy: NdisStatus): (r: (seq<Packet>, seq<SendCompletion>))
    ensures queue != [] ==> r.0 == queue[1..]
    ensures r.1 != [] <==> queue != [] && copy == Success
    ensures r.1 != [] ==> r.1 == [SendCompletion(queue[0], Success)]
  {
    if queue == [] then (queue, [])
    else if copy == Success then (queue[1..], [SendCompletion(queue[0], Success)])
    else (queue[1..], [])
  }

  /** As written, a packet whose copy fails leaves the send queue and is never completed to NDIS. */
  lemma FailedCopyLosesPacket(p: Packet, rest: seq<Packet>)
    ensures ReadAsWritten([p] + rest, Failure) == (rest, [])
  {
    assert ([p] + rest)[1..] == rest;
  }

  /**
   * SteDispatchRead with a failed copy completing the packet with FAILURE:
   * the oldest send packet is copied into the IRP and always handed back to
   * NDIS, with SUCCESS exactly when the copy succeeded.
   */
  method DispatchRead(list: AdapterList, device: nat, irp: array<byte>, bufferNull: bool)
    returns (nt: NtStatus, information: int, adapter: Option<Adapter>)
    requires forall a | a in list.adapters :: a.Valid()
    modifies list.adapters, set a | a in list.adapters :: a.sendQueue, irp
    ensures FindDevice(list.adapters, device).None? ==>
      nt == StatusUnsuccessful && information == 0 && adapter == None && irp[..] == old(irp[..])
      && (forall a | a in list.adapters :: unchanged(a) && unchanged(a.sendQueue) && unchanged(a.recvQueue))
    ensures FindDevice(list.adapters, device).Some? ==>
      var a: Adapter := list.adapters[FindDevice(list.adapters, device).value];
      && adapter == Some(a) && a.Valid()
      && unchanged(a`instance, a`packetFilter, a`ethernetAddress, a`recvIndicatedPackets, a`resetTrys, a`eventRegistered)
      && unchanged(a`ipackets, a`opackets, a`ierrors, a`oerrors, a`noResources, a`alignErrors, a`oneCollisions, a`collisions)
      && unchanged(a`indicated, a`freed, a`resetCompleted, a`recvTimerArmed, a`resetTimerArmed, a`eventsSignalled)
      && (forall b | b in list.adapters && b != a :: unchanged(b))
      && (forall b | b in list.adapters ::
            (b.sendQueue != a.sendQueue ==> unchanged(b.sendQueue)) && (b.recvQueue != a.sendQueue ==> unchanged(b.recvQueue)))
      && (old(a.sendQueue.list) == [] ==>
            nt == StatusUnsuccessful && information == 0 && irp[..] == old(irp[..])
            && a.sendQueue.list == [] && a.sendCompleted == old(a.sendCompleted))
      && (old(a.sendQueue.list) != [] ==>
            var p := old(a.sendQueue.list)[0];
            var o := CopyOutcome(p.chain, irp.Length, bufferNull);
            && a.sendQueue.list == old(a.sendQueue.list)[1..]
            && a.sendCompleted == old(a.sendCompleted) + [SendCompletion(p, o.status)]
            && irp[..] == Splice(old(irp[..]), 0, o.moved)
            && nt == (if o.status == Success then StatusSuccess else StatusUnsuccessful)
            && information == o.information)
  {
    var status, found := list.FindAdapterByDeviceObject(device);
    if status != Success {
      return StatusUnsuccessful, 0, None;
    }
    var a := found.value;
    assert a in list.adapters;
    adapter := found;
    var got, p := a.sendQueue.Get();
    if got != Success {
      return StatusUnsuccessful, 0, adapter;
    }
    status, information := CopyPacketToIrp(p.value, irp, bufferNull);
    a.sendCompleted := a.sendCompleted + [SendCompletion(p.value, status)];
    nt := if status == Success then StatusSuccess else StatusUnsuccessful;
  }

  /** SteDispatchIoctl: REGSVC and UNREGSVC on the adapter of the device; an unknown device fails. */
  method DispatchIoctl(list: AdapterList, device: nat, code: IoControl) returns (nt: NtStatus)
    modifies list.adapters
    ensures FindDevice(list.adapters, device).None? ==>
      nt == StatusUnsuccessful && forall a | a in list.adapters :: unchanged(a)
    ensures FindDevice(list.adapters, device).Some? ==>
      var a: Adapter := list.adapters[FindDevice(list.adapters, device).value];
      && (code.RegSvc? ==> (nt == StatusSuccess <==> code.event == GoodHandle)
                           && a.eventRegistered == (old(a.eventRegistered) || code.event == GoodHandle))
      && (code.UnregSvc? ==> nt == StatusSuccess && !a.eventRegistered)
      && (code.OtherControl? ==> nt == StatusUnsuccessful && a.eventRegistered == old(a.eventRegistered))
      && unchanged(a`instance, a`packetFilter, a`ethernetAddress, a`recvIndicatedPackets, a`resetTrys)
      && unchanged(a`ipackets, a`opackets, a`ierrors, a`oerrors, a`noResources, a`alignErrors, a`oneCollisions, a`collisions)
      && unchanged(a`sendCompleted, a`indicated, a`freed, a`resetCompleted, a`recvTimerArmed, a`resetTimerArmed, a`eventsSignalled)
      && (forall b | b in list.adapters && b != a :: unchanged(b))
  {
    var status, found := list.FindAdapterByDeviceObject(device);
    if status != Success {
      return StatusUnsuccessful;
    }
    nt := found.value.Control(code);
  }
}
