// sted_svc_main's event loop and sted_svc_ctrl_handler: the socket event
// runs read_socket, the device event drains read_ste, a failure on the hub
// connection closes it and dials again, SERVICE_CONTROL_STOP ends the loop,
// and the err block unregisters the service from the driver.

module StedService {
  import opened Bytes
  import opened Sockets
  import opened Wrappers
  import opened FrameCodec
  import opened Reassembly
  import opened Connect
  import opened Sted

  /** The service control codes the handler tells apart (winsvc.h). */
  const SERVICE_CONTROL_STOP: int := 1
  const SERVICE_CONTROL_PAUSE: int := 2
  const SERVICE_CONTROL_CONTINUE: int := 3
  const SERVICE_CONTROL_INTERROGATE: int := 4
  const SERVICE_CONTROL_DEVICEEVENT: int := 0x0B

  /** The hub argument used when -h is not given. */
  const DEFAULT_HUB: string := "localhost:80"

  /** dwCurrentState of the service status sted reports. */
  datatype ServiceState = StartPending | Running | Paused | Stopped

  /** One read_ste call's view of the world: what ReadFile returns and, if it flushes, what send does. */
  datatype DeviceTurn = DeviceTurn(read: DeviceRead, send: SendOutcome)

  /**
   * What one WSAWaitForMultipleEvents brings: the socket event with recv's
   * outcome, the device event with the reads that follow it, a wait
   * failure, a timeout, an unknown index; or a service control delivered
   * between two rounds of the loop. redial is what a reconnection meets.
   */
  datatype Wait =
    | SocketSignalled(recv: RecvOutcome, redial: Dial)
    | DeviceSignalled(turns: seq<DeviceTurn>, redial: Dial)
    | WaitFailed
    | WaitTimeout
    | UnknownIndex(index: int)
    | Control(code: int)

  /** ReadFile never stores more than SOCKBUFSIZE bytes. */
  predicate TurnsFit(turns: seq<DeviceTurn>)
  {
    forall i :: 0 <= i < |turns| && turns[i].read.ReadBytes? ==> |turns[i].read.bytes| <= SOCKBUFSIZE
  }

  predicate EventsFit(events: seq<Wait>)
  {
    forall i :: 0 <= i < |events| && events[i].DeviceSignalled? ==> TurnsFit(events[i].turns)
  }

  // ------------------------------------------------------------ the drain

  /**
   * How the do { read_ste } while (ret > 0) drain ends: a read that brings
   * nothing, a flush that failed hard, or a message that would run past
   * sendbuf.
   */
  datatype DrainEnd = Drained | SendError | Overflow

  /** The bytes left pending, what went on the wire, and how the drain ended. */
  datatype Drain = Drain(left: seq<byte>, wire: seq<seq<byte>>, end: DrainEnd)

  /**
   * The drain on the pending bytes of sendbuf: each non-empty read goes
   * through read_ste; once the turns run out the device has nothing more
   * and the next read brings no bytes.
   */
  function DrainSpec(pending: seq<byte>, turns: seq<DeviceTurn>): (d: Drain)
    requires TurnsFit(turns)
    ensures |d.wire| <= |turns|
    decreases |turns|
  {
    if turns == [] then Drain(pending, [], Drained)
    else
      var t := turns[0];
      if t.read.ReadFailed? || t.read.bytes == [] then Drain(pending, [], Drained)
      else if |pending| + |EncodeMessage(t.read.bytes)| > SOCKBUFSIZE then Drain(pending, [], Overflow)
      else
        var r := ReadSteStep(pending, t.read.bytes, t.send);
        if r.ret == -1 then Drain(r.left, r.wire, SendError)
        else
          var d := DrainSpec(r.left, turns[1..]);
          Drain(d.left, r.wire + d.wire, d.end)
  }

  /** The sends made so far in front of those the rest of the drain makes. */
  function AfterSends(ws: seq<seq<byte>>, d: Drain): Drain
  {
    Drain(d.left, ws + d.wire, d.end)
  }

  /** Frames straight from the device: non-empty Ethernet frames. */
  predicate FromDevice(turns: seq<DeviceTurn>)
  {
    forall i :: 0 <= i < |turns| ==> turns[i].read.ReadBytes? && 1 <= |turns[i].read.bytes| <= ETHERMAX
  }

  /** Every flush the drain makes is accepted whole by send. */
  predicate SendsComplete(turns: seq<DeviceTurn>)
  {
    forall i :: 0 <= i < |turns| ==> turns[i].send.Sent? && turns[i].send.count >= SOCKBUFSIZE
  }

  /** The frames the turns bring, in order. */
  function FramesOf(turns: seq<DeviceTurn>): (fs: seq<seq<byte>>)
    requires FromDevice(turns)
    ensures |fs| == |turns| && forall i :: 0 <= i < |fs| ==> fs[i] == turns[i].read.bytes
  {
    if turns == [] then [] else [turns[0].read.bytes] + FramesOf(turns[1..])
  }

  lemma FromDeviceFits(turns: seq<DeviceTurn>)
    requires FromDevice(turns)
    ensures TurnsFit(turns)
  {
  }

  /**
   * The batching bound over a whole drain: without a hard send error,
   * sendbuf holds at most SENDBUF_THRESHOLD bytes after it as before it.
   */
  lemma {:induction false} DrainKeepsThreshold(pending: seq<byte>, turns: seq<DeviceTurn>)
    requires TurnsFit(turns) && |pending| <= SENDBUF_THRESHOLD
    ensures DrainSpec(pending, turns).end != SendError ==> |DrainSpec(pending, turns).left| <= SENDBUF_THRESHOLD
    decreases |turns|
  {
    if turns != [] {
      var t := turns[0];
      if t.read.ReadBytes? && t.read.bytes != [] && |pending| + |EncodeMessage(t.read.bytes)| <= SOCKBUFSIZE {
        var r := ReadSteStep(pending, t.read.bytes, t.send);
        if r.ret != -1 {
          ReadSteKeepsThreshold(pending, t.read.bytes, t.send);
          DrainKeepsThreshold(r.left, turns[1..]);
        }
      }
    }
  }

  /**
   * sendbuf cannot overflow on Ethernet frames while the batching bound
   * holds: SENDBUF_THRESHOLD bytes and one message of a 1514-byte frame
   * fit SOCKBUFSIZE.
   */
  lemma {:induction false} DrainNeverOverflows(pending: seq<byte>, turns: seq<DeviceTurn>)
    requires forall i :: 0 <= i < |turns| && turns[i].read.ReadBytes? ==> |turns[i].read.bytes| <= ETHERMAX
    requires |pending| <= SENDBUF_THRESHOLD
    ensures TurnsFit(turns) && DrainSpec(pending, turns).end != Overflow
    decreases |turns|
  {
    if turns != [] {
      var t := turns[0];
      if t.read.ReadBytes? && t.read.bytes != [] {
        var r := ReadSteStep(pending, t.read.bytes, t.send);
        if r.ret != -1 {
          ReadSteKeepsThreshold(pending, t.read.bytes, t.send);
          DrainNeverOverflows(r.left, turns[1..]);
        }
      }
    }
  }

  lemma {:induction false} FlattenAppend(a: seq<seq<byte>>, b: seq<seq<byte>>)
    ensures Flatten(a + b) == Flatten(a) + Flatten(b)
    decreases |a|
  {
    if a == [] {
      assert a + b == b;
    } else {
      assert (a + b)[0] == a[0];
      assert (a + b)[1..] == a[1..] + b;
      FlattenAppend(a[1..], b);
    }
  }

  /** A flush of grown in front of later sends and what they keep. */
  lemma DeliverFlushed(grown: seq<byte>, dw: seq<seq<byte>>, dl: seq<byte>, e: seq<byte>)
    requires Flatten(dw) + dl == e
    ensures Flatten([grown] + dw) + dl == grown + e
  {
    FlattenAppend([grown], dw);
    assert [grown][1..] == [];
    assert Flatten([grown]) == grown;
  }

  /** The bytes of one read_ste kept for the next flush. */
  lemma DeliverHeld(w: seq<seq<byte>>, grown: seq<byte>, dw: seq<seq<byte>>, dl: seq<byte>, e: seq<byte>)
    requires w == [] && Flatten(dw) + dl == grown + e
    ensures Flatten(w + dw) + dl == grown + e
  {
    assert w + dw == dw;
  }

  /** A read_ste of a device frame with complete sends: no failure, the bound kept, no overflow. */
  lemma DeliverFacts(pending: seq<byte>, f: seq<byte>, out: SendOutcome)
    requires 1 <= |f| <= ETHERMAX && out.Sent? && out.count >= SOCKBUFSIZE
    requires |pending| <= SENDBUF_THRESHOLD
    ensures |pending| + |EncodeMessage(f)| <= SOCKBUFSIZE
    ensures ReadSteStep(pending, f, out).ret != -1
    ensures |ReadSteStep(pending, f, out).left| <= SENDBUF_THRESHOLD
  {
    ReadSteOutcome(pending, f, out);
    ReadSteKeepsThreshold(pending, f, out);
  }

  /**
   * One read_ste of the drain, sent whole: what it sends, then what the
   * rest sends and keeps, is the old pending bytes, its message and the
   * rest's messages.
   */
  lemma DeliverStep(pending: seq<byte>, f: seq<byte>, out: SendOutcome,
                    dw: seq<seq<byte>>, dl: seq<byte>, e: seq<byte>)
    requires 1 <= |f| <= ETHERMAX && out.Sent? && out.count >= SOCKBUFSIZE
    requires |pending| <= SENDBUF_THRESHOLD
    requires Flatten(dw) + dl == ReadSteStep(pending, f, out).left + e
    ensures Flatten(ReadSteStep(pending, f, out).wire + dw) + dl == pending + (EncodeMessage(f) + e)
  {
    var grown := pending + EncodeMessage(f);
    var r := ReadSteStep(pending, f, out);
    DeliverFacts(pending, f, out);
    ReadSteOutcome(pending, f, out);
    assert grown + e == pending + (EncodeMessage(f) + e);
    if FlushDue(|f|, |grown|) {
      assert r.wire == [grown] && r.left == [];
      assert [] + e == e;
      DeliverFlushed(grown, dw, dl, e);
    } else {
      DeliverHeld(r.wire, grown, dw, dl, e);
    }
  }

  /** The drain after a read_ste that returned its frame size: that call's sends, then the rest's. */
  lemma DrainUnfold(pending: seq<byte>, turns: seq<DeviceTurn>)
    requires TurnsFit(turns) && turns != [] && turns[0].read.ReadBytes? && turns[0].read.bytes != []
    requires |pending| + |EncodeMessage(turns[0].read.bytes)| <= SOCKBUFSIZE
    requires ReadSteStep(pending, turns[0].read.bytes, turns[0].send).ret != -1
    ensures var r := ReadSteStep(pending, turns[0].read.bytes, turns[0].send);
      var d := DrainSpec(r.left, turns[1..]);
      DrainSpec(pending, turns) == Drain(d.left, r.wire + d.wire, d.end)
  {
  }

  /**
   * Nothing is lost or reordered on the way out: when every flush is sent
   * whole, the bytes sent followed by those still pending are the old
   * pending bytes followed by the messages of the frames read, in order.
   */
  lemma {:induction false} DrainDelivers(pending: seq<byte>, turns: seq<DeviceTurn>)
    requires FromDevice(turns) && SendsComplete(turns) && |pending| <= SENDBUF_THRESHOLD
    ensures TurnsFit(turns)
    ensures DrainSpec(pending, turns).end == Drained
    ensures Flatten(DrainSpec(pending, turns).wire) + DrainSpec(pending, turns).left
            == pending + EncodeAll(FramesOf(turns))
    decreases |turns|
  {
    if turns == [] {
      assert pending + EncodeAll([]) == pending;
    } else {
      var f := turns[0].read.bytes;
      var out := turns[0].send;
      var r := ReadSteStep(pending, f, out);
      DeliverFacts(pending, f, out);
      var rest := turns[1..];
      assert FromDevice(rest) && SendsComplete(rest);
      DrainDelivers(r.left, rest);
      var d := DrainSpec(r.left, rest);
      DrainUnfold(pending, turns);
      assert FramesOf(turns) == [f] + FramesOf(rest);
      assert EncodeAll(FramesOf(turns)) == EncodeMessage(f) + EncodeAll(FramesOf(rest));
      DeliverStep(pending, f, out, d.wire, d.left, EncodeAll(FramesOf(rest)));
    }
  }

  /** A drain that ends on a short frame leaves nothing pending. */
  lemma {:induction false} DrainShortLastEmpties(pending: seq<byte>, turns: seq<DeviceTurn>)
    requires FromDevice(turns) && SendsComplete(turns) && |pending| <= SENDBUF_THRESHOLD
    requires turns != [] && |turns[|turns| - 1].read.bytes| < ETHERMAX
    ensures TurnsFit(turns) && DrainSpec(pending, turns).left == []
    decreases |turns|
  {
    var f := turns[0].read.bytes;
    var r := ReadSteStep(pending, f, turns[0].send);
    ReadSteOutcome(pending, f, turns[0].send);
    ReadSteKeepsThreshold(pending, f, turns[0].send);
    if |turns| > 1 {
      DrainShortLastEmpties(r.left, turns[1..]);
    } else {
      assert turns[1..] == [];
    }
  }

  /**
   * End to end through the tunnel: frames read from one sted's device,
   * sent whole and received by another sted in any chunking, are written
   * to its device unchanged and in order.
   */
  lemma DrainThroughTunnel(turns: seq<DeviceTurn>, c: Cursor, chunks: seq<seq<byte>>)
    requires FromDevice(turns) && SendsComplete(turns)
    requires turns != [] && |turns[|turns| - 1].read.bytes| < ETHERMAX
    requires Reassembly.Valid(c) && Idle(c)
    requires TurnsFit(turns) && Flatten(chunks) == Flatten(DrainSpec([], turns).wire)
    ensures Feed(c, chunks).frames == FramesOf(turns) && Feed(c, chunks).stop == Consumed
  {
    var empty: seq<byte> := [];
    DrainDelivers(empty, turns);
    DrainShortLastEmpties(empty, turns);
    var fw := Flatten(DrainSpec(empty, turns).wire);
    var e := EncodeAll(FramesOf(turns));
    assert fw + empty == empty + e;
    assert fw == fw + empty && e == empty + e;
    TunnelRoundTrip(c, FramesOf(turns), chunks);
  }

  // -------------------------------------------------- releasing the device

  /**
   * The handler's SERVICE_CONTROL_STOP release: UNREGSVC unless the handle
   * is INVALID_HANDLE_VALUE, which it then becomes.
   */
  function StopRelease(h: Handle): (r: (seq<Ioctl>, Handle))
    ensures r.1 == InvalidHandle
    ensures h != InvalidHandle <==> r.0 == [Ioctl(h, UnregSvc)]
    ensures h == InvalidHandle <==> r.0 == []
  {
    if h != InvalidHandle then ([Ioctl(h, UnregSvc)], InvalidHandle) else ([], h)
  }

  /**
   * The err block as written: UNREGSVC unless the handle is NULL, then
   * INVALID_HANDLE_VALUE.
   */
  function ErrBlockAsWritten(h: Handle): (r: (seq<Ioctl>, Handle))
    ensures h != NullHandle <==> r.0 == [Ioctl(h, UnregSvc)]
    ensures h != NullHandle ==> r.1 == InvalidHandle
    ensures h == NullHandle ==> r == ([], NullHandle)
  {
    if h != NullHandle then ([Ioctl(h, UnregSvc)], InvalidHandle) else ([], h)
  }

  /**
   * After a stop the handle is INVALID_HANDLE_VALUE, not NULL, so the err
   * block as written sends UNREGSVC a second time, on the invalid handle.
   */
  lemma StopThenErrBlockRepeats(id: int)
    ensures var (first, h) := StopRelease(DeviceHandle(id));
      var (second, _) := ErrBlockAsWritten(h);
      first + second == [Ioctl(DeviceHandle(id), UnregSvc), Ioctl(InvalidHandle, UnregSvc)]
  {
  }

  /** The err block releasing only an open device: the test both paths evidently mean. */
  function ErrBlock(h: Handle): (r: (seq<Ioctl>, Handle))
    ensures h.DeviceHandle? <==> r.0 == [Ioctl(h, UnregSvc)]
    ensures !h.DeviceHandle? <==> r == ([], h)
    ensures h.DeviceHandle? ==> r.1 == InvalidHandle
  {
    if h.DeviceHandle? then ([Ioctl(h, UnregSvc)], InvalidHandle) else ([], h)
  }

  /**
   * With that test an open device is unregistered exactly once, whether
   * or not a stop came first, and never through NULL or INVALID_HANDLE_VALUE.
   */
  lemma UnregisterOnce(id: int, stopped: bool)
    ensures var (first, h) := if stopped then StopRelease(DeviceHandle(id)) else ([], DeviceHandle(id));
      var (second, h2) := ErrBlock(h);
      first + second == [Ioctl(DeviceHandle(id), UnregSvc)] && h2 == InvalidHandle
  {
  }

  /** The ioctl log over the life of an open device: registered, then maybe unregistered. */
  predicate DeviceLife(ioctls: seq<Ioctl>, h: Handle, id: int)
  {
    || (h == DeviceHandle(id) && ioctls == [Ioctl(DeviceHandle(id), RegSvc)])
    || (h == InvalidHandle && ioctls == [Ioctl(DeviceHandle(id), RegSvc), Ioctl(DeviceHandle(id), UnregSvc)])
  }

  /**
   * One read_ste of the drain, for turn i (or, past the last turn, a read
   * that brings nothing): either the drain ends here as DrainSpec says, or
   * the call returned more than 0 and sent r's bytes.
   */
  method DrainTurn(s: StedStat, turns: seq<DeviceTurn>, i: int) returns (stop: Option<DrainEnd>, ghost sent: seq<seq<byte>>)
    requires s.Valid() && TurnsFit(turns) && 0 <= i <= |turns|
    modifies s`sendbuflen, s`wire, s.sendbuf
    ensures s.Valid()
    ensures stop.Some? ==>
      var d := DrainSpec(old(s.Pending()), turns[i..]);
      stop.value == d.end && s.Pending() == d.left && s.wire == old(s.wire) + d.wire
    ensures stop.None? ==>
      i < |turns| && s.wire == old(s.wire) + sent
      && DrainSpec(old(s.Pending()), turns[i..]) == AfterSends(sent, DrainSpec(s.Pending(), turns[i + 1..]))
  {
    var dev := if i < |turns| then turns[i].read else ReadBytes([]);
    var out := if i < |turns| then turns[i].send else Sent(0);
    ghost var p := s.Pending();
    ghost var w := s.wire;
    ghost var ts := turns[i..];
    if i < |turns| {
      assert ts[0] == turns[i] && ts[1..] == turns[i + 1..];
    }
    sent := [];
    var ret, overflow := s.ReadSte(dev, out);
    if overflow {
      stop := Some(Overflow);
      assert DrainSpec(p, ts) == Drain(p, [], Overflow);
      assert s.wire == w + [];
    } else if ret < 0 {
      stop := Some(SendError);
      assert DrainSpec(p, ts) == Drain(s.Pending(), ReadSteStep(p, dev.bytes, out).wire, SendError);
    } else if ret == 0 {
      stop := Some(Drained);
      assert DrainSpec(p, ts) == Drain(p, [], Drained);
      assert s.wire == w + [];
    } else {
      stop := None;
      sent := ReadSteStep(p, dev.bytes, out).wire;
      DrainUnfold(p, ts);
    }
  }

  /**
   * sted_svc_main's do { read_ste } while (ret > 0) on the device event:
   * read_ste again and again while it returns more than 0. Each turn
   * feeds one read; once they run out the next read brings nothing.
   */
  method DrainDevice(s: StedStat, turns: seq<DeviceTurn>) returns (end: DrainEnd)
    requires s.Valid() && TurnsFit(turns)
    modifies s`sendbuflen, s`wire, s.sendbuf
    ensures s.Valid()
    ensures var d := DrainSpec(old(s.Pending()), turns);
      end == d.end && s.Pending() == d.left && s.wire == old(s.wire) + d.wire
  {
    ghost var all := DrainSpec(s.Pending(), turns);
    ghost var rest := all;
    var i := 0;
    assert turns[0..] == turns;
    while true
      invariant s.Valid() && 0 <= i <= |turns|
      invariant rest == DrainSpec(s.Pending(), turns[i..])
      invariant all.end == rest.end && all.left == rest.left
      invariant old(s.wire) + all.wire == s.wire + rest.wire
      decreases |turns| - i
    {
      ghost var w := s.wire;
      var stop, more := DrainTurn(s, turns, i);
      if stop.Some? {
        end := stop.value;
        return;
      }
      rest := DrainSpec(s.Pending(), turns[i + 1..]);
      ConcatAssoc(w, more, rest.wire);
      i := i + 1;
    }
  }

  // -------------------------------------------------------------- Service

  /**
   * The state of sted_svc_main and its service status: the sted_stat it
   * works on, bRunning, the reported state and exit code, its own sock_fd,
   * the -h and -p arguments, and the sockets it has closed. faulted records
   * that the program went past a buffer, after which the model stops.
   */
  class Service {
    const stat: StedStat
    var running: bool
    var state: ServiceState
    var exitCode: int
    var sockFd: int
    const hubArg: string
    const proxyArg: Option<string>
    var closed: seq<int>
    var faulted: bool

    predicate Valid()
      reads this, stat, stat.dummyhead, stat.wdatabuf
    {
      stat.Valid() && (faulted ==> !running) && (!faulted ==> Reassembly.Valid(stat.Cursor()))
    }

    /**
     * A service about to run: the zeroed sted_stat, the hub argument or
     * "localhost:80", and the state SERVICE_RUNNING reported once the
     * control handler is registered.
     */
    constructor (hub: Option<string>, proxy: Option<string>)
      ensures Valid() && fresh(stat) && !running && !faulted && state == Running
      ensures hubArg == (if hub.None? then DEFAULT_HUB else hub.value) && proxyArg == proxy
      ensures stat.ioctls == [] && stat.steHandle == NullHandle && stat.wire == [] && stat.deviceWrites == []
      ensures Idle(stat.Cursor()) && stat.Pending() == [] && closed == []
    {
      stat := new StedStat();
      running, state, exitCode, sockFd := false, Running, 0, -1;
      hubArg := if hub.None? then DEFAULT_HUB else hub.value;
      proxyArg := proxy;
      closed, faulted := [], false;
    }

    /**
     * CLOSE(sock_fd), sted_stat's sock_fd to -1, and open_socket again on
     * the -h and -p arguments as given. The reassembly cursor and the
     * pending bytes of sendbuf are kept as they are.
     */
    method Reconnect(net: Dial) returns (ok: bool)
      requires Valid()
      modifies this`sockFd, this`closed, stat`sockFd, stat`hubName, stat`hubPort, stat`proxyName, stat`proxyPort, stat`wire
      ensures Valid()
      ensures closed == old(closed) + [old(sockFd)]
      ensures ok <==> Dialled(hubArg, proxyArg, net) && (proxyArg.Some? ==> ConnectResult(net.handshake) == 0)
      ensures ok ==> sockFd == net.fd && stat.sockFd == net.fd
      ensures !ok ==> sockFd == -1
      ensures stat.sockFd == if Dialled(hubArg, proxyArg, net) then net.fd else -1
      ensures SplitHostPort(hubArg).Some? ==> stat.hubPort == SplitHostPort(hubArg).value.port
      ensures stat.Cursor() == old(stat.Cursor()) && stat.Pending() == old(stat.Pending())
      ensures stat.wire == old(stat.wire) + OpenSends(hubArg, proxyArg, net)
    {
      closed := closed + [sockFd];
      stat.sockFd := -1;
      var ret, _, _ := stat.OpenSocket(hubArg, proxyArg, net);
      sockFd := ret;
      ok := ret >= 0;
    }

    /**
     * The socket event: read_socket, and on a negative result a
     * reconnection, whose failure clears bRunning.
     */
    method OnSocket(recv: RecvOutcome, redial: Dial)
      requires Valid() && running
      modifies this`sockFd, this`closed, this`running, this`faulted
      modifies stat`sockFd, stat`hubName, stat`hubPort, stat`proxyName, stat`proxyPort, stat`wire
      modifies stat`dummyheadlen, stat`datalen, stat`dataleft, stat`orgdatalen, stat`deviceWrites
      modifies stat.dummyhead, stat.wdatabuf
      ensures Valid()
      ensures recv.Received? && recv.data != [] ==>
          var s := Loop(old(stat.Cursor()), recv.data);
          stat.deviceWrites == old(stat.deviceWrites) + s.frames
          && (s.stop == Fault <==> faulted)
          && (s.stop != Fault ==> stat.Cursor() == s.cur && running && closed == old(closed))
      ensures recv.RecvFailed? || recv.data == [] ==>
          stat.deviceWrites == old(stat.deviceWrites) && stat.Cursor() == old(stat.Cursor()) && !faulted
      ensures recv.RecvFailed? && StedTransient(recv.err) ==> running && closed == old(closed)
      ensures (recv.RecvFailed? && !StedTransient(recv.err)) || recv == Received([]) ==>
          closed == old(closed) + [old(sockFd)]
          && (running <==> Dialled(hubArg, proxyArg, redial) && (proxyArg.Some? ==> ConnectResult(redial.handshake) == 0))
          && stat.wire == old(stat.wire) + OpenSends(hubArg, proxyArg, redial)
      ensures !((recv.RecvFailed? && !StedTransient(recv.err)) || recv == Received([])) ==> stat.wire == old(stat.wire)
    {
      var ret, stop := stat.ReadSocket(recv);
      if stop == Fault {
        faulted := true;
        running := false;
        return;
      }
      if ret < 0 {
        var ok := Reconnect(redial);
        if !ok {
          running := false;
        }
      }
    }

    /**
     * The device event: the drain, then, after a failed flush, a
     * reconnection whose failure clears bRunning. A message that would
     * run past sendbuf ends the run.
     */
    method OnDevice(turns: seq<DeviceTurn>, redial: Dial) returns (end: DrainEnd)
      requires Valid() && running && TurnsFit(turns)
      modifies this`sockFd, this`closed, this`running, this`faulted
      modifies stat`sockFd, stat`hubName, stat`hubPort, stat`proxyName, stat`proxyPort
      modifies stat`sendbuflen, stat`wire, stat.sendbuf
      ensures Valid()
      ensures var d := DrainSpec(old(stat.Pending()), turns);
        end == d.end && stat.Pending() == d.left
        && stat.wire == old(stat.wire) + d.wire + (if end == SendError then OpenSends(hubArg, proxyArg, redial) else [])
      ensures stat.Cursor() == old(stat.Cursor())
      ensures end == Drained ==> running && !faulted && closed == old(closed)
      ensures end == Overflow ==> !running && faulted && closed == old(closed)
      ensures end == SendError ==>
        !faulted && closed == old(closed) + [old(sockFd)]
        && (running <==> Dialled(hubArg, proxyArg, redial) && (proxyArg.Some? ==> ConnectResult(redial.handshake) == 0))
    {
      end := DrainDevice(stat, turns);
      if end == Overflow {
        faulted := true;
        running := false;
      } else if end == SendError {
        var ok := Reconnect(redial);
        if !ok {
          running := false;
        }
      }
    }

    /**
     * sted_svc_ctrl_handler: STOP reports SERVICE_STOPPED with exit code
     * 0, clears bRunning and releases the device unless its handle is
     * already INVALID_HANDLE_VALUE; PAUSE and CONTINUE change the reported
     * state; any other control changes nothing.
     */
    method CtrlHandler(control: int)
      requires Valid()
      modifies this`state, this`exitCode, this`running, stat`steHandle, stat`ioctls
      ensures Valid()
      ensures control == SERVICE_CONTROL_STOP ==>
        var (sent, h) := StopRelease(old(stat.steHandle));
        exitCode == 0 && state == Stopped && !running
        && stat.ioctls == old(stat.ioctls) + sent && stat.steHandle == h
      ensures control != SERVICE_CONTROL_STOP ==>
        running == old(running) && exitCode == old(exitCode)
        && stat.ioctls == old(stat.ioctls) && stat.steHandle == old(stat.steHandle)
      ensures control == SERVICE_CONTROL_PAUSE ==> state == Paused
      ensures control == SERVICE_CONTROL_CONTINUE ==> state == Running
      ensures control !in {SERVICE_CONTROL_STOP, SERVICE_CONTROL_PAUSE, SERVICE_CONTROL_CONTINUE} ==>
                state == old(state)
    {
      if control == SERVICE_CONTROL_PAUSE {
        state := Paused;
      } else if control == SERVICE_CONTROL_CONTINUE {
        state := Running;
      } else if control == SERVICE_CONTROL_STOP {
        exitCode := 0;
        state := Stopped;
        running := false;
        if stat.steHandle != InvalidHandle {
          stat.ioctls := stat.ioctls + [Ioctl(stat.steHandle, UnregSvc)];
          stat.steHandle := InvalidHandle;
        }
      }
    }

    /**
     * One round of the while (bRunning) loop: the event's handler; a wait
     * failure, a timeout or an unknown index change nothing.
     */
    method HandleEvent(ev: Wait)
      requires Valid() && running
      requires ev.DeviceSignalled? ==> TurnsFit(ev.turns)
      modifies this`sockFd, this`closed, this`running, this`faulted, this`state, this`exitCode
      modifies stat`sockFd, stat`hubName, stat`hubPort, stat`proxyName, stat`proxyPort
      modifies stat`dummyheadlen, stat`datalen, stat`dataleft, stat`orgdatalen, stat`deviceWrites
      modifies stat.dummyhead, stat.wdatabuf
      modifies stat`sendbuflen, stat`wire, stat.sendbuf, stat`steHandle, stat`ioctls
      ensures Valid()
      ensures ev.WaitFailed? || ev.WaitTimeout? || ev.UnknownIndex? ==>
        running && sockFd == old(sockFd) && closed == old(closed) && state == old(state)
        && stat.Cursor() == old(stat.Cursor()) && stat.Pending() == old(stat.Pending())
        && stat.deviceWrites == old(stat.deviceWrites) && stat.wire == old(stat.wire)
        && stat.ioctls == old(stat.ioctls)
      ensures !ev.Control? ==> stat.ioctls == old(stat.ioctls) && stat.steHandle == old(stat.steHandle)
      ensures ev.Control? ==> sockFd == old(sockFd) && closed == old(closed)
      ensures ev.Control? && ev.code == SERVICE_CONTROL_STOP ==>
        var (sent, h) := StopRelease(old(stat.steHandle));
        !running && stat.ioctls == old(stat.ioctls) + sent && stat.steHandle == h
      ensures ev.Control? && ev.code != SERVICE_CONTROL_STOP ==>
        running && stat.ioctls == old(stat.ioctls) && stat.steHandle == old(stat.steHandle)
    {
      match ev {
        case SocketSignalled(recv, redial) =>
          OnSocket(recv, redial);
        case DeviceSignalled(turns, redial) =>
          var _ := OnDevice(turns, redial);
        case Control(code) =>
          CtrlHandler(code);
        case WaitFailed =>
        case WaitTimeout =>
        case UnknownIndex(_) =>
      }
    }

    /**
     * The start of sted_svc_main: open_ste on STEPATH and the instance,
     * then open_socket on the arguments; bRunning is set only when both
     * succeed.
     */
    method Start(instance: int, created: Option<int>, net: Dial) returns (ok: bool)
      requires Valid() && !running && !faulted && stat.ioctls == [] && stat.steHandle == NullHandle
      modifies this`running, this`sockFd
      modifies stat`steHandle, stat`ioctls, stat`sockFd, stat`hubName, stat`hubPort, stat`proxyName, stat`proxyPort, stat`wire
      ensures Valid() && running == ok
      ensures created.None? ==> !ok && stat.ioctls == [] && stat.steHandle == NullHandle
      ensures created.Some? ==> DeviceLife(stat.ioctls, stat.steHandle, created.value)
                                && stat.steHandle == DeviceHandle(created.value)
      ensures ok <==> created.Some? && Dialled(hubArg, proxyArg, net)
                      && (proxyArg.Some? ==> ConnectResult(net.handshake) == 0)
      ensures ok ==> sockFd == net.fd
      ensures stat.wire == old(stat.wire) + (if created.Some? then OpenSends(hubArg, proxyArg, net) else [])
    {
      ok := false;
      var r, _ := stat.OpenSte(STEPATH, instance, created);
      if r < 0 {
        return;
      }
      var fd, _, _ := stat.OpenSocket(hubArg, proxyArg, net);
      if fd < 0 {
        return;
      }
      sockFd := fd;
      running := true;
      ok := true;
    }

    /**
     * The loop over the events that arrive while bRunning holds. The
     * device stays registered until a stop releases it.
     */
    method Run(events: seq<Wait>, ghost id: int)
      requires Valid() && EventsFit(events) && DeviceLife(stat.ioctls, stat.steHandle, id)
      requires stat.steHandle == InvalidHandle ==> !running
      modifies this`sockFd, this`closed, this`running, this`faulted, this`state, this`exitCode
      modifies stat`sockFd, stat`hubName, stat`hubPort, stat`proxyName, stat`proxyPort
      modifies stat`dummyheadlen, stat`datalen, stat`dataleft, stat`orgdatalen, stat`deviceWrites
      modifies stat.dummyhead, stat.wdatabuf
      modifies stat`sendbuflen, stat`wire, stat.sendbuf, stat`steHandle, stat`ioctls
      ensures Valid() && DeviceLife(stat.ioctls, stat.steHandle, id)
      ensures stat.steHandle == InvalidHandle ==> !running
    {
      var i := 0;
      while running && i < |events|
        invariant Valid() && 0 <= i <= |events| && DeviceLife(stat.ioctls, stat.steHandle, id)
        invariant stat.steHandle == InvalidHandle ==> !running
        decreases |events| - i
      {
        HandleEvent(events[i]);
        i := i + 1;
      }
    }

    /** The err block, releasing only an open device. */
    method Release()
      modifies stat`steHandle, stat`ioctls
      ensures var (sent, h) := ErrBlock(old(stat.steHandle));
        stat.ioctls == old(stat.ioctls) + sent && stat.steHandle == h
    {
      if stat.steHandle.DeviceHandle? {
        stat.ioctls := stat.ioctls + [Ioctl(stat.steHandle, UnregSvc)];
        stat.steHandle := InvalidHandle;
      }
    }

    /**
     * sted_svc_main from the opening of the device on: start, the loop,
     * and the err block once bRunning is cleared. An opened device ends
     * registered and unregistered exactly once each.
     */
    method Serve(instance: int, created: Option<int>, net: Dial, events: seq<Wait>)
      requires Valid() && !running && !faulted && stat.ioctls == [] && stat.steHandle == NullHandle
      requires EventsFit(events)
      modifies this`sockFd, this`closed, this`running, this`faulted, this`state, this`exitCode
      modifies stat`sockFd, stat`hubName, stat`hubPort, stat`proxyName, stat`proxyPort
      modifies stat`dummyheadlen, stat`datalen, stat`dataleft, stat`orgdatalen, stat`deviceWrites
      modifies stat.dummyhead, stat.wdatabuf
      modifies stat`sendbuflen, stat`wire, stat.sendbuf, stat`steHandle, stat`ioctls
      ensures Valid()
      ensures created.None? ==> stat.ioctls == [] && !running
      ensures created.Some? && !running ==>
        stat.ioctls == [Ioctl(DeviceHandle(created.value), RegSvc), Ioctl(DeviceHandle(created.value), UnregSvc)]
        && stat.steHandle == InvalidHandle
    {
      var ok := Start(instance, created, net);
      if created.Some? {
        if ok {
          Run(events, created.value);
        }
        if !running {
          Release();
        }
      }
    }
  }
}
