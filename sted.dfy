// sted's per-connection state (sted_stat) and the routines that move frames
// between the ste device and the hub connection: read_socket and
// read_socket_header, write_ste, read_ste and write_socket, open_socket and
// open_ste.

module Sted {
  import opened Bytes
  import opened CText
  import opened Sockets
  import opened Wrappers
  import opened FrameCodec
  import opened Reassembly
  import opened Connect

  /** A Windows HANDLE as sted tests it: NULL, INVALID_HANDLE_VALUE, or an open device. */
  datatype Handle = NullHandle | InvalidHandle | DeviceHandle(id: int)

  /** The ste driver's private ioctl commands. */
  datatype IoctlCmd = RegSvc | UnregSvc

  /** One DeviceIoControl call: the handle it was issued on and the command. */
  datatype Ioctl = Ioctl(handle: Handle, cmd: IoctlCmd)

  /** What ReadFile on the device reports: failure, or the bytes it stored in rdatabuf. */
  datatype DeviceRead = ReadFailed | ReadBytes(bytes: seq<byte>)

  /**
   * What open_socket meets on the network: whether gethostbyname finds the
   * host, the value socket() returns, whether connect and WSAEventSelect
   * succeed, the bytes of sted_stat past hub_name (what sprintf's %s reads
   * on into when the field holds no NUL), and what the proxy handshake
   * observes.
   */
  datatype Dial = Dial(resolves: bool, fd: int, connects: bool, beyond: string, handshake: Handshake)

  /**
   * open_socket gets as far as storing the connected socket in sock_fd: the
   * hub (and the proxy, if given) parse, the name resolves, and socket,
   * connect and the non-blocking setup succeed.
   */
  predicate Dialled(hub: string, proxy: Option<string>, net: Dial)
  {
    && SplitHostPort(hub).Some?
    && (proxy.Some? ==> SplitHostPort(proxy.value).Some?)
    && net.resolves && net.fd >= 0 && net.connects
  }

  /**
   * What open_socket hands to send: with a proxy, once connected, the
   * CONNECT request for the recorded hub, whose name %s reads from the
   * hub_name field; nothing when send refuses it or no proxy is used.
   */
  function OpenSends(hub: string, proxy: Option<string>, net: Dial): (r: seq<seq<byte>>)
    ensures |r| <= 1
    ensures r != [] <==> Dialled(hub, proxy, net) && proxy.Some? && net.handshake.sent
  {
    if Dialled(hub, proxy, net) && proxy.Some? && net.handshake.sent then
      var e := SplitHostPort(hub).value;
      [Octets(ConnectRequest(FieldText(RecordedName(e.name), net.beyond), e.port))]
    else []
  }

  /**
   * For a hub name shorter than MAXHOSTNAME, what open_socket sends is the
   * CONNECT request for that name and port, and it fits connect_req.
   */
  lemma OpenSendsRequest(h: string, port: int, proxy: string, net: Dial)
    requires h != [] && ':' !in h && |h| < MAXHOSTNAME && -TWO31 <= port < TWO31
    requires Dialled(h + ":" + Decimal(port), Some(proxy), net) && net.handshake.sent
    ensures OpenSends(h + ":" + Decimal(port), Some(proxy), net) == [Octets(ConnectRequest(h, port))]
    ensures |ConnectRequest(h, port)| < CONNECT_REQ_SIZE
  {
    SplitHostPortFull(h, port);
    ConnectRequestFits(h, port);
  }

  // ---------------------------------------------------------- write_socket

  /** The effect of one write_socket: its return value, the bytes left pending, what went on the wire. */
  datatype Flushed = Flushed(ret: int, left: seq<byte>, wire: seq<seq<byte>>)

  /**
   * write_socket on the pending bytes of sendbuf: an empty buffer sends
   * nothing; a send that succeeds, or that fails with a transient error,
   * empties the buffer; a hard failure returns -1 and keeps the bytes.
   */
  function Flush(pending: seq<byte>, out: SendOutcome): Flushed
  {
    if pending == [] then Flushed(0, [], [])
    else match out
      case Sent(n) => Flushed(0, [], [Accepted(pending, n)])
      case SendFailed(e) => if StedTransient(e) then Flushed(0, [], []) else Flushed(-1, pending, [])
  }

  /**
   * write_socket fails exactly on a hard send error with bytes pending, and
   * then keeps them; otherwise the buffer ends empty and at most one send,
   * of a prefix of the pending bytes, reaches the wire.
   */
  lemma FlushOutcome(pending: seq<byte>, out: SendOutcome)
    ensures var f := Flush(pending, out);
      && (f.ret == -1 <==> pending != [] && out.SendFailed? && !StedTransient(out.err))
      && (f.ret == -1 ==> f.left == pending && f.wire == [])
      && (f.ret != -1 ==> f.ret == 0 && f.left == [])
      && |f.wire| <= 1 && (f.wire != [] ==> f.wire[0] <= pending)
  {
  }

  /** A transient send error drops the pending bytes: nothing is sent and nothing is kept. */
  lemma FlushTransientDrops(pending: seq<byte>, e: Errno)
    requires pending != [] && StedTransient(e)
    ensures Flush(pending, SendFailed(e)) == Flushed(0, [], [])
  {
  }

  // -------------------------------------------------------------- read_ste

  /** read_ste's flush rule: a short frame, or more than SENDBUF_THRESHOLD bytes buffered. */
  predicate FlushDue(readsize: int, buffered: int)
  {
    readsize < ETHERMAX || buffered > SENDBUF_THRESHOLD
  }

  /**
   * read_ste after ReadFile returned a non-empty frame: the message is
   * appended to the pending bytes, which are flushed when the rule says so;
   * the result is -1 only when that flush failed, otherwise the frame size.
   */
  function ReadSteStep(pending: seq<byte>, frame: seq<byte>, out: SendOutcome): (r: Flushed)
    requires |frame| <= SOCKBUFSIZE
    ensures r.ret == -1 || r.ret == |frame|
    ensures |r.wire| <= 1
    ensures r.ret == -1 ==> r.left == pending + EncodeMessage(frame) && r.wire == []
  {
    var grown := pending + EncodeMessage(frame);
    if FlushDue(|frame|, |grown|) then
      var f := Flush(grown, out);
      Flushed(if f.ret < 0 then -1 else |frame|, f.left, f.wire)
    else Flushed(|frame|, grown, [])
  }

  /**
   * read_ste's contract: it fails exactly when a due flush meets a hard send
   * error, and keeps everything pending then; it flushes exactly when the
   * rule says so, and then sends (a prefix of) the old pending bytes
   * followed by the new message.
   */
  lemma ReadSteOutcome(pending: seq<byte>, frame: seq<byte>, out: SendOutcome)
    requires |frame| <= SOCKBUFSIZE
    ensures var r := ReadSteStep(pending, frame, out);
      var grown := pending + EncodeMessage(frame);
      && (r.ret == -1 <==> FlushDue(|frame|, |grown|) && out.SendFailed? && !StedTransient(out.err))
      && (r.ret != -1 ==> r.ret == |frame|)
      && (!FlushDue(|frame|, |grown|) ==> r.left == grown && r.wire == [])
      && (FlushDue(|frame|, |grown|) && r.ret != -1 ==> r.left == [])
      && (FlushDue(|frame|, |grown|) && out.Sent? && out.count >= |grown| ==> r.wire == [grown])
  {
    FlushOutcome(pending + EncodeMessage(frame), out);
  }

  /**
   * The batching bound: as long as flushes do not fail hard, sendbuf never
   * holds more than SENDBUF_THRESHOLD bytes between two read_ste calls.
   */
  lemma ReadSteKeepsThreshold(pending: seq<byte>, frame: seq<byte>, out: SendOutcome)
    requires |frame| <= SOCKBUFSIZE && |pending| <= SENDBUF_THRESHOLD
    requires ReadSteStep(pending, frame, out).ret != -1
    ensures |ReadSteStep(pending, frame, out).left| <= SENDBUF_THRESHOLD
  {
    ReadSteOutcome(pending, frame, out);
  }

  /**
   * The worked example of the rule: a 1514-byte frame is held (1524 bytes
   * buffered), a second one makes 3048 bytes and is sent with the first.
   */
  lemma FullFramesBatchInPairs(f1: seq<byte>, f2: seq<byte>, out1: SendOutcome, out2: SendOutcome)
    requires |f1| == ETHERMAX && |f2| == ETHERMAX && out2.Sent? && out2.count >= 3048
    ensures |ReadSteStep([], f1, out1).left| == 1524 && ReadSteStep([], f1, out1).wire == []
    ensures ReadSteStep(ReadSteStep([], f1, out1).left, f2, out2).wire
            == [EncodeMessage(f1) + EncodeMessage(f2)]
    ensures ReadSteStep(ReadSteStep([], f1, out1).left, f2, out2).left == []
  {
    assert Pad(ETHERMAX) == 2;
    assert [] + EncodeMessage(f1) == EncodeMessage(f1);
    ReadSteOutcome([], f1, out1);
    ReadSteOutcome(EncodeMessage(f1), f2, out2);
  }

  // ------------------------------------------------------------- open_ste

  /** The STE device path prefix (STEPATH), \\.\STE. */
  const STEPATH: string := "\\\\.\\STE"
  /** Size of open_ste's devpath buffer (STE_MAX_DEVICE_NAME). */
  const STE_MAX_DEVICE_NAME: int := 30

  /** open_ste's device file name: devname followed by the instance number in decimal. */
  function DevicePath(devname: string, ppa: int): string
  {
    devname + Decimal(ppa)
  }

  /**
   * The instance number can be read back from the path, and for STEPATH and
   * an int instance the path fits devpath with its NUL.
   */
  lemma DevicePathReadsBack(ppa: int)
    requires -TWO31 <= ppa < TWO31
    ensures DevicePath(STEPATH, ppa)[..|STEPATH|] == STEPATH
    ensures Atoi(DevicePath(STEPATH, ppa)[|STEPATH|..]) == ppa
    ensures |DevicePath(STEPATH, ppa)| < STE_MAX_DEVICE_NAME
  {
    DecimalInt32Length(ppa);
    assert DevicePath(STEPATH, ppa)[|STEPATH|..] == Decimal(ppa) + [];
    AtoiDecimal(ppa, []);
  }

  // ------------------------------------------------------------- sted_stat

  /** One payload pass's frames in front of the frames of the rest of the loop. */
  function Prepend(fs: seq<seq<byte>>, s: Step): Step
  {
    Step(s.cur, fs + s.frames, s.stop)
  }

  /** The loop after a complete header: the payload part, then, if it goes on, the loop again. */
  lemma RunCases(d: Cursor, cnt: seq<byte>)
    requires Ready(d)
    ensures var p := PayloadStep(d, cnt);
      && (p.Done? ==> Run(d, cnt) == p.step)
      && (p.More? ==> Run(d, cnt) == Prepend([p.frame], Loop(p.next, p.rest)))
  {
  }

  lemma ConcatAssoc(a: seq<seq<byte>>, b: seq<seq<byte>>, c: seq<seq<byte>>)
    ensures (a + b) + c == a + (b + c)
  {
  }

  /** A frame moved from the front of the loop's frames to the end of those already written. */
  lemma PrependOne(fs: seq<seq<byte>>, f: seq<byte>, t: Step)
    ensures Prepend(fs, Step(t.cur, [f] + t.frames, t.stop)) == Prepend(fs + [f], t)
  {
    assert fs + ([f] + t.frames) == (fs + [f]) + t.frames;
  }

  /**
   * sted_stat: the hub connection, the send buffer, the reassembly cursor
   * with its buffers, and the device handle. deviceWrites, wire and ioctls
   * record, in order, the bytes of each WriteFile on the device, the bytes
   * each send put on the hub connection, and each DeviceIoControl call.
   */
  class StedStat {
    var sockFd: int
    var hubName: string
    var hubPort: int
    var proxyName: string
    var proxyPort: int
    var sendbuflen: int
    var datalen: int
    var orgdatalen: int
    var dataleft: int
    const dummyhead: array<byte>
    var dummyheadlen: int
    const sendbuf: array<byte>
    var steHandle: Handle
    const wdatabuf: array<byte>
    var deviceWrites: seq<seq<byte>>
    var wire: seq<seq<byte>>
    var ioctls: seq<Ioctl>

    /** The buffers have their C sizes and are distinct. */
    predicate Buffers()
    {
      && dummyhead.Length == HEADER_SIZE && sendbuf.Length == SOCKBUFSIZE && wdatabuf.Length == STRBUFSIZE
      && dummyhead != sendbuf && dummyhead != wdatabuf && sendbuf != wdatabuf
    }

    /** The buffers are set up and the two lengths are in range. */
    predicate Valid()
      reads this
    {
      Buffers() && 0 <= dummyheadlen <= HEADER_SIZE && 0 <= sendbuflen <= SOCKBUFSIZE
    }

    /** The reassembly cursor these fields hold. */
    function Cursor(): Reassembly.Cursor
      reads this, dummyhead, wdatabuf
      requires 0 <= dummyheadlen <= dummyhead.Length
    {
      Reassembly.Cursor(dummyhead[..dummyheadlen], datalen, dataleft, orgdatalen, wdatabuf[..])
    }

    /** The bytes waiting in sendbuf. */
    function Pending(): seq<byte>
      reads this, sendbuf
      requires 0 <= sendbuflen <= sendbuf.Length
    {
      sendbuf[..sendbuflen]
    }

    /** A zeroed sted_stat with no connection and no device. */
    constructor ()
      ensures Valid() && fresh(dummyhead) && fresh(sendbuf) && fresh(wdatabuf)
      ensures Reassembly.Valid(Cursor()) && Idle(Cursor()) && Pending() == []
      ensures sockFd == -1 && steHandle == NullHandle
      ensures deviceWrites == [] && wire == [] && ioctls == []
    {
      sockFd := -1;
      hubName, hubPort, proxyName, proxyPort := [], 0, [], 0;
      sendbuflen, datalen, orgdatalen, dataleft, dummyheadlen := 0, 0, 0, 0, 0;
      dummyhead := new byte[HEADER_SIZE](_ => 0);
      sendbuf := new byte[SOCKBUFSIZE](_ => 0);
      wdatabuf := new byte[STRBUFSIZE](_ => 0);
      steHandle := NullHandle;
      deviceWrites, wire, ioctls := [], [], [];
    }

    // ------------------------------------------------------ read_socket

    /**
     * read_socket_header on the cnt bytes of buf at readp: completes the
     * header from them when enough are there (returning the new read
     * position and count), otherwise keeps them all and returns NULL.
     */
    method ReadSocketHeader(buf: seq<byte>, cnt: int, readp: int) returns (newp: Option<int>, cntAfter: int)
      requires Valid() && dummyheadlen < HEADER_SIZE
      requires 0 <= readp && 0 <= cnt && readp + cnt <= |buf|
      modifies this`dummyheadlen, this`datalen, this`dataleft, this`orgdatalen, dummyhead
      ensures Valid()
      ensures var h := ReadHeader(old(Cursor()), buf[readp..readp + cnt]);
        && Cursor() == h.cur
        && (newp.Some? <==> h.complete)
        && (h.complete ==> newp.value == readp + (HEADER_SIZE - old(dummyheadlen))
                           && cntAfter == cnt - (HEADER_SIZE - old(dummyheadlen))
                           && buf[newp.value..readp + cnt] == h.rest)
        && (!h.complete ==> cntAfter == cnt)
    {
      var unreadlen := HEADER_SIZE - dummyheadlen;
      if cnt >= unreadlen {
        TakeHeader(buf[readp..readp + cnt]);
        newp := Some(readp + unreadlen);
        cntAfter := cnt - unreadlen;
        assert buf[readp + unreadlen..readp + cnt] == buf[readp..readp + cnt][unreadlen..];
      } else {
        ghost var c0 := Cursor();
        CopyInto(dummyhead, dummyheadlen, buf[readp..readp + cnt]);
        SpliceUpTo(old(dummyhead[..]), dummyheadlen, buf[readp..readp + cnt]);
        dummyheadlen := dummyheadlen + cnt;
        newp := None;
        cntAfter := cnt;
        assert Cursor() == ReadHeader(c0, buf[readp..readp + cnt]).cur;
      }
    }

    /**
     * The header completes: the missing bytes go into dummyhead, which is
     * then full, and datalen, dataleft and orgdatalen are read from it.
     */
    method TakeHeader(chunk: seq<byte>)
      requires Valid() && dummyheadlen < HEADER_SIZE && |chunk| >= HEADER_SIZE - dummyheadlen
      modifies this`dummyheadlen, this`datalen, this`dataleft, this`orgdatalen, dummyhead
      ensures Valid() && Cursor() == ReadHeader(old(Cursor()), chunk).cur
    {
      ghost var c0 := Cursor();
      var unreadlen := HEADER_SIZE - dummyheadlen;
      CopyInto(dummyhead, dummyheadlen, chunk[..unreadlen]);
      SpliceUpTo(old(dummyhead[..]), dummyheadlen, chunk[..unreadlen]);
      dummyheadlen := HEADER_SIZE;
      ghost var head := dummyhead[..HEADER_SIZE];
      assert head == c0.dummyhead + chunk[..unreadlen];
      assert dummyhead[..4] == head[..4] && dummyhead[4..] == head[4..];
      var len := ToInt32(FromBigEndian32(dummyhead[..4]));
      datalen := len;
      dataleft := len;
      orgdatalen := ToInt32(FromBigEndian32(dummyhead[4..]));
    }

    /** write_ste: WriteFile of the first orgdatalen bytes of wdatabuf to the device. */
    method WriteSte()
      requires Valid() && 0 <= orgdatalen <= STRBUFSIZE
      modifies this`deviceWrites
      ensures deviceWrites == old(deviceWrites) + [wdatabuf[..orgdatalen]]
    {
      deviceWrites := deviceWrites + [wdatabuf[..orgdatalen]];
    }

    /** The last piece of a frame goes into wdatabuf at off, write_ste hands the frame on, and the cursor is reset. */
    method CompleteFrame(piece: seq<byte>, off: int)
      requires Valid() && 0 <= off && off + |piece| <= STRBUFSIZE && 0 <= orgdatalen <= STRBUFSIZE
      modifies this`dummyheadlen, this`datalen, this`dataleft, this`deviceWrites, wdatabuf
      ensures Valid()
      ensures var w := Splice(old(Cursor()).wdatabuf, off, piece);
        && Cursor() == Reassembly.Reset(old(Cursor()).(wdatabuf := w))
        && deviceWrites == old(deviceWrites) + [w[..orgdatalen]]
    {
      CopyInto(wdatabuf, off, piece);
      WriteSte();
      dataleft, datalen, dummyheadlen := 0, 0, 0;
    }

    /**
     * A payload shorter than what the frame still needs: the bytes go to
     * wdatabuf at datalen - dataleft and dataleft shrinks by their count.
     */
    method StorePartial(data: seq<byte>, readp: int) returns (done: Stop)
      requires Valid() && Ready(Cursor()) && ValidOrgLen(orgdatalen)
      requires 0 <= readp <= |data| && |data| - readp < dataleft
      modifies this`dataleft, wdatabuf
      ensures Valid()
      ensures var p := PayloadStep(old(Cursor()), data[readp..]);
        p.Done? && done == p.step.stop && Cursor() == p.step.cur && p.step.frames == []
    {
      ghost var d := Cursor();
      var cnt := |data| - readp;
      var off := datalen - dataleft;
      if off + cnt > STRBUFSIZE {
        return Fault;
      }
      CopyInto(wdatabuf, off, data[readp..]);
      dataleft := dataleft - cnt;
      done := Consumed;
      assert Cursor() == d.(wdatabuf := Splice(d.wdatabuf, off, data[readp..]), dataleft := d.dataleft - cnt);
    }

    /**
     * A payload holding the rest of the frame: the missing bytes complete
     * it in wdatabuf, write_ste hands it on and the cursor is reset; the
     * loop goes on at the byte after it if there is one.
     */
    method FinishFrame(data: seq<byte>, readp: int) returns (done: Option<Stop>, newp: int)
      requires Valid() && Ready(Cursor()) && ValidOrgLen(orgdatalen)
      requires 0 <= readp <= |data| && dataleft <= |data| - readp
      modifies this`dummyheadlen, this`datalen, this`dataleft, this`deviceWrites, wdatabuf
      ensures Valid()
      ensures var p := PayloadStep(old(Cursor()), data[readp..]);
        && (p.Done? ==> done == Some(p.step.stop) && Cursor() == p.step.cur
                        && deviceWrites == old(deviceWrites) + p.step.frames)
        && (p.More? ==> done.None? && Cursor() == p.next && deviceWrites == old(deviceWrites) + [p.frame]
                        && newp == readp + old(dataleft) && newp <= |data| && data[newp..] == p.rest)
    {
      if dataleft < 0 || datalen > STRBUFSIZE {
        PayloadCompletes(Cursor(), data[readp..]);
        newp := readp;
        done := Some(Fault);
        assert deviceWrites == old(deviceWrites) + [];
        return;
      }
      done, newp := EmitFrame(data, readp);
    }

    /** The frame fits wdatabuf: its missing bytes complete it and write_ste hands it on. */
    method EmitFrame(data: seq<byte>, readp: int) returns (done: Option<Stop>, newp: int)
      requires Valid() && Ready(Cursor()) && ValidOrgLen(orgdatalen)
      requires 0 <= readp <= |data| && 0 <= dataleft <= |data| - readp && datalen <= STRBUFSIZE
      modifies this`dummyheadlen, this`datalen, this`dataleft, this`deviceWrites, wdatabuf
      ensures Valid()
      ensures var p := PayloadStep(old(Cursor()), data[readp..]);
        && (p.Done? ==> done == Some(p.step.stop) && Cursor() == p.step.cur
                        && deviceWrites == old(deviceWrites) + p.step.frames)
        && (p.More? ==> done.None? && Cursor() == p.next && deviceWrites == old(deviceWrites) + [p.frame]
                        && newp == readp + old(dataleft) && newp <= |data| && data[newp..] == p.rest)
    {
      ghost var d, cnt := Cursor(), data[readp..];
      PayloadCompletes(d, cnt);
      var need := dataleft;
      assert cnt[..need] == data[readp..readp + need];
      CompleteFrame(data[readp..readp + need], datalen - need);
      newp := readp + need;
      assert cnt[need..] == data[newp..];
      done := if newp == |data| then Some(Consumed) else None;
    }

    /**
     * The payload part of one round of read_socket's loop, on the bytes
     * of data from readp on: what PayloadStep says, the frame it completes
     * written to the device. On going round again, newp is where the next
     * message starts.
     */
    method PayloadPass(data: seq<byte>, readp: int) returns (done: Option<Stop>, newp: int)
      requires Valid() && Ready(Cursor()) && 0 <= readp <= |data|
      modifies this`dummyheadlen, this`datalen, this`dataleft, this`deviceWrites, wdatabuf
      ensures Valid()
      ensures var p := PayloadStep(old(Cursor()), data[readp..]);
        && (p.Done? ==> done == Some(p.step.stop) && Cursor() == p.step.cur
                        && deviceWrites == old(deviceWrites) + p.step.frames)
        && (p.More? ==> done.None? && Cursor() == p.next && deviceWrites == old(deviceWrites) + [p.frame]
                        && newp == readp + old(dataleft) && newp <= |data| && data[newp..] == p.rest)
    {
      newp := readp;
      if orgdatalen <= 0 || orgdatalen > ETHERMAX {
        ghost var d := Cursor();
        dataleft, datalen, dummyheadlen := 0, 0, 0;
        done := Some(Broken);
        assert Cursor() == Reassembly.Reset(d);
        assert deviceWrites == old(deviceWrites) + [];
        return;
      }
      if |data| - readp < dataleft {
        var stop := StorePartial(data, readp);
        done := Some(stop);
        assert deviceWrites == old(deviceWrites) + [];
        return;
      }
      done, newp := FinishFrame(data, readp);
    }

    /** The loop may go on from readp: tail is what the rest of it does. */
    ghost predicate Resumes(data: seq<byte>, readp: int, tail: Step)
      reads this, dummyhead, wdatabuf
    {
      Valid() && Reassembly.Valid(Cursor()) && 0 <= readp <= |data| && tail == Loop(Cursor(), data[readp..])
    }

    /**
     * One round of read_socket's loop from readp: read_socket_header when
     * no payload is pending, then the payload part. Either the loop stops
     * here, as tail says, or one frame is written and the loop goes on
     * from newp.
     */
    method Round(data: seq<byte>, readp: int, ghost tail: Step)
      returns (done: Option<Stop>, newp: int, ghost frame: seq<byte>, ghost next: Step)
      requires Resumes(data, readp, tail)
      modifies this`dummyheadlen, this`datalen, this`dataleft, this`orgdatalen, this`deviceWrites
      modifies dummyhead, wdatabuf
      ensures Valid()
      ensures done.Some? ==>
                done.value == tail.stop && Cursor() == tail.cur && deviceWrites == old(deviceWrites) + tail.frames
      ensures done.None? ==>
                Resumes(data, newp, next) && readp < newp
                && deviceWrites == old(deviceWrites) + [frame] && tail == Prepend([frame], next)
    {
      frame, next := [], tail;
      var p := HeaderRound(data, readp);
      if p.None? {
        done := Some(Consumed);
        newp := readp;
        return;
      }
      ghost var d := Cursor();
      done, newp := PayloadPass(data, p.value);
      RunCases(d, data[p.value..]);
      if done.None? {
        frame := deviceWrites[|deviceWrites| - 1];
        next := Loop(Cursor(), data[newp..]);
      }
    }

    /**
     * The header part of a round: read_socket_header when no payload is
     * pending. None is its NULL, which ends the loop; otherwise the payload
     * part goes on from the position returned.
     */
    method HeaderRound(data: seq<byte>, readp: int) returns (p: Option<int>)
      requires Valid() && Reassembly.Valid(Cursor()) && 0 <= readp <= |data|
      modifies this`dummyheadlen, this`datalen, this`dataleft, this`orgdatalen, dummyhead
      ensures Valid()
      ensures p.None? ==> Loop(old(Cursor()), data[readp..]) == Step(Cursor(), [], Consumed) && Reassembly.Valid(Cursor())
      ensures p.Some? ==>
                && readp <= p.value <= |data| && Ready(Cursor()) && (readp < p.value || dataleft > 0)
                && Loop(old(Cursor()), data[readp..]) == Run(Cursor(), data[p.value..])
    {
      ghost var cur := Cursor();
      ghost var rest := data[readp..];
      var cnt := |data| - readp;
      assert data[readp..readp + cnt] == rest;
      if dataleft == 0 {
        var hp, cntAfter := ReadSocketHeader(data, cnt, readp);
        p := hp;
      } else {
        p := Some(readp);
      }
    }

    /**
     * read_socket's while(1) loop over the bytes of one recv: the cursor,
     * the frames written to the device and the way the loop stops are
     * those Loop gives.
     */
    method Reassemble(data: seq<byte>) returns (stop: Stop)
      requires Valid() && Reassembly.Valid(Cursor())
      modifies this`dummyheadlen, this`datalen, this`dataleft, this`orgdatalen, this`deviceWrites
      modifies dummyhead, wdatabuf
      ensures Valid()
      ensures var s := Loop(old(Cursor()), data);
        stop == s.stop && Cursor() == s.cur && deviceWrites == old(deviceWrites) + s.frames
    {
      ghost var w0 := deviceWrites;
      ghost var frames: seq<seq<byte>> := [];
      ghost var tail := Loop(Cursor(), data);
      ghost var all := tail;
      var readp := 0;
      assert data[0..] == data;
      while true
        invariant Resumes(data, readp, tail)
        invariant deviceWrites == w0 + frames
        invariant all == Prepend(frames, tail)
        decreases |data| - readp
      {
        var done, newp, frame, next := Round(data, readp, tail);
        if done.Some? {
          stop := done.value;
          ConcatAssoc(w0, frames, tail.frames);
          break;
        }
        ConcatAssoc(w0, frames, [frame]);
        PrependOne(frames, frame, next);
        frames := frames + [frame];
        tail := next;
        readp := newp;
      }
    }

    /**
     * read_socket: one recv, then the reassembly loop over the bytes read.
     * A transient failure returns 0 and a hard failure or a closed
     * connection -1, all leaving the state as it was; otherwise the call
     * returns the byte count and does what Loop says: the new cursor, the
     * frames written to the device in order, and how the loop stopped.
     */
    method ReadSocket(outcome: RecvOutcome) returns (ret: int, stop: Stop)
      requires Valid() && Reassembly.Valid(Cursor())
      modifies this`dummyheadlen, this`datalen, this`dataleft, this`orgdatalen, this`deviceWrites
      modifies dummyhead, wdatabuf
      ensures Valid()
      ensures outcome.RecvFailed? ==>
                ret == (if StedTransient(outcome.err) then 0 else -1) && stop == Consumed
                && Cursor() == old(Cursor()) && deviceWrites == old(deviceWrites)
      ensures outcome == Received([]) ==>
                ret == -1 && stop == Consumed && Cursor() == old(Cursor()) && deviceWrites == old(deviceWrites)
      ensures outcome.Received? && outcome.data != [] ==>
                var s := Loop(old(Cursor()), outcome.data);
                ret == |outcome.data| && stop == s.stop && Cursor() == s.cur
                && deviceWrites == old(deviceWrites) + s.frames
    {
      stop := Consumed;
      if outcome.RecvFailed? {
        ret := if StedTransient(outcome.err) then 0 else -1;
        return;
      }
      if outcome.data == [] {
        ret := -1;
        return;
      }
      ret := |outcome.data|;
      stop := Reassemble(outcome.data);
    }
    // ----------------------------------------------------- write_socket

    /** write_socket: send the pending bytes of sendbuf to the hub connection. */
    method WriteSocket(out: SendOutcome) returns (ret: int)
      requires Valid()
      modifies this`sendbuflen, this`wire
      ensures Valid()
      ensures var f := Flush(old(Pending()), out);
        ret == f.ret && Pending() == f.left && wire == old(wire) + f.wire
    {
      if sendbuflen == 0 {
        ret := 0;
        return;
      }
      match out {
        case Sent(n) =>
          wire := wire + [Accepted(sendbuf[..sendbuflen], n)];
        case SendFailed(e) =>
          if !StedTransient(e) {
            ret := -1;
            return;
          }
      }
      sendbuflen := 0;
      ret := 0;
    }

    // --------------------------------------------------------- read_ste

    /**
     * read_ste's three writes at sendbuf + sendbuflen: the header, the
     * frame, pad zero bytes; sendbuflen grows by their size.
     */
    method AppendMessage(rdata: seq<byte>, pad: int)
      requires Valid() && |rdata| <= SOCKBUFSIZE && pad == Pad(|rdata|)
      requires sendbuflen + HEADER_SIZE + |rdata| + pad <= SOCKBUFSIZE
      modifies this`sendbuflen, sendbuf
      ensures Valid()
      ensures sendbuf[..] == Splice(old(sendbuf[..]), old(sendbuflen), EncodeMessage(rdata))
      ensures Pending() == old(Pending()) + EncodeMessage(rdata)
    {
      ghost var before := sendbuf[..];
      var steh := Header(|rdata| + pad, |rdata|);
      CopyInto(sendbuf, sendbuflen, steh);
      ghost var s1 := sendbuf[..];
      CopyInto(sendbuf, sendbuflen + HEADER_SIZE, rdata);
      ghost var s2 := sendbuf[..];
      CopyInto(sendbuf, sendbuflen + HEADER_SIZE + |rdata|, Zeros(pad));
      SpliceAdjacent(before, sendbuflen, steh, rdata);
      assert s2 == Splice(before, sendbuflen, steh + rdata);
      SpliceAdjacent(before, sendbuflen, steh + rdata, Zeros(pad));
      EncodeMessageParts(rdata, pad);
      ghost var msg := steh + rdata + Zeros(pad);
      assert sendbuf[..] == Splice(before, sendbuflen, msg);
      SpliceUpTo(before, sendbuflen, msg);
      sendbuflen := sendbuflen + HEADER_SIZE + |rdata| + pad;
    }

    /**
     * read_ste: ReadFile from the device, then append header, frame and
     * padding to sendbuf and flush by the rule. A failed or empty read
     * returns 0 and changes nothing. overflow reports a message that would
     * run past sendbuf: the program writes beyond the buffer then, and the
     * model changes nothing.
     */
    method ReadSte(dev: DeviceRead, out: SendOutcome) returns (ret: int, overflow: bool)
      requires Valid()
      requires dev.ReadBytes? ==> |dev.bytes| <= SOCKBUFSIZE
      modifies this`sendbuflen, this`wire, sendbuf
      ensures Valid()
      ensures ret > 0 ==> dev.ReadBytes? && dev.bytes != []
      ensures dev == ReadFailed || dev == ReadBytes([]) ==>
                ret == 0 && !overflow && sendbuf[..] == old(sendbuf[..]) && sendbuflen == old(sendbuflen)
                && wire == old(wire)
      ensures dev.ReadBytes? && dev.bytes != [] ==>
                var msg := EncodeMessage(dev.bytes);
                (overflow <==> old(sendbuflen) + |msg| > SOCKBUFSIZE)
                && (overflow ==> ret == 0 && sendbuf[..] == old(sendbuf[..]) && sendbuflen == old(sendbuflen)
                                 && wire == old(wire))
                && (!overflow ==>
                      var r := ReadSteStep(old(Pending()), dev.bytes, out);
                      sendbuf[..] == Splice(old(sendbuf[..]), old(sendbuflen), msg)
                      && ret == r.ret && Pending() == r.left && wire == old(wire) + r.wire)
    {
      overflow := false;
      if dev.ReadFailed? || dev.bytes == [] {
        ret := 0;
        return;
      }
      var rdata := dev.bytes;
      var readsize := |rdata|;
      var pad := 0;
      var remain := (HEADER_SIZE + readsize) % 4;
      if remain != 0 {
        pad := 4 - remain;
      }
      assert pad == Pad(readsize);
      if sendbuflen + HEADER_SIZE + readsize + pad > SOCKBUFSIZE {
        overflow := true;
        ret := 0;
        return;
      }
      ret := Enqueue(rdata, pad, out);
    }

    /**
     * The part of read_ste after the overflow test: the message goes into
     * sendbuf, which is flushed when the rule says so.
     */
    method Enqueue(rdata: seq<byte>, pad: int, out: SendOutcome) returns (ret: int)
      requires Valid() && |rdata| <= SOCKBUFSIZE && pad == Pad(|rdata|)
      requires sendbuflen + HEADER_SIZE + |rdata| + pad <= SOCKBUFSIZE
      modifies this`sendbuflen, this`wire, sendbuf
      ensures Valid()
      ensures var r := ReadSteStep(old(Pending()), rdata, out);
        sendbuf[..] == Splice(old(sendbuf[..]), old(sendbuflen), EncodeMessage(rdata))
        && ret == r.ret && Pending() == r.left && wire == old(wire) + r.wire
    {
      AppendMessage(rdata, pad);
      ret := |rdata|;
      if |rdata| < ETHERMAX || sendbuflen > SENDBUF_THRESHOLD {
        var w := WriteSocket(out);
        if w < 0 {
          ret := -1;
        }
      } else {
        assert wire == old(wire) + [];
      }
    }

    // ------------------------------------------------------ open_socket

    /**
     * open_socket(hub, proxy): read host[:port] for the hub and, if given,
     * the proxy; record them; resolve and connect to the proxy or the hub;
     * with a proxy, run the CONNECT handshake, whose request is logged on
     * the wire when send accepts it. Returns the socket or -1. hubLeft and
     * proxyLeft are what strtok leaves in the caller's buffers.
     */
    method OpenSocket(hub: string, proxy: Option<string>, net: Dial)
      returns (ret: int, hubLeft: string, proxyLeft: Option<string>)
      modifies this`hubName, this`hubPort, this`proxyName, this`proxyPort, this`sockFd, this`wire
      ensures hubLeft == StrtokLeaves(hub, ':')
      ensures proxyLeft == if proxy.None? || SplitHostPort(hub).None? then proxy
                           else Some(StrtokLeaves(proxy.value, ':'))
      ensures SplitHostPort(hub).None? ==>
                ret == -1 && hubName == old(hubName) && hubPort == old(hubPort)
                && proxyName == old(proxyName) && proxyPort == old(proxyPort) && sockFd == old(sockFd)
      ensures SplitHostPort(hub).Some? ==>
                hubName == RecordedName(SplitHostPort(hub).value.name) && hubPort == SplitHostPort(hub).value.port
      ensures proxy.None? && SplitHostPort(hub).Some? && net.resolves ==> proxyName == [] && proxyPort == 0
      ensures proxy.Some? && SplitHostPort(hub).Some? && SplitHostPort(proxy.value).Some? && net.resolves ==>
                proxyName == RecordedName(SplitHostPort(proxy.value).value.name)
                && proxyPort == SplitHostPort(proxy.value).value.port
      ensures sockFd == if Dialled(hub, proxy, net) then net.fd else old(sockFd)
      ensures ret >= 0 <==> Dialled(hub, proxy, net) && (proxy.Some? ==> ConnectResult(net.handshake) == 0)
      ensures ret >= 0 ==> ret == sockFd
      ensures ret < 0 ==> ret == -1
      ensures wire == old(wire) + OpenSends(hub, proxy, net)
    {
      hubLeft, proxyLeft := StrtokLeaves(hub, ':'), proxy;
      ret := -1;
      var h := SplitHostPort(hub);
      if h.None? {
        return;
      }
      hubName := RecordedName(h.value.name);
      hubPort := h.value.port;
      if proxy.None? {
        if !net.resolves {
          return;
        }
        proxyName := [];
        proxyPort := 0;
      } else {
        proxyLeft := Some(StrtokLeaves(proxy.value, ':'));
        var p := SplitHostPort(proxy.value);
        if p.None? {
          return;
        }
        if !net.resolves {
          return;
        }
        proxyName := RecordedName(p.value.name);
        proxyPort := p.value.port;
      }
      if net.fd < 0 || !net.connects {
        return;
      }
      sockFd := net.fd;
      if proxy.Some? {
        if net.handshake.sent {
          wire := wire + [Octets(ConnectRequest(FieldText(hubName, net.beyond), hubPort))];
        }
        var stat := ConnectResult(net.handshake);
        if stat != 0 {
          return;
        }
      }
      ret := net.fd;
    }

    // --------------------------------------------------------- open_ste

    /**
     * open_ste(devname, ppa): CreateFile on devname followed by ppa in
     * decimal; on success the driver is sent REGSVC and the handle kept.
     * created is the handle CreateFile returns, None for INVALID_HANDLE_VALUE.
     */
    method OpenSte(devname: string, ppa: int, created: Option<int>) returns (ret: int, devpath: string)
      modifies this`steHandle, this`ioctls
      ensures devpath == DevicePath(devname, ppa)
      ensures created.None? ==> ret == -1 && steHandle == old(steHandle) && ioctls == old(ioctls)
      ensures created.Some? ==>
                ret == 0 && steHandle == DeviceHandle(created.value)
                && ioctls == old(ioctls) + [Ioctl(DeviceHandle(created.value), RegSvc)]
    {
      devpath := devname + Decimal(ppa);
      if created.None? {
        ret := -1;
        return;
      }
      ioctls := ioctls + [Ioctl(DeviceHandle(created.value), RegSvc)];
      steHandle := DeviceHandle(created.value);
      ret := 0;
    }
  }
}
