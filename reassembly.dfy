// The frame reassembly that read_socket and read_socket_header perform on
// the bytes sted receives from the hub, as a function of the cursor fields
// of sted_stat and one received chunk.

module Reassembly {
  import opened Bytes
  import opened FrameCodec

  /**
   * The reassembly fields of sted_stat: the header bytes received so far
   * (dummyhead; its length is dummyheadlen), datalen, dataleft, orgdatalen
   * and the contents of wdatabuf.
   */
  datatype Cursor = Cursor(dummyhead: seq<byte>, datalen: int, dataleft: int,
                           orgdatalen: int, wdatabuf: seq<byte>)

  /** The only header check read_socket makes: 0 < orgdatalen <= ETHERMAX. */
  predicate ValidOrgLen(n: int) { 0 < n <= ETHERMAX }

  /**
   * What holds between two read_socket calls: either no payload is pending
   * and the header is incomplete, or a checked header is complete and
   * dataleft bytes of its payload are still to come, the datalen - dataleft
   * already received lying inside wdatabuf.
   */
  predicate Valid(c: Cursor)
  {
    && |c.wdatabuf| == STRBUFSIZE
    && 0 <= c.dataleft
    && (c.dataleft == 0 ==> |c.dummyhead| < HEADER_SIZE)
    && (c.dataleft > 0 ==>
          && |c.dummyhead| == HEADER_SIZE
          && ValidOrgLen(c.orgdatalen)
          && 0 <= c.datalen - c.dataleft <= STRBUFSIZE)
  }

  /** Between two messages: nothing of the next header has arrived. */
  predicate Idle(c: Cursor) { c.dataleft == 0 && c.dummyhead == [] }

  /** The state a complete header leaves for the payload loop. */
  predicate Ready(d: Cursor)
  {
    |d.wdatabuf| == STRBUFSIZE && |d.dummyhead| == HEADER_SIZE
    && 0 <= d.datalen - d.dataleft <= STRBUFSIZE
  }

  /** dataleft = datalen = dummyheadlen = 0. */
  function Reset(c: Cursor): (r: Cursor)
    ensures Idle(r) && r.wdatabuf == c.wdatabuf && r.orgdatalen == c.orgdatalen
  {
    c.(dummyhead := [], datalen := 0, dataleft := 0)
  }

  /** The len field of a complete header, as ntohl stores it into an int. */
  function HeaderLen(h: seq<byte>): int
    requires |h| == HEADER_SIZE
  {
    ToInt32(FromBigEndian32(h[..4]))
  }

  /** The orglen field of a complete header, as ntohl stores it into an int. */
  function HeaderOrgLen(h: seq<byte>): int
    requires |h| == HEADER_SIZE
  {
    ToInt32(FromBigEndian32(h[4..]))
  }

  /** The fields of a header written by Header are read back unchanged. */
  lemma HeaderFields(len: int, orglen: int)
    requires 0 <= len < TWO31 && 0 <= orglen < TWO31
    ensures HeaderLen(Header(len, orglen)) == len && HeaderOrgLen(Header(len, orglen)) == orglen
  {
  }

  // ------------------------------------------------------- read_socket_header

  /** What read_socket_header leaves: the new cursor, the unread bytes, and whether it returned non-NULL. */
  datatype HeaderStep = HeaderStep(cur: Cursor, rest: seq<byte>, complete: bool)

  /**
   * read_socket_header on the cnt bytes at readp: the header completes when
   * the bytes it still misses are all there.
   */
  function ReadHeader(c: Cursor, cnt: seq<byte>): (r: HeaderStep)
    requires |c.dummyhead| < HEADER_SIZE
    ensures r.complete <==> |cnt| >= HEADER_SIZE - |c.dummyhead|
    ensures c.dummyhead + cnt == r.cur.dummyhead + r.rest
    ensures r.cur.wdatabuf == c.wdatabuf
    ensures r.complete ==>
              && |r.cur.dummyhead| == HEADER_SIZE
              && |r.rest| == |cnt| - (HEADER_SIZE - |c.dummyhead|)
              && r.cur.datalen == r.cur.dataleft == HeaderLen(r.cur.dummyhead)
              && r.cur.orgdatalen == HeaderOrgLen(r.cur.dummyhead)
    ensures !r.complete ==>
              && r.rest == [] && |r.cur.dummyhead| < HEADER_SIZE
              && r.cur.datalen == c.datalen && r.cur.dataleft == c.dataleft
              && r.cur.orgdatalen == c.orgdatalen
  {
    var unreadlen := HEADER_SIZE - |c.dummyhead|;
    if |cnt| >= unreadlen then
      var head := c.dummyhead + cnt[..unreadlen];
      assert head + cnt[unreadlen..] == c.dummyhead + cnt;
      var len := HeaderLen(head);
      HeaderStep(c.(dummyhead := head, datalen := len, dataleft := len, orgdatalen := HeaderOrgLen(head)),
                 cnt[unreadlen..], true)
    else
      HeaderStep(c.(dummyhead := c.dummyhead + cnt), [], false)
  }

  // ---------------------------------------------------------- read_socket

  /**
   * How a read_socket call ends: all bytes used, the rest of the chunk
   * discarded after a broken header, or a memcpy that the unchecked len
   * would send outside wdatabuf (or give a negative size): undefined
   * behaviour in the program, the end of the run here.
   */
  datatype Stop = Consumed | Broken | Fault

  /** The cursor after a read_socket call, the frames handed to write_ste, and how it ended. */
  datatype Step = Step(cur: Cursor, frames: seq<seq<byte>>, stop: Stop)

  /** One pass of the payload part of read_socket's loop: it finishes, or emits a frame and goes round again. */
  datatype Pass = Done(step: Step) | More(frame: seq<byte>, next: Cursor, rest: seq<byte>)

  /**
   * The body of read_socket's loop after the header: the orgdatalen check,
   * then the three-way comparison of the unread byte count with dataleft.
   * Payload bytes go to wdatabuf at offset datalen - dataleft; a completed
   * frame is the first orgdatalen bytes of wdatabuf.
   */
  function PayloadStep(d: Cursor, cnt: seq<byte>): (p: Pass)
    requires Ready(d)
    ensures p.Done? && p.step.stop != Fault ==> Valid(p.step.cur)
    ensures p.Done? ==> forall i :: 0 <= i < |p.step.frames| ==> ValidOrgLen(|p.step.frames[i]|)
    ensures p.More? ==>
              && 0 <= d.dataleft < |cnt| && |p.rest| == |cnt| - d.dataleft
              && Valid(p.next) && Idle(p.next) && ValidOrgLen(|p.frame|)
  {
    var off := d.datalen - d.dataleft;
    if !ValidOrgLen(d.orgdatalen) then
      Done(Step(Reset(d), [], Broken))
    else if |cnt| < d.dataleft then
      if off + |cnt| > STRBUFSIZE then Done(Step(d, [], Fault))
      else Done(Step(d.(wdatabuf := Splice(d.wdatabuf, off, cnt), dataleft := d.dataleft - |cnt|), [], Consumed))
    else if d.dataleft < 0 || off + d.dataleft > STRBUFSIZE then
      Done(Step(d, [], Fault))
    else
      var w := Splice(d.wdatabuf, off, cnt[..d.dataleft]);
      var e := Reset(d.(wdatabuf := w));
      if |cnt| == d.dataleft then Done(Step(e, [w[..d.orgdatalen]], Consumed))
      else More(w[..d.orgdatalen], e, cnt[d.dataleft..])
  }

  /** A payload holding the rest of a checked frame: it faults, or the frame completes. */
  lemma PayloadCompletes(d: Cursor, cnt: seq<byte>)
    requires Ready(d) && ValidOrgLen(d.orgdatalen) && d.dataleft <= |cnt|
    ensures var off := d.datalen - d.dataleft;
      PayloadStep(d, cnt) ==
        if d.dataleft < 0 || off + d.dataleft > STRBUFSIZE then Done(Step(d, [], Fault))
        else
          var w := Splice(d.wdatabuf, off, cnt[..d.dataleft]);
          if |cnt| == d.dataleft then Done(Step(Reset(d.(wdatabuf := w)), [w[..d.orgdatalen]], Consumed))
          else More(w[..d.orgdatalen], Reset(d.(wdatabuf := w)), cnt[d.dataleft..])
  {
  }

  /** The header part of one pass: read_socket_header when no payload is pending. */
  function HeaderPart(c: Cursor, cnt: seq<byte>): (h: HeaderStep)
    requires Valid(c)
    ensures h.complete ==> Ready(h.cur) && |h.rest| <= |cnt|
    ensures h.complete && c.dataleft == 0 ==> |h.rest| < |cnt|
    ensures h.complete && c.dataleft > 0 ==> h.cur == c && h.rest == cnt
    ensures !h.complete ==> Valid(h.cur)
  {
    if c.dataleft == 0 then ReadHeader(c, cnt) else HeaderStep(c, cnt, true)
  }

  /**
   * read_socket's while(1) loop over one received chunk (sted_socket.c
   * 301-380): the cursor it leaves, the frames it hands to write_ste, in
   * order, and how it stops.
   */
  function Loop(c: Cursor, cnt: seq<byte>): (r: Step)
    requires Valid(c)
    ensures r.stop != Fault ==> Valid(r.cur)
    decreases |cnt|, 1
  {
    var h := HeaderPart(c, cnt);
    if !h.complete then Step(h.cur, [], Consumed) else Run(h.cur, h.rest)
  }

  /** The loop from the payload part on, once a header is complete. */
  function Run(d: Cursor, cnt: seq<byte>): (r: Step)
    requires Ready(d)
    ensures r.stop != Fault ==> Valid(r.cur)
    decreases |cnt|, if d.dataleft == 0 then 2 else 0
  {
    match PayloadStep(d, cnt)
    case Done(s) => s
    case More(f, e, more) =>
      var t := Loop(e, more);
      Step(t.cur, [f] + t.frames, t.stop)
  }

  /** Every frame the loop hands to write_ste has a length 0 < n <= ETHERMAX. */
  lemma {:induction false} LoopFrameLengths(c: Cursor, cnt: seq<byte>)
    requires Valid(c)
    ensures forall i :: 0 <= i < |Loop(c, cnt).frames| ==> ValidOrgLen(|Loop(c, cnt).frames[i]|)
    decreases |cnt|, 1
  {
    var h := HeaderPart(c, cnt);
    if h.complete {
      RunFrameLengths(h.cur, h.rest);
    }
  }

  /** Every frame handed over from the payload part on has a valid length. */
  lemma {:induction false} RunFrameLengths(d: Cursor, cnt: seq<byte>)
    requires Ready(d)
    ensures forall i :: 0 <= i < |Run(d, cnt).frames| ==> ValidOrgLen(|Run(d, cnt).frames[i]|)
    decreases |cnt|, if d.dataleft == 0 then 2 else 0
  {
    match PayloadStep(d, cnt)
    case Done(s) =>
    case More(f, e, more) =>
      LoopFrameLengths(e, more);
  }

  /**
   * Two loop results that agree: equal, or both faults after the same
   * frames (what the cursor holds after a fault does not matter).
   */
  predicate Agree(x: Step, y: Step)
  {
    x == y || (x.stop == Fault && y.stop == Fault && x.frames == y.frames)
  }

  /** Continuing a loop result with more bytes, if it used all of its own. */
  function Then(s: Step, more: seq<byte>): (r: Step)
    requires s.stop != Fault ==> Valid(s.cur)
  {
    if s.stop != Consumed then s
    else
      var t := Loop(s.cur, more);
      Step(t.cur, s.frames + t.frames, t.stop)
  }

  /** An empty chunk changes nothing. */
  lemma LoopEmpty(c: Cursor)
    requires Valid(c)
    ensures Loop(c, []) == Step(c, [], Consumed)
  {
    if c.dataleft == 0 {
      assert c.dummyhead + [] == c.dummyhead;
    } else {
      SpliceEmpty(c.wdatabuf, c.datalen - c.dataleft);
    }
  }

  /** read_socket_header picks up where an earlier incomplete call stopped. */
  lemma HeaderResume(c: Cursor, a: seq<byte>, b: seq<byte>)
    requires |c.dummyhead| < HEADER_SIZE && |a| < HEADER_SIZE - |c.dummyhead|
    ensures ReadHeader(c, a + b) == ReadHeader(ReadHeader(c, a).cur, b)
  {
    var k := HEADER_SIZE - |c.dummyhead|;
    var c1 := ReadHeader(c, a).cur;
    assert c1.dummyhead == c.dummyhead + a;
    var k1 := HEADER_SIZE - |c1.dummyhead|;
    if |a + b| >= k {
      assert c1.dummyhead + b[..k1] == c.dummyhead + (a + b)[..k];
      assert b[k1..] == (a + b)[k..];
    } else {
      assert c1.dummyhead + b == c.dummyhead + (a + b);
    }
  }

  /** Bytes after a completed header do not change how it is read. */
  lemma HeaderExtend(c: Cursor, a: seq<byte>, b: seq<byte>)
    requires |c.dummyhead| < HEADER_SIZE && |a| >= HEADER_SIZE - |c.dummyhead|
    ensures ReadHeader(c, a + b) == HeaderStep(ReadHeader(c, a).cur, ReadHeader(c, a).rest + b, true)
  {
    var k := HEADER_SIZE - |c.dummyhead|;
    assert (a + b)[..k] == a[..k];
    assert (a + b)[k..] == a[k..] + b;
  }

  /** Two payload passes that agree: equal, or both faults with no frame. */
  predicate AgreePass(p: Pass, q: Pass)
  {
    p == q || (p.Done? && q.Done? && p.step.stop == Fault && q.step.stop == Fault
               && p.step.frames == [] && q.step.frames == [])
  }

  /** More bytes do not rescue a pass that stops at a broken header or a fault. */
  lemma PayloadAppendStopped(d: Cursor, cnt: seq<byte>, b: seq<byte>)
    requires Ready(d)
    requires PayloadStep(d, cnt).Done? && PayloadStep(d, cnt).step.stop != Consumed
    ensures AgreePass(PayloadStep(d, cnt + b), PayloadStep(d, cnt))
  {
  }

  /** A pass that ends exactly with its frame goes round again when more bytes follow. */
  lemma PayloadAppendExact(d: Cursor, cnt: seq<byte>, b: seq<byte>)
    requires Ready(d) && ValidOrgLen(d.orgdatalen) && |cnt| == d.dataleft
    requires d.datalen - d.dataleft + d.dataleft <= STRBUFSIZE && b != []
    ensures PayloadStep(d, cnt).Done? && |PayloadStep(d, cnt).step.frames| == 1
    ensures PayloadStep(d, cnt + b)
            == More(PayloadStep(d, cnt).step.frames[0], PayloadStep(d, cnt).step.cur, b)
  {
    var x := cnt + b;
    assert x[..d.dataleft] == cnt[..d.dataleft];
    assert x[d.dataleft..] == b;
  }

  /** A pass that goes round again does so with the extra bytes appended. */
  lemma PayloadAppendMore(d: Cursor, cnt: seq<byte>, b: seq<byte>)
    requires Ready(d) && PayloadStep(d, cnt).More?
    ensures PayloadStep(d, cnt + b)
            == More(PayloadStep(d, cnt).frame, PayloadStep(d, cnt).next, PayloadStep(d, cnt).rest + b)
  {
    var x := cnt + b;
    assert x[..d.dataleft] == cnt[..d.dataleft];
    assert x[d.dataleft..] == cnt[d.dataleft..] + b;
  }

  /** A payload shorter than the rest of a checked frame: it faults, or it is stored and awaited. */
  lemma PayloadShort(d: Cursor, cnt: seq<byte>)
    requires Ready(d) && ValidOrgLen(d.orgdatalen) && |cnt| < d.dataleft
    ensures var off := d.datalen - d.dataleft;
      PayloadStep(d, cnt) ==
        if off + |cnt| > STRBUFSIZE then Done(Step(d, [], Fault))
        else Done(Step(d.(wdatabuf := Splice(d.wdatabuf, off, cnt), dataleft := d.dataleft - |cnt|), [], Consumed))
  {
  }

  /** The payload part after storing cnt, which leaves the frame incomplete. */
  function Stored(d: Cursor, cnt: seq<byte>): (s: Cursor)
    requires Ready(d) && d.datalen - d.dataleft + |cnt| <= STRBUFSIZE && |cnt| < d.dataleft
    ensures Ready(s) && s.dataleft > 0 && s.datalen - s.dataleft == d.datalen - d.dataleft + |cnt|
  {
    d.(wdatabuf := Splice(d.wdatabuf, d.datalen - d.dataleft, cnt), dataleft := d.dataleft - |cnt|)
  }

  /** PayloadAppendPartial when cnt + b still leaves the frame incomplete. */
  lemma PayloadAppendShort(d: Cursor, cnt: seq<byte>, b: seq<byte>)
    requires Ready(d) && ValidOrgLen(d.orgdatalen) && |cnt + b| < d.dataleft
    requires d.datalen - d.dataleft + |cnt| <= STRBUFSIZE
    ensures AgreePass(PayloadStep(d, cnt + b), PayloadStep(Stored(d, cnt), b))
  {
    var off := d.datalen - d.dataleft;
    PayloadShort(d, cnt + b);
    PayloadShort(Stored(d, cnt), b);
    if off + |cnt + b| <= STRBUFSIZE {
      SpliceAdjacent(d.wdatabuf, off, cnt, b);
    }
  }

  /** Storing cnt and then the rest of the frame from b fills wdatabuf as one copy of both would. */
  lemma FinishSplice(d: Cursor, cnt: seq<byte>, b: seq<byte>)
    requires Ready(d) && |cnt| < d.dataleft <= |cnt + b|
    requires d.datalen - d.dataleft + d.dataleft <= STRBUFSIZE
    ensures var off, k := d.datalen - d.dataleft, d.dataleft - |cnt|;
      && Splice(d.wdatabuf, off, (cnt + b)[..d.dataleft]) == Splice(Stored(d, cnt).wdatabuf, off + |cnt|, b[..k])
      && (cnt + b)[d.dataleft..] == b[k..]
  {
    var off, k, x := d.datalen - d.dataleft, d.dataleft - |cnt|, cnt + b;
    assert x[..d.dataleft] == cnt + b[..k];
    SpliceAdjacent(d.wdatabuf, off, cnt, b[..k]);
  }

  /** PayloadAppendPartial when b brings the rest of the frame. */
  lemma PayloadAppendFinish(d: Cursor, cnt: seq<byte>, b: seq<byte>)
    requires Ready(d) && ValidOrgLen(d.orgdatalen) && |cnt| < d.dataleft <= |cnt + b|
    requires d.datalen - d.dataleft + |cnt| <= STRBUFSIZE
    ensures AgreePass(PayloadStep(d, cnt + b), PayloadStep(Stored(d, cnt), b))
  {
    PayloadCompletes(d, cnt + b);
    PayloadCompletes(Stored(d, cnt), b);
    if d.datalen - d.dataleft + d.dataleft <= STRBUFSIZE {
      FinishSplice(d, cnt, b);
    }
  }

  /** PayloadAppend when cnt leaves the frame incomplete. */
  lemma PayloadAppendPartial(d: Cursor, cnt: seq<byte>, b: seq<byte>)
    requires Ready(d) && ValidOrgLen(d.orgdatalen) && |cnt| < d.dataleft
    requires d.datalen - d.dataleft + |cnt| <= STRBUFSIZE
    ensures AgreePass(PayloadStep(d, cnt + b), PayloadStep(Stored(d, cnt), b))
  {
    if |cnt + b| < d.dataleft {
      PayloadAppendShort(d, cnt, b);
    } else {
      PayloadAppendFinish(d, cnt, b);
    }
  }

  /**
   * Splitting a chunk in two does not change what read_socket does with it:
   * the loop over a + b is the loop over a continued with b. This is the
   * step behind chunking invariance.
   */
  lemma {:induction false} LoopSplit(c: Cursor, a: seq<byte>, b: seq<byte>)
    requires Valid(c)
    ensures Agree(Loop(c, a + b), Then(Loop(c, a), b))
    decreases |a|, 1
  {
    if b == [] {
      assert a + b == a;
      var s := Loop(c, a);
      if s.stop == Consumed {
        LoopEmpty(s.cur);
        assert s.frames + [] == s.frames;
      }
    } else {
      var h := HeaderPart(c, a);
      if !h.complete {
        HeaderResume(c, a, b);
        assert HeaderPart(c, a + b) == HeaderPart(h.cur, b);
        assert [] + Loop(h.cur, b).frames == Loop(h.cur, b).frames;
      } else {
        if c.dataleft == 0 {
          HeaderExtend(c, a, b);
        }
        assert HeaderPart(c, a + b) == HeaderStep(h.cur, h.rest + b, true);
        RunAppend(h.cur, h.rest, b);
      }
    }
  }

  /** RunAppend when the first payload pass stops at a broken header or a fault. */
  lemma RunAppendStopped(d: Cursor, cnt: seq<byte>, b: seq<byte>)
    requires Ready(d) && PayloadStep(d, cnt).Done? && PayloadStep(d, cnt).step.stop != Consumed
    ensures Agree(Run(d, cnt + b), Then(Run(d, cnt), b))
  {
    PayloadAppendStopped(d, cnt, b);
  }

  /** RunAppend when the first payload pass uses all of cnt and the frame is still incomplete. */
  lemma RunAppendPartial(d: Cursor, cnt: seq<byte>, b: seq<byte>)
    requires Ready(d) && ValidOrgLen(d.orgdatalen) && |cnt| < d.dataleft
    requires d.datalen - d.dataleft + |cnt| <= STRBUFSIZE
    ensures Agree(Run(d, cnt + b), Then(Run(d, cnt), b))
  {
    var s := Stored(d, cnt);
    PayloadShort(d, cnt);
    assert Run(d, cnt) == Step(s, [], Consumed);
    PayloadAppendPartial(d, cnt, b);
    assert HeaderPart(s, b) == HeaderStep(s, b, true);
    assert Loop(s, b) == Run(s, b);
    assert [] + Loop(s, b).frames == Loop(s, b).frames;
  }

  /** RunAppend when cnt ends exactly with the frame. */
  lemma RunAppendExact(d: Cursor, cnt: seq<byte>, b: seq<byte>)
    requires Ready(d) && ValidOrgLen(d.orgdatalen) && |cnt| == d.dataleft
    requires d.datalen - d.dataleft + d.dataleft <= STRBUFSIZE && b != []
    ensures Agree(Run(d, cnt + b), Then(Run(d, cnt), b))
  {
    PayloadAppendExact(d, cnt, b);
  }

  /** LoopSplit for the loop from the payload part on. */
  lemma {:induction false} RunAppend(d: Cursor, cnt: seq<byte>, b: seq<byte>)
    requires Ready(d) && b != []
    ensures Agree(Run(d, cnt + b), Then(Run(d, cnt), b))
    decreases |cnt|, if d.dataleft == 0 then 2 else 0
  {
    var p := PayloadStep(d, cnt);
    if p.Done? && p.step.stop != Consumed {
      RunAppendStopped(d, cnt, b);
    } else if |cnt| < d.dataleft {
      RunAppendPartial(d, cnt, b);
    } else if p.Done? {
      RunAppendExact(d, cnt, b);
    } else {
      PayloadAppendMore(d, cnt, b);
      LoopSplit(p.next, p.rest, b);
      var t := Loop(p.next, p.rest);
      if t.stop == Consumed {
        var u := Loop(t.cur, b);
        assert [p.frame] + (t.frames + u.frames) == ([p.frame] + t.frames) + u.frames;
      }
    }
  }

  // --------------------------------------------- successive read_socket calls

  /** The bytes of a sequence of received chunks, in order. */
  function Flatten(chunks: seq<seq<byte>>): seq<byte>
  {
    if chunks == [] then [] else chunks[0] + Flatten(chunks[1..])
  }

  /**
   * read_socket called once per received chunk: a broken header loses only
   * the rest of its own chunk and the next call starts from the reset
   * cursor; a fault ends the run. The result is Broken when some header was
   * broken and nothing faulted later.
   */
  function Feed(c: Cursor, chunks: seq<seq<byte>>): (r: Step)
    requires Valid(c)
    ensures r.stop != Fault ==> Valid(r.cur)
    decreases |chunks|
  {
    if chunks == [] then Step(c, [], Consumed)
    else
      var s := Loop(c, chunks[0]);
      if s.stop == Fault then s
      else
        var t := Feed(s.cur, chunks[1..]);
        Step(t.cur, s.frames + t.frames, if s.stop == Broken && t.stop == Consumed then Broken else t.stop)
  }

  /**
   * When the received bytes hold no broken or unsafe header, read_socket
   * called chunk by chunk does exactly what one call on all the bytes does.
   */
  lemma {:induction false} FeedIsLoop(c: Cursor, chunks: seq<seq<byte>>)
    requires Valid(c) && Loop(c, Flatten(chunks)).stop == Consumed
    ensures Feed(c, chunks) == Loop(c, Flatten(chunks))
    decreases |chunks|
  {
    if chunks == [] {
      LoopEmpty(c);
    } else {
      LoopSplit(c, chunks[0], Flatten(chunks[1..]));
      assert Flatten(chunks) == chunks[0] + Flatten(chunks[1..]);
      var s := Loop(c, chunks[0]);
      assert s.stop == Consumed;
      FeedIsLoop(s.cur, chunks[1..]);
    }
  }

  /**
   * Chunking invariance: two ways of splitting the same bytes into recv
   * chunks give the same frames, in the same order, and the same cursor,
   * provided no header in them is broken or unsafe.
   */
  lemma ChunkingInvariance(c: Cursor, xs: seq<seq<byte>>, ys: seq<seq<byte>>)
    requires Valid(c) && Flatten(xs) == Flatten(ys) && Loop(c, Flatten(xs)).stop == Consumed
    ensures Feed(c, xs) == Feed(c, ys)
  {
    FeedIsLoop(c, xs);
    FeedIsLoop(c, ys);
  }

  // ----------------------------------------------- well-formed message streams

  /** The header of a well-formed message read from between two messages: its lengths, and the payload left over. */
  lemma DecodeHeader(c: Cursor, m: Message)
    requires Valid(c) && Idle(c) && WellFormed(m)
    ensures var h := HeaderPart(c, Wire(m));
      && h.complete && h.rest == m.payload && Ready(h.cur) && h.cur.wdatabuf == c.wdatabuf
      && h.cur.dataleft == m.len && h.cur.datalen == m.len && h.cur.orgdatalen == m.orglen
  {
    var w := Wire(m);
    HeaderFields(m.len, m.orglen);
    assert c.dummyhead + w == w;
    var h := ReadHeader(c, w);
    assert h.cur.dummyhead == Header(m.len, m.orglen) && h.rest == m.payload;
  }

  /** One well-formed message read from between two messages yields its frame and ends between two messages. */
  lemma DecodeOne(c: Cursor, m: Message)
    requires Valid(c) && Idle(c) && WellFormed(m)
    ensures Loop(c, Wire(m)).stop == Consumed
    ensures Loop(c, Wire(m)).frames == [Frame(m)]
    ensures Idle(Loop(c, Wire(m)).cur)
  {
    DecodeHeader(c, m);
    var d := HeaderPart(c, Wire(m)).cur;
    var buf := Splice(d.wdatabuf, 0, m.payload[..m.len]);
    SplicePrefix(d.wdatabuf, 0, m.payload[..m.len], m.orglen);
    assert buf[..m.orglen] == Frame(m);
    PayloadCompletes(d, m.payload);
    assert Run(d, m.payload) == Step(Reset(d.(wdatabuf := buf)), [Frame(m)], Consumed);
  }

  /**
   * A stream of well-formed messages read from between two messages yields
   * exactly their frames, in order, and ends between two messages.
   */
  lemma {:induction false} DecodeStream(c: Cursor, ms: seq<Message>)
    requires Valid(c) && Idle(c)
    requires forall i :: 0 <= i < |ms| ==> WellFormed(ms[i])
    ensures Loop(c, WireAll(ms)).stop == Consumed
    ensures Loop(c, WireAll(ms)).frames == Frames(ms)
    ensures Idle(Loop(c, WireAll(ms)).cur)
    decreases |ms|
  {
    if ms == [] {
      LoopEmpty(c);
    } else {
      LoopSplit(c, Wire(ms[0]), WireAll(ms[1..]));
      DecodeOne(c, ms[0]);
      var s := Loop(c, Wire(ms[0]));
      DecodeStream(s.cur, ms[1..]);
    }
  }

  /**
   * The chunking-invariance theorem for well-formed streams: however the
   * bytes of well-formed messages are split into recv chunks, down to one
   * byte each, the calls hand write_ste exactly the messages' frames.
   */
  lemma WellFormedAnySplit(c: Cursor, ms: seq<Message>, chunks: seq<seq<byte>>)
    requires Valid(c) && Idle(c)
    requires forall i :: 0 <= i < |ms| ==> WellFormed(ms[i])
    requires Flatten(chunks) == WireAll(ms)
    ensures Feed(c, chunks).stop == Consumed
    ensures Feed(c, chunks).frames == Frames(ms)
    ensures Idle(Feed(c, chunks).cur)
  {
    DecodeStream(c, ms);
    FeedIsLoop(c, chunks);
  }

  // ------------------------------------------------- read_ste to read_socket

  /** The bytes read_ste appends for a sequence of device frames, back to back. */
  function EncodeAll(fs: seq<seq<byte>>): seq<byte>
    requires forall i :: 0 <= i < |fs| ==> |fs[i]| <= SOCKBUFSIZE
  {
    if fs == [] then [] else EncodeMessage(fs[0]) + EncodeAll(fs[1..])
  }

  /** The messages read_ste builds around a sequence of device frames. */
  function EncapsulateAll(fs: seq<seq<byte>>): (ms: seq<Message>)
    requires forall i :: 0 <= i < |fs| ==> 1 <= |fs[i]| <= ETHERMAX
    ensures |ms| == |fs| && forall i :: 0 <= i < |ms| ==> WellFormed(ms[i]) && Frame(ms[i]) == fs[i]
  {
    if fs == [] then [] else [Encapsulate(fs[0])] + EncapsulateAll(fs[1..])
  }

  /** What read_ste encodes is the wire form of the messages carrying the frames. */
  lemma {:induction false} EncodeAllIsWire(fs: seq<seq<byte>>)
    requires forall i :: 0 <= i < |fs| ==> 1 <= |fs[i]| <= ETHERMAX
    ensures EncodeAll(fs) == WireAll(EncapsulateAll(fs))
    ensures Frames(EncapsulateAll(fs)) == fs
  {
    if fs != [] {
      EncodeMessageIsWire(fs[0]);
      EncodeAllIsWire(fs[1..]);
      var ms := EncapsulateAll(fs);
      assert ms[1..] == EncapsulateAll(fs[1..]);
    }
  }

  /**
   * The tunnel round trip: the frames one sted reads from its device, each
   * at most ETHERMAX bytes, are the frames the peer's read_socket hands to
   * write_ste, in order, however the bytes are split into recv chunks.
   */
  lemma TunnelRoundTrip(c: Cursor, fs: seq<seq<byte>>, chunks: seq<seq<byte>>)
    requires Valid(c) && Idle(c)
    requires forall i :: 0 <= i < |fs| ==> 1 <= |fs[i]| <= ETHERMAX
    requires Flatten(chunks) == EncodeAll(fs)
    ensures Feed(c, chunks).stop == Consumed
    ensures Feed(c, chunks).frames == fs
    ensures Idle(Feed(c, chunks).cur)
  {
    EncodeAllIsWire(fs);
    WellFormedAnySplit(c, EncapsulateAll(fs), chunks);
  }

  /**
   * A device frame longer than ETHERMAX is encoded by read_ste but refused
   * by the peer: its header reads as broken and the rest of the chunk is lost.
   */
  lemma OversizeFrameDiscarded(c: Cursor, f: seq<byte>, rest: seq<byte>)
    requires Valid(c) && Idle(c) && ETHERMAX < |f| <= SOCKBUFSIZE
    ensures Loop(c, EncodeMessage(f) + rest).stop == Broken
    ensures Loop(c, EncodeMessage(f) + rest).frames == []
  {
    var w := EncodeMessage(f);
    var h := w[..HEADER_SIZE];
    assert h[4..] == w[4..8];
    assert HeaderOrgLen(h) == |f|;
    assert w + rest == h + (w[HEADER_SIZE..] + rest);
    BrokenHeaderDiscards(c, h, w[HEADER_SIZE..] + rest);
  }

  // ------------------------------------------------------- headers rejected

  /**
   * A completed header whose orglen is at most 0 or above ETHERMAX empties
   * the cursor, yields no frame and throws away the rest of the chunk,
   * whatever it holds.
   */
  lemma BrokenHeaderDiscards(c: Cursor, h: seq<byte>, rest: seq<byte>)
    requires Valid(c) && Idle(c) && |h| == HEADER_SIZE
    requires !ValidOrgLen(HeaderOrgLen(h))
    ensures Loop(c, h + rest) == Step(Reset(c).(orgdatalen := HeaderOrgLen(h)), [], Broken)
  {
    var x := h + rest;
    assert x[..HEADER_SIZE] == h;
    assert c.dummyhead + x[..HEADER_SIZE] == h;
  }

  /**
   * A header whose len reads as a negative int, with a valid orglen, makes
   * the program memcpy a negative size: a fault, however many bytes follow.
   */
  lemma NegativeLenFaults(c: Cursor, h: seq<byte>, rest: seq<byte>)
    requires Valid(c) && Idle(c) && |h| == HEADER_SIZE
    requires HeaderLen(h) < 0 && ValidOrgLen(HeaderOrgLen(h))
    ensures Loop(c, h + rest).stop == Fault
  {
    var x := h + rest;
    assert x[..HEADER_SIZE] == h;
    assert c.dummyhead + x[..HEADER_SIZE] == h;
  }

  /**
   * A header whose len exceeds wdatabuf, with a valid orglen, makes the
   * program write past wdatabuf as soon as more than STRBUFSIZE payload
   * bytes have arrived in one chunk.
   */
  lemma OversizeLenFaults(c: Cursor, h: seq<byte>, rest: seq<byte>)
    requires Valid(c) && Idle(c) && |h| == HEADER_SIZE
    requires HeaderLen(h) > STRBUFSIZE && ValidOrgLen(HeaderOrgLen(h))
    requires |rest| > STRBUFSIZE
    ensures Loop(c, h + rest).stop == Fault
  {
    var x := h + rest;
    assert x[..HEADER_SIZE] == h;
    assert c.dummyhead + x[..HEADER_SIZE] == h;
    assert x[HEADER_SIZE..] == rest;
  }
}
