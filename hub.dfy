// stehub: the hub every sted connects to. It keeps the connected sockets
// in a registry (a linked list of conn_stat behind a sentinel head, here a
// sequence in list order) and hands every chunk read from one socket to
// send for each of the others.

module StedHub {
  import opened Bytes
  import opened Sockets
  import opened Wrappers
  import CText
  import Connect
  import Getopt

  /** The receive buffer of the forwarding loop (SOCKBUFSIZE). */
  const HUB_SOCKBUFSIZE: int := 32768

  /** One registered connection (conn_stat): its socket and the peer's IPv4 address. */
  datatype Conn = Conn(fd: int, addr: int)

  /** No socket is registered twice. */
  predicate Distinct(cs: seq<Conn>)
  {
    forall i, j :: 0 <= i < j < |cs| ==> cs[i].fd != cs[j].fd
  }

  function FdSet(cs: seq<Conn>): set<int>
  {
    set c | c in cs :: c.fd
  }

  /** The position of the first entry for fd, or None. */
  function Find(cs: seq<Conn>, fd: int): (r: Option<nat>)
    ensures r.Some? ==> r.value < |cs| && cs[r.value].fd == fd
    ensures r.Some? ==> forall j :: 0 <= j < r.value ==> cs[j].fd != fd
    ensures r.None? ==> forall j :: 0 <= j < |cs| ==> cs[j].fd != fd
  {
    if cs == [] then None
    else if cs[0].fd == fd then Some(0)
    else match Find(cs[1..], fd)
      case None => None
      case Some(k) => Some(k + 1)
  }

  predicate Registered(cs: seq<Conn>, fd: int)
  {
    Find(cs, fd).Some?
  }

  function RemoveAt(cs: seq<Conn>, k: nat): (r: seq<Conn>)
    requires k < |cs|
    ensures |r| == |cs| - 1
  {
    cs[..k] + cs[k + 1..]
  }

  /** The registry after delete_conn_stat(fd): the first entry for fd unlinked. */
  function RemoveFirst(cs: seq<Conn>, fd: int): (r: seq<Conn>)
    requires Registered(cs, fd)
  {
    RemoveAt(cs, Find(cs, fd).value)
  }

  /**
   * Unlinking one entry keeps the others in order and, with no socket
   * registered twice, removes exactly that entry's socket.
   */
  lemma RemoveAtFacts(cs: seq<Conn>, k: nat)
    requires k < |cs| && Distinct(cs)
    ensures var r := RemoveAt(cs, k);
      && Distinct(r)
      && FdSet(r) == FdSet(cs) - {cs[k].fd}
      && (forall j :: 0 <= j < k ==> r[j] == cs[j])
      && (forall j :: k <= j < |r| ==> r[j] == cs[j + 1])
  {
    var r := RemoveAt(cs, k);
    RemoveAtIndex(cs, k);
    forall i, j | 0 <= i < j < |r|
      ensures r[i].fd != r[j].fd
    {
      var i', j' := if i < k then i else i + 1, if j < k then j else j + 1;
      assert r[i] == cs[i'] && r[j] == cs[j'] && i' < j';
    }
    forall x | x in FdSet(r)
      ensures x in FdSet(cs) - {cs[k].fd}
    {
      var j :| 0 <= j < |r| && r[j].fd == x;
      var j' := if j < k then j else j + 1;
      assert r[j] == cs[j'] && j' != k;
    }
    forall x | x in FdSet(cs) - {cs[k].fd}
      ensures x in FdSet(r)
    {
      var j :| 0 <= j < |cs| && cs[j].fd == x;
      assert j != k;
      var j' := if j < k then j else j - 1;
      assert r[j'] == cs[j];
    }
  }

  /** Where each remaining entry came from. */
  lemma RemoveAtIndex(cs: seq<Conn>, k: nat)
    requires k < |cs|
    ensures forall j :: 0 <= j < k ==> RemoveAt(cs, k)[j] == cs[j]
    ensures forall j :: k <= j < |cs| - 1 ==> RemoveAt(cs, k)[j] == cs[j + 1]
  {
  }

  /** Appending a fresh socket keeps the registry free of duplicates. */
  lemma AppendFacts(cs: seq<Conn>, c: Conn)
    requires Distinct(cs) && c.fd !in FdSet(cs)
    ensures Distinct(cs + [c]) && FdSet(cs + [c]) == FdSet(cs) + {c.fd}
  {
    var r := cs + [c];
    forall i, j | 0 <= i < j < |r|
      ensures r[i].fd != r[j].fd
    {
      if j == |cs| {
        assert r[i] in cs;
      }
    }
  }

  /** find_conn_stat's result as written: the entry, or a read through the NULL next pointer. */
  datatype Lookup = Entry(conn: Conn) | NullDeref

  /**
   * find_conn_stat as written: the loop tests conn->next->fd while conn is
   * not NULL, so after the last entry it reads through a NULL pointer
   * instead of reaching its return of NULL.
   */
  function FindAsWritten(cs: seq<Conn>, fd: int): (r: Lookup)
    ensures r.Entry? ==> r.conn in cs && r.conn.fd == fd
  {
    if cs == [] then NullDeref
    else if cs[0].fd == fd then Entry(cs[0])
    else FindAsWritten(cs[1..], fd)
  }

  /**
   * The as-written lookup agrees with Find on a registered socket and
   * faults exactly when the socket is absent, the empty registry included.
   */
  lemma {:induction false} FindAsWrittenFaults(cs: seq<Conn>, fd: int)
    ensures FindAsWritten(cs, fd) == NullDeref <==> !Registered(cs, fd)
    ensures Registered(cs, fd) ==> FindAsWritten(cs, fd) == Entry(cs[Find(cs, fd).value])
    decreases |cs|
  {
    if cs != [] && cs[0].fd != fd {
      FindAsWrittenFaults(cs[1..], fd);
    }
  }

  /** The lookup on an empty registry, the smallest input that reaches the NULL read. */
  lemma FindOnEmptyFaults(fd: int)
    ensures FindAsWritten([], fd) == NullDeref && Find([], fd) == None
  {
  }

  // ---------------------------------------------------------------- forwarding

  /** A send the hub gives up on the peer for: any failure but EINTR and EWOULDBLOCK. */
  predicate HardSend(o: SendOutcome)
  {
    o.SendFailed? && !HubTransient(o.err)
  }

  /** The sockets a chunk from rfd is meant for: every other registered one, in list order. */
  function Others(cs: seq<Conn>, rfd: int): (os: seq<int>)
    ensures forall x :: x in os <==> x != rfd && x in FdSet(cs)
  {
    if cs == [] then []
    else if cs[0].fd == rfd then Others(cs[1..], rfd)
    else [cs[0].fd] + Others(cs[1..], rfd)
  }

  /** The sends of one chunk: the peers send was called for, in order, and the position of the one dropped. */
  datatype Spread = Spread(to: seq<int>, dropped: Option<nat>)

  /**
   * The send loop over the registry from position j for a chunk from rfd:
   * rfd itself is skipped, a peer whose send fails hard ends the loop and is
   * dropped, any other outcome moves on to the next peer.
   */
  function Broadcast(cs: seq<Conn>, j: nat, rfd: int, send: (int, int) -> SendOutcome): (s: Spread)
    requires j <= |cs|
    ensures s.dropped.Some? ==> j <= s.dropped.value < |cs| && cs[s.dropped.value].fd != rfd
    decreases |cs| - j
  {
    if j == |cs| then Spread([], None)
    else if cs[j].fd == rfd then Broadcast(cs, j + 1, rfd, send)
    else if HardSend(send(rfd, cs[j].fd)) then Spread([cs[j].fd], Some(j))
    else
      var s := Broadcast(cs, j + 1, rfd, send);
      Spread([cs[j].fd] + s.to, s.dropped)
  }

  /**
   * The forwarding rule: a chunk is handed to send for the other peers in
   * list order and never for rfd; with no hard failure send is called for
   * every one of them (a transient failure or a short count still moves on);
   * otherwise the loop stops at the first peer whose send fails hard, which
   * is the one dropped, and send is not called for the peers after it.
   */
  lemma {:induction false} BroadcastRule(cs: seq<Conn>, j: nat, rfd: int, send: (int, int) -> SendOutcome)
    requires j <= |cs|
    ensures var s := Broadcast(cs, j, rfd, send);
      && s.to <= Others(cs[j..], rfd)
      && (forall k :: 0 <= k < |s.to| - 1 ==> !HardSend(send(rfd, s.to[k])))
      && (s.dropped.None? ==> s.to == Others(cs[j..], rfd) && forall k :: 0 <= k < |s.to| ==> !HardSend(send(rfd, s.to[k])))
      && (s.dropped.Some? ==> s.to != [] && s.to[|s.to| - 1] == cs[s.dropped.value].fd && HardSend(send(rfd, cs[s.dropped.value].fd)))
    decreases |cs| - j
  {
    if j < |cs| {
      assert cs[j..][1..] == cs[j + 1..];
      if cs[j].fd == rfd || !HardSend(send(rfd, cs[j].fd)) {
        BroadcastRule(cs, j + 1, rfd, send);
      }
    }
  }

  /** One record per send call: the chunk from one socket handed to send for another, whatever send returned. */
  datatype Delivery = Delivery(from: int, to: int, data: seq<byte>)

  function Deliver(rfd: int, tos: seq<int>, data: seq<byte>): (ds: seq<Delivery>)
    ensures |ds| == |tos|
    ensures forall k :: 0 <= k < |tos| ==> ds[k] == Delivery(rfd, tos[k], data)
  {
    if tos == [] then [] else [Delivery(rfd, tos[0], data)] + Deliver(rfd, tos[1..], data)
  }

  /** What one pass over the registry leaves: the registry, the sends made, the sockets closed. */
  datatype PassEnd = PassEnd(conns: seq<Conn>, deliveries: seq<Delivery>, closed: seq<int>)

  /**
   * One entry of a pass: either the pass ends here with what it leaves, or
   * it goes on at position next of the registry conns after the sends and
   * closes this entry made.
   */
  datatype Turn =
    | Stop(end: PassEnd)
    | Continue(conns: seq<Conn>, next: nat, deliveries: seq<Delivery>, closed: seq<int>)

  /**
   * The turn at position i after select: a socket select did not mark, or
   * a transient recv error, moves on; end of stream or a hard error closes
   * and drops that socket and ends the pass; data is forwarded, a dropped
   * peer is closed, and the pass goes on with the entry after the reader.
   */
  function TurnAt(cs: seq<Conn>, i: nat, ready: set<int>, recv: int -> RecvOutcome, send: (int, int) -> SendOutcome): (t: Turn)
    requires i < |cs|
    ensures t.Continue? ==> t.next <= |t.conns| && |t.conns| - t.next < |cs| - i
    ensures t.Continue? ==> |t.conns| + |t.closed| == |cs|
    ensures t.Stop? ==> |t.end.conns| + |t.end.closed| == |cs|
  {
    var rfd := cs[i].fd;
    if rfd !in ready then Continue(cs, i + 1, [], [])
    else match recv(rfd)
      case RecvFailed(e) =>
        if HubTransient(e) then Continue(cs, i + 1, [], [])
        else Stop(PassEnd(RemoveAt(cs, i), [], [rfd]))
      case Received(data) =>
        if data == [] then Stop(PassEnd(RemoveAt(cs, i), [], [rfd]))
        else
          var s := Broadcast(cs, 0, rfd, send);
          var ds := Deliver(rfd, s.to, data);
          if s.dropped.None? then Continue(cs, i + 1, ds, [])
          else
            var w := s.dropped.value;
            Continue(RemoveAt(cs, w), if w < i then i else i + 1, ds, [cs[w].fd])
  }

  /** The pass over the registry from position i after select: turn after turn, to the end of the list or a Stop. */
  function Pass(cs: seq<Conn>, i: nat, ready: set<int>, recv: int -> RecvOutcome, send: (int, int) -> SendOutcome): (p: PassEnd)
    requires i <= |cs|
    ensures |p.conns| + |p.closed| == |cs|
    decreases |cs| - i
  {
    if i == |cs| then PassEnd(cs, [], [])
    else match TurnAt(cs, i, ready, recv, send)
      case Stop(e) => e
      case Continue(cs', n, ds, cl) =>
        var p := Pass(cs', n, ready, recv, send);
        PassEnd(p.conns, ds + p.deliveries, cl + p.closed)
  }

  lemma DeliverAppend(rfd: int, tos: seq<int>, to: int, data: seq<byte>)
    ensures Deliver(rfd, tos + [to], data) == Deliver(rfd, tos, data) + [Delivery(rfd, to, data)]
  {
    var a := Deliver(rfd, tos + [to], data);
    var b := Deliver(rfd, tos, data) + [Delivery(rfd, to, data)];
    assert |a| == |b|;
    forall k | 0 <= k < |a|
      ensures a[k] == b[k]
    {
      if k < |tos| {
        assert (tos + [to])[k] == tos[k];
      }
    }
  }

  /**
   * What a pass must keep: the registry stays free of duplicates, the
   * sockets closed are exactly those unregistered, and every send goes from
   * a ready socket to a different socket registered at the start.
   */
  predicate KeepsRegistry(cs: seq<Conn>, ready: set<int>, conns: seq<Conn>, ds: seq<Delivery>, cl: seq<int>)
  {
    && Distinct(conns)
    && FdSet(conns) + (set x | x in cl) == FdSet(cs)
    && (forall x :: x in cl ==> x !in FdSet(conns))
    && (forall d :: d in ds ==> d.from in ready && d.from != d.to && d.to in FdSet(cs))
  }

  /** A single turn keeps the registry. */
  lemma TurnRegistry(cs: seq<Conn>, i: nat, ready: set<int>, recv: int -> RecvOutcome, send: (int, int) -> SendOutcome)
    requires i < |cs| && Distinct(cs)
    ensures match TurnAt(cs, i, ready, recv, send)
      case Stop(e) => KeepsRegistry(cs, ready, e.conns, e.deliveries, e.closed)
      case Continue(cs', _, ds, cl) => KeepsRegistry(cs, ready, cs', ds, cl)
  {
    var rfd := cs[i].fd;
    assert rfd in FdSet(cs);
    if rfd in ready {
      match recv(rfd)
      case RecvFailed(e) =>
        if !HubTransient(e) {
          RemoveAtFacts(cs, i);
        }
      case Received(data) =>
        if data == [] {
          RemoveAtFacts(cs, i);
        } else {
          var s := Broadcast(cs, 0, rfd, send);
          ForwardFacts(cs, rfd, send, data);
          if s.dropped.Some? {
            RemoveAtFacts(cs, s.dropped.value);
          }
        }
    }
  }

  /**
   * A pass keeps the registry free of duplicates, closes only sockets that
   * were registered and unregisters exactly those; every send goes from a
   * ready socket to a different registered one.
   */
  lemma {:induction false} PassRegistry(cs: seq<Conn>, i: nat, ready: set<int>, recv: int -> RecvOutcome, send: (int, int) -> SendOutcome)
    requires i <= |cs| && Distinct(cs)
    ensures var p := Pass(cs, i, ready, recv, send);
      KeepsRegistry(cs, ready, p.conns, p.deliveries, p.closed)
    decreases |cs| - i
  {
    if i < |cs| {
      TurnRegistry(cs, i, ready, recv, send);
      match TurnAt(cs, i, ready, recv, send)
      case Stop(e) =>
      case Continue(cs', n, ds, cl) =>
        PassRegistry(cs', n, ready, recv, send);
        var p := Pass(cs', n, ready, recv, send);
        assert (set x | x in cl + p.closed) == (set x | x in cl) + (set x | x in p.closed);
        assert FdSet(p.conns) <= FdSet(cs');
    }
  }

  /** A pass is its first turn followed by the pass from where that turn leaves off. */
  lemma PassResumes(cs: seq<Conn>, i: nat, ready: set<int>, recv: int -> RecvOutcome, send: (int, int) -> SendOutcome,
                    cs': seq<Conn>, next: Option<nat>, ds: seq<Delivery>, cl: seq<int>)
    requires i < |cs|
    requires TurnAt(cs, i, ready, recv, send) ==
      if next.None? then Stop(PassEnd(cs', ds, cl)) else Continue(cs', next.value, ds, cl)
    ensures next.None? ==> Pass(cs, i, ready, recv, send) == PassEnd(cs', ds, cl)
    ensures next.Some? ==> next.value <= |cs'| && var q := Pass(cs', next.value, ready, recv, send);
      Pass(cs, i, ready, recv, send) == PassEnd(q.conns, ds + q.deliveries, cl + q.closed)
  {
  }

  lemma Regroup<T>(a: seq<T>, b: seq<T>, c: seq<T>)
    ensures (a + b) + c == a + (b + c)
  {
  }

  /** One turn of the send loop at a peer other than the reader. */
  lemma BroadcastUnfold(cs: seq<Conn>, j: nat, rfd: int, send: (int, int) -> SendOutcome, to: seq<int>)
    requires j < |cs| && cs[j].fd != rfd
    ensures var b := Broadcast(cs, j, rfd, send);
      if HardSend(send(rfd, cs[j].fd)) then b == Spread([cs[j].fd], Some(j))
      else to + b.to == (to + [cs[j].fd]) + Broadcast(cs, j + 1, rfd, send).to && b.dropped == Broadcast(cs, j + 1, rfd, send).dropped
  {
  }

  /** The sends of one chunk go from the reader to other registered sockets. */
  lemma ForwardFacts(cs: seq<Conn>, rfd: int, send: (int, int) -> SendOutcome, data: seq<byte>)
    ensures var s := Broadcast(cs, 0, rfd, send);
      forall d :: d in Deliver(rfd, s.to, data) ==> d.from == rfd && d.to != rfd && d.to in FdSet(cs)
  {
    var s := Broadcast(cs, 0, rfd, send);
    BroadcastRule(cs, 0, rfd, send);
    assert cs[0..] == cs;
    var ds := Deliver(rfd, s.to, data);
    forall d | d in ds
      ensures d.from == rfd && d.to != rfd && d.to in FdSet(cs)
    {
      var k :| 0 <= k < |ds| && ds[k] == d;
      assert s.to[k] in Others(cs, rfd);
    }
  }

  /** What accept reports: a new socket (and whether making it non-blocking worked) or a failure. */
  datatype AcceptOutcome = NewConn(fd: int, addr: int, nonblockOk: bool) | AcceptFailed(err: Errno)

  /**
   * The hub's state: the listening socket, the registry, fdset_saved (the
   * sockets select watches), and a record of every send and close.
   */
  class Hub {
    const listener: int
    var conns: seq<Conn>
    var fdsetSaved: set<int>
    var deliveries: seq<Delivery>
    var closed: seq<int>

    /** select watches the listener and exactly the registered sockets, each registered once. */
    predicate Valid()
      reads this`conns, this`fdsetSaved
    {
      Distinct(conns) && listener !in FdSet(conns) && fdsetSaved == {listener} + FdSet(conns)
    }

    /** After listen: an empty registry and fdset_saved holding the listener only. */
    constructor (listener: int)
      ensures Valid() && this.listener == listener
      ensures conns == [] && fdsetSaved == {listener} && deliveries == [] && closed == []
    {
      this.listener := listener;
      conns, fdsetSaved, deliveries, closed := [], {listener}, [], [];
    }

    /** add_conn_stat: the new connection goes to the tail, so the registry is in accept order. */
    method AddConn(fd: int, addr: int)
      modifies this`conns
      ensures conns == old(conns) + [Conn(fd, addr)]
    {
      conns := conns + [Conn(fd, addr)];
    }

    /** delete_conn_stat: unlinks the first entry for fd, which must be registered. */
    method DeleteConn(fd: int)
      requires Registered(conns, fd)
      modifies this`conns
      ensures conns == RemoveFirst(old(conns), fd)
    {
      var k := 0;
      while conns[k].fd != fd
        invariant 0 <= k <= Find(conns, fd).value
        decreases Find(conns, fd).value - k
      {
        k := k + 1;
      }
      conns := conns[..k] + conns[k + 1..];
    }

    /**
     * find_conn_stat with its loop stopped at the last entry: the first
     * entry for fd, or None when fd is not registered.
     */
    method FindConn(fd: int) returns (r: Option<Conn>)
      ensures r.Some? <==> Registered(conns, fd)
      ensures r.Some? ==> r.value == conns[Find(conns, fd).value]
    {
      var k := 0;
      while k < |conns|
        invariant 0 <= k <= |conns|
        invariant forall j :: 0 <= j < k ==> conns[j].fd != fd
      {
        if conns[k].fd == fd {
          assert Find(conns, fd) == Some(k);
          return Some(conns[k]);
        }
        k := k + 1;
      }
      return None;
    }

    /** CLOSE, FD_CLR from fdset_saved and delete_conn_stat of a registered socket. */
    method CloseConn(fd: int)
      requires Valid() && Registered(conns, fd)
      modifies this`conns, this`fdsetSaved, this`closed
      ensures Valid()
      ensures conns == RemoveFirst(old(conns), fd) && fdsetSaved == old(fdsetSaved) - {fd}
      ensures closed == old(closed) + [fd]
    {
      RemoveAtFacts(conns, Find(conns, fd).value);
      closed := closed + [fd];
      fdsetSaved := fdsetSaved - {fd};
      DeleteConn(fd);
    }

    /** In a registry without duplicates the entry at position k is the first for its socket. */
    lemma FindAt(k: nat)
      requires Distinct(conns) && k < |conns|
      ensures Find(conns, conns[k].fd) == Some(k)
    {
    }

    /**
     * The send loop for a chunk read from rfd: calls send with it for every
     * other registered socket in list order up to the first hard failure,
     * whose position it reports.
     */
    method SendChunk(rfd: int, data: seq<byte>, send: (int, int) -> SendOutcome) returns (dropped: Option<nat>)
      modifies this`deliveries
      ensures var s := Broadcast(conns, 0, rfd, send);
        dropped == s.dropped && deliveries == old(deliveries) + Deliver(rfd, s.to, data)
    {
      ghost var all := Broadcast(conns, 0, rfd, send);
      ghost var to: seq<int> := [];
      dropped := None;
      var j := 0;
      while j < |conns| && dropped.None?
        invariant 0 <= j <= |conns|
        invariant deliveries == old(deliveries) + Deliver(rfd, to, data)
        invariant dropped.None? ==> all == Spread(to + Broadcast(conns, j, rfd, send).to, Broadcast(conns, j, rfd, send).dropped)
        invariant dropped.Some? ==> all == Spread(to, dropped)
        decreases |conns| - j + (if dropped.None? then 1 else 0)
      {
        var wfd := conns[j].fd;
        if wfd != rfd {
          var o := send(rfd, wfd);
          DeliverAppend(rfd, to, wfd, data);
          BroadcastUnfold(conns, j, rfd, send, to);
          deliveries := deliveries + [Delivery(rfd, wfd, data)];
          to := to + [wfd];
          if HardSend(o) {
            dropped := Some(j);
          }
        }
        if dropped.None? {
          j := j + 1;
        }
      }
      if dropped.None? {
        assert to + [] == to;
      }
    }

    /**
     * Forwarding one chunk: the send loop, then CLOSE, FD_CLR and
     * delete_conn_stat of the peer it stopped at, if any.
     */
    method Forward(rfd: int, data: seq<byte>, send: (int, int) -> SendOutcome) returns (dropped: Option<nat>)
      requires Valid()
      modifies this`conns, this`fdsetSaved, this`closed, this`deliveries
      ensures Valid()
      ensures var s := Broadcast(old(conns), 0, rfd, send);
        dropped == s.dropped && deliveries == old(deliveries) + Deliver(rfd, s.to, data)
      ensures dropped.None? ==> conns == old(conns) && closed == old(closed)
      ensures dropped.Some? ==> dropped.value < |old(conns)| && conns == RemoveAt(old(conns), dropped.value)
      ensures dropped.Some? ==> closed == old(closed) + [old(conns)[dropped.value].fd]
    {
      dropped := SendChunk(rfd, data, send);
      if dropped.Some? {
        FindAt(dropped.value);
        CloseConn(conns[dropped.value].fd);
      }
    }

    /**
     * One entry of the pass: a socket select did not mark is passed over;
     * a ready one is read and, by the outcome, skipped, closed (ending the
     * pass) or forwarded from.
     */
    method PassStep(i: nat, ready: set<int>, recv: int -> RecvOutcome, send: (int, int) -> SendOutcome)
      returns (next: Option<nat>, ghost ds: seq<Delivery>, ghost cl: seq<int>)
      requires Valid() && i < |conns|
      modifies this`conns, this`fdsetSaved, this`closed, this`deliveries
      ensures Valid()
      ensures deliveries == old(deliveries) + ds && closed == old(closed) + cl
      ensures TurnAt(old(conns), i, ready, recv, send) ==
        if next.None? then Stop(PassEnd(conns, ds, cl)) else Continue(conns, next.value, ds, cl)
      ensures next.Some? ==> next.value <= |conns| && |conns| - next.value < |old(conns)| - i
    {
      var rfd := conns[i].fd;
      if rfd !in ready {
        return Some(i + 1), [], [];
      }
      var r := recv(rfd);
      if r.RecvFailed? && HubTransient(r.err) {
        return Some(i + 1), [], [];
      }
      if r.RecvFailed? || r.data == [] {
        FindAt(i);
        CloseConn(rfd);
        return None, [], [rfd];
      }
      ghost var cs := conns;
      var dropped := Forward(rfd, r.data, send);
      ds := Deliver(rfd, Broadcast(cs, 0, rfd, send).to, r.data);
      if dropped.None? {
        return Some(i + 1), ds, [];
      }
      var w := dropped.value;
      cl := [cs[w].fd];
      next := Some(if w < i then i else i + 1);
    }

    /**
     * The loop over the registry after select: every entry in turn, until
     * the end of the list or a socket is closed for its own recv.
     */
    method RecvPass(ready: set<int>, recv: int -> RecvOutcome, send: (int, int) -> SendOutcome)
      requires Valid()
      modifies this`conns, this`fdsetSaved, this`closed, this`deliveries
      ensures Valid()
      ensures var p := Pass(old(conns), 0, ready, recv, send);
        conns == p.conns && deliveries == old(deliveries) + p.deliveries && closed == old(closed) + p.closed
    {
      ghost var all := Pass(conns, 0, ready, recv, send);
      ghost var rest := all;
      var i: nat := 0;
      while i < |conns|
        invariant Valid() && i <= |conns|
        invariant rest == Pass(conns, i, ready, recv, send)
        invariant all.conns == rest.conns
        invariant old(deliveries) + all.deliveries == deliveries + rest.deliveries
        invariant old(closed) + all.closed == closed + rest.closed
        decreases |conns| - i
      {
        ghost var before := conns;
        ghost var (d0, c0) := (deliveries, closed);
        var next, ds1, cl1 := PassStep(i, ready, recv, send);
        PassResumes(before, i, ready, recv, send, conns, next, ds1, cl1);
        if next.None? {
          Regroup(d0, ds1, []);
          Regroup(c0, cl1, []);
          return;
        }
        rest := Pass(conns, next.value, ready, recv, send);
        Regroup(d0, ds1, rest.deliveries);
        Regroup(c0, cl1, rest.closed);
        i := next.value;
      }
    }

    /**
     * One turn of the main loop after select: a ready listener means one
     * accept and no reads; otherwise the pass over the registry. Some(-1)
     * is main returning -1.
     */
    method Round(ready: set<int>, accept: AcceptOutcome, recv: int -> RecvOutcome, send: (int, int) -> SendOutcome)
      returns (ret: Option<int>)
      requires Valid()
      requires listener in ready && accept.NewConn? ==> accept.fd !in fdsetSaved
      modifies this`conns, this`fdsetSaved, this`closed, this`deliveries
      ensures Valid()
      ensures listener in ready ==> deliveries == old(deliveries) && closed == old(closed)
      ensures listener in ready && accept.NewConn? ==>
        conns == old(conns) + [Conn(accept.fd, accept.addr)] && (ret.None? <==> accept.nonblockOk)
      ensures listener in ready && accept.AcceptFailed? ==>
        conns == old(conns) && (ret.None? <==> AcceptTransient(accept.err))
      ensures ret.Some? ==> ret.value == -1
      ensures listener !in ready ==> ret.None? && var p := Pass(old(conns), 0, ready, recv, send);
        conns == p.conns && deliveries == old(deliveries) + p.deliveries && closed == old(closed) + p.closed
    {
      if listener in ready {
        match accept
        case AcceptFailed(e) =>
          ret := if AcceptTransient(e) then None else Some(-1);
        case NewConn(fd, addr, ok) =>
          AppendFacts(conns, Conn(fd, addr));
          fdsetSaved := fdsetSaved + {fd};
          AddConn(fd, addr);
          ret := if ok then None else Some(-1);
      } else {
        RecvPass(ready, recv, send);
        ret := None;
      }
    }
  }
}

