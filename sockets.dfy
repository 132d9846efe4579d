// What the BSD/Winsock socket calls report to sted and stehub. The calls
// themselves are I/O; the model receives their outcomes as parameters.

module Sockets {
  import opened Bytes

  /** The errno values the daemons tell apart after a failed socket call. */
  datatype Errno = NoError | EINTR | EWOULDBLOCK | ECONNABORTED | OtherErrno(code: int)

  /**
   * The errors sted's recv and send paths treat as "try later": EINTR,
   * EWOULDBLOCK and an errno of 0.
   */
  predicate StedTransient(e: Errno) { e == EINTR || e == EWOULDBLOCK || e == NoError }

  /** The errors stehub's recv and send paths treat as "try later": EINTR and EWOULDBLOCK. */
  predicate HubTransient(e: Errno) { e == EINTR || e == EWOULDBLOCK }

  /** The errors stehub's accept path treats as "try later". */
  predicate AcceptTransient(e: Errno) { e == EINTR || e == EWOULDBLOCK || e == ECONNABORTED }

  /** recv: the bytes read (none means the peer closed the connection) or a failure. */
  datatype RecvOutcome = Received(data: seq<byte>) | RecvFailed(err: Errno)

  /**
   * send: the number of bytes the stack accepted, or a failure. The callers
   * never look at the count, so a short count loses the tail.
   */
  datatype SendOutcome = Sent(count: nat) | SendFailed(err: Errno)

  /** The bytes of buf that actually leave for the peer under outcome Sent(count). */
  function Accepted(buf: seq<byte>, count: nat): (r: seq<byte>)
    ensures r <= buf && |r| == if count < |buf| then count else |buf|
  {
    if count < |buf| then buf[..count] else buf
  }
}
