// The tunnel's framing: each Ethernet frame travels between sted and the
// hub as an 8-byte header (stehead: len, orglen, both big-endian 32-bit)
// followed by the frame and zero padding up to a multiple of 4 bytes.

module FrameCodec {
  import opened Bytes

  /** sizeof(stehead_t): two 32-bit fields. */
  const HEADER_SIZE: int := 8
  /** Largest Ethernet frame, header included (ETHERMAX). */
  const ETHERMAX: int := 1514
  /** Size of sted's socket send and receive buffers (SOCKBUFSIZE). */
  const SOCKBUFSIZE: int := 32768
  /** Size of sted's frame reassembly buffer wdatabuf (STRBUFSIZE). */
  const STRBUFSIZE: int := 32768
  /** sendbuf is flushed once it holds more than this many bytes (SENDBUF_THRESHOLD). */
  const SENDBUF_THRESHOLD: int := 3028

  /**
   * read_ste's padding: the number of zero bytes that makes header, payload
   * and padding a multiple of 4.
   */
  function Pad(readsize: nat): (pad: nat)
    ensures pad <= 3
    ensures (HEADER_SIZE + readsize + pad) % 4 == 0
  {
    var remain := (HEADER_SIZE + readsize) % 4;
    if remain != 0 then 4 - remain else 0
  }

  /** The two header fields as they appear on the wire. */
  function Header(len: int, orglen: int): (h: seq<byte>)
    requires IsU32(len) && IsU32(orglen)
    ensures |h| == HEADER_SIZE
    ensures FromBigEndian32(h[..4]) == len && FromBigEndian32(h[4..]) == orglen
  {
    BigEndian32RoundTrip(len);
    BigEndian32RoundTrip(orglen);
    assert (BigEndian32(len) + BigEndian32(orglen))[..4] == BigEndian32(len);
    assert (BigEndian32(len) + BigEndian32(orglen))[4..] == BigEndian32(orglen);
    BigEndian32(len) + BigEndian32(orglen)
  }

  /** A message as it is framed on the wire: the header and len bytes of payload. */
  datatype Message = Message(len: int, orglen: int, payload: seq<byte>)

  /**
   * A message sted's decoder accepts without loss: orglen is a valid frame
   * length, the payload is len bytes, it holds the frame (orglen <= len) and
   * fits wdatabuf.
   */
  predicate WellFormed(m: Message)
  {
    1 <= m.orglen <= ETHERMAX && m.orglen <= m.len <= STRBUFSIZE && |m.payload| == m.len
  }

  /** The Ethernet frame a message carries: its first orglen payload bytes. */
  function Frame(m: Message): seq<byte>
    requires WellFormed(m)
  {
    m.payload[..m.orglen]
  }

  function Wire(m: Message): (w: seq<byte>)
    requires WellFormed(m)
    ensures |w| == HEADER_SIZE + m.len
  {
    Header(m.len, m.orglen) + m.payload
  }

  /** The bytes of a whole stream of messages, back to back. */
  function WireAll(ms: seq<Message>): seq<byte>
    requires forall i :: 0 <= i < |ms| ==> WellFormed(ms[i])
  {
    if ms == [] then [] else Wire(ms[0]) + WireAll(ms[1..])
  }

  function Frames(ms: seq<Message>): (fs: seq<seq<byte>>)
    requires forall i :: 0 <= i < |ms| ==> WellFormed(ms[i])
    ensures |fs| == |ms|
    ensures forall i :: 0 <= i < |ms| ==> fs[i] == Frame(ms[i])
  {
    if ms == [] then [] else [Frame(ms[0])] + Frames(ms[1..])
  }

  /** The message read_ste builds around a frame read from the device. */
  function Encapsulate(frame: seq<byte>): (m: Message)
    requires 1 <= |frame| <= ETHERMAX
    ensures WellFormed(m) && Frame(m) == frame
    ensures m.orglen == |frame| && m.len == |frame| + Pad(|frame|)
  {
    var p := Pad(|frame|);
    assert (frame + Zeros(p))[..|frame|] == frame;
    Message(|frame| + p, |frame|, frame + Zeros(p))
  }

  /**
   * The bytes read_ste appends to sendbuf for one frame: the header with
   * len = readsize + pad and orglen = readsize, the frame, pad zero bytes.
   */
  function EncodeMessage(frame: seq<byte>): (w: seq<byte>)
    requires |frame| <= SOCKBUFSIZE
    ensures |w| == HEADER_SIZE + |frame| + Pad(|frame|) && |w| % 4 == 0
    ensures w[HEADER_SIZE..HEADER_SIZE + |frame|] == frame
    ensures forall i :: HEADER_SIZE + |frame| <= i < |w| ==> w[i] == 0
    ensures FromBigEndian32(w[..4]) == |frame| + Pad(|frame|)
    ensures FromBigEndian32(w[4..8]) == |frame|
  {
    var p := Pad(|frame|);
    var h := Header(|frame| + p, |frame|);
    var w := h + frame + Zeros(p);
    assert w[..4] == h[..4] && w[4..8] == h[4..];
    assert w[HEADER_SIZE..HEADER_SIZE + |frame|] == frame;
    w
  }

  /** The three pieces read_ste writes. */
  lemma EncodeMessageParts(frame: seq<byte>, pad: nat)
    requires |frame| <= SOCKBUFSIZE && pad == Pad(|frame|)
    ensures EncodeMessage(frame) == Header(|frame| + pad, |frame|) + frame + Zeros(pad)
  {
  }

  /** What read_ste appends is the wire form of the frame's message. */
  lemma EncodeMessageIsWire(frame: seq<byte>)
    requires 1 <= |frame| <= ETHERMAX
    ensures EncodeMessage(frame) == Wire(Encapsulate(frame))
  {
    var p := Pad(|frame|);
    assert Header(|frame| + p, |frame|) + frame + Zeros(p) == Header(|frame| + p, |frame|) + (frame + Zeros(p));
  }

  /** The worked examples of the padding rule: 46 bytes get 2 bytes of padding, 1500 none. */
  lemma PadExamples()
    ensures Pad(46) == 2 && 46 + Pad(46) == 48
    ensures Pad(1500) == 0 && Pad(ETHERMAX) == 2
  {
  }
}
