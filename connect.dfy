// How sted names its peer and talks to an HTTP proxy: open_socket's split
// of "host[:port]" with strtok, the CONNECT request of send_connect_req
// (section 9.9 of RFC 2616) and its reading of the proxy's status line
// (section 6.1 of RFC 2616).

module Connect {
  import opened Bytes
  import opened CText
  import opened Sockets
  import opened Wrappers

  /** Port used when "host[:port]" gives none (PORT_NO). */
  const PORT_NO: int := 80
  /** The status code that accepts a CONNECT (HTTP_STAT_OK). */
  const HTTP_STAT_OK: int := 200
  /** Size of the hub_name and proxy_name fields of sted_stat (MAXHOSTNAME). */
  const MAXHOSTNAME: int := 30
  /** Size of send_connect_req's request buffer (CONNECT_REQ_SIZE). */
  const CONNECT_REQ_SIZE: int := 200

  /** A host name and the port number atoi read for it. */
  datatype Endpoint = Endpoint(name: string, port: int)

  // ------------------------------------------------------------ host[:port]

  /**
   * open_socket's reading of "host[:port]": the first strtok token is the
   * host (none: the call fails), the second, if any, goes through atoi,
   * otherwise the port is PORT_NO.
   */
  function SplitHostPort(s: string): (r: Option<Endpoint>)
    ensures r.Some? ==> r.value.name != [] && ':' !in r.value.name
    ensures r.Some? && ':' !in s ==> r.value.port == PORT_NO
  {
    var ts := Tokens(s, ':');
    assert ':' !in s && s != [] ==> ts == [s] by {
      if ':' !in s && s != [] { TokensSingle(s, ':'); }
    }
    if ts == [] then None
    else Some(Endpoint(ts[0], if |ts| >= 2 then Atoi(ts[1]) else PORT_NO))
  }

  /** "host:port" is read back as written, for any port %d can print. */
  lemma SplitHostPortFull(h: string, p: int)
    requires h != [] && ':' !in h
    ensures SplitHostPort(h + ":" + Decimal(p)) == Some(Endpoint(h, p))
  {
    DecimalHasNo(p, ':');
    TokensJoin(h, Decimal(p), ':');
    TokensSingle(h, ':');
    TokensSingle(Decimal(p), ':');
    AtoiDecimal(p, []);
    assert Decimal(p) + [] == Decimal(p);
  }

  /** A host without ":port" gets PORT_NO. */
  lemma SplitHostPortDefault(h: string)
    requires h != [] && ':' !in h
    ensures SplitHostPort(h) == Some(Endpoint(h, PORT_NO))
  {
    TokensSingle(h, ':');
  }

  /** The call fails exactly when the argument holds nothing but colons. */
  lemma SplitHostPortMissing(s: string)
    ensures SplitHostPort(s).None? <==> forall i :: 0 <= i < |s| ==> s[i] == ':'
  {
    TokensEmpty(s, ':');
  }

  /**
   * strtok skips leading delimiters, so ":port" names a host called port
   * and uses PORT_NO.
   */
  lemma SplitHostPortLeadingColon(p: nat)
    ensures SplitHostPort(":" + Decimal(p)) == Some(Endpoint(Decimal(p), PORT_NO))
  {
    DecimalHasNo(p, ':');
    TokensJoin([], Decimal(p), ':');
    assert [] + [':'] + Decimal(p) == ":" + Decimal(p);
    TokensSingle(Decimal(p), ':');
  }

  /**
   * What strtok leaves in the caller's argument: a later open_socket on the
   * same buffer sees only the host, and its port falls back to PORT_NO.
   */
  lemma StrtokKeepsHostOnly(s: string)
    ensures SplitHostPort(StrtokLeaves(s, ':'))
            == if SplitHostPort(s).None? then None else Some(Endpoint(SplitHostPort(s).value.name, PORT_NO))
  {
    StrtokLeavesFirstToken(s, ':');
  }

  /** The worked case: "hub:8080" is port 8080 the first time and port 80 the next. */
  lemma ReopenLosesPort(h: string, p: int)
    requires h != [] && ':' !in h
    ensures SplitHostPort(h + ":" + Decimal(p)) == Some(Endpoint(h, p))
    ensures SplitHostPort(StrtokLeaves(h + ":" + Decimal(p), ':')) == Some(Endpoint(h, PORT_NO))
  {
    SplitHostPortFull(h, p);
    StrtokKeepsHostOnly(h + ":" + Decimal(p));
  }

  /**
   * htons((short)port): the 16-bit port number the connection uses; the int
   * from atoi wraps modulo 2^16.
   */
  function WirePort(port: int): (r: int)
    ensures 0 <= r < 0x1_0000 && (r - port) % 0x1_0000 == 0
    ensures 0 <= port < 0x1_0000 ==> r == port
  {
    port % 0x1_0000
  }

  /**
   * strncpy(field, name, MAXHOSTNAME): the characters the field keeps. A
   * name of MAXHOSTNAME characters or more leaves the field without a NUL.
   */
  function RecordedName(name: string): (r: string)
    ensures r <= name && |r| == if |name| < MAXHOSTNAME then |name| else MAXHOSTNAME
  {
    if |name| < MAXHOSTNAME then name else name[..MAXHOSTNAME]
  }

  /** The characters a C string holds: those before the first NUL, or all of them. */
  function UpToNul(s: string): (r: string)
    ensures r <= s && '\0' !in r
    ensures |r| < |s| ==> s[|r|] == '\0'
  {
    if s == [] || s[0] == '\0' then [] else [s[0]] + UpToNul(s[1..])
  }

  /**
   * The text %s reads from a MAXHOSTNAME-byte field holding field. strncpy
   * NUL-pads a shorter name, so %s reads it as recorded; a full field has
   * no NUL, and %s reads on through beyond (the bytes of sted_stat past
   * the field: padding, hub_port, proxy_name, ...) up to the first NUL.
   */
  function FieldText(field: string, beyond: string): (r: string)
    ensures field <= r && r <= field + beyond
    ensures |field| < MAXHOSTNAME ==> r == field
    ensures |field| >= MAXHOSTNAME ==> '\0' !in r[|field|..] && (|r| < |field| + |beyond| ==> beyond[|r| - |field|] == '\0')
  {
    if |field| < MAXHOSTNAME then field else field + UpToNul(beyond)
  }

  /**
   * As written: a hub name of MAXHOSTNAME characters or more, followed in
   * sted_stat by a byte that is not NUL, is sent with characters that are
   * not part of it, so the request is not the one for the recorded name.
   */
  lemma FullHubNameOverreads(name: string, p: int, beyond: string)
    requires |name| >= MAXHOSTNAME && beyond != [] && beyond[0] != '\0'
    ensures FieldText(RecordedName(name), beyond) != RecordedName(name)
    ensures ConnectRequest(FieldText(RecordedName(name), beyond), p) != ConnectRequest(RecordedName(name), p)
  {
    var f := RecordedName(name);
    assert |FieldText(f, beyond)| > |f| by {
      assert UpToNul(beyond) == [beyond[0]] + UpToNul(beyond[1..]);
    }
    ConnectRequestLength(FieldText(f, beyond), p);
    ConnectRequestLength(f, p);
  }

  /** The octets a C string of these characters occupies: each char is one byte. */
  function Octets(s: string): (r: seq<byte>)
    ensures |r| == |s| && forall i :: 0 <= i < |s| ==> r[i] as int == s[i] as int % 0x100
  {
    seq(|s|, i requires 0 <= i < |s| => (s[i] as int % 0x100) as byte)
  }

  // ------------------------------------------------------------ CONNECT

  /** The request send_connect_req sends to the proxy for hub h:p. */
  function ConnectRequest(h: string, p: int): (r: string)
    ensures |r| > 12 && r[..8] == "CONNECT " && r[|r| - 4..] == "\r\n\r\n"
  {
    var auth := h + ":" + Decimal(p);
    "CONNECT" + " " + auth + " " + "HTTP/1.1\r\nHost: " + auth + "\r\n\r\n"
  }

  /** For a hub text of at most MAXHOSTNAME characters and an int port the request fits connect_req. */
  lemma ConnectRequestFits(h: string, p: int)
    requires |h| <= MAXHOSTNAME && -TWO31 <= p < TWO31
    ensures |ConnectRequest(h, p)| < CONNECT_REQ_SIZE
  {
    DecimalInt32Length(p);
  }

  /** The request carries the hub's text twice, around a fixed frame. */
  lemma ConnectRequestLength(h: string, p: int)
    ensures |ConnectRequest(h, p)| == 2 * |h| + 2 * |Decimal(p)| + 31
  {
  }

  /**
   * The request open_socket sends fits connect_req when the hub name is
   * shorter than MAXHOSTNAME, or when a full field is followed by a NUL.
   */
  lemma SentRequestFits(name: string, p: int, beyond: string)
    requires -TWO31 <= p < TWO31
    requires |name| < MAXHOSTNAME || beyond == [] || beyond[0] == '\0'
    ensures |ConnectRequest(FieldText(RecordedName(name), beyond), p)| < CONNECT_REQ_SIZE
  {
    var f := RecordedName(name);
    if |f| >= MAXHOSTNAME {
      assert UpToNul(beyond) == [];
    }
    ConnectRequestFits(FieldText(f, beyond), p);
  }

  /** The authority h:p holds no space when h holds none. */
  lemma AuthorityNoSpace(h: string, p: int)
    requires ' ' !in h
    ensures ' ' !in h + ":" + Decimal(p)
  {
    DecimalHasNo(p, ' ');
    var auth := h + ":" + Decimal(p);
    forall i | 0 <= i < |auth| ensures auth[i] != ' ' {
      if i < |h| {
        assert auth[i] == h[i];
      } else if i > |h| {
        assert auth[i] == Decimal(p)[i - |h| - 1];
      }
    }
  }

  lemma Assoc(a: string, b: string, c: string)
    ensures (a + b) + c == a + (b + c)
  {
  }

  /** The request as the method, a space, the authority, a space and the rest. */
  lemma ConnectRequestShape(h: string, p: int)
    ensures ConnectRequest(h, p)
            == "CONNECT" + [' '] + ((h + ":" + Decimal(p)) + [' '] + ("HTTP/1.1\r\nHost: " + h + ":" + Decimal(p) + "\r\n\r\n"))
  {
    var auth := h + ":" + Decimal(p);
    var m, e := "HTTP/1.1\r\nHost: ", "\r\n\r\n";
    var c := "CONNECT" + [' '];
    var x := auth + [' '];
    Assoc(c, auth, [' ']);
    Assoc(c, x, m);
    Assoc(c, x + m, auth);
    Assoc(c, x + m + auth, e);
    Assoc(x, m, auth);
    Assoc(x, m + auth, e);
    assert m + h + ":" + Decimal(p) + e == m + auth + e by {
      Assoc(m, h, ":");
      Assoc(m, h + ":", Decimal(p));
    }
  }

  /**
   * A proxy splitting the request line at spaces finds the method CONNECT
   * and the authority h:p, which reads back as the hub's endpoint.
   */
  lemma ConnectRequestLine(h: string, p: int)
    requires h != [] && ':' !in h && ' ' !in h
    ensures |Tokens(ConnectRequest(h, p), ' ')| >= 2
    ensures Tokens(ConnectRequest(h, p), ' ')[0] == "CONNECT"
    ensures Tokens(ConnectRequest(h, p), ' ')[1] == h + ":" + Decimal(p)
    ensures SplitHostPort(Tokens(ConnectRequest(h, p), ' ')[1]) == Some(Endpoint(h, p))
  {
    var auth := h + ":" + Decimal(p);
    var tail := "HTTP/1.1\r\nHost: " + h + ":" + Decimal(p) + "\r\n\r\n";
    AuthorityNoSpace(h, p);
    ConnectRequestShape(h, p);
    TokensJoin("CONNECT", auth + [' '] + tail, ' ');
    TokensJoin(auth, tail, ' ');
    TokensSingle("CONNECT", ' ');
    TokensSingle(auth, ' ');
    SplitHostPortFull(h, p);
  }

  // ------------------------------------------------------------ status line

  /**
   * The reply as strtok sees it: the bytes of buf up to the first NUL, each
   * read as a character.
   */
  function ReplyText(data: seq<byte>): (r: string)
    ensures |r| <= |data|
    ensures |r| < |data| ==> data[|r|] == 0
  {
    if data == [] || data[0] == 0 then [] else [(data[0] as int) as char] + ReplyText(data[1..])
  }

  /**
   * send_connect_req's reading of a reply: the second space-delimited token
   * through atoi; 200 gives 0, any other value is returned as it is, and a
   * reply with fewer than two tokens gives -1.
   */
  function StatusOf(text: string): (r: int)
    ensures r != HTTP_STAT_OK
    ensures r == 0 ==> |Tokens(text, ' ')| >= 2 && Atoi(Tokens(text, ' ')[1]) in {0, HTTP_STAT_OK}
  {
    var ts := Tokens(text, ' ');
    if |ts| < 2 then -1
    else
      var code := Atoi(ts[1]);
      if code != HTTP_STAT_OK then code else 0
  }

  /** A status line "version code reason" yields 0 for code 200 and the code otherwise. */
  lemma StatusLineRead(version: string, code: int, reason: string)
    requires version != [] && ' ' !in version
    ensures StatusOf(version + " " + Decimal(code) + " " + reason) == if code == HTTP_STAT_OK then 0 else code
  {
    DecimalHasNo(code, ' ');
    var text := version + " " + Decimal(code) + " " + reason;
    assert text == version + [' '] + (Decimal(code) + [' '] + reason);
    TokensJoin(version, Decimal(code) + [' '] + reason, ' ');
    TokensJoin(Decimal(code), reason, ' ');
    TokensSingle(version, ' ');
    TokensSingle(Decimal(code), ' ');
    AtoiDecimal(code, []);
    assert Decimal(code) + [] == Decimal(code);
  }

  /**
   * A status token without digits reads as 0, which the caller takes for
   * success: "HTTP/1.1 OK" is accepted.
   */
  lemma NonNumericStatusAccepted(text: string)
    requires |Tokens(text, ' ')| >= 2
    requires !exists i :: 0 <= i < |Tokens(text, ' ')[1]| && IsDigit(Tokens(text, ' ')[1][i])
    ensures StatusOf(text) == 0
  {
    AtoiNoDigits(Tokens(text, ' ')[1]);
  }

  /**
   * What send_connect_req observes after building the request: whether send
   * succeeded, whether select left the socket in the read set, recv's
   * outcome, and what buf held past the bytes recv stored. buf is an
   * uninitialised local and recv stores no NUL, so strtok reads on into
   * those stale bytes until it meets a NUL. select's return value is never
   * tested (the test is written `ret = 0`), so only the read set decides.
   */
  datatype Handshake = Handshake(sent: bool, readable: bool, reply: RecvOutcome, stale: seq<byte>)

  /** send_connect_req's return value; open_socket goes on only when it is 0. */
  function ConnectResult(hs: Handshake): int
  {
    if !hs.sent || !hs.readable then -1
    else match hs.reply
      case RecvFailed(e) => if StedTransient(e) then 0 else -1
      case Received(data) => if data == [] then -1 else StatusOf(ReplyText(data + hs.stale))
  }

  /**
   * When the tunnel through the proxy counts as open: a reply whose status
   * reads as 200 (or as 0), or a recv that failed with a transient error,
   * so that no reply at all is also taken for success.
   */
  lemma ConnectAccepted(hs: Handshake)
    ensures ConnectResult(hs) == 0 <==>
              hs.sent && hs.readable &&
              ((hs.reply.RecvFailed? && StedTransient(hs.reply.err)) ||
               (hs.reply.Received? && hs.reply.data != [] && StatusOf(ReplyText(hs.reply.data + hs.stale)) == 0))
  {
  }

  /** Each character strtok sees is the byte at its place in buf, and none of them is NUL. */
  lemma {:induction false} ReplyTextChars(data: seq<byte>)
    ensures forall i :: 0 <= i < |ReplyText(data)| ==> data[i] != 0 && ReplyText(data)[i] as int == data[i] as int
  {
    if data != [] && data[0] != 0 {
      ReplyTextChars(data[1..]);
      var r := ReplyText(data);
      assert r == [(data[0] as int) as char] + ReplyText(data[1..]);
      forall i | 1 <= i < |r| ensures data[i] != 0 && r[i] as int == data[i] as int {
        assert r[i] == ReplyText(data[1..])[i - 1] && data[i] == data[1..][i - 1];
      }
    }
  }

  /** A reply without a NUL runs on into whatever buf held after it. */
  lemma {:induction false} ReplyTextAppend(data: seq<byte>, stale: seq<byte>)
    requires 0 !in data
    ensures ReplyText(data + stale) == ReplyText(data) + ReplyText(stale)
  {
    if data == [] {
      assert data + stale == stale;
    } else {
      assert data[0] != 0 && 0 !in data[1..];
      var c := (data[0] as int) as char;
      assert (data + stale)[0] == data[0] && (data + stale)[1..] == data[1..] + stale;
      ReplyTextAppend(data[1..], stale);
      calc {
        ReplyText(data + stale);
        [c] + ReplyText(data[1..] + stale);
        [c] + (ReplyText(data[1..]) + ReplyText(stale));
        ([c] + ReplyText(data[1..])) + ReplyText(stale);
        ReplyText(data) + ReplyText(stale);
      }
    }
  }

  /** "HTTP/1.1 200" as recv stores it, with no trailing space, CR or NUL. */
  const Reply200: seq<byte> := [0x48, 0x54, 0x54, 0x50, 0x2F, 0x31, 0x2E, 0x31, 0x20, 0x32, 0x30, 0x30]

  lemma Reply200Text()
    ensures 0 !in Reply200 && ReplyText(Reply200) == "HTTP/1.1 200"
  {
    var r := ReplyText(Reply200);
    ReplyTextChars(Reply200);
    assert |r| == 12;
  }

  /** A status line of two tokens, the second a run of digits, reads as that number. */
  lemma StatusOfDigits(version: string, code: string)
    requires version != [] && ' ' !in version
    requires |code| > 0 && AllDigits(code)
    ensures StatusOf(version + [' '] + code) == if DigitsValue(code) == HTTP_STAT_OK then 0 else DigitsValue(code)
  {
    assert ' ' !in code by { assert forall i :: 0 <= i < |code| ==> IsDigit(code[i]); }
    TokensJoin(version, code, ' ');
    TokensSingle(version, ' ');
    TokensSingle(code, ' ');
    AtoiOfDigits(code, []);
    assert code + [] == code;
  }

  /** A NUL right after the reply ends the text there. */
  lemma ReplyTextTerminated(data: seq<byte>)
    requires 0 !in data
    ensures ReplyText(data + [0]) == ReplyText(data)
  {
    ReplyTextAppend(data, [0]);
  }

  /** A stale '5' and a NUL after the reply add a '5' to the text. */
  lemma ReplyTextStaleFive(data: seq<byte>)
    requires 0 !in data
    ensures ReplyText(data + [0x35, 0]) == ReplyText(data) + "5"
  {
    ReplyTextAppend(data, [0x35, 0]);
    assert ReplyText([0x35, 0]) == "5";
  }

  /**
   * The same accepting reply "HTTP/1.1 200", received without a NUL (as
   * Reply200 is), gives 0 when buf held a NUL right after it and the
   * refusal code 2005 when it held a stale '5' first: the outcome depends on
   * bytes recv never wrote.
   */
  lemma StaleBytesDecideStatus(data: seq<byte>)
    requires 0 !in data && ReplyText(data) == "HTTP/1.1 200"
    ensures ConnectResult(Handshake(true, true, Received(data), [0])) == 0
    ensures ConnectResult(Handshake(true, true, Received(data), [0x35, 0])) == 2005
  {
    ReplyTextTerminated(data);
    ReplyTextStaleFive(data);
    assert "HTTP/1.1 200" == "HTTP/1.1" + [' '] + "200";
    assert "HTTP/1.1 200" + "5" == "HTTP/1.1" + [' '] + "2005";
    assert DigitsValue("200") == 200 by {
      assert "200"[..2] == "20" && "20"[..1] == "2" && "2"[..0] == [];
    }
    assert DigitsValue("2005") == 2005 by {
      assert "2005"[..3] == "200";
    }
    StatusOfDigits("HTTP/1.1", "200");
    StatusOfDigits("HTTP/1.1", "2005");
  }
}
