/** The message channel of the three connection classes: the current client
    (src/shared/Connection.cpp), the older client (src/Connection.cpp) and the
    older server (server/ConnectionServer.cpp). A channel frames every payload
    with a sentinel, reads until the accumulated text ends with the sentinel,
    splits it into messages, hands out the first and queues the rest, and
    switches to sealed-box encryption after a public-key handshake.

    The socket is replaced by a script of recv results and by the text the
    channel has written so far. */
module Connection {
  import opened Wrappers
  import opened Text
  import opened Hex
  import opened SealedBox
  import opened Framing

  const INTERNAL: string := "INTERNAL::"
  const DATA: string := "DATA::"
  const PUBLIC_KEY_TAG: string := "INTERNAL::publicKey:"

  /** recv sizes: the current client reads into a buffer of its configured
      size, the older client 64 bytes at a time, the server 256 KiB. */
  const LEGACY_READ: nat := 64
  const SERVER_READ: nat := 256 * 1024

  const CLIENT_RECV_FAILED := "Could not receive message from server"
  const SERVER_DISCONNECTED := "server disconnected"
  const SERVER_TIMEOUT := "timeout"
  const CLIENT_GONE := "client disconnected or could not receive message"
  const SEND_ODD := "Invalid message to send"
  const NO_PUBLIC_KEY := "Could not receive pubKey"
  const SOCKOPT_FAILED := "setsockopt failed"
  /** The script of recv results ran out: nothing more arrives. */
  const STARVED := "no more data on the socket"

  datatype Flavor = Client | LegacyClient | Server

  /** errno as it stands after a recv call; WaitAll is an errno equal to the
      value of MSG_WAITALL, which the older client also treats as retryable.
      Any other errno carries the text strerror gives for it. */
  datatype Errno = NoError | Again | WouldBlock | WaitAll | OtherErrno(text: string)

  /** strerror as glibc words it: EWOULDBLOCK is EAGAIN on Linux, and
      MSG_WAITALL is 0x100, which is no errno glibc knows. */
  function StrError(e: Errno): string {
    match e
    case NoError => "Success"
    case Again => "Resource temporarily unavailable"
    case WouldBlock => "Resource temporarily unavailable"
    case WaitAll => "Unknown error 256"
    case OtherErrno(text) => text
  }

  /** The clients' receive error names errno. */
  function RecvFailed(e: Errno): string {
    CLIENT_RECV_FAILED + ": " + StrError(e)
  }

  /** One recv result: data that is ready to be read (recv hands out at most
      the buffer's capacity of it), or a failure (-1). */
  datatype Recv = Got(data: string, errno: Errno) | Failed(errno: Errno)

  /** Whether receiveWTime measured a duration (a read happened) or returned
      zero (the message came from the queue). */
  datatype Timing = Zero | Measured

  datatype Conn = Conn(
    flavor: Flavor,
    end: string,
    keys: KeyPair,
    remoteKey: seq<byte>,
    encrypted: bool,
    active: bool,
    queue: seq<string>,
    more: bool,
    bufferSize: nat,
    out: string)
  {
    /** _moreInBuffer mirrors a non-empty queue; the sentinel is a non-empty
        C string literal; the older classes use their fixed sentinels. */
    predicate Valid() {
      && |end| > 0 && '\0' !in end
      && (more <==> |queue| > 0)
      && |keys.pub| == PUBLICKEYBYTES
      && (flavor == LegacyClient ==> end == LEGACY_CLIENT_END)
      && (flavor == Server ==> end == SERVER_END)
    }
  }

  /** A connected client of the current kind; its sentinel comes from a
      header that is not part of this model, so it is a parameter. */
  function NewClient(end: string, keys: KeyPair, bufferSize: nat): (c: Conn)
    requires |end| > 0 && '\0' !in end && |keys.pub| == PUBLICKEYBYTES
    ensures c.Valid() && !c.encrypted && !c.more && c.out == ""
  {
    Conn(Client, end, keys, [], false, true, [], false, bufferSize, "")
  }

  function NewLegacyClient(keys: KeyPair): (c: Conn)
    requires |keys.pub| == PUBLICKEYBYTES
    ensures c.Valid() && !c.encrypted && !c.more && c.out == ""
  {
    Conn(LegacyClient, LEGACY_CLIENT_END, keys, [], false, true, [], false, LEGACY_READ, "")
  }

  /** A server connection: _active starts true (server/ConnectionServer.hpp:55). */
  function NewServer(keys: KeyPair): (c: Conn)
    requires |keys.pub| == PUBLICKEYBYTES
    ensures c.Valid() && !c.encrypted && !c.more && c.active && c.out == ""
  {
    Conn(Server, SERVER_END, keys, [], false, true, [], false, SERVER_READ, "")
  }

  /** How many bytes one recv call may hand out. */
  function Capacity(c: Conn): (n: nat)
    ensures c.flavor != Client ==> n > 0
  {
    match c.flavor
    case Client => c.bufferSize
    case LegacyClient => LEGACY_READ
    case Server => SERVER_READ
  }

  /** resizeBuffer: later reads hand out up to newSize bytes. */
  function ResizeBuffer(c: Conn, newSize: nat): (r: Conn)
    requires c.flavor == Client
    ensures Capacity(r) == newSize
    ensures r.(bufferSize := c.bufferSize) == c
  {
    c.(bufferSize := newSize)
  }

  // ---------------------------------------------------------------- sending

  /** The payload as it goes on the wire: sealed and hex-encoded once the
      channel is encrypted. */
  function WirePayload(box: Box, c: Conn, payload: string): (w: string)
    ensures c.encrypted ==> AllHex(w) && |w| % 2 == 0
    ensures !c.encrypted ==> w == payload
  {
    if c.encrypted then SealHex(box, c.remoteKey, payload) else payload
  }

  /** send: seal when encrypted, refuse an odd length where the class checks
      it, append the sentinel and write. The current client checks the length
      only of sealed text; the older client checks every payload; the server
      does not check and skips the write when inactive. */
  function Send(box: Box, c: Conn, payload: string): (r: Result<Conn>)
    ensures r.Err? <==>
      (c.flavor == LegacyClient || (c.flavor == Client && c.encrypted)) &&
      |WirePayload(box, c, payload)| % 2 != 0
    ensures r.Err? ==> r.error == SEND_ODD
    ensures r.Ok? && c.flavor == Server && !c.active ==> r.value == c
    ensures r.Ok? && (c.flavor != Server || c.active) ==>
      r.value == c.(out := c.out + WirePayload(box, c, payload) + c.end)
  {
    var text := WirePayload(box, c, payload);
    if (c.flavor == LegacyClient || (c.flavor == Client && c.encrypted)) && |text| % 2 != 0 then
      Err(SEND_ODD)
    else if c.flavor == Server && !c.active then Ok(c)
    else Ok(c.(out := c.out + text + c.end))
  }

  function SendInternal(box: Box, c: Conn, m: string): (r: Result<Conn>)
    ensures r == Send(box, c, INTERNAL + m)
  {
    Send(box, c, INTERNAL + m)
  }

  function SendData(box: Box, c: Conn, m: string): (r: Result<Conn>)
    ensures r == Send(box, c, DATA + m)
  {
    Send(box, c, DATA + m)
  }

  /** The odd-length check of the current client never fires: sealed hex
      always has even length. */
  lemma EncryptedSendSucceeds(box: Box, c: Conn, payload: string)
    requires c.flavor == Client
    ensures Send(box, c, payload).Ok?
  {
  }

  /** The older client refuses every odd-length plaintext, even before the
      handshake. */
  lemma LegacyRefusesOddPlaintext(box: Box, c: Conn, payload: string)
    requires c.flavor == LegacyClient && !c.encrypted && |payload| % 2 == 1
    ensures Send(box, c, payload) == Err(SEND_ODD)
  {
  }

  /** Sending several payloads in order. */
  function SendAll(box: Box, c: Conn, payloads: seq<string>): (r: Result<Conn>)
    requires c.flavor != LegacyClient
    ensures r.Ok? && r.value.(out := c.out) == c
    decreases |payloads|
  {
    if |payloads| == 0 then Ok(c)
    else
      var c1 := Send(box, c, payloads[0]).value;
      assert c1.(out := c.out) == c;
      SendAll(box, c1, payloads[1..])
  }

  /** What several sends write is the frame of their wire payloads; a server
      that is not active writes nothing. */
  lemma SendAllFrames(box: Box, c: Conn, payloads: seq<string>)
    requires c.flavor != LegacyClient
    ensures c.flavor != Server || c.active ==>
      SendAll(box, c, payloads).value.out == c.out + Frame(WireAll(box, c, payloads), c.end)
    ensures c.flavor == Server && !c.active ==> SendAll(box, c, payloads).value == c
  {
    if c.flavor == Server && !c.active {
      SendAllSilent(box, c, payloads);
    } else {
      SendAllWrites(box, c, payloads);
    }
  }

  lemma {:induction false} SendAllSilent(box: Box, c: Conn, payloads: seq<string>)
    requires c.flavor == Server && !c.active
    ensures SendAll(box, c, payloads).value == c
    decreases |payloads|
  {
    if |payloads| > 0 {
      SendAllSilent(box, c, payloads[1..]);
    }
  }

  lemma {:induction false} SendAllWrites(box: Box, c: Conn, payloads: seq<string>)
    requires c.flavor == Client || (c.flavor == Server && c.active)
    ensures SendAll(box, c, payloads).value.out == c.out + Frame(WireAll(box, c, payloads), c.end)
    decreases |payloads|
  {
    if |payloads| > 0 {
      var c1 := SendStep(box, c, payloads);
      SendAllWrites(box, c1, payloads[1..]);
      FrameStep(WireAll(box, c, payloads), c.end);
    }
  }

  /** One send of several: the channel after the first, whose wire payloads
      for the rest are those of c. */
  lemma SendStep(box: Box, c: Conn, payloads: seq<string>) returns (c1: Conn)
    requires c.flavor == Client || (c.flavor == Server && c.active)
    requires |payloads| > 0
    ensures c1 == c.(out := c.out + WirePayload(box, c, payloads[0]) + c.end)
    ensures SendAll(box, c, payloads) == SendAll(box, c1, payloads[1..])
    ensures WireAll(box, c1, payloads[1..]) == WireAll(box, c, payloads)[1..]
  {
    c1 := Send(box, c, payloads[0]).value;
  }

  lemma FrameStep(ws: seq<string>, end: string)
    requires |ws| > 0
    ensures Frame(ws, end) == ws[0] + end + Frame(ws[1..], end)
  {
  }

  /** The wire payloads of several messages sent on c. */
  function WireAll(box: Box, c: Conn, payloads: seq<string>): (ws: seq<string>)
    ensures |ws| == |payloads|
    ensures forall i :: 0 <= i < |ws| ==> ws[i] == WirePayload(box, c, payloads[i])
  {
    if |payloads| == 0 then [] else [WirePayload(box, c, payloads[0])] + WireAll(box, c, payloads[1..])
  }

  // ---------------------------------------------------------------- reading

  /** The measure recv scripts decrease by. */
  function Head(script: seq<Recv>): nat {
    if |script| > 0 && script[0].Got? then |script[0].data| else 0
  }

  predicate Progress(script: seq<Recv>, rest: seq<Recv>) {
    |rest| < |script| || (|rest| == |script| && Head(rest) < Head(script))
  }

  /** One recv call of at most cap bytes; what does not fit stays ready for
      the next call. */
  function Take(script: seq<Recv>, cap: nat): (r: (Recv, seq<Recv>))
    requires |script| > 0
    ensures r.0.Got? ==> script[0].Got? && |r.0.data| <= cap && StartsWith(script[0].data, r.0.data)
    ensures r.0.Got? ==> r.0.errno == script[0].errno
    ensures r.0.Failed? ==> r.0 == script[0] && r.1 == script[1..]
    ensures (r.0.Got? && |r.0.data| > 0) || cap > 0 ==> Progress(script, r.1)
  {
    match script[0]
    case Got(d, e) =>
      if |d| > cap then (Got(d[..cap], e), [Got(d[cap..], e)] + script[1..])
      else (script[0], script[1..])
    case Failed(_) => (script[0], script[1..])
  }

  /** _receive / the read loop of receive: read until the accumulated text
      ends with the sentinel. The current client fails on a failed read, on a
      read after which errno says EAGAIN or EWOULDBLOCK, and on an empty read;
      it appends exactly the bytes read. The older client retries failed reads
      with a retryable errno; the server fails on every failed read. Both
      older classes keep reading after an empty read and append the buffer as
      a C string. */
  function ReadLoop(flavor: Flavor, end: string, cap: nat, acc: string, script: seq<Recv>)
    : (r: Result<(string, seq<Recv>)>)
    requires flavor != Client ==> cap > 0
    ensures r.Ok? ==> EndsWith(r.value.0, end) && StartsWith(r.value.0, acc)
    ensures EndsWith(acc, end) ==> r == Ok((acc, script))
    decreases |script|, Head(script)
  {
    if EndsWith(acc, end) then Ok((acc, script))
    else if |script| == 0 then Err(STARVED)
    else
      var (got, rest) := Take(script, cap);
      match flavor
      case Client =>
        if got.Failed? || got.errno == Again || got.errno == WouldBlock then Err(RecvFailed(got.errno))
        else if |got.data| == 0 then Err(SERVER_DISCONNECTED)
        else ReadLoop(flavor, end, cap, acc + got.data, rest)
      case LegacyClient =>
        if got.Failed? then
          if got.errno == Again || got.errno == WouldBlock || got.errno == WaitAll then
            ReadLoop(flavor, end, cap, acc, rest)
          else Err(RecvFailed(got.errno))
        else ReadLoop(flavor, end, cap, acc + CString(got.data), rest)
      case Server =>
        if got.Failed? then
          if got.errno != Again && got.errno != WouldBlock then Err(CLIENT_GONE)
          else Err(SERVER_TIMEOUT)
        else ReadLoop(flavor, end, cap, acc + CString(got.data), rest)
  }

  /** Split the accumulated text: the server finds and erases, the clients
      scan with a moving start position. */
  function SplitText(flavor: Flavor, text: string, end: string): (r: (string, seq<string>))
    requires |end| > 0
    ensures r == FirstAndRest(SplitScan(text, end, 0))
  {
    if flavor == Server then
      ScanEqualsErase(text, end, 0);
      assert text[0..] == text;
      FirstAndRest(SplitErase(text, end))
    else FirstAndRest(SplitScan(text, end, 0))
  }

  /** Open every queued message in order; the first failure is reported. */
  function OpenAll(box: Box, kp: KeyPair, msgs: seq<string>, checkOdd: bool): (r: Result<seq<string>>)
    ensures r.Ok? ==> |r.value| == |msgs|
    ensures r.Ok? ==> forall i :: 0 <= i < |msgs| ==> SecretOpen(box, kp, msgs[i], checkOdd) == Ok(r.value[i])
    ensures (forall i :: 0 <= i < |msgs| ==> SecretOpen(box, kp, msgs[i], checkOdd).Ok?) ==> r.Ok?
  {
    if |msgs| == 0 then Ok([])
    else
      var h :- SecretOpen(box, kp, msgs[0], checkOdd);
      var t :- OpenAll(box, kp, msgs[1..], checkOdd);
      Ok([h] + t)
  }

  /** The result of a receive: the channel afterwards, the message, whether a
      duration was measured, and the recv results still to come. */
  datatype Step = Step(conn: Conn, message: string, timing: Timing, rest: seq<Recv>)

  /** receive / receiveWTime. A queued message is handed out without I/O and
      with zero duration. Otherwise the channel script, splits, opens every
      segment when encrypted, and queues all but the first. A client that
      receives a message containing the public-key tag decodes the remote key
      from the 21st character on, answers with its own key (sealed only if it
      was already encrypted) and from then on is encrypted. */
  function Receive(box: Box, c: Conn, script: seq<Recv>): (r: Result<Step>)
    requires c.Valid()
    ensures r.Ok? ==> r.value.conn.Valid()
    ensures c.more ==> r == Ok(Step(c.(queue := c.queue[1..], more := |c.queue| > 1), c.queue[0], Zero, script))
    ensures r.Ok? && !c.more ==> r.value.timing == Measured
    ensures r.Ok? ==> c.encrypted ==> r.value.conn.encrypted
    ensures r.Ok? ==> r.value.conn.flavor == c.flavor && r.value.conn.keys == c.keys && r.value.conn.end == c.end
  {
    if c.more then
      Ok(Step(c.(queue := c.queue[1..], more := |c.queue| > 1), c.queue[0], Zero, script))
    else
      var got :- ReadLoop(c.flavor, c.end, Capacity(c), "", script);
      Deliver(box, c, got.0, got.1)
  }

  /** What receive does with the text it read: split, open when encrypted,
      queue all but the first, and answer a public-key announcement. */
  function Deliver(box: Box, c: Conn, text: string, rest: seq<Recv>): (r: Result<Step>)
    requires c.Valid() && !c.more
    ensures r.Ok? ==> r.value.conn.Valid() && r.value.timing == Measured && r.value.rest == rest
    ensures r.Ok? ==> c.encrypted ==> r.value.conn.encrypted
    ensures r.Ok? ==> r.value.conn.flavor == c.flavor && r.value.conn.keys == c.keys && r.value.conn.end == c.end
  {
    var (first, queued) := SplitText(c.flavor, text, c.end);
    var message :- if c.encrypted then SecretOpen(box, c.keys, first, c.flavor != Server) else Ok(first);
    var queue :- if c.encrypted then OpenAll(box, c.keys, queued, c.flavor != Server) else Ok(queued);
    var c1 := c.(queue := queue, more := |queue| > 0);
    if c.flavor != Server && Contains(message, PUBLIC_KEY_TAG) then AcceptKey(box, c1, message, rest)
    else Ok(Step(c1, message, Measured, rest))
  }

  /** A client's answer to the server's key: decode the key from the 21st
      character on, send the own key (sealed only if already encrypted), and
      be encrypted from then on. */
  function AcceptKey(box: Box, c: Conn, message: string, rest: seq<Recv>): (r: Result<Step>)
    requires c.Valid() && c.flavor != Server && Contains(message, PUBLIC_KEY_TAG)
    ensures r.Ok? ==> r.value.conn.Valid() && r.value.conn.encrypted
    ensures r.Ok? ==> r.value == Step(r.value.conn, message, Measured, rest)
    ensures r.Ok? ==> r.value.conn.flavor == c.flavor && r.value.conn.keys == c.keys && r.value.conn.end == c.end
  {
    ContainsLength(message, PUBLIC_KEY_TAG);
    var key :- DecodeKey(message[|PUBLIC_KEY_TAG|..]);
    var c2 := Send(box, c.(remoteKey := key), PUBLIC_KEY_TAG + KeyHex(c.keys.pub)).value;
    Ok(Step(c2.(encrypted := true), message, Measured, rest))
  }

  /** Corrected delivery: a client answers a key announcement only while it
      is not yet encrypted. Once encrypted, every opened message is data,
      even one that holds the public-key tag, so the channel's key and
      output stay as they were. */
  function DeliverCorrected(box: Box, c: Conn, text: string, rest: seq<Recv>): (r: Result<Step>)
    requires c.Valid() && !c.more
    ensures r.Ok? ==> r.value.conn.Valid() && r.value.timing == Measured && r.value.rest == rest
    ensures r.Ok? ==> r.value.conn.flavor == c.flavor && r.value.conn.keys == c.keys && r.value.conn.end == c.end
    ensures r.Ok? && c.encrypted ==>
      r.value.conn == c.(queue := r.value.conn.queue, more := |r.value.conn.queue| > 0)
  {
    if !c.encrypted then Deliver(box, c, text, rest)
    else
      var (first, queued) := SplitText(c.flavor, text, c.end);
      var message :- SecretOpen(box, c.keys, first, c.flavor != Server);
      var queue :- OpenAll(box, c.keys, queued, c.flavor != Server);
      Ok(Step(c.(queue := queue, more := |queue| > 0), message, Measured, rest))
  }

  /** The two deliveries differ only where an encrypted client opens a
      message holding the public-key tag. */
  lemma DeliverCorrectedAgrees(box: Box, c: Conn, text: string, rest: seq<Recv>)
    requires c.Valid() && !c.more
    ensures var r := DeliverCorrected(box, c, text, rest);
      (c.flavor == Server || !c.encrypted || r.Err? || !Contains(r.value.message, PUBLIC_KEY_TAG))
      <==> Deliver(box, c, text, rest) == r
  {
    var r := DeliverCorrected(box, c, text, rest);
    if c.flavor != Server && c.encrypted && r.Ok? && Contains(r.value.message, PUBLIC_KEY_TAG) {
      var d := Deliver(box, c, text, rest);
      if d.Ok? {
        assert d.value.conn.out != c.out by {
          AcceptKeySends(box, r.value.conn, r.value.message, rest);
        }
      }
    }
  }

  /** Answering a key always writes the own key to the output. */
  lemma AcceptKeySends(box: Box, c: Conn, message: string, rest: seq<Recv>)
    requires c.Valid() && c.flavor != Server && Contains(message, PUBLIC_KEY_TAG)
    ensures AcceptKey(box, c, message, rest).Ok? ==> |AcceptKey(box, c, message, rest).value.conn.out| > |c.out|
  {
  }

  /** receive / receiveWTime with the corrected delivery. */
  function ReceiveCorrected(box: Box, c: Conn, script: seq<Recv>): (r: Result<Step>)
    requires c.Valid()
    ensures r.Ok? ==> r.value.conn.Valid()
    ensures c.more ==> r == Ok(Step(c.(queue := c.queue[1..], more := |c.queue| > 1), c.queue[0], Zero, script))
    ensures r.Ok? && c.encrypted ==> r.value.conn.remoteKey == c.remoteKey && r.value.conn.out == c.out
    ensures r.Ok? ==> r.value.conn.flavor == c.flavor && r.value.conn.keys == c.keys && r.value.conn.end == c.end
  {
    if c.more then
      Ok(Step(c.(queue := c.queue[1..], more := |c.queue| > 1), c.queue[0], Zero, script))
    else
      var got :- ReadLoop(c.flavor, c.end, Capacity(c), "", script);
      DeliverCorrected(box, c, got.0, got.1)
  }

  /** receiveInternal / receiveData: the tag must occur somewhere in the
      message, and then its length is cut from the front. */
  function StripTag(message: string, tag: string, error: string): (r: Result<string>)
    ensures r.Ok? <==> Contains(message, tag)
    ensures r.Err? ==> r.error == error
    ensures r.Ok? ==> |r.value| + |tag| == |message| && EndsWith(message, r.value)
  {
    if !Contains(message, tag) then Err(error)
    else
      ContainsLength(message, tag);
      Ok(message[|tag|..])
  }

  /** The error texts of the tag helpers; the server appends the message,
      after ": " for the internal tag and after a bare ":" for the data tag. */
  function TagError(c: Conn, which: string, message: string): string {
    var base := "Invalid message received (" + which + ")";
    if c.flavor != Server then base
    else if which == "data" then base + ":" + message
    else base + ": " + message
  }

  function ReceiveTagged(box: Box, c: Conn, script: seq<Recv>, tag: string, which: string): (r: Result<Step>)
    requires c.Valid()
    ensures r.Ok? ==> r.value.conn.Valid()
    ensures Receive(box, c, script).Err? ==> r.Err?
    ensures Receive(box, c, script).Ok? ==>
      var s := Receive(box, c, script).value;
      && (r.Ok? <==> Contains(s.message, tag))
      && (r.Ok? ==> r.value.conn == s.conn && r.value.rest == s.rest && r.value.timing == s.timing)
      && (r.Ok? ==> s.message == s.message[..|tag|] + r.value.message)
  {
    var s :- Receive(box, c, script);
    var body :- StripTag(s.message, tag, TagError(c, which, s.message));
    Ok(s.(message := body))
  }

  function ReceiveInternal(box: Box, c: Conn, script: seq<Recv>): (r: Result<Step>)
    requires c.Valid()
    ensures r == ReceiveTagged(box, c, script, INTERNAL, "internal")
  {
    ReceiveTagged(box, c, script, INTERNAL, "internal")
  }

  function ReceiveData(box: Box, c: Conn, script: seq<Recv>): (r: Result<Step>)
    requires c.Valid()
    ensures r == ReceiveTagged(box, c, script, DATA, "data")
  {
    ReceiveTagged(box, c, script, DATA, "data")
  }

  // ---------------------------------------------------------- server set-up

  /** initEncryption: announce the own key in plain text, receive the
      client's announcement (the tag must occur in it), decode the key from
      the 21st character on, open the messages queued behind it, and only
      then become encrypted. */
  function InitEncryption(box: Box, c: Conn, script: seq<Recv>): (r: Result<(Conn, seq<Recv>)>)
    requires c.Valid() && c.flavor == Server
    ensures r.Ok? ==> r.value.0.Valid() && r.value.0.encrypted
    ensures r.Ok? ==> r.value.0.keys == c.keys && r.value.0.active == c.active
    ensures r.Ok? && c.active ==>
      StartsWith(r.value.0.out, c.out + WirePayload(box, c, PUBLIC_KEY_TAG + KeyHex(c.keys.pub)) + c.end)
  {
    var c1 := Send(box, c, PUBLIC_KEY_TAG + KeyHex(c.keys.pub)).value;
    var s :- Receive(box, c1, script);
    if !Contains(s.message, PUBLIC_KEY_TAG) then Err(NO_PUBLIC_KEY)
    else
      ContainsLength(s.message, PUBLIC_KEY_TAG);
      var key :- DecodeKey(s.message[|PUBLIC_KEY_TAG|..]);
      var queue :- OpenAll(box, c.keys, s.conn.queue, false);
      Ok((s.conn.(remoteKey := key, queue := queue, encrypted := true), s.rest))
  }

  /** init: set the receive timeout, run the handshake, then mark the
      connection active. */
  function Init(box: Box, c: Conn, timeoutSet: bool, script: seq<Recv>): (r: Result<(Conn, seq<Recv>)>)
    requires c.Valid() && c.flavor == Server
    ensures !timeoutSet ==> r == Err(SOCKOPT_FAILED)
    ensures r.Ok? <==> timeoutSet && InitEncryption(box, c, script).Ok?
    ensures r.Ok? ==> r.value.0.active && r.value.0.encrypted && r.value.0.Valid()
  {
    if !timeoutSet then Err(SOCKOPT_FAILED)
    else
      var done :- InitEncryption(box, c, script);
      Ok((done.0.(active := true), done.1))
  }

  /** After resizeBuffer(0) the current client's next recv hands out no
      bytes however many are ready; it returns 0, which reads as the server
      having disconnected. */
  lemma EmptyBufferDisconnects(end: string, acc: string, data: string, rest: seq<Recv>)
    requires !EndsWith(acc, end)
    ensures ReadLoop(Client, end, 0, acc, [Got(data, NoError)] + rest) == Err(SERVER_DISCONNECTED)
  {
  }

  // ------------------------------------------- the older client's retry path

  /** size_t arithmetic: memset receives the signed size of the previous
      read converted to an unsigned 64-bit length. */
  const SIZE_T_LIMIT: int := 0x1_0000_0000_0000_0000
  /** The older client's receive buffer (src/Connection.h:71). */
  const LEGACY_BUFFER: nat := 4096
  const OVERRUN := "memset past the end of the receive buffer"

  /** The length clearBuffer clears, given what the previous recv returned. */
  function ClearLength(previous: int): (n: nat)
    requires -1 <= previous
    ensures 0 <= previous ==> n == previous
    ensures previous < 0 ==> n == SIZE_T_LIMIT - 1 && n > LEGACY_BUFFER
  {
    if previous < 0 then previous + SIZE_T_LIMIT else previous
  }

  /** The older client's read loop as written: every iteration first clears
      as many bytes as the previous recv returned, so the iteration after a
      retried failure clears 2^64 - 1 bytes of a 4096-byte buffer. */
  function LegacyReadAsWritten(end: string, acc: string, previous: int, script: seq<Recv>)
    : (r: Result<(string, seq<Recv>)>)
    requires -1 <= previous
    ensures r.Ok? ==> EndsWith(r.value.0, end) && StartsWith(r.value.0, acc)
    decreases |script|, Head(script)
  {
    if EndsWith(acc, end) then Ok((acc, script))
    else if ClearLength(previous) > LEGACY_BUFFER then Err(OVERRUN)
    else if |script| == 0 then Err(STARVED)
    else
      var (got, rest) := Take(script, LEGACY_READ);
      if got.Failed? then
        if got.errno == Again || got.errno == WouldBlock || got.errno == WaitAll then
          LegacyReadAsWritten(end, acc, -1, rest)
        else Err(RecvFailed(got.errno))
      else LegacyReadAsWritten(end, acc + CString(got.data), |got.data|, rest)
  }

  predicate NoFailures(script: seq<Recv>) {
    forall i :: 0 <= i < |script| ==> script[i].Got?
  }

  /** Without failed reads the loop as written and the retrying loop agree. */
  lemma {:induction false} LegacyAgreesWithoutFailures(end: string, acc: string, previous: int, script: seq<Recv>)
    requires 0 <= previous <= LEGACY_READ && NoFailures(script)
    ensures LegacyReadAsWritten(end, acc, previous, script) == ReadLoop(LegacyClient, end, LEGACY_READ, acc, script)
    decreases |script|, Head(script)
  {
    if !EndsWith(acc, end) && |script| > 0 {
      var (got, rest) := Take(script, LEGACY_READ);
      assert NoFailures(rest) by {
        if |script[0].data| > LEGACY_READ {
          assert rest == [Got(script[0].data[LEGACY_READ..], script[0].errno)] + script[1..];
        }
      }
      LegacyAgreesWithoutFailures(end, acc + CString(got.data), |got.data|, rest);
    }
  }

  /** The retrying loop: a retryable failure adds nothing and reading goes
      on. */
  lemma LegacyRetries(end: string, acc: string, e: Errno, script: seq<Recv>)
    requires !EndsWith(acc, end) && (e == Again || e == WouldBlock || e == WaitAll)
    ensures ReadLoop(LegacyClient, end, LEGACY_READ, acc, [Failed(e)] + script) ==
            ReadLoop(LegacyClient, end, LEGACY_READ, acc, script)
  {
    assert ([Failed(e)] + script)[1..] == script;
  }

  /** One EAGAIN before the sentinel arrives: the retrying loop reads the
      sentinel, the loop as written overruns its buffer. */
  lemma LegacyRetryOverruns()
    ensures LegacyReadAsWritten(LEGACY_CLIENT_END, "", 0, [Failed(Again), Got(LEGACY_CLIENT_END, NoError)]) == Err(OVERRUN)
    ensures ReadLoop(LegacyClient, LEGACY_CLIENT_END, LEGACY_READ, "", [Failed(Again), Got(LEGACY_CLIENT_END, NoError)]) ==
            Ok((LEGACY_CLIENT_END, []))
  {
    OverrunAfterRetry();
    LegacyRetries(LEGACY_CLIENT_END, "", Again, [Got(LEGACY_CLIENT_END, NoError)]);
    SentinelRead(LEGACY_CLIENT_END);
  }

  lemma OverrunAfterRetry()
    ensures LegacyReadAsWritten(LEGACY_CLIENT_END, "", 0, [Failed(Again), Got(LEGACY_CLIENT_END, NoError)]) == Err(OVERRUN)
  {
    var script := [Failed(Again), Got(LEGACY_CLIENT_END, NoError)];
    var rest := [Got(LEGACY_CLIENT_END, NoError)];
    assert script[1..] == rest;
    assert Take(script, LEGACY_READ) == (Failed(Again), rest);
    assert LegacyReadAsWritten(LEGACY_CLIENT_END, "", -1, rest) == Err(OVERRUN);
  }

  /** A sentinel that arrives in one read ends the retrying loop. */
  lemma SentinelRead(end: string)
    requires 0 < |end| <= LEGACY_READ && '\0' !in end
    ensures ReadLoop(LegacyClient, end, LEGACY_READ, "", [Got(end, NoError)]) == Ok((end, []))
  {
    LegacyReads(end, "", end, NoError);
    SentinelEnds(end);
  }

  /** The retrying loop appends a read that fits its buffer as a C string. */
  lemma LegacyReads(end: string, acc: string, d: string, e: Errno)
    requires !EndsWith(acc, end) && |d| <= LEGACY_READ
    ensures ReadLoop(LegacyClient, end, LEGACY_READ, acc, [Got(d, e)]) ==
            ReadLoop(LegacyClient, end, LEGACY_READ, acc + CString(d), [])
  {
    assert Take([Got(d, e)], LEGACY_READ) == (Got(d, e), []);
  }

  lemma SentinelEnds(end: string)
    requires 0 < |end| && '\0' !in end
    ensures "" + CString(end) == end && EndsWith(end, end)
  {
    assert end[|end| - |end|..] == end;
  }
}
