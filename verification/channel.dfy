/** Properties of the message channel: what one receive hands out when the
    peer sent framed messages and the reads end only at the last sentinel;
    what a loop of receives hands out however the bytes were cut into reads;
    FIFO order of the queue; the key handshake between a client and the
    server; and the tag helpers. */
module Channel {
  import opened Wrappers
  import opened Text
  import opened Hex
  import opened SealedBox
  import opened Framing
  import opened Connection

  /** Reads that each deliver one piece of the peer's text, with errno
      untouched. */
  function Script(chunks: seq<string>): (s: seq<Recv>)
    ensures |s| == |chunks|
    ensures forall i :: 0 <= i < |s| ==> s[i] == Got(chunks[i], NoError)
  {
    seq(|chunks|, i requires 0 <= i < |chunks| => Got(chunks[i], NoError))
  }

  /** Every piece is non-empty and fits one recv; for the older client and
      the server, which append what they read as a C string, it also holds
      no NUL byte. The current client appends exactly the bytes read. */
  predicate Pieces(flavor: Flavor, chunks: seq<string>, cap: nat) {
    forall i :: 0 <= i < |chunks| ==> 0 < |chunks[i]| <= cap && (flavor != Client ==> '\0' !in chunks[i])
  }

  /** The accumulated text ends with the sentinel only after the last piece. */
  predicate StopsOnlyAtEnd(acc: string, chunks: seq<string>, end: string) {
    forall i :: 0 <= i < |chunks| ==> !EndsWith(acc + Concat(chunks[..i]), end)
  }

  /** The read loop consumes exactly the pieces up to the first point where
      the accumulated text ends with the sentinel. */
  lemma {:induction false} ReadChunks(flavor: Flavor, end: string, cap: nat, acc: string,
                                      chunks: seq<string>, tail: seq<Recv>)
    requires flavor != Client ==> cap > 0
    requires Pieces(flavor, chunks, cap) && StopsOnlyAtEnd(acc, chunks, end)
    requires EndsWith(acc + Concat(chunks), end)
    ensures ReadLoop(flavor, end, cap, acc, Script(chunks) + tail) == Ok((acc + Concat(chunks), tail))
    decreases |chunks|
  {
    var script := Script(chunks) + tail;
    if |chunks| == 0 {
      assert acc + Concat(chunks) == acc;
      assert script == tail;
    } else {
      assert chunks[..0] == [];
      assert acc + Concat(chunks[..0]) == acc;
      assert script[0] == Got(chunks[0], NoError);
      assert Take(script, cap) == (Got(chunks[0], NoError), Script(chunks[1..]) + tail) by {
        assert script[1..] == Script(chunks[1..]) + tail;
      }
      if flavor != Client {
        assert CString(chunks[0]) == chunks[0];
      }
      var acc' := acc + chunks[0];
      forall i | 0 <= i < |chunks[1..]|
        ensures !EndsWith(acc' + Concat(chunks[1..][..i]), end)
      {
        ConcatPrefixStep(chunks, i);
        assert acc' + Concat(chunks[1..][..i]) == acc + Concat(chunks[..i + 1]);
      }
      assert acc' + Concat(chunks[1..]) == acc + Concat(chunks);
      ReadChunks(flavor, end, cap, acc', chunks[1..], tail);
    }
  }

  /** Splitting a text of framed clean messages gives the first message and
      the others in order, for both split algorithms. */
  lemma SplitFrames(flavor: Flavor, msgs: seq<string>, end: string)
    requires |end| > 0 && |msgs| > 0
    requires forall i :: 0 <= i < |msgs| ==> Clean(msgs[i], end)
    ensures SplitText(flavor, Frame(msgs, end), end) == (msgs[0], msgs[1..])
  {
    FrameRoundTrip(msgs, end);
  }

  /** A receive with nothing queued reads and then delivers what it read. */
  lemma ReceiveReads(box: Box, c: Conn, script: seq<Recv>, text: string, rest: seq<Recv>)
    requires c.Valid() && !c.more
    requires ReadLoop(c.flavor, c.end, Capacity(c), "", script) == Ok((text, rest))
    ensures Receive(box, c, script) == Deliver(box, c, text, rest)
  {
  }

  /** Delivering without a key announcement: split, open when encrypted,
      queue. */
  lemma DeliverUnqueued(box: Box, c: Conn, text: string, rest: seq<Recv>, message: string, queue: seq<string>)
    requires c.Valid() && !c.more
    requires !c.encrypted ==> SplitText(c.flavor, text, c.end) == (message, queue)
    requires c.encrypted ==>
      var (first, queued) := SplitText(c.flavor, text, c.end);
      SecretOpen(box, c.keys, first, c.flavor != Server) == Ok(message) &&
      OpenAll(box, c.keys, queued, c.flavor != Server) == Ok(queue)
    requires c.flavor == Server || !Contains(message, PUBLIC_KEY_TAG)
    ensures Deliver(box, c, text, rest) == Ok(Step(c.(queue := queue, more := |queue| > 0), message, Measured, rest))
  {
  }

  /** Plain receive: with nothing queued, a receive that reads the frames of
      clean messages, in reads of which only the last ends with the
      sentinel, returns the first and queues the others in order, and leaves
      later reads alone. ReceiveAll covers the other cuts. On a client the
      first message must not hold the public-key tag: the client takes such a
      message for the server's key announcement and answers it. */
  lemma ReceivePlain(box: Box, c: Conn, msgs: seq<string>, chunks: seq<string>, tail: seq<Recv>)
    requires c.Valid() && !c.more && !c.encrypted
    requires |msgs| > 0 && forall i :: 0 <= i < |msgs| ==> Clean(msgs[i], c.end)
    requires Concat(chunks) == Frame(msgs, c.end)
    requires Pieces(c.flavor, chunks, Capacity(c)) && StopsOnlyAtEnd("", chunks, c.end)
    requires c.flavor == Server || !Contains(msgs[0], PUBLIC_KEY_TAG)
    ensures Receive(box, c, Script(chunks) + tail) ==
      Ok(Step(c.(queue := msgs[1..], more := |msgs| > 1), msgs[0], Measured, tail))
  {
    assert "" + Concat(chunks) == Concat(chunks);
    ReadChunks(c.flavor, c.end, Capacity(c), "", chunks, tail);
    SplitFrames(c.flavor, msgs, c.end);
    ReceiveReads(box, c, Script(chunks) + tail, Frame(msgs, c.end), tail);
    DeliverUnqueued(box, c, Frame(msgs, c.end), tail, msgs[0], msgs[1..]);
  }

  /** The hex of each message sealed to key. */
  function SealAll(box: Box, key: seq<byte>, msgs: seq<string>): (ws: seq<string>)
    ensures |ws| == |msgs|
    ensures forall i :: 0 <= i < |ws| ==> ws[i] == SealHex(box, key, msgs[i])
  {
    seq(|msgs|, i requires 0 <= i < |msgs| => SealHex(box, key, msgs[i]))
  }

  /** What an encrypted sender writes is the sealed hex of its payloads. */
  lemma WireIsSealed(box: Box, sender: Conn, msgs: seq<string>)
    requires sender.encrypted
    ensures WireAll(box, sender, msgs) == SealAll(box, sender.remoteKey, msgs)
  {
  }

  /** Opening what was sealed to the own key gives the messages back. */
  lemma OpenAllSealed(box: Box, kp: KeyPair, msgs: seq<string>, checkOdd: bool)
    requires Sound(box)
    ensures OpenAll(box, kp, SealAll(box, kp.pub, msgs), checkOdd) == Ok(msgs)
  {
    var sealed := SealAll(box, kp.pub, msgs);
    forall i | 0 <= i < |msgs|
      ensures SecretOpen(box, kp, sealed[i], checkOdd) == Ok(msgs[i])
    {
      SealOpenRoundTrip(box, kp, msgs[i], checkOdd);
    }
    var r := OpenAll(box, kp, sealed, checkOdd);
    assert r.Ok?;
    assert r.value == msgs by {
      forall i | 0 <= i < |msgs|
        ensures r.value[i] == msgs[i]
      {
        assert SecretOpen(box, kp, sealed[i], checkOdd) == Ok(r.value[i]);
      }
    }
  }

  lemma SealedClean(box: Box, key: seq<byte>, msgs: seq<string>, end: string)
    requires |end| > 0 && !IsHexChar(end[0])
    ensures forall i :: 0 <= i < |msgs| ==> Clean(SealAll(box, key, msgs)[i], end)
  {
    var sealed := SealAll(box, key, msgs);
    forall i | 0 <= i < |sealed|
      ensures Clean(sealed[i], end)
    {
      HexClean(sealed[i], end);
    }
  }

  /** Encrypted receive: the same, for messages the peer sealed to this
      channel's public key, again in reads of which only the last ends with
      the sentinel. Sealed hex is clean for any sentinel that starts with a
      non-hex character. On a client the first message must not hold the
      public-key tag, which even an encrypted client answers as a key
      announcement (KeyTagBreaksDelivery). */
  lemma ReceiveSealed(box: Box, c: Conn, msgs: seq<string>, chunks: seq<string>, tail: seq<Recv>)
    requires Sound(box)
    requires c.Valid() && !c.more && c.encrypted && !IsHexChar(c.end[0])
    requires |msgs| > 0
    requires Concat(chunks) == Frame(SealAll(box, c.keys.pub, msgs), c.end)
    requires Pieces(c.flavor, chunks, Capacity(c)) && StopsOnlyAtEnd("", chunks, c.end)
    requires c.flavor == Server || !Contains(msgs[0], PUBLIC_KEY_TAG)
    ensures Receive(box, c, Script(chunks) + tail) ==
      Ok(Step(c.(queue := msgs[1..], more := |msgs| > 1), msgs[0], Measured, tail))
  {
    assert "" + Concat(chunks) == Concat(chunks);
    ReadChunks(c.flavor, c.end, Capacity(c), "", chunks, tail);
    ReceiveReads(box, c, Script(chunks) + tail, Frame(SealAll(box, c.keys.pub, msgs), c.end), tail);
    DeliverSealed(box, c, msgs, tail);
  }

  lemma DeliverSealed(box: Box, c: Conn, msgs: seq<string>, tail: seq<Recv>)
    requires Sound(box)
    requires c.Valid() && !c.more && c.encrypted && !IsHexChar(c.end[0])
    requires |msgs| > 0
    requires c.flavor == Server || !Contains(msgs[0], PUBLIC_KEY_TAG)
    ensures Deliver(box, c, Frame(SealAll(box, c.keys.pub, msgs), c.end), tail) ==
      Ok(Step(c.(queue := msgs[1..], more := |msgs| > 1), msgs[0], Measured, tail))
  {
    var sealed := SealAll(box, c.keys.pub, msgs);
    SealedClean(box, c.keys.pub, msgs, c.end);
    SplitFrames(c.flavor, sealed, c.end);
    var checkOdd := c.flavor != Server;
    SealOpenRoundTrip(box, c.keys, msgs[0], checkOdd);
    assert sealed[1..] == SealAll(box, c.keys.pub, msgs[1..]);
    OpenAllSealed(box, c.keys, msgs[1..], checkOdd);
    DeliverUnqueued(box, c, Frame(sealed, c.end), tail, msgs[0], msgs[1..]);
  }

  /** A proper prefix of the frame of one clean message never ends with the
      sentinel, so the read loop cannot stop early however the frame is cut. */
  lemma SingleFrameStops(m: string, end: string, chunks: seq<string>)
    requires |end| > 0 && Clean(m, end)
    requires Concat(chunks) == m + end
    requires forall i :: 0 <= i < |chunks| ==> 0 < |chunks[i]|
    ensures StopsOnlyAtEnd("", chunks, end)
  {
    forall i | 0 <= i < |chunks|
      ensures !EndsWith("" + Concat(chunks[..i]), end)
    {
      var p := Concat(chunks[..i]);
      assert chunks == chunks[..i] + chunks[i..];
      ConcatAppend(chunks[..i], chunks[i..]);
      assert Concat(chunks[i..]) == chunks[i] + Concat(chunks[i + 1..]) by {
        assert chunks[i..][1..] == chunks[i + 1..];
      }
      assert |p| < |m + end|;
      assert p == (m + end)[..|p|];
      assert "" + p == p;
      if |p| >= |end| {
        var j := |p| - |end|;
        assert !OccursAt(m + end, end, j);
        assert p[j..] == (m + end)[j..j + |end|];
      }
    }
  }

  /** Receiving a queued message takes no I/O; receiving as many times as
      messages are queued returns them in order and empties the queue. */
  function ReceiveMany(box: Box, c: Conn, n: nat, script: seq<Recv>): (r: Result<(Conn, seq<string>, seq<Recv>)>)
    requires c.Valid()
    ensures r.Ok? ==> r.value.0.Valid() && |r.value.1| == n
    decreases n
  {
    if n == 0 then Ok((c, [], script))
    else
      var s :- Receive(box, c, script);
      var more :- ReceiveMany(box, s.conn, n - 1, s.rest);
      Ok((more.0, [s.message] + more.1, more.2))
  }

  lemma {:induction false} DrainQueue(box: Box, c: Conn, script: seq<Recv>)
    requires c.Valid()
    ensures ReceiveMany(box, c, |c.queue|, script) == Ok((c.(queue := [], more := false), c.queue, script))
    decreases |c.queue|
  {
    if |c.queue| > 0 {
      var c1 := c.(queue := c.queue[1..], more := |c.queue| > 1);
      DrainQueue(box, c1, script);
      assert c1.(queue := [], more := false) == c.(queue := [], more := false);
      assert Receive(box, c, script) == Ok(Step(c1, c.queue[0], Zero, script));
      assert [c.queue[0]] + c1.queue == c.queue;
    } else {
      assert c == c.(queue := [], more := false);
    }
  }

  // ------------------------------------------------------- any cut into reads

  /** The first read batch: the pieces the read loop consumes before it
      first stops cover the frames of the first j messages exactly, and the
      pieces after them cover the frames of the rest. */
  lemma FirstBatch(msgs: seq<string>, end: string, chunks: seq<string>) returns (k: nat, j: nat)
    requires |end| > 0 && Unbordered(end) && |msgs| > 0
    requires forall i :: 0 <= i < |msgs| ==> Clean(msgs[i], end)
    requires Concat(chunks) == Frame(msgs, end)
    ensures 0 < k <= |chunks| && 0 < j <= |msgs|
    ensures StopsOnlyAtEnd("", chunks[..k], end)
    ensures Concat(chunks[..k]) == Frame(msgs[..j], end)
    ensures Concat(chunks[k..]) == Frame(msgs[j..], end)
  {
    assert chunks[..|chunks|] == chunks;
    k := 1;
    while !EndsWith(Concat(chunks[..k]), end)
      invariant 0 < k <= |chunks|
      invariant forall i :: 0 <= i < k ==> !EndsWith(Concat(chunks[..i]), end)
      decreases |chunks| - k
    {
      k := k + 1;
    }
    forall i | 0 <= i < k
      ensures !EndsWith("" + Concat(chunks[..k][..i]), end)
    {
      assert chunks[..k][..i] == chunks[..i];
      assert "" + Concat(chunks[..i]) == Concat(chunks[..i]);
    }
    assert chunks == chunks[..k] + chunks[k..];
    ConcatAppend(chunks[..k], chunks[k..]);
    j := FrameBoundary(msgs, end, Concat(chunks[..k]));
    FrameAppend(msgs, j, end);
  }

  /** Cutting the pieces in two cuts their reads in two. */
  lemma ScriptSplit(chunks: seq<string>, k: nat, tail: seq<Recv>)
    requires k <= |chunks|
    ensures Script(chunks) + tail == Script(chunks[..k]) + (Script(chunks[k..]) + tail)
  {
    var a, b := Script(chunks[..k]), Script(chunks[k..]) + tail;
    assert |Script(chunks) + tail| == |a + b|;
    forall i | 0 <= i < |a + b|
      ensures (Script(chunks) + tail)[i] == (a + b)[i]
    {
      if i < k {
        assert (a + b)[i] == a[i];
      } else {
        assert (a + b)[i] == b[i - k];
      }
    }
  }

  /** What the peer's sender puts on the wire for these messages. */
  function Wire(box: Box, c: Conn, msgs: seq<string>): (ws: seq<string>)
    ensures |ws| == |msgs|
  {
    if c.encrypted then SealAll(box, c.keys.pub, msgs) else msgs
  }

  /** Receiving once per queued message and once per framed message hands
      them all out in order, empties the queue and leaves the later reads. */
  predicate Delivers(box: Box, c: Conn, msgs: seq<string>, script: seq<Recv>, tail: seq<Recv>)
    requires c.Valid()
  {
    ReceiveMany(box, c, |c.queue| + |msgs|, script) == Ok((c.(queue := [], more := false), c.queue + msgs, tail))
  }

  /** A queued message handed out first keeps the rest delivered. */
  lemma QueuedThen(box: Box, c: Conn, msgs: seq<string>, script: seq<Recv>, tail: seq<Recv>)
    requires c.Valid() && c.more
    requires Delivers(box, c.(queue := c.queue[1..], more := |c.queue| > 1), msgs, script, tail)
    ensures Delivers(box, c, msgs, script, tail)
  {
    var c1 := c.(queue := c.queue[1..], more := |c.queue| > 1);
    assert [c.queue[0]] + (c1.queue + msgs) == c.queue + msgs;
    StepThenDelivers(box, c, script, Step(c1, c.queue[0], Zero, script), msgs, tail);
    DeliversFrom(box, c, msgs, script, tail, |c1.queue| + |msgs| + 1, c1.(queue := [], more := false), [c.queue[0]] + (c1.queue + msgs));
  }

  /** No messages and no pieces: nothing to receive. */
  lemma NothingLeft(box: Box, c: Conn, chunks: seq<string>, tail: seq<Recv>)
    requires c.Valid() && !c.more
    requires Concat(chunks) == "" && Pieces(c.flavor, chunks, Capacity(c))
    ensures Delivers(box, c, [], Script(chunks) + tail, tail)
  {
    assert Script(chunks) + tail == tail;
    assert c == c.(queue := [], more := false) && c.queue + [] == [];
  }

  /** The first receive with nothing queued reads exactly the first batch,
      hands out its first message and queues the rest of the batch. */
  lemma FirstReceive(box: Box, c: Conn, msgs: seq<string>, chunks: seq<string>, tail: seq<Recv>, k: nat, j: nat)
    requires c.Valid() && !c.more
    requires 0 < k <= |chunks| && 0 < j <= |msgs|
    requires c.encrypted ==> Sound(box) && !IsHexChar(c.end[0])
    requires !c.encrypted ==> forall i :: 0 <= i < |msgs| ==> Clean(msgs[i], c.end)
    requires Concat(chunks[..k]) == Frame(Wire(box, c, msgs[..j]), c.end)
    requires Pieces(c.flavor, chunks, Capacity(c)) && StopsOnlyAtEnd("", chunks[..k], c.end)
    requires c.flavor == Server || !Contains(msgs[0], PUBLIC_KEY_TAG)
    ensures Receive(box, c, Script(chunks) + tail) ==
      Ok(Step(c.(queue := msgs[..j][1..], more := j > 1), msgs[0], Measured, Script(chunks[k..]) + tail))
  {
    var rest := Script(chunks[k..]) + tail;
    ScriptSplit(chunks, k, tail);
    if c.encrypted {
      ReceiveSealed(box, c, msgs[..j], chunks[..k], rest);
    } else {
      ReceivePlain(box, c, msgs[..j], chunks[..k], rest);
    }
  }

  lemma FirstAndRestJoin(msgs: seq<string>, j: nat)
    requires 0 < j <= |msgs|
    ensures [msgs[0]] + (msgs[..j][1..] + msgs[j..]) == msgs
  {
    assert msgs[..j][1..] + msgs[j..] == msgs[1..];
  }

  /** A receive that read a batch, followed by the receives that drain it
      and read on, delivers everything in order. */
  lemma ReadThen(box: Box, c: Conn, first: string, q: seq<string>, r: seq<string>, script: seq<Recv>, rest: seq<Recv>, tail: seq<Recv>)
    requires c.Valid() && !c.more
    requires Receive(box, c, script) == Ok(Step(c.(queue := q, more := |q| > 0), first, Measured, rest))
    requires Delivers(box, c.(queue := q, more := |q| > 0), r, rest, tail)
    ensures Delivers(box, c, [first] + (q + r), script, tail)
  {
    var c1 := c.(queue := q, more := |q| > 0);
    StepThenDelivers(box, c, script, Step(c1, first, Measured, rest), r, tail);
    DeliversFrom(box, c, [first] + (q + r), script, tail, |c1.queue| + |r| + 1, c1.(queue := [], more := false), [first] + (c1.queue + r));
  }

  /** One receive, then the rest delivered from where it left off. */
  lemma StepThenDelivers(box: Box, c: Conn, script: seq<Recv>, s: Step, r: seq<string>, tail: seq<Recv>)
    requires c.Valid() && s.conn.Valid() && Receive(box, c, script) == Ok(s)
    requires Delivers(box, s.conn, r, s.rest, tail)
    ensures ReceiveMany(box, c, |s.conn.queue| + |r| + 1, script) == Ok((s.conn.(queue := [], more := false), [s.message] + (s.conn.queue + r), tail))
  {
  }

  /** Receiving a times is receiving b times when a = b. */
  lemma ReceiveManyCount(box: Box, c: Conn, a: nat, b: nat, script: seq<Recv>)
    requires c.Valid() && a == b
    ensures ReceiveMany(box, c, a, script) == ReceiveMany(box, c, b, script)
  {
  }

  /** On a connection with nothing queued, Delivers is |msgs| receives
      returning msgs and the same connection. */
  lemma DeliversFresh(box: Box, c: Conn, msgs: seq<string>, script: seq<Recv>, tail: seq<Recv>)
    requires c.Valid() && !c.more && Delivers(box, c, msgs, script, tail)
    ensures ReceiveMany(box, c, |msgs|, script) == Ok((c, msgs, tail))
  {
    assert c.queue == [] && c.(queue := [], more := false) == c && c.queue + msgs == msgs;
    ReceiveManyCount(box, c, |c.queue| + |msgs|, |msgs|, script);
  }

  /** Delivers, read off a ReceiveMany result whose count and messages are only equal to the expected ones. */
  lemma DeliversFrom(box: Box, c: Conn, msgs: seq<string>, script: seq<Recv>, tail: seq<Recv>, n: nat, done: Conn, got: seq<string>)
    requires c.Valid() && n == |c.queue| + |msgs| && done == c.(queue := [], more := false) && got == c.queue + msgs
    requires ReceiveMany(box, c, n, script) == Ok((done, got, tail))
    ensures Delivers(box, c, msgs, script, tail)
  {
  }

  /** The first batch of the wire text: where the read loop first stops. */
  lemma NextBatch(box: Box, c: Conn, msgs: seq<string>, chunks: seq<string>) returns (k: nat, j: nat)
    requires |c.end| > 0 && Unbordered(c.end) && |msgs| > 0
    requires c.encrypted ==> !IsHexChar(c.end[0])
    requires !c.encrypted ==> forall i :: 0 <= i < |msgs| ==> Clean(msgs[i], c.end)
    requires Concat(chunks) == Frame(Wire(box, c, msgs), c.end)
    ensures 0 < k <= |chunks| && 0 < j <= |msgs|
    ensures Concat(chunks[..k]) == Frame(Wire(box, c, msgs[..j]), c.end)
    ensures StopsOnlyAtEnd("", chunks[..k], c.end)
    ensures Concat(chunks[k..]) == Frame(Wire(box, c, msgs[j..]), c.end)
  {
    WireClean(box, c, msgs);
    k, j := FirstBatch(Wire(box, c, msgs), c.end, chunks);
    WireSlices(box, c, msgs, j);
  }

  /** What is left after the first batch meets the same conditions, for the
      channel holding the rest of the batch in its queue. */
  lemma BatchRest(box: Box, c: Conn, msgs: seq<string>, chunks: seq<string>, k: nat, j: nat)
    requires c.Valid() && !c.more && Unbordered(c.end)
    requires 0 < k <= |chunks| && 0 < j <= |msgs|
    requires c.encrypted ==> Sound(box) && !IsHexChar(c.end[0])
    requires !c.encrypted ==> forall i :: 0 <= i < |msgs| ==> Clean(msgs[i], c.end)
    requires Concat(chunks[k..]) == Frame(Wire(box, c, msgs[j..]), c.end) && Pieces(c.flavor, chunks, Capacity(c))
    requires c.flavor == Server || forall i :: 0 <= i < |msgs| ==> !Contains(msgs[i], PUBLIC_KEY_TAG)
    ensures var c1 := c.(queue := msgs[..j][1..], more := j > 1);
      && c1.Valid() && Unbordered(c1.end)
      && (c1.encrypted ==> Sound(box) && !IsHexChar(c1.end[0]))
      && (!c1.encrypted ==> forall i :: 0 <= i < |msgs[j..]| ==> Clean(msgs[j..][i], c1.end))
      && Concat(chunks[k..]) == Frame(Wire(box, c1, msgs[j..]), c1.end) && Pieces(c1.flavor, chunks[k..], Capacity(c1))
      && (c1.flavor == Server || forall i :: 0 <= i < |msgs[j..]| ==> !Contains(msgs[j..][i], PUBLIC_KEY_TAG))
  {
    var c1 := c.(queue := msgs[..j][1..], more := j > 1);
    assert Wire(box, c1, msgs[j..]) == Wire(box, c, msgs[j..]);
  }

  /** What is on the wire is clean: plain messages by assumption, sealed hex
      because the sentinel starts with a non-hex character. */
  lemma WireClean(box: Box, c: Conn, msgs: seq<string>)
    requires |c.end| > 0
    requires c.encrypted ==> !IsHexChar(c.end[0])
    requires !c.encrypted ==> forall i :: 0 <= i < |msgs| ==> Clean(msgs[i], c.end)
    ensures forall i :: 0 <= i < |msgs| ==> Clean(Wire(box, c, msgs)[i], c.end)
  {
    if c.encrypted {
      SealedClean(box, c.keys.pub, msgs, c.end);
    }
  }

  lemma WireSlices(box: Box, c: Conn, msgs: seq<string>, j: nat)
    requires j <= |msgs|
    ensures Wire(box, c, msgs)[..j] == Wire(box, c, msgs[..j])
    ensures Wire(box, c, msgs)[j..] == Wire(box, c, msgs[j..])
  {
    if c.encrypted {
      assert SealAll(box, c.keys.pub, msgs)[..j] == SealAll(box, c.keys.pub, msgs[..j]);
      assert SealAll(box, c.keys.pub, msgs)[j..] == SealAll(box, c.keys.pub, msgs[j..]);
    }
  }

  /** Any cut, by induction on the queued and the framed messages together.
      On a client no framed message may hold the public-key tag. */
  lemma {:induction false} DeliversAll(box: Box, c: Conn, msgs: seq<string>, chunks: seq<string>, tail: seq<Recv>)
    requires c.Valid() && Unbordered(c.end)
    requires c.encrypted ==> Sound(box) && !IsHexChar(c.end[0])
    requires !c.encrypted ==> forall i :: 0 <= i < |msgs| ==> Clean(msgs[i], c.end)
    requires Concat(chunks) == Frame(Wire(box, c, msgs), c.end) && Pieces(c.flavor, chunks, Capacity(c))
    requires c.flavor == Server || forall i :: 0 <= i < |msgs| ==> !Contains(msgs[i], PUBLIC_KEY_TAG)
    ensures Delivers(box, c, msgs, Script(chunks) + tail, tail)
    decreases |c.queue| + |msgs|
  {
    if c.more {
      DeliversAll(box, c.(queue := c.queue[1..], more := |c.queue| > 1), msgs, chunks, tail);
      QueuedThen(box, c, msgs, Script(chunks) + tail, tail);
    } else if |msgs| == 0 {
      NothingLeft(box, c, chunks, tail);
    } else {
      var k, j := NextBatch(box, c, msgs, chunks);
      BatchRest(box, c, msgs, chunks, k, j);
      DeliversAll(box, c.(queue := msgs[..j][1..], more := j > 1), msgs[j..], chunks[k..], tail);
      FirstReceive(box, c, msgs, chunks, tail, k, j);
      FirstAndRestJoin(msgs, j);
      ReadThen(box, c, msgs[0], msgs[..j][1..], msgs[j..], Script(chunks) + tail, Script(chunks[k..]) + tail, tail);
    }
  }

  /** A receive loop over any cut: with nothing queued, receiving once per
      message the peer sent returns the messages in order, leaves the channel
      as it was and leaves later reads alone, whichever way the text was cut
      into reads. A read that ends right after an inner sentinel makes that
      receive queue fewer messages (none, when it ends after the first); the
      next receive then reads on. Without encryption the messages must be
      clean for the sentinel; with it, the peer sealed them to this channel's
      public key. The sentinel must have no border, as both fixed sentinels
      have none (SentinelsAreSafe). On a client no message may hold the
      public-key tag, since the client answers any message that does as a key
      announcement (KeyTagBreaksDelivery). */
  lemma ReceiveAll(box: Box, c: Conn, msgs: seq<string>, chunks: seq<string>, tail: seq<Recv>)
    requires c.Valid() && !c.more && Unbordered(c.end)
    requires c.encrypted ==> Sound(box) && !IsHexChar(c.end[0])
    requires !c.encrypted ==> forall i :: 0 <= i < |msgs| ==> Clean(msgs[i], c.end)
    requires Concat(chunks) == Frame(Wire(box, c, msgs), c.end) && Pieces(c.flavor, chunks, Capacity(c))
    requires c.flavor == Server || forall i :: 0 <= i < |msgs| ==> !Contains(msgs[i], PUBLIC_KEY_TAG)
    ensures ReceiveMany(box, c, |msgs|, Script(chunks) + tail) == Ok((c, msgs, tail))
  {
    DeliversAll(box, c, msgs, chunks, tail);
    DeliversFresh(box, c, msgs, Script(chunks) + tail, tail);
  }

  // ---------------------------------------------------------------- handshake

  /** The key announcement both sides send. */
  function KeyMessage(pub: seq<byte>): (m: string)
    requires |pub| == PUBLICKEYBYTES
    ensures StartsWith(m, PUBLIC_KEY_TAG) && |m| % 2 == 0
  {
    PUBLIC_KEY_TAG + KeyHex(pub)
  }

  /** A client that reads the server's key announcement stores the key,
      answers with its own key in plain text and becomes encrypted. */
  lemma ClientHandshake(box: Box, c: Conn, serverKey: seq<byte>, chunks: seq<string>, tail: seq<Recv>)
    requires c.Valid() && c.flavor != Server && !c.more && !c.encrypted
    requires |serverKey| == PUBLICKEYBYTES
    requires Clean(KeyMessage(serverKey), c.end)
    requires Concat(chunks) == KeyMessage(serverKey) + c.end
    requires Pieces(c.flavor, chunks, Capacity(c))
    ensures Receive(box, c, Script(chunks) + tail) ==
      Ok(Step(c.(remoteKey := serverKey, encrypted := true,
                 out := c.out + KeyMessage(c.keys.pub) + c.end),
              KeyMessage(serverKey), Measured, tail))
  {
    var hello := KeyMessage(serverKey);
    SingleFrameStops(hello, c.end, chunks);
    assert "" + Concat(chunks) == Concat(chunks);
    ReadChunks(c.flavor, c.end, Capacity(c), "", chunks, tail);
    ReceiveReads(box, c, Script(chunks) + tail, hello + c.end, tail);
    DeliverKey(box, c, serverKey, tail);
  }

  /** The server's announcement alone is answered and accepted. */
  lemma DeliverKey(box: Box, c: Conn, serverKey: seq<byte>, tail: seq<Recv>)
    requires c.Valid() && c.flavor != Server && !c.more && !c.encrypted
    requires |serverKey| == PUBLICKEYBYTES
    requires Clean(KeyMessage(serverKey), c.end)
    ensures Deliver(box, c, KeyMessage(serverKey) + c.end, tail) ==
      Ok(Step(c.(remoteKey := serverKey, encrypted := true,
                 out := c.out + KeyMessage(c.keys.pub) + c.end),
              KeyMessage(serverKey), Measured, tail))
  {
    var hello := KeyMessage(serverKey);
    assert Frame([hello], c.end) == hello + c.end;
    SplitFrames(c.flavor, [hello], c.end);
    ContainsWitness(hello, PUBLIC_KEY_TAG, 0);
    assert c.(queue := [], more := false) == c;
    KeyAccepted(box, c, serverKey, tail);
  }

  lemma KeyAccepted(box: Box, c: Conn, serverKey: seq<byte>, tail: seq<Recv>)
    requires c.Valid() && c.flavor != Server && !c.encrypted
    requires |serverKey| == PUBLICKEYBYTES
    requires Contains(KeyMessage(serverKey), PUBLIC_KEY_TAG)
    ensures AcceptKey(box, c, KeyMessage(serverKey), tail) ==
      Ok(Step(c.(remoteKey := serverKey, encrypted := true,
                 out := c.out + KeyMessage(c.keys.pub) + c.end),
              KeyMessage(serverKey), Measured, tail))
  {
    assert KeyMessage(serverKey)[|PUBLIC_KEY_TAG|..] == KeyHex(serverKey);
    KeyRoundTrip(serverKey);
  }

  lemma KeyMessageNoNul(pub: seq<byte>)
    requires |pub| == PUBLICKEYBYTES
    ensures '\0' !in KeyMessage(pub) + SERVER_END
  {
    var h := KeyHex(pub);
    assert forall i :: 0 <= i < |h| ==> h[i] != '\0';
  }

  /** The key announcement holds no '-', so it is clean for both fixed
      sentinels. */
  lemma KeyMessageClean(pub: seq<byte>, end: string)
    requires |pub| == PUBLICKEYBYTES
    requires end == LEGACY_CLIENT_END || end == SERVER_END
    ensures Clean(KeyMessage(pub), end)
  {
    var m := KeyMessage(pub);
    SentinelsAreSafe();
    forall i: nat
      ensures !OccursAt(m, end, i)
    {
      if i + |end| <= |m| {
        assert m[i..i + |end|][3] == m[i + 3];
        assert m[i + 3] != '-' by {
          if i + 3 >= |PUBLIC_KEY_TAG| {
            assert m[i + 3] == KeyHex(pub)[i + 3 - |PUBLIC_KEY_TAG|];
          }
        }
      }
    }
    FindFromNone(m, end, 0);
    UnborderedClean(m, end);
  }

  /** The server's handshake: it announces its key in plain text, reads the
      client's announcement, stores the client's key, opens the messages the
      client sealed behind it, and becomes encrypted. */
  lemma ServerHandshake(box: Box, c: Conn, clientKey: seq<byte>, later: seq<string>,
                        chunks: seq<string>, tail: seq<Recv>)
    requires Sound(box)
    requires c.Valid() && c.flavor == Server && !c.more && !c.encrypted
    requires |clientKey| == PUBLICKEYBYTES
    requires Concat(chunks) == Frame([KeyMessage(clientKey)] + SealAll(box, c.keys.pub, later), c.end)
    requires Pieces(c.flavor, chunks, Capacity(c)) && StopsOnlyAtEnd("", chunks, c.end)
    ensures InitEncryption(box, c, Script(chunks) + tail) ==
      Ok((c.(remoteKey := clientKey, encrypted := true, queue := later, more := |later| > 0,
             out := if c.active then c.out + KeyMessage(c.keys.pub) + c.end else c.out), tail))
  {
    var c1 := Send(box, c, KeyMessage(c.keys.pub)).value;
    var sealed := SealAll(box, c.keys.pub, later);
    var msgs := [KeyMessage(clientKey)] + sealed;
    KeyMessageClean(clientKey, c.end);
    SentinelsAreSafe();
    SealedClean(box, c.keys.pub, later, c.end);
    assert forall i :: 0 <= i < |msgs| ==> Clean(msgs[i], c.end) by {
      forall i | 0 <= i < |msgs|
        ensures Clean(msgs[i], c.end)
      {
        if i > 0 {
          assert msgs[i] == sealed[i - 1];
        }
      }
    }
    ReceivePlain(box, c1, msgs, chunks, tail);
    assert msgs[1..] == sealed;
    var hello := KeyMessage(clientKey);
    ContainsWitness(hello, PUBLIC_KEY_TAG, 0);
    assert hello[|PUBLIC_KEY_TAG|..] == KeyHex(clientKey);
    KeyRoundTrip(clientKey);
    OpenAllSealed(box, c.keys, later, false);
  }

  /** A fresh client and a fresh server that share the server's sentinel end
      the handshake holding each other's keys, both encrypted; the server's
      first words were its key in plain text. */
  lemma HandshakeAgreement(box: Box, serverKeys: KeyPair, clientKeys: KeyPair, bufferSize: nat)
    requires Sound(box)
    requires |serverKeys.pub| == PUBLICKEYBYTES && |clientKeys.pub| == PUBLICKEYBYTES
    requires |KeyMessage(serverKeys.pub) + SERVER_END| <= bufferSize
    ensures
      var hello := KeyMessage(serverKeys.pub) + SERVER_END;
      var cr := Receive(box, NewClient(SERVER_END, clientKeys, bufferSize), [Got(hello, NoError)]);
      && cr.Ok?
      && cr.value.conn.encrypted && cr.value.conn.remoteKey == serverKeys.pub
      && cr.value.conn.out == KeyMessage(clientKeys.pub) + SERVER_END
      && var sr := InitEncryption(box, NewServer(serverKeys), [Got(cr.value.conn.out, NoError)]);
      && sr.Ok?
      && sr.value.0.encrypted && sr.value.0.remoteKey == clientKeys.pub
      && sr.value.0.out == hello && !sr.value.0.more
  {
    ClientAnswers(box, serverKeys.pub, clientKeys, bufferSize);
    ServerAcceptsKey(box, serverKeys, clientKeys.pub);
  }

  /** A fresh client that reads the server's announcement in one piece
      answers with its own key and is encrypted. */
  lemma ClientAnswers(box: Box, serverKey: seq<byte>, clientKeys: KeyPair, bufferSize: nat)
    requires |serverKey| == PUBLICKEYBYTES && |clientKeys.pub| == PUBLICKEYBYTES
    requires |KeyMessage(serverKey) + SERVER_END| <= bufferSize
    ensures Receive(box, NewClient(SERVER_END, clientKeys, bufferSize), [Got(KeyMessage(serverKey) + SERVER_END, NoError)]) ==
      Ok(Step(NewClient(SERVER_END, clientKeys, bufferSize).(remoteKey := serverKey, encrypted := true,
                                                             out := KeyMessage(clientKeys.pub) + SERVER_END),
              KeyMessage(serverKey), Measured, []))
  {
    var c := NewClient(SERVER_END, clientKeys, bufferSize);
    assert Capacity(c) == bufferSize;
    assert c.out + KeyMessage(c.keys.pub) + c.end == KeyMessage(clientKeys.pub) + SERVER_END;
    AnswerAnnouncement(box, c, serverKey);
  }

  /** The same for any unencrypted client on the server's sentinel. */
  lemma AnswerAnnouncement(box: Box, c: Conn, serverKey: seq<byte>)
    requires c.Valid() && c.flavor != Server && !c.more && !c.encrypted && c.end == SERVER_END
    requires |serverKey| == PUBLICKEYBYTES && |KeyMessage(serverKey) + SERVER_END| <= Capacity(c)
    ensures Receive(box, c, [Got(KeyMessage(serverKey) + SERVER_END, NoError)]) ==
      Ok(Step(c.(remoteKey := serverKey, encrypted := true, out := c.out + KeyMessage(c.keys.pub) + c.end),
              KeyMessage(serverKey), Measured, []))
  {
    AnnouncementRead(c, serverKey);
    ReceiveKey(box, c, serverKey, [Got(KeyMessage(serverKey) + SERVER_END, NoError)], []);
  }

  lemma AnnouncementRead(c: Conn, serverKey: seq<byte>)
    requires c.Valid() && c.flavor != Server && c.end == SERVER_END
    requires |serverKey| == PUBLICKEYBYTES && |KeyMessage(serverKey) + SERVER_END| <= Capacity(c)
    ensures Clean(KeyMessage(serverKey), c.end)
    ensures ReadLoop(c.flavor, c.end, Capacity(c), "", [Got(KeyMessage(serverKey) + SERVER_END, NoError)]) ==
            Ok((KeyMessage(serverKey) + c.end, []))
  {
    AnnouncementPiece(c.flavor, serverKey, Capacity(c));
    OneRead(c.flavor, SERVER_END, Capacity(c), KeyMessage(serverKey) + SERVER_END);
  }

  /** A client whose read gives the server's announcement alone answers it. */
  lemma ReceiveKey(box: Box, c: Conn, serverKey: seq<byte>, script: seq<Recv>, rest: seq<Recv>)
    requires c.Valid() && c.flavor != Server && !c.more && !c.encrypted
    requires |serverKey| == PUBLICKEYBYTES
    requires Clean(KeyMessage(serverKey), c.end)
    requires ReadLoop(c.flavor, c.end, Capacity(c), "", script) == Ok((KeyMessage(serverKey) + c.end, rest))
    ensures Receive(box, c, script) ==
      Ok(Step(c.(remoteKey := serverKey, encrypted := true,
                 out := c.out + KeyMessage(c.keys.pub) + c.end),
              KeyMessage(serverKey), Measured, rest))
  {
    ReceiveReads(box, c, script, KeyMessage(serverKey) + c.end, rest);
    DeliverKey(box, c, serverKey, rest);
  }

  /** A text that ends with the sentinel and fits one read is read whole. */
  lemma OneRead(flavor: Flavor, end: string, cap: nat, text: string)
    requires flavor != Client ==> cap > 0
    requires 0 < |end| && 0 < |text| <= cap && (flavor != Client ==> '\0' !in text) && EndsWith(text, end)
    ensures ReadLoop(flavor, end, cap, "", [Got(text, NoError)]) == Ok((text, []))
  {
    assert [text][..0] == [] && "" + Concat([text]) == text;
    ReadChunks(flavor, end, cap, "", [text], []);
    assert Script([text]) + [] == [Got(text, NoError)];
  }

  /** The server's announcement, read in one piece by a client. */
  lemma AnnouncementPiece(flavor: Flavor, serverKey: seq<byte>, bufferSize: nat)
    requires |serverKey| == PUBLICKEYBYTES
    requires |KeyMessage(serverKey) + SERVER_END| <= bufferSize
    ensures var hello := KeyMessage(serverKey) + SERVER_END;
      && Concat([hello]) == hello && Script([hello]) + [] == [Got(hello, NoError)]
      && Pieces(flavor, [hello], bufferSize) && Clean(KeyMessage(serverKey), SERVER_END)
      && 0 < |hello| && '\0' !in hello && EndsWith(hello, SERVER_END)
  {
    SentinelsAreSafe();
    KeyMessageClean(serverKey, SERVER_END);
    KeyMessageNoNul(serverKey);
    OnePiece(flavor, KeyMessage(serverKey) + SERVER_END, bufferSize);
    EndsWithSuffix(KeyMessage(serverKey), SERVER_END);
  }

  /** A text read in one piece. */
  lemma OnePiece(flavor: Flavor, text: string, cap: nat)
    requires 0 < |text| <= cap && (flavor != Client ==> '\0' !in text)
    ensures Concat([text]) == text && Script([text]) + [] == [Got(text, NoError)]
    ensures Pieces(flavor, [text], cap)
  {
    assert Concat([text]) == text + Concat([]);
  }

  /** A fresh server that reads nothing but the client's announcement. */
  lemma ServerAcceptsKey(box: Box, serverKeys: KeyPair, clientKey: seq<byte>)
    requires Sound(box)
    requires |serverKeys.pub| == PUBLICKEYBYTES && |clientKey| == PUBLICKEYBYTES
    ensures
      var sr := InitEncryption(box, NewServer(serverKeys), [Got(KeyMessage(clientKey) + SERVER_END, NoError)]);
      && sr.Ok?
      && sr.value.0.encrypted && sr.value.0.remoteKey == clientKey
      && sr.value.0.out == KeyMessage(serverKeys.pub) + SERVER_END && !sr.value.0.more
  {
    var server0 := NewServer(serverKeys);
    AnnouncementAccepted(box, server0, clientKey);
    assert server0.out + KeyMessage(server0.keys.pub) + SERVER_END == KeyMessage(serverKeys.pub) + SERVER_END;
  }

  /** A server that reads nothing but the client's announcement, in one
      piece, completes the handshake. */
  lemma AnnouncementAccepted(box: Box, c: Conn, clientKey: seq<byte>)
    requires Sound(box) && c.Valid() && c.flavor == Server && !c.more && !c.encrypted
    requires |clientKey| == PUBLICKEYBYTES
    ensures
      var sr := InitEncryption(box, c, [Got(KeyMessage(clientKey) + SERVER_END, NoError)]);
      && sr.Ok?
      && sr.value.0.encrypted && sr.value.0.remoteKey == clientKey && !sr.value.0.more
      && sr.value.0.out == if c.active then c.out + KeyMessage(c.keys.pub) + SERVER_END else c.out
  {
    assert c.end == SERVER_END && Capacity(c) == SERVER_READ;
    LoneAnnouncement(box, c.keys.pub, clientKey);
    ServerHandshake(box, c, clientKey, [], [KeyMessage(clientKey) + c.end], []);
  }

  /** The client's announcement alone, read in one piece, is the frame the
      server's handshake expects. */
  lemma LoneAnnouncement(box: Box, serverPub: seq<byte>, clientKey: seq<byte>)
    requires |clientKey| == PUBLICKEYBYTES
    ensures var reply := KeyMessage(clientKey) + SERVER_END;
      && Concat([reply]) == Frame([KeyMessage(clientKey)] + SealAll(box, serverPub, []), SERVER_END)
      && Pieces(Server, [reply], SERVER_READ) && StopsOnlyAtEnd("", [reply], SERVER_END)
      && Script([reply]) + [] == [Got(reply, NoError)]
  {
    var reply := KeyMessage(clientKey) + SERVER_END;
    assert [KeyMessage(clientKey)] + SealAll(box, serverPub, []) == [KeyMessage(clientKey)];
    assert Frame([KeyMessage(clientKey)], SERVER_END) == reply;
    SentinelsAreSafe();
    KeyMessageClean(clientKey, SERVER_END);
    KeyMessageNoNul(clientKey);
    OnePiece(Server, reply, SERVER_READ);
    SingleFrameStops(KeyMessage(clientKey), SERVER_END, [reply]);
  }

  /** Once both ends are encrypted with each other's keys, whatever single
      message one end sends the other receives unchanged, however the bytes
      are cut into reads, provided a client is not the receiver of a message
      holding the public-key tag (KeyTagBreaksDelivery shows what happens
      then, SealedDeliveryCorrected drops the proviso). */
  lemma SealedDelivery(box: Box, a: Conn, b: Conn, m: string, chunks: seq<string>, tail: seq<Recv>)
    requires Sound(box)
    requires a.Valid() && b.Valid() && a.end == b.end && !IsHexChar(b.end[0])
    requires a.encrypted && b.encrypted && a.remoteKey == b.keys.pub && !b.more
    requires Concat(chunks) == WirePayload(box, a, m) + a.end
    requires Pieces(b.flavor, chunks, Capacity(b))
    requires b.flavor == Server || !Contains(m, PUBLIC_KEY_TAG)
    ensures Receive(box, b, Script(chunks) + tail) == Ok(Step(b, m, Measured, tail))
  {
    var w := WirePayload(box, a, m);
    HexClean(w, b.end);
    SingleFrameStops(w, b.end, chunks);
    assert SealAll(box, b.keys.pub, [m]) == [w];
    assert Frame([w], b.end) == w + b.end;
    ReceiveSealed(box, b, [m], chunks, tail);
    assert b.(queue := [], more := false) == b;
  }

  /** As written, an encrypted client that receives a data message holding
      the public-key tag takes it for a key announcement: the key is decoded
      from the 21st character of the whole message on, and a message longer
      than the tag and a key together makes the receive throw "Could not
      decode public key". A file holding that text cannot be downloaded. */
  lemma KeyTagBreaksDelivery(box: Box, a: Conn, b: Conn, m: string, chunks: seq<string>, tail: seq<Recv>)
    requires Sound(box)
    requires a.Valid() && b.Valid() && a.end == b.end && !IsHexChar(b.end[0])
    requires a.encrypted && b.encrypted && a.remoteKey == b.keys.pub && !b.more
    requires Concat(chunks) == WirePayload(box, a, m) + a.end
    requires Pieces(b.flavor, chunks, Capacity(b))
    requires b.flavor != Server && Contains(m, PUBLIC_KEY_TAG) && |m| > |PUBLIC_KEY_TAG| + 2 * PUBLICKEYBYTES
    ensures Receive(box, b, Script(chunks) + tail) == Err(KEY_DECODE_FAILED)
  {
    var w := WirePayload(box, a, m);
    SealedRead(box, a, b, m, chunks, tail);
    SealedClean(box, b.keys.pub, [m], b.end);
    assert SealAll(box, b.keys.pub, [m]) == [w];
    assert Frame([w], b.end) == w + b.end;
    SplitFrames(b.flavor, [w], b.end);
    SealOpenRoundTrip(box, b.keys, m, b.flavor != Server);
    assert OpenAll(box, b.keys, [], b.flavor != Server) == Ok([]);
    assert DecodeKey(m[|PUBLIC_KEY_TAG|..]) == Err(KEY_DECODE_FAILED);
  }

  /** Such a message exists: a file piece holding the tag followed by 65
      zeros. */
  lemma TaggedPiece() returns (m: string)
    ensures Contains(m, PUBLIC_KEY_TAG) && |m| > |PUBLIC_KEY_TAG| + 2 * PUBLICKEYBYTES
  {
    m := PUBLIC_KEY_TAG + seq(2 * PUBLICKEYBYTES + 1, i => '0');
    assert m[0..|PUBLIC_KEY_TAG|] == PUBLIC_KEY_TAG;
    ContainsWitness(m, PUBLIC_KEY_TAG, 0);
  }

  /** The read half of a sealed delivery: the loop reads the one frame and
      leaves the rest of the script. */
  lemma SealedRead(box: Box, a: Conn, b: Conn, m: string, chunks: seq<string>, tail: seq<Recv>)
    requires a.Valid() && b.Valid() && a.end == b.end && !IsHexChar(b.end[0])
    requires a.encrypted && a.remoteKey == b.keys.pub && !b.more
    requires Concat(chunks) == WirePayload(box, a, m) + a.end
    requires Pieces(b.flavor, chunks, Capacity(b))
    ensures Receive(box, b, Script(chunks) + tail) == Deliver(box, b, WirePayload(box, a, m) + b.end, tail)
    ensures ReceiveCorrected(box, b, Script(chunks) + tail) == DeliverCorrected(box, b, WirePayload(box, a, m) + b.end, tail)
  {
    var w := WirePayload(box, a, m);
    HexClean(w, b.end);
    SingleFrameStops(w, b.end, chunks);
    assert "" + Concat(chunks) == Concat(chunks);
    ReadChunks(b.flavor, b.end, Capacity(b), "", chunks, tail);
  }

  /** Corrected: once both ends are encrypted to each other, whatever single
      message one sends, the other receives unchanged, however the wire
      bytes are cut into reads, public-key tag or not. */
  lemma SealedDeliveryCorrected(box: Box, a: Conn, b: Conn, m: string, chunks: seq<string>, tail: seq<Recv>)
    requires Sound(box)
    requires a.Valid() && b.Valid() && a.end == b.end && !IsHexChar(b.end[0])
    requires a.encrypted && b.encrypted && a.remoteKey == b.keys.pub && !b.more
    requires Concat(chunks) == WirePayload(box, a, m) + a.end
    requires Pieces(b.flavor, chunks, Capacity(b))
    ensures ReceiveCorrected(box, b, Script(chunks) + tail) == Ok(Step(b, m, Measured, tail))
  {
    var w := WirePayload(box, a, m);
    SealedRead(box, a, b, m, chunks, tail);
    SealedClean(box, b.keys.pub, [m], b.end);
    assert SealAll(box, b.keys.pub, [m]) == [w];
    assert Frame([w], b.end) == w + b.end;
    SplitFrames(b.flavor, [w], b.end);
    SealOpenRoundTrip(box, b.keys, m, b.flavor != Server);
    assert OpenAll(box, b.keys, [], b.flavor != Server) == Ok([]);
    assert b.(queue := [], more := false) == b;
  }

  // ---------------------------------------------------------------- tags

  /** A tagged message loses exactly its tag. */
  lemma TagRoundTrip(tag: string, m: string, error: string)
    ensures StripTag(tag + m, tag, error) == Ok(m)
  {
    ContainsWitness(tag + m, tag, 0);
  }

  /** The tag check is a containment test, not a prefix test: a data message
      that mentions the internal tag passes receiveInternal and loses its
      first ten characters rather than its tag. */
  lemma TagAnywhere(m: string, error: string)
    ensures StripTag(DATA + INTERNAL + m, INTERNAL, error) == Ok(INTERNAL[4..] + m)
  {
    var msg := DATA + INTERNAL + m;
    assert msg[|DATA|..|DATA| + |INTERNAL|] == INTERNAL;
    ContainsWitness(msg, INTERNAL, |DATA|);
    assert msg[|INTERNAL|..] == INTERNAL[4..] + m;
  }

  /** Marking the server active after the handshake changes nothing for a
      fresh connection, which starts active. */
  lemma InitActiveRedundant(box: Box, keys: KeyPair, script: seq<Recv>)
    requires |keys.pub| == PUBLICKEYBYTES
    ensures Init(box, NewServer(keys), true, script).Ok? ==>
      Init(box, NewServer(keys), true, script).value == InitEncryption(box, NewServer(keys), script).value
  {
    var r := InitEncryption(box, NewServer(keys), script);
    if r.Ok? {
      assert r.value.0.(active := true) == r.value.0;
    }
  }
}
