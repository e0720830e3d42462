/** File transfer over the channel: the sender's adaptive chunk loop
    (src/server/ConnectionHandler.cpp:196-232, src/client/main.cpp:17-107),
    the receivers' loops (src/server/ConnectionHandler.cpp:107-131,
    src/client/main.cpp:163-186) and the older server's fixed chunks
    (server/main.cpp:130-156). Round-trip durations enter only through their
    classification, and the bytes of the file are a string. */
module Transfer {
  import opened Wrappers
  import opened Text

  const SERVER_FIRST_CHUNK: nat := 2 * 1024 * 1024
  const CLIENT_FIRST_CHUNK: nat := 1024 * 1024
  const LEGACY_CHUNK: nat := 256 * 1024

  const CONFIRM := "confirm"
  const DONE_MESSAGE := "INTERNAL::DONE"
  /** The error a sender throws when a chunk is not confirmed: the
      handler's, the client's, and the older server's. */
  const SERVER_NOT_CONFIRMED := "sendFile: client did not confirm the chunk"
  const CLIENT_NOT_CONFIRMED := "Server did not confirm the chunk"
  const LEGACY_NOT_CONFIRMED := "main: client did not confirm the chunk"
  /** The scripted replies ran out before the loop ended. */
  const NO_REPLY := "no more replies"
  const RECEIVE_FAILED := "fail"

  /** How long the last send took: over 1.4 s, under 0.3 s, under 0.6 s, or
      anything else. */
  datatype Pace = Slow | Fast | Medium | Steady

  /** The chunk-size rule: shrink to three quarters when slow; when fast
      double, when medium grow by a quarter, both only while twice the chunk
      fits the free-memory budget. The source truncates toward zero, so a
      chunk of 1 shrinks to 0; minChunk is the floor the rule keeps (0 as
      written). */
  function NextChunkSize(c: nat, pace: Pace, freeRam: nat, minChunk: nat): (r: nat)
    requires minChunk <= c
    ensures minChunk <= r
    ensures r > c ==> (pace == Fast || pace == Medium) && 2 * c <= freeRam && r <= freeRam
    ensures r < c ==> pace == Slow
    ensures pace == Slow ==> 4 * r <= 3 * c || r == minChunk
    ensures pace == Fast && 2 * c <= freeRam ==> r == 2 * c
    ensures pace == Medium && 2 * c <= freeRam ==> 4 * r <= 5 * c < 4 * (r + 1)
    ensures pace == Steady || (pace != Slow && 2 * c > freeRam) ==> r == c
  {
    match pace
    case Slow => Max(minChunk, c * 3 / 4)
    case Fast => if freeRam >= 2 * c then 2 * c else c
    case Medium => if freeRam >= 2 * c then c * 5 / 4 else c
    case Steady => c
  }

  /** A chunk never grows past the larger of where it started and the
      free-memory budget. */
  lemma {:induction false} ChunkStaysBounded(c: nat, paces: seq<Pace>, freeRam: nat, minChunk: nat, bound: nat)
    requires minChunk <= c <= bound && freeRam <= bound
    ensures Adapt(c, paces, freeRam, minChunk) <= bound
    decreases |paces|
  {
    if |paces| > 0 {
      ChunkStaysBounded(NextChunkSize(c, paces[0], freeRam, minChunk), paces[1..], freeRam, minChunk, bound);
    }
  }

  /** The chunk size after a run of rounds. */
  function Adapt(c: nat, paces: seq<Pace>, freeRam: nat, minChunk: nat): (r: nat)
    requires minChunk <= c
    ensures minChunk <= r
    decreases |paces|
  {
    if |paces| == 0 then c else Adapt(NextChunkSize(c, paces[0], freeRam, minChunk), paces[1..], freeRam, minChunk)
  }

  /** One round of the sender: how the send went and what the peer replied. */
  datatype Round = Round(pace: Pace, reply: string)

  /** The sender: read up to chunk bytes, send them, require "confirm", stop
      exactly when everything is sent, otherwise adapt the chunk size. */
  function SendChunks(data: string, sizeRead: nat, chunk: nat, freeRam: nat, minChunk: nat, rounds: seq<Round>,
                      refusal: string)
    : (r: Result<seq<string>>)
    requires sizeRead <= |data| && minChunk <= chunk
    ensures r.Ok? ==> Concat(r.value) == data[sizeRead..]
    ensures r.Ok? ==> 0 < |r.value| <= |rounds|
    ensures r.Ok? && (sizeRead < |data| || |r.value| > 1) ==> |r.value[|r.value| - 1]| > 0
    ensures r.Ok? ==> forall i :: 0 <= i < |r.value| ==> rounds[i].reply == CONFIRM
    ensures r.Ok? ==> forall i :: 0 <= i < |r.value| ==> |r.value[i]| <= Max(chunk, freeRam)
    ensures r.Err? ==> r.error == refusal || r.error == NO_REPLY
    decreases |rounds|
  {
    if |rounds| == 0 then Err(NO_REPLY)
    else
      var n := Min(chunk, |data| - sizeRead);
      var piece := data[sizeRead..sizeRead + n];
      if rounds[0].reply != CONFIRM then Err(refusal)
      else if sizeRead + n == |data| then
        assert piece == data[sizeRead..];
        Ok([piece])
      else
        var next := NextChunkSize(chunk, rounds[0].pace, freeRam, minChunk);
        var rest :- SendChunks(data, sizeRead + n, next, freeRam, minChunk, rounds[1..], refusal);
        assert data[sizeRead..] == piece + data[sizeRead + n..];
        assert Max(next, freeRam) <= Max(chunk, freeRam);
        Ok([piece] + rest)
  }

  /** The sender stops at the first moment everything is sent: every piece
      but the last leaves data unsent. */
  lemma SenderStopsExactly(data: string, sizeRead: nat, chunk: nat, freeRam: nat,
                            minChunk: nat, rounds: seq<Round>, refusal: string, i: nat)
    requires sizeRead <= |data| && minChunk <= chunk
    requires SendChunks(data, sizeRead, chunk, freeRam, minChunk, rounds, refusal).Ok?
    requires i + 1 < |SendChunks(data, sizeRead, chunk, freeRam, minChunk, rounds, refusal).value|
    ensures sizeRead + |Concat(SendChunks(data, sizeRead, chunk, freeRam, minChunk, rounds, refusal).value[..i + 1])| < |data|
  {
    var pieces := SendChunks(data, sizeRead, chunk, freeRam, minChunk, rounds, refusal).value;
    ShortPrefix(pieces, i);
  }

  /** When the last piece is not empty, no proper prefix of the pieces
      carries all their text. */
  lemma ShortPrefix(pieces: seq<string>, i: nat)
    requires i + 1 < |pieces| && |pieces[|pieces| - 1]| > 0
    ensures |Concat(pieces[..i + 1])| < |Concat(pieces)|
  {
    var n := |pieces|;
    assert pieces == pieces[..i + 1] + pieces[i + 1..];
    ConcatAppend(pieces[..i + 1], pieces[i + 1..]);
    var tail := pieces[i + 1..];
    assert tail == tail[..|tail| - 1] + [pieces[n - 1]];
    ConcatAppend(tail[..|tail| - 1], [pieces[n - 1]]);
    assert Concat([pieces[n - 1]]) == pieces[n - 1] + Concat([]);
  }

  /** As written: a chunk size of 1 that meets a slow round becomes 0. */
  lemma SlowShrinksOneToZero(freeRam: nat)
    ensures NextChunkSize(1, Slow, freeRam, 0) == 0
  {
  }

  /** As written: with a chunk size of 0 every round sends nothing and the
      sender never finishes, whatever the peer replies and however fast the
      rounds go. */
  lemma {:induction false} ZeroChunkStalls(data: string, sizeRead: nat, freeRam: nat, rounds: seq<Round>, refusal: string)
    requires sizeRead < |data|
    requires forall i :: 0 <= i < |rounds| ==> rounds[i].reply == CONFIRM
    ensures SendChunks(data, sizeRead, 0, freeRam, 0, rounds, refusal) == Err(NO_REPLY)
    decreases |rounds|
  {
    if |rounds| > 0 {
      assert NextChunkSize(0, rounds[0].pace, freeRam, 0) == 0;
      assert data[sizeRead..sizeRead + 0] == [];
      ZeroChunkStalls(data, sizeRead, freeRam, rounds[1..], refusal);
    }
  }

  /** Corrected: with a floor of one byte, a sender whose chunks are all
      confirmed finishes within one round per remaining byte (plus one). */
  lemma {:induction false} ClampedSendCompletes(data: string, sizeRead: nat, chunk: nat, freeRam: nat, rounds: seq<Round>,
                                                     refusal: string)
    requires sizeRead <= |data| && 1 <= chunk
    requires |data| - sizeRead < |rounds|
    requires forall i :: 0 <= i < |rounds| ==> rounds[i].reply == CONFIRM
    ensures SendChunks(data, sizeRead, chunk, freeRam, 1, rounds, refusal).Ok?
    decreases |data| - sizeRead
  {
    var n := Min(chunk, |data| - sizeRead);
    if sizeRead + n != |data| {
      var next := NextChunkSize(chunk, rounds[0].pace, freeRam, 1);
      ClampedSendCompletes(data, sizeRead + n, next, freeRam, rounds[1..], refusal);
    }
  }

  /** Which messages end a receive loop: the server accepts any message that
      starts with INTERNAL::DONE, the client only that exact text. */
  datatype EndRule = PrefixDone | ExactDone

  predicate IsDone(rule: EndRule, m: string) {
    match rule
    case PrefixDone => StartsWith(m, DONE_MESSAGE)
    case ExactDone => m == DONE_MESSAGE
  }

  /** The receiver: write every message and confirm it until the end
      message; the incoming messages stop where a receive fails. The result
      is the number of confirmed chunks and the bytes written. */
  function ReceiveChunks(rule: EndRule, incoming: seq<string>): (r: Result<(nat, string)>)
    ensures r.Ok? ==> r.value.0 < |incoming| && IsDone(rule, incoming[r.value.0])
    ensures r.Ok? ==> forall j :: 0 <= j < r.value.0 ==> !IsDone(rule, incoming[j])
    ensures r.Ok? ==> r.value.1 == Concat(incoming[..r.value.0])
    ensures r.Err? <==> forall j :: 0 <= j < |incoming| ==> !IsDone(rule, incoming[j])
    ensures r.Err? ==> r.error == RECEIVE_FAILED
  {
    if |incoming| == 0 then Err(RECEIVE_FAILED)
    else if IsDone(rule, incoming[0]) then
      assert incoming[..0] == [];
      Ok((0, ""))
    else
      var rest :- ReceiveChunks(rule, incoming[1..]);
      assert incoming[..rest.0 + 1] == [incoming[0]] + incoming[1..][..rest.0];
      Ok((rest.0 + 1, incoming[0] + rest.1))
  }

  /** Upload round trip: the receiver writes exactly the bytes the sender
      read, confirming each chunk, provided no chunk looks like the end
      message. */
  lemma {:induction false} TransferRoundTrip(rule: EndRule, pieces: seq<string>, tail: seq<string>)
    requires forall i :: 0 <= i < |pieces| ==> !IsDone(rule, pieces[i])
    ensures ReceiveChunks(rule, pieces + [DONE_MESSAGE] + tail) == Ok((|pieces|, Concat(pieces)))
  {
    var incoming := pieces + [DONE_MESSAGE] + tail;
    if |pieces| == 0 {
      assert incoming[0] == DONE_MESSAGE;
      assert IsDone(rule, DONE_MESSAGE);
    } else {
      assert incoming[1..] == pieces[1..] + [DONE_MESSAGE] + tail;
      TransferRoundTrip(rule, pieces[1..], tail);
      assert incoming[0] == pieces[0];
      assert pieces == [pieces[0]] + pieces[1..];
      ConcatAppend([pieces[0]], pieces[1..]);
      assert Concat([pieces[0]]) == pieces[0] + Concat([]);
    }
  }

  /** The server's prefix test ends an upload early when a chunk of the file
      itself starts with the end message; the client's exact test does not. */
  lemma DoneInsideData(chunk: string, later: seq<string>)
    requires StartsWith(chunk, DONE_MESSAGE) && chunk != DONE_MESSAGE
    ensures ReceiveChunks(PrefixDone, [chunk] + later) == Ok((0, ""))
    ensures ReceiveChunks(ExactDone, [chunk] + later) != Ok((0, ""))
  {
  }

  // ------------------------------------------------ the older fixed chunks

  /** server/main.cpp's sendFile: size / 256 KiB full chunks and a last
      chunk of size % 256 KiB bytes, which may be empty. */
  function FixedPieces(data: string): (ps: seq<string>)
    ensures |ps| == |data| / LEGACY_CHUNK + 1
    ensures forall i :: 0 <= i < |ps| - 1 ==> |ps[i]| == LEGACY_CHUNK
    ensures |ps[|ps| - 1]| == |data| % LEGACY_CHUNK
    ensures Concat(ps) == data
    decreases |data|
  {
    if |data| < LEGACY_CHUNK then [data]
    else
      var rest := FixedPieces(data[LEGACY_CHUNK..]);
      assert data == data[..LEGACY_CHUNK] + data[LEGACY_CHUNK..];
      [data[..LEGACY_CHUNK]] + rest
  }

  /** Every chunk, the empty last one included, must be confirmed. */
  function FixedSend(pieces: seq<string>, replies: seq<string>): (r: Result<nat>)
    ensures r.Ok? ==> r.value == |pieces| <= |replies|
    ensures r.Ok? <==> |pieces| <= |replies| && forall i :: 0 <= i < |pieces| ==> replies[i] == CONFIRM
  {
    if |pieces| == 0 then Ok(0)
    else if |replies| == 0 then Err(NO_REPLY)
    else if replies[0] != CONFIRM then Err(LEGACY_NOT_CONFIRMED)
    else
      var n :- FixedSend(pieces[1..], replies[1..]);
      Ok(n + 1)
  }
}
