/** What the client and the server say to each other once the channel is up.
    A message is the payload handed to send(): sendInternal puts INTERNAL::
    in front, file chunks go bare, and a listing sends DATA:: entries. A
    stream is the run of payloads one side receives, in order; a stream
    that ends where the reader still expects a message stands for a
    receive that failed (Transfer.NO_REPLY). */
module Protocol {
  import opened Wrappers
  import opened Text
  import opened Connection
  import Channel
  import opened Transfer
  import Storage

  const OK := "OK"
  const NO := "NO"
  const NOPE := "NOPE"
  const DONE := "DONE"
  const MISMATCH := "Sent hash and calculated hash do not match"
  /** std::stoll / std::stoi throwing std::invalid_argument or out_of_range. */
  const NOT_A_NUMBER := "stoll"
  const NOT_AN_INT := "stoi"
  const CLIENT_INTERNAL_ERROR := "Invalid message received (internal)"
  const SERVER_INTERNAL_ERROR := "Invalid message received (internal): "

  /** sendInternal's payload. */
  function Internal(m: string): (p: string)
    ensures StartsWith(p, INTERNAL) && |p| == |INTERNAL| + |m|
  {
    INTERNAL + m
  }

  /** sendData's payload. */
  function Data(m: string): (p: string)
    ensures StartsWith(p, DATA) && p[|DATA|..] == m
  {
    DATA + m
  }

  /** The client's receiveInternal on the i-th message of a stream. */
  function ClientRead(stream: seq<string>, i: nat): (r: Result<string>)
    ensures i >= |stream| ==> r == Err(NO_REPLY)
    ensures i < |stream| && Contains(stream[i], INTERNAL) ==> r == Ok(stream[i][|INTERNAL|..])
    ensures i < |stream| && !Contains(stream[i], INTERNAL) ==> r == Err(CLIENT_INTERNAL_ERROR)
  {
    if i >= |stream| then Err(NO_REPLY)
    else StripTag(stream[i], INTERNAL, CLIENT_INTERNAL_ERROR)
  }

  /** The server's receiveInternal, whose error quotes the message. */
  function ServerRead(stream: seq<string>, i: nat): (r: Result<string>)
    ensures i >= |stream| ==> r == Err(NO_REPLY)
    ensures i < |stream| && Contains(stream[i], INTERNAL) ==> r == Ok(stream[i][|INTERNAL|..])
    ensures i < |stream| && !Contains(stream[i], INTERNAL) ==> r == Err(SERVER_INTERNAL_ERROR + stream[i])
  {
    if i >= |stream| then Err(NO_REPLY)
    else StripTag(stream[i], INTERNAL, SERVER_INTERNAL_ERROR + stream[i])
  }

  /** Both sides read back what sendInternal sent. */
  lemma ReadInternal(stream: seq<string>, i: nat, m: string)
    requires i < |stream| && stream[i] == Internal(m)
    ensures ClientRead(stream, i) == Ok(m)
    ensures ServerRead(stream, i) == Ok(m)
  {
    Channel.TagRoundTrip(INTERNAL, m, CLIENT_INTERNAL_ERROR);
    Channel.TagRoundTrip(INTERNAL, m, SERVER_INTERNAL_ERROR + stream[i]);
  }

  /** std::string::substr(n): the text after the first n characters; more
      than the length throws. */
  function Cut(s: string, n: nat): (r: Result<string>)
    ensures r.Ok? <==> n <= |s|
    ensures r.Ok? ==> s == s[..n] + r.value
    ensures r.Err? ==> r.error == Storage.OUT_OF_RANGE
  {
    if n > |s| then Err(Storage.OUT_OF_RANGE) else Ok(s[n..])
  }

  /** A field sent as a five- or nine-character label and a value comes back
      whatever the label is; only its length counts. */
  lemma CutLabel(prefix: string, value: string)
    ensures Cut(prefix + value, |prefix|) == Ok(value)
  {
    assert (prefix + value)[|prefix|..] == value;
  }

  /** One "confirm" per written chunk. */
  function Confirms(n: nat): (r: seq<string>)
    ensures |r| == n && forall i :: 0 <= i < n ==> r[i] == Internal(CONFIRM)
  {
    seq(n, _ => Internal(CONFIRM))
  }

  /** The payloads of sendInternal for each text, in order. */
  function InternalAll(ms: seq<string>): (r: seq<string>)
    ensures |r| == |ms| && forall i :: 0 <= i < |ms| ==> r[i] == Internal(ms[i])
  {
    seq(|ms|, i requires 0 <= i < |ms| => Internal(ms[i]))
  }
}
