/** libsodium's sealed boxes as the connections use them: the ciphertext of
    m is SEALBYTES longer than m and travels as lower-case hex
    (src/shared/Connection.cpp:390-423, server/ConnectionServer.cpp:176-209,
    src/Connection.cpp:369-403). The cipher itself is left uninterpreted. */
module SealedBox {
  import opened Wrappers
  import opened Hex

  /** crypto_box_SEALBYTES and crypto_box_PUBLICKEYBYTES. */
  const SEALBYTES: nat := 48
  const PUBLICKEYBYTES: nat := 32

  const DECODE_FAILED := "Could not decode message"
  const DECRYPT_FAILED := "Could not decrypt message"
  const KEY_DECODE_FAILED := "Could not decode public key"
  /** size / 2 - SEALBYTES wraps around in size_t and the allocation of the
      plaintext buffer throws. */
  const ALLOC_FAILED := "std::bad_alloc"

  datatype KeyPair = KeyPair(pub: seq<byte>, sec: seq<byte>)

  /** crypto_box_seal and crypto_box_seal_open, as parameters. */
  datatype Box = Box(
    seal: (seq<byte>, string) -> seq<byte>,
    open: (KeyPair, seq<byte>) -> Option<string>)

  /** What libsodium guarantees: a ciphertext is SEALBYTES longer than its
      plaintext, and the owner of the key pair opens what was sealed to its
      public key. */
  ghost predicate Sound(box: Box) {
    (forall pk, m :: |box.seal(pk, m)| == SEALBYTES + |m|) &&
    (forall kp: KeyPair, m :: box.open(kp, box.seal(kp.pub, m)) == Some(m))
  }

  /** _secretSeal / secretSeal: seal to the remote key, then hex-encode. */
  function SealHex(box: Box, remoteKey: seq<byte>, m: string): (h: string)
    ensures AllHex(h)
    ensures |h| % 2 == 0
    ensures Sound(box) ==> |h| == 2 * (SEALBYTES + |m|)
  {
    BinToHex(box.seal(remoteKey, m))
  }

  /** The decode-then-open part shared by every _secretOpen; the clients
      quote the text in the decoding error, the server does not. */
  function DecodeAndOpen(box: Box, kp: KeyPair, text: string, quote: bool): (r: Result<string>)
    ensures HexToBin(text).None? ==> r == Err(DECODE_FAILED + if quote then ": " + text else "")
    ensures HexToBin(text).Some? && |HexToBin(text).value| < SEALBYTES ==> r == Err(ALLOC_FAILED)
    ensures HexToBin(text).Some? && |HexToBin(text).value| >= SEALBYTES ==>
              (r.Ok? <==> box.open(kp, HexToBin(text).value).Some?) && (r.Err? ==> r.error == DECRYPT_FAILED)
    ensures r.Ok? ==> exists c :: HexToBin(text) == Some(c) && box.open(kp, c) == Some(r.value)
  {
    match HexToBin(text)
    case None => Err(DECODE_FAILED + if quote then ": " + text else "")
    case Some(c) =>
      if |c| < SEALBYTES then Err(ALLOC_FAILED)
      else match box.open(kp, c)
        case None => Err(DECRYPT_FAILED)
        case Some(m) => Ok(m)
  }

  /** _secretOpen of the clients rejects odd-length text before decoding
      (checkOdd); the server's secretOpen goes straight to decoding. */
  function SecretOpen(box: Box, kp: KeyPair, text: string, checkOdd: bool): (r: Result<string>)
    ensures checkOdd && |text| % 2 != 0 ==> r == Err("Invalid message to decrypt: " + text)
    ensures |text| % 2 == 0 ==> r == DecodeAndOpen(box, kp, text, checkOdd)
  {
    if checkOdd && |text| % 2 != 0 then Err("Invalid message to decrypt: " + text)
    else DecodeAndOpen(box, kp, text, checkOdd)
  }

  /** Both flavours of _secretOpen refuse odd-length text; they differ only in
      the error text. */
  lemma OddTextRejected(box: Box, kp: KeyPair, text: string)
    requires |text| % 2 != 0
    ensures SecretOpen(box, kp, text, true).Err?
    ensures SecretOpen(box, kp, text, false) == Err(DECODE_FAILED)
  {
  }

  /** Sealing to a key pair's public key and opening with that key pair gives
      back the message, under either flavour of _secretOpen. */
  lemma SealOpenRoundTrip(box: Box, kp: KeyPair, m: string, checkOdd: bool)
    requires Sound(box)
    ensures SecretOpen(box, kp, SealHex(box, kp.pub, m), checkOdd) == Ok(m)
  {
    var c := box.seal(kp.pub, m);
    HexRoundTrip(c);
    assert |c| == SEALBYTES + |m|;
    assert box.open(kp, c) == Some(m);
  }

  /** The public key as sent in the handshake: 64 hex characters. */
  function KeyHex(pub: seq<byte>): (h: string)
    requires |pub| == PUBLICKEYBYTES
    ensures |h| == 2 * PUBLICKEYBYTES && AllHex(h)
  {
    BinToHex(pub)
  }

  /** sodium_hex2bin into a PUBLICKEYBYTES buffer: bad hex, an odd length or
      more than PUBLICKEYBYTES bytes fail; shorter keys are accepted. */
  function DecodeKey(text: string): (r: Result<seq<byte>>)
    ensures r.Ok? ==> |r.value| <= PUBLICKEYBYTES && 2 * |r.value| == |text|
    ensures |text| > 2 * PUBLICKEYBYTES ==> r == Err(KEY_DECODE_FAILED)
    ensures r.Err? ==> r.error == KEY_DECODE_FAILED
  {
    match HexToBin(text)
    case None => Err(KEY_DECODE_FAILED)
    case Some(b) => if |b| > PUBLICKEYBYTES then Err(KEY_DECODE_FAILED) else Ok(b)
  }

  /** A key sent by KeyHex decodes to itself. */
  lemma KeyRoundTrip(pub: seq<byte>)
    requires |pub| == PUBLICKEYBYTES
    ensures DecodeKey(KeyHex(pub)) == Ok(pub)
  {
    HexRoundTrip(pub);
  }
}
