# hikup file sharing, modelled in Dafny

hikup is a small client/server file-sharing system. The client uploads a file,
downloads it by hash, removes it by hash, or lists the server's files after
logging in. The server keeps every upload in a `storage` directory, names it
`<name with '.' turned into '<'>.<client hash>`, and creates a link for the
HTTP server that shares it. Two servers exchange missing files in a sync
session. All traffic goes over one TCP connection per request:

- Every message is followed by a sentinel (`::--///--$$$` on the server,
  `::--///-$$$` on the older client).
- After a plain-text exchange of public keys, every message is sealed with
  libsodium's sealed boxes and sent as hex.
- Files travel in confirmed chunks. The sender adapts the chunk size to how
  long each send took.

The model covers three parts of the system:

- **Channel.** The three connection classes: the current client, the older
  client and the older server. It covers framing, splitting, the queue of
  messages read together, sealing and opening, the key handshake, and the
  tag checks of `receiveInternal` and `receiveData`.
- **Handlers.** The request handlers of the current and the older server,
  the client's side of every command, the chunked transfer loops, and the
  file-description codec used in listings.
- **Server state.** Storage naming, the removal and file trackers, and the
  decisions of a sync session.

Module `Session` puts both ends together and proves the round trips:

- what the client uploads is what the server stores;
- what the server sends is what the client saves, message by message (a file piece holding the public-key tag breaks the download at the channel; see the findings);
- what the server lists is what the client tabulates.

Modelling choices:

- The network is a script of `recv` results (`Recv`). The reply streams of
  the handlers are sequences of payloads.
- libsodium's seal and open are parameters (`Box`). The predicate `Sound`
  states what libsodium guarantees about them.
- The file hash is a `string -> string` parameter.
- How long a send took is a `Pace`.
- The free memory is a number.
- The storage directory is the sequence of its entries' names.
- `std::set` is a Dafny `set`.
- A file description is four fields, each ended by a bar (`|`). "Bar" in the table below means that character.
- Integer widths are written out where the source depends on them:
  - `std::stoull`, `std::stol` and `std::stoi` ranges;
  - the `size_t` wrap-around of `memset(…, -1)`;
  - `crypto_box_SEALBYTES` underflow.

## Model

| member | source | states |
|---|---|---|
| Framing.FrameRoundTrip | src/shared/Connection.cpp:163-181 | Splitting the wire text of messages sent back to back yields exactly those messages, in order, for both split algorithms, whenever no message can run into the sentinel |
| Framing.ScanEqualsErase | server/ConnectionServer.cpp:105-121 | The server's find-and-erase split and the clients' scan-from-position split produce the same segments for every text |
| Framing.UnborderedClean | src/Connection.cpp:133-208 | A message that does not contain the sentinel cannot make a false end when followed by the sentinel, provided the sentinel has no border |
| Framing.HexClean | src/shared/Connection.cpp:390-403 | Sealed traffic, which is pure hex, can never contain or run into a sentinel that starts with a non-hex character |
| Framing.SentinelsAreSafe | server/ConnectionServer.hpp:9 | Both sentinels are border-free and start with ':', so the two properties above apply to them |
| Framing.FrameBoundary | src/shared/Connection.cpp:100-106 | When the text read so far is a prefix of the wire that ends with a border-free sentinel, it ends exactly after some whole number of the framed messages, at least one |
| Framing.FrameAppend | src/shared/Connection.cpp:121-142 | The wire text of messages sent one after another is the wire text of any first part followed by that of the rest |
| Hex.BinToHex | src/shared/utils.cpp:36-42 | bin2hex writes two lower-case hex digits per byte |
| Hex.HexToBin | src/shared/Connection.cpp:410-414 | sodium_hex2bin, called without an ignore set or an end position, yields half as many bytes as characters, and odd-length text never decodes |
| Hex.HexRoundTrip | src/shared/utils.cpp:36-50 | Decoding what bin2hex wrote gives back the original bytes |
| Hex.HexAvoids | src/shared/Connection.cpp:390-403 | Text made only of hex digits contains no pattern that has a non-hex character |
| SealedBox.SealHex | src/shared/Connection.cpp:390-403 | Sealed output is even-length hex, 2 × (48 + length of the plaintext) characters long |
| SealedBox.DecodeAndOpen | server/ConnectionServer.cpp:195-209 | Bad hex fails with "Could not decode message", quoted on the clients. A ciphertext shorter than the seal overhead fails on allocation. A ciphertext of at least the seal overhead succeeds exactly when it opens, and otherwise fails with "Could not decrypt message". A success is the opening of the decoded bytes |
| SealedBox.SecretOpen | src/shared/Connection.cpp:405-423 | The clients refuse odd-length text before decoding. Even-length text is decoded and opened |
| SealedBox.OddTextRejected | src/Connection.cpp:384-402 | Every flavour refuses odd-length text: the clients by their odd check, the server by the failing hex decode |
| SealedBox.SealOpenRoundTrip | src/shared/Connection.cpp:390-423 | Opening what was sealed to one's own public key gives back the message on every flavour |
| SealedBox.DecodeKey | src/shared/Connection.cpp:206-210 | A key longer than 32 bytes of hex, or bad hex, is refused with "Could not decode public key" |
| SealedBox.KeyRoundTrip | server/ConnectionServer.cpp:40-58 | The 64-character hex key sent in the handshake decodes back to the sender's public key |
| Connection.NewClient | src/shared/Connection.cpp:5-25 | A new client connection is valid, unencrypted, has nothing queued and has sent nothing |
| Connection.NewLegacyClient | src/Connection.h:27-29 | The older client uses its fixed sentinel and starts unencrypted with an empty queue |
| Connection.NewServer | server/ConnectionServer.hpp:55 | A server connection starts active, unencrypted and with nothing queued |
| Connection.ResizeBuffer | src/shared/Connection.cpp:323-326 | After a resize, one recv hands out at most the new size, and nothing else about the connection changes |
| Connection.EmptyBufferDisconnects | src/shared/Connection.cpp:106-114 | With a buffer of no bytes, the current client's next read gets nothing even when data is ready, and reports the server as disconnected |
| Connection.WirePayload | src/shared/Connection.cpp:122-143 | Before the handshake a payload goes out as it is. After it, the payload goes out as even-length hex |
| Connection.Send | src/Connection.cpp:109-127 | A send fails exactly when the older client, or the encrypted current client, would write an odd length; then it fails with "Invalid message to send". An inactive server writes nothing. Otherwise the wire payload and the sentinel are appended |
| Connection.EncryptedSendSucceeds | src/shared/Connection.cpp:122-143 | The current client's odd-length check never fires, because sealed hex is always even |
| Connection.LegacyRefusesOddPlaintext | src/Connection.cpp:119-120 | The older client refuses any odd-length plaintext before the handshake |
| Connection.SendAllFrames | server/ConnectionServer.cpp:157-174 | Several sends write the frame of their wire payloads, except that an inactive server writes nothing |
| Connection.SendAllWrites | src/shared/Connection.cpp:122-147 | Consecutive sends on a writing connection append the framed wire payloads in order |
| Connection.Take | src/Connection.cpp:97 | One recv hands out a prefix of the ready data no longer than the buffer, and keeps its errno |
| Connection.ReadLoop | src/shared/Connection.cpp:100-120 | The read loop returns text that extends what was accumulated and ends with the sentinel. It stops at once if the accumulated text already ends with the sentinel |
| Connection.SplitText | src/shared/Connection.cpp:163-181 | Each flavour's split gives the first segment and the queue of the rest, and the server's erase split agrees with the clients' scan split |
| Connection.OpenAll | server/ConnectionServer.cpp:123-127 | Opening a queue succeeds exactly when every queued message opens, and yields each message's plaintext in position |
| Connection.Receive | src/shared/Connection.cpp:149-224 | A queued message is handed out without I/O. Otherwise a read is measured. The connection stays valid, stays encrypted once encrypted, and keeps its flavour, keys and sentinel. The older client reads through the corrected retrying loop; the loop as written is Connection.LegacyReadAsWritten |
| Connection.Deliver | src/shared/Connection.cpp:163-192 | The text read is split and opened; the rest of the script is untouched; the connection stays valid and keeps its identity |
| Connection.AcceptKey | src/shared/Connection.cpp:206-221 | A client that accepts the server's key becomes encrypted and still hands out the announcement message itself |
| Connection.StripTag | server/ConnectionServer.cpp:139-155 | The tag check succeeds exactly when the message contains the tag anywhere. It then removes as many characters as the tag is long |
| Connection.ReceiveTagged | src/shared/Connection.cpp:305-321 | receiveInternal and receiveData fail when the receive fails or the tag is missing. Otherwise they return the received message minus the tag's length, on the same connection state |
| Connection.InitEncryption | server/ConnectionServer.cpp:32-66 | The server's handshake leaves it encrypted with the same keys and activity. An active server first sends its plain key announcement |
| Connection.Init | server/ConnectionServer.cpp:18-30 | init fails with "setsockopt failed" when the timeout cannot be set. Otherwise it succeeds exactly when the handshake succeeds, and leaves the server active and encrypted |
| Connection.ClearLength | src/Connection.cpp:324 | clearBuffer clears the previous read's length. A failed read (-1) turns into 2^64-1 bytes, far past the 4096-byte buffer |
| Connection.LegacyReadAsWritten | src/Connection.cpp:91-107 | The older client's read loop as written: a success still ends with the sentinel and extends what was accumulated |
| Connection.LegacyAgreesWithoutFailures | src/Connection.cpp:91-107 | Without failed reads, the loop as written and the retrying loop read the same text |
| Connection.LegacyRetries | src/Connection.cpp:99-103 | In the corrected loop, a retryable failure (EAGAIN, EWOULDBLOCK, MSG_WAITALL) adds nothing, and reading goes on |
| Connection.LegacyRetryOverruns | src/Connection.cpp:95-103 | One EAGAIN before the sentinel: as written the next clear overruns the buffer; the corrected loop reads the sentinel |
| Connection.LegacyReads | src/Connection.cpp:97-103 | A read that fits the buffer is appended as a C string, up to its first NUL |
| Channel.ReadChunks | src/shared/Connection.cpp:163-181 | Given data arriving in pieces that each fit one recv, the read loop consumes exactly the pieces up to the first sentinel end and leaves the rest of the script |
| Channel.SplitFrames | src/shared/Connection.cpp:163-181 | Splitting framed clean messages hands out the first and queues the rest |
| Channel.ReceivePlain | src/shared/Connection.cpp:149-192 | Without encryption, when only the last read ends with the sentinel, a receive over several framed messages hands out the first and queues the others. On a client the first message must not hold the public-key tag, which the client answers as a key announcement |
| Channel.ReceiveSealed | server/ConnectionServer.cpp:70-137 | The same for sealed messages: the first plaintext is handed out and the others are queued as plaintexts. On a client the first plaintext must not hold the public-key tag |
| Channel.ReceiveAll | src/shared/Connection.cpp:100-192 | With nothing queued, as many receives as the peer sent messages return exactly those messages in order, leave the channel as it was and leave later reads alone, whichever way the bytes were cut into reads. A read that ends after an inner sentinel makes that receive queue fewer messages, and the next receive reads on. This needs a sentinel with no border and, on a client, messages without the public-key tag |
| Channel.DeliversAll | server/ConnectionServer.cpp:70-137 | The same for any queue the channel already holds: the queued messages come first, then the framed ones, plain or sealed. On a client the framed messages must not hold the public-key tag |
| Channel.DrainQueue | server/ConnectionServer.cpp:73-79 | Receiving as many times as messages are queued hands out the queue in order without reading the socket |
| Channel.ClientHandshake | src/shared/Connection.cpp:206-221 | A client that reads the server's key announcement stores the key, answers with its own key in plain text, and turns encryption on |
| Channel.ServerHandshake | server/ConnectionServer.cpp:32-66 | The server that reads the client's announcement, possibly followed by sealed messages, stores the key, queues the opened messages and becomes encrypted |
| Channel.HandshakeAgreement | server/ConnectionServer.cpp:32-66 | A fresh client and a fresh server complete the key exchange, and each ends up encrypted to the other's public key |
| Channel.SealedDelivery | src/shared/Connection.cpp:122-192 | Once both ends are encrypted to each other, a single message one sends is received unchanged, however the wire bytes are cut into reads, provided the receiver is the server or the message does not hold the public-key tag |
| Channel.KeyTagBreaksDelivery | src/shared/Connection.cpp:206-221 | As written, an encrypted client that receives a message holding the public-key tag and longer than the tag and a key fails with "Could not decode public key" |
| Channel.TaggedPiece | src/client/main.cpp:163-164 | A file piece that meets those conditions exists: the tag followed by 65 zeros |
| Channel.SealedDeliveryCorrected | src/shared/Connection.cpp:206-221 | With the key answered only before encryption, a single sealed message is received unchanged on every flavour, whatever text it holds |
| Connection.DeliverCorrected | src/shared/Connection.cpp:206-221 | Corrected delivery: an encrypted channel opens and queues as before and never changes its key or writes anything |
| Connection.DeliverCorrectedAgrees | src/shared/Connection.cpp:206-221 | The corrected and the written delivery agree exactly unless an encrypted client opens a message holding the public-key tag |
| Connection.ReceiveCorrected | src/shared/Connection.cpp:149-221 | receive and receiveWTime with the corrected delivery: an encrypted channel's remote key and output never change |
| Channel.TagRoundTrip | src/shared/Connection.cpp:305-312 | A message sent with a tag comes back without it |
| Channel.TagAnywhere | src/shared/Connection.cpp:305-321 | The tag check is a containment test: a data message that contains the internal tag passes receiveInternal, with the wrong characters cut off |
| Channel.InitActiveRedundant | server/ConnectionServer.cpp:29 | Marking a new server active after the handshake changes nothing, because it starts active |
| Protocol.ClientRead | src/shared/Connection.cpp:305-312 | The client's receiveInternal on a reply: missing gives no reply; with the tag it gives the text after the tag; without it, the client's error |
| Protocol.ServerRead | server/ConnectionServer.cpp:139-146 | The server's receiveInternal, whose error quotes the message |
| Protocol.ReadInternal | src/shared/Connection.cpp:145-147 | Both sides read back exactly what sendInternal sent |
| Protocol.Cut | src/server/ConnectionHandler.cpp:72-74 | substr(n) succeeds exactly when n is within the text, returns the rest after n, and otherwise throws out_of_range |
| Protocol.CutLabel | src/client/main.cpp:334-343 | A field sent with a label comes back without it |
| Decimal.NatToText | src/shared/FileInfo.cpp:117-123 | to_string of a non-negative number is a non-empty run of digits |
| Decimal.ParseU64 | src/shared/FileInfo.cpp:57-61 | stoull accepts only values below 2^64 |
| Decimal.ParseI64 | src/shared/FileInfo.cpp:64-69 | stol accepts only values in the 64-bit signed range |
| Decimal.ParseI32 | src/client/main.cpp:130 | stoi accepts only values in the 32-bit signed range, and agrees with stol on them |
| Decimal.NatToTextValue | src/shared/FileInfo.cpp:117-123 | The digits to_string writes denote the number |
| Decimal.ParseU64RoundTrip | src/shared/FileInfo.cpp:57-61 | stoull of to_string gives back every value below 2^64 |
| Decimal.ParseI64RoundTrip | src/client/main.cpp:144 | stol or stoll of to_string gives back every 64-bit signed value |
| Decimal.BoolText | src/server/ConnectionHandler.cpp:150 | to_string of a bool reads back with stoi as 1 or 0 |
| FileInfo.Encode | src/shared/FileInfo.cpp:117-123 | encode starts with the name and the hash, each followed by a bar, and ends with a bar and "#" |
| FileInfo.Field | src/shared/FileInfo.cpp:42-45 | A field is the text before the first bar. Text without a bar is refused as an invalid representation |
| FileInfo.Decode | src/shared/FileInfo.cpp:35-80 | Empty text is refused. A decoded description has a name and a hash without bars and values that fit the source's field types |
| FileInfo.ReadSize | src/shared/FileInfo.cpp:57-61 | The size is read exactly when stoull accepts it; otherwise the error names the text and "stoull" |
| FileInfo.ReadDate | src/shared/FileInfo.cpp:64-69 | The date is read exactly when stol accepts it; otherwise the error names the text and "stol" |
| FileInfo.Finish | src/shared/FileInfo.cpp:77-78 | After the fourth field only nothing or "#" may follow; anything else is extra data |
| FileInfo.DecodeWellFormed | src/shared/FileInfo.cpp:35-80 | Four well-formed fields decode to their description, followed by nothing or "#"; anything else is refused as extra data |
| FileInfo.FileInfoRoundTrip | src/shared/FileInfo.cpp:35-123 | Decoding what encode wrote gives the description back |
| FileInfo.FewDelimitersRejected | src/shared/FileInfo.cpp:42-45 | Text with fewer than four delimiters never decodes |
| FileInfo.ExtraDataRejected | src/shared/FileInfo.cpp:77-78 | Anything after the fourth delimiter other than "#" is refused with the extra text quoted |
| FileInfo.BadSizeRejected | src/shared/FileInfo.cpp:57-61 | A size field that stoull refuses fails with the size error before the date is looked at |
| FileInfo.BadDateRejected | src/shared/FileInfo.cpp:64-69 | A date field that stol refuses fails with the date error |
| FileInfo.BaseName | src/shared/FileInfo.cpp:19-25 | The file name is a tail of the path and contains no '/' |
| FileInfo.FromPath | src/shared/FileInfo.cpp:12-33 | A missing or irregular file is refused. The hash is the extension without its dot. The server's scheme recovers the name from the unmangled stem. Size and date are the file system's |
| FileInfo.StoredFileDescribed | src/shared/FileInfo.cpp:12-33 | A stored upload is described with the name and hash it was uploaded under |
| FileInfo.DateString | src/shared/FileInfo.cpp:102-115 | A non-empty cached date is returned as it is. With nothing cached, a formatting failure is an error. The date returned is the date cached |
| FileInfo.DateStringStable | src/shared/FileInfo.cpp:102-115 | Once cached, later calls return the same date whatever the clock says |
| Storage.Mangle | src/server/ConnectionHandler.cpp:83 | Mangling keeps the length and removes every '.' |
| Storage.MangleRoundTrip | src/server/ConnectionHandler.cpp:83 | Unmangling undoes mangling for names without '<' |
| Storage.Extension | src/server/ConnectionHandler.cpp:159-161 | path::extension is empty or a dot-led tail shorter than the name |
| Storage.ExtensionShape | src/server/ConnectionHandler.cpp:159-161 | A non-empty extension ends the name and contains no further '.' |
| Storage.ExtensionMissing | src/server/ConnectionHandler.cpp:159-161 | A name has no extension exactly when it has no '.', or it is a dot-file with no other '.', or it is ".." |
| Storage.Stem | src/server/utils.cpp:77-89 | The stem followed by the extension is the name |
| Storage.HashOf | src/server/utils.cpp:65-75 | A stored file's hash is its extension without the dot, and an entry without an extension is refused |
| Storage.StoredNameParts | src/server/ConnectionHandler.cpp:83-85 | A stored name splits back into the mangled name (stem) and the client's hash (extension) |
| Storage.RecoverName | src/server/ConnectionHandler.cpp:188-194 | The name sent with a download contains no '<' and is no longer than the path |
| Storage.RemovalLinkName | src/server/ConnectionHandler.cpp:252-253 | The link name of a removal contains no '<' and is no longer than the entry |
| Storage.NameRecovery | src/server/ConnectionHandler.cpp:188-194 | For an uploaded name, both the download recovery and the removal recovery give back the name it was uploaded under |
| Storage.LegacyLinkName | server/main.cpp:176-177 | The older removal's link name is the whole entry name, unmangled |
| Storage.LegacyFinalName | server/main.cpp:98-100 | The older server's final name extends the stored name with the computed hash |
| Storage.LegacyLinkMissed | server/main.cpp:176-179 | As written, the older removal never names the link that upload created |
| Storage.LegacyLinkCorrected | server/main.cpp:102 | Taking the name up to the first '.' finds the link |
| Storage.LegacyClientName | server/main.cpp:141-144 | The older download name is the path up to its last '.', with no '<' |
| Storage.LegacyClientNameKeepsPrefix | server/main.cpp:141-144 | The older server hands the client a name that still holds "storage/" and the client's hash |
| Storage.LookupLast | src/server/ConnectionHandler.cpp:159-161 | The lookup finds the last entry whose extension is "." + hash, and finds none exactly when no entry carries it |
| Storage.LookupFindsStored | src/server/ConnectionHandler.cpp:242-244 | Whatever was stored under a hash is found by the lookup |
| Storage.FindAll | src/server/utils.cpp:39-51 | The names found are exactly the entries whose hash is wanted. An entry without an extension makes the search throw |
| Storage.FindFirst | src/server/utils.cpp:53-63 | The name found is the first entry carrying the hash. If none is found, no entry carries it. Entries that all have extensions never throw |
| Storage.FirstWhereSucceeds | src/server/utils.cpp:53-63 | The first-match search fails only on an entry it cannot read |
| Storage.LocalHashes | src/server/utils.cpp:65-75 | The local hashes are exactly the hashes of the stored entries. An entry without an extension makes the call throw |
| Storage.FoundNamesAreLocal | src/server/utils.cpp:39-75 | Every name found for a wanted set carries a hash that is both local and wanted |
| Storage.FirstIsAmongAll | src/server/utils.cpp:39-63 | The first match is one of all the matches, and there is one exactly when there are any |
| Storage.RawFileName | src/server/utils.cpp:77-89 | The entry found has the mangled name as its stem. None is found exactly when no entry has it |
| Storage.RawFileNameFindsStored | src/server/utils.cpp:77-89 | An uploaded name is found again and unmangles to itself |
| Transfer.NextChunkSize | src/server/ConnectionHandler.cpp:217-231 | The chunk size shrinks only when a send was slow, and then to three quarters. It grows only when fast or medium and only while twice the chunk fits the free memory. Fast doubles it and medium multiplies it by 1.25, rounded down. It never falls below the floor |
| Transfer.ChunkStaysBounded | src/client/main.cpp:91-106 | Over any run of rounds, the chunk never grows past the larger of its start and the free memory |
| Transfer.SendChunks | src/server/ConnectionHandler.cpp:200-232 | The pieces sent are the file from the read offset on, and every one of them was confirmed. There are no more pieces than rounds, and none is larger than the chunk or the free memory. A refusal fails with the sending side's own error text ("sendFile: client did not confirm the chunk" on the handler), as does running out of replies |
| Transfer.SenderStopsExactly | src/server/ConnectionHandler.cpp:214-215 | The sender stops at the first moment everything has been sent; before the last piece the file is never complete |
| Transfer.SlowShrinksOneToZero | src/client/main.cpp:92-97 | As written, a chunk size of 1 that meets a slow round becomes 0 |
| Transfer.ZeroChunkStalls | src/server/ConnectionHandler.cpp:217-223 | With a zero chunk size every round sends nothing, and the sender runs out of replies without finishing |
| Transfer.ClampedSendCompletes | src/server/ConnectionHandler.cpp:200-232 | With a floor of one byte, a sender whose chunks are all confirmed finishes the file |
| Transfer.ReceiveChunks | src/server/ConnectionHandler.cpp:107-131 | The receiver writes and confirms every message before the first end message and nothing after it. It fails with "fail" exactly when no end message arrives |
| Transfer.TransferRoundTrip | src/client/main.cpp:31-128 | The receiver writes exactly the bytes of the pieces sent before "DONE" and confirms each piece |
| Transfer.DoneInsideData | src/server/ConnectionHandler.cpp:117-118 | The server's prefix test ends an upload early at a chunk that merely starts with the end message; the client's exact test does not |
| Transfer.FixedPieces | server/main.cpp:133-156 | The older server cuts a file into 256 KiB pieces and an empty or shorter last piece, and together they are the file |
| Transfer.FixedSend | server/main.cpp:146-156 | The older sender succeeds exactly when every piece, the last one included, is confirmed |
| Handler.Dispatch | src/server/ConnectionHandler.cpp:26-50 | Each of the five commands selects its handler, and every other first message selects none |
| Handler.LegacyDispatch | server/main.cpp:185-202 | The older server handles upload, download and removal like the current one, and ignores listing and sync |
| Handler.ParseUpload | src/server/ConnectionHandler.cpp:72-74 | An upload request needs three messages and a size that stoll accepts |
| Handler.Closing | src/server/ConnectionHandler.cpp:145-152 | A verified upload ends with "OK", the computed hash, whether HTTP is on, and then the link |
| Handler.ReceiveFile | src/server/ConnectionHandler.cpp:71-153 | Corrected to stop after a mismatch. The upload is refused with "NO" exactly when the stored name exists. The file is kept exactly when it arrives whole and hashes to the announced hash; then it is kept under the stored name with the received bytes. A link is made under the uploaded name exactly when the file is kept and the links directory does not already hold that name |
| Handler.ReceiveFileAsWritten | src/server/ConnectionHandler.cpp:139-147 | The handler as written fails exactly when the request cannot be parsed. A link it makes carries the uploaded name, which the links directory did not hold before |
| Handler.LegacyReceiveFile | server/main.cpp:36-105 | Corrected to remove the partial file. The older upload is refused with "NO" exactly when the stored name exists. The file is kept exactly when it arrives whole, under a name that adds the computed hash, and linked exactly when it is kept and the links directory does not already hold the name |
| Handler.LegacyReceiveFileAsWritten | server/main.cpp:70-104 | The older handler as written fails exactly when the request cannot be parsed. A link it makes carries the uploaded name, which the links directory did not hold before |
| Handler.SendFile | src/server/ConnectionHandler.cpp:155-235 | "NO" when no entry carries the hash or the file cannot be read. Otherwise "OK", the size, the recovered name of the last matching entry, pieces that make up the file, and "DONE". The chunk loop is the corrected one, with a one-byte floor (Findings, first row) |
| Handler.Framed | src/server/ConnectionHandler.cpp:179-234 | A download's replies are the three opening replies, the pieces, and "DONE" |
| Handler.LegacySendFile | server/main.cpp:107-159 | The older download answers "NO" or "OK", the size, the name with the storage prefix, the fixed pieces and "DONE" |
| Handler.LegacyPieces | server/main.cpp:146-156 | The older sender's pieces are the fixed partition of the file |
| Handler.RemoveFile | src/server/ConnectionHandler.cpp:237-265 | "OK" exactly when some entry carries the hash. Then the last such entry is deleted, the others stay in order, and the link named by the entry's prefix is removed. Otherwise "NO" and nothing changes |
| Handler.Describe | src/server/ConnectionHandler.cpp:280-282 | A listing describes every entry, one description per entry |
| Handler.DescribeEach | src/server/ConnectionHandler.cpp:280-282 | The listing fails exactly when some entry cannot be described, and otherwise holds each entry's description in directory order |
| Handler.Encoded | src/server/ConnectionHandler.cpp:281 | Each description is sent as a data message holding its encoding |
| Handler.ListFiles | src/server/ConnectionHandler.cpp:267-285 | "OK", then a second "OK" exactly when the credentials match; then every entry's description and "DONE". Wrong credentials give "NOPE" and nothing else |
| Client.Resolve | src/client/CommandType.cpp:31-42 | "up", "down", "ls" and "rm" resolve to their commands, and every other word is invalid |
| Client.ParseArgs | src/client/main.cpp:274-291 | The command line is accepted exactly when it has at least three arguments, a known command, and exactly four arguments for a listing. The server is the last of them |
| Client.Request | src/client/main.cpp:334-343 | The first request names the command. An upload adds three fields, a download or removal adds the hash |
| Client.Credentials | src/client/main.cpp:202-203 | A listing sends two messages, from which the server's receiveInternal reads back "user:" with the user name and "pass:" with the password |
| Client.UploadChunks | src/client/main.cpp:31-107 | The client's chunks make up the whole file, each was confirmed, and a refusal fails with "Server did not confirm the chunk". The shrink rule has the corrected one-byte floor |
| Client.UploadCompletes | src/client/main.cpp:31-107 | An upload whose every chunk is confirmed finishes, given one round more than the file has bytes |
| Client.FinishUpload | src/client/main.cpp:128-139 | After "OK" the client reads the hash, whether HTTP is on and then the link. Any other first reply is reported as the error |
| Client.FinishUploadAsWritten | src/client/main.cpp:128-139 | As written the first reply is taken as the hash, the second is read with stoi, and a link is read when it is non-zero |
| Client.DownloadFile | src/client/main.cpp:143-199 | Corrected to keep a usable buffer (see Client.DownloadFileClamped). A download yields the size read with stoll, the name, and exactly the bytes before the exact "DONE" message |
| Client.DownloadBuffer | src/client/main.cpp:148-150 | The buffer downloadFile resizes to is at most a quarter of the free memory. For a size in range it is at most a sixteenth of the size, and is one of the two. A size under 16 in magnitude gives no bytes; a negative size of 16 or more wraps and gives the quarter of the free memory |
| Client.ClampedBuffer | src/client/main.cpp:148-150 | The corrected buffer is at least one byte, at least what the next clear covers, and never below the source's buffer. It equals the source's buffer whenever that is already large enough |
| Client.DownloadResized | src/client/main.cpp:148-163 | After the resize, the download fails with an overrun exactly when the last read before it is larger than the buffer. It fails as a disconnect when the buffer has no bytes. Otherwise it reads on as Client.DownloadFile does |
| Client.DownloadFileAsWritten | src/client/main.cpp:148-150 | As written, a download that succeeds is the one Client.DownloadFile gives. A file under 16 bytes always fails: with an overrun after any earlier read, otherwise as a disconnect |
| Client.DownloadFileClamped | src/client/main.cpp:148-150 | With the clamped buffer, the download is the one Client.DownloadFile gives, whatever the free memory and the last read |
| Client.Collect | src/client/main.cpp:213-226 | The listing loop collects fewer descriptions than messages |
| Client.CollectEach | src/client/main.cpp:213-226 | The loop stops at the first exact "DONE" and decodes every message before it, in order |
| Client.Widths | src/client/main.cpp:211-219 | Each column is at least as wide as its header and as its widest cell, and the name column is exactly one of those widths |
| Client.ColumnsAlign | src/client/main.cpp:228-253 | Every row's cells before the date line up with the header's |
| Client.HashWidthAsWritten | src/client/main.cpp:228-235 | The hash column as written has no width exactly when there is no entry |
| Client.HashWidth | src/client/main.cpp:228-235 | The hash column is sized by the first entry, or by the header when there is no entry |
| Client.ListFiles | src/client/main.cpp:201-263 | The listing is refused unless the first reply is "OK". It then tabulates exactly the collected descriptions with the computed widths. The hash column is sized by the corrected rule, which also covers an empty listing (Findings, Client.HashWidth) |
| Requests.CommandsDispatched | src/client/CommandType.cpp:14-29 | Each client command reaches the server handler of the same name; the older server drops a listing |
| Requests.UploadRequestParsed | src/server/ConnectionHandler.cpp:72-74 | The server parses the client's upload fields back to the size, name and hash sent |
| Requests.HashRequestParsed | src/server/ConnectionHandler.cpp:156 | A download or a removal names the hash given on the command line |
| Requests.UploadStreamRead | src/server/ConnectionHandler.cpp:107-131 | The server reads the three fields and then the chunks up to the end message |
| Requests.StoredWhenRead | src/server/ConnectionHandler.cpp:94-152 | An upload read in full whose bytes hash to the announced hash, under a name not linked yet, is stored, linked, and answered with the closing replies |
| Requests.UnlinkedWhenRead | src/server/ConnectionHandler.cpp:145-147 | The same upload under a name the links directory already holds is stored, but create_symlink throws: no link, and nothing after "OK" |
| Requests.UnlinkedAsWrittenWhenRead | src/server/ConnectionHandler.cpp:145-147 | The handler as written gives the same outcome for that upload |
| Requests.MismatchWhenRead | src/server/ConnectionHandler.cpp:139-143 | An upload whose bytes do not hash to the announced hash is neither kept nor linked, and ends with the mismatch message |
| Requests.LinkedWhenRead | src/server/ConnectionHandler.cpp:139-147 | As written, an upload whose bytes do not match is answered "OK" after the mismatch, and linked exactly when the links directory does not hold its name |
| Requests.DownloadStreamRead | src/client/main.cpp:143-199 | The corrected client reads the size, the name and every chunk of a download up to "DONE" |
| Requests.EntryRoundTrip | src/client/main.cpp:216 | A listed description comes back from its data message, and is never taken for the end message |
| Requests.ListingRead | src/client/main.cpp:213-226 | The client collects exactly the descriptions the server listed |
| Requests.StoredIsLast | src/server/ConnectionHandler.cpp:159-161 | A file just stored is the last entry carrying its hash |
| Requests.CredentialsChecked | src/server/ConnectionHandler.cpp:52-69 | The server reads the client's credentials back, and _auth accepts them exactly when both equal the configured ones |
| Requests.ListingAuthorised | src/server/ConnectionHandler.cpp:267-285 | A listing sent with the client's credentials is answered "OK" a second time exactly for the configured credentials, and fails only when an entry cannot be described |
| Requests.TableRead | src/client/main.cpp:201-263 | After "OK" the client tabulates exactly the listed descriptions |
| Session.UploadStored | src/server/ConnectionHandler.cpp:71-153 | A new file that hashes to what the client announced, under a name not linked yet, is stored under its stored name with exactly the bytes sent, and linked under its name. The client receives "OK", one confirm per chunk and the closing replies |
| Session.UploadNameTaken | src/server/ConnectionHandler.cpp:145-147 | When the links directory already holds the name, the file is stored with the bytes sent but not linked, and the replies end with the "OK" before the link |
| Session.NameTakenAsWritten | src/server/ConnectionHandler.cpp:145-147 | The handler as written also stores such a file unlinked, and stops after "OK" |
| Session.OkAloneUnanswered | src/client/main.cpp:128-139 | After a bare "OK" the client finds no hash to read |
| Session.RetryAfterMismatchUnanswered | src/server/ConnectionHandler.cpp:139-147 | As written, a mismatched upload leaves a link under its name. The same file sent again with the right bytes is stored but not linked, and the client gets no hash |
| Session.RetryAfterMismatchAnswered | src/server/ConnectionHandler.cpp:139-153 | With the mismatch refused, no link is left. The same file sent again with the right bytes is linked, and the client reports its hash and link |
| Session.UploadReported | src/client/main.cpp:128-139 | The client reads the closing replies as the hash and the link, once it reads "OK" first |
| Session.ClientMisreadsClosing | src/client/main.cpp:128-139 | As written, the client takes "OK" for the hash and the hash for the HTTP flag |
| Session.MismatchRefused | src/server/ConnectionHandler.cpp:139-143 | A file that does not hash to the announced hash is neither kept nor linked, and the client is told why |
| Session.MismatchReported | src/client/main.cpp:128-139 | The client reports the server's reason after a mismatch |
| Session.MismatchLinksRemovedFile | src/server/ConnectionHandler.cpp:139-147 | As written, the same upload is answered "OK" and leaves a link to the removed file |
| Session.DownloadRoundTrip | src/server/ConnectionHandler.cpp:155-235 | The corrected client saves a download under the name the server recovered, with the announced size and exactly the file's bytes |
| Session.DownloadRoundTripAsWritten | src/client/main.cpp:143-163 | The client as written saves the same download exactly when its resized buffer has at least one byte and is no smaller than its last read. Otherwise it fails with an overrun or a disconnect, which always happens for a file under 16 bytes |
| Session.DownloadAfterUpload | src/client/main.cpp:143-199 | With the corrected client, a file just uploaded comes back under the name it was uploaded with |
| Session.RemoveAfterUpload | src/server/ConnectionHandler.cpp:237-265 | Removing a file just uploaded takes out its entry, leaves the others, and removes the link under its name |
| Session.ListingRoundTrip | src/server/ConnectionHandler.cpp:267-285 | Sent with the configured credentials, a listing is answered and the client tabulates exactly the server's descriptions |
| Session.ListingRefused | src/client/main.cpp:205-208 | With any other credentials the server answers "NOPE" and the client reports that authentication failed |
| Session.EmptyListing | src/client/main.cpp:228-235 | An empty store lists no file: as written the hash column has nothing to size by, and the corrected table uses the header |
| Session.LegacyLeftoverBlocksRetry | server/main.cpp:70-75 | As written, a failed older upload leaves its partial file, and a retry is refused. With the partial file removed, the retry is accepted |
| Trackers.OpenAsWritten | src/server/RemovalTracker.cpp:5-23 | As written, a tracker constructed from any file lists nothing, because std::ofstream truncates the file before it is parsed (FileTracker.cpp:7 likewise) |
| Trackers.Open | src/server/RemovalTracker.cpp:9-22 | Corrected construction: the tracker holds what its file held, and the removal tracker gives a table without keys an empty array |
| Trackers.RestartForgets | src/server/FileTracker.cpp:5-20 | As written, a hash added and saved is no longer listed once the tracker is constructed again |
| Trackers.RestartKeeps | src/server/RemovalTracker.cpp:9-22 | Without the truncation, a hash added and saved is still listed after the tracker is constructed again |
| Trackers.AddOne | src/server/RemovalTracker.cpp:81-134 | A present hash leaves the array unchanged. A new one is appended. A key that is not an array answers false on the removal tracker and throws on the file tracker. An unsaved file answers false or throws |
| Trackers.AddAll | src/server/FileTracker.cpp:22-60 | Adding a set appends exactly the hashes not present, keeps the old items first, and reports whether the file was saved. A non-array or unsaved file tracker throws |
| Trackers.AddKeepsDistinct | src/server/RemovalTracker.cpp:54-66 | Adding keeps an array without repeated hashes free of them |
| Trackers.AddThenListed | src/server/RemovalTracker.cpp:203-234 | After a successful add the hash is listed |
| Trackers.List | src/server/FileTracker.cpp:151-174 | No key lists nothing. A key that is not an array throws. An array lists exactly its strings |
| Trackers.Keep | src/server/RemovalTracker.cpp:136-167 | The intended removal leaves no dropped hash |
| Trackers.KeepTexts | src/server/RemovalTracker.cpp:136-167 | The intended removal lists exactly the hashes not dropped |
| Trackers.KeepAppend | src/server/FileTracker.cpp:101-124 | The intended removal keeps the relative order of what remains |
| Trackers.Positions | src/server/RemovalTracker.cpp:142-147 | The positions collected are those of the string items to drop |
| Trackers.EraseEach | src/server/RemovalTracker.cpp:148-153 | Erasing the positions one after another removes one item each, and fails when a shifted position runs past the end |
| Trackers.RemoveAsWritten | src/server/RemovalTracker.cpp:142-153 | The removal as written fails on any item that is not a string |
| Trackers.RemoveOneAgrees | src/server/RemovalTracker.cpp:169-201 | For a single hash in an array without repeats, the removal as written agrees with the intended one |
| Trackers.RemoveTwoMisfires | src/server/RemovalTracker.cpp:142-153 | With two hashes to drop, the removal as written erases the wrong item and keeps one it should drop |
| Trackers.Remove | src/server/FileTracker.cpp:101-149 | Corrected removal: an unsaved file is an error. A missing key or a non-array is left alone. An array keeps exactly the items not dropped, in order |
| Trackers.AddThenRemove | src/server/RemovalTracker.cpp:81-201 | Removing a hash just added gives back the array as it was |
| Sync.Auth | src/server/ConnectionHandler.cpp:52-69 | Missing tags are an error naming the offending text. Otherwise the credentials are accepted exactly when both values match |
| Sync.Generate | src/server/ConnectionHandler.cpp:456-463 | The hash list ends with a bar when it is not empty |
| Sync.Parse | src/server/ConnectionHandler.cpp:428-442 | No parsed hash holds a bar. Non-empty text must end with a bar. A bad separator is refused |
| Sync.HashListRoundTrip | src/server/ConnectionHandler.cpp:428-463 | Parsing a generated list gives the hashes back in order |
| Sync.UnterminatedRefused | src/server/ConnectionHandler.cpp:428-442 | Non-empty text without a final bar is refused |
| Sync.Subtract | src/server/ConnectionHandler.cpp:358-367 | The subtraction holds exactly the left items that are not on the right |
| Sync.MakePlan | src/server/ConnectionHandler.cpp:384-388 | The slave fetches only what the master alone has, and sends only what it alone has |
| Sync.PlanCompletes | src/server/ConnectionHandler.cpp:384-402 | Once the plan is carried out, both sides hold the union of their hashes |
| Sync.SyncAsSlave | src/server/ConnectionHandler.cpp:369-403 | Bad credentials answer "NOPE". Otherwise the plan is computed from the parsed remote list and the local hashes, and the local list parses back to the local hashes. Errors come only from authentication, parsing or an unreadable entry |
| Sync.ListedRoundTrip | src/server/ConnectionHandler.cpp:456-463 | Any listing of a set of hashes without bars parses back unchanged |
| Sync.Listing | src/server/ConnectionHandler.cpp:456-463 | A set is listed with each element exactly once |
| Sync.FetchCountAsWritten | src/server/ConnectionHandler.cpp:391-394 | As written, the fetch loop fetches at most one file |
| Sync.FetchLosesFiles | src/server/ConnectionHandler.cpp:391-394 | With two files missing, the loop as written fetches one |
| Sync.FetchCount | src/server/ConnectionHandler.cpp:391-394 | Corrected: every missing file is fetched |
| Sync.SendNamesAsWritten | src/server/ConnectionHandler.cpp:412-425 | As written, the search throws out_of_range exactly when some entry has no extension, and otherwise the names to send are empty |
| Sync.SendNamesThrowsLikeFindAll | src/server/ConnectionHandler.cpp:412-425 | The search as written throws exactly when the corrected search does |
| Sync.SendNamesDropped | src/server/ConnectionHandler.cpp:396-402 | A stored file the master lacks is found by the corrected search, but the function as written drops it |
| Misc.PadToSize | src/shared/utils.cpp:58-61 | Padding keeps the text and fills with spaces up to the width. Text at least as long as the width is left alone |
| Misc.PadIdempotent | src/shared/utils.cpp:58-61 | Padding twice to the same width pads once |
| Misc.PadKeepsText | src/shared/utils.cpp:58-61 | Two texts of equal length that pad to the same cell are equal |
| Misc.Init | src/server/ClientInfo.cpp:3-11 | init succeeds exactly on an uninitialised record and stores the address and socket. Otherwise it changes nothing |
| Misc.InitOnce | src/server/ClientInfo.cpp:3-20 | On a fresh record exactly the first init succeeds, and getIp and getSocket return what it stored |
| Misc.InitializedStays | src/server/ClientInfo.cpp:3-11 | An initialised record is never changed by init |

## Left out

- The client's "getHttpLink" request before it reads the link is left out. The server sends the link without being asked, so the request is never read.
- Sockets, `connect`, `accept`, DNS lookup and `setsockopt` are left out. Reads are a script of `recv` results. The timeout setting is a boolean.
- libsodium's key generation, sealing and opening are parameters (`Box`). The model does not re-prove their cryptographic guarantees.
- The seal call failing ("Could not encrypt message") is left out: sealing is a total function.
- The BLAKE2 file hash is a parameter.
- File contents are read and written whole. Partial writes and `std::ofstream` errors are left out.
- The durations measured with the clock are a `Pace`. The floating-point multiply is written as the integer rule it computes.
- `getFreeMemory` is a number passed in. The `static_cast<int>` narrowing of a chunk size over 2^31 is left out.
- `humanReadableSize`, `strftime` date formatting, colours and console output are parameters or left out: they only format text for people.
- `_sendFileInSync` and `_syncer` are left out: they are the network side of a sync and re-use the download loop. Only the slave's decisions are modelled.
- The TOML settings file, the trackers' file reads and writes (only the truncation on construction is modelled) and the HTTP file servers are left out. A save is a boolean, and the settings are values.
- A memset past the end of the receive buffer is undefined behaviour in the program. The model reports it as the error OVERRUN and stops there.
- The links directory is the set of link names already present. Only whether a name is taken is modelled: create_symlink's other failures and dangling links are left out.
- Threads, the accept loop, the terminal and the signal handling are left out: they never touch the protocol.
- The server's receive loops forever on zero-length reads, and the client's `resizeBuffer` is called on the server's connection. src/server/ConnectionServer.cpp is not part of this model, so these are not modelled for the current server.
- The shared client's sentinel is a parameter of `NewClient`. src/shared/Connection.hpp is not part of this model.
- src/CommandType.cpp and src/main.cpp are older copies of the client files and are left out.
- The client's `std::set` order is left out: `Sync.Listing` lists a set in any duplicate-free order.
- "No more replies" and "no more data on the socket" mark the end of a script. The real programs would block there.
- Handler.ReceiveFileAsWritten: its contract states when it fails and which link it may make. Its replies are stated by Session.MismatchLinksRemovedFile, Requests.LinkedWhenRead and Session.NameTakenAsWritten.
- Handler.LegacyReceiveFileAsWritten: its contract states when it fails and which link it may make. Its leftover file is stated by Session.LegacyLeftoverBlocksRetry.
- Channel.ReceivePlain: it states one receive only for reads where just the last one ends with the sentinel. Any other cut is stated for a loop of receives, by Channel.ReceiveAll.
- Channel.ReceiveSealed: the same as Channel.ReceivePlain, for sealed messages.
- Channel.ReceivePlain: on a client it requires a first message without the public-key tag, because the client answers any message holding it as a key announcement.
- Channel.ReceiveSealed: on a client it requires a first plaintext without the public-key tag, because even an encrypted client answers such a message as a key announcement. What happens then is stated by Channel.KeyTagBreaksDelivery.
- Channel.ReceiveAll: on a client it requires messages without the public-key tag, for the same reason.
- Channel.DeliversAll: the same proviso as Channel.ReceiveAll.
- Channel.SealedDelivery: on a client it requires a message without the public-key tag. Channel.SealedDeliveryCorrected states delivery without that proviso for the corrected receive.
- Connection.ReceiveCorrected is used only by Channel.SealedDeliveryCorrected. The rest of the model keeps the receive as written, which agrees with it on every message without the public-key tag (Connection.DeliverCorrectedAgrees).
- Channel.ReceiveAll: it needs a sentinel with no border. Both fixed sentinels have none (Framing.SentinelsAreSafe). The shared client's sentinel is a parameter, so for it the property holds only when the chosen sentinel has no border.
- Client.Collect: its contract bounds the count. What it collects is stated by Client.CollectEach.
- Handler.Describe: its contract gives the count. The contents are stated by Handler.DescribeEach.

## Findings

| source | as written | input that shows it | evidently intended | confidence | as-written member | corrected member |
|---|---|---|---|---|---|---|
| src/server/ConnectionHandler.cpp:217-223 | a slow send shrinks the chunk to floor(0.75 × chunk) with no lower bound | chunk size 1 and a send slower than 1.4 s: the chunk becomes 0, and every later round sends nothing | keep the chunk at least one byte (the client's loop at src/client/main.cpp:93-97 has the same rule) | not executed | Transfer.ZeroChunkStalls | Transfer.ClampedSendCompletes |
| server/main.cpp:176-179 | the removal link name is the whole stored file name, with both extensions, unmangled | upload "a" with hash h, then remove h: the handler looks for the link "a.h.c", where c is the computed hash, but the upload created the link "a" | take the name up to the first '.' | not executed | Storage.LegacyLinkMissed | Storage.LegacyLinkCorrected |
| src/server/RemovalTracker.cpp:142-153 | positions are collected first and erased one by one, so each erase shifts the later positions | array [a, b, c, d], remove {a, c}: the result is [b, c], not [b, d] | erase every listed hash and keep the rest in order | not executed | Trackers.RemoveTwoMisfires | Trackers.Remove |
| src/client/main.cpp:228-235 | the hash column width reads the first entry even when the listing is empty | a server with an empty storage directory answers a listing | size the hash column by its header when there is no entry | not executed | Client.HashWidthAsWritten | Client.HashWidth |
| src/client/main.cpp:148-150 | the receive buffer is resized to the smaller of a quarter of the free memory and a sixteenth of the file size, with no lower bound; clearBuffer (src/shared/Connection.cpp:345) then clears as many bytes as the last read before the resize | download a file of 10 bytes: the buffer becomes 0 bytes, the next clear writes past it, and the recv returns 0, reported as "server disconnected" | keep the buffer at least one byte and at least as large as what the next clear covers | not executed | Session.DownloadRoundTripAsWritten | Client.DownloadFileClamped |
| src/Connection.cpp:95-103 | clearBuffer uses the previous read's size, which is -1 after a failed read, as the memset length | one read failing with EAGAIN, then a read holding the sentinel: the next clear covers 2^64-1 bytes | skip clearing after a failed read and retry | not executed | Connection.LegacyRetryOverruns | Connection.LegacyRetries |
| src/shared/Connection.cpp:206-221 | every received message that contains "INTERNAL::publicKey:" is taken for a key announcement, also after encryption, and the key is decoded from the 21st character of the whole message | download a file whose piece is the tag followed by 65 zeros: the client fails with "Could not decode public key" (receiveWTime at src/shared/Connection.cpp:285-300 does the same) | answer a key announcement only while the channel is not yet encrypted | not executed | Channel.KeyTagBreaksDelivery | Channel.SealedDeliveryCorrected |
| src/server/ConnectionHandler.cpp:391-394 | the fetch loop counts an unsigned index down from 0 and stops after one pass | two hashes missing locally: only one is fetched | fetch every missing file | not executed | Sync.FetchLosesFiles | Sync.FetchCount |
| src/server/ConnectionHandler.cpp:412-425 | _findCorrespondingFileNames finds nothing and returns an empty set | a slave holding a file the master lacks: no name is sent | return the stored names whose hash is wanted | not executed | Sync.SendNamesDropped | Storage.FindAll |
| src/server/ConnectionHandler.cpp:139-147 | after a hash mismatch the file is removed but the handler goes on, answers "OK" and links it | an upload whose bytes hash differently from the announced hash | stop after reporting the mismatch | not executed | Session.MismatchLinksRemovedFile | Session.MismatchRefused |
| src/server/ConnectionHandler.cpp:145-147 | the link left by a mismatched upload stays in the links directory, and create_symlink throws when the name is there | upload "a" with the wrong bytes, then "a" again with the right bytes: the file is stored, but the client never gets its hash | leave no link after a mismatch | not executed | Session.RetryAfterMismatchUnanswered | Session.RetryAfterMismatchAnswered |
| server/main.cpp:70-75 | a failed receive removes the bare name, not the storage path, so the partial file stays | an upload that breaks off, then the same upload again: the retry is answered "NO" | remove the partial file at its storage path | not executed | Session.LegacyLeftoverBlocksRetry | Handler.LegacyReceiveFile |
| src/client/main.cpp:128-139 | after "DONE" the client reads the server's "OK" as the hash and the hash as the HTTP flag | any verified upload: the client prints "OK" as the hash | read "OK" first, then the hash, the flag and the link | not executed | Session.ClientMisreadsClosing | Session.UploadReported |
| src/server/RemovalTracker.cpp:7 | the constructor opens the tracker file with std::ofstream before parsing it, which truncates it (FileTracker.cpp:7 opens it with only `ate`, which truncates too) | add a hash, let the tracker save it, construct the tracker again from the same file: the hash is no longer listed | open the file without truncating it, only to create it when missing | not executed | Trackers.RestartForgets | Trackers.RestartKeeps |
