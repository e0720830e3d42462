/** The server's request handlers (src/server/ConnectionHandler.cpp) and the
    older server's (server/main.cpp): which command a first message selects,
    and for each request what the server sends back and what it leaves in
    the storage directory. The directory is the list of its entries' names;
    the file system, the hash function and the clock are parameters. */
module Handler {
  import opened Wrappers
  import opened Text
  import opened Decimal
  import opened Transfer
  import opened Protocol
  import opened Storage
  import FileInfo
  import Sync

  // ------------------------------------------------ dispatch

  datatype Request = Upload | Download | Remove | List | SyncRequest | Unknown

  /** _serveConnection: the first internal message names the request; any
      other text is ignored and the connection closes. */
  function Dispatch(message: string): (r: Request)
    ensures r == Upload <==> message == "command:UPLOAD"
    ensures r == Download <==> message == "command:DOWNLOAD"
    ensures r == Remove <==> message == "command:REMOVE"
    ensures r == List <==> message == "command:LIST"
    ensures r == SyncRequest <==> message == "command:SYNC"
  {
    if message == "command:UPLOAD" then Upload
    else if message == "command:DOWNLOAD" then Download
    else if message == "command:REMOVE" then Remove
    else if message == "command:LIST" then List
    else if message == "command:SYNC" then SyncRequest
    else Unknown
  }

  /** The older server knows only the first three requests. */
  function LegacyDispatch(message: string): (r: Request)
    ensures r != Unknown ==> r == Dispatch(message)
    ensures r == Unknown <==> Dispatch(message) in {Unknown, List, SyncRequest}
  {
    if message == "command:UPLOAD" then Upload
    else if message == "command:DOWNLOAD" then Download
    else if message == "command:REMOVE" then Remove
    else Unknown
  }

  // ------------------------------------------------ upload

  /** The three messages that open an upload. Only the label lengths are
      cut off (five, nine and five characters); the labels are not checked. */
  datatype UploadRequest = UploadRequest(size: int, name: string, hash: string)

  function ParseUpload(stream: seq<string>): (r: Result<UploadRequest>)
    ensures r.Ok? ==> |stream| >= 3
    ensures r.Ok? ==> I64_MIN <= r.value.size <= I64_MAX
  {
    var sizeMessage :- ServerRead(stream, 0);
    var sizeText :- Cut(sizeMessage, 5);
    var size :- match ParseI64(sizeText)
      case None => Err(NOT_A_NUMBER)
      case Some(v) => Ok(v);
    var nameMessage :- ServerRead(stream, 1);
    var name :- Cut(nameMessage, 9);
    var hashMessage :- ServerRead(stream, 2);
    var hash :- Cut(hashMessage, 5);
    Ok(UploadRequest(size, name, hash))
  }

  /** The HTTP server settings the replies mention. */
  datatype Web = Web(wantHttp: bool, protocol: string, hostname: string)

  function WebLink(web: Web, name: string): string {
    web.protocol + "://" + web.hostname + "/" + name
  }

  /** What an upload leaves behind: the payloads sent, the file kept in
      storage (entry name and bytes), and the name of the link created.
      create_symlink throws when the links directory already holds the
      name; the handler then ends there, and the exception is only logged. */
  datatype Received = Received(replies: seq<string>, stored: Option<(string, string)>, link: Option<string>)

  /** The replies after a verified upload: "OK", the hash, whether there is
      an HTTP server, and then its link. */
  function Closing(web: Web, name: string, computed: string): (r: seq<string>)
    ensures |r| == (if web.wantHttp then 4 else 3)
    ensures r[..3] == [Internal(OK), Internal(computed), Internal(BoolText(web.wantHttp))]
  {
    [Internal(OK), Internal(computed), Internal(BoolText(web.wantHttp))]
    + (if web.wantHttp then [Internal(WebLink(web, name))] else [])
  }

  /** The replies from "OK" on, once the file is in place: the link is made
      and the hash and link settings follow, unless the links directory
      already holds the name and the handler stops after "OK". */
  function Linking(links: set<string>, web: Web, name: string, computed: string): (r: seq<string>)
    ensures |r| > 0 && r[0] == Internal(OK)
    ensures name in links ==> r == [Internal(OK)]
    ensures name !in links ==> r == Closing(web, name, computed)
  {
    if name in links then [Internal(OK)] else Closing(web, name, computed)
  }

  /** _receiveFile as written: a hash that does not match removes the file
      and says so, but the handler carries on, answers "OK" and links the
      removed file. links are the names already in the links directory. */
  function ReceiveFileAsWritten(entries: seq<string>, links: set<string>, stream: seq<string>,
                                digest: string -> string, web: Web)
    : (r: Result<Received>)
    ensures r.Err? <==> ParseUpload(stream).Err?
    ensures r.Ok? && r.value.link.Some? ==>
              r.value.link.value == ParseUpload(stream).value.name && r.value.link.value !in links
  {
    var req :- ParseUpload(stream);
    var stored := StoredName(req.name, req.hash);
    var link := if req.name in links then None else Some(req.name);
    if stored in entries then Ok(Received([Internal(NO), Internal(WebLink(web, req.name))], None, None))
    else match ReceiveChunks(PrefixDone, stream[3..])
      case Err(_) => Ok(Received([Internal(OK)] + Confirms(|stream| - 3) + [Internal(RECEIVE_FAILED)], None, None))
      case Ok((n, content)) =>
        var computed := digest(content);
        if computed != req.hash then
          Ok(Received([Internal(OK)] + Confirms(n) + [Internal(MISMATCH)] + Linking(links, web, req.name, computed), None, link))
        else
          Ok(Received([Internal(OK)] + Confirms(n) + Linking(links, web, req.name, computed), Some((stored, content)), link))
  }

  /** _receiveFile: refuse a file already stored under the same name and
      hash; store the chunks until the end message; keep the file and link
      it only when the bytes hash to what the client announced, and the
      links directory does not hold the name yet. */
  function ReceiveFile(entries: seq<string>, links: set<string>, stream: seq<string>,
                       digest: string -> string, web: Web)
    : (r: Result<Received>)
    ensures r.Err? <==> ParseUpload(stream).Err?
    ensures r.Ok? ==> |r.value.replies| > 0
    ensures r.Ok? ==> var req := ParseUpload(stream).value;
              (r.value.replies[0] == Internal(NO) <==> StoredName(req.name, req.hash) in entries)
    ensures r.Ok? ==> var req := ParseUpload(stream).value;
              (r.value.stored.Some? <==>
                 StoredName(req.name, req.hash) !in entries && ReceiveChunks(PrefixDone, stream[3..]).Ok?
                 && digest(ReceiveChunks(PrefixDone, stream[3..]).value.1) == req.hash)
    ensures r.Ok? && r.value.stored.Some? ==> var req := ParseUpload(stream).value;
              r.value.stored.value == (StoredName(req.name, req.hash), ReceiveChunks(PrefixDone, stream[3..]).value.1)
    ensures r.Ok? ==> (r.value.link.Some? <==> r.value.stored.Some? && ParseUpload(stream).value.name !in links)
    ensures r.Ok? && r.value.link.Some? ==> r.value.link.value == ParseUpload(stream).value.name
  {
    var req :- ParseUpload(stream);
    var stored := StoredName(req.name, req.hash);
    if stored in entries then Ok(Received([Internal(NO), Internal(WebLink(web, req.name))], None, None))
    else match ReceiveChunks(PrefixDone, stream[3..])
      case Err(_) => Ok(Received([Internal(OK)] + Confirms(|stream| - 3) + [Internal(RECEIVE_FAILED)], None, None))
      case Ok((n, content)) =>
        var computed := digest(content);
        if computed != req.hash then
          Ok(Received([Internal(OK)] + Confirms(n) + [Internal(MISMATCH)], None, None))
        else
          Ok(Received([Internal(OK)] + Confirms(n) + Linking(links, web, req.name, computed), Some((stored, content)),
                      if req.name in links then None else Some(req.name)))
  }

  /** The older receiveFile as written: no link on refusal; after a failed
      receive it removes the bare mangled name instead of the storage path,
      so the partial file stays; a finished upload is renamed to carry the
      computed hash as a second extension, linked, and the hash sent. */
  function LegacyReceiveFileAsWritten(entries: seq<string>, links: set<string>, stream: seq<string>,
                                      digest: string -> string)
    : (r: Result<Received>)
    ensures r.Err? <==> ParseUpload(stream).Err?
    ensures r.Ok? && r.value.link.Some? ==>
              r.value.link.value == ParseUpload(stream).value.name && r.value.link.value !in links
  {
    var req :- ParseUpload(stream);
    var stored := StoredName(req.name, req.hash);
    if stored in entries then Ok(Received([Internal(NO)], None, None))
    else match ReceiveChunks(PrefixDone, stream[3..])
      case Err(_) => Ok(Received([Internal(OK)] + Confirms(|stream| - 3), Some((stored, Concat(stream[3..]))), None))
      case Ok((n, content)) =>
        var computed := digest(content);
        var kept := Some((LegacyFinalName(req.name, req.hash, computed), content));
        if req.name in links then Ok(Received([Internal(OK)] + Confirms(n), kept, None))
        else Ok(Received([Internal(OK)] + Confirms(n) + [Internal(computed)], kept, Some(req.name)))
  }

  /** The older receiveFile with the partial file removed after a failed
      receive. */
  function LegacyReceiveFile(entries: seq<string>, links: set<string>, stream: seq<string>,
                             digest: string -> string)
    : (r: Result<Received>)
    ensures r.Err? <==> ParseUpload(stream).Err?
    ensures r.Ok? ==> |r.value.replies| > 0
    ensures r.Ok? ==> var req := ParseUpload(stream).value;
              (r.value.replies[0] == Internal(NO) <==> StoredName(req.name, req.hash) in entries)
    ensures r.Ok? ==> (r.value.link.Some? <==> r.value.stored.Some? && ParseUpload(stream).value.name !in links)
    ensures r.Ok? ==> var req := ParseUpload(stream).value;
              (r.value.stored.Some? <==>
                 StoredName(req.name, req.hash) !in entries && ReceiveChunks(PrefixDone, stream[3..]).Ok?)
    ensures r.Ok? && r.value.stored.Some? ==> var req := ParseUpload(stream).value;
              var content := ReceiveChunks(PrefixDone, stream[3..]).value.1;
              r.value.stored.value == (LegacyFinalName(req.name, req.hash, digest(content)), content)
  {
    var req :- ParseUpload(stream);
    var stored := StoredName(req.name, req.hash);
    if stored in entries then Ok(Received([Internal(NO)], None, None))
    else match ReceiveChunks(PrefixDone, stream[3..])
      case Err(_) => Ok(Received([Internal(OK)] + Confirms(|stream| - 3), None, None))
      case Ok((n, content)) =>
        var computed := digest(content);
        var kept := Some((LegacyFinalName(req.name, req.hash, computed), content));
        if req.name in links then Ok(Received([Internal(OK)] + Confirms(n), kept, None))
        else Ok(Received([Internal(OK)] + Confirms(n) + [Internal(computed)], kept, Some(req.name)))
  }

  // ------------------------------------------------ download

  /** The hash a download or removal names, after a five-character label. */
  function RequestedHash(stream: seq<string>): (r: Result<string>)
  {
    var message :- ServerRead(stream, 0);
    Cut(message, 5)
  }

  /** _sendFile: find the last entry carrying the hash; "NO" if there is
      none or it cannot be read; otherwise "OK", the size, the name the
      client should save under, the chunks (each confirmed) and "DONE".
      rounds are the client's replies with how long each send took. The
      chunk size never falls below one byte. */
  function SendFile(entries: seq<string>, stream: seq<string>, readable: bool, data: string,
                    freeRam: nat, rounds: seq<Round>): (r: Result<seq<string>>)
    ensures RequestedHash(stream).Err? ==> r.Err?
    ensures r.Ok? ==> |r.value| > 0
    ensures RequestedHash(stream).Ok? ==>
              var hash := RequestedHash(stream).value;
              (LookupLast(entries, hash).None? || !readable ==> r == Ok([Internal(NO)]))
    ensures r.Ok? && r.value != [Internal(NO)] ==>
              var i := LookupLast(entries, RequestedHash(stream).value).value;
              && |r.value| >= 5
              && r.value[..3] == [Internal(OK), Internal(NatToText(|data|)), Internal(RecoverName(STORAGE_PREFIX + entries[i]))]
              && Concat(r.value[3..|r.value| - 1]) == data
              && r.value[|r.value| - 1] == Internal(DONE)
  {
    var hash :- RequestedHash(stream);
    match LookupLast(entries, hash)
    case None => Ok([Internal(NO)])
    case Some(i) =>
      if !readable then Ok([Internal(NO)])
      else
        var head := [Internal(OK), Internal(NatToText(|data|)), Internal(RecoverName(STORAGE_PREFIX + entries[i]))];
        var pieces :- SendChunks(data, 0, SERVER_FIRST_CHUNK, freeRam, 1, rounds, SERVER_NOT_CONFIRMED);
        Ok(Framed(head, pieces))
  }

  /** The three opening replies of a download, the chunks, and "DONE". */
  function Framed(head: seq<string>, pieces: seq<string>): (out: seq<string>)
    requires |head| == 3
    ensures |out| == |pieces| + 4
    ensures out[..3] == head && out[3..|out| - 1] == pieces && out[|out| - 1] == Internal(DONE)
  {
    head + pieces + [Internal(DONE)]
  }

  /** The older sendFile: the same lookup and replies, the name keeps its
      directory and first extension, and the chunks are the fixed 256 KiB
      partition, each of which must be confirmed. */
  function LegacySendFile(entries: seq<string>, stream: seq<string>, readable: bool, data: string,
                          replies: seq<string>): (r: Result<seq<string>>)
    ensures RequestedHash(stream).Err? ==> r.Err?
    ensures RequestedHash(stream).Ok? ==>
              var hash := RequestedHash(stream).value;
              (LookupLast(entries, hash).None? || !readable ==> r == Ok([Internal(NO)]))
    ensures r.Ok? && r.value != [Internal(NO)] ==>
              var i := LookupLast(entries, RequestedHash(stream).value).value;
              && |r.value| >= 4
              && r.value[..3] == [Internal(OK), Internal(NatToText(|data|)), Internal(LegacyClientName(STORAGE_PREFIX + entries[i]))]
              && r.value[3..|r.value| - 1] == FixedPieces(data)
              && r.value[|r.value| - 1] == Internal(DONE)
  {
    var hash :- RequestedHash(stream);
    match LookupLast(entries, hash)
    case None => Ok([Internal(NO)])
    case Some(i) =>
      if !readable then Ok([Internal(NO)])
      else
        var head := [Internal(OK), Internal(NatToText(|data|)), Internal(LegacyClientName(STORAGE_PREFIX + entries[i]))];
        var pieces :- LegacyPieces(data, replies);
        Ok(Framed(head, pieces))
  }

  /** The fixed partition, sent only if every chunk is confirmed. */
  function LegacyPieces(data: string, replies: seq<string>): (r: Result<seq<string>>)
    ensures r.Ok? ==> r.value == FixedPieces(data)
  {
    var pieces := FixedPieces(data);
    var _ :- FixedSend(pieces, replies);
    Ok(pieces)
  }

  // ------------------------------------------------ removal

  /** What a removal leaves: the reply, the remaining entries and the link
      it deletes. */
  datatype Removed = Removed(reply: string, entries: seq<string>, unlinked: Option<string>)

  /** _removeFile: delete the last entry carrying the hash and the link
      named by its text before the first '.'; "NO" when there is none. The
      older server's removeFile is the same with the link name of
      Storage.LegacyLinkName. */
  function RemoveFile(entries: seq<string>, stream: seq<string>): (r: Result<Removed>)
    ensures r.Err? <==> RequestedHash(stream).Err?
    ensures r.Ok? ==> var hash := RequestedHash(stream).value;
              (r.value.reply == Internal(OK) <==> exists j :: 0 <= j < |entries| && Carries(entries[j], hash))
    ensures r.Ok? && r.value.reply != Internal(OK) ==> r.value == Removed(Internal(NO), entries, None)
    ensures r.Ok? && r.value.reply == Internal(OK) ==>
              var i := LookupLast(entries, RequestedHash(stream).value).value;
              && r.value.entries == entries[..i] + entries[i + 1..]
              && r.value.unlinked == Some(RemovalLinkName(entries[i]))
  {
    var hash :- RequestedHash(stream);
    match LookupLast(entries, hash)
    case None => Ok(Removed(Internal(NO), entries, None))
    case Some(i) => Ok(Removed(Internal(OK), entries[..i] + entries[i + 1..], Some(RemovalLinkName(entries[i]))))
  }

  // ------------------------------------------------ listing

  /** What the file system says about an entry. */
  datatype Stat = Stat(regular: bool, size: nat, seconds: int)

  /** A description for every entry, in directory order; the first entry
      that cannot be described ends the listing. */
  function Describe(entries: seq<string>, describe: string -> Result<FileInfo.Info>): (r: Result<seq<FileInfo.Info>>)
    ensures r.Ok? ==> |r.value| == |entries|
  {
    if |entries| == 0 then Ok([])
    else
      var first :- describe(entries[0]);
      var rest :- Describe(entries[1..], describe);
      Ok([first] + rest)
  }

  /** FileInfo(entry, true): the entry exists, as the directory listed it. */
  function DescribeOne(stat: string -> Stat): (describe: string -> Result<FileInfo.Info>)
  {
    entry => FileInfo.FromPath(STORAGE_PREFIX + entry, true, stat(entry).regular, stat(entry).size, stat(entry).seconds, true)
  }

  /** The listing describes each entry in turn, and fails exactly when some
      entry cannot be described. */
  lemma {:induction false} DescribeEach(entries: seq<string>, describe: string -> Result<FileInfo.Info>)
    ensures Describe(entries, describe).Ok? <==> forall i :: 0 <= i < |entries| ==> describe(entries[i]).Ok?
    ensures Describe(entries, describe).Ok? ==>
              forall i :: 0 <= i < |entries| ==> describe(entries[i]) == Ok(Describe(entries, describe).value[i])
  {
    if |entries| > 0 {
      DescribeEach(entries[1..], describe);
      assert forall i :: 1 <= i < |entries| ==> entries[i] == entries[1..][i - 1];
    }
  }

  /** Each description as sendData sends it. */
  function Encoded(infos: seq<FileInfo.Info>): (r: seq<string>)
    ensures |r| == |infos| && forall i :: 0 <= i < |infos| ==> r[i] == Data(FileInfo.Encode(infos[i]))
  {
    seq(|infos|, i requires 0 <= i < |infos| => Data(FileInfo.Encode(infos[i])))
  }

  /** _listFiles: "OK", then the credentials; "NOPE" for wrong ones,
      otherwise "OK", one description per entry and "DONE". A missing label
      or an entry that cannot be described ends the connection. */
  function ListFiles(entries: seq<string>, stream: seq<string>, stat: string -> Stat,
                     authUser: string, authPass: string): (r: Result<seq<string>>)
    ensures r.Ok? ==> |r.value| >= 2 && r.value[0] == Internal(OK)
    ensures r.Ok? ==> ServerRead(stream, 0).Ok? && ServerRead(stream, 1).Ok?
    ensures r.Ok? ==> (r.value[1] == Internal(OK) <==>
                         Sync.Auth(ServerRead(stream, 0).value, ServerRead(stream, 1).value, authUser, authPass) == Ok(true))
    ensures r.Ok? && r.value[1] == Internal(OK) ==>
              && Describe(entries, DescribeOne(stat)).Ok?
              && r.value == [Internal(OK), Internal(OK)] + Encoded(Describe(entries, DescribeOne(stat)).value) + [Internal(DONE)]
    ensures r.Ok? && r.value[1] != Internal(OK) ==> r.value == [Internal(OK), Internal(NOPE)]
  {
    var user :- ServerRead(stream, 0);
    var pass :- ServerRead(stream, 1);
    var allowed :- Sync.Auth(user, pass, authUser, authPass);
    if !allowed then Ok([Internal(OK), Internal(NOPE)])
    else
      var infos :- Describe(entries, DescribeOne(stat));
      Ok([Internal(OK), Internal(OK)] + Encoded(infos) + [Internal(DONE)])
  }
}
