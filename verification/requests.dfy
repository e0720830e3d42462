/** What the server's handlers make of the requests the client sends: the
    command selects the handler of the same name, the labelled fields come
    through, and an upload's chunks are read up to the end message. */
module Requests {
  import opened Wrappers
  import opened Text
  import opened Decimal
  import opened Transfer
  import opened Protocol
  import Storage
  import FileInfo
  import Handler
  import Client
  import Sync

  // ------------------------------------------------ commands

  /** The request the server's dispatch selects for a client command. */
  function Served(c: Client.Command): Handler.Request {
    match c
    case Upload => Handler.Upload
    case Download => Handler.Download
    case Remove => Handler.Remove
    case List => Handler.List
    case Invalid => Handler.Unknown
  }

  /** Each of the client's commands reaches the handler of the same name;
      the older server drops a listing. */
  lemma CommandsDispatched(c: Client.Command)
    ensures Handler.Dispatch("command:" + Client.Name(c)) == Served(c)
    ensures Handler.LegacyDispatch("command:" + Client.Name(c)) == if c == Client.List then Handler.Unknown else Served(c)
  {
  }

  // ------------------------------------------------ upload request

  /** The three fields carry the size, the name and the hash through to
      the handler, whatever follows them. */
  lemma UploadRequestParsed(size: nat, fileName: string, hash: string, rest: seq<string>)
    requires size <= I64_MAX
    ensures Handler.ParseUpload(UploadFields(size, fileName, hash) + rest)
            == Ok(Handler.UploadRequest(size, fileName, hash))
  {
    var stream := UploadFields(size, fileName, hash) + rest;
    ReadInternal(stream, 0, "size:" + NatToText(size));
    ReadInternal(stream, 1, "filename:" + fileName);
    ReadInternal(stream, 2, "hash:" + hash);
    CutLabel("size:", NatToText(size));
    CutLabel("filename:", fileName);
    CutLabel("hash:", hash);
    ParseI64RoundTrip(size);
  }

  /** A download or a removal names the hash given on the command line. */
  lemma HashRequestParsed(inv: Client.Invocation, size: nat, fileName: string, hash: string, rest: seq<string>)
    requires inv.command == Client.Download || inv.command == Client.Remove
    ensures Handler.RequestedHash(Client.Request(inv, size, fileName, hash)[1..] + rest) == Ok(inv.operand)
  {
    var stream := Client.Request(inv, size, fileName, hash)[1..] + rest;
    assert stream[0] == Internal("hash:" + inv.operand);
    ReadInternal(stream, 0, "hash:" + inv.operand);
    CutLabel("hash:", inv.operand);
  }

  // ------------------------------------------------ upload

  /** The three labelled fields of an upload request. */
  function UploadFields(size: nat, fileName: string, hash: string): (r: seq<string>)
    ensures |r| == 3
  {
    [Internal("size:" + NatToText(size)), Internal("filename:" + fileName), Internal("hash:" + hash)]
  }

  /** The client's upload request is the command and the three fields. */
  lemma UploadRequestFields(inv: Client.Invocation, size: nat, fileName: string, hash: string)
    requires inv.command == Client.Upload
    ensures Client.Request(inv, size, fileName, hash)[1..] == UploadFields(size, fileName, hash)
  {
  }

  /** The server reads the three fields and then the chunks up to the end
      message. */
  lemma UploadStreamRead(size: nat, fileName: string, hash: string, pieces: seq<string>, tail: seq<string>)
    requires size <= I64_MAX
    requires forall i :: 0 <= i < |pieces| ==> !IsDone(PrefixDone, pieces[i])
    ensures var stream := UploadFields(size, fileName, hash) + (pieces + [DONE_MESSAGE] + tail);
            && Handler.ParseUpload(stream) == Ok(Handler.UploadRequest(size, fileName, hash))
            && ReceiveChunks(PrefixDone, stream[3..]) == Ok((|pieces|, Concat(pieces)))
  {
    var stream := UploadFields(size, fileName, hash) + (pieces + [DONE_MESSAGE] + tail);
    UploadRequestParsed(size, fileName, hash, pieces + [DONE_MESSAGE] + tail);
    assert stream[3..] == pieces + [DONE_MESSAGE] + tail;
    TransferRoundTrip(PrefixDone, pieces, tail);
  }

  /** An upload read in full whose bytes hash to the announced hash, under
      a name not linked yet. */
  lemma StoredWhenRead(entries: seq<string>, links: set<string>, stream: seq<string>, size: int, fileName: string,
                       hash: string, n: nat, content: string, digest: string -> string, web: Handler.Web)
    requires Handler.ParseUpload(stream) == Ok(Handler.UploadRequest(size, fileName, hash)) && |stream| >= 3
    requires ReceiveChunks(PrefixDone, stream[3..]) == Ok((n, content))
    requires Storage.StoredName(fileName, hash) !in entries && digest(content) == hash
    requires fileName !in links
    ensures Handler.ReceiveFile(entries, links, stream, digest, web)
            == Ok(Handler.Received([Internal(OK)] + Confirms(n) + Handler.Closing(web, fileName, hash),
                                   Some((Storage.StoredName(fileName, hash), content)), Some(fileName)))
  {
  }

  /** The same upload under a name the links directory already holds: the
      file is kept, but the handler stops after "OK" with no link. */
  lemma UnlinkedWhenRead(entries: seq<string>, links: set<string>, stream: seq<string>, size: int, fileName: string,
                         hash: string, n: nat, content: string, digest: string -> string, web: Handler.Web)
    requires Handler.ParseUpload(stream) == Ok(Handler.UploadRequest(size, fileName, hash)) && |stream| >= 3
    requires ReceiveChunks(PrefixDone, stream[3..]) == Ok((n, content))
    requires Storage.StoredName(fileName, hash) !in entries && digest(content) == hash
    requires fileName in links
    ensures Handler.ReceiveFile(entries, links, stream, digest, web)
            == Ok(Handler.Received([Internal(OK)] + Confirms(n) + [Internal(OK)],
                                   Some((Storage.StoredName(fileName, hash), content)), None))
  {
  }

  /** The handler as written does the same there. */
  lemma UnlinkedAsWrittenWhenRead(entries: seq<string>, links: set<string>, stream: seq<string>, size: int,
                                  fileName: string, hash: string, n: nat, content: string, digest: string -> string,
                                  web: Handler.Web)
    requires Handler.ParseUpload(stream) == Ok(Handler.UploadRequest(size, fileName, hash)) && |stream| >= 3
    requires ReceiveChunks(PrefixDone, stream[3..]) == Ok((n, content))
    requires Storage.StoredName(fileName, hash) !in entries && digest(content) == hash
    requires fileName in links
    ensures Handler.ReceiveFileAsWritten(entries, links, stream, digest, web)
            == Ok(Handler.Received([Internal(OK)] + Confirms(n) + [Internal(OK)],
                                   Some((Storage.StoredName(fileName, hash), content)), None))
  {
  }

  /** An upload read in full whose bytes do not hash to the announced hash. */
  lemma MismatchWhenRead(entries: seq<string>, links: set<string>, stream: seq<string>, size: int, fileName: string,
                         hash: string, n: nat, content: string, digest: string -> string, web: Handler.Web)
    requires Handler.ParseUpload(stream) == Ok(Handler.UploadRequest(size, fileName, hash)) && |stream| >= 3
    requires ReceiveChunks(PrefixDone, stream[3..]) == Ok((n, content))
    requires Storage.StoredName(fileName, hash) !in entries && digest(content) != hash
    ensures Handler.ReceiveFile(entries, links, stream, digest, web)
            == Ok(Handler.Received([Internal(OK)] + Confirms(n) + [Internal(MISMATCH)], None, None))
  {
  }

  /** The same upload as written: answered "OK" after the mismatch, and
      linked unless the links directory already holds the name. */
  lemma LinkedWhenRead(entries: seq<string>, links: set<string>, stream: seq<string>, size: int, fileName: string,
                       hash: string, n: nat, content: string, digest: string -> string, web: Handler.Web)
    requires Handler.ParseUpload(stream) == Ok(Handler.UploadRequest(size, fileName, hash)) && |stream| >= 3
    requires ReceiveChunks(PrefixDone, stream[3..]) == Ok((n, content))
    requires Storage.StoredName(fileName, hash) !in entries && digest(content) != hash
    ensures var r := Handler.ReceiveFileAsWritten(entries, links, stream, digest, web);
            r.Ok? && r.value.stored == None && (r.value.link == Some(fileName) <==> fileName !in links)
            && |r.value.replies| > n + 2 && r.value.replies[n + 2] == Internal(OK)
  {
  }

  // ------------------------------------------------ download

  /** The end of a download is the message the client's loop waits for. */
  lemma DoneIsEndMessage()
    ensures Internal(DONE) == DONE_MESSAGE
  {
  }

  /** The client reads the size and the name of a download, then every chunk
      up to the end message, provided no chunk is that exact text. */
  lemma DownloadStreamRead(size: nat, name: string, pieces: seq<string>, tail: seq<string>)
    requires size <= I64_MAX
    requires forall i :: 0 <= i < |pieces| ==> pieces[i] != DONE_MESSAGE
    ensures Client.DownloadFile([Internal(NatToText(size)), Internal(name)] + (pieces + [Internal(DONE)] + tail))
            == Ok(Client.Downloaded(name, size, Concat(pieces), |pieces|))
  {
    var stream := [Internal(NatToText(size)), Internal(name)] + (pieces + [Internal(DONE)] + tail);
    ReadInternal(stream, 0, NatToText(size));
    ReadInternal(stream, 1, name);
    ParseI64RoundTrip(size);
    DoneIsEndMessage();
    assert stream[2..] == pieces + [DONE_MESSAGE] + tail;
    TransferRoundTrip(ExactDone, pieces, tail);
  }

  // ------------------------------------------------ listing

  /** What a description must hold to come back from its text: fields the
      source's types can carry and no '|' in the name or the hash. */
  predicate Listable(f: FileInfo.Info) {
    f.Valid() && '|' !in f.name && '|' !in f.hash
  }

  /** One listed entry as the server sends it is the client's entry back,
      and never the end message. */
  lemma EntryRoundTrip(f: FileInfo.Info)
    requires Listable(f)
    ensures Client.Entry(Data(FileInfo.Encode(f))) == Ok(f)
    ensures Data(FileInfo.Encode(f)) != DONE_MESSAGE
  {
    var m := Data(FileInfo.Encode(f));
    CutLabel(Connection.DATA, FileInfo.Encode(f));
    FileInfo.FileInfoRoundTrip(f);
    assert m[0] != DONE_MESSAGE[0];
  }

  /** The listing after its first entry is the listing of the other
      descriptions. */
  lemma EncodedTail(infos: seq<FileInfo.Info>, last: string)
    requires 0 < |infos|
    ensures (Handler.Encoded(infos) + [last])[1..] == Handler.Encoded(infos[1..]) + [last]
  {
    var a := (Handler.Encoded(infos) + [last])[1..];
    var b := Handler.Encoded(infos[1..]) + [last];
    assert |a| == |b|;
    forall k | 0 <= k < |a| ensures a[k] == b[k] {
      if k < |infos| - 1 {
        assert a[k] == Handler.Encoded(infos)[k + 1];
      }
    }
  }

  /** One step of the client's loop over an entry it can decode. */
  lemma CollectStep(listing: seq<string>, f: FileInfo.Info)
    requires 0 < |listing| && listing[0] != DONE_MESSAGE && Client.Entry(listing[0]) == Ok(f)
    ensures Client.Collect(listing, Client.Entry)
            == (var rest :- Client.Collect(listing[1..], Client.Entry); Ok([f] + rest))
  {
  }

  /** The client collects exactly the descriptions the server listed. */
  lemma {:induction false} ListingRead(infos: seq<FileInfo.Info>)
    requires forall i :: 0 <= i < |infos| ==> Listable(infos[i])
    ensures Client.Collect(Handler.Encoded(infos) + [Internal(DONE)], Client.Entry) == Ok(infos)
  {
    var listing := Handler.Encoded(infos) + [Internal(DONE)];
    DoneIsEndMessage();
    if |infos| == 0 {
      assert listing == [DONE_MESSAGE];
    } else {
      assert [infos[0]] + infos[1..] == infos;
      assert listing[0] == Data(FileInfo.Encode(infos[0]));
      EncodedTail(infos, Internal(DONE));
      EntryRoundTrip(infos[0]);
      CollectStep(listing, infos[0]);
      ListingRead(infos[1..]);
    }
  }

  // ------------------------------------------------ stored files

  /** A file just stored is the last entry carrying its hash. */
  lemma StoredIsLast(entries: seq<string>, fileName: string, hash: string)
    requires fileName != "" && '.' !in hash
    ensures Storage.LookupLast(entries + [Storage.StoredName(fileName, hash)], hash) == Some(|entries|)
  {
    Storage.StoredNameParts(fileName, hash);
  }

  /** The client reads a download's replies after the server's "OK": the
      size, the name, the chunks and the end message. */
  lemma DownloadRepliesRead(r: seq<string>, size: nat, name: string)
    requires |r| >= 5 && r[1] == Internal(NatToText(size)) && r[2] == Internal(name)
    requires r[|r| - 1] == Internal(DONE) && size <= I64_MAX
    requires forall k :: 3 <= k < |r| - 1 ==> r[k] != DONE_MESSAGE
    ensures Client.DownloadFile(r[1..]) == Ok(Client.Downloaded(name, size, Concat(r[3..|r| - 1]), |r| - 4))
  {
    assert r[1..] == [r[1], r[2]] + (r[3..|r| - 1] + [Internal(DONE)] + []);
    DownloadStreamRead(size, name, r[3..|r| - 1], []);
  }

  /** A sequence between two messages, seen after the first. */
  lemma AfterFirst<T>(first: T, middle: seq<T>, last: T)
    ensures ([first] + middle + [last])[1..] == middle + [last]
  {
  }

  /** The same after the first of two opening messages. */
  lemma AfterFirstOfTwo<T>(first: T, second: T, middle: seq<T>, last: T)
    ensures ([first, second] + middle + [last])[1..] == [second] + middle + [last]
  {
  }

  /** The server's _auth accepts the client's credentials exactly when both
      are the configured ones, whatever follows them. */
  lemma CredentialsChecked(user: string, pass: string, rest: seq<string>, authUser: string, authPass: string)
    ensures var stream := Client.Credentials(user, pass) + rest;
            && ServerRead(stream, 0) == Ok("user:" + user) && ServerRead(stream, 1) == Ok("pass:" + pass)
            && Sync.Auth("user:" + user, "pass:" + pass, authUser, authPass) == Ok(user == authUser && pass == authPass)
  {
    var stream := Client.Credentials(user, pass) + rest;
    ReadInternal(stream, 0, "user:" + user);
    ReadInternal(stream, 1, "pass:" + pass);
    assert ("user:" + user)[..5] == Sync.USER_TAG && ("pass:" + pass)[..5] == Sync.PASS_TAG;
    assert "user:" + user == Sync.USER_TAG + authUser <==> user == authUser by {
      if "user:" + user == Sync.USER_TAG + authUser { assert ("user:" + user)[5..] == user; }
    }
    assert "pass:" + pass == Sync.PASS_TAG + authPass <==> pass == authPass by {
      if "pass:" + pass == Sync.PASS_TAG + authPass { assert ("pass:" + pass)[5..] == pass; }
    }
  }

  /** A listing sent with the client's credentials: the second reply is
      "OK" exactly for the configured credentials, and the listing fails
      only when an entry cannot be described. */
  lemma ListingAuthorised(entries: seq<string>, user: string, pass: string, rest: seq<string>,
                          stat: string -> Handler.Stat, authUser: string, authPass: string)
    ensures var r := Handler.ListFiles(entries, Client.Credentials(user, pass) + rest, stat, authUser, authPass);
            && (r.Err? <==> user == authUser && pass == authPass && Handler.Describe(entries, Handler.DescribeOne(stat)).Err?)
            && (r.Ok? ==> (r.value[1] == Internal(OK) <==> user == authUser && pass == authPass))
  {
    CredentialsChecked(user, pass, rest, authUser, authPass);
  }

  /** After "OK" the client tabulates exactly the listed descriptions. */
  lemma TableRead(infos: seq<FileInfo.Info>, sizeText: nat -> string, dateText: int -> string)
    requires forall i :: 0 <= i < |infos| ==> Listable(infos[i])
    ensures Client.ListFiles([Internal(OK)] + Handler.Encoded(infos) + [Internal(DONE)], sizeText, dateText)
            == Ok(Client.Table(infos, Client.Widths(infos, sizeText, dateText), Client.HashWidth(infos)))
  {
    var replies := [Internal(OK)] + Handler.Encoded(infos) + [Internal(DONE)];
    AfterFirst(Internal(OK), Handler.Encoded(infos), Internal(DONE));
    ReadInternal(replies, 0, OK);
    ListingRead(infos);
  }
}
