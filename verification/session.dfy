/** Both ends of a connection together: what the handlers answer is what
    the client reads back. Each lemma follows one request from the client's
    messages to its report. */
module Session {
  import opened Wrappers
  import opened Text
  import opened Decimal
  import opened Transfer
  import opened Protocol
  import Storage
  import Connection

  import Handler
  import Client
  import opened Requests

  /** A new file whose bytes hash to what the client announced is stored
      under its name and hash and linked, when no link of that name exists
      yet; the server confirms every chunk and closes with "OK", the hash
      and the link settings. */
  lemma UploadStored(entries: seq<string>, links: set<string>, size: nat, fileName: string, hash: string,
                     pieces: seq<string>, tail: seq<string>, digest: string -> string, web: Handler.Web)
    requires size <= I64_MAX
    requires forall i :: 0 <= i < |pieces| ==> !IsDone(PrefixDone, pieces[i])
    requires Storage.StoredName(fileName, hash) !in entries && fileName !in links
    requires digest(Concat(pieces)) == hash
    ensures Handler.ReceiveFile(entries, links, UploadFields(size, fileName, hash) + (pieces + [DONE_MESSAGE] + tail), digest, web)
            == Ok(Handler.Received([Internal(OK)] + Confirms(|pieces|) + Handler.Closing(web, fileName, hash),
                                   Some((Storage.StoredName(fileName, hash), Concat(pieces))), Some(fileName)))
  {
    UploadStreamRead(size, fileName, hash, pieces, tail);
    StoredWhenRead(entries, links, UploadFields(size, fileName, hash) + (pieces + [DONE_MESSAGE] + tail), size,
                   fileName, hash, |pieces|, Concat(pieces), digest, web);
  }

  /** Under a name the links directory already holds, the file is stored
      but create_symlink throws after "OK": no link is made, and the client
      waits for a hash that never comes. */
  lemma UploadNameTaken(entries: seq<string>, links: set<string>, size: nat, fileName: string, hash: string,
                        pieces: seq<string>, tail: seq<string>, digest: string -> string, web: Handler.Web)
    requires size <= I64_MAX
    requires forall i :: 0 <= i < |pieces| ==> !IsDone(PrefixDone, pieces[i])
    requires Storage.StoredName(fileName, hash) !in entries && fileName in links
    requires digest(Concat(pieces)) == hash
    ensures Handler.ReceiveFile(entries, links, UploadFields(size, fileName, hash) + (pieces + [DONE_MESSAGE] + tail), digest, web)
            == Ok(Handler.Received([Internal(OK)] + Confirms(|pieces|) + [Internal(OK)],
                                   Some((Storage.StoredName(fileName, hash), Concat(pieces))), None))
  {
    var stream := UploadFields(size, fileName, hash) + (pieces + [DONE_MESSAGE] + tail);
    UploadStreamRead(size, fileName, hash, pieces, tail);
    assert |stream| >= 3;
    UnlinkedWhenRead(entries, links, stream, size, fileName, hash, |pieces|, Concat(pieces), digest, web);
  }

  /** A bare "OK" after the confirmations leaves the client without a hash. */
  lemma OkAloneUnanswered(n: nat)
    ensures Client.FinishUpload(([Internal(OK)] + Confirms(n) + [Internal(OK)])[1 + n..]) == Err(NO_REPLY)
  {
    var replies := [Internal(OK)] + Confirms(n) + [Internal(OK)];
    assert replies[1 + n..] == [Internal(OK)];
    ReadInternal([Internal(OK)], 0, OK);
  }

  /** The client reads the closing replies as the hash and the link, once
      it skips the server's "OK". */
  lemma UploadReported(web: Handler.Web, fileName: string, computed: string)
    ensures Client.FinishUpload(Handler.Closing(web, fileName, computed))
            == Ok(Client.Uploaded(computed, if web.wantHttp then Some(Handler.WebLink(web, fileName)) else None))
  {
    var closing := Handler.Closing(web, fileName, computed);
    ReadInternal(closing, 0, OK);
    ReadInternal(closing[1..], 0, computed);
    ReadInternal(closing[1..], 1, BoolText(web.wantHttp));
    if web.wantHttp {
      ReadInternal(closing[1..], 2, Handler.WebLink(web, fileName));
    }
  }

  /** With the closing replies as the server sends them, the client as
      written prints "OK" as the hash and reads the hash with std::stoi: a
      hash starting with digits claims a link, which is the "0" that said
      there is none. */
  lemma ClientMisreadsClosing(fileName: string)
    ensures Client.FinishUploadAsWritten(Handler.Closing(Handler.Web(false, "http", "host"), fileName, "7f"))
            == Ok(Client.Uploaded(OK, Some("0")))
  {
    var closing := Handler.Closing(Handler.Web(false, "http", "host"), fileName, "7f");
    ReadInternal(closing, 0, OK);
    ReadInternal(closing, 1, "7f");
    ReadInternal(closing, 2, "0");
    assert DigitRun("7f") == 1 && DigitsValue("7") == 7;
  }

  /** A file whose bytes do not hash to the announced hash is removed and
      not linked, and the server says why and nothing more. */
  lemma MismatchRefused(entries: seq<string>, links: set<string>, size: nat, fileName: string, hash: string,
                        pieces: seq<string>, tail: seq<string>, digest: string -> string, web: Handler.Web)
    requires size <= I64_MAX
    requires forall i :: 0 <= i < |pieces| ==> !IsDone(PrefixDone, pieces[i])
    requires Storage.StoredName(fileName, hash) !in entries
    requires digest(Concat(pieces)) != hash
    ensures Handler.ReceiveFile(entries, links, UploadFields(size, fileName, hash) + (pieces + [DONE_MESSAGE] + tail), digest, web)
            == Ok(Handler.Received([Internal(OK)] + Confirms(|pieces|) + [Internal(MISMATCH)], None, None))
  {
    var stream := UploadFields(size, fileName, hash) + (pieces + [DONE_MESSAGE] + tail);
    UploadStreamRead(size, fileName, hash, pieces, tail);
    assert |stream| >= 3;
    MismatchWhenRead(entries, links, stream, size, fileName, hash, |pieces|, Concat(pieces), digest, web);
  }

  /** The client reports the server's reason after a mismatch. */
  lemma MismatchReported(rest: seq<string>)
    ensures Client.FinishUpload([Internal(MISMATCH)] + rest) == Err(MISMATCH)
  {
    ReadInternal([Internal(MISMATCH)] + rest, 0, MISMATCH);
  }

  /** As written, the same upload leaves a link to the removed file, and
      the server still says "OK" after the mismatch. */
  lemma MismatchLinksRemovedFile(entries: seq<string>, links: set<string>, size: nat, fileName: string, hash: string,
                                 pieces: seq<string>, tail: seq<string>, digest: string -> string, web: Handler.Web)
    requires size <= I64_MAX
    requires forall i :: 0 <= i < |pieces| ==> !IsDone(PrefixDone, pieces[i])
    requires Storage.StoredName(fileName, hash) !in entries
    requires digest(Concat(pieces)) != hash && fileName !in links
    ensures var r := Handler.ReceiveFileAsWritten(entries, links, UploadFields(size, fileName, hash) + (pieces + [DONE_MESSAGE] + tail), digest, web);
            r.Ok? && r.value.stored == None && r.value.link == Some(fileName)
            && |r.value.replies| > |pieces| + 2 && r.value.replies[|pieces| + 2] == Internal(OK)
  {
    UploadStreamRead(size, fileName, hash, pieces, tail);
    LinkedWhenRead(entries, links, UploadFields(size, fileName, hash) + (pieces + [DONE_MESSAGE] + tail), size,
                   fileName, hash, |pieces|, Concat(pieces), digest, web);
  }

  /** As written, the upload that mismatched leaves its link behind, so the
      same file sent again with the right bytes is stored but create_symlink
      throws: the client never gets its hash. */
  lemma RetryAfterMismatchUnanswered(entries: seq<string>, links: set<string>, size: nat, fileName: string,
                                     hash: string, bad: seq<string>, good: seq<string>, tail: seq<string>,
                                     digest: string -> string, web: Handler.Web)
    requires size <= I64_MAX
    requires forall i :: 0 <= i < |bad| ==> !IsDone(PrefixDone, bad[i])
    requires forall i :: 0 <= i < |good| ==> !IsDone(PrefixDone, good[i])
    requires Storage.StoredName(fileName, hash) !in entries && fileName !in links
    requires digest(Concat(bad)) != hash && digest(Concat(good)) == hash
    ensures var first := Handler.ReceiveFileAsWritten(entries, links, UploadFields(size, fileName, hash) + (bad + [DONE_MESSAGE] + tail), digest, web);
            var again := Handler.ReceiveFileAsWritten(entries, links + {fileName}, UploadFields(size, fileName, hash) + (good + [DONE_MESSAGE] + tail), digest, web);
            first.Ok? && first.value.stored == None && first.value.link == Some(fileName)
            && again.Ok? && again.value.stored.Some? && again.value.link == None
            && |again.value.replies| > |good| + 1
            && Client.FinishUpload(again.value.replies[1 + |good|..]) == Err(NO_REPLY)
  {
    MismatchLinksRemovedFile(entries, links, size, fileName, hash, bad, tail, digest, web);
    NameTakenAsWritten(entries, links + {fileName}, size, fileName, hash, good, tail, digest, web);
    OkAloneUnanswered(|good|);
  }

  /** The handler as written stores a file under a name already linked in
      the same way, and stops after "OK". */
  lemma NameTakenAsWritten(entries: seq<string>, links: set<string>, size: nat, fileName: string, hash: string,
                           pieces: seq<string>, tail: seq<string>, digest: string -> string, web: Handler.Web)
    requires size <= I64_MAX
    requires forall i :: 0 <= i < |pieces| ==> !IsDone(PrefixDone, pieces[i])
    requires Storage.StoredName(fileName, hash) !in entries && fileName in links
    requires digest(Concat(pieces)) == hash
    ensures Handler.ReceiveFileAsWritten(entries, links, UploadFields(size, fileName, hash) + (pieces + [DONE_MESSAGE] + tail), digest, web)
            == Ok(Handler.Received([Internal(OK)] + Confirms(|pieces|) + [Internal(OK)],
                                   Some((Storage.StoredName(fileName, hash), Concat(pieces))), None))
  {
    var stream := UploadFields(size, fileName, hash) + (pieces + [DONE_MESSAGE] + tail);
    UploadStreamRead(size, fileName, hash, pieces, tail);
    assert |stream| >= 3;
    UnlinkedAsWrittenWhenRead(entries, links, stream, size, fileName, hash, |pieces|, Concat(pieces), digest, web);
  }

  /** With the mismatch refused, no link is left behind, so the same file
      sent again with the right bytes is stored, linked and reported. */
  lemma RetryAfterMismatchAnswered(entries: seq<string>, links: set<string>, size: nat, fileName: string,
                                   hash: string, bad: seq<string>, good: seq<string>, tail: seq<string>,
                                   digest: string -> string, web: Handler.Web)
    requires size <= I64_MAX
    requires forall i :: 0 <= i < |bad| ==> !IsDone(PrefixDone, bad[i])
    requires forall i :: 0 <= i < |good| ==> !IsDone(PrefixDone, good[i])
    requires Storage.StoredName(fileName, hash) !in entries && fileName !in links
    requires digest(Concat(bad)) != hash && digest(Concat(good)) == hash
    ensures var first := Handler.ReceiveFile(entries, links, UploadFields(size, fileName, hash) + (bad + [DONE_MESSAGE] + tail), digest, web);
            var again := Handler.ReceiveFile(entries, links, UploadFields(size, fileName, hash) + (good + [DONE_MESSAGE] + tail), digest, web);
            first.Ok? && first.value.stored == None && first.value.link == None
            && again.Ok? && again.value.link == Some(fileName)
            && |again.value.replies| > |good| + 1
            && Client.FinishUpload(again.value.replies[1 + |good|..])
               == Ok(Client.Uploaded(hash, if web.wantHttp then Some(Handler.WebLink(web, fileName)) else None))
  {
    MismatchRefused(entries, links, size, fileName, hash, bad, tail, digest, web);
    UploadStored(entries, links, size, fileName, hash, good, tail, digest, web);
    var replies := [Internal(OK)] + Confirms(|good|) + Handler.Closing(web, fileName, hash);
    assert replies[1 + |good|..] == Handler.Closing(web, fileName, hash);
    UploadReported(web, fileName, hash);
  }

  /** The client saves a download under the name the server sends, with the
      size it announces and exactly the stored bytes, one chunk per reply
      between the name and "DONE" (provided no chunk is the end message
      itself). */
  lemma DownloadRoundTrip(entries: seq<string>, stream: seq<string>, data: string,
                          freeRam: nat, rounds: seq<Round>)
    requires |data| <= I64_MAX
    requires var r := Handler.SendFile(entries, stream, true, data, freeRam, rounds);
             r.Ok? && r.value != [Internal(NO)]
             && forall k :: 3 <= k < |r.value| - 1 ==> r.value[k] != DONE_MESSAGE
    ensures var r := Handler.SendFile(entries, stream, true, data, freeRam, rounds).value;
            var i := Storage.LookupLast(entries, Handler.RequestedHash(stream).value).value;
            r[0] == Internal(OK)
            && Client.DownloadFile(r[1..])
               == Ok(Client.Downloaded(Storage.RecoverName(Storage.STORAGE_PREFIX + entries[i]), |data|, data, |r| - 4))
  {
    var r := Handler.SendFile(entries, stream, true, data, freeRam, rounds).value;
    var i := Storage.LookupLast(entries, Handler.RequestedHash(stream).value).value;
    var name := Storage.RecoverName(Storage.STORAGE_PREFIX + entries[i]);
    assert r[..3][1] == r[1] && r[..3][2] == r[2];
    DownloadRepliesRead(r, |data|, name);
  }

  /** As written, the client resizes its buffer after the name, and saves
      the download only when that buffer holds at least one byte and no
      fewer than its last read before the resize clears; a file of fewer
      than 16 bytes never gets such a buffer. */
  lemma DownloadRoundTripAsWritten(entries: seq<string>, stream: seq<string>, data: string,
                                   freeRam: nat, rounds: seq<Round>, clientRam: nat, previous: nat)
    requires |data| <= I64_MAX
    requires var r := Handler.SendFile(entries, stream, true, data, freeRam, rounds);
             r.Ok? && r.value != [Internal(NO)]
             && forall k :: 3 <= k < |r.value| - 1 ==> r.value[k] != DONE_MESSAGE
    ensures var r := Handler.SendFile(entries, stream, true, data, freeRam, rounds).value;
            var i := Storage.LookupLast(entries, Handler.RequestedHash(stream).value).value;
            var b := Client.DownloadBuffer(clientRam, |data|);
            Client.DownloadFileAsWritten(r[1..], clientRam, previous)
            == if 0 < b && previous <= b
               then Ok(Client.Downloaded(Storage.RecoverName(Storage.STORAGE_PREFIX + entries[i]), |data|, data, |r| - 4))
               else if previous > b then Err(Connection.OVERRUN)
               else Err(Connection.SERVER_DISCONNECTED)
    ensures |data| < 16 ==>
              Client.DownloadFileAsWritten(Handler.SendFile(entries, stream, true, data, freeRam, rounds).value[1..], clientRam, previous).Err?
  {
    DownloadRoundTrip(entries, stream, data, freeRam, rounds);
  }

  /** A file just uploaded comes back under the name it was uploaded with. */
  lemma DownloadAfterUpload(entries: seq<string>, fileName: string, hash: string, stream: seq<string>,
                            data: string, freeRam: nat, rounds: seq<Round>)
    requires fileName != "" && '<' !in fileName && '/' !in fileName
    requires '.' !in hash && '/' !in hash
    requires Handler.RequestedHash(stream) == Ok(hash)
    requires |data| <= I64_MAX
    requires var r := Handler.SendFile(entries + [Storage.StoredName(fileName, hash)], stream, true, data, freeRam, rounds);
             r.Ok? && r.value != [Internal(NO)]
             && forall k :: 3 <= k < |r.value| - 1 ==> r.value[k] != DONE_MESSAGE
    ensures var r := Handler.SendFile(entries + [Storage.StoredName(fileName, hash)], stream, true, data, freeRam, rounds).value;
            Client.DownloadFile(r[1..]) == Ok(Client.Downloaded(fileName, |data|, data, |r| - 4))
  {
    StoredIsLast(entries, fileName, hash);
    Storage.NameRecovery(fileName, hash);
    DownloadRoundTrip(entries + [Storage.StoredName(fileName, hash)], stream, data, freeRam, rounds);
  }

  /** Removing a file just uploaded takes its entry out, leaves the others
      as they were and unlinks the name it was uploaded with. */
  lemma RemoveAfterUpload(entries: seq<string>, fileName: string, hash: string, stream: seq<string>)
    requires fileName != "" && '<' !in fileName && '/' !in fileName
    requires '.' !in hash && '/' !in hash
    requires Handler.RequestedHash(stream) == Ok(hash)
    ensures Handler.RemoveFile(entries + [Storage.StoredName(fileName, hash)], stream)
            == Ok(Handler.Removed(Internal(OK), entries, Some(fileName)))
  {
    var all := entries + [Storage.StoredName(fileName, hash)];
    assert all[..|entries|] + all[|entries| + 1..] == entries;
    StoredIsLast(entries, fileName, hash);
    Storage.NameRecovery(fileName, hash);
  }

  /** With the configured credentials the client reads back every
      description the server listed, sized as the table prints them. Names
      and hashes must not hold the '|' that separates the fields. */
  lemma ListingRoundTrip(entries: seq<string>, user: string, pass: string, rest: seq<string>,
                         stat: string -> Handler.Stat, sizeText: nat -> string, dateText: int -> string)
    requires Handler.Describe(entries, Handler.DescribeOne(stat)).Ok?
    requires var infos := Handler.Describe(entries, Handler.DescribeOne(stat)).value;
             forall i :: 0 <= i < |infos| ==> Listable(infos[i])
    ensures var r := Handler.ListFiles(entries, Client.Credentials(user, pass) + rest, stat, user, pass);
            var infos := Handler.Describe(entries, Handler.DescribeOne(stat)).value;
            && r.Ok?
            && Client.ListFiles(r.value[1..], sizeText, dateText)
               == Ok(Client.Table(infos, Client.Widths(infos, sizeText, dateText), Client.HashWidth(infos)))
  {
    ListingAuthorised(entries, user, pass, rest, stat, user, pass);
    var infos := Handler.Describe(entries, Handler.DescribeOne(stat)).value;
    AfterFirstOfTwo(Internal(OK), Internal(OK), Handler.Encoded(infos), Internal(DONE));
    TableRead(infos, sizeText, dateText);
  }

  /** With any other credentials the server answers "NOPE" and the client
      reports the refusal. */
  lemma ListingRefused(entries: seq<string>, user: string, pass: string, rest: seq<string>,
                       stat: string -> Handler.Stat, authUser: string, authPass: string,
                       sizeText: nat -> string, dateText: int -> string)
    requires user != authUser || pass != authPass
    ensures var r := Handler.ListFiles(entries, Client.Credentials(user, pass) + rest, stat, authUser, authPass);
            r == Ok([Internal(OK), Internal(NOPE)])
            && Client.ListFiles(r.value[1..], sizeText, dateText) == Err(Client.AUTH_FAILED)
  {
    ListingAuthorised(entries, user, pass, rest, stat, authUser, authPass);
    ReadInternal([Internal(NOPE)], 0, NOPE);
  }

  /** An empty store lists no file: the client as written sizes the hash
      column by a first entry there is none of, the header's width serves. */
  lemma EmptyListing(user: string, pass: string, rest: seq<string>, stat: string -> Handler.Stat,
                     sizeText: nat -> string, dateText: int -> string)
    ensures var r := Handler.ListFiles([], Client.Credentials(user, pass) + rest, stat, user, pass);
            var t := Client.ListFiles(r.value[1..], sizeText, dateText);
            r.Ok? && t.Ok? && t.value.files == [] && Client.HashWidthAsWritten(t.value.files) == None
            && t.value.hashWidth == |"Hash"|
  {
    ListingRoundTrip([], user, pass, rest, stat, sizeText, dateText);
  }

  /** The older server as written keeps the partial file of a failed upload
      under its stored name, so the same file sent again is refused; with
      the partial file removed the second upload is received. */
  lemma LegacyLeftoverBlocksRetry(entries: seq<string>, links: set<string>, stream: seq<string>, retry: seq<string>,
                                  digest: string -> string)
    requires Handler.ParseUpload(stream).Ok? && Handler.ParseUpload(retry).Ok?
    requires var req := Handler.ParseUpload(stream).value; var again := Handler.ParseUpload(retry).value;
             again.name == req.name && again.hash == req.hash && Storage.StoredName(req.name, req.hash) !in entries
    requires ReceiveChunks(PrefixDone, stream[3..]).Err?
    ensures var first := Handler.LegacyReceiveFileAsWritten(entries, links, stream, digest).value;
            first.stored.Some?
            && Handler.LegacyReceiveFileAsWritten(entries + [first.stored.value.0], links, retry, digest).value.replies
               == [Internal(NO)]
    ensures var first := Handler.LegacyReceiveFile(entries, links, stream, digest).value;
            first.stored == None
            && Handler.LegacyReceiveFile(entries, links, retry, digest).value.replies[0] == Internal(OK)
  {
  }
}
