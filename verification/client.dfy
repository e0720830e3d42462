/** The command-line client (src/client/main.cpp, src/client/CommandType.cpp):
    the command words, the argument checks of start(), the requests it
    sends, and how it reads the server's replies to an upload, a download
    and a listing. */
module Client {
  import opened Wrappers
  import opened Text
  import opened Decimal
  import opened Transfer
  import opened Protocol
  import FileInfo
  import Misc
  import Connection

  datatype Command = Upload | Download | Remove | List | Invalid

  /** toString: the name the server's dispatch expects after "command:". */
  function Name(c: Command): (r: string)
  {
    match c
    case Upload => "UPLOAD"
    case Download => "DOWNLOAD"
    case Remove => "REMOVE"
    case List => "LIST"
    case Invalid => "INVALID"
  }

  /** resolveCommand: the four command words; anything else is invalid. */
  function Resolve(word: string): (r: Command)
    ensures r == Upload <==> word == "up"
    ensures r == Download <==> word == "down"
    ensures r == List <==> word == "ls"
    ensures r == Remove <==> word == "rm"
  {
    if word == "up" then Upload
    else if word == "down" then Download
    else if word == "ls" then List
    else if word == "rm" then Remove
    else Invalid
  }

  // ------------------------------------------------ arguments

  /** The error that stands for too few arguments. The program prints its
      help text there (printHelp); the text here is only a marker. */
  const USAGE := "Usage: <up <file> | down <hash> | rm <hash> | ls <user> <pass>> <server>"
  const BAD_COMMAND := "Invalid command"
  const BAD_LIST_ARGUMENTS := "Invalid number of arguments for list command"

  /** A checked command line: the command, its operand (the file, the hash,
      or the user name of a listing) and the server address. */
  datatype Invocation = Invocation(command: Command, operand: string, server: string)

  /** start()'s checks on argv (program name first): at least three
      arguments, a known command, and exactly four for a listing, whose
      server comes after the user and the password. Extra arguments to the
      other commands are ignored. */
  function ParseArgs(argv: seq<string>): (r: Result<Invocation>)
    ensures r.Ok? <==> |argv| >= 4 && Resolve(argv[1]) != Invalid && (Resolve(argv[1]) == List ==> |argv| == 5)
    ensures r.Ok? ==> r.value.command == Resolve(argv[1]) && r.value.operand == argv[2]
    ensures r.Ok? ==> r.value.server == if r.value.command == List then argv[4] else argv[3]
    ensures |argv| >= 2 && Resolve(argv[1]) == Invalid && |argv| >= 4 ==> r == Err(BAD_COMMAND)
  {
    if |argv| < 4 then Err(USAGE)
    else
      var command := Resolve(argv[1]);
      if command == Invalid then Err(BAD_COMMAND)
      else if command == List && |argv| != 5 then Err(BAD_LIST_ARGUMENTS)
      else Ok(Invocation(command, argv[2], if command == List then argv[4] else argv[3]))
  }

  // ------------------------------------------------ requests

  /** What start() sends first: the command, then for an upload the size,
      the file name and the hash, for a download or a removal the hash given
      on the command line, and for a listing nothing more yet. */
  function Request(inv: Invocation, size: nat, fileName: string, hash: string): (r: seq<string>)
    ensures |r| == match inv.command case Upload => 4 case Download => 2 case Remove => 2 case _ => 1
    ensures r[0] == Internal("command:" + Name(inv.command))
  {
    var command := [Internal("command:" + Name(inv.command))];
    match inv.command
    case Upload =>
      command + [Internal("size:" + NatToText(size)), Internal("filename:" + fileName), Internal("hash:" + hash)]
    case Download => command + [Internal("hash:" + inv.operand)]
    case Remove => command + [Internal("hash:" + inv.operand)]
    case _ => command
  }

  /** The credentials listFiles sends: the server's receiveInternal reads
      back the user name and the password behind their labels. */
  function Credentials(user: string, pass: string): (r: seq<string>)
    ensures |r| == 2
    ensures ServerRead(r, 0) == Ok("user:" + user) && ServerRead(r, 1) == Ok("pass:" + pass)
  {
    var r := [Internal("user:" + user), Internal("pass:" + pass)];
    ReadInternal(r, 0, "user:" + user);
    ReadInternal(r, 1, "pass:" + pass);
    r
  }

  // ------------------------------------------------ upload

  /** sendFile's chunk loop: chunks of 1 MiB at first, adapted to how long
      each send took, each of which the server must confirm ("Server did not
      confirm the chunk" otherwise). The shrink rule keeps the one-byte floor
      of the corrected rule. */
  function UploadChunks(data: string, freeRam: nat, rounds: seq<Round>): (r: Result<seq<string>>)
    ensures r.Ok? ==> Concat(r.value) == data && 0 < |r.value| <= |rounds|
    ensures r.Ok? ==> forall i :: 0 <= i < |r.value| ==> rounds[i].reply == CONFIRM
    ensures r.Err? ==> r.error == CLIENT_NOT_CONFIRMED || r.error == NO_REPLY
  {
    assert data[0..] == data;
    SendChunks(data, 0, CLIENT_FIRST_CHUNK, freeRam, 1, rounds, CLIENT_NOT_CONFIRMED)
  }

  /** An upload every chunk of which is confirmed finishes, given one round
      more than the file has bytes. */
  lemma UploadCompletes(data: string, freeRam: nat, rounds: seq<Round>)
    requires |data| < |rounds|
    requires forall i :: 0 <= i < |rounds| ==> rounds[i].reply == CONFIRM
    ensures UploadChunks(data, freeRam, rounds).Ok?
  {
    ClampedSendCompletes(data, 0, CLIENT_FIRST_CHUNK, freeRam, rounds, CLIENT_NOT_CONFIRMED);
  }

  // ------------------------------------------------ end of an upload

  /** What the client reports after an upload: the hash and, when the
      server has an HTTP front end, the link. */
  datatype Uploaded = Uploaded(hash: string, link: Option<string>)

  /** sendFile's last steps as written: after "DONE" the first reply is
      taken as the hash and the second, read with std::stoi, as whether a
      link follows. */
  function FinishUploadAsWritten(replies: seq<string>): (r: Result<Uploaded>)
    ensures r.Ok? ==> ClientRead(replies, 0) == Ok(r.value.hash) && ClientRead(replies, 1).Ok?
    ensures r.Ok? ==> (r.value.link.Some? <==> ParseI32(ClientRead(replies, 1).value) != Some(0))
    ensures r.Ok? && r.value.link.Some? ==> ClientRead(replies, 2) == Ok(r.value.link.value)
  {
    var hash :- ClientRead(replies, 0);
    var flagText :- ClientRead(replies, 1);
    match ParseI32(flagText)
    case None => Err(NOT_AN_INT)
    case Some(flag) =>
      if flag == 0 then Ok(Uploaded(hash, None))
      else
        var link :- ClientRead(replies, 2);
        Ok(Uploaded(hash, Some(link)))
  }

  /** The same, reading the server's "OK" before the hash; any other first
      reply is the server's reason for refusing the upload. */
  function FinishUpload(replies: seq<string>): (r: Result<Uploaded>)
    ensures ClientRead(replies, 0).Ok? && ClientRead(replies, 0).value != OK ==> r == Err(ClientRead(replies, 0).value)
    ensures ClientRead(replies, 0) == Ok(OK) ==> r == FinishUploadAsWritten(replies[1..])
  {
    var first :- ClientRead(replies, 0);
    if first != OK then Err(first)
    else
      assert forall i :: 1 <= i < |replies| ==> replies[1..][i - 1] == replies[i];
      FinishUploadAsWritten(replies[1..])
  }

  // ------------------------------------------------ download

  /** What a download yields: the name to save under, the announced size,
      the bytes written and how many chunks were confirmed. */
  datatype Downloaded = Downloaded(name: string, size: int, content: string, chunks: nat)

  /** downloadFile: the size (std::stoll), the name, then every message up
      to exactly "INTERNAL::DONE" is written and confirmed. */
  function DownloadFile(stream: seq<string>): (r: Result<Downloaded>)
    ensures r.Ok? ==> |stream| >= 3 && ClientRead(stream, 1) == Ok(r.value.name) && ClientRead(stream, 0).Ok?
    ensures r.Ok? ==> ParseI64(ClientRead(stream, 0).value) == Some(r.value.size)
    ensures r.Ok? ==> ReceiveChunks(ExactDone, stream[2..]) == Ok((r.value.chunks, r.value.content))
  {
    var sizeText :- ClientRead(stream, 0);
    var size :- match ParseI64(sizeText)
      case None => Err(NOT_A_NUMBER)
      case Some(v) => Ok(v);
    var name :- ClientRead(stream, 1);
    var (chunks, content) :- ReceiveChunks(ExactDone, stream[2..]);
    Ok(Downloaded(name, size, content, chunks))
  }

  /** The receive buffer downloadFile resizes to: a quarter of the free
      memory or a sixteenth of the announced size, whichever is smaller. The
      size is divided as a signed 64-bit number, truncating toward zero, and
      cast to unsigned long, so a negative quotient wraps around. */
  function DownloadBuffer(freeRam: nat, size: int): (n: nat)
    ensures n <= freeRam / 4
    ensures 0 <= size <= I64_MAX ==> n <= size / 16 && (n == freeRam / 4 || n == size / 16)
    ensures -16 < size < 16 ==> n == 0
    ensures I64_MIN <= size <= -16 && freeRam < Connection.SIZE_T_LIMIT ==> n == freeRam / 4
  {
    var quotient := if size < 0 then -((-size) / 16) else size / 16;
    Min(freeRam / 4, quotient % Connection.SIZE_T_LIMIT)
  }

  /** A buffer that never takes the resize below one byte, nor below what
      clearBuffer clears before the next read. */
  function ClampedBuffer(freeRam: nat, size: int, previous: nat): (n: nat)
    ensures n >= 1 && n >= previous && n >= DownloadBuffer(freeRam, size)
    ensures DownloadBuffer(freeRam, size) >= 1 && DownloadBuffer(freeRam, size) >= previous
            ==> n == DownloadBuffer(freeRam, size)
  {
    Max(Max(DownloadBuffer(freeRam, size), previous), 1)
  }

  /** downloadFile from the resize on. The first recv after it (there is
      always one: the server sends "DONE" only after a confirmation) clears
      as many bytes as the recv before the resize returned, previous, which
      runs past the end of a smaller buffer; a buffer of no bytes makes that
      recv return 0, reported as the server disconnecting. With neither, the
      download reads on as DownloadFile does. */
  function DownloadResized(stream: seq<string>, previous: nat, buffer: int -> nat): (r: Result<Downloaded>)
    ensures r.Ok? ==> r == DownloadFile(stream)
    ensures DownloadFile(stream).Ok? ==> var b := buffer(DownloadFile(stream).value.size);
              && (r.Ok? <==> previous <= b && b > 0)
              && (previous > b ==> r == Err(Connection.OVERRUN))
              && (previous <= b == 0 ==> r == Err(Connection.SERVER_DISCONNECTED))
  {
    var sizeText :- ClientRead(stream, 0);
    var size :- match ParseI64(sizeText)
      case None => Err(NOT_A_NUMBER)
      case Some(v) => Ok(v);
    var name :- ClientRead(stream, 1);
    var b := buffer(size);
    if previous > b then Err(Connection.OVERRUN)
    else if b == 0 then Err(Connection.SERVER_DISCONNECTED)
    else DownloadFile(stream)
  }

  /** downloadFile as written, with the client's free memory and the byte
      count of its last recv before the resize: a file under 16 bytes gets
      a buffer of no bytes, and the clear before the next read overruns it. */
  function DownloadFileAsWritten(stream: seq<string>, freeRam: nat, previous: nat): (r: Result<Downloaded>)
    ensures r.Ok? ==> r == DownloadFile(stream)
    ensures DownloadFile(stream).Ok? && 0 <= DownloadFile(stream).value.size < 16 ==>
              r == Err(if previous > 0 then Connection.OVERRUN else Connection.SERVER_DISCONNECTED)
  {
    DownloadResized(stream, previous, size => DownloadBuffer(freeRam, size))
  }

  /** downloadFile with the clamped buffer: the same download whatever the
      free memory and the size of the last read. */
  function DownloadFileClamped(stream: seq<string>, freeRam: nat, previous: nat): (r: Result<Downloaded>)
    ensures r == DownloadFile(stream)
  {
    DownloadResized(stream, previous, size => ClampedBuffer(freeRam, size, previous))
  }

  // ------------------------------------------------ listing

  const AUTH_FAILED := "Authentication failed"

  /** listFiles' receive loop: every message up to exactly "INTERNAL::DONE"
      is read as an entry (by Entry). */
  function Collect(listing: seq<string>, entry: string -> Result<FileInfo.Info>): (r: Result<seq<FileInfo.Info>>)
    ensures r.Ok? ==> |r.value| < |listing|
  {
    if |listing| == 0 then Err(NO_REPLY)
    else if listing[0] == DONE_MESSAGE then Ok([])
    else
      var first :- entry(listing[0]);
      var rest :- Collect(listing[1..], entry);
      Ok([first] + rest)
  }

  /** One listed entry: the message without its tag, decoded. */
  function Entry(message: string): (r: Result<FileInfo.Info>)
  {
    var text :- Cut(message, |Connection.DATA|);
    FileInfo.Decode(text)
  }

  /** The loop stops at the first "INTERNAL::DONE" and decodes every message
      before it. */
  lemma {:induction false} CollectEach(listing: seq<string>, entry: string -> Result<FileInfo.Info>)
    requires Collect(listing, entry).Ok?
    ensures listing[|Collect(listing, entry).value|] == DONE_MESSAGE
    ensures forall i :: 0 <= i < |Collect(listing, entry).value| ==>
              listing[i] != DONE_MESSAGE && entry(listing[i]) == Ok(Collect(listing, entry).value[i])
  {
    if listing[0] != DONE_MESSAGE {
      CollectEach(listing[1..], entry);
      assert forall i :: 1 <= i < |listing| ==> listing[1..][i - 1] == listing[i];
    }
  }

  /** The widths of the name, size and date columns: at least the headers'
      (4, 4 and 11) and at least every entry's. Sizes and dates are printed
      by functions given as parameters. */
  function Widths(files: seq<FileInfo.Info>, sizeText: nat -> string, dateText: int -> string): (w: (nat, nat, nat))
    ensures w.0 >= 4 && w.1 >= 4 && w.2 >= 11
    ensures forall i :: 0 <= i < |files| ==>
              |files[i].name| <= w.0 && |sizeText(files[i].size)| <= w.1 && |dateText(files[i].seconds)| <= w.2
    ensures w.0 == 4 || exists i :: 0 <= i < |files| && |files[i].name| == w.0
  {
    if |files| == 0 then (4, 4, 11)
    else
      var last := files[|files| - 1];
      var w := Widths(files[..|files| - 1], sizeText, dateText);
      assert forall i :: 0 <= i < |files| - 1 ==> files[..|files| - 1][i] == files[i];
      (Max(w.0, |last.name|), Max(w.1, |sizeText(last.size)|), Max(w.2, |dateText(last.seconds)|))
  }

  /** The cells before the date in the header and in a row: both are as
      wide whatever the entry, so the columns line up. */
  function HeaderCells(w: (nat, nat, nat)): string {
    Misc.PadToSize("| Name", w.0 + 2) + " | " + Misc.PadToSize("Size", w.1) + " | "
  }

  function RowCells(f: FileInfo.Info, w: (nat, nat, nat), sizeText: nat -> string): string {
    "| " + Misc.PadToSize(f.name, w.0) + " | " + Misc.PadToSize(sizeText(f.size), w.1) + " | "
  }

  lemma ColumnsAlign(files: seq<FileInfo.Info>, sizeText: nat -> string, dateText: int -> string, i: nat)
    requires i < |files|
    ensures |RowCells(files[i], Widths(files, sizeText, dateText), sizeText)| == |HeaderCells(Widths(files, sizeText, dateText))|
  {
  }

  /** The hash column as written: sized by the first entry's hash, which
      does not exist when the listing is empty (None: undefined behaviour). */
  function HashWidthAsWritten(files: seq<FileInfo.Info>): (r: Option<nat>)
    ensures r.None? <==> |files| == 0
  {
    if |files| == 0 then None else Some(|files[0].hash|)
  }

  /** The hash column, sized by the header when there is no entry. */
  function HashWidth(files: seq<FileInfo.Info>): (r: nat)
    ensures |files| > 0 ==> Some(r) == HashWidthAsWritten(files)
    ensures |files| == 0 ==> r == |"Hash"|
  {
    if |files| == 0 then 4 else |files[0].hash|
  }

  /** A table as listFiles prints it: the entries, the column widths and
      the width of the hash column. */
  datatype Table = Table(files: seq<FileInfo.Info>, widths: (nat, nat, nat), hashWidth: nat)

  /** listFiles after the credentials: 1 (an error) unless the reply is
      "OK", then the entries up to "DONE"; a decoding error also gives 1. */
  function ListFiles(replies: seq<string>, sizeText: nat -> string, dateText: int -> string): (r: Result<Table>)
    ensures ClientRead(replies, 0).Ok? && ClientRead(replies, 0).value != OK ==> r == Err(AUTH_FAILED)
    ensures r.Ok? ==> ClientRead(replies, 0) == Ok(OK) && Collect(replies[1..], Entry) == Ok(r.value.files)
    ensures r.Ok? ==> r.value.widths == Widths(r.value.files, sizeText, dateText)
                      && r.value.hashWidth == HashWidth(r.value.files)
  {
    var answer :- ClientRead(replies, 0);
    if answer != OK then Err(AUTH_FAILED)
    else
      var files :- Collect(replies[1..], Entry);
      Ok(Table(files, Widths(files, sizeText, dateText), HashWidth(files)))
  }
}
