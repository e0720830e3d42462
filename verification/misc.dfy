/** Small helpers: padding a table cell (src/shared/utils.cpp) and the
    once-only initialisation of a client record (src/server/ClientInfo.cpp). */
module Misc {
  import opened Text

  /** padStringToSize: text at least as long as the width is left alone,
      shorter text is filled with spaces up to the width. */
  function PadToSize(str: string, totalLength: nat): (r: string)
    ensures |str| >= totalLength ==> r == str
    ensures |r| == Max(|str|, totalLength)
    ensures r[..|str|] == str
    ensures forall i :: |str| <= i < |r| ==> r[i] == ' '
  {
    if |str| >= totalLength then str
    else str + Repeat(' ', totalLength - |str|)
  }

  /** Padding twice to the same width pads once. */
  lemma PadIdempotent(str: string, totalLength: nat)
    ensures PadToSize(PadToSize(str, totalLength), totalLength) == PadToSize(str, totalLength)
  {
  }

  /** Padding is undone by dropping trailing spaces up to the old length. */
  lemma PadKeepsText(str: string, totalLength: nat, other: string)
    requires PadToSize(str, totalLength) == PadToSize(other, totalLength)
    requires |str| == |other|
    ensures str == other
  {
    assert PadToSize(str, totalLength)[..|str|] == str;
    assert PadToSize(other, totalLength)[..|other|] == other;
  }

  /** A connected client: address and socket, set once. */
  datatype ClientInfo = ClientInfo(ip: string, socket: int, initialized: bool)

  /** A default-constructed record. */
  const FRESH := ClientInfo("", 0, false)

  /** init: the first call stores the address and socket and answers true;
      every later call answers false and changes nothing. */
  function Init(c: ClientInfo, ip: string, socket: int): (r: (bool, ClientInfo))
    ensures r.0 <==> !c.initialized
    ensures r.1.initialized
    ensures r.0 ==> r.1.ip == ip && r.1.socket == socket
    ensures !r.0 ==> r.1 == c
  {
    if c.initialized then (false, c)
    else (true, c.(ip := ip, socket := socket, initialized := true))
  }

  /** A run of init calls: what each answered, and the final record. */
  function InitAll(c: ClientInfo, calls: seq<(string, int)>): (r: (seq<bool>, ClientInfo))
    ensures |r.0| == |calls|
    decreases |calls|
  {
    if |calls| == 0 then ([], c)
    else
      var (ok, next) := Init(c, calls[0].0, calls[0].1);
      var (oks, last) := InitAll(next, calls[1..]);
      ([ok] + oks, last)
  }

  /** On a fresh record exactly the first init succeeds, and getIp and
      getSocket report what that first call stored. */
  lemma InitOnce(calls: seq<(string, int)>)
    requires |calls| > 0
    ensures InitAll(FRESH, calls).0[0]
    ensures forall i :: 0 < i < |calls| ==> !InitAll(FRESH, calls).0[i]
    ensures InitAll(FRESH, calls).1.ip == calls[0].0
    ensures InitAll(FRESH, calls).1.socket == calls[0].1
  {
    var first := Init(FRESH, calls[0].0, calls[0].1).1;
    InitializedStays(first, calls[1..]);
  }

  lemma {:induction false} InitializedStays(c: ClientInfo, calls: seq<(string, int)>)
    requires c.initialized
    ensures InitAll(c, calls).1 == c
    ensures forall i :: 0 <= i < |calls| ==> !InitAll(c, calls).0[i]
    decreases |calls|
  {
    if |calls| > 0 {
      InitializedStays(c, calls[1..]);
    }
  }
}
