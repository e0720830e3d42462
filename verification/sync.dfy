/** The decisions of a sync session on the answering server
    (src/server/ConnectionHandler.cpp:52-69, 358-463): the credential check,
    the hash-list codec, set subtraction, and what is fetched and what is
    sent. The transfers themselves are the ones in the Transfer module. */
module Sync {
  import opened Wrappers
  import opened Text
  import Storage

  const USER_TAG := "user:"
  const PASS_TAG := "pass:"
  const NO_USER := "listFiles: no user specified, got: "
  const NO_PASS := "listFiles: no pass specified, got: "
  const BAD_SEPARATOR := "Parsing hashes: invalid separator"
  const U64_LIMIT: nat := 0x1_0000_0000_0000_0000

  /** _auth: both tags are required; the values after them (five characters
      each) must equal the configured credentials. */
  function Auth(user: string, pass: string, authUser: string, authPass: string): (r: Result<bool>)
    ensures r.Err? <==> !StartsWith(user, USER_TAG) || !StartsWith(pass, PASS_TAG)
    ensures r.Err? ==> r.error == (if !StartsWith(user, USER_TAG) then NO_USER + user else NO_PASS + pass)
    ensures r == Ok(true) <==> user == USER_TAG + authUser && pass == PASS_TAG + authPass
  {
    if !StartsWith(user, USER_TAG) then Err(NO_USER + user)
    else if !StartsWith(pass, PASS_TAG) then Err(NO_PASS + pass)
    else
      assert user == USER_TAG + user[5..] && pass == PASS_TAG + pass[5..];
      Ok(user[5..] == authUser && pass[5..] == authPass)
  }

  // ------------------------------------------------ hash lists

  /** _generateHashesString: every hash followed by '|'. */
  function Generate(hashes: seq<string>): (r: string)
    ensures |r| >= |hashes|
    ensures hashes != [] ==> EndsWith(r, "|")
  {
    if |hashes| == 0 then "" else hashes[0] + "|" + Generate(hashes[1..])
  }

  /** _parseHashes: the text up to each '|' from the offset on; text left
      without a '|' is an error. */
  function Parse(text: string): (r: Result<seq<string>>)
    ensures r.Ok? ==> forall i :: 0 <= i < |r.value| ==> '|' !in r.value[i]
    ensures r.Ok? && text != "" ==> EndsWith(text, "|")
    ensures r.Err? ==> r.error == BAD_SEPARATOR
    ensures text == "" ==> r == Ok([])
    decreases |text|
  {
    if |text| == 0 then Ok([])
    else match FirstIndexOf(text, '|')
      case None => Err(BAD_SEPARATOR)
      case Some(sep) =>
        var rest :- Parse(text[sep + 1..]);
        ParseStep(text, sep, rest);
        Ok([text[..sep]] + rest)
  }

  /** One step of the parse: the field before the first '|' joins the
      fields after it, and the text ends with '|' when the rest does. */
  lemma ParseStep(text: string, sep: nat, rest: seq<string>)
    requires sep < |text| && text[sep] == '|' && '|' !in text[..sep]
    requires forall i :: 0 <= i < |rest| ==> '|' !in rest[i]
    requires text[sep + 1..] != "" ==> EndsWith(text[sep + 1..], "|")
    ensures forall i :: 0 <= i < |[text[..sep]] + rest| ==> '|' !in ([text[..sep]] + rest)[i]
    ensures EndsWith(text, "|")
  {
    var tail := text[sep + 1..];
    assert tail != "" ==> tail[|tail| - 1] == text[|text| - 1];
  }

  /** Parsing the generated list gives the hashes back in order. */
  lemma {:induction false} HashListRoundTrip(hashes: seq<string>)
    requires forall i :: 0 <= i < |hashes| ==> '|' !in hashes[i]
    ensures Parse(Generate(hashes)) == Ok(hashes)
  {
    if |hashes| > 0 {
      var text := Generate(hashes);
      var h := hashes[0];
      assert text == h + "|" + Generate(hashes[1..]);
      assert text[|h|] == '|' && text[..|h|] == h;
      assert FirstIndexOf(text, '|') == Some(|h|);
      assert text[|h| + 1..] == Generate(hashes[1..]);
      HashListRoundTrip(hashes[1..]);
      assert hashes == [h] + hashes[1..];
    }
  }

  /** Text with a '|' missing at the end is refused. */
  lemma UnterminatedRefused(text: string)
    requires text != "" && !EndsWith(text, "|")
    ensures Parse(text) == Err(BAD_SEPARATOR)
  {
  }

  /** The set a parsed list stands for. */
  function Elements(list: seq<string>): (r: set<string>)
    ensures forall x :: x in r <==> x in list
  {
    set i | 0 <= i < |list| :: list[i]
  }

  /** operator/: the items of the left set that are not in the right one,
      visited in the left set's order. */
  function Subtract(items: seq<string>, rhs: set<string>): (r: set<string>)
    ensures forall x :: x in r <==> x in items && x !in rhs
  {
    if |items| == 0 then {}
    else
      var rest := Subtract(items[1..], rhs);
      assert forall x :: x in items <==> x == items[0] || x in items[1..];
      if items[0] in rhs then rest else {items[0]} + rest
  }

  /** What a slave decides: fetch what only the master has, send what only
      it has. */
  datatype Plan = Plan(toGet: set<string>, toSend: set<string>)

  function MakePlan(remote: seq<string>, local: seq<string>): (p: Plan)
    ensures p.toGet !! Elements(local) && p.toSend !! Elements(remote)
    ensures p.toGet <= Elements(remote) && p.toSend <= Elements(local)
  {
    Plan(Subtract(remote, Elements(local)), Subtract(local, Elements(remote)))
  }

  /** After the plan is carried out both sides hold the union. */
  lemma PlanCompletes(remote: seq<string>, local: seq<string>)
    ensures Elements(local) + MakePlan(remote, local).toGet == Elements(remote) + Elements(local)
    ensures Elements(remote) + MakePlan(remote, local).toSend == Elements(remote) + Elements(local)
  {
  }

  /** The slave's side of a sync: "NOPE" on bad credentials, otherwise the
      parsed remote list, the local list it sends back and the plan. */
  datatype SlaveStep = Refused | Agreed(localList: string, plan: Plan)

  method SyncAsSlave(user: string, pass: string, authUser: string, authPass: string,
                     remoteList: string, entries: seq<string>) returns (r: Result<SlaveStep>)
    ensures r.Ok? && r.value.Refused? <==> Auth(user, pass, authUser, authPass) == Ok(false)
    ensures r.Ok? && r.value.Agreed? ==>
              Auth(user, pass, authUser, authPass) == Ok(true) && Parse(remoteList).Ok?
              && Storage.LocalHashes(entries).Ok?
              && r.value.plan.toGet == Elements(Parse(remoteList).value) - Storage.LocalHashes(entries).value
              && r.value.plan.toSend == Storage.LocalHashes(entries).value - Elements(Parse(remoteList).value)
    ensures r.Ok? && r.value.Agreed? && (forall h :: h in Storage.LocalHashes(entries).value ==> '|' !in h) ==>
              Parse(r.value.localList).Ok? && Elements(Parse(r.value.localList).value) == Storage.LocalHashes(entries).value
    ensures r.Err? ==> Auth(user, pass, authUser, authPass).Err? || Parse(remoteList).Err? || Storage.LocalHashes(entries).Err?
  {
    var ok := Auth(user, pass, authUser, authPass);
    if ok.Err? {
      return Err(ok.error);
    }
    if !ok.value {
      return Ok(Refused);
    }
    var remote := Parse(remoteList);
    if remote.Err? {
      return Err(remote.error);
    }
    var local := Storage.LocalHashes(entries);
    if local.Err? {
      return Err(local.error);
    }
    var list := Listing(local.value);
    ListedRoundTrip(list, local.value);
    r := Ok(Agreed(Generate(list), MakePlan(remote.value, list)));
  }

  lemma ListedRoundTrip(list: seq<string>, s: set<string>)
    requires Elements(list) == s
    ensures (forall h :: h in s ==> '|' !in h) ==> Parse(Generate(list)) == Ok(list)
  {
    if forall h :: h in s ==> '|' !in h {
      assert forall i :: 0 <= i < |list| ==> list[i] in s;
      HashListRoundTrip(list);
    }
  }

  /** Lists a set, each element once (std::set iterates in sorted order;
      only the contents matter here). */
  method Listing(s: set<string>) returns (list: seq<string>)
    ensures Elements(list) == s
    ensures forall i, j :: 0 <= i < j < |list| ==> list[i] != list[j]
  {
    list := [];
    var rest := s;
    while rest != {}
      invariant Elements(list) + rest == s && Elements(list) !! rest
      invariant forall i, j :: 0 <= i < j < |list| ==> list[i] != list[j]
      decreases |rest|
    {
      var x :| x in rest;
      list := list + [x];
      rest := rest - {x};
    }
  }

  // ------------------------------------------------ the fetch loop

  /** As written the fetch loop counts i down from 0: after the first pass
      i wraps to 2^64 - 1 and the loop ends, so one file is fetched however
      many are missing. */
  method FetchCountAsWritten(missing: nat) returns (fetched: nat)
    requires missing < U64_LIMIT
    ensures fetched == if missing == 0 then 0 else 1
  {
    var i: nat := 0;
    fetched := 0;
    while i < missing
      invariant (i == 0 && fetched == 0) || (i == U64_LIMIT - 1 && fetched == 1 && missing > 0)
      decreases if i == 0 then 1 else 0
    {
      fetched := fetched + 1;
      i := (i - 1) % U64_LIMIT;
    }
  }

  /** Shows the as-written loop leaving files behind: with two files
      missing, it fetches one. */
  method FetchLosesFiles() returns (fetched: nat)
    ensures fetched == 1
  {
    fetched := FetchCountAsWritten(2);
  }

  /** Corrected: counting up fetches every missing file. */
  method FetchCount(missing: nat) returns (fetched: nat)
    ensures fetched == missing
  {
    var i: nat := 0;
    fetched := 0;
    while i < missing
      invariant i <= missing && fetched == i
    {
      fetched := fetched + 1;
      i := i + 1;
    }
  }

  // ------------------------------------------------ names to send

  /** As written the handler's _findCorrespondingFileNames reads each
      entry's hash (extension().substr(1), which throws out_of_range on an
      entry without an extension), computes the matching name and drops it:
      it either throws or returns nothing. */
  function SendNamesAsWritten(entries: seq<string>, toSend: set<string>): (r: Result<set<string>>)
    ensures r.Err? <==> exists i :: 0 <= i < |entries| && Storage.HashOf(entries[i]).Err?
    ensures r.Err? ==> r.error == Storage.OUT_OF_RANGE
    ensures r.Ok? ==> r.value == {}
  {
    if |entries| == 0 then Ok({})
    else
      var _ :- Storage.HashOf(entries[0]);
      var r := SendNamesAsWritten(entries[1..], toSend);
      assert forall i :: 0 < i < |entries| ==> entries[i] == entries[1..][i - 1];
      r
  }

  /** The function as written throws exactly when the corrected search does. */
  lemma SendNamesThrowsLikeFindAll(entries: seq<string>, toSend: set<string>)
    ensures SendNamesAsWritten(entries, toSend).Err? <==> Storage.FindAll(entries, toSend).Err?
  {
  }

  /** So a slave that holds files the master lacks sends none of them. */
  lemma SendNamesDropped(entries: seq<string>, name: string, hash: string)
    requires name != "" && '.' !in hash
    requires Storage.StoredName(name, hash) in entries
    requires Storage.FindAll(entries, {hash}).Ok?
    ensures Storage.StoredName(name, hash) in Storage.FindAll(entries, {hash}).value
    ensures SendNamesAsWritten(entries, {hash}) == Ok({})
  {
    Storage.StoredNameParts(name, hash);
    SendNamesThrowsLikeFindAll(entries, {hash});
  }
}
