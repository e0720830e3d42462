/** Storage naming on the server. An upload named n with client hash h is
    stored as storage/<mangled n>.<h>, where mangling turns every '.' into
    '<' (src/server/ConnectionHandler.cpp:83-85, server/main.cpp:44-46).
    Files are found again by extension, and the client-facing name is
    recovered in several slightly different ways. A directory listing is a
    sequence of file names, in the (unspecified) order the filesystem
    yields them. */
module Storage {
  import opened Wrappers
  import opened Text

  const STORAGE_PREFIX := "storage/"
  /** What std::string::substr throws for an entry without an extension. */
  const OUT_OF_RANGE := "basic_string::substr"

  function Mangle(name: string): (r: string)
    ensures |r| == |name| && '.' !in r
  {
    Replace(name, '.', '<')
  }

  function Unmangle(stored: string): (r: string)
    ensures |r| == |stored| && '<' !in r
  {
    Replace(stored, '<', '.')
  }

  /** Unmangling undoes mangling for names that do not already use '<'. */
  lemma MangleRoundTrip(name: string)
    requires '<' !in name
    ensures Unmangle(Mangle(name)) == name
  {
    ReplaceInverse(name, '.', '<');
  }

  function StoredName(name: string, hash: string): (r: string)
    ensures |r| == |name| + 1 + |hash|
  {
    Mangle(name) + "." + hash
  }

  /** std::filesystem::path::extension of a file name: from the last '.',
      unless that dot starts the name (a dot file, "." or ".."). */
  function Extension(name: string): (r: string)
    ensures r == "" || (r[0] == '.' && |r| < |name|)
  {
    match LastIndexOf(name, '.')
    case None => ""
    case Some(i) =>
      if i == 0 || name == ".." then ""
      else
        name[i..]
  }

  /** A non-empty extension is a tail of the name with no further '.'. */
  lemma ExtensionShape(name: string)
    ensures Extension(name) != "" ==> EndsWith(name, Extension(name)) && '.' !in Extension(name)[1..]
  {
    var e := Extension(name);
    if e != "" {
      var i := LastIndexOf(name, '.').value;
      assert e == name[i..] && e[1..] == name[i + 1..];
    }
  }

  /** A name has no extension exactly when it has no '.', or its only '.'
      starts it, or it is "..". */
  lemma ExtensionMissing(name: string)
    ensures Extension(name) == "" <==> '.' !in name || (name[0] == '.' && ('.' !in name[1..] || name == ".."))
  {
    if '.' in name && name[0] == '.' && '.' in name[1..] && name != ".." {
      var k :| 0 <= k < |name[1..]| && name[1..][k] == '.';
      assert name[k + 1] == '.';
    }
  }

  /** std::filesystem::path::stem: the name without its extension. */
  function Stem(name: string): (r: string)
    ensures r + Extension(name) == name
    ensures name != "" ==> r != ""
  {
    name[..|name| - |Extension(name)|]
  }

  /** The hash a stored file carries: its extension without the dot. An
      entry without an extension makes substr(1) throw. */
  function HashOf(name: string): (r: Result<string>)
    ensures r.Ok? <==> Extension(name) != ""
    ensures r.Ok? ==> Extension(name) == "." + r.value
  {
    var e := Extension(name);
    if e == "" then Err(OUT_OF_RANGE) else Ok(e[1..])
  }

  /** A stored name splits back into the mangled name and the hash. */
  lemma StoredNameParts(name: string, hash: string)
    requires name != "" && '.' !in hash
    ensures Extension(StoredName(name, hash)) == "." + hash
    ensures Stem(StoredName(name, hash)) == Mangle(name)
    ensures HashOf(StoredName(name, hash)) == Ok(hash)
  {
    var s := StoredName(name, hash);
    var m := Mangle(name);
    assert s[|m|] == '.';
    assert s[|m| + 1..] == hash;
    assert LastIndexOf(s, '.') == Some(|m|);
    assert s[0] == m[0] && m[0] != '.';
    assert s[|m|..] == "." + hash;
  }

  // ------------------------------------------------ client-facing names

  /** _sendFile: the text between the last '/' and the last '.', with '<'
      turned back into '.'. A missing '/' starts at 0; a missing '.', or a
      '.' before the '/', makes the unsigned length wrap so the text runs to
      the end. */
  function RecoverName(path: string): (r: string)
    ensures |r| <= |path| && '<' !in r
  {
    var start := match LastIndexOf(path, '/') case None => 0 case Some(s) => s + 1;
    var stop := match LastIndexOf(path, '.')
      case Some(d) => if d >= start then d else |path|
      case None => |path|;
    Unmangle(path[start..stop])
  }

  /** _removeFile: the prefix before the first '.', unmangled. */
  function RemovalLinkName(fileName: string): (r: string)
    ensures |r| <= |fileName| && '<' !in r
  {
    match FirstIndexOf(fileName, '.')
    case None => Unmangle(fileName)
    case Some(i) => Unmangle(fileName[..i])
  }

  /** server/main.cpp's removeFile: the whole file name, unmangled. */
  function LegacyLinkName(fileName: string): (r: string)
    ensures |r| == |fileName| && '<' !in r
  {
    Unmangle(fileName)
  }

  /** server/main.cpp's sendFile: the path up to its last '.', unmangled. */
  function LegacyClientName(path: string): (r: string)
    ensures |r| <= |path| && '<' !in r
  {
    match LastIndexOf(path, '.')
    case None => Unmangle(path)
    case Some(d) => Unmangle(path[..d])
  }

  /** Both recovery methods give back the uploaded name, for a name without
      '<' or '/' and a hash without '.' or '/'. */
  lemma NameRecovery(name: string, hash: string)
    requires name != "" && '<' !in name && '/' !in name
    requires '.' !in hash && '/' !in hash
    ensures RecoverName(STORAGE_PREFIX + StoredName(name, hash)) == name
    ensures RemovalLinkName(StoredName(name, hash)) == name
  {
    PathNameRecovered(name, hash);
    FirstDotAt(Mangle(name), hash);
    MangleRoundTrip(name);
  }

  lemma PathNameRecovered(name: string, hash: string)
    requires name != "" && '<' !in name && '/' !in name
    requires '.' !in hash && '/' !in hash
    ensures RecoverName(STORAGE_PREFIX + StoredName(name, hash)) == name
  {
    var m := Mangle(name);
    var s := StoredName(name, hash);
    var p := STORAGE_PREFIX + s;
    assert '/' !in m by {
      assert forall i :: 0 <= i < |m| ==> m[i] != '/';
    }
    assert p == "storage" + "/" + s;
    LastAt("storage", '/', s);
    assert p == (STORAGE_PREFIX + m) + "." + hash;
    LastDotAt(STORAGE_PREFIX + m, hash);
    assert p[8..8 + |m|] == m;
    MangleRoundTrip(name);
  }

  /** The older server renames a finished upload to <stored>.<computed>. */
  function LegacyFinalName(name: string, clientHash: string, computed: string): (r: string)
    ensures StartsWith(r, StoredName(name, clientHash))
  {
    StoredName(name, clientHash) + "." + computed
  }

  /** As written, the older server's removal looks for a link named after
      the whole stored file name, which is never the link it created. */
  lemma LegacyLinkMissed(name: string, clientHash: string, computed: string)
    ensures LegacyLinkName(LegacyFinalName(name, clientHash, computed)) != name
  {
    assert |LegacyLinkName(LegacyFinalName(name, clientHash, computed))| > |name|;
  }

  /** Corrected: taking the prefix before the first '.' finds the link. */
  lemma LegacyLinkCorrected(name: string, clientHash: string, computed: string)
    requires '<' !in name
    ensures RemovalLinkName(LegacyFinalName(name, clientHash, computed)) == name
  {
    var m := Mangle(name);
    var f := LegacyFinalName(name, clientHash, computed);
    assert f[..|m|] == m && f[|m|] == '.';
    assert FirstIndexOf(f, '.') == Some(|m|);
    MangleRoundTrip(name);
  }

  /** The older server hands the client a name that keeps the storage
      directory and the client's hash. */
  lemma LegacyClientNameKeepsPrefix(name: string, clientHash: string, computed: string)
    requires '<' !in name && '<' !in clientHash && '.' !in computed
    ensures LegacyClientName(STORAGE_PREFIX + LegacyFinalName(name, clientHash, computed))
            == STORAGE_PREFIX + name + "." + clientHash
  {
    var m := Mangle(name);
    var kept := STORAGE_PREFIX + m + "." + clientHash;
    var p := kept + "." + computed;
    assert STORAGE_PREFIX + LegacyFinalName(name, clientHash, computed) == p;
    LastDotAt(kept, computed);
    assert p[..|kept|] == kept;
    MangleRoundTrip(name);
    ReplaceConcat(STORAGE_PREFIX, m, "." + clientHash);
    ReplaceAbsent(STORAGE_PREFIX);
    ReplaceAbsent("." + clientHash);
  }

  /** The last '.' of a + "." + b is the joining one when b has none. */
  lemma LastDotAt(a: string, b: string)
    requires '.' !in b
    ensures LastIndexOf(a + "." + b, '.') == Some(|a|)
  {
    LastAt(a, '.', b);
  }

  lemma LastAt(a: string, c: char, b: string)
    requires c !in b
    ensures LastIndexOf(a + [c] + b, c) == Some(|a|)
  {
    var p := a + [c] + b;
    assert p[|a|] == c && p[|a| + 1..] == b;
  }

  lemma FirstDotAt(a: string, b: string)
    requires '.' !in a
    ensures FirstIndexOf(a + "." + b, '.') == Some(|a|)
  {
    var p := a + "." + b;
    assert p[|a|] == '.' && p[..|a|] == a;
  }

  lemma ReplaceConcat(a: string, b: string, c: string)
    ensures Replace(a + b + c, '<', '.') == Replace(a, '<', '.') + Replace(b, '<', '.') + Replace(c, '<', '.')
  {
  }

  lemma ReplaceAbsent(a: string)
    requires '<' !in a
    ensures Replace(a, '<', '.') == a
  {
  }

  // ------------------------------------------------ lookups

  /** The handlers' match test: the extension is "." + hash. */
  predicate Carries(name: string, hash: string) {
    Extension(name) == "." + hash
  }

  /** The handlers' lookup: the LAST entry whose extension is "." + hash. */
  function LookupLast(entries: seq<string>, hash: string): (r: Option<nat>)
    ensures r.Some? ==> r.value < |entries| && Carries(entries[r.value], hash)
    ensures r.Some? ==> forall j :: r.value < j < |entries| ==> !Carries(entries[j], hash)
    ensures r.None? <==> forall j :: 0 <= j < |entries| ==> !Carries(entries[j], hash)
  {
    LastWhere(entries, e => Carries(e, hash), |entries|)
  }

  /** The last of the first n entries that satisfies p. */
  function LastWhere(entries: seq<string>, p: string -> bool, n: nat): (r: Option<nat>)
    requires n <= |entries|
    ensures r.Some? ==> r.value < n && p(entries[r.value])
    ensures r.Some? ==> forall j :: r.value < j < n ==> !p(entries[j])
    ensures r.None? <==> forall j :: 0 <= j < n ==> !p(entries[j])
  {
    if n == 0 then None
    else if p(entries[n - 1]) then Some(n - 1)
    else LastWhere(entries, p, n - 1)
  }

  /** Whatever was stored under a hash is found by the lookup. */
  lemma LookupFindsStored(entries: seq<string>, name: string, hash: string)
    requires name != "" && '.' !in hash
    requires StoredName(name, hash) in entries
    ensures LookupLast(entries, hash).Some?
  {
    StoredNameParts(name, hash);
  }

  /** findCorrespondingFileNames: the entries whose hash is wanted. */
  function FindAll(entries: seq<string>, wanted: set<string>): (r: Result<set<string>>)
    ensures r.Err? <==> exists i :: 0 <= i < |entries| && HashOf(entries[i]).Err?
    ensures r.Ok? ==> forall x :: x in r.value <==> x in entries && HashOf(x).Ok? && HashOf(x).value in wanted
  {
    if |entries| == 0 then Ok({})
    else
      var h :- HashOf(entries[0]);
      var rest :- FindAll(entries[1..], wanted);
      assert forall x :: x in entries <==> x == entries[0] || x in entries[1..];
      Ok(if h in wanted then {entries[0]} + rest else rest)
  }

  /** findCorrespondingFileName: the FIRST entry carrying the hash. */
  function FindFirst(entries: seq<string>, hash: string): (r: Result<Option<string>>)
    ensures (forall i :: 0 <= i < |entries| ==> Extension(entries[i]) != "") ==> r.Ok?
    ensures r.Ok? && r.value.Some? ==>
              exists i :: 0 <= i < |entries| && entries[i] == r.value.value && Carries(entries[i], hash)
                          && (forall j :: 0 <= j < i ==> !Carries(entries[j], hash))
    ensures r.Ok? && r.value.None? ==> forall i :: 0 <= i < |entries| ==> !Carries(entries[i], hash)
  {
    var ok := e => Extension(e) != "";
    var p := e => Carries(e, hash);
    FirstWhereSucceeds(entries, ok, p, 0);
    var found :- FirstWhere(entries, ok, p, 0);
    match found
    case None => Ok(None)
    case Some(i) => Ok(Some(entries[i]))
  }

  /** The index of the first entry from `from` on that satisfies p; an
      entry that is not ok before it is an error (substr on an entry
      without an extension). */
  function FirstWhere(entries: seq<string>, ok: string -> bool, p: string -> bool, from: nat): (r: Result<Option<nat>>)
    requires from <= |entries|
    ensures r.Ok? && r.value.Some? ==> from <= r.value.value < |entries| && p(entries[r.value.value])
    ensures r.Ok? && r.value.Some? ==> forall j :: from <= j < r.value.value ==> !p(entries[j])
    ensures r.Ok? && r.value.None? ==> forall i :: from <= i < |entries| ==> !p(entries[i])
    decreases |entries| - from
  {
    if from == |entries| then Ok(None)
    else
      if !ok(entries[from]) then Err(OUT_OF_RANGE)
      else if p(entries[from]) then Ok(Some(from))
      else FirstWhere(entries, ok, p, from + 1)
  }

  /** The search fails only on an entry that is not ok. */
  lemma {:induction false} FirstWhereSucceeds(entries: seq<string>, ok: string -> bool, p: string -> bool, from: nat)
    requires from <= |entries|
    ensures (forall i :: from <= i < |entries| ==> ok(entries[i])) ==> FirstWhere(entries, ok, p, from).Ok?
    decreases |entries| - from
  {
    if from < |entries| && ok(entries[from]) && !p(entries[from]) {
      FirstWhereSucceeds(entries, ok, p, from + 1);
    }
  }

  /** getLocalFileHashes: the hashes of all stored files. */
  function LocalHashes(entries: seq<string>): (r: Result<set<string>>)
    ensures r.Err? <==> exists i :: 0 <= i < |entries| && HashOf(entries[i]).Err?
    ensures r.Ok? ==> forall h :: h in r.value <==> exists i :: 0 <= i < |entries| && HashOf(entries[i]) == Ok(h)
  {
    ImageFrom(entries, HashOf, 0)
  }

  /** The set of f's results on the entries from `from` on; the first
      error ends the collection. */
  function ImageFrom(entries: seq<string>, f: string -> Result<string>, from: nat): (r: Result<set<string>>)
    requires from <= |entries|
    ensures r.Err? <==> exists i :: from <= i < |entries| && f(entries[i]).Err?
    ensures r.Ok? ==> forall h :: h in r.value <==> exists i :: from <= i < |entries| && f(entries[i]) == Ok(h)
    decreases |entries| - from
  {
    if from == |entries| then Ok({})
    else
      var h :- f(entries[from]);
      var rest :- ImageFrom(entries, f, from + 1);
      Ok({h} + rest)
  }

  /** Every name found for a wanted set carries a hash that is both stored
      locally and wanted. */
  lemma FoundNamesAreLocal(entries: seq<string>, wanted: set<string>, x: string)
    requires FindAll(entries, wanted).Ok? && x in FindAll(entries, wanted).value
    ensures LocalHashes(entries).Ok?
    ensures HashOf(x).Ok? && HashOf(x).value in LocalHashes(entries).value * wanted
  {
    var i :| 0 <= i < |entries| && entries[i] == x;
    assert HashOf(entries[i]) == Ok(HashOf(x).value);
  }

  /** The first match is among all matches. */
  lemma FirstIsAmongAll(entries: seq<string>, hash: string)
    requires FindAll(entries, {hash}).Ok?
    ensures FindFirst(entries, hash).Ok?
    ensures FindFirst(entries, hash).value.Some? <==> FindAll(entries, {hash}).value != {}
    ensures FindFirst(entries, hash).value.Some? ==> FindFirst(entries, hash).value.value in FindAll(entries, {hash}).value
  {
    var all := FindAll(entries, {hash}).value;
    if all != {} {
      var x :| x in all;
      var i :| 0 <= i < |entries| && entries[i] == x;
      assert HashOf(entries[i]) == Ok(hash);
    }
  }

  /** getLocalRawFileName: the first entry whose stem is the mangled name. */
  function RawFileName(entries: seq<string>, name: string): (r: Option<string>)
    ensures r.Some? ==> r.value in entries && Stem(r.value) == Mangle(name)
    ensures r.None? <==> forall i :: 0 <= i < |entries| ==> Stem(entries[i]) != Mangle(name)
  {
    if |entries| == 0 then None
    else if Stem(entries[0]) == Mangle(name) then Some(entries[0])
    else
      var rest := RawFileName(entries[1..], name);
      assert forall i :: 1 <= i < |entries| ==> entries[i] == entries[1..][i - 1];
      rest
  }

  /** An uploaded name is found again among the stored files. */
  lemma RawFileNameFindsStored(entries: seq<string>, name: string, hash: string)
    requires name != "" && '.' !in hash && '<' !in name
    requires StoredName(name, hash) in entries
    ensures RawFileName(entries, name).Some?
    ensures Unmangle(Stem(RawFileName(entries, name).value)) == name
  {
    StoredNameParts(name, hash);
    MangleRoundTrip(name);
  }
}
