/** The file descriptions a listing sends (src/shared/FileInfo.cpp): the
    text form name|hash|size|seconds|#, its decoder, the constructor that
    reads a stored file, and the cached date string. Timestamps are whole
    seconds since the epoch; the filesystem and the clock are parameters. */
module FileInfo {
  import opened Wrappers
  import opened Text
  import opened Decimal
  import Storage

  const EMPTY := "Cannot decode empty FileInfo representation"
  const INVALID := "Invalid FileInfo representation: "
  const BAD_SIZE := "Invalid size in FileInfo representation: "
  const BAD_DATE := "Invalid upload date in FileInfo representation: "
  const EXTRA := "Invalid FileInfo representation, extra data found: "
  const NO_FILE := "File does not exist: "
  const NOT_REGULAR := "Path is not a regular file: "
  const NO_DATE := "Could not format upload date"

  datatype Info = Info(name: string, hash: string, size: nat, seconds: int)
  {
    /** What the fields of the source can hold: a size_t and a signed
        64-bit count of seconds. */
    predicate Valid() {
      size < U64_LIMIT && I64_MIN <= seconds <= I64_MAX
    }
  }

  /** encode: the four fields, each followed by '|', then the end mark. */
  function Encode(f: Info): (r: string)
    ensures StartsWith(r, f.name + "|" + f.hash + "|")
    ensures EndsWith(r, "|#")
  {
    f.name + "|" + (f.hash + "|" + (NatToText(f.size) + "|" + (IntToText(f.seconds) + "|" + "#")))
  }

  /** One field: the text before the first '|' and what follows it. */
  function Field(rep: string): (r: Result<(string, string)>)
    ensures r.Ok? ==> var n := |r.value.0|;
              n < |rep| && rep[n] == '|' && r.value.0 == rep[..n] && r.value.1 == rep[n + 1..] && '|' !in r.value.0
    ensures r.Err? <==> '|' !in rep
    ensures r.Err? ==> r.error == INVALID + rep
  {
    match FirstIndexOf(rep, '|')
    case None => Err(INVALID + rep)
    case Some(p) => Ok((rep[..p], rep[p + 1..]))
  }

  /** The field before a '|' is split off exactly. */
  lemma FieldOf(tok: string, rest: string)
    requires '|' !in tok
    ensures Field(tok + "|" + rest) == Ok((tok, rest))
  {
    var t := tok + "|" + rest;
    assert t[|tok|] == '|' && t[..|tok|] == tok && t[|tok| + 1..] == rest;
    assert FirstIndexOf(t, '|') == Some(|tok|);
  }

  /** The decoding constructor. Fields are taken in order and the size is
      read before the date field is looked for, so the error reported is the
      first one met. */
  function Decode(text: string): (r: Result<Info>)
    ensures text == "" ==> r == Err(EMPTY)
    ensures r.Ok? ==> '|' !in r.value.name && '|' !in r.value.hash && r.value.Valid()
  {
    if text == "" then Err(EMPTY)
    else
      var (name, r1) :- Field(text);
      DecodeHash(name, r1)
  }

  function DecodeHash(name: string, r1: string): (r: Result<Info>)
    ensures r.Ok? ==> r.value.name == name && '|' !in r.value.hash && r.value.Valid()
  {
    var (hash, r2) :- Field(r1);
    DecodeSize(name, hash, r2)
  }

  function DecodeSize(name: string, hash: string, r2: string): (r: Result<Info>)
    ensures r.Ok? ==> r.value.name == name && r.value.hash == hash && r.value.Valid()
  {
    var (sizeText, r3) :- Field(r2);
    var size :- ReadSize(sizeText);
    DecodeDate(name, hash, size, r3)
  }

  function DecodeDate(name: string, hash: string, size: nat, r3: string): (r: Result<Info>)
    ensures r.Ok? ==> r.value.name == name && r.value.hash == hash && r.value.size == size
    ensures r.Ok? ==> I64_MIN <= r.value.seconds <= I64_MAX
  {
    var (dateText, r4) :- Field(r3);
    var seconds :- ReadDate(dateText);
    var _ :- Finish(r4);
    Ok(Info(name, hash, size, seconds))
  }

  /** The size field, read with std::stoull. */
  function ReadSize(sizeText: string): (r: Result<nat>)
    ensures r.Ok? <==> ParseU64(sizeText).Some?
    ensures r.Ok? ==> r.value == ParseU64(sizeText).value && r.value < U64_LIMIT
    ensures r.Err? ==> r.error == BAD_SIZE + sizeText + " | stoull"
  {
    match ParseU64(sizeText)
    case None => Err(BAD_SIZE + sizeText + " | stoull")
    case Some(n) => Ok(n)
  }

  /** The date field, read with std::stol. */
  function ReadDate(dateText: string): (r: Result<int>)
    ensures r.Ok? <==> ParseI64(dateText).Some?
    ensures r.Ok? ==> r.value == ParseI64(dateText).value && I64_MIN <= r.value <= I64_MAX
    ensures r.Err? ==> r.error == BAD_DATE + dateText + " | stol"
  {
    match ParseI64(dateText)
    case None => Err(BAD_DATE + dateText + " | stol")
    case Some(n) => Ok(n)
  }

  /** After the fourth field only nothing or the end mark may follow. */
  function Finish(rest: string): (r: Result<()>)
    ensures r.Ok? <==> rest == "" || rest == "#"
    ensures r.Err? ==> r.error == EXTRA + rest
  {
    if rest != "" && rest != "#" then Err(EXTRA + rest) else Ok(())
  }

  // Each decoding stage takes one field off the front.

  lemma StepName(name: string, r1: string)
    requires '|' !in name
    ensures Decode(name + "|" + r1) == DecodeHash(name, r1)
  {
    FieldOf(name, r1);
  }

  lemma StepHash(name: string, hash: string, r2: string)
    requires '|' !in hash
    ensures DecodeHash(name, hash + "|" + r2) == DecodeSize(name, hash, r2)
  {
    FieldOf(hash, r2);
  }

  lemma StepSize(name: string, hash: string, sizeText: string, r3: string)
    requires '|' !in sizeText
    ensures DecodeSize(name, hash, sizeText + "|" + r3)
            == match ParseU64(sizeText)
               case None => Err(BAD_SIZE + sizeText + " | stoull")
               case Some(n) => DecodeDate(name, hash, n, r3)
  {
    FieldOf(sizeText, r3);
  }

  lemma StepDate(name: string, hash: string, size: nat, dateText: string, r4: string)
    requires '|' !in dateText
    ensures DecodeDate(name, hash, size, dateText + "|" + r4)
            == match ParseI64(dateText)
               case None => Err(BAD_DATE + dateText + " | stol")
               case Some(n) => if r4 == "" || r4 == "#" then Ok(Info(name, hash, size, n)) else Err(EXTRA + r4)
  {
    FieldOf(dateText, r4);
  }

  /** Decoding the four fields of a well-formed description, followed by
      whatever comes after the fourth '|'. */
  lemma DecodeWellFormed(f: Info, tail: string)
    requires f.Valid() && '|' !in f.name && '|' !in f.hash
    ensures Decode(f.name + "|" + (f.hash + "|" + (NatToText(f.size) + "|" + (IntToText(f.seconds) + "|" + tail))))
            == if tail == "" || tail == "#" then Ok(f) else Err(EXTRA + tail)
  {
    var s := NatToText(f.size);
    var d := IntToText(f.seconds);
    DigitsHaveNoBar(s);
    IntTextHasNoBar(f.seconds);
    ParseU64RoundTrip(f.size);
    ParseI64RoundTrip(f.seconds);
    var r3 := d + "|" + tail;
    var r2 := s + "|" + r3;
    var r1 := f.hash + "|" + r2;
    StepDate(f.name, f.hash, f.size, d, tail);
    StepSize(f.name, f.hash, s, r3);
    StepHash(f.name, f.hash, r2);
    StepName(f.name, r1);
  }

  /** Decoding what encode wrote gives the description back. */
  lemma FileInfoRoundTrip(f: Info)
    requires f.Valid() && '|' !in f.name && '|' !in f.hash
    ensures Decode(Encode(f)) == Ok(f)
  {
    DecodeWellFormed(f, "#");
  }

  lemma DigitsHaveNoBar(s: string)
    requires forall i :: 0 <= i < |s| ==> IsDigit(s[i])
    ensures '|' !in s
  {
  }

  lemma IntTextHasNoBar(i: int)
    ensures '|' !in IntToText(i)
  {
    if i < 0 {
      assert IntToText(i) == "-" + NatToText(-i);
      DigitsHaveNoBar(NatToText(-i));
    } else {
      DigitsHaveNoBar(NatToText(i));
    }
  }

  /** The number of '|' in a text. */
  function Bars(s: string): (n: nat)
    ensures n <= |s|
    ensures n == 0 <==> '|' !in s
  {
    if |s| == 0 then 0 else (if s[0] == '|' then 1 else 0) + Bars(s[1..])
  }

  lemma {:induction false} BarsSplit(tok: string, rest: string)
    requires '|' !in tok
    ensures Bars(tok + "|" + rest) == Bars(rest) + 1
  {
    if |tok| == 0 {
      assert (tok + "|" + rest)[1..] == rest;
    } else {
      assert (tok + "|" + rest)[1..] == tok[1..] + "|" + rest;
      BarsSplit(tok[1..], rest);
    }
  }

  /** Fewer than four delimiters can never decode. */
  lemma FewDelimitersRejected(text: string)
    requires Bars(text) < 4
    ensures Decode(text).Err?
  {
    if text != "" && '|' in text {
      SplitField(text);
      FewDelimitersHash(Field(text).value.0, Field(text).value.1);
    }
  }

  lemma FewDelimitersHash(name: string, r1: string)
    requires Bars(r1) < 3
    ensures DecodeHash(name, r1).Err?
  {
    if '|' in r1 {
      SplitField(r1);
      FewDelimitersSize(name, Field(r1).value.0, Field(r1).value.1);
    }
  }

  lemma FewDelimitersSize(name: string, hash: string, r2: string)
    requires Bars(r2) < 2
    ensures DecodeSize(name, hash, r2).Err?
  {
    if '|' in r2 {
      SplitField(r2);
      var f := Field(r2).value;
      if ReadSize(f.0).Ok? {
        NoDateField(name, hash, ReadSize(f.0).value, f.1);
      }
    }
  }

  /** A text with a '|' splits at it, leaving one delimiter fewer. */
  lemma SplitField(rep: string)
    requires '|' in rep
    ensures Field(rep).Ok? && Bars(Field(rep).value.1) + 1 == Bars(rep)
  {
    var f := Field(rep).value;
    assert rep == f.0 + "|" + f.1;
    BarsSplit(f.0, f.1);
  }

  lemma NoDateField(name: string, hash: string, size: nat, r3: string)
    requires '|' !in r3
    ensures DecodeDate(name, hash, size, r3).Err?
  {
  }

  /** Anything after the fourth delimiter other than "#" is refused. */
  lemma ExtraDataRejected(f: Info, extra: string)
    requires f.Valid() && '|' !in f.name && '|' !in f.hash
    requires extra != "" && extra != "#"
    ensures Decode(f.name + "|" + (f.hash + "|" + (NatToText(f.size) + "|" + (IntToText(f.seconds) + "|" + extra))))
            == Err(EXTRA + extra)
  {
    DecodeWellFormed(f, extra);
  }

  /** A size field that is not a number is refused before the date is
      looked at. */
  lemma BadSizeRejected(name: string, hash: string, sizeText: string, rest: string)
    requires '|' !in name && '|' !in hash && '|' !in sizeText
    requires ParseU64(sizeText).None?
    ensures Decode(name + "|" + (hash + "|" + (sizeText + "|" + rest))) == Err(BAD_SIZE + sizeText + " | stoull")
  {
    StepSize(name, hash, sizeText, rest);
    StepHash(name, hash, sizeText + "|" + rest);
    StepName(name, hash + "|" + (sizeText + "|" + rest));
  }

  /** A date field that is not a number is refused. */
  lemma BadDateRejected(f: Info, dateText: string, rest: string)
    requires f.Valid() && '|' !in f.name && '|' !in f.hash && '|' !in dateText
    requires ParseI64(dateText).None?
    ensures Decode(f.name + "|" + (f.hash + "|" + (NatToText(f.size) + "|" + (dateText + "|" + rest))))
            == Err(BAD_DATE + dateText + " | stol")
  {
    var s := NatToText(f.size);
    DigitsHaveNoBar(s);
    ParseU64RoundTrip(f.size);
    var r3 := dateText + "|" + rest;
    StepDate(f.name, f.hash, f.size, dateText, rest);
    StepSize(f.name, f.hash, s, r3);
    StepHash(f.name, f.hash, s + "|" + r3);
    StepName(f.name, f.hash + "|" + (s + "|" + r3));
  }

  // ------------------------------------------------ reading a stored file

  /** The last component of a path. */
  function BaseName(path: string): (r: string)
    ensures EndsWith(path, r) && '/' !in r
  {
    match LastIndexOf(path, '/')
    case None => path
    case Some(i) => path[i + 1..]
  }

  /** The path constructor: refuses a missing or irregular file; with the
      server scheme the name is the unmangled stem; the hash is the
      extension without its dot (an entry without one throws). */
  function FromPath(path: string, exists_: bool, regular: bool, size: nat, seconds: int, serverScheme: bool)
    : (r: Result<Info>)
    ensures !exists_ ==> r == Err(NO_FILE + path)
    ensures exists_ && !regular ==> r == Err(NOT_REGULAR + path)
    ensures r.Ok? ==> "." + r.value.hash == Storage.Extension(BaseName(path))
    ensures r.Ok? ==> r.value.name == if serverScheme then Storage.Unmangle(Storage.Stem(BaseName(path))) else BaseName(path)
    ensures r.Ok? ==> r.value.size == size && r.value.seconds == seconds
  {
    if !exists_ then Err(NO_FILE + path)
    else if !regular then Err(NOT_REGULAR + path)
    else
      var file := BaseName(path);
      var name := if serverScheme then Storage.Unmangle(Storage.Stem(file)) else file;
      var hash :- Storage.HashOf(file);
      Ok(Info(name, hash, size, seconds))
  }

  /** A stored upload is described with the name and hash it was sent
      with. */
  lemma StoredFileDescribed(name: string, hash: string, size: nat, seconds: int)
    requires name != "" && '<' !in name && '/' !in name && '.' !in hash && '/' !in hash
    ensures FromPath(Storage.STORAGE_PREFIX + Storage.StoredName(name, hash), true, true, size, seconds, true)
            == Ok(Info(name, hash, size, seconds))
  {
    var stored := Storage.StoredName(name, hash);
    var path := Storage.STORAGE_PREFIX + stored;
    assert '/' !in Storage.Mangle(name);
    assert '/' !in stored;
    assert path[7] == '/' && path[8..] == stored;
    assert LastIndexOf(path, '/') == Some(7);
    Storage.StoredNameParts(name, hash);
    Storage.MangleRoundTrip(name);
  }

  // ------------------------------------------------ the date string

  /** getCreationDateString_c: a non-empty cached string is returned as is;
      otherwise the formatted date (a parameter: strftime and the local time
      zone) is returned and cached. */
  function DateString(cache: string, formatted: Option<string>): (r: Result<(string, string)>)
    ensures cache != "" ==> r == Ok((cache, cache))
    ensures cache == "" && formatted.None? ==> r == Err(NO_DATE)
    ensures r.Ok? ==> r.value.0 == r.value.1
  {
    if cache != "" then Ok((cache, cache))
    else match formatted
      case None => Err(NO_DATE)
      case Some(s) => Ok((s, s))
  }

  /** Once a non-empty string is cached, later calls return it whatever the
      clock or the time zone now say. */
  lemma DateStringStable(cache: string, first: Option<string>, later: Option<string>)
    requires DateString(cache, first).Ok? && DateString(cache, first).value.1 != ""
    ensures DateString(DateString(cache, first).value.1, later) == DateString(cache, first)
  {
  }
}
