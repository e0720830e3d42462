/** Sentinel framing of the wire protocol: every message is followed by a
    fixed sentinel, and a receiver splits the accumulated text on every
    occurrence of it. The client connections split with a moving start
    position (src/shared/Connection.cpp:163-178, src/Connection.cpp:147-162);
    the server connection finds and erases from the front
    (server/ConnectionServer.cpp:105-118). */
module Framing {
  import opened Wrappers
  import opened Text
  import opened Hex

  /** The sentinel of the older client (src/Connection.h:27). */
  const LEGACY_CLIENT_END: string := "::--///-$$$"
  /** The sentinel of the server connections (server/ConnectionServer.hpp:9,
      src/server/ConnectionServer.hpp:8). */
  const SERVER_END: string := "::--///--$$$"

  /** The wire text of messages sent back to back. */
  function Frame(msgs: seq<string>, end: string): (text: string)
    ensures |msgs| > 0 ==> EndsWith(text, end)
  {
    if |msgs| == 0 then "" else msgs[0] + end + Frame(msgs[1..], end)
  }

  /** The server's split: find the sentinel from the front, keep the text
      before it, erase through it, repeat. Trailing text with no sentinel is
      dropped. */
  function SplitErase(text: string, end: string): seq<string>
    requires |end| > 0
    decreases |text|
  {
    match FindFrom(text, end, 0)
      case None => []
      case Some(p) => [text[..p]] + SplitErase(text[p + |end|..], end)
  }

  /** The clients' split: find the sentinel from sPos, keep the text between,
      continue after it. */
  function SplitScan(text: string, end: string, sPos: nat): seq<string>
    requires |end| > 0 && sPos <= |text|
    decreases |text| - sPos
  {
    match FindFrom(text, end, sPos)
      case None => []
      case Some(e) => [text[sPos..e]] + SplitScan(text, end, e + |end|)
  }

  /** The message handed to the caller and the messages queued behind it; the
      first is empty when no sentinel was found (tmpMessage's default). */
  function FirstAndRest(segments: seq<string>): (string, seq<string>)
  {
    if |segments| == 0 then ("", []) else (segments[0], segments[1..])
  }

  /** No occurrence of the sentinel starts inside m, even one that runs on
      into the sentinel that follows m. */
  predicate Clean(m: string, end: string) {
    forall i :: 0 <= i < |m| ==> !OccursAt(m + end, end, i)
  }

  /** No proper prefix of p is also a suffix of p. */
  predicate Unbordered(p: string) {
    forall k :: 0 < k < |p| ==> p[..k] != p[|p| - k..]
  }

  lemma OccursInSuffix(text: string, p: string, s: nat, j: nat)
    requires s <= |text|
    ensures OccursAt(text[s..], p, j) <==> OccursAt(text, p, s + j)
  {
    if s + j + |p| <= |text| {
      assert text[s..][j..j + |p|] == text[s + j..s + j + |p|];
    }
  }

  /** Searching from s equals searching the suffix that starts at s. */
  lemma FindInSuffix(text: string, p: string, s: nat)
    requires s <= |text|
    ensures FindFrom(text[s..], p, 0).None? ==> FindFrom(text, p, s).None?
    ensures FindFrom(text[s..], p, 0).Some? ==> FindFrom(text, p, s) == Some(s + FindFrom(text[s..], p, 0).value)
  {
    forall j: nat
      ensures OccursAt(text[s..], p, j) <==> OccursAt(text, p, s + j)
    {
      OccursInSuffix(text, p, s, j);
    }
    match FindFrom(text[s..], p, 0)
    case None =>
      forall e: nat | s <= e
        ensures !OccursAt(text, p, e)
      {
        OccursInSuffix(text, p, s, e - s);
      }
      FindFromNone(text, p, s);
    case Some(j) =>
      forall e: nat | s <= e < s + j
        ensures !OccursAt(text, p, e)
      {
        OccursInSuffix(text, p, s, e - s);
      }
      FindFromIs(text, p, s, s + j);
  }

  /** Both split algorithms yield the same segments for every text. */
  lemma {:induction false} ScanEqualsErase(text: string, end: string, sPos: nat)
    requires |end| > 0 && sPos <= |text|
    ensures SplitScan(text, end, sPos) == SplitErase(text[sPos..], end)
    decreases |text| - sPos
  {
    FindInSuffix(text, end, sPos);
    match FindFrom(text[sPos..], end, 0)
    case None =>
      BothEmpty(text, end, sPos);
    case Some(j) =>
      var next := sPos + j + |end|;
      calc {
        SplitScan(text, end, sPos);
        == { ScanFirst(text, end, sPos, j); }
        [text[sPos..sPos + j]] + SplitScan(text, end, next);
        == { ScanEqualsErase(text, end, next); }
        [text[sPos..sPos + j]] + SplitErase(text[next..], end);
        == { EraseFirst(text, end, sPos, j); }
        SplitErase(text[sPos..], end);
      }
  }

  lemma BothEmpty(text: string, end: string, sPos: nat)
    requires |end| > 0 && sPos <= |text|
    requires FindFrom(text, end, sPos).None? && FindFrom(text[sPos..], end, 0).None?
    ensures SplitScan(text, end, sPos) == [] && SplitErase(text[sPos..], end) == []
  {
  }

  /** Both splits take off the same first segment and go on after it. */
  lemma ScanFirst(text: string, end: string, sPos: nat, j: nat)
    requires |end| > 0 && sPos <= |text|
    requires FindFrom(text, end, sPos) == Some(sPos + j)
    ensures sPos + j + |end| <= |text|
    ensures SplitScan(text, end, sPos) == [text[sPos..sPos + j]] + SplitScan(text, end, sPos + j + |end|)
  {
    ScanStep(text, end, sPos, sPos + j);
  }

  lemma EraseFirst(text: string, end: string, sPos: nat, j: nat)
    requires |end| > 0 && sPos <= |text|
    requires FindFrom(text[sPos..], end, 0) == Some(j)
    ensures sPos + j + |end| <= |text|
    ensures SplitErase(text[sPos..], end) == [text[sPos..sPos + j]] + SplitErase(text[sPos + j + |end|..], end)
  {
    EraseStep(text[sPos..], end, j);
    SuffixSlices(text, sPos, j, |end|);
  }

  lemma ScanStep(text: string, end: string, sPos: nat, e: nat)
    requires |end| > 0 && sPos <= |text| && FindFrom(text, end, sPos) == Some(e)
    ensures e + |end| <= |text|
    ensures SplitScan(text, end, sPos) == [text[sPos..e]] + SplitScan(text, end, e + |end|)
  {
  }

  lemma EraseStep(t: string, end: string, j: nat)
    requires |end| > 0 && FindFrom(t, end, 0) == Some(j)
    ensures j + |end| <= |t|
    ensures SplitErase(t, end) == [t[..j]] + SplitErase(t[j + |end|..], end)
  {
    assert OccursAt(t, end, j);
  }

  lemma SuffixSlices(text: string, s: nat, j: nat, n: nat)
    requires s + j + n <= |text|
    ensures text[s..][..j] == text[s..s + j]
    ensures text[s..][j + n..] == text[s + j + n..]
  {
  }

  /** One clean message followed by its sentinel is split off whole. */
  lemma SplitEraseStep(m: string, end: string, rest: string)
    requires |end| > 0 && Clean(m, end)
    ensures SplitErase(m + end + rest, end) == [m] + SplitErase(rest, end)
  {
    var text := m + end + rest;
    assert text == (m + end) + rest;
    forall j: nat | j < |m|
      ensures !OccursAt(text, end, j)
    {
      OccursInPrefix(m + end, rest, end, j);
    }
    assert text[|m|..|m| + |end|] == end;
    FindFromIs(text, end, 0, |m|);
    assert text[..|m|] == m;
    assert text[|m| + |end|..] == rest;
  }

  /** Framing round-trip: splitting the frames of clean messages returns the
      messages, in order. */
  lemma {:induction false} FrameRoundTrip(msgs: seq<string>, end: string)
    requires |end| > 0
    requires forall i :: 0 <= i < |msgs| ==> Clean(msgs[i], end)
    ensures SplitScan(Frame(msgs, end), end, 0) == msgs
    ensures SplitErase(Frame(msgs, end), end) == msgs
  {
    var text := Frame(msgs, end);
    ScanEqualsErase(text, end, 0);
    assert text[0..] == text;
    if |msgs| > 0 {
      SplitEraseStep(msgs[0], end, Frame(msgs[1..], end));
      FrameRoundTrip(msgs[1..], end);
    }
  }

  /** An occurrence that straddles the end of m exposes a border of the
      sentinel. */
  lemma StraddleBorder(m: string, end: string, i: nat)
    requires i < |m| < i + |end|
    ensures OccursAt(m + end, end, i) ==>
      end[..|end| - (|m| - i)] == end[|m| - i..]
  {
    var k := |m| - i;
    if OccursAt(m + end, end, i) {
      forall t | 0 <= t < |end| - k
        ensures end[t] == end[k + t]
      {
        assert (m + end)[i..i + |end|][k + t] == end[k + t];
        assert (m + end)[i + k + t] == end[t];
      }
    }
  }

  /** A message that does not contain an unbordered sentinel is clean. */
  lemma UnborderedClean(m: string, end: string)
    requires Unbordered(end) && !Contains(m, end)
    ensures Clean(m, end)
  {
    forall i | 0 <= i < |m|
      ensures !OccursAt(m + end, end, i)
    {
      if i + |end| <= |m| {
        OccursInPrefix(m, end, end, i);
      } else {
        var b := |end| - (|m| - i);
        StraddleBorder(m, end, i);
        assert end[..b] != end[|end| - b..];
      }
    }
  }

  /** Hex text is clean for any sentinel that starts with a non-hex
      character. */
  lemma HexClean(m: string, end: string)
    requires AllHex(m) && |end| > 0 && !IsHexChar(end[0])
    ensures Clean(m, end)
  {
    forall i | 0 <= i < |m|
      ensures !OccursAt(m + end, end, i)
    {
      assert (m + end)[i..i + |end|][0] == m[i];
    }
  }

  /** The frame of a list is the frames of its two halves back to back. */
  lemma {:induction false} FrameAppend(msgs: seq<string>, j: nat, end: string)
    requires j <= |msgs|
    ensures Frame(msgs, end) == Frame(msgs[..j], end) + Frame(msgs[j..], end)
    decreases j
  {
    if j == 0 {
      assert msgs[..0] == [] && msgs[0..] == msgs;
    } else {
      FrameAppend(msgs[1..], j - 1, end);
      assert msgs[..j][1..] == msgs[1..][..j - 1];
      assert msgs[1..][j - 1..] == msgs[j..];
    }
  }

  /** Two occurrences of a sentinel that overlap show it has a border. */
  lemma OverlapBorder(end: string, f: string, a: nat, s: nat)
    ensures a < s < a + |end| && OccursAt(f, end, a) && OccursAt(f, end, s) ==> !Unbordered(end)
  {
    if a < s < a + |end| && OccursAt(f, end, a) && OccursAt(f, end, s) {
      var k := a + |end| - s;
      assert end[|end| - k..] == f[s..a + |end|] == end[..k];
    }
  }

  /** An occurrence of the sentinel that starts inside m, in m + end + r,
      already lies in m + end. */
  lemma EarlyOccurrence(m: string, end: string, r: string, s: nat)
    ensures s < |m| && OccursAt(m + end + r, end, s) ==> OccursAt(m + end, end, s)
  {
    if s < |m| && OccursAt(m + end + r, end, s) {
      assert (m + end)[s..s + |end|] == (m + end + r)[s..s + |end|];
    }
  }

  lemma {:induction false} FrameBoundary(msgs: seq<string>, end: string, p: string) returns (j: nat)
    requires |end| > 0 && Unbordered(end)
    requires forall i :: 0 <= i < |msgs| ==> Clean(msgs[i], end)
    requires StartsWith(Frame(msgs, end), p) && EndsWith(p, end)
    ensures 0 < j <= |msgs| && p == Frame(msgs[..j], end)
    decreases |msgs|
  {
    var f := Frame(msgs, end);
    var s := |p| - |end|;
    LastSentinel(f, p, end);
    var m := msgs[0];
    var r := Frame(msgs[1..], end);
    FirstSentinel(m, end, r);
    EarlyOccurrence(m, end, r, s);
    OverlapBorder(end, f, |m|, s);
    if s == |m| {
      j := 1;
      PeelOnly(m, end, r, p);
      assert msgs[..1] == [m];
    } else {
      var q := PeelFirst(m, end, r, p);
      var j' := FrameBoundary(msgs[1..], end, q);
      j := j' + 1;
      assert msgs[..j][1..] == msgs[1..][..j'];
      assert msgs[..j][0] == m;
    }
  }

  /** The sentinel that ends a prefix p of f occurs in f where p's last one starts. */
  lemma LastSentinel(f: string, p: string, end: string)
    requires StartsWith(f, p) && EndsWith(p, end)
    ensures OccursAt(f, end, |p| - |end|)
  {
    assert f[..|p|] == p;
    assert f[|p| - |end|..|p|] == p[|p| - |end|..];
  }

  /** In m + end + r the sentinel occurs right after m. */
  lemma FirstSentinel(m: string, end: string, r: string)
    ensures OccursAt(m + end + r, end, |m|)
  {
    assert (m + end + r)[|m|..|m| + |end|] == end;
  }

  /** A prefix of m + end + r ending where the first sentinel ends is m + end. */
  lemma PeelOnly(m: string, end: string, r: string, p: string)
    requires StartsWith(m + end + r, p) && |p| == |m| + |end|
    ensures p == m + end
  {
    assert p == (m + end + r)[..|m| + |end|];
  }

  /** A longer prefix of m + end + r that ends with the sentinel is m + end
      followed by a prefix of r that ends with the sentinel. */
  lemma PeelFirst(m: string, end: string, r: string, p: string) returns (q: string)
    requires StartsWith(m + end + r, p) && EndsWith(p, end) && |p| - |end| >= |m| + |end|
    ensures p == m + end + q && StartsWith(r, q) && EndsWith(q, end)
  {
    var f := m + end + r;
    q := p[|m| + |end|..];
    assert p == f[..|p|];
    assert p == m + end + q;
    assert r[..|q|] == f[|m| + |end|..|p|] == q;
    assert q[|q| - |end|..] == p[|p| - |end|..];
  }

  /** Both concrete sentinels are unbordered and start with ':'. */
  lemma SentinelsAreSafe()
    ensures Unbordered(LEGACY_CLIENT_END) && !IsHexChar(LEGACY_CLIENT_END[0])
    ensures Unbordered(SERVER_END) && !IsHexChar(SERVER_END[0])
  {
    forall k | 0 < k < |LEGACY_CLIENT_END|
      ensures LEGACY_CLIENT_END[..k] != LEGACY_CLIENT_END[|LEGACY_CLIENT_END| - k..]
    {
      var p := LEGACY_CLIENT_END;
      if k == |p| - 1 {
        assert p[..k][1] != p[|p| - k..][1];
      } else {
        assert p[..k][0] != p[|p| - k..][0];
      }
    }
    forall k | 0 < k < |SERVER_END|
      ensures SERVER_END[..k] != SERVER_END[|SERVER_END| - k..]
    {
      var p := SERVER_END;
      if k == |p| - 1 {
        assert p[..k][1] != p[|p| - k..][1];
      } else {
        assert p[..k][0] != p[|p| - k..][0];
      }
    }
  }
}
