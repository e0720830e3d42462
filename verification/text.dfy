/** Character-string helpers with the semantics of the std::string members the
    source relies on: find, find_first_of, find_last_of, starts_with,
    ends_with, contains, substr and std::ranges::replace. */
module Text {
  import opened Wrappers

  predicate StartsWith(s: string, p: string) {
    |p| <= |s| && s[..|p|] == p
  }

  predicate EndsWith(s: string, p: string) {
    |p| <= |s| && s[|s| - |p|..] == p
  }

  lemma EndsWithSuffix(s: string, p: string)
    ensures EndsWith(s + p, p)
  {
    assert (s + p)[|s + p| - |p|..] == p;
  }

  /** p occurs in s starting at index i. */
  predicate OccursAt(s: string, p: string, i: nat) {
    i + |p| <= |s| && s[i..i + |p|] == p
  }

  /** std::string::find(p, from): the first occurrence of p at or after from. */
  function FindFrom(s: string, p: string, from: nat): (r: Option<nat>)
    ensures r.Some? ==> from <= r.value && OccursAt(s, p, r.value)
    ensures r.Some? ==> forall j :: from <= j < r.value ==> !OccursAt(s, p, j)
    ensures r.None? ==> forall j :: from <= j ==> !OccursAt(s, p, j)
    decreases |s| - from
  {
    if from + |p| > |s| then None
    else if s[from..from + |p|] == p then Some(from)
    else FindFrom(s, p, from + 1)
  }

  /** The first occurrence at or after from determines find's result. */
  lemma {:induction false} FindFromIs(s: string, p: string, from: nat, e: nat)
    requires from <= e && OccursAt(s, p, e)
    requires forall j :: from <= j < e ==> !OccursAt(s, p, j)
    ensures FindFrom(s, p, from) == Some(e)
    decreases e - from
  {
    if from < e {
      FindFromIs(s, p, from + 1, e);
    }
  }

  /** With no occurrence at or after from, find reports none. */
  lemma {:induction false} FindFromNone(s: string, p: string, from: nat)
    requires forall j :: from <= j ==> !OccursAt(s, p, j)
    ensures FindFrom(s, p, from).None?
    decreases |s| - from
  {
    if from + |p| <= |s| {
      assert !OccursAt(s, p, from);
      FindFromNone(s, p, from + 1);
    }
  }

  /** An occurrence that ends inside a is unaffected by what follows a. */
  lemma OccursInPrefix(a: string, b: string, p: string, j: nat)
    requires j + |p| <= |a|
    ensures OccursAt(a + b, p, j) <==> OccursAt(a, p, j)
  {
    assert (a + b)[j..j + |p|] == a[j..j + |p|];
  }

  /** std::string::contains(p). */
  predicate Contains(s: string, p: string) {
    FindFrom(s, p, 0).Some?
  }

  lemma ContainsWitness(s: string, p: string, i: nat)
    requires OccursAt(s, p, i)
    ensures Contains(s, p)
  {
  }

  /** Text that contains p is at least as long as p. */
  lemma ContainsLength(s: string, p: string)
    requires Contains(s, p)
    ensures |p| <= |s|
  {
    assert OccursAt(s, p, FindFrom(s, p, 0).value);
  }

  /** std::string::find(c) / find_first_of(c): the first index holding c. */
  function FirstIndexOf(s: string, c: char): (r: Option<nat>)
    ensures r.Some? ==> r.value < |s| && s[r.value] == c && c !in s[..r.value]
    ensures r.None? ==> c !in s
  {
    if |s| == 0 then None
    else if s[0] == c then Some(0)
    else match FirstIndexOf(s[1..], c)
      case None => None
      case Some(i) => assert s[1..][..i] == s[1..i + 1]; Some(i + 1)
  }

  /** std::string::find_last_of(c): the last index holding c. */
  function LastIndexOf(s: string, c: char): (r: Option<nat>)
    ensures r.Some? ==> r.value < |s| && s[r.value] == c && c !in s[r.value + 1..]
    ensures r.None? ==> c !in s
  {
    if |s| == 0 then None
    else if s[|s| - 1] == c then Some(|s| - 1)
    else match LastIndexOf(s[..|s| - 1], c)
      case None => None
      case Some(i) => Some(i)
  }

  /** std::ranges::replace(s, from, to). */
  function Replace(s: string, from: char, to: char): (r: string)
    ensures |r| == |s|
    ensures forall i :: 0 <= i < |s| ==> r[i] == (if s[i] == from then to else s[i])
  {
    seq(|s|, i requires 0 <= i < |s| => if s[i] == from then to else s[i])
  }

  /** Replacing a by b and then b by a restores any text that held no b. */
  lemma ReplaceInverse(s: string, a: char, b: char)
    requires b !in s
    ensures Replace(Replace(s, a, b), b, a) == s
  {
  }

  /** std::string(n, c). */
  function Repeat(c: char, n: nat): (r: string)
    ensures |r| == n
    ensures forall i :: 0 <= i < n ==> r[i] == c
  {
    seq(n, _ => c)
  }

  /** A char buffer read as a C string (std::string += char*): the text
      before the first NUL. */
  function CString(s: string): (r: string)
    ensures StartsWith(s, r) && '\0' !in r
    ensures '\0' !in s ==> r == s
  {
    match FirstIndexOf(s, '\0')
      case None => s
      case Some(i) => s[..i]
  }

  /** The concatenation of a sequence of strings. */
  function Concat(parts: seq<string>): string
  {
    if |parts| == 0 then "" else parts[0] + Concat(parts[1..])
  }

  lemma ConcatAppend(a: seq<string>, b: seq<string>)
    ensures Concat(a + b) == Concat(a) + Concat(b)
  {
    if |a| == 0 {
      assert a + b == b;
    } else {
      assert (a + b)[1..] == a[1..] + b;
      ConcatAppend(a[1..], b);
    }
  }

  lemma ConcatPrefixStep(chunks: seq<string>, i: nat)
    requires 0 < |chunks| && i < |chunks|
    ensures Concat(chunks[..i + 1]) == chunks[0] + Concat(chunks[1..][..i])
  {
    assert chunks[..i + 1][1..] == chunks[1..][..i];
  }

  function Min(a: int, b: int): int {
    if a <= b then a else b
  }

  function Max(a: int, b: int): int {
    if a >= b then a else b
  }
}
