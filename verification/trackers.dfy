/** The two trackers of the server (src/server/RemovalTracker.cpp,
    src/server/FileTracker.cpp): a list of hashes kept under one key of a
    TOML table ("toRemove" or "array"). The table is reduced to that key's
    slot; reading and writing the file become a "saved" flag. */
module Trackers {
  import opened Wrappers

  datatype Item = Str(text: string) | NonString
  /** The tracked key: absent, present but not an array, or an array. */
  datatype Slot = Missing | NotArray | Array(items: seq<Item>)
  datatype Kind = Removal | Files

  const REMOVAL_NOT_ARRAY := "\"toRemove\" is not an array"
  const FILES_NOT_ARRAY := "FileTracker::remove: \"array\" is not an array"
  const FILES_ADD_NOT_ARRAY := "FileTracker::add: \"array\" exists but is not an array"
  const FILES_ADD_UNSAVED := "FileTracker::add: Cannot open file for writing"
  const REMOVAL_UNSAVED := "Could not open file for writing: "
  const FILES_REMOVE_UNSAVED := "FileTracker::remove: Could not open file for writing: "

  function Texts(items: seq<Item>): (r: set<string>)
    ensures forall x :: x in r <==> Str(x) in items
  {
    if |items| == 0 then {}
    else
      assert forall x :: Str(x) in items <==> Str(x) == items[0] || Str(x) in items[1..];
      (if items[0].Str? then {items[0].text} else {}) + Texts(items[1..])
  }

  lemma TextsAppend(a: seq<Item>, b: seq<Item>)
    ensures Texts(a + b) == Texts(a) + Texts(b)
  {
    assert forall x :: Str(x) in a + b <==> Str(x) in a || Str(x) in b;
  }

  /** No string occurs twice. */
  predicate Distinct(items: seq<Item>) {
    forall i, j :: 0 <= i < j < |items| && items[i].Str? ==> items[i] != items[j]
  }

  // ------------------------------------------------ construction

  /** The constructors as written open the file with std::ofstream before
      parsing it. Out mode truncates the file (with ate, as FileTracker
      opens it, too), so the table parsed is always empty: the removal
      tracker starts from an empty array and the file tracker from no array,
      whatever the file held (stored, and whether its table had no key). */
  function OpenAsWritten(kind: Kind, stored: Slot, tableEmpty: bool): (r: Slot)
    requires tableEmpty ==> stored.Missing?
    ensures List(kind, r) == Ok({})
  {
    Open(kind, Missing, true)
  }

  /** The constructors with the file only created when absent: the table
      parsed is the one in the file, and the removal tracker gives a table
      without keys an empty array. */
  function Open(kind: Kind, stored: Slot, tableEmpty: bool): (r: Slot)
    requires tableEmpty ==> stored.Missing?
    ensures kind == Removal && tableEmpty ==> r == Array([])
    ensures kind == Files || !tableEmpty ==> r == stored
  {
    if kind == Removal && tableEmpty then Array([]) else stored
  }

  /** As written, a restart forgets what was tracked: a hash added and saved
      is no longer listed once the tracker is constructed again. */
  lemma RestartForgets(kind: Kind, slot: Slot, x: string)
    requires !slot.NotArray?
    ensures AddOne(kind, slot, x, true).Ok?
    ensures x !in List(kind, OpenAsWritten(kind, AddOne(kind, slot, x, true).value.1, false)).value
  {
  }

  /** Without the truncation, a hash added and saved is still listed after
      the tracker is constructed again from its file. */
  lemma RestartKeeps(kind: Kind, slot: Slot, x: string)
    requires !slot.NotArray?
    ensures AddOne(kind, slot, x, true).Ok?
    ensures x in List(kind, Open(kind, AddOne(kind, slot, x, true).value.1, false)).value
  {
    AddThenListed(kind, slot, x, true);
  }

  /** The array add works on: the existing one, or a new empty one. */
  function ArrayFor(slot: Slot): seq<Item>
    requires !slot.NotArray?
  {
    if slot.Missing? then [] else slot.items
  }

  /** add(string): a hash already present leaves the array as it is; a new
      one is appended. RemovalTracker answers false where FileTracker throws
      (a key that is not an array, a file that cannot be written). */
  function AddOne(kind: Kind, slot: Slot, x: string, saved: bool): (r: Result<(bool, Slot)>)
    ensures slot.NotArray? ==> r == (if kind == Removal then Ok((false, slot)) else Err(FILES_ADD_NOT_ARRAY))
    ensures !slot.NotArray? && Str(x) in ArrayFor(slot) ==> r == Ok((true, Array(ArrayFor(slot))))
    ensures !slot.NotArray? && Str(x) !in ArrayFor(slot) && (saved || kind == Removal) ==>
              r == Ok((saved, Array(ArrayFor(slot) + [Str(x)])))
    ensures !slot.NotArray? && Str(x) !in ArrayFor(slot) && !saved && kind == Files ==> r == Err(FILES_ADD_UNSAVED)
  {
    if slot.NotArray? then (if kind == Removal then Ok((false, slot)) else Err(FILES_ADD_NOT_ARRAY))
    else
      var arr := ArrayFor(slot);
      if Str(x) in arr then Ok((true, Array(arr)))
      else if !saved && kind == Files then Err(FILES_ADD_UNSAVED)
      else Ok((saved, Array(arr + [Str(x)])))
  }

  /** The additions not yet in the array, in the order given. */
  function Missing_(items: seq<Item>, additions: seq<string>): (r: seq<string>)
    ensures forall x :: x in r <==> x in additions && Str(x) !in items
    ensures |r| <= |additions|
  {
    if |additions| == 0 then []
    else
      var rest := Missing_(items, additions[1..]);
      assert forall x :: x in additions <==> x == additions[0] || x in additions[1..];
      if Str(additions[0]) in items then rest else [additions[0]] + rest
  }

  function AsItems(xs: seq<string>): (r: seq<Item>)
    ensures |r| == |xs| && forall i :: 0 <= i < |xs| ==> r[i] == Str(xs[i])
  {
    seq(|xs|, i requires 0 <= i < |xs| => Str(xs[i]))
  }

  /** add(set): appends exactly the additions not already present, in the
      set's order (given as a list without repeats). */
  function AddAll(kind: Kind, slot: Slot, additions: seq<string>, saved: bool): (r: Result<(bool, Slot)>)
    ensures slot.NotArray? ==> r == (if kind == Removal then Ok((false, slot)) else Err(FILES_ADD_NOT_ARRAY))
    ensures !slot.NotArray? && !saved && kind == Files ==> r == Err(FILES_ADD_UNSAVED)
    ensures r.Ok? && !slot.NotArray? ==>
              r.value.0 == saved && r.value.1.Array? && |r.value.1.items| >= |ArrayFor(slot)|
              && r.value.1.items[..|ArrayFor(slot)|] == ArrayFor(slot)
              && Texts(r.value.1.items) == Texts(ArrayFor(slot)) + (set x | x in additions)
  {
    if slot.NotArray? then (if kind == Removal then Ok((false, slot)) else Err(FILES_ADD_NOT_ARRAY))
    else
      var arr := ArrayFor(slot);
      if !saved && kind == Files then Err(FILES_ADD_UNSAVED)
      else
        var added := arr + AsItems(Missing_(arr, additions));
        assert added[..|arr|] == arr;
        assert forall x :: Str(x) in added <==> Str(x) in arr || x in Missing_(arr, additions);
        Ok((saved, Array(added)))
  }

  /** Adding keeps an array without repeated hashes free of them. */
  lemma AddKeepsDistinct(kind: Kind, slot: Slot, additions: seq<string>, saved: bool)
    requires slot.Array? && Distinct(slot.items)
    requires forall i, j :: 0 <= i < j < |additions| ==> additions[i] != additions[j]
    requires AddAll(kind, slot, additions, saved).Ok?
    ensures Distinct(AddAll(kind, slot, additions, saved).value.1.items)
  {
    var arr := slot.items;
    var m := Missing_(arr, additions);
    MissingDistinct(arr, additions);
    var added := arr + AsItems(m);
    forall i, j | 0 <= i < j < |added| && added[i].Str? ensures added[i] != added[j] {
      if j >= |arr| && i < |arr| {
        assert added[j] == Str(m[j - |arr|]);
        assert m[j - |arr|] in m;
        assert added[i] in arr;
      }
    }
  }

  lemma MissingDistinct(items: seq<Item>, additions: seq<string>)
    requires forall i, j :: 0 <= i < j < |additions| ==> additions[i] != additions[j]
    ensures forall i, j :: 0 <= i < j < |Missing_(items, additions)| ==> Missing_(items, additions)[i] != Missing_(items, additions)[j]
  {
    if |additions| > 0 {
      MissingDistinct(items, additions[1..]);
      assert additions[0] !in additions[1..];
    }
  }

  /** After add(x) succeeds, x is listed. */
  lemma AddThenListed(kind: Kind, slot: Slot, x: string, saved: bool)
    requires AddOne(kind, slot, x, saved).Ok? && !slot.NotArray?
    ensures List(kind, AddOne(kind, slot, x, saved).value.1) == Ok(Texts(AddOne(kind, slot, x, saved).value.1.items))
    ensures x in List(kind, AddOne(kind, slot, x, saved).value.1).value
  {
  }

  /** list(): no key lists nothing, a key that is not an array throws,
      otherwise the string items. */
  function List(kind: Kind, slot: Slot): (r: Result<set<string>>)
    ensures slot.Missing? ==> r == Ok({})
    ensures slot.NotArray? ==> r.Err?
    ensures slot.Array? ==> r.Ok? && forall x :: x in r.value <==> Str(x) in slot.items
  {
    match slot
    case Missing => Ok({})
    case NotArray => Err(if kind == Removal then REMOVAL_NOT_ARRAY else FILES_NOT_ARRAY)
    case Array(items) => Ok(Texts(items))
  }

  // ------------------------------------------------ remove

  predicate Matches(item: Item, drop: set<string>) {
    item.Str? && item.text in drop
  }

  /** The intended removal: the items not dropped, in their order. */
  function Keep(items: seq<Item>, drop: set<string>): (r: seq<Item>)
    ensures |r| <= |items|
    ensures forall i :: 0 <= i < |r| ==> !Matches(r[i], drop)
  {
    if |items| == 0 then []
    else
      var rest := Keep(items[1..], drop);
      if Matches(items[0], drop) then rest else [items[0]] + rest
  }

  /** Keeping lists exactly the hashes not dropped. */
  lemma {:induction false} KeepTexts(items: seq<Item>, drop: set<string>)
    ensures Texts(Keep(items, drop)) == Texts(items) - drop
  {
    if |items| > 0 {
      KeepTexts(items[1..], drop);
      assert items == [items[0]] + items[1..];
      TextsAppend([items[0]], items[1..]);
      if !Matches(items[0], drop) {
        TextsAppend([items[0]], Keep(items[1..], drop));
      }
    }
  }

  /** Keeping distributes over concatenation, so relative order survives. */
  lemma {:induction false} KeepAppend(a: seq<Item>, b: seq<Item>, drop: set<string>)
    ensures Keep(a + b, drop) == Keep(a, drop) + Keep(b, drop)
  {
    if |a| > 0 {
      assert (a + b)[1..] == a[1..] + b;
      KeepAppend(a[1..], b, drop);
    } else {
      assert a + b == b;
    }
  }

  lemma KeepNothing(items: seq<Item>, drop: set<string>)
    requires forall i :: 0 <= i < |items| ==> !Matches(items[i], drop)
    ensures Keep(items, drop) == items
  {
  }

  /** The positions the source collects: every string item in `drop`. */
  function Positions(items: seq<Item>, drop: set<string>, from: nat): (r: seq<nat>)
    requires from <= |items|
    ensures forall k :: k in r ==> from <= k < |items| && Matches(items[k], drop)
    decreases |items| - from
  {
    if from == |items| then []
    else (if Matches(items[from], drop) then [from] else []) + Positions(items, drop, from + 1)
  }

  /** Then erases them one after another; each erase shifts the items after
      it, but the saved positions are not adjusted. */
  function EraseEach(items: seq<Item>, positions: seq<nat>): (r: Option<seq<Item>>)
    ensures r.Some? ==> |r.value| == |items| - |positions|
    ensures r.None? <==> exists i :: 0 <= i < |positions| && positions[i] >= |items| - i
    decreases |positions|
  {
    if |positions| == 0 then Some(items)
    else if positions[0] >= |items| then None
    else EraseEach(items[..positions[0]] + items[positions[0] + 1..], positions[1..])
  }

  /** remove(set) and remove(string) as written, on the array's items; None
      where the source's behaviour is undefined (a non-string item read as a
      string, an erase past the end). */
  function RemoveAsWritten(items: seq<Item>, drop: set<string>): (r: Option<seq<Item>>)
    ensures (exists i :: 0 <= i < |items| && items[i].NonString?) ==> r.None?
  {
    if exists i :: 0 <= i < |items| && items[i].NonString? then None
    else EraseEach(items, Positions(items, drop, 0))
  }

  lemma PositionsNone(items: seq<Item>, drop: set<string>, from: nat)
    requires from <= |items|
    requires forall i :: from <= i < |items| ==> !Matches(items[i], drop)
    ensures Positions(items, drop, from) == []
    decreases |items| - from
  {
    if from < |items| {
      PositionsNone(items, drop, from + 1);
    }
  }

  lemma {:induction false} PositionsOne(items: seq<Item>, drop: set<string>, from: nat, k: nat)
    requires from <= k < |items| && Matches(items[k], drop)
    requires forall i :: from <= i < |items| && i != k ==> !Matches(items[i], drop)
    ensures Positions(items, drop, from) == [k]
    decreases |items| - from
  {
    if from < k {
      PositionsOne(items, drop, from + 1, k);
    } else {
      PositionsNone(items, drop, from + 1);
    }
  }

  /** For one hash in an array without repeats (the only kind add builds),
      the erase loop removes exactly the right item. */
  lemma RemoveOneAgrees(items: seq<Item>, x: string)
    requires Distinct(items)
    requires forall i :: 0 <= i < |items| ==> items[i].Str?
    ensures RemoveAsWritten(items, {x}) == Some(Keep(items, {x}))
  {
    AllStrings(items, {x});
    if Str(x) in items {
      var k :| 0 <= k < |items| && items[k] == Str(x);
      OnlyMatch(items, x, k);
      PositionsOne(items, {x}, 0, k);
      EraseOne(items, k);
      KeepAround(items, x, k);
    } else {
      PositionsNone(items, {x}, 0);
      KeepNothing(items, {x});
    }
  }

  lemma AllStrings(items: seq<Item>, drop: set<string>)
    requires forall i :: 0 <= i < |items| ==> items[i].Str?
    ensures RemoveAsWritten(items, drop) == EraseEach(items, Positions(items, drop, 0))
  {
    assert !exists i :: 0 <= i < |items| && items[i].NonString?;
  }

  lemma EraseOne(items: seq<Item>, k: nat)
    requires k < |items|
    ensures EraseEach(items, [k]) == Some(items[..k] + items[k + 1..])
  {
    var once := items[..k] + items[k + 1..];
    assert [k][0] == k;
    assert [k][1..] == [];
    assert EraseEach(once, []) == Some(once);
  }

  lemma OnlyMatch(items: seq<Item>, x: string, k: nat)
    requires Distinct(items) && k < |items| && items[k] == Str(x)
    ensures forall i :: 0 <= i < |items| && i != k ==> !Matches(items[i], {x})
  {
    forall i | 0 <= i < |items| && i != k ensures !Matches(items[i], {x}) {
      if i < k { assert items[i] != items[k]; } else { assert items[k] != items[i]; }
    }
  }

  lemma KeepAround(items: seq<Item>, x: string, k: nat)
    requires k < |items| && items[k] == Str(x)
    requires forall i :: 0 <= i < |items| && i != k ==> !Matches(items[i], {x})
    ensures Keep(items, {x}) == items[..k] + items[k + 1..]
  {
    KeepBefore(items, x, k);
    KeepAfter(items, x, k);
    assert items == items[..k] + [items[k]] + items[k + 1..];
    KeepSplit(items, x, k);
  }

  lemma KeepBefore(items: seq<Item>, x: string, k: nat)
    requires k < |items|
    requires forall i :: 0 <= i < |items| && i != k ==> !Matches(items[i], {x})
    ensures Keep(items[..k], {x}) == items[..k]
  {
    var before := items[..k];
    forall i | 0 <= i < |before| ensures !Matches(before[i], {x}) {
      assert before[i] == items[i];
    }
    KeepNothing(before, {x});
  }

  lemma KeepAfter(items: seq<Item>, x: string, k: nat)
    requires k < |items|
    requires forall i :: 0 <= i < |items| && i != k ==> !Matches(items[i], {x})
    ensures Keep(items[k + 1..], {x}) == items[k + 1..]
  {
    var after := items[k + 1..];
    forall i | 0 <= i < |after| ensures !Matches(after[i], {x}) {
      assert after[i] == items[k + 1 + i];
    }
    KeepNothing(after, {x});
  }

  lemma KeepSplit(items: seq<Item>, x: string, k: nat)
    requires k < |items| && items[k] == Str(x)
    ensures Keep(items[..k] + [items[k]] + items[k + 1..], {x}) == Keep(items[..k], {x}) + Keep(items[k + 1..], {x})
  {
    var before := items[..k];
    var after := items[k + 1..];
    KeepAppend(before + [items[k]], after, {x});
    KeepAppend(before, [items[k]], {x});
    assert Keep([items[k]], {x}) == [];
  }

  /** With two hashes to drop the shifted second position hits the wrong
      item: [a, b, c, d] without {a, c} becomes [b, c] instead of [b, d]. */
  lemma RemoveTwoMisfires(a: string, b: string, c: string, d: string)
    requires b != a && b != c && d != a && d != c
    ensures RemoveAsWritten([Str(a), Str(b), Str(c), Str(d)], {a, c}) == Some([Str(b), Str(c)])
    ensures Keep([Str(a), Str(b), Str(c), Str(d)], {a, c}) == [Str(b), Str(d)]
  {
    var items := [Str(a), Str(b), Str(c), Str(d)];
    MisfirePositions(a, b, c, d);
    MisfireErase(items);
    MisfireKeep(a, b, c, d);
  }

  lemma MisfirePositions(a: string, b: string, c: string, d: string)
    requires b != a && b != c && d != a && d != c
    ensures RemoveAsWritten([Str(a), Str(b), Str(c), Str(d)], {a, c})
            == EraseEach([Str(a), Str(b), Str(c), Str(d)], [0, 2])
  {
    var drop := {a, c};
    var items := [Str(a), Str(b), Str(c), Str(d)];
    assert Positions(items, drop, 4) == [];
    assert Positions(items, drop, 3) == [];
    assert Positions(items, drop, 2) == [2];
    assert Positions(items, drop, 1) == [2];
    assert Positions(items, drop, 0) == [0, 2];
    assert !exists i :: 0 <= i < |items| && items[i].NonString?;
  }

  /** Erasing position 0 and then position 2 of four items. */
  lemma MisfireErase(items: seq<Item>)
    requires |items| == 4
    ensures EraseEach(items, [0, 2]) == Some([items[1], items[2]])
  {
    var once := items[..0] + items[1..];
    assert once == [items[1], items[2], items[3]];
    assert once[..2] + once[3..] == [items[1], items[2]];
    assert EraseEach(once, [2]) == Some([items[1], items[2]]);
  }

  lemma MisfireKeep(a: string, b: string, c: string, d: string)
    requires b != a && b != c && d != a && d != c
    ensures Keep([Str(a), Str(b), Str(c), Str(d)], {a, c}) == [Str(b), Str(d)]
  {
    var drop := {a, c};
    var items := [Str(a), Str(b), Str(c), Str(d)];
    assert Keep(items[3..], drop) == [Str(d)];
    assert Keep(items[2..], drop) == [Str(d)];
    assert Keep(items[1..], drop) == [Str(b), Str(d)];
  }

  /** Corrected remove: drops every listed hash, keeps the rest in order; a
      key that is not an array is left alone; an unsaved file throws. */
  function Remove(kind: Kind, slot: Slot, drop: set<string>, saved: bool, path: string): (r: Result<Slot>)
    ensures !saved ==> r.Err?
    ensures saved && !slot.Array? ==> r == Ok(slot)
    ensures saved && slot.Array? ==>
              (r.Ok? && r.value.Array? && Texts(r.value.items) == Texts(slot.items) - drop
               && r.value.items == Keep(slot.items, drop))
  {
    if !saved then Err((if kind == Removal then REMOVAL_UNSAVED else FILES_REMOVE_UNSAVED) + path)
    else match slot
      case Array(items) =>
        KeepTexts(items, drop);
        Ok(Array(Keep(items, drop)))
      case _ => Ok(slot)
  }

  /** Removing what was just added gives back the array as it was. */
  lemma AddThenRemove(kind: Kind, items: seq<Item>, x: string, path: string)
    requires Str(x) !in items
    ensures AddOne(kind, Array(items), x, true).Ok?
    ensures Remove(kind, AddOne(kind, Array(items), x, true).value.1, {x}, true, path) == Ok(Array(items))
  {
    var added := items + [Str(x)];
    assert AddOne(kind, Array(items), x, true).value.1 == Array(added);
    KeepAdded(items, x);
  }

  lemma KeepAdded(items: seq<Item>, x: string)
    requires Str(x) !in items
    ensures Keep(items + [Str(x)], {x}) == items
  {
    KeepAppend(items, [Str(x)], {x});
    assert Keep([Str(x)], {x}) == [];
    forall i | 0 <= i < |items| ensures !Matches(items[i], {x}) {
      assert items[i] in items;
    }
    KeepNothing(items, {x});
  }
}
