/**
 * The residents roster page: the combobox's option filter and the de-duplicated
 * option lists built from the residents.
 */
module Roster {
  import opened Text

  datatype Resident = Resident(id: int, name: string, room: string, faculty: string, course: int, group: string)

  /* ---------------------------- combobox filter ---------------------------- */

  /** The item's lower-cased text contains the query somewhere. */
  predicate Matches(item: string, q: string): (b: bool)
    ensures b <==> exists i :: OccursAt(Lower(item), q, i)
  {
    ContainsAt(Lower(item), q);
    Contains(Lower(item), q)
  }

  /** The items that match the query, each occurrence kept, in list order. */
  function KeepMatching(items: seq<string>, q: string): (r: seq<string>)
    ensures |r| <= |items|
    ensures forall x :: x in r <==> x in items && Matches(x, q)
    ensures forall x :: multiset(r)[x] == if Matches(x, q) then multiset(items)[x] else 0
  {
    if items == [] then []
    else
      assert items == [items[0]] + items[1..];
      if Matches(items[0], q) then [items[0]] + KeepMatching(items[1..], q)
      else KeepMatching(items[1..], q)
  }

  /** `a` is `b` with some elements left out, the rest in their original order. */
  predicate IsSubsequence(a: seq<string>, b: seq<string>)
    decreases |b|
  {
    if a == [] then true
    else if b == [] then false
    else if a[0] == b[0] then IsSubsequence(a[1..], b[1..])
    else IsSubsequence(a, b[1..])
  }

  lemma {:induction false} KeepMatchingIsSubsequence(items: seq<string>, q: string)
    ensures IsSubsequence(KeepMatching(items, q), items)
    decreases |items|
  {
    if items != [] {
      KeepMatchingIsSubsequence(items[1..], q);
      var rest := KeepMatching(items[1..], q);
      if Matches(items[0], q) {
        assert ([items[0]] + rest)[1..] == rest;
      } else if rest != [] {
        assert rest[0] in rest;
      }
    }
  }

  /** `onInputValueChange`: lower-case and trim the input; keep everything for a blank query. */
  function FilterOptions(items: seq<string>, input: string): (r: seq<string>)
    ensures |r| <= |items|
    ensures Trim(Lower(input)) == [] ==> r == items
    ensures Trim(Lower(input)) != [] ==>
              forall x :: x in r <==> x in items && Matches(x, Trim(Lower(input)))
    ensures Trim(Lower(input)) != [] ==>
              forall x :: multiset(r)[x] == if Matches(x, Trim(Lower(input))) then multiset(items)[x] else 0
  {
    var q := Trim(Lower(input));
    if q == [] then items else KeepMatching(items, q)
  }

  /** The filter never adds or reorders items. */
  lemma FilterIsSubsequence(items: seq<string>, input: string)
    ensures IsSubsequence(FilterOptions(items, input), items)
  {
    var q := Trim(Lower(input));
    if q == [] {
      SubsequenceRefl(items);
    } else {
      KeepMatchingIsSubsequence(items, q);
    }
  }

  lemma {:induction false} SubsequenceRefl(a: seq<string>)
    ensures IsSubsequence(a, a)
    decreases |a|
  {
    if a != [] {
      SubsequenceRefl(a[1..]);
    }
  }

  /** Blanks typed around the query do not change the options shown. */
  lemma FilterIgnoresPadding(items: seq<string>, ws1: string, input: string, ws2: string)
    requires AllSpace(ws1) && AllSpace(ws2)
    ensures FilterOptions(items, ws1 + input + ws2) == FilterOptions(items, input)
  {
    LowerAppend(ws1 + input, ws2);
    LowerAppend(ws1, input);
    assert Lower(ws1) == ws1;
    assert Lower(ws2) == ws2;
    TrimPadded(ws1, Lower(input), ws2);
  }

  /* ---------------------------- option lists ---------------------------- */

  /** Each value of the list once, in order of first occurrence. */
  function Dedupe(xs: seq<string>): (r: seq<string>)
    ensures |r| <= |xs|
    ensures forall x :: x in r <==> x in xs
    ensures Distinct(r)
  {
    if xs == [] then []
    else
      var d := Dedupe(xs[..|xs| - 1]);
      var last := xs[|xs| - 1];
      assert xs == xs[..|xs| - 1] + [last];
      if last in d then d else d + [last]
  }

  predicate Distinct(xs: seq<string>) {
    forall i, j :: 0 <= i < j < |xs| ==> xs[i] != xs[j]
  }

  /** The position of the first occurrence of `x`. */
  function FirstIndex(xs: seq<string>, x: string): (k: nat)
    requires x in xs
    ensures k < |xs| && xs[k] == x && forall j :: 0 <= j < k ==> xs[j] != x
  {
    if xs[0] == x then 0
    else
      var k := FirstIndex(xs[1..], x);
      assert forall j :: 1 <= j < |xs| ==> xs[j] == xs[1..][j - 1];
      k + 1
  }

  /** The de-duplicated list follows the order of first occurrences. */
  lemma {:induction false} DedupeFirstOccurrenceOrder(xs: seq<string>)
    ensures forall i, j :: 0 <= i < j < |Dedupe(xs)| ==>
              FirstIndex(xs, Dedupe(xs)[i]) < FirstIndex(xs, Dedupe(xs)[j])
    decreases |xs|
  {
    if xs != [] {
      var p := xs[..|xs| - 1];
      var last := xs[|xs| - 1];
      DedupeFirstOccurrenceOrder(p);
      var d := Dedupe(p);
      assert xs == p + [last];
      forall y | y in p
        ensures FirstIndex(xs, y) == FirstIndex(p, y)
      {
        var k := FirstIndex(p, y);
        assert xs[k] == y;
        assert forall j :: 0 <= j < k ==> xs[j] == p[j];
      }
      if last !in d {
        assert forall j :: 0 <= j < |p| ==> p[j] != last;
        assert FirstIndex(xs, last) == |xs| - 1;
      }
    }
  }

  predicate HasDuplicate(xs: seq<string>) {
    exists i, j :: 0 <= i < j < |xs| && xs[i] == xs[j]
  }

  /** De-duplication shortens the list exactly when some value repeats. */
  lemma {:induction false} DedupeShorterIffDuplicate(xs: seq<string>)
    ensures |Dedupe(xs)| < |xs| <==> HasDuplicate(xs)
    decreases |xs|
  {
    if xs != [] {
      var p := xs[..|xs| - 1];
      var last := xs[|xs| - 1];
      DedupeShorterIffDuplicate(p);
      if HasDuplicate(p) {
        var i, j :| 0 <= i < j < |p| && p[i] == p[j];
        assert xs[i] == xs[j];
      } else if last in p {
        var i :| 0 <= i < |p| && p[i] == last;
        assert xs[i] == xs[|xs| - 1];
      } else {
        assert !HasDuplicate(xs) by {
          forall i, j | 0 <= i < j < |xs|
            ensures xs[i] != xs[j]
          {
            if j < |xs| - 1 {
              assert xs[i] == p[i] && xs[j] == p[j];
            } else {
              assert xs[i] == p[i];
            }
          }
        }
      }
    }
  }

  function Names(residents: seq<Resident>): (r: seq<string>)
    ensures |r| == |residents| && forall i :: 0 <= i < |residents| ==> r[i] == residents[i].name
  {
    seq(|residents|, i requires 0 <= i < |residents| => residents[i].name)
  }

  function Rooms(residents: seq<Resident>): (r: seq<string>)
    ensures |r| == |residents| && forall i :: 0 <= i < |residents| ==> r[i] == residents[i].room
  {
    seq(|residents|, i requires 0 <= i < |residents| => residents[i].room)
  }

  function Groups(residents: seq<Resident>): (r: seq<string>)
    ensures |r| == |residents| && forall i :: 0 <= i < |residents| ==> r[i] == residents[i].group
  {
    seq(|residents|, i requires 0 <= i < |residents| => residents[i].group)
  }

  const ExtraRooms: seq<string> := ["201", "202", "203", "301", "302"]
  const ExtraGroups: seq<string> := ["ІН-31", "ЕК-22", "IC-12", "ФФ-21", "ФЛ-11"]

  /** The name choices: every resident's name exactly once. */
  function NameOptions(residents: seq<Resident>): (r: seq<string>)
    ensures Distinct(r)
    ensures forall x :: x in r <==> exists i :: 0 <= i < |residents| && residents[i].name == x
  {
    var names := Names(residents);
    assert forall x :: x in names <==> exists i :: 0 <= i < |residents| && residents[i].name == x;
    Dedupe(names)
  }

  /** The room choices: the residents' rooms once each, then the fixed extra rooms (not de-duplicated). */
  function RoomOptions(residents: seq<Resident>): (r: seq<string>)
    ensures |r| >= |ExtraRooms| && r[|r| - |ExtraRooms|..] == ExtraRooms
    ensures Distinct(r[..|r| - |ExtraRooms|])
    ensures forall j :: 0 <= j < |r| - |ExtraRooms| ==> exists i :: 0 <= i < |residents| && residents[i].room == r[j]
    ensures forall i :: 0 <= i < |residents| ==> residents[i].room in r[..|r| - |ExtraRooms|]
  {
    var rooms := Rooms(residents);
    assert forall x :: x in rooms <==> exists i :: 0 <= i < |residents| && residents[i].room == x;
    var d := Dedupe(rooms);
    assert (d + ExtraRooms)[..|d|] == d;
    assert forall j :: 0 <= j < |d| ==> (d + ExtraRooms)[j] == d[j] && d[j] in d;
    d + ExtraRooms
  }

  /** The group choices: the residents' groups once each, then the fixed extra groups (not de-duplicated). */
  function GroupOptions(residents: seq<Resident>): (r: seq<string>)
    ensures |r| >= |ExtraGroups| && r[|r| - |ExtraGroups|..] == ExtraGroups
    ensures Distinct(r[..|r| - |ExtraGroups|])
    ensures forall j :: 0 <= j < |r| - |ExtraGroups| ==> exists i :: 0 <= i < |residents| && residents[i].group == r[j]
    ensures forall i :: 0 <= i < |residents| ==> residents[i].group in r[..|r| - |ExtraGroups|]
  {
    var groups := Groups(residents);
    assert forall x :: x in groups <==> exists i :: 0 <= i < |residents| && residents[i].group == x;
    var d := Dedupe(groups);
    assert (d + ExtraGroups)[..|d|] == d;
    assert forall j :: 0 <= j < |d| ==> (d + ExtraGroups)[j] == d[j] && d[j] in d;
    d + ExtraGroups
  }

  /** The residents the page starts from; the last two share a name. */
  function SeedResidents(): (r: seq<Resident>)
    ensures |r| == 7
  {
    [ Resident(1, "Іваненко Іван Іванович", "101", "ФІОТ", 3, "ІН-31"),
      Resident(2, "Петров Петро Петрович", "102", "ІПСА", 2, "ЕК-22"),
      Resident(3, "Сидоренко Ольга Миколаївна", "103", "ФММ", 1, "IC-12"),
      Resident(4, "Коваль Андрій Сергійович", "104", "ФІОТ", 4, "ФФ-21"),
      Resident(5, "Мороз Оксана Володимирівна", "105", "ФІОТ", 4, "ФЛ-11"),
      Resident(6, "Приклад Студент", "105", "ФІОТ", 3, "ФЛ-11"),
      Resident(7, "Приклад Студент", "105", "ФІОТ", 3, "ФЛ-11") ]
  }

  /** With the seed residents the name list is shorter than the roster. */
  lemma SeedNameOptionsShorter()
    ensures |NameOptions(SeedResidents())| < |SeedResidents()|
  {
    var names := Names(SeedResidents());
    assert names[5] == names[6];
    DedupeShorterIffDuplicate(names);
  }

  /** With the seed residents "ІН-31" is offered twice among the groups. */
  lemma SeedGroupOptionsRepeat()
    ensures exists i, j :: 0 <= i < j < |GroupOptions(SeedResidents())|
              && GroupOptions(SeedResidents())[i] == GroupOptions(SeedResidents())[j] == "ІН-31"
  {
    var g := Groups(SeedResidents());
    var d := Dedupe(g);
    assert g[0] == "ІН-31";
    assert "ІН-31" in d;
    var i :| 0 <= i < |d| && d[i] == "ІН-31";
    var r := GroupOptions(SeedResidents());
    assert r == d + ExtraGroups;
    assert r[i] == "ІН-31" && r[|d|] == "ІН-31";
  }
}
