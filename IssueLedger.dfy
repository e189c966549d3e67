/**
 * A student's issue/return ledger: an "active" list with at most one row per
 * item kind, each holding a positive quantity, and a history of issue/return
 * events, most recent first, with auto-incremented ids. Two screens carry
 * near-identical copies of it; they differ in the guard `upsertActive` applies
 * to a kind that has no active row, which is a parameter here (`Guard`), and in
 * whether the quantity stepper resets after an action.
 */
module IssueLedger {
  import opened Wrappers

  datatype Kind = Kind(id: int, name: string)

  datatype Op = Issued | Returned

  datatype ActiveRow = ActiveRow(kindId: int, kindName: string, qty: int)

  datatype HistoryRow = HistoryRow(id: int, date: string, op: Op, kindId: int, kindName: string, qty: int)

  /**
   * What `upsertActive` refuses for a kind with no active row: the student tab
   * refuses a negative delta (`delta < 0`), the inventory table any delta that
   * is not positive (`delta <= 0`).
   */
  datatype Guard = RefuseNegative | RefuseNonPositive

  predicate Refuses(g: Guard, delta: int) {
    match g
    case RefuseNegative => delta < 0
    case RefuseNonPositive => delta <= 0
  }

  function Max(a: int, b: int): int {
    if a >= b then a else b
  }

  /* ---------------------------- the active list ---------------------------- */

  /** At most one row per kind. */
  predicate UniqueKinds(rows: seq<ActiveRow>) {
    forall i, j :: 0 <= i < j < |rows| ==> rows[i].kindId != rows[j].kindId
  }

  predicate AllPositive(rows: seq<ActiveRow>) {
    forall i :: 0 <= i < |rows| ==> rows[i].qty > 0
  }

  /** The invariant of the active list. */
  predicate WellFormed(rows: seq<ActiveRow>) {
    UniqueKinds(rows) && AllPositive(rows)
  }

  /** The position of the first row of the kind, or -1 when the kind has no row. */
  function FindKind(rows: seq<ActiveRow>, id: int): (i: int)
    ensures -1 <= i < |rows|
    ensures i == -1 <==> forall j :: 0 <= j < |rows| ==> rows[j].kindId != id
    ensures i >= 0 ==> rows[i].kindId == id && forall j :: 0 <= j < i ==> rows[j].kindId != id
  {
    if rows == [] then -1
    else if rows[0].kindId == id then 0
    else
      var k := FindKind(rows[1..], id);
      assert forall j :: 1 <= j < |rows| ==> rows[j] == rows[1..][j - 1];
      if k == -1 then -1 else k + 1
  }

  /**
   * The active list after changing the kind's quantity by `delta`: a new row for a
   * kind without one (unless the guard refuses the delta), otherwise the row's
   * quantity clamped at zero, the row removed when it reaches zero.
   */
  function Upsert(rows: seq<ActiveRow>, kind: Kind, delta: int, g: Guard): (r: seq<ActiveRow>)
    ensures |rows| - 1 <= |r| <= |rows| + 1
    ensures forall j :: 0 <= j < |r| ==> r[j] in rows || r[j].kindId == kind.id
  {
    var i := FindKind(rows, kind.id);
    if i == -1 then
      if Refuses(g, delta) then rows else rows + [ActiveRow(kind.id, kind.name, delta)]
    else
      var newQty := Max(0, rows[i].qty + delta);
      if newQty == 0 then
        var r := rows[..i] + rows[i + 1..];
        assert forall j :: 0 <= j < |r| ==> r[j] == if j < i then rows[j] else rows[j + 1];
        r
      else rows[i := rows[i].(qty := newQty)]
  }

  /** The quantity of a kind the student holds: its row's quantity, or 0 without a row. */
  function Held(rows: seq<ActiveRow>, id: int): int {
    var i := FindKind(rows, id);
    if i == -1 then 0 else rows[i].qty
  }

  /** The rows of every other kind, in list order. */
  function Others(rows: seq<ActiveRow>, id: int): (r: seq<ActiveRow>)
    ensures |r| <= |rows|
    ensures forall j :: 0 <= j < |r| ==> r[j].kindId != id
  {
    if rows == [] then []
    else if rows[0].kindId == id then Others(rows[1..], id)
    else [rows[0]] + Others(rows[1..], id)
  }

  lemma {:induction false} OthersAppend(a: seq<ActiveRow>, b: seq<ActiveRow>, id: int)
    ensures Others(a + b, id) == Others(a, id) + Others(b, id)
    decreases |a|
  {
    if a == [] {
      assert a + b == b;
    } else {
      assert (a + b)[0] == a[0];
      assert (a + b)[1..] == a[1..] + b;
      OthersAppend(a[1..], b, id);
    }
  }

  /** A position found by its kind identifies the kind's row once kinds are unique. */
  lemma FindKindAt(rows: seq<ActiveRow>, id: int, k: int)
    requires 0 <= k < |rows| && rows[k].kindId == id && UniqueKinds(rows)
    ensures FindKind(rows, id) == k
  {
  }

  lemma HeldAppend(rows: seq<ActiveRow>, row: ActiveRow, id: int)
    requires FindKind(rows, row.kindId) == -1
    ensures Held(rows + [row], id) == if id == row.kindId then row.qty else Held(rows, id)
  {
    var r := rows + [row];
    var j := FindKind(rows, id);
    assert forall m :: 0 <= m < |rows| ==> r[m] == rows[m];
    if id == row.kindId {
      assert r[|rows|].kindId == id;
      assert FindKind(r, id) == |rows|;
    } else if j != -1 {
      assert r[j] == rows[j];
      assert FindKind(r, id) == j;
    } else {
      assert forall m :: 0 <= m < |r| ==> r[m].kindId != id;
    }
  }

  lemma HeldRemove(rows: seq<ActiveRow>, i: nat, id: int)
    requires i < |rows| && UniqueKinds(rows)
    ensures Held(rows[..i] + rows[i + 1..], id) == if id == rows[i].kindId then 0 else Held(rows, id)
  {
    var r := rows[..i] + rows[i + 1..];
    var j := FindKind(rows, id);
    assert forall m :: 0 <= m < |r| ==> r[m] == if m < i then rows[m] else rows[m + 1];
    if id == rows[i].kindId {
      assert forall m :: 0 <= m < |r| ==> r[m].kindId != id;
    } else if j == -1 {
      assert forall m :: 0 <= m < |r| ==> r[m].kindId != id;
    } else if j < i {
      FindKindAt(r, id, j);
    } else {
      assert r[j - 1] == rows[j];
      FindKindAt(r, id, j - 1);
    }
  }

  lemma HeldUpdate(rows: seq<ActiveRow>, i: nat, q: int, id: int)
    requires i < |rows| && UniqueKinds(rows)
    ensures Held(rows[i := rows[i].(qty := q)], id) == if id == rows[i].kindId then q else Held(rows, id)
  {
    var r := rows[i := rows[i].(qty := q)];
    var j := FindKind(rows, id);
    if id == rows[i].kindId {
      FindKindAt(r, id, i);
    } else if j != -1 {
      FindKindAt(r, id, j);
    } else {
      assert forall m :: 0 <= m < |r| ==> r[m].kindId != id;
    }
  }

  /**
   * Upsert moves the held quantity of `kind` to max(0, held + delta) and leaves
   * every other kind's holding alone.
   */
  lemma UpsertHeld(rows: seq<ActiveRow>, kind: Kind, delta: int, g: Guard, id: int)
    requires UniqueKinds(rows)
    ensures Held(Upsert(rows, kind, delta, g), id)
            == if id == kind.id then Max(0, Held(rows, id) + delta) else Held(rows, id)
  {
    var i := FindKind(rows, kind.id);
    if i == -1 {
      if !Refuses(g, delta) {
        HeldAppend(rows, ActiveRow(kind.id, kind.name, delta), id);
      }
    } else if Max(0, rows[i].qty + delta) == 0 {
      HeldRemove(rows, i, id);
    } else {
      HeldUpdate(rows, i, Max(0, rows[i].qty + delta), id);
    }
  }

  /** Dropping a row of the kind does not change the other kinds' rows. */
  lemma OthersDropRow(rows: seq<ActiveRow>, i: nat, id: int)
    requires i < |rows| && rows[i].kindId == id
    ensures Others(rows, id) == Others(rows[..i] + rows[i + 1..], id)
  {
    var t := rows[i + 1..];
    assert ([rows[i]] + t)[0] == rows[i] && ([rows[i]] + t)[1..] == t;
    assert Others([rows[i]] + t, id) == Others(t, id);
    assert rows == rows[..i] + ([rows[i]] + t);
    OthersAppend(rows[..i], [rows[i]] + t, id);
    OthersAppend(rows[..i], t, id);
  }

  /** Upsert never touches or reorders the rows of other kinds. */
  lemma UpsertKeepsOthers(rows: seq<ActiveRow>, kind: Kind, delta: int, g: Guard)
    ensures Others(Upsert(rows, kind, delta, g), kind.id) == Others(rows, kind.id)
  {
    var i := FindKind(rows, kind.id);
    var row := ActiveRow(kind.id, kind.name, delta);
    if i == -1 {
      if !Refuses(g, delta) {
        OthersAppend(rows, [row], kind.id);
        assert Others([row], kind.id) == [];
        assert rows + [] == rows;
      }
    } else {
      var newQty := Max(0, rows[i].qty + delta);
      OthersDropRow(rows, i, kind.id);
      if newQty != 0 {
        var r := rows[i := rows[i].(qty := newQty)];
        OthersDropRow(r, i, kind.id);
        assert r[..i] + r[i + 1..] == rows[..i] + rows[i + 1..];
      }
    }
  }

  /**
   * Upsert keeps the active list well formed, except for the one case the student
   * tab's weaker guard lets through: a zero delta on a kind with no row.
   */
  lemma UpsertKeepsWellFormed(rows: seq<ActiveRow>, kind: Kind, delta: int, g: Guard)
    requires WellFormed(rows)
    requires delta == 0 ==> g == RefuseNonPositive
    ensures WellFormed(Upsert(rows, kind, delta, g))
  {
    var r := Upsert(rows, kind, delta, g);
    var i := FindKind(rows, kind.id);
    if i != -1 && Max(0, rows[i].qty + delta) == 0 {
      assert forall m :: 0 <= m < |r| ==> r[m] == if m < i then rows[m] else rows[m + 1];
    }
  }

  /** The student tab's guard admits a zero-quantity row when called with delta 0. */
  lemma ZeroDeltaUnderNegativeGuard(rows: seq<ActiveRow>, kind: Kind)
    requires FindKind(rows, kind.id) == -1
    ensures !AllPositive(Upsert(rows, kind, 0, RefuseNegative))
    ensures Upsert(rows, kind, 0, RefuseNonPositive) == rows
  {
    var r := Upsert(rows, kind, 0, RefuseNegative);
    assert r[|rows|].qty == 0;
  }

  /** The two guards agree on every delta the issue and return handlers pass. */
  lemma GuardsAgreeOffZero(rows: seq<ActiveRow>, kind: Kind, delta: int)
    requires delta != 0
    ensures Upsert(rows, kind, delta, RefuseNegative) == Upsert(rows, kind, delta, RefuseNonPositive)
  {
  }

  /* ---------------------------- the handlers, on values ---------------------------- */

  /** A non-zero change of a well-formed list keeps it well formed and moves the kind's holding by the change. */
  lemma HandlerUpsert(rows: seq<ActiveRow>, kind: Kind, delta: int, g: Guard)
    requires delta != 0
    ensures WellFormed(rows) ==>
              WellFormed(Upsert(rows, kind, delta, g))
              && Held(Upsert(rows, kind, delta, g), kind.id) == Max(0, Held(rows, kind.id) + delta)
  {
    if WellFormed(rows) {
      UpsertKeepsWellFormed(rows, kind, delta, g);
      UpsertHeld(rows, kind, delta, g, kind.id);
    }
  }

  /**
   * The active list after issuing `qty` of the kind: a non-positive quantity is
   * ignored; otherwise the kind's holding grows by `qty`. Well-formedness is kept.
   */
  function IssueActive(rows: seq<ActiveRow>, kind: Kind, qty: int, g: Guard): (r: seq<ActiveRow>)
    ensures qty <= 0 ==> r == rows
    ensures WellFormed(rows) ==> WellFormed(r) && Held(r, kind.id) == Held(rows, kind.id) + Max(0, qty)
  {
    if qty <= 0 then rows
    else
      HandlerUpsert(rows, kind, qty, g);
      Upsert(rows, kind, qty, g)
  }

  /**
   * The active list after returning `qty` of the kind: a non-positive quantity is
   * ignored; otherwise the kind's holding shrinks by `qty`, never below zero.
   * Well-formedness is kept.
   */
  function ReturnActive(rows: seq<ActiveRow>, kind: Kind, qty: int, g: Guard): (r: seq<ActiveRow>)
    ensures qty <= 0 ==> r == rows
    ensures WellFormed(rows) ==> WellFormed(r) && Held(r, kind.id) == Max(0, Held(rows, kind.id) - Max(0, qty))
  {
    if qty <= 0 then rows
    else
      HandlerUpsert(rows, kind, -qty, g);
      Upsert(rows, kind, -qty, g)
  }

  /** The three outcomes of `Upsert`, by the position of the kind's row. */
  lemma UpsertCases(rows: seq<ActiveRow>, kind: Kind, delta: int, g: Guard, i: int)
    requires i == FindKind(rows, kind.id)
    ensures i == -1 ==> Upsert(rows, kind, delta, g)
                        == if Refuses(g, delta) then rows else rows + [ActiveRow(kind.id, kind.name, delta)]
    ensures i != -1 && rows[i].qty + delta <= 0 ==> Upsert(rows, kind, delta, g) == rows[..i] + rows[i + 1..]
    ensures i != -1 && rows[i].qty + delta > 0 ==>
              Upsert(rows, kind, delta, g) == rows[i := rows[i].(qty := rows[i].qty + delta)]
  {
  }

  /** Issuing appends a new row for a kind without one, and adds to the existing row otherwise. */
  lemma IssueShape(rows: seq<ActiveRow>, kind: Kind, qty: int, g: Guard)
    requires AllPositive(rows) && qty > 0
    ensures FindKind(rows, kind.id) == -1 ==>
              IssueActive(rows, kind, qty, g) == rows + [ActiveRow(kind.id, kind.name, qty)]
    ensures FindKind(rows, kind.id) != -1 ==>
              var i := FindKind(rows, kind.id);
              IssueActive(rows, kind, qty, g) == rows[i := rows[i].(qty := rows[i].qty + qty)]
  {
    var i := FindKind(rows, kind.id);
    assert i != -1 ==> rows[i].qty > 0;
    IssueAt(rows, kind, qty, g, i);
  }

  /** `IssueShape` for the kind's row at position `i`, which holds a positive quantity. */
  lemma IssueAt(rows: seq<ActiveRow>, kind: Kind, qty: int, g: Guard, i: int)
    requires i == FindKind(rows, kind.id) && qty > 0
    requires i != -1 ==> rows[i].qty > 0
    ensures IssueActive(rows, kind, qty, g)
            == if i == -1 then rows + [ActiveRow(kind.id, kind.name, qty)]
               else rows[i := rows[i].(qty := rows[i].qty + qty)]
  {
    UpsertCases(rows, kind, qty, g, i);
    assert !Refuses(g, qty);
  }

  /** Returning clamps at zero and removes the row that reaches it; a kind not held is left alone. */
  lemma ReturnShape(rows: seq<ActiveRow>, kind: Kind, qty: int, g: Guard)
    requires qty > 0
    ensures var i := FindKind(rows, kind.id);
            ReturnActive(rows, kind, qty, g)
            == if i == -1 then rows
               else if rows[i].qty <= qty then rows[..i] + rows[i + 1..]
               else rows[i := rows[i].(qty := rows[i].qty - qty)]
  {
    var i := FindKind(rows, kind.id);
    UpsertCases(rows, kind, -qty, g, i);
    assert Refuses(g, -qty);
  }

  /* ---------------------------- the history ---------------------------- */

  /** The largest id in a non-empty history. */
  function MaxId(history: seq<HistoryRow>): (m: int)
    requires history != []
    ensures forall i :: 0 <= i < |history| ==> history[i].id <= m
    ensures exists i :: 0 <= i < |history| && history[i].id == m
  {
    if |history| == 1 then history[0].id
    else
      var m := MaxId(history[1..]);
      assert forall i :: 1 <= i < |history| ==> history[i] == history[1..][i - 1];
      var k :| 0 <= k < |history[1..]| && history[1..][k].id == m;
      assert history[k + 1].id == m;
      Max(history[0].id, m)
  }

  /** The id of the next history row: one above the largest id, or 1 for an empty history. */
  function NextHistoryId(history: seq<HistoryRow>): (id: int)
    ensures forall i :: 0 <= i < |history| ==> history[i].id < id
    ensures history != [] ==> exists i :: 0 <= i < |history| && history[i].id == id - 1
    ensures history == [] ==> id == 1
  {
    if history == [] then 1 else MaxId(history) + 1
  }

  /** The history after recording one event: a fresh row in front. */
  function Record(history: seq<HistoryRow>, op: Op, kind: Kind, qty: int, date: string): (r: seq<HistoryRow>)
    ensures |r| == |history| + 1 && r[1..] == history
    ensures forall i :: 0 <= i < |history| ==> history[i].id < r[0].id
    ensures history != [] ==> exists i :: 0 <= i < |history| && history[i].id == r[0].id - 1
    ensures history == [] ==> r[0].id == 1
    ensures r[0].op == op && r[0].kindId == kind.id && r[0].kindName == kind.name
            && r[0].qty == qty && r[0].date == date
  {
    [HistoryRow(NextHistoryId(history), date, op, kind.id, kind.name, qty)] + history
  }

  predicate UniqueIds(history: seq<HistoryRow>) {
    forall i, j :: 0 <= i < j < |history| ==> history[i].id != history[j].id
  }

  /** Ids strictly decrease from the most recent row to the oldest. */
  predicate Descending(history: seq<HistoryRow>) {
    forall i, j :: 0 <= i < j < |history| ==> history[i].id > history[j].id
  }

  /** Recording keeps ids unique whatever ids the history started with, and the new head holds the maximum. */
  lemma RecordKeepsIdsUnique(history: seq<HistoryRow>, op: Op, kind: Kind, qty: int, date: string)
    requires UniqueIds(history)
    ensures var h := Record(history, op, kind, qty, date);
            UniqueIds(h) && h[0].id == MaxId(h) && |h| == |history| + 1 && h[1..] == history
  {
    var h := Record(history, op, kind, qty, date);
    assert forall i :: 1 <= i < |h| ==> h[i] == history[i - 1];
    var m := MaxId(h);
    var k :| 0 <= k < |h| && h[k].id == m;
  }

  /** Recording into a descending history keeps it descending; the next id is then head + 1. */
  lemma RecordKeepsDescending(history: seq<HistoryRow>, op: Op, kind: Kind, qty: int, date: string)
    requires Descending(history)
    ensures Descending(Record(history, op, kind, qty, date))
    ensures history != [] ==> NextHistoryId(history) == history[0].id + 1
  {
    var h := Record(history, op, kind, qty, date);
    assert forall i :: 1 <= i < |h| ==> h[i] == history[i - 1];
    if history != [] {
      assert MaxId(history) == history[0].id;
    }
  }

  /* ---------------------------- the control bar ---------------------------- */

  /** The kind the control bar acts on: the first kind with the chosen id, else the first kind; absent only for an empty list. */
  function SelectedKind(kinds: seq<Kind>, kindId: int): (r: Option<Kind>)
    ensures r.None? <==> kinds == []
    ensures r.Some? ==> r.value in kinds
    ensures (exists i :: 0 <= i < |kinds| && kinds[i].id == kindId) ==> r.Some? && r.value.id == kindId
    ensures r.Some? && r.value.id == kindId ==>
              exists i :: 0 <= i < |kinds| && kinds[i] == r.value && forall j :: 0 <= j < i ==> kinds[j].id != kindId
    ensures r.Some? && r.value.id != kindId ==> r.value == kinds[0]
  {
    if kinds == [] then None
    else
      var found := FindById(kinds, kindId);
      if found.Some? then found else Some(kinds[0])
  }

  /** The first kind with the id, if any. */
  function FindById(kinds: seq<Kind>, kindId: int): (r: Option<Kind>)
    ensures r.Some? ==> r.value in kinds && r.value.id == kindId
    ensures r.Some? ==>
              exists i :: 0 <= i < |kinds| && kinds[i] == r.value && forall j :: 0 <= j < i ==> kinds[j].id != kindId
    ensures r.None? ==> forall i :: 0 <= i < |kinds| ==> kinds[i].id != kindId
  {
    if kinds == [] then None
    else if kinds[0].id == kindId then
      assert kinds[0] == kinds[0];
      Some(kinds[0])
    else
      var r := FindById(kinds[1..], kindId);
      assert forall i :: 1 <= i < |kinds| ==> kinds[i] == kinds[1..][i - 1];
      if r.Some? then
        var i :| 0 <= i < |kinds[1..]| && kinds[1..][i] == r.value && forall j :: 0 <= j < i ==> kinds[1..][j].id != kindId;
        assert kinds[i + 1] == r.value;
        r
      else r
  }

  /** The `−` button of the stepper: one less, never below 1. */
  function StepDown(q: int): (r: int)
    ensures r >= 1
    ensures q > 1 ==> r == q - 1
    ensures q <= 1 ==> r == 1
  {
    Max(1, q - 1)
  }

  /** The `+` button: one more, unbounded. */
  function StepUp(q: int): (r: int)
    ensures r == q + 1
  {
    q + 1
  }

  lemma StepDownUndoesStepUp(q: int)
    requires q >= 1
    ensures StepDown(StepUp(q)) == q
    ensures q > 1 ==> StepUp(StepDown(q)) == q
  {
  }

  /* ---------------------------- the component state ---------------------------- */

  /** The two state lists of the issue/return section and their handlers. */
  class Ledger {
    var active: seq<ActiveRow>
    var history: seq<HistoryRow>
    const guard: Guard

    /** The student tab: both lists start empty; a negative delta is refused on an absent kind. */
    constructor ForStudentTab()
      ensures active == [] && history == [] && guard == RefuseNegative
      ensures WellFormed(active) && Descending(history)
    {
      active := [];
      history := [];
      guard := RefuseNegative;
    }

    /** The inventory table: lists start from the given rows; a non-positive delta is refused on an absent kind. */
    constructor ForInventoryTable(initialActive: seq<ActiveRow>, initialHistory: seq<HistoryRow>)
      ensures active == initialActive && history == initialHistory && guard == RefuseNonPositive
    {
      active := initialActive;
      history := initialHistory;
      guard := RefuseNonPositive;
    }

    /** `upsertActive(kind, delta)`: copy the list, then update or splice the kind's row in place. */
    method UpsertActive(kind: Kind, delta: int)
      modifies this`active
      ensures active == Upsert(old(active), kind, delta, guard)
    {
      var i := FindKind(active, kind.id);
      if i == -1 {
        if Refuses(guard, delta) {
          return;
        }
        active := active + [ActiveRow(kind.id, kind.name, delta)];
        return;
      }
      var next := active;
      var newQty := Max(0, next[i].qty + delta);
      if newQty == 0 {
        next := next[..i] + next[i + 1..];
      } else {
        next := next[i := next[i].(qty := newQty)];
      }
      active := next;
    }

    /** `addHistory` / `pushHistory`: prepend a row with a fresh id. */
    method AddHistory(op: Op, kind: Kind, qty: int, date: string)
      modifies this`history
      ensures history == Record(old(history), op, kind, qty, date)
      ensures forall i :: 1 <= i < |history| ==> history[i].id < history[0].id
    {
      var id := NextHistoryId(history);
      history := [HistoryRow(id, date, op, kind.id, kind.name, qty)] + history;
    }

    /** `handleIssue(kind, qty)`; the date stands for the clock read. */
    method HandleIssue(kind: Kind, qty: int, date: string)
      modifies this
      ensures active == IssueActive(old(active), kind, qty, guard)
      ensures history == if qty <= 0 then old(history) else Record(old(history), Issued, kind, qty, date)
      ensures old(WellFormed(active)) ==> WellFormed(active)
      ensures old(UniqueIds(history)) ==> UniqueIds(history)
    {
      if qty <= 0 {
        return;
      }
      if UniqueIds(history) {
        RecordKeepsIdsUnique(history, Issued, kind, qty, date);
      }
      UpsertActive(kind, qty);
      AddHistory(Issued, kind, qty, date);
    }

    /** `handleReturn(kind, qty)`: the history row is recorded even when the kind is not held. */
    method HandleReturn(kind: Kind, qty: int, date: string)
      modifies this
      ensures active == ReturnActive(old(active), kind, qty, guard)
      ensures history == if qty <= 0 then old(history) else Record(old(history), Returned, kind, qty, date)
      ensures old(WellFormed(active)) ==> WellFormed(active)
      ensures old(UniqueIds(history)) ==> UniqueIds(history)
    {
      if qty <= 0 {
        return;
      }
      if UniqueIds(history) {
        RecordKeepsIdsUnique(history, Returned, kind, qty, date);
      }
      UpsertActive(kind, -qty);
      AddHistory(Returned, kind, qty, date);
    }
  }

  /** The control bar's quantity stepper. */
  class QuantityStepper {
    var qty: int
    /** The student tab resets the quantity to 1 after an issue or return; the inventory table does not. */
    const resetsAfterAction: bool

    constructor (resetsAfterAction: bool)
      ensures qty == 1 && this.resetsAfterAction == resetsAfterAction
    {
      qty := 1;
      this.resetsAfterAction := resetsAfterAction;
    }

    method Decrement()
      modifies this`qty
      ensures qty == StepDown(old(qty))
    {
      qty := StepDown(qty);
    }

    method Increment()
      modifies this`qty
      ensures qty == StepUp(old(qty))
    {
      qty := StepUp(qty);
    }

    /**
     * Issue or return the stepper's quantity of the selected kind, if any kind can be
     * selected, then reset the stepper where the screen does.
     */
    method Act(ledger: Ledger, kinds: seq<Kind>, kindId: int, issue: bool, date: string)
      modifies this`qty, ledger
      ensures var k := SelectedKind(kinds, kindId);
              && (k.None? ==> ledger.active == old(ledger.active) && ledger.history == old(ledger.history))
              && (k.Some? && issue ==> ledger.active == IssueActive(old(ledger.active), k.value, old(qty), ledger.guard))
              && (k.Some? && !issue ==> ledger.active == ReturnActive(old(ledger.active), k.value, old(qty), ledger.guard))
              && (k.Some? ==> ledger.history == if old(qty) <= 0 then old(ledger.history)
                                               else Record(old(ledger.history), if issue then Issued else Returned,
                                                           k.value, old(qty), date))
      ensures qty == if resetsAfterAction && SelectedKind(kinds, kindId).Some? then 1 else old(qty)
      ensures old(qty) >= 1 ==> qty >= 1
    {
      var k := SelectedKind(kinds, kindId);
      if k.None? {
        return;
      }
      if issue {
        ledger.HandleIssue(k.value, qty, date);
      } else {
        ledger.HandleReturn(k.value, qty, date);
      }
      if resetsAfterAction {
        qty := 1;
      }
    }
  }
}
