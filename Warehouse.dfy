/**
 * The warehouse screen: a stock ledger with pending per-row edits, derived
 * aggregates (grand total, zero-stock count, zero/low badges), a recorder that
 * prepends frozen snapshots of the ledger, and the CSV text a snapshot exports to.
 */
module Warehouse {
  import opened Wrappers
  import opened Text

  datatype StockItem = StockItem(id: int, name: string, qty: int)

  /** One frozen row of a snapshot: a copy of an item's name and quantity. */
  datatype Row = Row(name: string, qty: int)

  datatype Snapshot = Snapshot(id: int, date: string, total: int, rows: seq<Row>)

  /** What the browser downloads for a snapshot. */
  datatype Download = Download(fileName: string, content: string)

  /** The three buttons and the typed input of a quantity cell. */
  datatype CellAction = Decrement | Increment | Typed(value: int)

  /** The badge a stock row shows next to its name. */
  datatype Badge = NoBadge | ZeroBadge | LowBadge

  /** The fixed starting stock. */
  function Seed(): (s: seq<StockItem>)
    ensures |s| == 10 && UniqueIds(s) && NonNegative(s)
  {
    [ StockItem(1, "Матрац", 95), StockItem(2, "Подушка", 100), StockItem(3, "Ковдра", 100),
      StockItem(4, "Рушник", 180), StockItem(5, "Постільний комплект", 120),
      StockItem(6, "Стілець", 60), StockItem(7, "Стіл", 40), StockItem(8, "Настільна лампа", 30),
      StockItem(9, "Шафа", 20), StockItem(10, "Дзеркало", 10) ]
  }

  predicate UniqueIds(stock: seq<StockItem>) {
    forall i, j :: 0 <= i < j < |stock| ==> stock[i].id != stock[j].id
  }

  predicate NonNegative(stock: seq<StockItem>) {
    forall i :: 0 <= i < |stock| ==> stock[i].qty >= 0
  }

  /* ---------------------------- aggregates ---------------------------- */

  /** Sum of quantities, the reference definition. */
  function SumQty(stock: seq<StockItem>): int {
    if stock == [] then 0 else stock[0].qty + SumQty(stock[1..])
  }

  /** The running total as the page computes it: a left fold from `acc`, item by item. */
  function Reduce(acc: int, stock: seq<StockItem>): (r: int)
    ensures NonNegative(stock) ==> r >= acc
    ensures stock == [] ==> r == acc
    decreases |stock|
  {
    if stock == [] then acc else Reduce(acc + stock[0].qty, stock[1..])
  }

  lemma {:induction false} ReduceIsSum(acc: int, stock: seq<StockItem>)
    ensures Reduce(acc, stock) == acc + SumQty(stock)
    decreases |stock|
  {
    if stock != [] {
      ReduceIsSum(acc + stock[0].qty, stock[1..]);
    }
  }

  /** The grand total on the metric card. */
  function TotalNow(stock: seq<StockItem>): (t: int)
    ensures t == SumQty(stock)
  {
    ReduceIsSum(0, stock);
    Reduce(0, stock)
  }

  lemma {:induction false} SumQtyNonNegative(stock: seq<StockItem>)
    requires NonNegative(stock)
    ensures SumQty(stock) >= 0
    decreases |stock|
  {
    if stock != [] {
      SumQtyNonNegative(stock[1..]);
    }
  }

  /** The number of items whose stored quantity is zero. */
  function ZeroCount(stock: seq<StockItem>): (n: nat)
    ensures n <= |stock|
    ensures n == 0 <==> forall i :: 0 <= i < |stock| ==> stock[i].qty != 0
    ensures n == |stock| <==> forall i :: 0 <= i < |stock| ==> stock[i].qty == 0
  {
    if stock == [] then 0
    else
      var rest := ZeroCount(stock[1..]);
      assert forall i :: 1 <= i < |stock| ==> stock[i] == stock[1..][i - 1];
      (if stock[0].qty == 0 then 1 else 0) + rest
  }

  function Quantities(stock: seq<StockItem>): (qs: seq<int>)
    ensures |qs| == |stock| && forall i :: 0 <= i < |stock| ==> qs[i] == stock[i].qty
  {
    seq(|stock|, i requires 0 <= i < |stock| => stock[i].qty)
  }

  /** The zero count is the number of times 0 occurs among the quantities. */
  lemma {:induction false} ZeroCountIsMultiplicity(stock: seq<StockItem>)
    ensures ZeroCount(stock) == multiset(Quantities(stock))[0]
    decreases |stock|
  {
    if stock != [] {
      ZeroCountIsMultiplicity(stock[1..]);
      assert Quantities(stock) == [stock[0].qty] + Quantities(stock[1..]);
    }
  }

  /** The quantity a row shows: the pending edit if there is one, else the stored one. */
  function Current(item: StockItem, editing: map<int, int>): (q: int)
    ensures item.id !in editing ==> q == item.qty
    ensures item.id in editing ==> q == editing[item.id]
    ensures item.qty >= 0 && (forall x :: x in editing ==> editing[x] >= 0) ==> q >= 0
  {
    if item.id in editing then editing[item.id] else item.qty
  }

  /** The badge for a row whose shown quantity is `current`: zero, low (1..5) or none. */
  function BadgeFor(current: int): (b: Badge)
    ensures b == ZeroBadge <==> current == 0
    ensures b == LowBadge <==> 0 < current <= 5
    ensures b == NoBadge <==> current < 0 || current > 5
  {
    var isZero := current == 0;
    var isLow := current > 0 && current <= 5;
    if isZero then ZeroBadge else if isLow then LowBadge else NoBadge
  }

  /* ---------------------------- editing ---------------------------- */

  /** The value a quantity cell hands to its `onChange` for an action on `value`. */
  function CellValue(value: int, action: CellAction): (v: int)
    ensures action.Decrement? ==> v == if value >= 1 then value - 1 else 0
    ensures action.Increment? ==> v == value + 1
    ensures action.Typed? ==> v == if action.value >= 0 then action.value else 0
    ensures value >= 0 || !action.Increment? ==> v >= 0
  {
    match action
    case Decrement => if value - 1 > 0 then value - 1 else 0
    case Increment => value + 1
    case Typed(x) => if x > 0 then x else 0
  }

  lemma CellDecrementUndoesIncrement(value: int)
    requires value >= 0
    ensures CellValue(CellValue(value, Increment), Decrement) == value
    ensures value >= 1 ==> CellValue(CellValue(value, Decrement), Increment) == value
  {
  }

  /** One item after `saveQty(id)`: the item with that id takes its pending edit, if any. */
  function SaveItem(item: StockItem, id: int, editing: map<int, int>): (r: StockItem)
    ensures r.id == item.id && r.name == item.name
    ensures item.id != id ==> r == item
    ensures item.id == id ==> r.qty == Current(item, editing)
  {
    if item.id == id then item.(qty := Current(item, editing)) else item
  }

  /** The stock after saving the row with the given id; every other item is kept. */
  function Commit(stock: seq<StockItem>, id: int, editing: map<int, int>): (r: seq<StockItem>)
    ensures |r| == |stock|
    ensures forall i :: 0 <= i < |stock| ==> r[i] == SaveItem(stock[i], id, editing)
  {
    if stock == [] then []
    else [SaveItem(stock[0], id, editing)] + Commit(stock[1..], id, editing)
  }

  /** Saving changes the total by exactly the difference between the edit and the old quantity. */
  lemma {:induction false} CommitTotal(stock: seq<StockItem>, k: nat, editing: map<int, int>)
    requires k < |stock| && UniqueIds(stock)
    ensures SumQty(Commit(stock, stock[k].id, editing))
            == SumQty(stock) - stock[k].qty + Current(stock[k], editing)
    decreases |stock|
  {
    var id := stock[k].id;
    var r := Commit(stock, id, editing);
    assert r[1..] == Commit(stock[1..], id, editing);
    if k == 0 {
      CommitAbsent(stock[1..], id, editing);
    } else {
      assert stock[0].id != id;
      CommitTotal(stock[1..], k - 1, editing);
    }
  }

  /** Saving an id that no item has changes nothing. */
  lemma CommitAbsent(stock: seq<StockItem>, id: int, editing: map<int, int>)
    requires forall i :: 0 <= i < |stock| ==> stock[i].id != id
    ensures Commit(stock, id, editing) == stock
  {
  }

  /** Saving keeps quantities non-negative when every pending edit is non-negative. */
  lemma CommitNonNegative(stock: seq<StockItem>, id: int, editing: map<int, int>)
    requires NonNegative(stock)
    requires forall x :: x in editing ==> editing[x] >= 0
    ensures NonNegative(Commit(stock, id, editing))
    ensures UniqueIds(stock) ==> UniqueIds(Commit(stock, id, editing))
  {
  }

  /* ---------------------------- snapshots ---------------------------- */

  /** The rows a snapshot copies: each item's name and quantity, in stock order. */
  function Rows(stock: seq<StockItem>): (rows: seq<Row>)
    ensures |rows| == |stock|
    ensures forall i :: 0 <= i < |stock| ==> rows[i] == Row(stock[i].name, stock[i].qty)
  {
    seq(|stock|, i requires 0 <= i < |stock| => Row(stock[i].name, stock[i].qty))
  }

  function SumRows(rows: seq<Row>): int {
    if rows == [] then 0 else rows[0].qty + SumRows(rows[1..])
  }

  lemma {:induction false} SumRowsOfStock(stock: seq<StockItem>)
    ensures SumRows(Rows(stock)) == SumQty(stock)
    decreases |stock|
  {
    if stock != [] {
      assert Rows(stock)[1..] == Rows(stock[1..]);
      SumRowsOfStock(stock[1..]);
    }
  }

  /**
   * The snapshot `createSnapshot(date)` builds: every item's name and quantity in stock
   * order, and the current total, which is therefore the sum of the copied rows.
   */
  function Capture(stock: seq<StockItem>, id: int, date: string): (s: Snapshot)
    ensures s.id == id && s.date == date
    ensures |s.rows| == |stock|
    ensures forall i :: 0 <= i < |stock| ==> s.rows[i].name == stock[i].name && s.rows[i].qty == stock[i].qty
    ensures s.total == SumRows(s.rows)
  {
    SumRowsOfStock(stock);
    Snapshot(id, date, TotalNow(stock), Rows(stock))
  }

  /** The id of the next snapshot: one above the newest snapshot's id, or 1 for the first. */
  function NextSnapId(snaps: seq<Snapshot>): (id: int)
    ensures snaps == [] ==> id == 1
    ensures snaps != [] ==> id == snaps[0].id + 1
  {
    (if snaps == [] then 0 else snaps[0].id) + 1
  }

  /**
   * The history the recorder builds: most recent first, ids counting down to 1,
   * each total the sum of its rows.
   */
  predicate SnapHistory(snaps: seq<Snapshot>) {
    forall i :: 0 <= i < |snaps| ==> snaps[i].id == |snaps| - i && snaps[i].total == SumRows(snaps[i].rows)
  }

  lemma SnapHistoryIdsDecrease(snaps: seq<Snapshot>)
    requires SnapHistory(snaps)
    ensures forall i, j :: 0 <= i < j < |snaps| ==> snaps[i].id > snaps[j].id >= 1
  {
  }

  /** Prepending a captured snapshot keeps the history shape. */
  lemma {:induction false} RecordKeepsHistory(snaps: seq<Snapshot>, stock: seq<StockItem>, date: string)
    requires SnapHistory(snaps)
    ensures SnapHistory([Capture(stock, NextSnapId(snaps), date)] + snaps)
    ensures NextSnapId(snaps) == |snaps| + 1
  {
    var s := Capture(stock, NextSnapId(snaps), date);
    var h := [s] + snaps;
    forall i | 0 <= i < |h|
      ensures h[i].id == |h| - i && h[i].total == SumRows(h[i].rows)
    {
      if i > 0 {
        assert h[i] == snaps[i - 1];
      }
    }
  }

  /** The first snapshot with the given id, if any. */
  function FindSnap(snaps: seq<Snapshot>, id: int): (r: Option<Snapshot>)
    ensures r.None? <==> forall i :: 0 <= i < |snaps| ==> snaps[i].id != id
    ensures r.Some? ==> exists i :: 0 <= i < |snaps| && snaps[i] == r.value && r.value.id == id
                                    && forall j :: 0 <= j < i ==> snaps[j].id != id
  {
    if snaps == [] then None
    else if snaps[0].id == id then Some(snaps[0])
    else
      var r := FindSnap(snaps[1..], id);
      assert forall i :: 1 <= i < |snaps| ==> snaps[i] == snaps[1..][i - 1];
      if r.Some? then
        var i :| 0 <= i < |snaps[1..]| && snaps[1..][i] == r.value && r.value.id == id
                 && forall j :: 0 <= j < i ==> snaps[1..][j].id != id;
        assert snaps[i + 1] == r.value;
        r
      else r
  }

  /** In a recorder history, exactly the ids 1..|snaps| can be selected. */
  lemma FindSnapInHistory(snaps: seq<Snapshot>, id: int)
    requires SnapHistory(snaps)
    ensures FindSnap(snaps, id).Some? <==> 1 <= id <= |snaps|
  {
    if 1 <= id <= |snaps| {
      assert snaps[|snaps| - id].id == id;
    }
  }

  /* ---------------------------- CSV export ---------------------------- */

  function Heading(date: string): string {
    "Інвентаризація станом на " + date
  }

  const ColumnHeader: string := "Предмет,Кількість"

  function DataLine(r: Row): string {
    r.name + "," + IntToString(r.qty)
  }

  function TotalLine(total: int): string {
    "Усього," + IntToString(total)
  }

  function DataLines(rows: seq<Row>): (lines: seq<string>)
    ensures |lines| == |rows|
    ensures forall i :: 0 <= i < |rows| ==> lines[i] == DataLine(rows[i])
  {
    seq(|rows|, i requires 0 <= i < |rows| => DataLine(rows[i]))
  }

  /** The lines of the export: heading, column header, one line per row, totals. */
  function CsvLines(s: Snapshot): (lines: seq<string>)
    ensures |lines| == |s.rows| + 3
    ensures lines[0] == Heading(s.date) && lines[1] == ColumnHeader
    ensures forall i :: 0 <= i < |s.rows| ==> lines[i + 2] == DataLine(s.rows[i])
    ensures lines[|lines| - 1] == TotalLine(s.total)
  {
    var data := DataLines(s.rows);
    Framed(Heading(s.date), ColumnHeader, data, TotalLine(s.total));
    [Heading(s.date), ColumnHeader] + data + [TotalLine(s.total)]
  }

  /** Where each part lands when two lines, a block and a last line are put together. */
  lemma Framed(h: string, c: string, data: seq<string>, t: string)
    ensures var lines := [h, c] + data + [t];
            |lines| == |data| + 3 && lines[0] == h && lines[1] == c && lines[|lines| - 1] == t
            && forall i :: 0 <= i < |data| ==> lines[i + 2] == data[i]
  {
  }

  /** The CSV text (without the byte-order mark): the lines joined by line feeds. */
  function Csv(s: Snapshot): (csv: string)
    ensures |csv| >= |Heading(s.date)| && csv[..|Heading(s.date)|] == Heading(s.date)
  {
    Join(CsvLines(s), '\n')
  }

  /** The file content: a byte-order mark, then the CSV text. */
  function FileContent(s: Snapshot): (content: string)
    ensures |content| == |Csv(s)| + 1 && content[0] == '\U{FEFF}' && content[1..] == Csv(s)
  {
    "\U{FEFF}" + Csv(s)
  }

  /** The download name; the snapshot's date can be read back from between its fixed prefix and suffix. */
  function FileName(s: Snapshot): (name: string)
    ensures |name| == |s.date| + 14
    ensures name[..10] == "inventory_" && name[10..|name| - 4] == s.date && name[|name| - 4..] == ".csv"
  {
    "inventory_" + s.date + ".csv"
  }

  predicate NoLineBreaks(s: Snapshot) {
    '\n' !in s.date && forall i :: 0 <= i < |s.rows| ==> '\n' !in s.rows[i].name
  }

  /** Without line breaks in the date and the names, the text splits back into exactly its lines. */
  lemma CsvSplitsIntoLines(s: Snapshot)
    requires NoLineBreaks(s)
    ensures Split(Csv(s), '\n') == CsvLines(s)
    ensures |Split(Csv(s), '\n')| == |s.rows| + 3
  {
    var lines := CsvLines(s);
    forall k | 0 <= k < |lines|
      ensures '\n' !in lines[k]
    {
      LineNoBreak(s, k);
    }
    SplitJoin(lines, '\n');
  }

  lemma LineNoBreak(s: Snapshot, k: nat)
    requires NoLineBreaks(s) && k < |s.rows| + 3
    ensures '\n' !in CsvLines(s)[k]
  {
    var lines := CsvLines(s);
    if k == 0 {
      assert lines[0] == "Інвентаризація станом на " + s.date;
    } else if k == 1 {
    } else if k < |lines| - 1 {
      assert lines[k] == s.rows[k - 2].name + "," + IntToString(s.rows[k - 2].qty);
    } else {
      assert lines[k] == "Усього," + IntToString(s.total);
    }
  }

  /** A data line has exactly one comma when the item's name has none. */
  lemma DataLineOneComma(r: Row)
    requires ',' !in r.name
    ensures CountChar(DataLine(r), ',') == 1
  {
    CountCharAppend(r.name, "," + IntToString(r.qty), ',');
    CountCharAppend(",", IntToString(r.qty), ',');
    assert r.name + "," + IntToString(r.qty) == r.name + ("," + IntToString(r.qty));
  }

  /** The export of a one-row snapshot, line by line. */
  lemma CsvExample(s: Snapshot)
    requires s == Snapshot(1, "2025-01-01", 3, [Row("Подушка", 3)])
    ensures NoLineBreaks(s)
    ensures CsvLines(s)
            == ["Інвентаризація станом на 2025-01-01", "Предмет,Кількість", "Подушка,3", "Усього,3"]
  {
    ThreeAsText();
    var lines := CsvLines(s);
    assert lines[0] == Heading("2025-01-01") == "Інвентаризація станом на 2025-01-01";
    assert lines[2] == DataLine(Row("Подушка", 3)) == "Подушка,3";
    assert lines[3] == TotalLine(3) == "Усього,3";
    assert lines == [lines[0], lines[1], lines[2], lines[3]];
  }

  lemma ThreeAsText()
    ensures IntToString(3) == "3"
  {
    assert DigitChar(3) == '3';
  }

  /* ---------------------------- the page state ---------------------------- */

  /** The warehouse page's state and the handlers that replace it. */
  class WarehousePage {
    var stock: seq<StockItem>
    var editing: map<int, int>
    var snaps: seq<Snapshot>
    var selectedSnapId: Option<int>

    /** Item ids are unique, stored and pending quantities are never negative, and the history has the recorder's shape. */
    ghost predicate Valid()
      reads this
    {
      && UniqueIds(stock)
      && NonNegative(stock)
      && (forall id :: id in editing ==> editing[id] >= 0)
      && SnapHistory(snaps)
    }

    constructor ()
      ensures Valid()
      ensures stock == Seed() && editing == map[] && snaps == [] && selectedSnapId == None
    {
      stock := Seed();
      editing := map[];
      snaps := [];
      selectedSnapId := None;
    }

    /** The grand total shown on the metric card. */
    function Total(): (t: int)
      reads this
      requires Valid()
      ensures t == SumQty(stock) && t >= 0
    {
      SumQtyNonNegative(stock);
      TotalNow(stock)
    }

    /** The quantity cell of row `k` reports a new value for that item. */
    method EditCell(k: nat, action: CellAction)
      requires Valid() && k < |stock|
      modifies this
      ensures Valid()
      ensures editing == old(editing)[old(stock)[k].id := CellValue(Current(old(stock)[k], old(editing)), action)]
      ensures stock == old(stock) && snaps == old(snaps) && selectedSnapId == old(selectedSnapId)
    {
      var item := stock[k];
      var current := Current(item, editing);
      editing := editing[item.id := CellValue(current, action)];
    }

    /** `saveQty(id)`: commit the pending edit of `id` and drop it from the pending edits. */
    method SaveQty(id: int)
      requires Valid()
      modifies this
      ensures Valid()
      ensures |stock| == |old(stock)|
      ensures forall i :: 0 <= i < |stock| && old(stock)[i].id != id ==> stock[i] == old(stock)[i]
      ensures forall i :: 0 <= i < |stock| && old(stock)[i].id == id ==>
                stock[i] == old(stock)[i].(qty := if id in old(editing) then old(editing)[id] else old(stock)[i].qty)
      ensures editing == old(editing) - {id}
      ensures snaps == old(snaps) && selectedSnapId == old(selectedSnapId)
    {
      CommitNonNegative(stock, id, editing);
      stock := Commit(stock, id, editing);
      editing := editing - {id};
    }

    /** `createSnapshot(date)`: prepend a frozen copy of the ledger and select it. */
    method CreateSnapshot(date: string)
      requires Valid()
      modifies this
      ensures Valid()
      ensures snaps == [Capture(old(stock), |old(snaps)| + 1, date)] + old(snaps)
      ensures selectedSnapId == Some(|snaps|)
      ensures stock == old(stock) && editing == old(editing)
    {
      RecordKeepsHistory(snaps, stock, date);
      var payload := Capture(stock, NextSnapId(snaps), date);
      snaps := [payload] + snaps;
      selectedSnapId := Some(payload.id);
    }

    /** The history drop-down picks a snapshot, or none. */
    method SelectSnapshot(choice: Option<int>)
      requires Valid()
      modifies this`selectedSnapId
      ensures Valid()
      ensures selectedSnapId == choice
    {
      selectedSnapId := choice;
    }

    /** The export button: disabled unless a snapshot is selected; otherwise its file. */
    method ExportSelected() returns (d: Option<Download>)
      ensures d.None? <==> selectedSnapId.None? || FindSnap(snaps, selectedSnapId.value).None?
      ensures d.Some? ==> selectedSnapId.Some? && FindSnap(snaps, selectedSnapId.value).Some?
                          && d.value == Download(FileName(FindSnap(snaps, selectedSnapId.value).value),
                                                 FileContent(FindSnap(snaps, selectedSnapId.value).value))
    {
      if selectedSnapId.None? {
        return None;
      }
      var s := FindSnap(snaps, selectedSnapId.value);
      if s.None? {
        return None;
      }
      d := Some(Download(FileName(s.value), FileContent(s.value)));
    }
  }
}
