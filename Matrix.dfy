/**
 * The key-matrix scanner: columns are driven one at a time, every row is read
 * while its column is driven, and each cell goes through the debounce rule.
 * A pass reports only the presses it accepts, column by column and, within a
 * column, row by row.
 */
module Matrix {
  import opened Debounce

  /** A matrix position, as the scanner reports it: (row, column). */
  datatype Key = Key(row: nat, col: nat)

  /** `g` has `rows` rows of `cols` entries each. */
  predicate IsGrid<T>(g: seq<seq<T>>, rows: nat, cols: nat)
  {
    |g| == rows && forall r :: 0 <= r < rows ==> |g[r]| == cols
  }

  /** The stored cells and the raw reads both cover the first `cols` columns. */
  predicate Covers(cells: seq<seq<Cell>>, raw: seq<seq<bool>>, cols: nat)
  {
    |raw| == |cells| && forall r :: 0 <= r < |cells| ==> cols <= |cells[r]| && cols <= |raw[r]|
  }

  // ---------------------------------------------------------------------------
  // The list of accepted presses
  // ---------------------------------------------------------------------------

  /** The presses one pass accepts in column `col` among its first `rows` rows, top to bottom. */
  function ColumnPresses(cells: seq<seq<Cell>>, raw: seq<seq<bool>>, now: int, window: nat,
                         col: nat, rows: nat): seq<Key>
    requires Covers(cells, raw, col + 1) && rows <= |cells|
    decreases rows
  {
    if rows == 0 then []
    else
      var r := rows - 1;
      ColumnPresses(cells, raw, now, window, col, r)
        + (if PressAccepted(cells[r][col], raw[r][col], now, window) then [Key(r, col)] else [])
  }

  /** The presses one pass accepts in its first `cols` columns, in scan order. */
  function ScanPresses(cells: seq<seq<Cell>>, raw: seq<seq<bool>>, now: int, window: nat,
                       cols: nat): seq<Key>
    requires Covers(cells, raw, cols)
    decreases cols
  {
    if cols == 0 then []
    else ScanPresses(cells, raw, now, window, cols - 1)
           + ColumnPresses(cells, raw, now, window, cols - 1, |cells|)
  }

  /** `a` is visited before `b` by the scan: an earlier column, or the same column and an earlier row. */
  predicate Before(a: Key, b: Key)
  {
    a.col < b.col || (a.col == b.col && a.row < b.row)
  }

  /** The keys appear in strict scan order (so, in particular, none twice). */
  predicate InScanOrder(ks: seq<Key>)
  {
    forall i, j :: 0 <= i < j < |ks| ==> Before(ks[i], ks[j])
  }

  lemma ScanOrderConcat(a: seq<Key>, b: seq<Key>)
    requires InScanOrder(a) && InScanOrder(b)
    requires forall x, y :: x in a && y in b ==> Before(x, y)
    ensures InScanOrder(a + b)
  {
    var ab := a + b;
    forall i, j | 0 <= i < j < |ab| ensures Before(ab[i], ab[j]) {
      if j < |a| {
        assert ab[i] == a[i] && ab[j] == a[j];
      } else if i >= |a| {
        assert ab[i] == b[i - |a|] && ab[j] == b[j - |a|];
      } else {
        assert ab[i] == a[i] && ab[j] == b[j - |a|];
      }
    }
  }

  /** What one column of a pass reports: exactly its accepted presses, top to bottom. */
  lemma {:induction false} ColumnPressesFacts(cells: seq<seq<Cell>>, raw: seq<seq<bool>>, now: int,
                                              window: nat, col: nat, rows: nat)
    requires Covers(cells, raw, col + 1) && rows <= |cells|
    ensures forall k :: k in ColumnPresses(cells, raw, now, window, col, rows) <==>
              k.col == col && k.row < rows && PressAccepted(cells[k.row][col], raw[k.row][col], now, window)
    ensures InScanOrder(ColumnPresses(cells, raw, now, window, col, rows))
    decreases rows
  {
    if rows > 0 {
      var r := rows - 1;
      ColumnPressesFacts(cells, raw, now, window, col, r);
      var front := ColumnPresses(cells, raw, now, window, col, r);
      var last := if PressAccepted(cells[r][col], raw[r][col], now, window) then [Key(r, col)] else [];
      ScanOrderConcat(front, last);
    }
  }

  /**
   * What a pass reports: a cell is in the list exactly when the pass accepts a
   * press of it, and the list is in strict column-major order, so every entry
   * is in bounds and none appears twice.
   */
  lemma {:induction false} ScanPressesFacts(cells: seq<seq<Cell>>, raw: seq<seq<bool>>, now: int,
                                            window: nat, cols: nat)
    requires Covers(cells, raw, cols)
    ensures forall k :: k in ScanPresses(cells, raw, now, window, cols) <==>
              k.row < |cells| && k.col < cols &&
              PressAccepted(cells[k.row][k.col], raw[k.row][k.col], now, window)
    ensures InScanOrder(ScanPresses(cells, raw, now, window, cols))
    decreases cols
  {
    if cols > 0 {
      var c := cols - 1;
      ScanPressesFacts(cells, raw, now, window, c);
      ColumnPressesFacts(cells, raw, now, window, c, |cells|);
      ScanOrderConcat(ScanPresses(cells, raw, now, window, c),
                      ColumnPresses(cells, raw, now, window, c, |cells|));
    }
  }

  /** Every key a pass reports is inside the scanned grid. */
  lemma ScanPressesInBounds(cells: seq<seq<Cell>>, raw: seq<seq<bool>>, now: int, window: nat, cols: nat)
    requires Covers(cells, raw, cols)
    ensures forall i :: 0 <= i < |ScanPresses(cells, raw, now, window, cols)| ==>
              ScanPresses(cells, raw, now, window, cols)[i].row < |cells| &&
              ScanPresses(cells, raw, now, window, cols)[i].col < cols
  {
    var ks := ScanPresses(cells, raw, now, window, cols);
    ScanPressesFacts(cells, raw, now, window, cols);
    assert forall i :: 0 <= i < |ks| ==> ks[i] in ks;
  }

  /** A list in scan order holds no key twice. */
  lemma ScanOrderDistinct(ks: seq<Key>)
    requires InScanOrder(ks)
    ensures forall i, j :: 0 <= i < |ks| && 0 <= j < |ks| && i != j ==> ks[i] != ks[j]
  {
    forall i, j | 0 <= i < |ks| && 0 <= j < |ks| && i != j ensures ks[i] != ks[j] {
      if i < j { assert Before(ks[i], ks[j]); } else { assert Before(ks[j], ks[i]); }
    }
  }

  // ---------------------------------------------------------------------------
  // The column-drive discipline
  // ---------------------------------------------------------------------------

  /** One operation on the matrix pins: a column output written, or a row input read. */
  datatype PinEvent = Drive(col: nat, level: bool) | Read(row: nat, col: nat)

  /** The columns whose output is high after the writes in `log`, starting from all low. */
  function High(log: seq<PinEvent>): set<nat>
    decreases |log|
  {
    if log == [] then {}
    else
      var before := High(log[..|log| - 1]);
      match log[|log| - 1]
      case Drive(c, level) => if level then before + {c} else before - {c}
      case Read(_, _) => before
  }

  /** The row reads taken while column `col` is driven, for its first `rows` rows. */
  function RowReads(col: nat, rows: nat): (s: seq<PinEvent>)
    ensures |s| == rows
    decreases rows
  {
    if rows == 0 then [] else RowReads(col, rows - 1) + [Read(rows - 1, col)]
  }

  /** The reads of a column visit its rows top to bottom. */
  lemma {:induction false} RowReadsAt(col: nat, rows: nat)
    ensures forall r :: 0 <= r < rows ==> RowReads(col, rows)[r] == Read(r, col)
    decreases rows
  {
    if rows > 0 {
      RowReadsAt(col, rows - 1);
    }
  }

  /** What one scan does to column `col`: drive it, read every row, release it. */
  function ColumnBlock(col: nat, rows: nat): seq<PinEvent>
  {
    [Drive(col, true)] + RowReads(col, rows) + [Drive(col, false)]
  }

  /** The pin operations of one scan over the first `cols` columns. */
  function ScanPins(rows: nat, cols: nat): seq<PinEvent>
    decreases cols
  {
    if cols == 0 then [] else ScanPins(rows, cols - 1) + ColumnBlock(cols - 1, rows)
  }

  /** Appending one pin operation to a log. */
  lemma HighSnoc(log: seq<PinEvent>, e: PinEvent)
    ensures e.Drive? && e.level ==> High(log + [e]) == High(log) + {e.col}
    ensures e.Drive? && !e.level ==> High(log + [e]) == High(log) - {e.col}
    ensures e.Read? ==> High(log + [e]) == High(log)
  {
    assert (log + [e])[..|log|] == log;
  }

  /** Reads do not change which columns are driven. */
  lemma {:induction false} HighIgnoresReads(log: seq<PinEvent>, samples: seq<PinEvent>)
    requires forall i :: 0 <= i < |samples| ==> samples[i].Read?
    ensures High(log + samples) == High(log)
    decreases |samples|
  {
    if samples != [] {
      var front := samples[..|samples| - 1];
      var e := samples[|samples| - 1];
      assert e.Read?;
      assert log + samples == (log + front) + [e];
      HighSnoc(log + front, e);
      HighIgnoresReads(log, front);
    } else {
      assert log + samples == log;
    }
  }

  /** The operations of one column's block, position by position. */
  lemma BlockAt(col: nat, rows: nat, j: nat)
    requires j < rows + 2
    ensures ColumnBlock(col, rows)[j] == if j == 0 then Drive(col, true)
                                         else if j <= rows then Read(j - 1, col)
                                         else Drive(col, false)
  {
    if 0 < j <= rows {
      RowReadsAt(col, rows);
      assert ColumnBlock(col, rows)[j] == RowReads(col, rows)[j - 1];
    }
  }

  /** Inside one column's block, exactly that column is high; once the block is over, none is. */
  lemma BlockPrefixHigh(log: seq<PinEvent>, col: nat, rows: nat, j: nat)
    requires High(log) == {} && j <= rows + 2
    ensures High(log + ColumnBlock(col, rows)[..j]) == if 0 < j <= rows + 1 then {col} else {}
  {
    var block := ColumnBlock(col, rows);
    var driven := log + [Drive(col, true)];
    HighSnoc(log, Drive(col, true));
    RowReadsAt(col, rows);
    if j == 0 {
      assert log + block[..j] == log;
    } else if j <= rows + 1 {
      var tail := RowReads(col, rows)[..j - 1];
      assert log + block[..j] == driven + tail;
      HighIgnoresReads(driven, tail);
    } else {
      var read := driven + RowReads(col, rows);
      HighIgnoresReads(driven, RowReads(col, rows));
      assert log + block[..j] == read + [Drive(col, false)];
      HighSnoc(read, Drive(col, false));
    }
  }

  /** A log that keeps the drive discipline up to `k` still keeps it up to `k` once more is appended. */
  lemma DisciplineInPrior(prior: seq<PinEvent>, block: seq<PinEvent>, k: nat)
    requires k <= |prior| && |block| > 0 && block[0].Drive?
    requires |High(prior[..k])| <= 1
    requires k < |prior| && prior[k].Read? ==> High(prior[..k]) == {prior[k].col}
    requires k == |prior| ==> High(prior[..k]) == {}
    ensures |High((prior + block)[..k])| <= 1
    ensures (prior + block)[k].Read? ==> High((prior + block)[..k]) == {(prior + block)[k].col}
  {
    assert (prior + block)[..k] == prior[..k];
  }

  /** After a log that ends with no column driven, one column's block keeps the drive discipline. */
  lemma DisciplineInBlock(prior: seq<PinEvent>, col: nat, rows: nat, k: nat)
    requires High(prior) == {} && |prior| < k <= |prior| + rows + 2
    ensures |High((prior + ColumnBlock(col, rows))[..k])| <= 1
    ensures k < |prior| + rows + 2 && (prior + ColumnBlock(col, rows))[k].Read? ==>
              High((prior + ColumnBlock(col, rows))[..k]) == {(prior + ColumnBlock(col, rows))[k].col}
    ensures k == |prior| + rows + 2 ==> High((prior + ColumnBlock(col, rows))[..k]) == {}
  {
    var block := ColumnBlock(col, rows);
    var j := k - |prior|;
    BlockPrefixHigh(prior, col, rows, j);
    assert (prior + block)[..k] == prior + block[..j];
    if j < rows + 2 {
      assert (prior + block)[k] == block[j];
      BlockAt(col, rows, j);
    }
  }

  /**
   * The drive discipline of one scan: at every point at most one column is
   * driven, every row read happens while its own column and no other is
   * driven, and when the scan is over no column is driven.
   */
  lemma {:induction false} ScanPinsDiscipline(rows: nat, cols: nat, k: nat)
    requires k <= |ScanPins(rows, cols)|
    ensures |High(ScanPins(rows, cols)[..k])| <= 1
    ensures k < |ScanPins(rows, cols)| && ScanPins(rows, cols)[k].Read? ==>
              High(ScanPins(rows, cols)[..k]) == {ScanPins(rows, cols)[k].col}
    ensures k == |ScanPins(rows, cols)| ==> High(ScanPins(rows, cols)[..k]) == {}
    decreases cols
  {
    if cols == 0 {
      assert ScanPins(rows, cols)[..k] == [];
    } else {
      var c := cols - 1;
      var prior := ScanPins(rows, c);
      var block := ColumnBlock(c, rows);
      assert ScanPins(rows, cols) == prior + block;
      if k <= |prior| {
        ScanPinsDiscipline(rows, c, k);
        BlockAt(c, rows, 0);
        DisciplineInPrior(prior, block, k);
      } else {
        ScanPinsDiscipline(rows, c, |prior|);
        assert prior[..|prior|] == prior;
        DisciplineInBlock(prior, c, rows, k);
      }
    }
  }

  /** The reads of a column are of that column and its first `rows` rows, and of nothing else. */
  lemma {:induction false} InRowReads(col: nat, rows: nat, r: nat, c: nat)
    ensures Read(r, c) in RowReads(col, rows) <==> c == col && r < rows
    decreases rows
  {
    if rows > 0 {
      InRowReads(col, rows - 1, r, c);
      assert RowReads(col, rows) == RowReads(col, rows - 1) + [Read(rows - 1, col)];
    }
  }

  /** Every cell of the matrix is read during a scan, and nothing outside it. */
  lemma {:induction false} ScanPinsReadsEveryCell(rows: nat, cols: nat, r: nat, c: nat)
    ensures Read(r, c) in ScanPins(rows, cols) <==> r < rows && c < cols
    decreases cols
  {
    if cols > 0 {
      ScanPinsReadsEveryCell(rows, cols - 1, r, c);
      InRowReads(cols - 1, rows, r, c);
      var block := ColumnBlock(cols - 1, rows);
      assert ScanPins(rows, cols) == ScanPins(rows, cols - 1) + block;
      assert Read(r, c) in block <==> Read(r, c) in RowReads(cols - 1, rows);
    }
  }

  /** ColumnPresses looks only at the column it is asked about. */
  lemma {:induction false} ColumnPressesAgree(a: seq<seq<Cell>>, b: seq<seq<Cell>>, raw: seq<seq<bool>>,
                                              now: int, window: nat, col: nat, rows: nat)
    requires Covers(a, raw, col + 1) && Covers(b, raw, col + 1) && rows <= |a|
    requires forall i :: 0 <= i < rows ==> a[i][col] == b[i][col]
    ensures ColumnPresses(a, raw, now, window, col, rows) == ColumnPresses(b, raw, now, window, col, rows)
    decreases rows
  {
    if rows > 0 {
      ColumnPressesAgree(a, b, raw, now, window, col, rows - 1);
    }
  }

  // ---------------------------------------------------------------------------
  // How a pass changes the grid of cells
  // ---------------------------------------------------------------------------

  /** `cur` is `g0` with the first `r` cells of column `c` stepped once on their reading. */
  ghost predicate ColumnStepped(cur: seq<seq<Cell>>, g0: seq<seq<Cell>>, raw: seq<seq<bool>>, now: int,
                                window: nat, c: nat, r: nat, rows: nat, cols: nat)
  {
    IsGrid(cur, rows, cols) && IsGrid(g0, rows, cols) && IsGrid(raw, rows, cols) &&
    forall i, j {:trigger cur[i][j]} :: 0 <= i < rows && 0 <= j < cols ==>
      cur[i][j] == if j == c && i < r then Step(g0[i][j], raw[i][j], now, window) else g0[i][j]
  }

  /** `cur` is `g0` with every cell of the first `c` columns stepped once on its reading. */
  ghost predicate ColumnsStepped(cur: seq<seq<Cell>>, g0: seq<seq<Cell>>, raw: seq<seq<bool>>, now: int,
                                 window: nat, c: nat, rows: nat, cols: nat)
  {
    IsGrid(cur, rows, cols) && IsGrid(g0, rows, cols) && IsGrid(raw, rows, cols) &&
    forall i, j {:trigger cur[i][j]} :: 0 <= i < rows && 0 <= j < cols ==>
      cur[i][j] == if j < c then Step(g0[i][j], raw[i][j], now, window) else g0[i][j]
  }

  /**
   * One more cell down column `c`: stepping it extends a partly stepped
   * column by one, and the list of the column's presses by that cell when a
   * press of it is accepted.
   */
  lemma ColumnStepNext(cur: seq<seq<Cell>>, g0: seq<seq<Cell>>, raw: seq<seq<bool>>, now: int,
                       window: nat, c: nat, r: nat, rows: nat, cols: nat, found: seq<Key>)
    requires ColumnStepped(cur, g0, raw, now, window, c, r, rows, cols) && r < rows && c < cols
    requires found == ColumnPresses(g0, raw, now, window, c, r)
    ensures ColumnStepped(cur[r := cur[r][c := Step(cur[r][c], raw[r][c], now, window)]],
                          g0, raw, now, window, c, r + 1, rows, cols)
    ensures found + (if PressAccepted(cur[r][c], raw[r][c], now, window) then [Key(r, c)] else [])
            == ColumnPresses(g0, raw, now, window, c, r + 1)
  {
    assert cur[r][c] == g0[r][c];
  }

  /**
   * One more column of a pass: a fully stepped column on top of `c` stepped
   * columns gives `c + 1` stepped columns, its presses extend the list and
   * its block extends the pin log.
   */
  lemma ColumnsStepNext(before: seq<seq<Cell>>, after: seq<seq<Cell>>, g0: seq<seq<Cell>>,
                        raw: seq<seq<bool>>, now: int, window: nat, c: nat, rows: nat, cols: nat,
                        pressed: seq<Key>, found: seq<Key>)
    requires ColumnsStepped(before, g0, raw, now, window, c, rows, cols) && c < cols
    requires ColumnStepped(after, before, raw, now, window, c, rows, rows, cols)
    requires pressed == ScanPresses(g0, raw, now, window, c)
    requires found == ColumnPresses(before, raw, now, window, c, rows)
    ensures ColumnsStepped(after, g0, raw, now, window, c + 1, rows, cols)
    ensures pressed + found == ScanPresses(g0, raw, now, window, c + 1)
  {
    assert forall i :: 0 <= i < rows ==> before[i][c] == g0[i][c];
    ColumnPressesAgree(before, g0, raw, now, window, c, rows);
  }

  // ---------------------------------------------------------------------------
  // The scanner object
  // ---------------------------------------------------------------------------

  /** The matrix scanner: debounce tables for every cell and the column outputs. */
  class MatrixScanner {
    const numRows: nat
    const numCols: nat
    const debounceMs: nat
    /** The debounced logical state of each cell, indexed [row, col]. */
    const keyStates: array2<bool>
    /** The scan time of each cell's last accepted press, in milliseconds. */
    const lastPressTime: array2<int>
    /** The level written to each column output. */
    const colOut: array<bool>
    /** The two tables seen as one grid of cells, indexed [row][col]. */
    ghost var cells: seq<seq<Cell>>
    /** The pin operations of the last scan, in the order they happened. */
    ghost var pinLog: seq<PinEvent>

    ghost predicate Valid()
      reads this, keyStates, lastPressTime
    {
      keyStates.Length0 == numRows && keyStates.Length1 == numCols &&
      lastPressTime.Length0 == numRows && lastPressTime.Length1 == numCols &&
      colOut.Length == numCols &&
      IsGrid(cells, numRows, numCols) &&
      forall r, c {:trigger cells[r][c]} :: 0 <= r < numRows && 0 <= c < numCols ==>
        cells[r][c] == Cell(keyStates[r, c], lastPressTime[r, c])
    }

    /** Every column output is low. */
    ghost predicate ColumnsLow()
      reads this, colOut
    {
      forall j :: 0 <= j < colOut.Length ==> !colOut[j]
    }

    /** The column outputs are high exactly for the columns the pin log leaves driven. */
    ghost predicate OutputsMatchLog()
      reads this, colOut
    {
      (forall j :: 0 <= j < colOut.Length ==> (colOut[j] <==> j in High(pinLog))) &&
      forall j :: j in High(pinLog) ==> j < colOut.Length
    }

    /**
     * What one pass at `now` leaves behind from the grid `before`: every cell
     * has taken one debounce Step on its reading, the pin log is that of a
     * full pass, and every column is low.
     */
    ghost predicate ScannedFrom(before: seq<seq<Cell>>, raw: seq<seq<bool>>, now: int)
      reads this, colOut
    {
      IsGrid(cells, numRows, numCols) && IsGrid(before, numRows, numCols) && IsGrid(raw, numRows, numCols) &&
      (forall r, c {:trigger cells[r][c]} :: 0 <= r < numRows && 0 <= c < numCols ==>
         cells[r][c] == Step(before[r][c], raw[r][c], now, debounceMs)) &&
      pinLog == ScanPins(numRows, numCols) &&
      ColumnsLow()
    }

    /** Every cell starts released with a press time of 0, and every column low. */
    constructor (rows: nat, cols: nat, debounce: nat)
      ensures Valid() && numRows == rows && numCols == cols && debounceMs == debounce
      ensures fresh(keyStates) && fresh(lastPressTime) && fresh(colOut)
      ensures forall r, c :: 0 <= r < rows && 0 <= c < cols ==> cells[r][c] == Released
      ensures ColumnsLow() && pinLog == []
    {
      numRows, numCols, debounceMs := rows, cols, debounce;
      keyStates := new bool[rows, cols]((r, c) => false);
      lastPressTime := new int[rows, cols]((r, c) => 0);
      colOut := new bool[cols](c => false);
      cells := seq(rows, r => seq(cols, c => Released));
      pinLog := [];
    }

    /**
     * The debounce decision for cell (r, c) on reading `isPressed` at `now`:
     * the cell takes one Step, no other cell changes, and the result says
     * whether a press was accepted.
     */
    method Debounce(r: nat, c: nat, isPressed: bool, now: int) returns (accepted: bool)
      requires Valid() && r < numRows && c < numCols
      modifies keyStates, lastPressTime, this`cells
      ensures Valid()
      ensures accepted == PressAccepted(old(cells[r][c]), isPressed, now, debounceMs)
      ensures cells == old(cells[r := cells[r][c := Step(cells[r][c], isPressed, now, debounceMs)]])
    {
      accepted := false;
      if isPressed && !keyStates[r, c] {
        if now - lastPressTime[r, c] > debounceMs {
          keyStates[r, c] := true;
          lastPressTime[r, c] := now;
          accepted := true;
        }
      } else if !isPressed && keyStates[r, c] {
        if now - lastPressTime[r, c] > debounceMs {
          keyStates[r, c] := false;
        }
      }
      cells := cells[r := cells[r][c := Cell(keyStates[r, c], lastPressTime[r, c])]];
    }

    /**
     * The row reads of column `c` at time `now`, with column `c` and no other
     * driven: every row is read and its cell debounced, top to bottom. Only the
     * cells of column `c` change, each by one Step, the presses accepted there
     * come back top to bottom, and no output or drive is touched.
     */
    method ReadRows(raw: seq<seq<bool>>, now: int, c: nat) returns (found: seq<Key>)
      requires Valid() && IsGrid(raw, numRows, numCols) && c < numCols
      requires OutputsMatchLog() && High(pinLog) == {c}
      modifies keyStates, lastPressTime, this`cells, this`pinLog
      ensures Valid() && OutputsMatchLog() && High(pinLog) == {c}
      ensures found == ColumnPresses(old(cells), raw, now, debounceMs, c, numRows)
      ensures ColumnStepped(cells, old(cells), raw, now, debounceMs, c, numRows, numRows, numCols)
      ensures pinLog == old(pinLog) + RowReads(c, numRows)
    {
      ghost var g0 := cells;
      found := [];
      var r := 0;
      while r < numRows
        invariant 0 <= r <= numRows
        invariant Valid()
        invariant ColumnStepped(cells, g0, raw, now, debounceMs, c, r, numRows, numCols)
        invariant found == ColumnPresses(g0, raw, now, debounceMs, c, r)
        invariant pinLog == old(pinLog) + RowReads(c, r)
        invariant High(pinLog) == {c}
      {
        ghost var before := cells;
        var isPressed := raw[r][c];
        HighSnoc(pinLog, Read(r, c));
        pinLog := pinLog + [Read(r, c)];
        var accepted := Debounce(r, c, isPressed, now);
        ColumnStepNext(before, g0, raw, now, debounceMs, c, r, numRows, numCols, found);
        if accepted {
          found := found + [Key(r, c)];
        }
        r := r + 1;
      }
    }

    /**
     * One column of a scan at time `now`: drive column `c`, read every row
     * and debounce its cell, release the column. Only the cells of column `c`
     * change, each by one Step, and the presses accepted there come back top
     * to bottom.
     */
    method ScanColumn(raw: seq<seq<bool>>, now: int, c: nat) returns (found: seq<Key>)
      requires Valid() && IsGrid(raw, numRows, numCols) && c < numCols
      requires OutputsMatchLog() && High(pinLog) == {}
      modifies keyStates, lastPressTime, colOut, this`cells, this`pinLog
      ensures Valid()
      ensures OutputsMatchLog() && High(pinLog) == {}
      ensures found == ColumnPresses(old(cells), raw, now, debounceMs, c, numRows)
      ensures ColumnStepped(cells, old(cells), raw, now, debounceMs, c, numRows, numRows, numCols)
      ensures pinLog == old(pinLog) + ColumnBlock(c, numRows)
      ensures !colOut[c] && forall j :: 0 <= j < numCols && j != c ==> colOut[j] == old(colOut[j])
    {
      colOut[c] := true;
      HighSnoc(pinLog, Drive(c, true));
      pinLog := pinLog + [Drive(c, true)];
      found := ReadRows(raw, now, c);
      colOut[c] := false;
      HighSnoc(pinLog, Drive(c, false));
      pinLog := pinLog + [Drive(c, false)];
      assert ColumnBlock(c, numRows) == [Drive(c, true)] + RowReads(c, numRows) + [Drive(c, false)];
    }

    /**
     * One scan pass at time `now`; `raw[r][c]` is what row `r` reads while
     * column `c` is driven. Every cell takes one debounce Step, the accepted
     * presses come back in scan order, each column is driven and released in
     * turn, and all columns end low.
     */
    method Scan(raw: seq<seq<bool>>, now: int) returns (pressed: seq<Key>)
      requires Valid() && IsGrid(raw, numRows, numCols) && ColumnsLow()
      modifies keyStates, lastPressTime, colOut, this`cells, this`pinLog
      ensures Valid()
      ensures pressed == ScanPresses(old(cells), raw, now, debounceMs, numCols)
      ensures ScannedFrom(old(cells), raw, now) && OutputsMatchLog()
    {
      ghost var g0 := cells;
      pressed := [];
      pinLog := [];
      var c := 0;
      while c < numCols
        invariant 0 <= c <= numCols
        invariant Valid()
        invariant ColumnsStepped(cells, g0, raw, now, debounceMs, c, numRows, numCols)
        invariant pressed == ScanPresses(g0, raw, now, debounceMs, c)
        invariant pinLog == ScanPins(numRows, c)
        invariant High(pinLog) == {} && OutputsMatchLog()
      {
        ghost var before := cells;
        var found := ScanColumn(raw, now, c);
        ColumnsStepNext(before, cells, g0, raw, now, debounceMs, c, numRows, numCols, pressed, found);
        pressed := pressed + found;
        c := c + 1;
      }
    }
  }
}
