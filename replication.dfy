/**
 * Garbage collection of the replication table: a row (one source file)
 * is deleted, all of its entries at once, when every Status and Work
 * entry in it says the file is fully replicated.
 */
module Replication {

  /** Replication progress of one file, held by a Status entry (source
      side) or by a Work entry (one replication target). The offsets are
      the record's 64-bit fields, kept here as unbounded integers. */
  datatype Progress = Progress(begin: int, end: int, closed: bool, infiniteEnd: bool)

  /** The completion rule: the file is closed, its end is known and
      everything up to that end has been processed. */
  predicate IsFullyReplicated(p: Progress)
  {
    p.closed && !p.infiniteEnd && p.begin >= p.end
  }

  /** Each part of the completion rule is needed: an entry stops being
      fully replicated when its file is reopened, when its end becomes
      unknown or when its end moves past what was processed; processing
      further keeps it fully replicated. */
  lemma CompletionNeedsEveryCondition(p: Progress)
    requires IsFullyReplicated(p)
    ensures !IsFullyReplicated(p.(closed := false))
    ensures !IsFullyReplicated(p.(infiniteEnd := true))
    ensures !IsFullyReplicated(p.(end := p.begin + 1))
    ensures forall b :: b >= p.begin ==> IsFullyReplicated(p.(begin := b))
  {
  }

  /** The Status written for a file that is still open and whose length
      is not known yet. */
  function OpenWithUnknownLength(): (p: Progress)
    ensures !p.closed && p.infiniteEnd
    ensures !IsFullyReplicated(p)
  {
    Progress(0, 0, false, true)
  }

  /** A replication target: peer cluster, table on the peer, local table. */
  datatype ReplicationTarget = ReplicationTarget(peerName: string, remoteIdentifier: string, sourceTableId: string)

  /** Column of a replication-table entry: the Status section, qualified
      by the source table id, or the Work section, qualified by a target. */
  datatype Column = StatusColumn(tableId: string) | WorkColumn(target: ReplicationTarget)

  /** A row key is the path of a source file. */
  type Row = string
  type RowEntries = map<Column, Progress>
  type Table = map<Row, RowEntries>

  /** One key-value entry of a row as a whole-row scan delivers it. */
  datatype Cell = Cell(column: Column, progress: Progress)

  /** One row as a whole-row scan delivers it: the row key and its entries. */
  datatype RowGroup = RowGroup(row: Row, cells: seq<Cell>)

  /** A mutation of one row that deletes the listed columns. */
  datatype RowDeletion = RowDeletion(row: Row, columns: seq<Column>)

  predicate RowComplete(entries: RowEntries)
  {
    forall c :: c in entries ==> IsFullyReplicated(entries[c])
  }

  predicate CellsComplete(cells: seq<Cell>)
  {
    forall i :: 0 <= i < |cells| ==> IsFullyReplicated(cells[i].progress)
  }

  predicate DistinctColumns(cells: seq<Cell>)
  {
    forall i, j :: 0 <= i < j < |cells| ==> cells[i].column != cells[j].column
  }

  function ColumnSet(columns: seq<Column>): set<Column>
  {
    set c | c in columns
  }

  function CellColumns(cells: seq<Cell>): set<Column>
  {
    set i | 0 <= i < |cells| :: cells[i].column
  }

  /** The row that a scanned group of cells decodes to. */
  function CellsToEntries(cells: seq<Cell>): (m: RowEntries)
    ensures m.Keys == CellColumns(cells)
  {
    if cells == [] then map[]
    else
      var init, last := cells[..|cells| - 1], cells[|cells| - 1];
      assert CellColumns(cells) == CellColumns(init) + {last.column} by {
        forall c | c in CellColumns(cells) ensures c in CellColumns(init) + {last.column} {
          var i :| 0 <= i < |cells| && cells[i].column == c;
          if i < |cells| - 1 { assert init[i] == cells[i]; }
        }
        forall c | c in CellColumns(init) ensures c in CellColumns(cells) {
          var i :| 0 <= i < |init| && init[i].column == c;
          assert cells[i] == init[i];
        }
      }
      CellsToEntries(init)[last.column := last.progress]
  }

  /** Dropping the last cell of a group with distinct columns leaves
      distinct columns, none of them the last cell's. */
  lemma DistinctInit(cells: seq<Cell>)
    requires cells != [] && DistinctColumns(cells)
    ensures DistinctColumns(cells[..|cells| - 1])
    ensures cells[|cells| - 1].column !in CellColumns(cells[..|cells| - 1])
  {
    var init := cells[..|cells| - 1];
    assert forall i :: 0 <= i < |init| ==> init[i] == cells[i];
  }

  /** With distinct columns (a sorted row has them), decoding keeps every
      cell: the row has as many entries as the group has cells. */
  lemma {:induction false} DecodedRowSize(cells: seq<Cell>)
    requires DistinctColumns(cells)
    ensures |CellsToEntries(cells)| == |cells|
  {
    if cells != [] {
      var init, last := cells[..|cells| - 1], cells[|cells| - 1];
      DistinctInit(cells);
      DecodedRowSize(init);
      var m := CellsToEntries(init);
      assert last.column !in m;
      assert CellsToEntries(cells) == m[last.column := last.progress];
    }
  }

  /** With distinct columns, each cell's column holds that cell's
      progress in the decoded row. */
  lemma {:induction false} DecodedRowValues(cells: seq<Cell>)
    requires DistinctColumns(cells)
    ensures forall i :: 0 <= i < |cells| ==> CellsToEntries(cells)[cells[i].column] == cells[i].progress
  {
    if cells != [] {
      var init, last := cells[..|cells| - 1], cells[|cells| - 1];
      DistinctInit(cells);
      DecodedRowValues(init);
      var m := CellsToEntries(init);
      assert CellsToEntries(cells) == m[last.column := last.progress];
      forall i | 0 <= i < |init|
        ensures CellsToEntries(cells)[cells[i].column] == cells[i].progress
      {
        assert cells[i] == init[i];
        assert m[init[i].column] == init[i].progress;
      }
    }
  }

  /** A decoded row is complete exactly when every cell of its group is. */
  lemma DecodedRowComplete(cells: seq<Cell>)
    requires DistinctColumns(cells)
    ensures CellsComplete(cells) <==> RowComplete(CellsToEntries(cells))
  {
    DecodedRowValues(cells);
    var m := CellsToEntries(cells);
    if CellsComplete(cells) {
      forall c | c in m ensures IsFullyReplicated(m[c]) {
        var i :| 0 <= i < |cells| && cells[i].column == c;
      }
    }
    if RowComplete(m) {
      forall i | 0 <= i < |cells| ensures IsFullyReplicated(cells[i].progress) {
        assert cells[i].column in CellColumns(cells);
      }
    }
  }

  /** Deleting the columns of every cell of a group deletes every entry of
      the decoded row. */
  lemma DeletionsCoverRow(cells: seq<Cell>, deletes: seq<Column>)
    requires |deletes| == |cells|
    requires forall i :: 0 <= i < |cells| ==> deletes[i] == cells[i].column
    ensures ColumnSet(deletes) == CellsToEntries(cells).Keys
  {
  }

  /** Decides the deletions for one scanned row: every column of the row
      when all of its entries are fully replicated, and nothing at all as
      soon as one entry is not. */
  method RowDeletions(cells: seq<Cell>) returns (deletes: seq<Column>)
    ensures CellsComplete(cells) ==> |deletes| == |cells|
    ensures CellsComplete(cells) ==> forall i :: 0 <= i < |cells| ==> deletes[i] == cells[i].column
    ensures !CellsComplete(cells) ==> deletes == []
  {
    deletes := [];
    var i := 0;
    while i < |cells|
      invariant 0 <= i <= |cells|
      invariant |deletes| == i
      invariant forall k :: 0 <= k < i ==> deletes[k] == cells[k].column
      invariant forall k :: 0 <= k < i ==> IsFullyReplicated(cells[k].progress)
    {
      if !IsFullyReplicated(cells[i].progress) {
        return [];
      }
      deletes := deletes + [cells[i].column];
      i := i + 1;
    }
  }

  /** A stored table has no empty rows: a row exists only through its entries. */
  predicate NoEmptyRows(t: Table)
  {
    forall r :: r in t ==> t[r] != map[]
  }

  function ScannedRows(scan: seq<RowGroup>): set<Row>
  {
    set i | 0 <= i < |scan| :: scan[i].row
  }

  /** What a scan over the whole range with the whole-row iterator
      delivers: every row of the table exactly once, each group holding
      that row's entries, in column order and so without duplicates. */
  predicate IsWholeRowScan(t: Table, scan: seq<RowGroup>)
  {
    && (forall i, j :: 0 <= i < j < |scan| ==> scan[i].row != scan[j].row)
    && (forall i :: 0 <= i < |scan| ==> scan[i].row in t && DistinctColumns(scan[i].cells))
    && (forall i :: 0 <= i < |scan| ==> CellsToEntries(scan[i].cells) == t[scan[i].row])
    && ScannedRows(scan) == t.Keys
  }

  /** Effect of one deletion mutation: the listed columns disappear, and
      the row with them once it has no entry left. */
  function ApplyDeletion(t: Table, d: RowDeletion): (u: Table)
    ensures d.row in t && ColumnSet(d.columns) >= t[d.row].Keys ==> u == t - {d.row}
    ensures forall r :: r != d.row ==> (r in u <==> r in t)
    ensures forall r :: r in u && r != d.row ==> u[r] == t[r]
    ensures NoEmptyRows(t) ==> NoEmptyRows(u)
  {
    if d.row !in t then t
    else
      var rest := t[d.row] - ColumnSet(d.columns);
      if rest == map[] then t - {d.row} else t[d.row := rest]
  }

  /** The table once the rows in `scanned` have been looked at: those of
      them that are complete are gone. */
  function Sweep(t: Table, scanned: set<Row>): Table
  {
    map r | r in t && !(r in scanned && RowComplete(t[r])) :: t[r]
  }

  function SweptRows(t: Table, scanned: set<Row>): set<Row>
  {
    set r | r in scanned && r in t && RowComplete(t[r])
  }

  lemma SweepStep(t: Table, scanned: set<Row>, r: Row)
    requires r in t && r !in scanned
    ensures RowComplete(t[r]) ==> Sweep(t, scanned + {r}) == Sweep(t, scanned) - {r}
    ensures RowComplete(t[r]) ==> SweptRows(t, scanned + {r}) == SweptRows(t, scanned) + {r}
    ensures !RowComplete(t[r]) ==> Sweep(t, scanned + {r}) == Sweep(t, scanned)
    ensures !RowComplete(t[r]) ==> SweptRows(t, scanned + {r}) == SweptRows(t, scanned)
  {
  }

  lemma SweepBounds(t: Table, scan: seq<RowGroup>)
    requires ScannedRows(scan) == t.Keys
    ensures Sweep(t, ScannedRows(scan[..0])) == t
    ensures SweptRows(t, ScannedRows(scan[..0])) == {}
    ensures Sweep(t, ScannedRows(scan[..|scan|])) == AfterPass(t)
    ensures SweptRows(t, ScannedRows(scan[..|scan|])) == CompleteRows(t)
  {
    assert scan[..|scan|] == scan;
  }

  lemma ScannedRowsStep(scan: seq<RowGroup>, i: nat)
    requires i < |scan|
    requires forall a, b :: 0 <= a < b < |scan| ==> scan[a].row != scan[b].row
    ensures ScannedRows(scan[..i + 1]) == ScannedRows(scan[..i]) + {scan[i].row}
    ensures scan[i].row !in ScannedRows(scan[..i])
  {
    assert forall k :: 0 <= k < i ==> scan[..i + 1][k] == scan[..i][k] == scan[k];
    assert scan[..i + 1][i] == scan[i];
  }

  /** A mutation that deletes every column of a complete row of `t`. */
  predicate DeletesCompleteRow(t: Table, w: RowDeletion)
  {
    w.row in t && RowComplete(t[w.row]) && ColumnSet(w.columns) == t[w.row].Keys
  }

  /** The rows a sequence of mutations writes to. */
  function WrittenRows(writes: seq<RowDeletion>): set<Row>
  {
    set k | 0 <= k < |writes| :: writes[k].row
  }

  /** Predicate: no two mutations write the same row. */
  predicate DistinctRowWrites(writes: seq<RowDeletion>)
  {
    forall a, b :: 0 <= a < b < |writes| ==> writes[a].row != writes[b].row
  }

  /** Appending at most one mutation for a row not written before keeps
      the writes on distinct rows and adds that row to the written ones. */
  /** Mutations on distinct rows are as many as the rows they write. */
  lemma {:induction false} DistinctWritesCount(writes: seq<RowDeletion>)
    requires DistinctRowWrites(writes)
    ensures |WrittenRows(writes)| == |writes|
  {
    if writes != [] {
      var init := writes[..|writes| - 1];
      var last := writes[|writes| - 1];
      assert DistinctRowWrites(init);
      DistinctWritesCount(init);
      assert last.row !in WrittenRows(init);
      assert WrittenRows(writes) == WrittenRows(init) + {last.row};
    }
  }

  /** The mutations written once the rows in `scanned` have been looked
      at: one whole-row deletion for each complete scanned row. */
  predicate WritesSoFar(t: Table, scanned: set<Row>, writes: seq<RowDeletion>)
  {
    && WrittenRows(writes) == SweptRows(t, scanned)
    && DistinctRowWrites(writes)
    && forall k :: 0 <= k < |writes| ==> DeletesCompleteRow(t, writes[k])
  }

  lemma WritesStep(t: Table, scanned: set<Row>, writes: seq<RowDeletion>, r: Row, written: seq<RowDeletion>)
    requires WritesSoFar(t, scanned, writes)
    requires r in t && r !in scanned
    requires |written| <= 1 && forall k :: 0 <= k < |written| ==> written[k].row == r
    requires forall k :: 0 <= k < |written| ==> DeletesCompleteRow(t, written[k])
    requires RowComplete(t[r]) ==> |written| == 1
    ensures WritesSoFar(t, scanned + {r}, writes + written)
  {
    var all := writes + written;
    SweepStep(t, scanned, r);
    assert forall k :: 0 <= k < |writes| ==> all[k] == writes[k];
    if written != [] {
      assert all[|writes|] == written[0];
      assert WrittenRows(all) == WrittenRows(writes) + {r};
    } else {
      assert all == writes;
    }
  }

  function CompleteRows(t: Table): set<Row>
  {
    set r | r in t && RowComplete(t[r])
  }

  /** The table after a pass: exactly the rows that are not complete. */
  function AfterPass(t: Table): Table
  {
    map r | r in t && !RowComplete(t[r]) :: t[r]
  }

  /** Number of key-value entries in a table. */
  ghost function EntryCount(t: Table): nat
    decreases t.Keys
  {
    if t == map[] then 0
    else
      var r :| r in t;
      |t[r]| + EntryCount(t - {r})
  }

  /** The entry count can be taken apart at any row. */
  lemma {:induction false} EntryCountPick(t: Table, r: Row)
    requires r in t
    ensures EntryCount(t) == |t[r]| + EntryCount(t - {r})
    decreases t.Keys
  {
    var p :| p in t && EntryCount(t) == |t[p]| + EntryCount(t - {p});
    if p != r {
      var tp, tr := t - {p}, t - {r};
      assert tp - {r} == tr - {p};
      EntryCountPick(tp, r);
      EntryCountPick(tr, p);
    }
  }

  /** Adding a new row adds its entries to the count. */
  lemma EntryCountAdd(t: Table, r: Row, e: RowEntries)
    requires r !in t
    ensures EntryCount(t[r := e]) == |e| + EntryCount(t)
  {
    EntryCountPick(t[r := e], r);
    assert t[r := e] - {r} == t;
  }

  /** Only complete rows lose entries, so the entries a pass removes are
      those of its complete rows. */
  lemma {:induction false} AfterPassEntryCount(t: Table)
    ensures EntryCount(AfterPass(t)) <= EntryCount(t)
    ensures CompleteRows(t) == {} ==> EntryCount(AfterPass(t)) == EntryCount(t)
    decreases t.Keys
  {
    if t != map[] {
      var r :| r in t;
      var rest := t - {r};
      EntryCountPick(t, r);
      AfterPassEntryCount(rest);
      if RowComplete(t[r]) {
        assert AfterPass(t) == AfterPass(rest);
        assert r in CompleteRows(t);
      } else {
        assert AfterPass(t) - {r} == AfterPass(rest);
        EntryCountPick(AfterPass(t), r);
        if CompleteRows(t) == {} {
          assert CompleteRows(rest) == {} by {
            forall x | x in rest ensures !RowComplete(rest[x]) {
              assert x !in CompleteRows(t);
            }
          }
        }
      }
    }
  }

  /** A second pass removes nothing: a pass leaves no complete row. */
  lemma PassIsIdempotent(t: Table)
    ensures CompleteRows(AfterPass(t)) == {}
    ensures AfterPass(AfterPass(t)) == AfterPass(t)
  {
    assert forall r :: r in AfterPass(t) ==> r !in CompleteRows(AfterPass(t));
  }

  /** Per-entry safety: an entry that is not fully replicated survives a
      pass unchanged, and so does every other entry of its row. */
  lemma IncompleteEntryKeepsRow(t: Table, r: Row, c: Column)
    requires r in t && c in t[r] && !IsFullyReplicated(t[r][c])
    ensures r in AfterPass(t) && AfterPass(t)[r] == t[r]
  {
  }

  /** Per-entry completeness: every entry that a pass removes was fully
      replicated, and its whole row is gone. */
  lemma RemovedEntriesWereComplete(t: Table, r: Row, c: Column)
    requires r in t && c in t[r]
    requires r !in AfterPass(t) || c !in AfterPass(t)[r]
    ensures IsFullyReplicated(t[r][c]) && r !in AfterPass(t)
  {
  }

  /** The replication table, updated in place by the batch writer. */
  class ReplicationTable {
    var rows: Table

    ghost predicate Valid()
      reads this
    {
      NoEmptyRows(rows)
    }

    constructor (initial: Table)
      requires NoEmptyRows(initial)
      ensures Valid() && rows == initial
    {
      rows := initial;
    }

    /** The batch writer applying one mutation to the table. */
    method Apply(d: RowDeletion)
      requires Valid()
      modifies this
      ensures Valid()
      ensures rows == ApplyDeletion(old(rows), d)
    {
      rows := ApplyDeletion(rows, d);
    }

    /** Handles one scanned row: when all of its entries are fully
        replicated, one mutation deletes every column of it, so the row
        leaves the table; otherwise nothing is written. */
    method RemoveRowIfComplete(g: RowGroup, ghost t: Table, ghost scanned: set<Row>)
      returns (n: nat, written: seq<RowDeletion>)
      requires Valid()
      requires rows == Sweep(t, scanned)
      requires g.row in t && g.row !in scanned
      requires DistinctColumns(g.cells) && CellsToEntries(g.cells) == t[g.row]
      modifies this
      ensures Valid()
      ensures rows == Sweep(t, scanned + {g.row})
      ensures n + EntryCount(rows) == EntryCount(old(rows))
      ensures |written| <= 1 && forall k :: 0 <= k < |written| ==> written[k].row == g.row
      ensures RowComplete(t[g.row]) ==> |written| == 1
      ensures forall k :: 0 <= k < |written| ==> DeletesCompleteRow(t, written[k])
      ensures !RowComplete(t[g.row]) ==> written == [] && n == 0
    {
      SweepStep(t, scanned, g.row);
      DecodedRowSize(g.cells);
      DecodedRowComplete(g.cells);
      assert g.row in rows && rows[g.row] == t[g.row] && |t[g.row]| > 0;
      var deletes := RowDeletions(g.cells);
      if deletes != [] {
        DeletionsCoverRow(g.cells, deletes);
        var d := RowDeletion(g.row, deletes);
        EntryCountPick(rows, g.row);
        Apply(d);
        assert rows == old(rows) - {g.row};
        n, written := |deletes|, [d];
      } else {
        n, written := 0, [];
      }
    }

    /** One garbage-collection pass over a whole-row scan of the table:
        every complete row is deleted in full through one mutation, every
        other row is left untouched, and the result is the number of
        entries deleted. */
    method RemoveCompleteRecords(scan: seq<RowGroup>) returns (removed: nat, writes: seq<RowDeletion>)
      requires Valid()
      requires IsWholeRowScan(rows, scan)
      modifies this
      ensures Valid()
      ensures rows == AfterPass(old(rows))
      ensures removed + EntryCount(rows) == EntryCount(old(rows))
      ensures WrittenRows(writes) == CompleteRows(old(rows))
      ensures DistinctRowWrites(writes)
      ensures |writes| == |CompleteRows(old(rows))|
      ensures forall w :: w in writes ==> DeletesCompleteRow(old(rows), w)
    {
      ghost var t := rows;
      SweepBounds(t, scan);
      removed, writes := 0, [];
      var i := 0;
      while i < |scan|
        invariant 0 <= i <= |scan|
        invariant Valid()
        invariant rows == Sweep(t, ScannedRows(scan[..i]))
        invariant removed + EntryCount(rows) == EntryCount(t)
        invariant WritesSoFar(t, ScannedRows(scan[..i]), writes)
      {
        ghost var scanned := ScannedRows(scan[..i]);
        ScannedRowsStep(scan, i);
        assert scan[i].row in t && DistinctColumns(scan[i].cells) && CellsToEntries(scan[i].cells) == t[scan[i].row];
        var n, written := RemoveRowIfComplete(scan[i], t, scanned);
        WritesStep(t, scanned, writes, scan[i].row, written);
        removed, writes := removed + n, writes + written;
        i := i + 1;
      }
      DistinctWritesCount(writes);
    }
  }
}
