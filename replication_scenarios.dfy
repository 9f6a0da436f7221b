/**
 * The five garbage-collection scenarios of the replication-record test,
 * stated over the table they build. `RemoveCompleteRecords` leaves
 * `AfterPass(t)`, writes one mutation per row of `CompleteRows(t)` and
 * returns `EntryCount(t) - EntryCount(AfterPass(t))` for any whole-row
 * scan of `t`, so each lemma fixes the outcome of the pass on that
 * table. File names are random in the test: here they are parameters
 * that only need to be distinct.
 */
module ReplicationScenarios {
  import opened Replication

  /** closed, finite, begin == end == 10000: the value the test expects
      to be removed. */
  function Replicated(): (p: Progress)
    ensures IsFullyReplicated(p)
  {
    Progress(10000, 10000, true, false)
  }

  /** The test's builder value: closed=false, end=10000, infiniteEnd=false,
      with the given begin offset. */
  function OpenAt(begin: int): (p: Progress)
    ensures !IsFullyReplicated(p)
  {
    Progress(begin, 10000, false, false)
  }

  function StatusRow(tableId: string, p: Progress): (e: RowEntries)
    ensures |e| == 1
    ensures RowComplete(e) <==> IsFullyReplicated(p)
  {
    map[StatusColumn(tableId) := p]
  }

  /** The three rows every fixture but the first starts with: Status
      "0", "1", "2" with begin 1000, 2000, 3000 of 10000, not closed. */
  function PartialRows(f0: Row, f1: Row, f2: Row): Table
  {
    map[f0 := StatusRow("0", OpenAt(1000)), f1 := StatusRow("1", OpenAt(2000)), f2 := StatusRow("2", OpenAt(3000))]
  }

  lemma PartialRowsFacts(f0: Row, f1: Row, f2: Row)
    requires f0 != f1 && f0 != f2 && f1 != f2
    ensures CompleteRows(PartialRows(f0, f1, f2)) == {}
    ensures EntryCount(PartialRows(f0, f1, f2)) == 3
  {
    var t0 := map[f0 := StatusRow("0", OpenAt(1000))];
    var t1 := t0[f1 := StatusRow("1", OpenAt(2000))];
    EntryCountAdd(map[], f0, StatusRow("0", OpenAt(1000)));
    EntryCountAdd(t0, f1, StatusRow("1", OpenAt(2000)));
    EntryCountAdd(t1, f2, StatusRow("2", OpenAt(3000)));
    assert t1[f2 := StatusRow("2", OpenAt(3000))] == PartialRows(f0, f1, f2);
    PartialRowsIncomplete(f0, f1, f2);
  }

  lemma PartialRowsIncomplete(f0: Row, f1: Row, f2: Row)
    ensures CompleteRows(PartialRows(f0, f1, f2)) == {}
  {
    var t := PartialRows(f0, f1, f2);
    assert forall f :: f in t ==> !RowComplete(t[f]);
  }

  /** Three files, each with one open Status of unknown length: no row is
      complete, so the pass writes nothing and all three entries remain. */
  lemma NotYetReplicationRecordsIgnored(f0: Row, f1: Row, f2: Row)
    requires f0 != f1 && f0 != f2 && f1 != f2
    ensures var t := map[f0 := StatusRow("0", OpenWithUnknownLength()), f1 := StatusRow("1", OpenWithUnknownLength()),
                         f2 := StatusRow("2", OpenWithUnknownLength())];
            CompleteRows(t) == {} && AfterPass(t) == t && EntryCount(AfterPass(t)) == 3
  {
    var p := OpenWithUnknownLength();
    var t0 := map[f0 := StatusRow("0", p)];
    var t1 := t0[f1 := StatusRow("1", p)];
    var t := t1[f2 := StatusRow("2", p)];
    assert forall f :: f in t ==> !RowComplete(t[f]);
    assert AfterPass(t) == t;
    EntryCountAdd(map[], f0, StatusRow("0", p));
    EntryCountAdd(t0, f1, StatusRow("1", p));
    EntryCountAdd(t1, f2, StatusRow("2", p));
  }

  /** Three files whose Status is open at begin 1000, 2000 and 3000 of
      10000: no row is complete and all three entries remain. */
  lemma PartiallyReplicatedRecordsIgnored(f0: Row, f1: Row, f2: Row)
    requires f0 != f1 && f0 != f2 && f1 != f2
    ensures CompleteRows(PartialRows(f0, f1, f2)) == {}
    ensures AfterPass(PartialRows(f0, f1, f2)) == PartialRows(f0, f1, f2)
    ensures EntryCount(AfterPass(PartialRows(f0, f1, f2))) == 3
  {
    PartialRowsFacts(f0, f1, f2);
    var t := PartialRows(f0, f1, f2);
    assert !RowComplete(t[f0]) && !RowComplete(t[f1]) && !RowComplete(t[f2]);
    assert AfterPass(t) == t;
  }

  /** The partial rows plus two files whose Status has begin == end ==
      10000 but is not closed: begin reaching end is not enough, nothing
      is complete and the pass removes no entry. */
  lemma ReplicatedClosedWorkRecordsAreNotRemovedWithoutClosedStatusRecords(f0: Row, f1: Row, f2: Row, f3: Row, f4: Row)
    requires f0 != f1 && f0 != f2 && f0 != f3 && f0 != f4
    requires f1 != f2 && f1 != f3 && f1 != f4
    requires f2 != f3 && f2 != f4 && f3 != f4
    ensures var t := PartialRows(f0, f1, f2)[f3 := StatusRow("5", OpenAt(10000))][f4 := StatusRow("6", OpenAt(10000))];
            CompleteRows(t) == {} && AfterPass(t) == t && EntryCount(t) - EntryCount(AfterPass(t)) == 0
  {
    var t := PartialRows(f0, f1, f2)[f3 := StatusRow("5", OpenAt(10000))][f4 := StatusRow("6", OpenAt(10000))];
    assert !RowComplete(t[f0]) && !RowComplete(t[f1]) && !RowComplete(t[f2]);
    assert !RowComplete(t[f3]) && !RowComplete(t[f4]);
    assert AfterPass(t) == t;
  }

  /** A row whose Status (qualifier `id`) and single Work entry (target
      peer1, `id`, `id`) both hold the replicated value. */
  function ReplicatedRow(id: string): (e: RowEntries)
    ensures |e| == 2 && RowComplete(e)
  {
    var e := map[StatusColumn(id) := Replicated(), WorkColumn(ReplicationTarget("peer1", id, id)) := Replicated()];
    assert e.Keys == {StatusColumn(id), WorkColumn(ReplicationTarget("peer1", id, id))};
    e
  }

  lemma ReplicatedRowsEntryCount(f0: Row, f1: Row, f2: Row, f3: Row, f4: Row)
    requires f0 != f1 && f0 != f2 && f0 != f3 && f0 != f4
    requires f1 != f2 && f1 != f3 && f1 != f4
    requires f2 != f3 && f2 != f4 && f3 != f4
    ensures EntryCount(PartialRows(f0, f1, f2)[f3 := ReplicatedRow("5")][f4 := ReplicatedRow("6")]) == 7
  {
    var kept := PartialRows(f0, f1, f2);
    var t3 := kept[f3 := ReplicatedRow("5")];
    var t := t3[f4 := ReplicatedRow("6")];
    PartialRowsFacts(f0, f1, f2);
    assert f3 !in kept && f4 !in t3;
    EntryCountAdd(t3, f4, ReplicatedRow("6"));
    EntryCountAdd(kept, f3, ReplicatedRow("5"));
  }

  lemma ReplicatedRowsComplete(f0: Row, f1: Row, f2: Row, f3: Row, f4: Row)
    requires f0 != f1 && f0 != f2 && f0 != f3 && f0 != f4
    requires f1 != f2 && f1 != f3 && f1 != f4
    requires f2 != f3 && f2 != f4 && f3 != f4
    ensures CompleteRows(PartialRows(f0, f1, f2)[f3 := ReplicatedRow("5")][f4 := ReplicatedRow("6")]) == {f3, f4}
  {
    var kept := PartialRows(f0, f1, f2);
    var t := kept[f3 := ReplicatedRow("5")][f4 := ReplicatedRow("6")];
    PartialRowsIncomplete(f0, f1, f2);
    assert forall r :: r in t && r !in {f3, f4} ==> r in kept && t[r] == kept[r];
  }

  /** Adding a complete row does not change what a pass keeps. */
  lemma AfterPassSkipsCompleteRow(t: Table, r: Row, e: RowEntries)
    requires r !in t && RowComplete(e)
    ensures AfterPass(t[r := e]) == AfterPass(t)
  {
    assert AfterPass(t[r := e]).Keys == AfterPass(t).Keys;
  }

  /** A table without a complete row passes through unchanged. */
  lemma AfterPassKeepsIncompleteTable(t: Table)
    requires CompleteRows(t) == {}
    ensures AfterPass(t) == t
  {
    assert forall r :: r in t ==> r !in CompleteRows(t);
  }

  lemma ReplicatedRowsAfterPass(f0: Row, f1: Row, f2: Row, f3: Row, f4: Row)
    requires f0 != f1 && f0 != f2 && f0 != f3 && f0 != f4
    requires f1 != f2 && f1 != f3 && f1 != f4
    requires f2 != f3 && f2 != f4 && f3 != f4
    ensures AfterPass(PartialRows(f0, f1, f2)[f3 := ReplicatedRow("5")][f4 := ReplicatedRow("6")]) == PartialRows(f0, f1, f2)
  {
    var kept := PartialRows(f0, f1, f2);
    var t3 := kept[f3 := ReplicatedRow("5")];
    assert f3 !in kept && f4 !in t3;
    AfterPassSkipsCompleteRow(t3, f4, ReplicatedRow("6"));
    AfterPassSkipsCompleteRow(kept, f3, ReplicatedRow("5"));
    PartialRowsIncomplete(f0, f1, f2);
    AfterPassKeepsIncompleteTable(kept);
  }

  /** The partial rows plus two files whose Status and single Work entry
      are both replicated: exactly those two rows are complete, the pass
      removes their four entries, and the three partial entries remain. */
  lemma ReplicatedClosedRowsAreRemoved(f0: Row, f1: Row, f2: Row, f3: Row, f4: Row)
    requires f0 != f1 && f0 != f2 && f0 != f3 && f0 != f4
    requires f1 != f2 && f1 != f3 && f1 != f4
    requires f2 != f3 && f2 != f4 && f3 != f4
    ensures var t := PartialRows(f0, f1, f2)[f3 := ReplicatedRow("5")][f4 := ReplicatedRow("6")];
            && CompleteRows(t) == {f3, f4}
            && AfterPass(t) == PartialRows(f0, f1, f2)
            && EntryCount(AfterPass(t)) == 3
            && EntryCount(t) - EntryCount(AfterPass(t)) == 4
  {
    var kept := PartialRows(f0, f1, f2);
    var t := kept[f3 := ReplicatedRow("5")][f4 := ReplicatedRow("6")];
    PartialRowsFacts(f0, f1, f2);
    ReplicatedRowsEntryCount(f0, f1, f2, f3, f4);
    ReplicatedRowsComplete(f0, f1, f2, f3, f4);
    ReplicatedRowsAfterPass(f0, f1, f2, f3, f4);
  }

  /** The partial rows plus one file whose Status and peer1/peer2 Work
      entries are replicated but whose peer3 Work entry is not closed:
      that one entry keeps the whole row, nothing is removed. */
  lemma PartiallyReplicatedEntriesPrecludeRowDeletion(f0: Row, f1: Row, f2: Row, f3: Row)
    requires f0 != f1 && f0 != f2 && f0 != f3
    requires f1 != f2 && f1 != f3 && f2 != f3
    ensures var r := Replicated();
            var row3 := map[StatusColumn("5") := r,
                            WorkColumn(ReplicationTarget("peer1", "5", "5")) := r,
                            WorkColumn(ReplicationTarget("peer2", "5", "5")) := r,
                            WorkColumn(ReplicationTarget("peer3", "5", "5")) := OpenAt(10000)];
            var t := PartialRows(f0, f1, f2)[f3 := row3];
            CompleteRows(t) == {} && AfterPass(t) == t && EntryCount(t) - EntryCount(AfterPass(t)) == 0
  {
    var r := Replicated();
    var peer3 := WorkColumn(ReplicationTarget("peer3", "5", "5"));
    var row3 := map[StatusColumn("5") := r,
                    WorkColumn(ReplicationTarget("peer1", "5", "5")) := r,
                    WorkColumn(ReplicationTarget("peer2", "5", "5")) := r,
                    peer3 := OpenAt(10000)];
    var t := PartialRows(f0, f1, f2)[f3 := row3];
    assert peer3 in row3 && !IsFullyReplicated(row3[peer3]);
    assert !RowComplete(t[f0]) && !RowComplete(t[f1]) && !RowComplete(t[f2]) && !RowComplete(t[f3]);
    assert AfterPass(t) == t;
  }
}
