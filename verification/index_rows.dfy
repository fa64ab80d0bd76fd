// The command log index as data: rows, the rule that picks one row per
// command, and the retention rule of a cleanup (command/history.go).
module IndexRows {
  import opened Wrappers
  import opened Sequences

  /** One row of an index file. `createdAt` is an instant, `index` the index
      file the row is read from, `file` the record file it names; `details`
      stands for the columns no rule looks at. */
  datatype Row = Row(
    id: string, status: string, createdAt: int,
    index: string, file: string, details: string)

  predicate IsTerminal(status: string) {
    status != "" && status != "running"
  }

  /** The better of two rows of one command: a terminal row beats any other,
      otherwise the strictly newer one wins, so a tie keeps the earlier row. */
  predicate Supersedes(candidate: Row, current: Row) {
    if IsTerminal(candidate.status) != IsTerminal(current.status)
    then IsTerminal(candidate.status)
    else candidate.createdAt > current.createdAt
  }

  // -------------------------------------------------------------------------
  // One row per command

  /** What a reader believes about `id` after one more row. */
  function Absorb(believed: Option<Row>, row: Row, id: string): Option<Row> {
    if row.id != id then believed
    else if believed.None? || Supersedes(row, believed.value) then Some(row)
    else believed
  }

  /** The row a front-to-back reader of `rows` ends up with for `id`. */
  function Best(rows: seq<Row>, id: string): Option<Row> {
    if rows == [] then None
    else Absorb(Best(rows[..|rows| - 1], id), rows[|rows| - 1], id)
  }

  ghost predicate Mentions(rows: seq<Row>, id: string) {
    exists k :: 0 <= k < |rows| && rows[k].id == id
  }

  ghost predicate DistinctIds(rows: seq<Row>) {
    forall i, j :: 0 <= i < j < |rows| ==> rows[i].id != rows[j].id
  }

  /** Row k is the command's, no row of the command supersedes it, and it
      supersedes every earlier one: the first of the undominated rows. */
  ghost predicate Wins(rows: seq<Row>, id: string, k: int) {
    && 0 <= k < |rows| && rows[k].id == id
    && (forall j :: 0 <= j < |rows| && rows[j].id == id ==> !Supersedes(rows[j], rows[k]))
    && (forall j :: 0 <= j < k && rows[j].id == id ==> Supersedes(rows[k], rows[j]))
  }

  lemma WinnerStays(front: seq<Row>, last: Row, id: string, k: nat)
    requires Wins(front, id, k) && (last.id == id ==> !Supersedes(last, front[k]))
    ensures Wins(front + [last], id, k)
  {
  }

  lemma LastTakesOver(front: seq<Row>, last: Row, id: string, k: nat)
    requires Wins(front, id, k) && last.id == id && Supersedes(last, front[k])
    ensures Wins(front + [last], id, |front|)
  {
    var rows := front + [last];
    forall j | 0 <= j < |front| && rows[j].id == id ensures Supersedes(last, rows[j]) && !Supersedes(rows[j], last) {
      assert rows[j] == front[j] && !Supersedes(front[j], front[k]);
    }
  }

  /** What the fold computes, without the fold: no row of the command, or the
      first of its undominated rows. */
  lemma {:induction false} BestIsTheFirstUndominatedRow(rows: seq<Row>, id: string)
    ensures Best(rows, id).None? <==> !Mentions(rows, id)
    ensures Best(rows, id).Some? ==> exists k :: Wins(rows, id, k) && Best(rows, id) == Some(rows[k])
  {
    if rows != [] {
      var front, last := rows[..|rows| - 1], rows[|rows| - 1];
      assert rows == front + [last];
      BestIsTheFirstUndominatedRow(front, id);
      assert Mentions(rows, id) <==> Mentions(front, id) || last.id == id by {
        if Mentions(front, id) {
          var j :| 0 <= j < |front| && front[j].id == id;
          assert rows[j] == front[j];
        }
        assert rows[|front|] == last;
      }
      if Best(front, id).Some? {
        var k :| Wins(front, id, k) && Best(front, id) == Some(front[k]);
        if last.id == id && Supersedes(last, front[k]) {
          LastTakesOver(front, last, id, k);
        } else {
          WinnerStays(front, last, id, k);
          assert Best(rows, id) == Some(rows[k]);
        }
      } else if last.id == id {
        OnlyRowWins(front, last, id);
      }
    }
  }

  lemma OnlyRowWins(front: seq<Row>, last: Row, id: string)
    requires !Mentions(front, id) && last.id == id
    ensures Wins(front + [last], id, |front|)
  {
    forall j | 0 <= j < |front| ensures (front + [last])[j].id != id { assert front[j] == (front + [last])[j]; }
  }

  /** A terminal row is shown whenever the command has one, whatever the
      timestamps say; and what is shown is one of the command's own rows. */
  lemma TerminalRowWins(rows: seq<Row>, k: nat)
    requires k < |rows|
    ensures Best(rows, rows[k].id).Some?
    ensures Best(rows, rows[k].id).value in rows && Best(rows, rows[k].id).value.id == rows[k].id
    ensures IsTerminal(rows[k].status) ==> IsTerminal(Best(rows, rows[k].id).value.status)
  {
    BestIsTheFirstUndominatedRow(rows, rows[k].id);
  }

  /** The shown row in plain terms: a finished row if the command has one, the
      newest of its kind, and of several equally new ones the first. */
  lemma ShownRowIsTheNewestOfItsKind(rows: seq<Row>, id: string)
    ensures Best(rows, id).None? <==> forall r :: r in rows ==> r.id != id
    ensures Best(rows, id).Some? ==>
              var shown := Best(rows, id).value;
              && shown.id == id
              && (forall r :: r in rows && r.id == id && r.status !in {"", "running"} ==>
                    shown.status !in {"", "running"})
              && (forall r :: r in rows && r.id == id && SameKind(r, shown) ==> r.createdAt <= shown.createdAt)
              && exists k :: 0 <= k < |rows| && rows[k] == shown
                   && forall j :: 0 <= j < k && rows[j].id == id && SameKind(rows[j], shown) ==>
                        rows[j].createdAt < shown.createdAt
  {
    BestIsTheFirstUndominatedRow(rows, id);
    if Best(rows, id).Some? {
      var k :| Wins(rows, id, k) && Best(rows, id) == Some(rows[k]);
    }
  }

  /** Both rows finished, or neither. */
  predicate SameKind(a: Row, b: Row) {
    a.status in {"", "running"} <==> b.status in {"", "running"}
  }

  lemma {:induction false} BestOfConcat(x: seq<Row>, y: seq<Row>, tail: seq<Row>, id: string)
    requires Best(x, id) == Best(y, id)
    ensures Best(x + tail, id) == Best(y + tail, id)
  {
    if tail == [] {
      assert x + tail == x && y + tail == y;
    } else {
      BestOfConcat(x, y, tail[..|tail| - 1], id);
      assert (x + tail)[..|x + tail| - 1] == x + tail[..|tail| - 1];
      assert (y + tail)[..|y + tail| - 1] == y + tail[..|tail| - 1];
    }
  }

  lemma {:induction false} BestSkipsForeignRows(x: seq<Row>, foreign: seq<Row>, id: string)
    requires !Mentions(foreign, id)
    ensures Best(x + foreign, id) == Best(x, id)
  {
    if foreign == [] {
      assert x + foreign == x;
    } else {
      var front := foreign[..|foreign| - 1];
      forall k | 0 <= k < |front| ensures front[k].id != id { assert front[k] == foreign[k]; }
      BestSkipsForeignRows(x, front, id);
      assert (x + foreign)[..|x + foreign| - 1] == x + front;
      assert foreign[|foreign| - 1].id != id;
    }
  }

  lemma {:induction false} BestOfUnique(rows: seq<Row>, k: nat)
    requires k < |rows| && DistinctIds(rows)
    ensures Best(rows, rows[k].id) == Some(rows[k])
  {
    BestIsTheFirstUndominatedRow(rows, rows[k].id);
    assert rows[k].id == rows[k].id;
  }

  // -------------------------------------------------------------------------
  // The collapsed index

  /** Command ids in the order of their first row. */
  function FirstSeen(rows: seq<Row>): (ids: seq<string>)
    ensures forall id :: id in ids <==> Best(rows, id).Some?
    ensures forall i, j :: 0 <= i < j < |ids| ==> ids[i] != ids[j]
  {
    if rows == [] then []
    else
      var ids := FirstSeen(rows[..|rows| - 1]);
      var id := rows[|rows| - 1].id;
      if id in ids then ids else ids + [id]
  }

  /** One row per command, in first-seen order. */
  function Collapse(rows: seq<Row>): (collapsed: seq<Row>)
  {
    var ids := FirstSeen(rows);
    seq(|ids|, i requires 0 <= i < |ids| => assert ids[i] in ids; Best(rows, ids[i]).value)
  }

  lemma CollapseHasOneRowPerCommand(rows: seq<Row>)
    ensures DistinctIds(Collapse(rows))
    ensures forall row: Row :: row in Collapse(rows) <==> Best(rows, row.id) == Some(row)
    ensures forall id :: Mentions(Collapse(rows), id) <==> Mentions(rows, id)
  {
    var ids, c := FirstSeen(rows), Collapse(rows);
    forall i | 0 <= i < |c| ensures c[i].id == ids[i] && Best(rows, ids[i]) == Some(c[i]) {
      assert ids[i] in ids;
      BestIsTheFirstUndominatedRow(rows, ids[i]);
    }
    forall row: Row | Best(rows, row.id) == Some(row) ensures row in c {
      assert row.id in ids;
      var i :| 0 <= i < |ids| && ids[i] == row.id;
      assert c[i] == row;
    }
    forall id ensures Mentions(c, id) <==> Mentions(rows, id) {
      BestIsTheFirstUndominatedRow(rows, id);
      if Mentions(rows, id) {
        BestNamesItsCommand(rows, id);
        assert Best(rows, id).value in c;
      }
    }
  }

  lemma {:induction false} BestNamesItsCommand(rows: seq<Row>, id: string)
    ensures Best(rows, id).Some? ==> Best(rows, id).value.id == id && Best(rows, id).value in rows
  {
    BestIsTheFirstUndominatedRow(rows, id);
  }

  lemma {:induction false} DistinctCountsOnce(rows: seq<Row>, row: Row)
    requires DistinctIds(rows)
    ensures multiset(rows)[row] <= 1
  {
    if rows != [] {
      var front, last := rows[..|rows| - 1], rows[|rows| - 1];
      assert rows == front + [last];
      DistinctCountsOnce(front, row);
    }
  }

  lemma PermutationKeepsDistinctIds(rows: seq<Row>, shuffled: seq<Row>)
    requires DistinctIds(rows) && multiset(shuffled) == multiset(rows)
    ensures DistinctIds(shuffled)
    ensures forall row :: row in shuffled <==> row in rows
  {
    forall row ensures row in shuffled <==> row in rows {
      assert row in shuffled <==> row in multiset(shuffled);
      assert row in rows <==> row in multiset(rows);
    }
    forall i, j | 0 <= i < j < |shuffled| ensures shuffled[i].id != shuffled[j].id {
      if shuffled[i].id == shuffled[j].id {
        assert shuffled[i] in rows && shuffled[j] in rows;
        var a :| 0 <= a < |rows| && rows[a] == shuffled[i];
        var b :| 0 <= b < |rows| && rows[b] == shuffled[j];
        assert a == b;
        CountsTwice(shuffled, i, j);
        DistinctCountsOnce(rows, shuffled[i]);
      }
    }
  }

  /** Collapsing early loses nothing: a cleanup may replace rows A by their
      collapsed rows in any order, and every command still shows the row it
      would show had all of A and B been kept. */
  lemma CollapsingEarlyIsInvisible(a: seq<Row>, shuffled: seq<Row>, b: seq<Row>, id: string)
    requires multiset(shuffled) == multiset(Collapse(a))
    ensures Best(shuffled + b, id) == Best(a + b, id)
  {
    CollapseHasOneRowPerCommand(a);
    PermutationKeepsDistinctIds(Collapse(a), shuffled);
    BestIsTheFirstUndominatedRow(shuffled, id);
    BestIsTheFirstUndominatedRow(a, id);
    if Best(shuffled, id).Some? {
      var k :| 0 <= k < |shuffled| && shuffled[k].id == id && Best(shuffled, id) == Some(shuffled[k]);
      assert shuffled[k] in Collapse(a);
    } else if Best(a, id).Some? {
      BestNamesItsCommand(a, id);
      var row := Best(a, id).value;
      assert row in Collapse(a) && row in shuffled;
      assert Mentions(shuffled, id);
    }
    BestOfConcat(shuffled, a, b, id);
  }

  lemma {:induction false} FirstSeenOfUnique(rows: seq<Row>)
    requires DistinctIds(rows)
    ensures |FirstSeen(rows)| == |rows|
    ensures forall k :: 0 <= k < |rows| ==> FirstSeen(rows)[k] == rows[k].id
  {
    if rows != [] {
      var front := rows[..|rows| - 1];
      FirstSeenOfUnique(front);
    }
  }

  lemma CollapseIsIdempotent(rows: seq<Row>)
    ensures Collapse(Collapse(rows)) == Collapse(rows)
  {
    var c := Collapse(rows);
    CollapseHasOneRowPerCommand(rows);
    FirstSeenOfUnique(c);
    forall k | 0 <= k < |c| ensures Collapse(c)[k] == c[k] { BestOfUnique(c, k); }
  }

  /** The map-and-order loop of a reader that lists commands. */
  method LatestEntries(entries: seq<Row>) returns (collapsed: seq<Row>)
    ensures collapsed == Collapse(entries)
  {
    var best: map<string, Row> := map[];
    var order: seq<string> := [];
    for n := 0 to |entries|
      invariant order == FirstSeen(entries[..n])
      invariant forall id :: id in best <==> id in order
      invariant forall id :: id in order ==> Best(entries[..n], id) == Some(best[id])
    {
      var entry := entries[n];
      assert entries[..n + 1][..n] == entries[..n];
      if entry.id !in best {
        order := order + [entry.id];
        best := best[entry.id := entry];
      } else if Supersedes(entry, best[entry.id]) {
        best := best[entry.id := entry];
      }
    }
    assert entries[..|entries|] == entries;
    collapsed := [];
    for n := 0 to |order|
      invariant |collapsed| == n
      invariant forall k :: 0 <= k < n ==> Best(entries, order[k]) == Some(collapsed[k])
    {
      assert order[n] in order;
      collapsed := collapsed + [best[order[n]]];
    }
  }

  /** The single-command loop of a reader that polls one command. It agrees
      with the listing by construction: both show Best. */
  method ResolveEntry(entries: seq<Row>, id: string) returns (best: Option<Row>)
    ensures best == Best(entries, id)
  {
    best := None;
    for n := 0 to |entries|
      invariant best == Best(entries[..n], id)
    {
      assert entries[..n + 1][..n] == entries[..n];
      var entry := entries[n];
      if entry.id == id && (best.None? || Supersedes(entry, best.value)) {
        best := Some(entry);
      }
    }
    assert entries[..|entries|] == entries;
  }

  // -------------------------------------------------------------------------
  // Retention

  ghost predicate SortedByCreation(rows: seq<Row>) {
    forall i, j :: 0 <= i < j < |rows| ==> rows[i].createdAt <= rows[j].createdAt
  }

  /** The split a cleanup may make of its collapsed rows: rows before the
      cutoff go, and of the rest only so many as exceed the limit, never one
      newer than a row that stays. */
  ghost predicate Retention(commands: seq<Row>, cutoff: int, maxRecords: int, kept: seq<Row>, dropped: seq<Row>) {
    && multiset(kept) + multiset(dropped) == multiset(commands)
    && SortedByCreation(kept)
    && (maxRecords > 0 ==> |kept| <= maxRecords)
    && (forall k :: k in kept ==> k.createdAt >= cutoff)
    && (forall d :: d in dropped ==> Expired(d, cutoff) || Crowded(d, maxRecords, kept))
  }

  predicate Expired(row: Row, cutoff: int) {
    row.createdAt < cutoff
  }

  /** The limit is used up by rows at least as new. */
  ghost predicate Crowded(row: Row, maxRecords: int, kept: seq<Row>) {
    && maxRecords > 0 && |kept| == maxRecords
    && forall k :: k in kept ==> row.createdAt <= k.createdAt
  }

  lemma RetentionPartitionsCommands(commands: seq<Row>, cutoff: int, maxRecords: int, kept: seq<Row>, dropped: seq<Row>)
    requires DistinctIds(commands) && Retention(commands, cutoff, maxRecords, kept, dropped)
    ensures DistinctIds(kept) && DistinctIds(dropped)
    ensures forall row :: row in commands <==> row in kept || row in dropped
    ensures forall k, d :: k in kept && d in dropped ==> k.id != d.id && d.createdAt <= k.createdAt
  {
    var all := kept + dropped;
    assert multiset(all) == multiset(commands);
    PermutationKeepsDistinctIds(commands, all);
    forall i, j | 0 <= i < j < |kept| ensures kept[i].id != kept[j].id {
      assert all[i] == kept[i] && all[j] == kept[j];
    }
    forall i, j | 0 <= i < j < |dropped| ensures dropped[i].id != dropped[j].id {
      assert all[|kept| + i] == dropped[i] && all[|kept| + j] == dropped[j];
    }
    forall k, d | k in kept && d in dropped ensures k.id != d.id && d.createdAt <= k.createdAt {
      var i :| 0 <= i < |kept| && kept[i] == k;
      var j :| 0 <= j < |dropped| && dropped[j] == d;
      assert all[i] == k && all[|kept| + j] == d;
    }
  }

  function InsertByCreation(sorted: seq<Row>, row: Row): (r: seq<Row>)
    ensures multiset(r) == multiset(sorted) + multiset{row}
  {
    if sorted == [] || row.createdAt <= sorted[0].createdAt then [row] + sorted
    else
      assert sorted == [sorted[0]] + sorted[1..];
      [sorted[0]] + InsertByCreation(sorted[1..], row)
  }

  lemma {:induction false} InsertKeepsOrder(sorted: seq<Row>, row: Row)
    requires SortedByCreation(sorted)
    ensures SortedByCreation(InsertByCreation(sorted, row))
  {
    if sorted != [] && row.createdAt > sorted[0].createdAt {
      InsertKeepsOrder(sorted[1..], row);
      var rest := InsertByCreation(sorted[1..], row);
      forall j | 0 <= j < |rest| ensures sorted[0].createdAt <= rest[j].createdAt {
        assert rest[j] in multiset(rest);
        assert rest[j] == row || rest[j] in sorted[1..];
      }
    }
  }

  /** Orders rows by creation time; rows of equal time come in any order, so
      callers know no more than sortedness. */
  method SortByCreation(rows: seq<Row>) returns (sorted: seq<Row>)
    ensures SortedByCreation(sorted) && multiset(sorted) == multiset(rows)
  {
    sorted := [];
    for n := 0 to |rows|
      invariant SortedByCreation(sorted) && multiset(sorted) == multiset(rows[..n])
    {
      assert rows[..n + 1] == rows[..n] + [rows[n]];
      InsertKeepsOrder(sorted, rows[n]);
      sorted := InsertByCreation(sorted, rows[n]);
    }
    assert rows[..|rows|] == rows;
  }

  /** The retention pass of a cleanup over its collapsed rows. */
  method ApplyRetention(commands: seq<Row>, cutoff: int, maxRecords: int) returns (kept: seq<Row>, dropped: seq<Row>)
    ensures Retention(commands, cutoff, maxRecords, kept, dropped)
    ensures multiset(kept) + multiset(dropped) == multiset(commands)
    ensures forall k :: k in kept ==> cutoff <= k.createdAt
    ensures maxRecords > 0 ==> |kept| <= maxRecords
    ensures forall d :: d in dropped && cutoff <= d.createdAt ==>
              && maxRecords > 0 && |kept| == maxRecords
              && forall k :: k in kept ==> d.createdAt <= k.createdAt
  {
    kept, dropped := [], [];
    for n := 0 to |commands|
      invariant multiset(kept) + multiset(dropped) == multiset(commands[..n])
      invariant forall k :: k in kept ==> k.createdAt >= cutoff
      invariant forall d :: d in dropped ==> Expired(d, cutoff)
    {
      assert commands[..n + 1] == commands[..n] + [commands[n]];
      if commands[n].createdAt < cutoff {
        dropped := dropped + [commands[n]];
      } else {
        kept := kept + [commands[n]];
      }
    }
    assert commands[..|commands|] == commands;
    ghost var young := kept;
    kept := SortByCreation(kept);
    forall k | k in kept ensures k.createdAt >= cutoff { assert k in multiset(young); }
    if maxRecords > 0 && |kept| > maxRecords {
      var drop := |kept| - maxRecords;
      OldestLeave(kept, drop);
      dropped := dropped + kept[..drop];
      kept := kept[drop..];
    }
  }

  lemma OldestLeave(sorted: seq<Row>, drop: nat)
    requires SortedByCreation(sorted) && drop <= |sorted|
    ensures SortedByCreation(sorted[drop..])
    ensures multiset(sorted[..drop]) + multiset(sorted[drop..]) == multiset(sorted)
    ensures forall d, k :: d in sorted[..drop] && k in sorted[drop..] ==> d.createdAt <= k.createdAt
  {
    assert sorted == sorted[..drop] + sorted[drop..];
    forall d, k | d in sorted[..drop] && k in sorted[drop..] ensures d.createdAt <= k.createdAt {
      var i :| 0 <= i < drop && sorted[i] == d;
      var j :| drop <= j < |sorted| && sorted[j] == k;
    }
  }
}
