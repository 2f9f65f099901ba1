/** The weekly selection: the latest postcards of a time window, oldest first. */
module Weekly {
  import opened Wrappers
  import opened Sequences
  import opened Timestamps
  import opened PostcardStore
  import opened StoreInvariants
  import opened Queries

  datatype Selection = Selection(items: seq<Postcard>, total: nat)

  function WindowFilter(env: Env, start: Instant, end: Instant): Filter {
    Created(env.format(start), env.format(end))
  }

  function ListPublicBetween(env: Env, db: Db, start: Instant, end: Instant, limit: int): Result<Selection, Error> {
    if !Earlier(start, end) || limit < 1 then Err(InvalidArguments)
    else
      var found := Oldest(db.rows, WindowFilter(env, start, end));
      Ok(Selection(ProjectAll(db.rows, LastN(found, limit)), |found|))
  }

  predicate InPublicWindow(env: Env, row: Row, start: Instant, end: Instant) {
    row.status == Visible && InTextWindow(row.createdAt, env.format(start), env.format(end))
  }

  lemma {:induction false} OldestHolds(rows: seq<Row>, f: Filter, row: Row)
    ensures row in Oldest(rows, f) <==> row in rows && Selected(row, f)
    decreases |rows|
  {
    if rows != [] {
      OldestHolds(rows[..|rows| - 1], f, row);
      assert rows == rows[..|rows| - 1] + [rows[|rows| - 1]];
    }
  }

  lemma {:induction false} OldestAscends(rows: seq<Row>, f: Filter)
    requires Increasing(rows)
    ensures Increasing(Oldest(rows, f))
    decreases |rows|
  {
    if rows != [] {
      var init := rows[..|rows| - 1];
      OldestAscends(init, f);
      forall row | row in Oldest(init, f) ensures row.id < rows[|rows| - 1].id { OldestHolds(init, f, row); }
    }
  }

  /** Taking from the newest end and turning the result around keeps the end of the list in id order. */
  lemma ReversedHeadIsTail<T>(s: seq<T>, n: nat)
    ensures Reverse(FirstN(Reverse(s), n)) == LastN(s, n)
  {
    LastNIsSuffix(s, n);
    if |s| > n {
      var suffix := s[|s| - n..];
      var head := Reverse(s)[..n];
      forall i | 0 <= i < n ensures Reverse(head)[i] == suffix[i] {
        assert Reverse(head)[i] == head[n - 1 - i] == Reverse(s)[n - 1 - i];
      }
      assert Reverse(head) == suffix;
    } else {
      assert Reverse(Reverse(s)) == s;
    }
  }

  lemma SelectionIsReversedHead(env: Env, db: Db, start: Instant, end: Instant, limit: nat)
    ensures var f := WindowFilter(env, start, end);
            && Reverse(ProjectAll(db.rows, FirstN(Newest(db.rows, f), limit)))
               == ProjectAll(db.rows, LastN(Oldest(db.rows, f), limit))
            && |Newest(db.rows, f)| == |Oldest(db.rows, f)|
  {
    var f := WindowFilter(env, start, end);
    NewestReversesOldest(db.rows, f);
    ReversedHeadIsTail(Oldest(db.rows, f), limit);
  }

  /**
   * The selection ascends, has the smaller of the limit and the total, holds only visible rows whose stored text is in
   * the window, and leaves out only older ones.
   */
  lemma SelectionIsLatest(env: Env, db: Db, start: Instant, end: Instant, limit: int, row: Row)
    requires Ordered(db) && Earlier(start, end) && limit >= 1
    ensures var found := LastN(Oldest(db.rows, WindowFilter(env, start, end)), limit);
            var selection := ListPublicBetween(env, db, start, end, limit).value;
            && selection.items == ProjectAll(db.rows, found)
            && |selection.items| == (if limit <= selection.total then limit else selection.total)
            && (forall i, j :: 0 <= i < j < |selection.items| ==> selection.items[i].id < selection.items[j].id)
            && (row in found ==> row in db.rows && InPublicWindow(env, row, start, end))
            && ((row in db.rows && InPublicWindow(env, row, start, end) && row !in found)
                ==> (|found| == limit && forall i :: 0 <= i < |found| ==> row.id < found[i].id))
  {
    var all := Oldest(db.rows, WindowFilter(env, start, end));
    OldestHolds(db.rows, WindowFilter(env, start, end), row);
    OldestAscends(db.rows, WindowFilter(env, start, end));
    LastNIsSuffix(all, limit);
    if row in all && row !in LastN(all, limit) {
      assert all == all[..|all| - limit] + LastN(all, limit);
      var k :| 0 <= k < |all| - limit && all[k] == row;
    }
  }

  /**
   * For postcards stored with the real time format, the selection's window is the true one except for instants
   * strictly inside the first second after either bound.
   */
  lemma SelectionWindowIsExactWhen(env: Env, row: Row, t: Instant, start: Instant, end: Instant)
    requires env.format(start) == Text(start) && env.format(end) == Text(end) && row.createdAt == Text(t)
    requires ValidInstant(t) && WholeSecond(start) && WholeSecond(end) && Earlier(start, end)
    ensures (Selected(row, WindowFilter(env, start, end)) <==> row.status == Visible && InWindow(t, start, end))
       <==> row.status != Visible || (!InFirstSecondAfter(t, start) && !InFirstSecondAfter(t, end))
  {
    TextWindowIsExactWhen(t, start, end);
  }
}
