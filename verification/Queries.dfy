/** Visible rows selected newest first, cursor pages over them, and traversals that read page after page. */
module Queries {
  import opened Wrappers
  import opened Sequences
  import opened Timestamps
  import opened PostcardStore
  import opened StoreInvariants

  /** The condition a query puts on visible rows. */
  datatype Filter =
    | All
    | Below(id: int)
    | Created(start: string, end: string)

  predicate Selected(row: Row, f: Filter) {
    && row.status == Visible
    && match f
       case All => true
       case Below(id) => row.id < id
       case Created(start, end) => InTextWindow(row.createdAt, start, end)
  }

  /** Selected rows in id order. */
  function Oldest(rows: seq<Row>, f: Filter): seq<Row> {
    if rows == [] then []
    else Oldest(rows[..|rows| - 1], f) + if Selected(rows[|rows| - 1], f) then [rows[|rows| - 1]] else []
  }

  /** Selected rows in descending id order, as every public listing asks for them. */
  function Newest(rows: seq<Row>, f: Filter): seq<Row> {
    if rows == [] then []
    else (if Selected(rows[|rows| - 1], f) then [rows[|rows| - 1]] else []) + Newest(rows[..|rows| - 1], f)
  }

  function ProjectAll(rows: seq<Row>, found: seq<Row>): (items: seq<Postcard>)
    ensures |items| == |found| && forall i :: 0 <= i < |found| ==> items[i] == Project(rows, found[i])
  {
    seq(|found|, i requires 0 <= i < |found| => Project(rows, found[i]))
  }

  datatype Page = Page(items: seq<Postcard>, next: Option<int>)

  function CursorFilter(before: Option<int>): Filter {
    if before.Some? then Below(before.value) else All
  }

  /** One page: a probe for one extra row decides whether there is a next cursor. */
  function ListBefore(db: Db, limit: int, before: Option<int>): Result<Page, Error> {
    if limit < 1 || (before.Some? && before.value < 1) then Err(InvalidArguments)
    else
      var items := ProjectAll(db.rows, FirstN(Newest(db.rows, CursorFilter(before)), limit + 1));
      if |items| > limit then Ok(Page(items[..limit], Some(items[limit - 1].id))) else Ok(Page(items, None))
  }

  function List(db: Db, limit: int, offset: int): Result<seq<Postcard>, Error> {
    if limit < 1 || offset < 0 then Err(InvalidArguments)
    else
      Ok(ProjectAll(db.rows, Slice(Newest(db.rows, All), limit, offset)))
  }

  // ----- what the selection holds -----

  predicate Increasing(rows: seq<Row>) {
    forall i, j :: 0 <= i < j < |rows| ==> rows[i].id < rows[j].id
  }

  predicate Decreasing(ids: seq<int>) {
    forall i, j :: 0 <= i < j < |ids| ==> ids[i] > ids[j]
  }

  lemma {:induction false} NewestHolds(rows: seq<Row>, f: Filter, row: Row)
    ensures row in Newest(rows, f) <==> row in rows && Selected(row, f)
    decreases |rows|
  {
    if rows != [] {
      NewestHolds(rows[..|rows| - 1], f, row);
      assert rows == rows[..|rows| - 1] + [rows[|rows| - 1]];
    }
  }

  lemma {:induction false} NewestDescends(rows: seq<Row>, f: Filter)
    requires Increasing(rows)
    ensures forall i, j :: 0 <= i < j < |Newest(rows, f)| ==> Newest(rows, f)[i].id > Newest(rows, f)[j].id
    decreases |rows|
  {
    if rows != [] {
      var init := rows[..|rows| - 1];
      NewestDescends(init, f);
      forall row | row in Newest(init, f) ensures row.id < rows[|rows| - 1].id { NewestHolds(init, f, row); }
    }
  }

  /** Newest first and oldest first are each other's reversal. */
  lemma {:induction false} NewestReversesOldest(rows: seq<Row>, f: Filter)
    ensures Newest(rows, f) == Reverse(Oldest(rows, f))
    decreases |rows|
  {
    if rows != [] {
      var init, last := Oldest(rows[..|rows| - 1], f), if Selected(rows[|rows| - 1], f) then [rows[|rows| - 1]] else [];
      NewestReversesOldest(rows[..|rows| - 1], f);
      ReverseOfAppend(init, last);
      assert Reverse(last) == last;
    }
  }

  /** The rows a cursor still has ahead of it, visible or not. */
  function CountBelow(rows: seq<Row>, before: Option<int>): nat {
    if rows == [] then 0
    else CountBelow(rows[..|rows| - 1], before) + if before.None? || rows[|rows| - 1].id < before.value then 1 else 0
  }

  lemma {:induction false} CountBelowRow(rows: seq<Row>, p: nat)
    requires Increasing(rows) && p < |rows|
    ensures CountBelow(rows, Some(rows[p].id)) == p
    decreases |rows|
  {
    var init := rows[..|rows| - 1];
    if p == |rows| - 1 {
      AllBelow(init, rows[p].id);
    } else {
      CountBelowRow(init, p);
    }
  }

  lemma {:induction false} AllBelow(rows: seq<Row>, id: int)
    requires forall i :: 0 <= i < |rows| ==> rows[i].id < id
    ensures CountBelow(rows, Some(id)) == |rows|
    decreases |rows|
  {
    if rows != [] { AllBelow(rows[..|rows| - 1], id); }
  }

  lemma {:induction false} AllAhead(rows: seq<Row>)
    ensures CountBelow(rows, None) == |rows|
    decreases |rows|
  {
    if rows != [] { AllAhead(rows[..|rows| - 1]); }
  }

  /** The `k`-th selected row sits at least `k + 1` places down from the top of what the cursor has ahead. */
  lemma {:induction false} NewestPosition(rows: seq<Row>, before: Option<int>, k: nat) returns (p: nat)
    requires Increasing(rows) && k < |Newest(rows, CursorFilter(before))|
    ensures p < |rows| && rows[p] == Newest(rows, CursorFilter(before))[k]
    ensures p + k + 1 <= CountBelow(rows, before)
    decreases |rows|
  {
    var f, init, last := CursorFilter(before), rows[..|rows| - 1], rows[|rows| - 1];
    if Selected(last, f) {
      if k == 0 {
        p := |rows| - 1;
        if before.Some? { AllBelow(rows, before.value); } else { AllAhead(rows); }
      } else {
        p := NewestPosition(init, before, k - 1);
      }
    } else {
      p := NewestPosition(init, before, k);
    }
  }
}
