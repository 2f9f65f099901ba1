/** Reading page after page while other transactions run in between. */
module Pagination {
  import opened Wrappers
  import opened Sequences
  import opened Timestamps
  import opened PostcardStore
  import opened StoreInvariants
  import opened Queries

  /**
   * The pages a reader sees who follows the cursors, with `gaps[k]` the transactions that run between page `k` and
   * the next one. The reading stops at a page without cursor, or when no further gap is given.
   */
  function Traverse(env: Env, db: Db, limit: int, before: Option<int>, gaps: seq<seq<Change>>): seq<Page>
    requires limit >= 1 && (before.Some? ==> before.value >= 1) && Ordered(db)
    decreases |gaps|
  {
    var page := ListBefore(db, limit, before).value;
    if page.next.None? || gaps == [] then [page]
    else
      CursorIsRow(db, limit, before);
      RunKeepsOrdered(env, db, gaps[0]);
      [page] + Traverse(env, Run(env, db, gaps[0]), limit, page.next, gaps[1..])
  }

  /** The reader reached a page without a cursor. */
  predicate Finished(pages: seq<Page>) {
    pages != [] && pages[|pages| - 1].next.None?
  }

  function Ids(items: seq<Postcard>): (ids: seq<int>)
    ensures |ids| == |items| && forall i :: 0 <= i < |items| ==> ids[i] == items[i].id
  {
    seq(|items|, i requires 0 <= i < |items| => items[i].id)
  }

  function AllItems(pages: seq<Page>): seq<Postcard> {
    if pages == [] then [] else pages[0].items + AllItems(pages[1..])
  }

  function AllIds(pages: seq<Page>): seq<int> {
    if pages == [] then [] else Ids(pages[0].items) + AllIds(pages[1..])
  }

  /** The row is visible at every moment at which the reader takes a page. */
  ghost predicate VisibleThroughout(env: Env, db: Db, limit: int, before: Option<int>, gaps: seq<seq<Change>>, id: int)
    requires limit >= 1 && (before.Some? ==> before.value >= 1) && Ordered(db)
    decreases |gaps|
  {
    var page := ListBefore(db, limit, before).value;
    && IsVisible(db.rows, id)
    && (page.next.Some? && gaps != [] ==>
          (CursorIsRow(db, limit, before);
           RunKeepsOrdered(env, db, gaps[0]);
           VisibleThroughout(env, Run(env, db, gaps[0]), limit, page.next, gaps[1..], id)))
  }

  // ----- one page -----

  lemma NextKeepsOrdered(env: Env, db: Db, c: Change)
    requires Ordered(db)
    ensures Ordered(Next(env, db, c))
  {
  }

  lemma {:induction false} RunKeepsOrdered(env: Env, db: Db, changes: seq<Change>)
    requires Ordered(db)
    ensures Ordered(Run(env, db, changes))
    decreases |changes|
  {
    if changes != [] {
      NextKeepsOrdered(env, db, changes[0]);
      RunKeepsOrdered(env, Next(env, db, changes[0]), changes[1..]);
    }
  }

  /** A page lists the selected rows from the top and carries a cursor exactly when it does not list them all. */
  lemma PageShape(db: Db, limit: int, before: Option<int>)
    requires limit >= 1 && (before.Some? ==> before.value >= 1)
    ensures var found, page := Newest(db.rows, CursorFilter(before)), ListBefore(db, limit, before).value;
            && (page.next.Some? <==> |found| > limit)
            && (page.next.Some? ==> page.next.value == found[limit - 1].id)
            && |page.items| == (if |found| > limit then limit else |found|)
            && (forall i :: 0 <= i < |page.items| ==> page.items[i] == Project(db.rows, found[i]))
  {
  }

  lemma CursorIsRow(db: Db, limit: int, before: Option<int>)
    requires limit >= 1 && (before.Some? ==> before.value >= 1) && Ordered(db)
    requires ListBefore(db, limit, before).value.next.Some?
    ensures var next := ListBefore(db, limit, before).value.next.value;
            && next >= 1 && next <= db.lastId && (before.Some? ==> next < before.value)
            && limit + CountBelow(db.rows, Some(next)) <= CountBelow(db.rows, before)
  {
    PageShape(db, limit, before);
    var p := NewestPosition(db.rows, before, limit - 1);
    CountBelowRow(db.rows, p);
    NewestHolds(db.rows, CursorFilter(before), db.rows[p]);
  }

  /** A page lists visible rows below the cursor. */
  lemma PageHolds(db: Db, limit: int, before: Option<int>, i: nat)
    requires limit >= 1 && (before.Some? ==> before.value >= 1) && i < |ListBefore(db, limit, before).value.items|
    ensures var id := ListBefore(db, limit, before).value.items[i].id;
            HasRow(db.rows, id) && IsVisible(db.rows, id) && (before.Some? ==> id < before.value)
  {
    var found := Newest(db.rows, CursorFilter(before));
    PageShape(db, limit, before);
    NewestHolds(db.rows, CursorFilter(before), found[i]);
    var j :| 0 <= j < |db.rows| && db.rows[j] == found[i];
    assert db.rows[j].id == found[i].id && db.rows[j].status == Visible;
  }

  /** The ids of a page descend, are ids of visible rows below the cursor, and end at the next cursor. */
  lemma PageIds(db: Db, limit: int, before: Option<int>)
    requires limit >= 1 && (before.Some? ==> before.value >= 1) && Ordered(db)
    ensures var page := ListBefore(db, limit, before).value;
            && Decreasing(Ids(page.items))
            && (forall id :: id in Ids(page.items) ==>
                  HasRow(db.rows, id) && IsVisible(db.rows, id) && (before.Some? ==> id < before.value))
            && (page.next.Some? ==> forall id :: id in Ids(page.items) ==> id >= page.next.value)
  {
    var page := ListBefore(db, limit, before).value;
    var ids := Ids(page.items);
    assert Decreasing(ids) && (page.next.Some? ==> limit == |ids| && page.next.value == ids[limit - 1]) by {
      PageShape(db, limit, before);
      NewestDescends(db.rows, CursorFilter(before));
    }
    forall id | id in ids
      ensures HasRow(db.rows, id) && IsVisible(db.rows, id) && (before.Some? ==> id < before.value)
      ensures page.next.Some? ==> id >= page.next.value
    {
      var i :| 0 <= i < |ids| && ids[i] == id;
      PageHolds(db, limit, before, i);
    }
  }

  /** Every visible row below the cursor is on the page or below the next cursor. */
  lemma PageIsComplete(db: Db, limit: int, before: Option<int>, id: int)
    requires limit >= 1 && (before.Some? ==> before.value >= 1) && Ordered(db)
    requires IsVisible(db.rows, id) && (before.Some? ==> id < before.value)
    ensures var page := ListBefore(db, limit, before).value;
            id in Ids(page.items) || (page.next.Some? && id < page.next.value)
  {
    var found, page := Newest(db.rows, CursorFilter(before)), ListBefore(db, limit, before).value;
    PageShape(db, limit, before);
    NewestDescends(db.rows, CursorFilter(before));
    var j :| 0 <= j < |db.rows| && db.rows[j].id == id && db.rows[j].status == Visible;
    NewestHolds(db.rows, CursorFilter(before), db.rows[j]);
    var i :| 0 <= i < |found| && found[i] == db.rows[j];
    if i < |page.items| { assert Ids(page.items)[i] == id; }
  }

  // ----- whole traversals -----

  lemma DecreasingAppend(a: seq<int>, b: seq<int>, cut: int)
    requires Decreasing(a) && Decreasing(b)
    requires (forall x :: x in a ==> x >= cut) && (forall x :: x in b ==> x < cut)
    ensures Decreasing(a + b)
  {
    forall i, j | 0 <= i < j < |a + b| ensures (a + b)[i] > (a + b)[j] {
      if i < |a| <= j { assert a[i] in a && b[j - |a|] in b; }
    }
  }

  /** An old id met in a later state belongs to a row that was there before. */
  lemma OldIdIsOldRow(before: Db, after: Db, id: int)
    requires Extends(before, after) && HasRow(after.rows, id) && id <= before.lastId
    ensures HasRow(before.rows, id)
  {
    var i :| 0 <= i < |after.rows| && after.rows[i].id == id;
    assert i < |before.rows|;
    assert before.rows[i].id == id;
  }

  /**
   * Whatever is published, hidden or restored between the pages: ids strictly descend across all pages, so no
   * postcard appears twice, and every postcard shown existed when the first page was read.
   */
  lemma {:induction false} TraversalDescends(env: Env, db: Db, limit: int, before: Option<int>, gaps: seq<seq<Change>>)
    requires limit >= 1 && (before.Some? ==> before.value >= 1) && Ordered(db)
    ensures var ids := AllIds(Traverse(env, db, limit, before, gaps));
            && Decreasing(ids)
            && forall id :: id in ids ==> HasRow(db.rows, id) && (before.Some? ==> id < before.value)
    decreases |gaps|
  {
    var page := ListBefore(db, limit, before).value;
    var pages := Traverse(env, db, limit, before, gaps);
    PageIds(db, limit, before);
    if page.next.None? || gaps == [] {
      assert AllIds(pages) == Ids(page.items) + AllIds([]);
    } else {
      CursorIsRow(db, limit, before);
      RunKeepsOrdered(env, db, gaps[0]);
      RunExtends(env, db, gaps[0]);
      var later := Run(env, db, gaps[0]);
      var rest := Traverse(env, later, limit, page.next, gaps[1..]);
      TraversalDescends(env, later, limit, page.next, gaps[1..]);
      assert pages[1..] == rest;
      DecreasingAppend(Ids(page.items), AllIds(rest), page.next.value);
      forall id | id in AllIds(rest) ensures HasRow(db.rows, id) { OldIdIsOldRow(db, later, id); }
    }
  }

  lemma PageFirst(page: Page, rest: seq<Page>)
    ensures AllIds([page] + rest) == Ids(page.items) + AllIds(rest)
    ensures Finished([page] + rest) <==> if rest == [] then page.next.None? else Finished(rest)
  {
    assert ([page] + rest)[1..] == rest;
  }

  /** A finished traversal shows every postcard that was visible whenever a page was read. */
  lemma {:induction false} TraversalIsComplete(env: Env, db: Db, limit: int, before: Option<int>,
      gaps: seq<seq<Change>>, id: int)
    requires limit >= 1 && (before.Some? ==> before.value >= 1) && Ordered(db)
    requires VisibleThroughout(env, db, limit, before, gaps, id) && (before.Some? ==> id < before.value)
    requires Finished(Traverse(env, db, limit, before, gaps))
    ensures id in AllIds(Traverse(env, db, limit, before, gaps))
    decreases |gaps|
  {
    var page := ListBefore(db, limit, before).value;
    PageIsComplete(db, limit, before, id);
    if page.next.None? || gaps == [] {
      PageFirst(page, []);
    } else {
      CursorIsRow(db, limit, before);
      RunKeepsOrdered(env, db, gaps[0]);
      var later := Run(env, db, gaps[0]);
      PageFirst(page, Traverse(env, later, limit, page.next, gaps[1..]));
      if id < page.next.value { TraversalIsComplete(env, later, limit, page.next, gaps[1..], id); }
    }
  }

  lemma {:induction false} CountBelowUnchanged(rows: seq<Row>, more: seq<Row>, next: int)
    requires |rows| <= |more| && (forall i :: 0 <= i < |rows| ==> more[i].id == rows[i].id)
    requires forall i :: |rows| <= i < |more| ==> more[i].id >= next
    ensures CountBelow(more, Some(next)) == CountBelow(rows, Some(next))
    decreases |more|
  {
    if |more| > |rows| {
      CountBelowUnchanged(rows, more[..|more| - 1], next);
    } else if more != [] {
      CountBelowUnchanged(rows[..|rows| - 1], more[..|more| - 1], next);
    }
  }

  lemma LaterRowsStayAbove(env: Env, db: Db, changes: seq<Change>, next: int)
    requires Ordered(db) && next <= db.lastId
    ensures Ordered(Run(env, db, changes))
    ensures CountBelow(Run(env, db, changes).rows, Some(next)) == CountBelow(db.rows, Some(next))
  {
    RunKeepsOrdered(env, db, changes);
    RunExtends(env, db, changes);
    CountBelowUnchanged(db.rows, Run(env, db, changes).rows, next);
  }

  lemma OneFewer(limit: int, pages: int)
    ensures limit * (pages - 1) == limit * pages - limit
  {
  }

  /** Every further page uses up `limit` of the rows that existed at the start, so the traversal ends. */
  lemma {:induction false} TraversalEnds(env: Env, db: Db, limit: int, before: Option<int>, gaps: seq<seq<Change>>)
    requires limit >= 1 && (before.Some? ==> before.value >= 1) && Ordered(db)
    requires limit * |gaps| >= CountBelow(db.rows, before)
    ensures Finished(Traverse(env, db, limit, before, gaps))
    decreases |gaps|
  {
    var page := ListBefore(db, limit, before).value;
    if page.next.Some? {
      CursorIsRow(db, limit, before);
      if gaps != [] {
        var later := Run(env, db, gaps[0]);
        LaterRowsStayAbove(env, db, gaps[0], page.next.value);
        OneFewer(limit, |gaps|);
        TraversalEnds(env, later, limit, page.next, gaps[1..]);
        PageFirst(page, Traverse(env, later, limit, page.next, gaps[1..]));
      }
    }
  }

  // ----- without interleaving -----

  predicate Quiet(gaps: seq<seq<Change>>) {
    forall k :: 0 <= k < |gaps| ==> gaps[k] == []
  }

  lemma {:induction false} NewestSplits(rows: seq<Row>, before: Option<int>, n: nat)
    requires Increasing(rows) && 0 < n < |Newest(rows, CursorFilter(before))|
    ensures var found := Newest(rows, CursorFilter(before));
            found[n..] == Newest(rows, Below(found[n - 1].id))
    decreases |rows|, 0
  {
    var f, init, last := CursorFilter(before), rows[..|rows| - 1], rows[|rows| - 1];
    var found, rest := Newest(rows, f), Newest(init, f);
    var id := found[n - 1].id;
    LastIsNotBelow(rows, before, n);
    assert Newest(rows, Below(id)) == Newest(init, Below(id));
    if Selected(last, f) {
      AfterTop(last, rest, n);
      assert found == [last] + rest;
      RestIsBelow(init, before, n - 1, rest, last.id, id);
    } else {
      NewestSplits(init, before, n);
    }
  }

  /** The rows after the first `n` of the rest, with a row above all of them already taken. */
  lemma {:induction false} RestIsBelow(init: seq<Row>, before: Option<int>, n: nat, rest: seq<Row>, top: int, id: int)
    requires Increasing(init) && rest == Newest(init, CursorFilter(before)) && n < |rest|
    requires (before.Some? ==> top < before.value) && forall i :: 0 <= i < |init| ==> init[i].id < top
    requires id == if n == 0 then top else rest[n - 1].id
    ensures rest[n..] == Newest(init, Below(id))
    decreases |init|, 1
  {
    if n == 0 {
      BelowTopIsRest(init, CursorFilter(before), before, top);
    } else {
      NewestSplits(init, before, n);
    }
  }

  lemma AfterTop<T>(top: T, rest: seq<T>, n: nat)
    requires 0 < n <= |rest|
    ensures ([top] + rest)[n..] == rest[n - 1..]
    ensures ([top] + rest)[n - 1] == if n == 1 then top else rest[n - 2]
  {
  }

  lemma LastIsNotBelow(rows: seq<Row>, before: Option<int>, n: nat)
    requires Increasing(rows) && 0 < n < |Newest(rows, CursorFilter(before))|
    ensures !Selected(rows[|rows| - 1], Below(Newest(rows, CursorFilter(before))[n - 1].id))
  {
    var found := Newest(rows, CursorFilter(before));
    NewestDescends(rows, CursorFilter(before));
    NewestHolds(rows, CursorFilter(before), found[n - 1]);
  }

  /** Once the top selected row is taken, the rest is what lies below its id. */
  lemma {:induction false} BelowTopIsRest(rows: seq<Row>, f: Filter, before: Option<int>, id: int)
    requires f == CursorFilter(before) && (before.Some? ==> id < before.value)
    requires forall i :: 0 <= i < |rows| ==> rows[i].id < id
    ensures Newest(rows, f) == Newest(rows, Below(id))
    decreases |rows|
  {
    if rows != [] { BelowTopIsRest(rows[..|rows| - 1], f, before, id); }
  }

  lemma LastPageIsAll(db: Db, limit: int, before: Option<int>)
    requires limit >= 1 && (before.Some? ==> before.value >= 1) && ListBefore(db, limit, before).value.next.None?
    ensures ListBefore(db, limit, before).value.items == ProjectAll(db.rows, Newest(db.rows, CursorFilter(before)))
  {
    PageShape(db, limit, before);
  }

  lemma PageThenRest(db: Db, limit: int, before: Option<int>)
    requires limit >= 1 && (before.Some? ==> before.value >= 1) && Ordered(db)
    requires ListBefore(db, limit, before).value.next.Some?
    ensures var page := ListBefore(db, limit, before).value;
            page.items + ProjectAll(db.rows, Newest(db.rows, CursorFilter(page.next)))
            == ProjectAll(db.rows, Newest(db.rows, CursorFilter(before)))
  {
    var found, page := Newest(db.rows, CursorFilter(before)), ListBefore(db, limit, before).value;
    assert |found| > limit && page.items == ProjectAll(db.rows, found)[..limit] by { PageShape(db, limit, before); }
    assert Newest(db.rows, CursorFilter(page.next)) == found[limit..] by {
      PageShape(db, limit, before);
      NewestSplits(db.rows, before, limit);
    }
    ProjectSplits(db.rows, found, limit);
  }

  lemma ProjectSplits(rows: seq<Row>, found: seq<Row>, n: nat)
    requires n <= |found|
    ensures ProjectAll(rows, found) == ProjectAll(rows, found)[..n] + ProjectAll(rows, found[n..])
  {
  }

  /** With nothing running in between, the pages together are the full newest-first list. */
  lemma {:induction false} QuietTraversalIsList(env: Env, db: Db, limit: int, before: Option<int>,
      gaps: seq<seq<Change>>)
    requires limit >= 1 && (before.Some? ==> before.value >= 1) && Ordered(db) && Quiet(gaps)
    requires Finished(Traverse(env, db, limit, before, gaps))
    ensures AllItems(Traverse(env, db, limit, before, gaps))
         == ProjectAll(db.rows, Newest(db.rows, CursorFilter(before)))
    decreases |gaps|
  {
    var page := ListBefore(db, limit, before).value;
    var pages := Traverse(env, db, limit, before, gaps);
    if page.next.None? || gaps == [] {
      LastPageIsAll(db, limit, before);
      assert AllItems(pages) == page.items + AllItems([]);
    } else {
      CursorIsRow(db, limit, before);
      assert Run(env, db, gaps[0]) == db;
      var rest := Traverse(env, db, limit, page.next, gaps[1..]);
      assert pages[1..] == rest && pages[|pages| - 1] == rest[|rest| - 1];
      QuietTraversalIsList(env, db, limit, page.next, gaps[1..]);
      PageThenRest(db, limit, before);
    }
  }

  /** The offset listing with room for everything is that same list. */
  lemma QuietTraversalIsOffsetList(env: Env, db: Db, limit: int, gaps: seq<seq<Change>>, all: int)
    requires limit >= 1 && Ordered(db) && Quiet(gaps) && all >= 1 && all >= |db.rows|
    requires Finished(Traverse(env, db, limit, None, gaps))
    ensures List(db, all, 0) == Ok(AllItems(Traverse(env, db, limit, None, gaps)))
  {
    QuietTraversalIsList(env, db, limit, None, gaps);
    NewestIsShort(db.rows, All);
    var found := Newest(db.rows, All);
    assert found[0..] == found;
  }

  lemma {:induction false} NewestIsShort(rows: seq<Row>, f: Filter)
    ensures |Newest(rows, f)| <= |rows|
    decreases |rows|
  {
    if rows != [] { NewestIsShort(rows[..|rows| - 1], f); }
  }

  // ----- offset pages -----

  /** The first `n` offset pages, one after another. */
  function OffsetPages(db: Db, limit: int, n: nat): seq<Postcard>
    requires limit >= 1
  {
    if n == 0 then [] else OffsetPages(db, limit, n - 1) + OffsetPage(db, limit, limit * (n - 1))
  }

  function OffsetPage(db: Db, limit: int, offset: int): seq<Postcard>
    requires limit >= 1
  {
    if offset < 0 then [] else List(db, limit, offset).value
  }

  /** In a quiet store, offset pages together are the newest-first list up to where they end. */
  lemma {:induction false} OffsetPagesAreList(db: Db, limit: int, n: nat)
    requires limit >= 1
    ensures limit * n >= 0
    ensures OffsetPages(db, limit, n) == ProjectAll(db.rows, FirstN(Newest(db.rows, All), limit * n))
    ensures limit * n >= |db.rows| ==> OffsetPages(db, limit, n) == ProjectAll(db.rows, Newest(db.rows, All))
    decreases n
  {
    NewestIsShort(db.rows, All);
    if n > 0 {
      OneFewer(limit, n);
      OffsetPagesAreList(db, limit, n - 1);
      NextOffsetPage(db, limit, limit * (n - 1));
    }
  }

  lemma NextOffsetPage(db: Db, limit: int, offset: nat)
    requires limit >= 1
    ensures ProjectAll(db.rows, FirstN(Newest(db.rows, All), offset)) + OffsetPage(db, limit, offset)
         == ProjectAll(db.rows, FirstN(Newest(db.rows, All), offset + limit))
  {
    var found := Newest(db.rows, All);
    FirstThenSlice(found, limit, offset);
    ProjectAppends(db.rows, FirstN(found, offset), Slice(found, limit, offset));
  }

  lemma ProjectAppends(rows: seq<Row>, a: seq<Row>, b: seq<Row>)
    ensures ProjectAll(rows, a) + ProjectAll(rows, b) == ProjectAll(rows, a + b)
  {
  }

  function RowIds(rows: seq<Row>): (ids: seq<int>)
    ensures |ids| == |rows| && forall i :: 0 <= i < |rows| ==> ids[i] == rows[i].id
  {
    seq(|rows|, i requires 0 <= i < |rows| => rows[i].id)
  }

  /** The ids on an offset page, read off the rows. */
  lemma OffsetPageIds(db: Db, limit: int, offset: nat)
    requires limit >= 1
    ensures Ids(OffsetPage(db, limit, offset)) == RowIds(Slice(Newest(db.rows, All), limit, offset))
  {
  }

  /**
   * One publication moves every offset page down by one: what stood at an offset stands one further, and a reader who
   * goes on to the next page sees the last postcard of a full page again.
   */
  lemma PublicationShiftsOffsets(env: Env, db: Db, s: Submission, after: Db, limit: int, offset: nat)
    requires limit >= 1 && Insert(env, db, s) == Ok(after)
    ensures Ids(OffsetPage(after, limit, offset + 1)) == Ids(OffsetPage(db, limit, offset))
    ensures var page, next := Ids(OffsetPage(db, limit, offset)), Ids(OffsetPage(after, limit, offset + limit));
            |page| == limit ==> next != [] && next[0] == page[limit - 1]
  {
    var top := PublishedListing(env, db, s, after);
    OffsetPageIds(db, limit, offset);
    OffsetPageIds(after, limit, offset + 1);
    OffsetPageIds(after, limit, offset + limit);
    SliceAfterPush(top, Newest(db.rows, All), limit, offset);
  }

  lemma PublishedListing(env: Env, db: Db, s: Submission, after: Db) returns (top: Row)
    requires Insert(env, db, s) == Ok(after)
    ensures Newest(after.rows, All) == [top] + Newest(db.rows, All)
  {
    top := NewRow(env, db.lastId + 1, s);
    assert after.rows == db.rows + [top] && after.rows[..|db.rows|] == db.rows;
  }

  /**
   * Hiding a postcard the reader has passed moves every later offset page up by one, and the reader misses a
   * postcard: the one at the offset is visible before and after, but neither on the pages up to the offset nor on
   * any page from there on.
   */
  lemma HidingShiftsOffsets(env: Env, db: Db, id: int, reason: string, at: Instant, after: Db, k: nat, offset: nat,
      limit: int)
    requires Ordered(db) && SetModeration(env, db, id, HideEvent, reason, at) == Ok(after)
    requires k < offset && k < |Newest(db.rows, All)| && Newest(db.rows, All)[k].id == id && limit >= 1
    ensures Ids(OffsetPage(after, limit, offset)) == Ids(OffsetPage(db, limit, offset + 1))
    ensures offset < |Newest(db.rows, All)| ==>
              var missed := Newest(db.rows, All)[offset].id;
              && IsVisible(db.rows, missed) && IsVisible(after.rows, missed)
              && missed !in Ids(OffsetPage(db, offset, 0)) && missed !in Ids(OffsetPage(after, limit, offset))
  {
    assert Newest(after.rows, All) == Newest(db.rows, All)[..k] + Newest(db.rows, All)[k + 1..] by {
      HiddenListing(env, db, id, reason, at, after, k);
    }
    PageAfterRemoval(db, after, k, limit, offset);
    if offset < |Newest(db.rows, All)| {
      StaysVisible(db, after, k, offset);
      MissedByPages(db, limit, offset);
    }
  }

  lemma PageAfterRemoval(db: Db, after: Db, k: nat, limit: int, offset: nat)
    requires k < |Newest(db.rows, All)| && k < offset && limit >= 1
    requires Newest(after.rows, All) == Newest(db.rows, All)[..k] + Newest(db.rows, All)[k + 1..]
    ensures Ids(OffsetPage(after, limit, offset)) == Ids(OffsetPage(db, limit, offset + 1))
  {
    OffsetPageIds(db, limit, offset + 1);
    OffsetPageIds(after, limit, offset);
    SliceAfterRemoval(Newest(db.rows, All), k, limit, offset);
  }

  lemma MissedByPages(db: Db, limit: int, offset: nat)
    requires Ordered(db) && limit >= 1 && 0 < offset < |Newest(db.rows, All)|
    ensures Newest(db.rows, All)[offset].id !in Ids(OffsetPage(db, offset, 0))
    ensures Newest(db.rows, All)[offset].id !in Ids(OffsetPage(db, limit, offset + 1))
  {
    NotOnOtherSlice(db, limit, offset + 1, offset);
    NotOnOtherSlice(db, offset, 0, offset);
  }

  /** A listed row is not on a slice that ends before it or starts after it. */
  lemma NotOnOtherSlice(db: Db, limit: int, offset: nat, p: nat)
    requires Ordered(db) && limit >= 1 && p < |Newest(db.rows, All)| && (p < offset || offset + limit <= p)
    ensures Newest(db.rows, All)[p].id !in Ids(OffsetPage(db, limit, offset))
  {
    var found := Newest(db.rows, All);
    OffsetPageIds(db, limit, offset);
    NewestDescends(db.rows, All);
    forall i: nat | i < |Slice(found, limit, offset)| ensures Slice(found, limit, offset)[i].id != found[p].id {
      SliceAt(found, limit, offset, i);
    }
  }

  /** Hiding takes one row out of the listing and leaves the others in place. */
  lemma HiddenListing(env: Env, db: Db, id: int, reason: string, at: Instant, after: Db, k: nat)
    requires Ordered(db) && SetModeration(env, db, id, HideEvent, reason, at) == Ok(after)
    requires k < |Newest(db.rows, All)| && Newest(db.rows, All)[k].id == id
    ensures Newest(after.rows, All) == Newest(db.rows, All)[..k] + Newest(db.rows, All)[k + 1..]
  {
    var i := PositionOf(db.rows, id);
    assert after.rows == db.rows[i := after.rows[i]] && after.rows[i].status == Hidden;
    ListingWithout(db.rows, i, after.rows[i], k);
  }

  lemma {:induction false} ListingWithout(rows: seq<Row>, i: nat, row: Row, k: nat)
    requires Increasing(rows) && i < |rows| && row.status == Hidden && rows[i].status == Visible
    requires k < |Newest(rows, All)| && Newest(rows, All)[k].id == rows[i].id
    ensures Newest(rows[i := row], All) == Newest(rows, All)[..k] + Newest(rows, All)[k + 1..]
    decreases |rows|
  {
    var n := |rows| - 1;
    var init, last, rest := rows[..n], rows[n], Newest(rows[..n], All);
    if i == n {
      TopIsFirst(rows, k);
      assert rows[i := row][..n] == init;
    } else {
      ListingOfChanged(rows, i, row);
      if last.status == Visible {
        assert k > 0 && rest[k - 1] == ([last] + rest)[k];
        ListingWithout(init, i, row, k - 1);
        DropBelowTop(last, rest, k);
      } else {
        ListingWithout(init, i, row, k);
      }
    }
  }

  /** A change below the top row leaves the top row where it is. */
  lemma ListingOfChanged(rows: seq<Row>, i: nat, row: Row)
    requires i + 1 < |rows|
    ensures var init, last := rows[..|rows| - 1], rows[|rows| - 1];
            Newest(rows[i := row], All) == (if last.status == Visible then [last] else []) + Newest(init[i := row], All)
  {
    assert rows[i := row][..|rows| - 1] == rows[..|rows| - 1][i := row];
  }

  lemma TopIsFirst(rows: seq<Row>, k: nat)
    requires Increasing(rows) && rows != [] && rows[|rows| - 1].status == Visible
    requires k < |Newest(rows, All)| && Newest(rows, All)[k].id == rows[|rows| - 1].id
    ensures k == 0
  {
    NewestDescends(rows, All);
    assert Newest(rows, All)[0] == rows[|rows| - 1];
  }

  lemma DropBelowTop<T>(top: T, rest: seq<T>, k: nat)
    requires 0 < k <= |rest|
    ensures ([top] + rest)[..k] + ([top] + rest)[k + 1..] == [top] + (rest[..k - 1] + rest[k..])
  {
  }

  lemma StaysVisible(db: Db, after: Db, k: nat, p: nat)
    requires Ordered(db) && k < p < |Newest(db.rows, All)|
    requires Newest(after.rows, All) == Newest(db.rows, All)[..k] + Newest(db.rows, All)[k + 1..]
    ensures IsVisible(db.rows, Newest(db.rows, All)[p].id) && IsVisible(after.rows, Newest(db.rows, All)[p].id)
  {
    var row := Newest(db.rows, All)[p];
    assert Newest(after.rows, All)[p - 1] == row;
    ListedIsVisible(db.rows, row);
    ListedIsVisible(after.rows, row);
  }

  lemma ListedIsVisible(rows: seq<Row>, row: Row)
    requires row in Newest(rows, All)
    ensures IsVisible(rows, row.id)
  {
    NewestHolds(rows, All, row);
    var i :| 0 <= i < |rows| && rows[i] == row;
    assert rows[i].id == row.id && rows[i].status == Visible;
  }
}
