/** What rejecting a submission equal to the latest visible postcard guarantees once moderation comes and goes. */
module Deduplication {
  import opened Wrappers
  import opened Canvas
  import opened Palettes
  import opened Timestamps
  import opened PostcardStore
  import opened StoreInvariants
  import N = Neighbours

  /** A store with, for every row, the number of moderation events recorded when it was inserted. */
  datatype Traced = Traced(db: Db, born: seq<nat>)

  const NEW_STORE := Traced(EMPTY, [])

  function NextTraced(env: Env, t: Traced, c: Change): Traced {
    var after := Next(env, t.db, c);
    Traced(after, if |after.rows| > |t.db.rows| then t.born + [|t.db.events|] else t.born)
  }

  function RunTraced(env: Env, t: Traced, changes: seq<Change>): (r: Traced)
    ensures r.db == Run(env, t.db, changes)
    decreases |changes|
  {
    if changes == [] then t else RunTraced(env, NextTraced(env, t, changes[0]), changes[1..])
  }

  /**
   * A submission that passes the other checks is refused as a duplicate exactly when it equals the visible row with
   * the largest id; hidden rows above it do not matter.
   */
  lemma DuplicateIff(env: Env, db: Db, s: Submission)
    requires Refusal(env, db, s) in [None, Some(Duplicate)]
    ensures Insert(env, db, s) == Err(Duplicate) <==>
              exists a: nat :: (a < |db.rows| && IsLatest(db.rows, a)
                                && SameContent(db.rows[a], s.pixels, s.paletteId, s.paletteVersion))
  {
    LatestVisibleFound(db.rows);
    forall a: nat | a < |db.rows| && IsLatest(db.rows, a) ensures LatestVisible(db.rows) == Some(db.rows[a]) {
      LatestVisibleIs(db.rows, a);
    }
  }

  predicate IsLatest(rows: seq<Row>, a: nat)
    requires a < |rows|
  {
    rows[a].status == Visible && forall c :: a < c < |rows| ==> rows[c].status == Hidden
  }

  lemma {:induction false} LatestVisibleIs(rows: seq<Row>, a: nat)
    requires a < |rows| && IsLatest(rows, a)
    ensures LatestVisible(rows) == Some(rows[a])
    decreases |rows|
  {
    if a < |rows| - 1 {
      assert IsLatest(rows[..|rows| - 1], a);
      LatestVisibleIs(rows[..|rows| - 1], a);
    }
  }

  lemma {:induction false} LatestVisibleFound(rows: seq<Row>)
    ensures LatestVisible(rows).Some? ==>
              exists a: nat :: a < |rows| && IsLatest(rows, a) && rows[a] == LatestVisible(rows).value
    decreases |rows|
  {
    if rows != [] {
      var init := rows[..|rows| - 1];
      if rows[|rows| - 1].status == Visible {
        assert IsLatest(rows, |rows| - 1);
      } else {
        LatestVisibleFound(init);
        if LatestVisible(init).Some? {
          var a: nat :| a < |init| && IsLatest(init, a) && init[a] == LatestVisible(init).value;
          assert IsLatest(rows, a) by { assert forall c :: a < c < |init| ==> rows[c] == init[c]; }
        }
      }
    }
  }

  /** The row's visibility after the first `n` events, read off its log. */
  predicate VisibleAfter(db: Db, i: nat, n: nat)
    requires i < |db.rows| && n <= |db.events|
  {
    |LogOf(db.events[..n], db.rows[i].id)| % 2 == 0
  }

  /** The latest row below position `b` that was visible after the first `n` events. */
  function LatestBelow(db: Db, b: nat, n: nat): Option<nat>
    requires b <= |db.rows| && n <= |db.events|
    decreases b
  {
    if b == 0 then None else if VisibleAfter(db, b - 1, n) then Some(b - 1) else LatestBelow(db, b - 1, n)
  }

  predicate SameRows(r: Row, s: Row) {
    SameContent(r, s.pixels, s.paletteId, s.paletteVersion)
  }

  /** Births are recorded, and each row differed from the row that was latest when it was born. */
  ghost predicate BornDifferent(t: Traced) {
    && |t.born| == |t.db.rows|
    && (forall b :: 0 <= b < |t.born| ==> DiffersAtBirth(t.db, b, t.born[b]))
  }

  predicate DiffersAtBirth(db: Db, b: nat, n: nat)
    requires b < |db.rows|
  {
    && n <= |db.events|
    && var latest := LatestBelow(db, b, n);
       latest.Some? ==> latest.value < b && !SameRows(db.rows[latest.value], db.rows[b])
  }

  ghost predicate Deduplicated(env: Env, t: Traced) {
    Sound(env, t.db) && BornDifferent(t)
  }

  lemma {:induction false} LatestBelowIsLatest(db: Db, b: nat, n: nat, a: nat)
    requires a < b <= |db.rows| && n <= |db.events| && VisibleAfter(db, a, n)
    ensures var c := LatestBelow(db, b, n);
            c.Some? && a <= c.value < b && VisibleAfter(db, c.value, n)
    decreases b
  {
    if !VisibleAfter(db, b - 1, n) { LatestBelowIsLatest(db, b - 1, n, a); }
  }

  predicate StatusFollowsLog(db: Db) {
    forall i :: 0 <= i < |db.rows| ==> (VisibleAfter(db, i, |db.events|) <==> db.rows[i].status == Visible)
  }

  lemma SoundStatusFollowsLog(env: Env, db: Db)
    requires Sound(env, db)
    ensures StatusFollowsLog(db)
  {
    assert db.events[..|db.events|] == db.events;
    forall i | 0 <= i < |db.rows| ensures VisibleAfter(db, i, |db.events|) <==> db.rows[i].status == Visible {
      assert Faithful(db.rows[i], LogOf(db.events, db.rows[i].id));
    }
  }

  /** After all events, the latest visible row by the logs is the row the insertion compares with. */
  lemma {:induction false} LatestNow(db: Db, b: nat)
    requires StatusFollowsLog(db) && b <= |db.rows|
    ensures LatestVisible(db.rows[..b]) == RowAt(db, LatestBelow(db, b, |db.events|))
    ensures LatestBelow(db, b, |db.events|).Some? ==> LatestBelow(db, b, |db.events|).value < b
    decreases b
  {
    if b > 0 {
      LatestVisiblePrefix(db.rows, b);
      LatestNow(db, b - 1);
    }
  }

  function RowAt(db: Db, c: Option<nat>): Option<Row> {
    if c.Some? && c.value < |db.rows| then Some(db.rows[c.value]) else None
  }

  lemma LatestVisiblePrefix(rows: seq<Row>, b: nat)
    requires 0 < b <= |rows|
    ensures LatestVisible(rows[..b])
         == if rows[b - 1].status == Visible then Some(rows[b - 1]) else LatestVisible(rows[..b - 1])
  {
    assert rows[..b][..b - 1] == rows[..b - 1];
  }

  /** Later changes do not rewrite which row was latest when another was born. */
  lemma {:induction false} LatestBelowStays(db: Db, after: Db, b: nat, n: nat)
    requires b <= |db.rows| <= |after.rows| && n <= |db.events| && db.events <= after.events
    requires forall i :: 0 <= i < b ==> after.rows[i].id == db.rows[i].id
    ensures LatestBelow(after, b, n) == LatestBelow(db, b, n)
    decreases b
  {
    assert after.events[..n] == db.events[..n];
    if b > 0 { LatestBelowStays(db, after, b - 1, n); }
  }

  lemma BirthStays(db: Db, after: Db, b: nat, n: nat)
    requires b < |db.rows| <= |after.rows| && db.events <= after.events && DiffersAtBirth(db, b, n)
    requires forall i :: 0 <= i <= b ==> after.rows[i].id == db.rows[i].id && SameRows(after.rows[i], db.rows[i])
    ensures DiffersAtBirth(after, b, n)
  {
    LatestBelowStays(db, after, b, n);
  }

  lemma NewcomerDiffers(env: Env, db: Db, s: Submission, after: Db)
    requires Sound(env, db) && Insert(env, db, s) == Ok(after)
    ensures |after.rows| == |db.rows| + 1 && after.events == db.events && DiffersAtBirth(after, |db.rows|, |db.events|)
  {
    SoundStatusFollowsLog(env, db);
    LatestNow(db, |db.rows|);
    assert db.rows[..|db.rows|] == db.rows;
    InsertAppends(env, db, s);
    LatestBelowStays(db, after, |db.rows|, |db.events|);
  }

  lemma InsertKeepsBornDifferent(env: Env, t: Traced, s: Submission, after: Db)
    requires Sound(env, t.db) && BornDifferent(t) && Insert(env, t.db, s) == Ok(after)
    ensures BornDifferent(Traced(after, t.born + [|t.db.events|]))
  {
    NewcomerDiffers(env, t.db, s, after);
    forall b | 0 <= b < |t.born| ensures DiffersAtBirth(after, b, t.born[b]) {
      BirthStays(t.db, after, b, t.born[b]);
    }
  }

  lemma ModerationKeepsBornDifferent(env: Env, t: Traced, id: int, kind: EventKind, reason: string, at: Instant,
      after: Db)
    requires BornDifferent(t) && SetModeration(env, t.db, id, kind, reason, at) == Ok(after)
    ensures |after.rows| == |t.db.rows| && BornDifferent(Traced(after, t.born))
  {
    forall b | 0 <= b < |t.born| ensures DiffersAtBirth(after, b, t.born[b]) {
      BirthStays(t.db, after, b, t.born[b]);
    }
  }

  lemma {:induction false} RunKeepsDeduplicated(env: Env, t: Traced, changes: seq<Change>)
    requires Deduplicated(env, t)
    ensures Deduplicated(env, RunTraced(env, t, changes))
    decreases |changes|
  {
    if changes != [] {
      var next := NextTraced(env, t, changes[0]);
      NextKeepsBornDifferent(env, t, changes[0], next);
      NextKeepsSound(env, t.db, changes[0]);
      RunKeepsDeduplicated(env, next, changes[1..]);
    }
  }

  lemma NextKeepsBornDifferent(env: Env, t: Traced, c: Change, next: Traced)
    requires Deduplicated(env, t) && next == NextTraced(env, t, c)
    ensures BornDifferent(next)
  {
    if Apply(env, t.db, c).Ok? {
      var after := Apply(env, t.db, c).value;
      match c
      case Publish(s) =>
        InsertKeepsBornDifferent(env, t, s, after);
      case Moderate(id, kind, reason, at) =>
        ModerationKeepsBornDifferent(env, t, id, kind, reason, at, after);
    }
  }

  /** If a log grew after the first `n` events, its last entry is one of the later events. */
  lemma {:induction false} GrownLogEndsLate(events: seq<Event>, n: nat, id: int) returns (e: nat)
    requires n <= |events| && |LogOf(events[..n], id)| != |LogOf(events, id)|
    ensures n <= e < |events| && events[e].postcard == id
    ensures LogOf(events, id) != [] && LogOf(events, id)[|LogOf(events, id)| - 1] == events[e]
    decreases |events|
  {
    assert events[..|events|] == events;
    var init := events[..|events| - 1];
    if events[|events| - 1].postcard == id {
      e := |events| - 1;
    } else {
      assert init[..n] == events[..n];
      e := GrownLogEndsLate(init, n, id);
    }
  }

  /**
   * A row whose visibility changed since the first `n` events was last moved by a later event, in the direction it
   * now shows.
   */
  lemma ChangedRowHasLateEvent(env: Env, db: Db, i: nat, n: nat) returns (e: nat)
    requires Sound(env, db) && i < |db.rows| && n <= |db.events|
    requires VisibleAfter(db, i, n) != (db.rows[i].status == Visible)
    ensures n <= e < |db.events| && db.events[e].postcard == db.rows[i].id
    ensures db.events[e].kind == if db.rows[i].status == Visible then RestoreEvent else HideEvent
  {
    assert Faithful(db.rows[i], LogOf(db.events, db.rows[i].id));
    e := ParityChangeHasLateEvent(db.rows[i], db.events, n);
  }

  lemma ParityChangeHasLateEvent(row: Row, events: seq<Event>, n: nat) returns (e: nat)
    requires n <= |events| && Faithful(row, LogOf(events, row.id))
    requires (|LogOf(events[..n], row.id)| % 2 == 0) != (row.status == Visible)
    ensures n <= e < |events| && events[e].postcard == row.id
    ensures events[e].kind == if row.status == Visible then RestoreEvent else HideEvent
  {
    e := GrownLogEndsLate(events, n, row.id);
    LastKind(row, LogOf(events, row.id));
  }

  lemma LastKind(row: Row, log: seq<Event>)
    requires Faithful(row, log) && log != []
    ensures log[|log| - 1].kind == if row.status == Visible then RestoreEvent else HideEvent
  {
    assert log[|log| - 1].kind == KindAt(|log| - 1);
  }

  /** The moderation event that made equal neighbours possible: the older row came back, or a row between them went. */
  predicate Excuse(db: Db, a: nat, b: nat, e: nat)
    requires a < |db.rows| && b < |db.rows| && e < |db.events|
  {
    || (db.events[e].kind == RestoreEvent && db.events[e].postcard == db.rows[a].id)
    || (db.events[e].kind == HideEvent && db.rows[a].id < db.events[e].postcard < db.rows[b].id)
  }

  /**
   * In every state reachable from an empty store, two equal postcards that are neighbours among the visible ones are
   * the work of moderation: after the younger was published, the older was restored or one between them was hidden.
   */
  lemma EqualNeighboursNeedModeration(env: Env, changes: seq<Change>, a: nat, b: nat) returns (e: nat)
    requires var db := Run(env, EMPTY, changes);
             && a < b < |db.rows| && db.rows[a].status == Visible && db.rows[b].status == Visible
             && (forall c :: a < c < b ==> db.rows[c].status == Hidden)
             && SameRows(db.rows[a], db.rows[b])
    ensures var t := RunTraced(env, NEW_STORE, changes);
            && b < |t.born| && t.db == Run(env, EMPTY, changes)
            && t.born[b] <= e < |t.db.events| && Excuse(t.db, a, b, e)
  {
    RunKeepsDeduplicated(env, NEW_STORE, changes);
    e := EqualNeighboursHaveExcuse(env, RunTraced(env, NEW_STORE, changes), a, b);
  }

  lemma EqualNeighboursHaveExcuse(env: Env, t: Traced, a: nat, b: nat) returns (e: nat)
    requires Deduplicated(env, t) && a < b < |t.db.rows| == |t.born|
    requires t.db.rows[a].status == Visible && (forall c :: a < c < b ==> t.db.rows[c].status == Hidden)
    requires SameRows(t.db.rows[a], t.db.rows[b])
    ensures t.born[b] <= e < |t.db.events| && Excuse(t.db, a, b, e)
  {
    if VisibleAfter(t.db, a, t.born[b]) {
      var c := VisibleRowBetween(t.db, a, b, t.born[b]);
      e := ChangedRowHasLateEvent(env, t.db, c, t.born[b]);
    } else {
      e := ChangedRowHasLateEvent(env, t.db, a, t.born[b]);
    }
  }

  /** An older equal row cannot have been the latest one at the younger row's birth. */
  lemma VisibleRowBetween(db: Db, a: nat, b: nat, n: nat) returns (c: nat)
    requires Ordered(db) && a < b < |db.rows| && DiffersAtBirth(db, b, n) && VisibleAfter(db, a, n)
    requires SameRows(db.rows[a], db.rows[b])
    ensures a < c < b && VisibleAfter(db, c, n) && db.rows[a].id < db.rows[c].id < db.rows[b].id
  {
    LatestBelowIsLatest(db, b, n, a);
    c := LatestBelow(db, b, n).value;
  }

  /** Without moderation no two neighbouring postcards are ever equal. */
  lemma PublishingAloneKeepsNeighboursDifferent(env: Env, changes: seq<Change>, b: nat)
    requires forall c :: c in changes ==> c.Publish?
    requires 0 < b < |Run(env, EMPTY, changes).rows|
    ensures !SameRows(Run(env, EMPTY, changes).rows[b - 1], Run(env, EMPTY, changes).rows[b])
  {
    var db := Run(env, EMPTY, changes);
    PublishingLogsNothing(env, EMPTY, changes);
    if SameRows(db.rows[b - 1], db.rows[b]) {
      var e := EqualNeighboursNeedModeration(env, changes, b - 1, b);
    }
  }

  lemma {:induction false} PublishingLogsNothing(env: Env, db: Db, changes: seq<Change>)
    requires db.events == [] && forall c :: c in changes ==> c.Publish?
    requires forall i :: 0 <= i < |db.rows| ==> db.rows[i].status == Visible
    ensures var after := Run(env, db, changes);
            after.events == [] && forall i :: 0 <= i < |after.rows| ==> after.rows[i].status == Visible
    decreases |changes|
  {
    if changes != [] { PublishingLogsNothing(env, Next(env, db, changes[0]), changes[1..]); }
  }

  /** Equal neighbours do occur: publish one, another, the first again, and hide the middle one. */
  lemma HidingTheMiddleMakesEqualNeighbours(env: Env, first: Submission, other: Submission, reason: string, at: Instant)
    requires ValidAlias(first.alias) && ValidAlias(other.alias) && first.parent == None && other.parent == None
    requires Listed(env.catalog, first.paletteId, first.paletteVersion)
    requires Listed(env.catalog, other.paletteId, other.paletteVersion)
    requires first.pixels != other.pixels && NormalizeReason(reason).Some?
    ensures var changes := [Publish(first), Publish(other), Publish(first), Moderate(2, HideEvent, reason, at)];
            var db := Run(env, EMPTY, changes);
            && |db.rows| == 3
            && db.rows[0].status == Visible && db.rows[1].status == Hidden && db.rows[2].status == Visible
            && SameRows(db.rows[0], db.rows[2])
  {
    var r1, r2, r3 := NewRow(env, 1, first), NewRow(env, 2, other), NewRow(env, 3, first);
    var c1, c2, c3, c4 := Publish(first), Publish(other), Publish(first), Moderate(2, HideEvent, reason, at);
    var d1, d2, d3 := Db([r1], 1, []), Db([r1, r2], 2, []), Db([r1, r2, r3], 3, []);
    ThreePublished(env, first, other);
    RunFour(env, EMPTY, c1, c2, c3, c4);
    HideSecondOfThree(env, d3, reason, at);
  }

  lemma ThreePublished(env: Env, first: Submission, other: Submission)
    requires ValidAlias(first.alias) && ValidAlias(other.alias) && first.parent == None && other.parent == None
    requires Listed(env.catalog, first.paletteId, first.paletteVersion)
    requires Listed(env.catalog, other.paletteId, other.paletteVersion)
    requires first.pixels != other.pixels
    ensures var r1, r2, r3 := NewRow(env, 1, first), NewRow(env, 2, other), NewRow(env, 3, first);
            && Next(env, EMPTY, Publish(first)) == Db([r1], 1, [])
            && Next(env, Db([r1], 1, []), Publish(other)) == Db([r1, r2], 2, [])
            && Next(env, Db([r1, r2], 2, []), Publish(first)) == Db([r1, r2, r3], 3, [])
  {
    var r1, r2, r3 := NewRow(env, 1, first), NewRow(env, 2, other), NewRow(env, 3, first);
    var d1, d2 := Db([r1], 1, []), Db([r1, r2], 2, []);
    PublishAppends(env, EMPTY, first);
    assert LatestVisible(d1.rows) == Some(r1) && LatestVisible(d2.rows) == Some(r2);
    PublishAppends(env, d1, other);
    PublishAppends(env, d2, first);
    assert [] + [r1] == [r1] && [r1] + [r2] == [r1, r2] && [r1, r2] + [r3] == [r1, r2, r3];
  }

  lemma PublishAppends(env: Env, db: Db, s: Submission)
    requires ValidAlias(s.alias) && s.parent == None && Listed(env.catalog, s.paletteId, s.paletteVersion)
    requires LatestVisible(db.rows).Some? ==> LatestVisible(db.rows).value.pixels != s.pixels
    ensures Next(env, db, Publish(s)) == Appended(db, NewRow(env, db.lastId + 1, s))
  {
  }

  lemma HideSecondOfThree(env: Env, db: Db, reason: string, at: Instant)
    requires |db.rows| == 3 && db.rows[0].id == 1 && db.rows[1].id == 2 && db.rows[1].status == Visible
    requires NormalizeReason(reason).Some?
    ensures SetModeration(env, db, 2, HideEvent, reason, at).Ok?
    ensures var after := SetModeration(env, db, 2, HideEvent, reason, at).value;
            && |after.rows| == 3 && after.rows[0] == db.rows[0] && after.rows[2] == db.rows[2]
            && after.rows[1].status == Hidden
  {
    assert PositionOf(db.rows[1..], 2) == 0;
    assert PositionOf(db.rows, 2) == 1;
  }

  lemma RunFirst(env: Env, db: Db, c: Change, rest: seq<Change>)
    ensures Run(env, db, [c] + rest) == Run(env, Next(env, db, c), rest)
  {
    assert ([c] + rest)[1..] == rest;
  }

  lemma RunFour(env: Env, db: Db, c1: Change, c2: Change, c3: Change, c4: Change)
    ensures Run(env, db, [c1, c2, c3, c4]) == Next(env, Next(env, Next(env, Next(env, db, c1), c2), c3), c4)
  {
    var d1 := Next(env, db, c1);
    var d2 := Next(env, d1, c2);
    RunFirst(env, db, c1, [c2, c3, c4]);
    RunFirst(env, d1, c2, [c3, c4]);
    RunFirst(env, d2, c3, [c4]);
    RunFirst(env, Next(env, d2, c3), c4, []);
    assert [c1, c2, c3, c4] == [c1] + [c2, c3, c4] && [c2, c3, c4] == [c2] + [c3, c4];
    assert [c3, c4] == [c3] + [c4] && [c4] == [c4] + [];
  }

  // ----- exactly when neighbours stay different -----

  datatype Content = Content(pixels: Pixels, paletteId: string, paletteVersion: int)

  /** What the public sees at a position of the table: a postcard's content, or a gap where a row is hidden. */
  function Shown(rows: seq<Row>): (s: seq<Option<Content>>)
    ensures |s| == |rows| && forall i :: 0 <= i < |rows| ==> s[i] == ShownAs(rows[i])
  {
    seq(|rows|, i requires 0 <= i < |rows| => ShownAs(rows[i]))
  }

  function ShownAs(row: Row): Option<Content> {
    if row.status == Visible then Some(ContentOf(row)) else None
  }

  function ContentOf(row: Row): Content {
    Content(row.pixels, row.paletteId, row.paletteVersion)
  }

  /** What there is to check before a row is hidden or restored. */
  predicate Harmless(rows: seq<Row>, i: nat, kind: EventKind)
    requires i < |rows|
  {
    var below, above := N.Below(Shown(rows), i), N.Above(Shown(rows), i);
    var back := Some(ContentOf(rows[i]));
    match kind
    case HideEvent => N.DifferIfBoth(below, above)
    case RestoreEvent => N.DifferIfBoth(below, back) && N.DifferIfBoth(back, above)
  }

  lemma ModerationKeepsDifferentIff(env: Env, db: Db, id: int, kind: EventKind, reason: string, at: Instant, after: Db)
    requires N.NeighboursDiffer(Shown(db.rows)) && SetModeration(env, db, id, kind, reason, at) == Ok(after)
    ensures PositionOf(db.rows, id) < |db.rows|
    ensures N.NeighboursDiffer(Shown(after.rows)) <==> Harmless(db.rows, PositionOf(db.rows, id), kind)
  {
    var i := PositionOf(db.rows, id);
    var was, x := Shown(db.rows), ContentOf(db.rows[i]);
    ShownAfterModeration(env, db, id, kind, reason, at, after);
    if kind == HideEvent { N.EmptyingKeepsDifferentIff(was, i); } else { N.FillingKeepsDifferentIff(was, i, x); }
  }

  lemma ShownAfterModeration(env: Env, db: Db, id: int, kind: EventKind, reason: string, at: Instant, after: Db)
    requires SetModeration(env, db, id, kind, reason, at) == Ok(after)
    ensures var i := PositionOf(db.rows, id);
            && i < |db.rows|
            && Shown(db.rows)[i] == (if kind == HideEvent then Some(ContentOf(db.rows[i])) else None)
            && Shown(after.rows)
               == Shown(db.rows)[i := if kind == HideEvent then None else Some(ContentOf(db.rows[i]))]
  {
    var i := PositionOf(db.rows, id);
    assert forall j :: 0 <= j < |db.rows| && j != i ==> after.rows[j] == db.rows[j];
  }

  /** A new row differs from the nearest visible one, so a publication never makes equal neighbours. */
  lemma PublishingKeepsDifferent(env: Env, db: Db, s: Submission, after: Db)
    requires N.NeighboursDiffer(Shown(db.rows)) && Insert(env, db, s) == Ok(after)
    ensures N.NeighboursDiffer(Shown(after.rows))
  {
    var x := Content(s.pixels, s.paletteId, s.paletteVersion);
    LatestIsBelow(db.rows, |db.rows|);
    assert db.rows[..|db.rows|] == db.rows;
    N.AppendingKeepsDifferentIff(Shown(db.rows), x);
    assert Shown(after.rows) == Shown(db.rows) + [Some(x)];
  }

  lemma {:induction false} LatestIsBelow(rows: seq<Row>, i: nat)
    requires i <= |rows|
    ensures N.Below(Shown(rows), i)
         == if LatestVisible(rows[..i]).None? then None else Some(ContentOf(LatestVisible(rows[..i]).value))
    decreases i
  {
    if i > 0 {
      LatestVisiblePrefix(rows, i);
      LatestIsBelow(rows, i - 1);
    }
  }

  /** The condition a caller can check before any transaction; a publication or a failing one needs none. */
  predicate KeepsDifferent(env: Env, db: Db, c: Change) {
    c.Moderate? && Apply(env, db, c).Ok? && PositionOf(db.rows, c.id) < |db.rows| ==>
      Harmless(db.rows, PositionOf(db.rows, c.id), c.kind)
  }

  /**
   * While neighbours differ, a transaction keeps them different exactly when it is a publication, fails, hides a row
   * whose two visible neighbours differ, or restores a row that differs from both it lands between.
   */
  lemma NeighboursStayDifferentIff(env: Env, db: Db, c: Change)
    requires N.NeighboursDiffer(Shown(db.rows))
    ensures N.NeighboursDiffer(Shown(Next(env, db, c).rows)) <==> KeepsDifferent(env, db, c)
  {
    if Apply(env, db, c).Ok? {
      match c
      case Publish(s) => PublishingKeepsDifferent(env, db, s, Next(env, db, c));
      case Moderate(id, kind, reason, at) =>
        ModerationKeepsDifferentIff(env, db, id, kind, reason, at, Next(env, db, c));
    }
  }

  /** At every moment of the run neighbours differ. */
  ghost predicate AlwaysDifferent(env: Env, db: Db, changes: seq<Change>)
    decreases |changes|
  {
    && N.NeighboursDiffer(Shown(db.rows))
    && (changes != [] ==> AlwaysDifferent(env, Next(env, db, changes[0]), changes[1..]))
  }

  /** Every transaction of the run meets its condition when it comes. */
  predicate AllKeepDifferent(env: Env, db: Db, changes: seq<Change>)
    decreases |changes|
  {
    changes != [] ==>
      KeepsDifferent(env, db, changes[0]) && AllKeepDifferent(env, Next(env, db, changes[0]), changes[1..])
  }

  /** From an empty store, neighbours differ throughout a run exactly when every moderation met its condition. */
  lemma NeighboursAlwaysDifferIff(env: Env, changes: seq<Change>)
    ensures AlwaysDifferent(env, EMPTY, changes) <==> AllKeepDifferent(env, EMPTY, changes)
  {
    AlwaysDifferentIff(env, EMPTY, changes);
  }

  lemma {:induction false} AlwaysDifferentIff(env: Env, db: Db, changes: seq<Change>)
    requires N.NeighboursDiffer(Shown(db.rows))
    ensures AlwaysDifferent(env, db, changes) <==> AllKeepDifferent(env, db, changes)
    decreases |changes|
  {
    if changes != [] {
      NeighboursStayDifferentIff(env, db, changes[0]);
      if N.NeighboursDiffer(Shown(Next(env, db, changes[0]).rows)) {
        AlwaysDifferentIff(env, Next(env, db, changes[0]), changes[1..]);
      }
    }
  }

  /** Restoring makes equal neighbours too: publish one, hide it, publish it again, and restore the first. */
  lemma RestoringMakesEqualNeighbours(env: Env, s: Submission, reason: string, at: Instant)
    requires ValidAlias(s.alias) && s.parent == None && Listed(env.catalog, s.paletteId, s.paletteVersion)
    requires NormalizeReason(reason).Some?
    ensures var c2, c4 := Moderate(1, HideEvent, reason, at), Moderate(1, RestoreEvent, reason, at);
            var db := Run(env, EMPTY, [Publish(s), c2, Publish(s), c4]);
            |db.rows| == 2 && SameRows(db.rows[0], db.rows[1]) && db.rows[0].status == db.rows[1].status == Visible
  {
    var c2, c4 := Moderate(1, HideEvent, reason, at), Moderate(1, RestoreEvent, reason, at);
    var d1 := Next(env, EMPTY, Publish(s));
    var d2 := Next(env, d1, c2);
    var d3 := Next(env, d2, Publish(s));
    PublishAppends(env, EMPTY, s);
    ModeratesFirst(env, d1, HideEvent, reason, at);
    assert LatestVisible(d2.rows[..0]).None? && LatestVisible(d2.rows).None?;
    PublishAppends(env, d2, s);
    ModeratesFirst(env, d3, RestoreEvent, reason, at);
    RunFour(env, EMPTY, Publish(s), c2, Publish(s), c4);
  }

  lemma ModeratesFirst(env: Env, db: Db, kind: EventKind, reason: string, at: Instant)
    requires db.rows != [] && db.rows[0].id == 1 && db.rows[0].status == From(kind) && NormalizeReason(reason).Some?
    ensures var after := Next(env, db, Moderate(1, kind, reason, at));
            && |after.rows| == |db.rows| && after.lastId == db.lastId
            && after.rows[0] == db.rows[0].(status := To(kind), moderatedAt := Some(env.format(at)),
                                            reason := NormalizeReason(reason))
            && forall i :: 0 < i < |db.rows| ==> after.rows[i] == db.rows[i]
  {
    assert PositionOf(db.rows, 1) == 0;
  }
}
