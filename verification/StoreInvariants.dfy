/**
 * What every run of the store keeps: ordered ids, well-founded lineage, content identity and a faithful moderation
 * log.
 */
module StoreInvariants {
  import opened Wrappers
  import opened Canvas
  import opened Palettes
  import opened ContentIdentity
  import opened Timestamps
  import opened PostcardStore

  predicate Ordered(db: Db) {
    && (forall i :: 0 <= i < |db.rows| ==> 1 <= db.rows[i].id <= db.lastId)
    && (forall i, j :: 0 <= i < j < |db.rows| ==> db.rows[i].id < db.rows[j].id)
  }

  predicate HasRow(rows: seq<Row>, id: int) {
    exists i :: 0 <= i < |rows| && rows[i].id == id
  }

  /** Parents are older rows of the same table. */
  predicate Lineage(db: Db) {
    forall i :: 0 <= i < |db.rows| && db.rows[i].parent.Some? ==>
      db.rows[i].parent.value < db.rows[i].id && HasRow(db.rows, db.rows[i].parent.value)
  }

  predicate Identified(env: Env, row: Row) {
    && Listed(env.catalog, row.paletteId, row.paletteVersion)
    && row.contentHash == env.contentHash(row.pixels, row.paletteId, row.paletteVersion)
  }

  predicate AllIdentified(env: Env, rows: seq<Row>) {
    forall i :: 0 <= i < |rows| ==> Identified(env, rows[i])
  }

  /** The events of one postcard, oldest first. */
  function LogOf(events: seq<Event>, id: int): seq<Event> {
    if events == [] then []
    else LogOf(events[..|events| - 1], id) + if events[|events| - 1].postcard == id then [events[|events| - 1]] else []
  }

  lemma {:induction false} NoEventsNoLog(events: seq<Event>, id: int)
    requires forall i :: 0 <= i < |events| ==> events[i].postcard != id
    ensures LogOf(events, id) == []
    decreases |events|
  {
    if events != [] { NoEventsNoLog(events[..|events| - 1], id); }
  }

  function KindAt(i: nat): EventKind {
    if i % 2 == 0 then HideEvent else RestoreEvent
  }

  /** The log alternates hide, restore, hide, ... and the row shows its last entry. */
  predicate Faithful(row: Row, log: seq<Event>) {
    && (forall i :: 0 <= i < |log| ==> log[i].kind == KindAt(i))
    && (row.status == Hidden <==> |log| % 2 == 1)
    && row.moderatedAt == (if log == [] then None else Some(log[|log| - 1].at))
    && row.reason == (if log == [] then None else Some(log[|log| - 1].reason))
  }

  predicate Logged(db: Db) {
    && (forall e :: 0 <= e < |db.events| ==> HasRow(db.rows, db.events[e].postcard))
    && (forall i :: 0 <= i < |db.rows| ==> Faithful(db.rows[i], LogOf(db.events, db.rows[i].id)))
  }

  ghost predicate Sound(env: Env, db: Db) {
    && Ordered(db)
    && Lineage(db)
    && AllIdentified(env, db.rows)
    && Logged(db)
  }

  lemma AppendKeepsOrdered(db: Db, row: Row)
    requires Ordered(db) && row.id == db.lastId + 1
    ensures Ordered(Appended(db, row))
  {
  }

  lemma AppendKeepsRows(db: Db, row: Row, id: int)
    requires HasRow(db.rows, id)
    ensures HasRow(db.rows + [row], id)
  {
    var i :| 0 <= i < |db.rows| && db.rows[i].id == id;
    assert (db.rows + [row])[i].id == id;
  }

  lemma AppendKeepsLineage(db: Db, row: Row)
    requires Lineage(db) && row.id >= 0
    requires row.parent.Some? ==> row.parent.value < row.id && HasRow(db.rows, row.parent.value)
    ensures Lineage(Appended(db, row))
  {
    var rows := db.rows + [row];
    forall i | 0 <= i < |rows| && rows[i].parent.Some?
      ensures rows[i].parent.value < rows[i].id && HasRow(rows, rows[i].parent.value)
    {
      assert i < |db.rows| ==> rows[i] == db.rows[i];
      AppendKeepsRows(db, row, rows[i].parent.value);
    }
  }

  lemma AppendKeepsLogged(db: Db, row: Row)
    requires Ordered(db) && Logged(db) && row.id == db.lastId + 1
    requires row.status == Visible && row.moderatedAt == None && row.reason == None
    ensures Logged(Appended(db, row))
  {
    var rows := db.rows + [row];
    forall e | 0 <= e < |db.events| ensures HasRow(rows, db.events[e].postcard) && db.events[e].postcard != row.id {
      AppendKeepsRows(db, row, db.events[e].postcard);
      var i :| 0 <= i < |db.rows| && db.rows[i].id == db.events[e].postcard;
    }
    NoEventsNoLog(db.events, row.id);
    assert forall i :: 0 <= i < |db.rows| ==> rows[i] == db.rows[i];
  }

  lemma AppendKeepsIdentified(env: Env, rows: seq<Row>, row: Row)
    requires AllIdentified(env, rows) && Identified(env, row)
    ensures AllIdentified(env, rows + [row])
  {
  }

  lemma VisibleHasRow(db: Db, id: int)
    requires Ordered(db) && IsVisible(db.rows, id)
    ensures HasRow(db.rows, id) && 1 <= id <= db.lastId
  {
    var i :| 0 <= i < |db.rows| && db.rows[i].id == id && db.rows[i].status == Visible;
  }

  lemma AppendKeepsSound(env: Env, db: Db, row: Row)
    requires Sound(env, db) && row.id == db.lastId + 1 && Identified(env, row)
    requires row.status == Visible && row.moderatedAt == None && row.reason == None
    requires row.parent.Some? ==> IsVisible(db.rows, row.parent.value)
    ensures Sound(env, Appended(db, row))
  {
    if row.parent.Some? { VisibleHasRow(db, row.parent.value); }
    AppendKeepsOrdered(db, row);
    AppendKeepsLineage(db, row);
    AppendKeepsLogged(db, row);
    AppendKeepsIdentified(env, db.rows, row);
  }

  /** What a successful insertion has checked, and the row it appends. */
  lemma InsertAppends(env: Env, db: Db, s: Submission)
    requires Insert(env, db, s).Ok?
    ensures var row := NewRow(env, db.lastId + 1, s);
            && Insert(env, db, s) == Ok(Appended(db, row))
            && Identified(env, row)
            && (row.parent.Some? ==> IsVisible(db.rows, row.parent.value))
  {
  }

  lemma InsertKeepsSound(env: Env, db: Db, s: Submission)
    requires Sound(env, db) && Insert(env, db, s).Ok?
    ensures Sound(env, Insert(env, db, s).value)
  {
    var row := NewRow(env, db.lastId + 1, s);
    InsertAppends(env, db, s);
    AppendKeepsSound(env, db, row);
  }

  lemma LogGrows(events: seq<Event>, e: Event, id: int)
    ensures LogOf(events + [e], id) == LogOf(events, id) + if e.postcard == id then [e] else []
  {
    assert (events + [e])[..|events|] == events;
  }

  lemma FaithfulStep(row: Row, log: seq<Event>, e: Event)
    requires Faithful(row, log) && row.status == From(e.kind)
    ensures Faithful(row.(status := To(e.kind), moderatedAt := Some(e.at), reason := Some(e.reason)), log + [e])
  {
  }

  lemma AmendKeepsRows(db: Db, i: nat, row: Row, id: int)
    requires i < |db.rows| && row.id == db.rows[i].id && HasRow(db.rows, id)
    ensures HasRow(db.rows[i := row], id)
  {
    var j :| 0 <= j < |db.rows| && db.rows[j].id == id;
    assert db.rows[i := row][j].id == id;
  }

  lemma AmendKeepsOrdered(env: Env, db: Db, i: nat, row: Row, e: Event)
    requires Ordered(db) && i < |db.rows| && row.id == db.rows[i].id
    requires AllIdentified(env, db.rows) && Identified(env, row)
    ensures Ordered(Amended(db, i, row, e))
    ensures AllIdentified(env, db.rows[i := row])
  {
    assert forall j :: 0 <= j < |db.rows| ==> db.rows[i := row][j].id == db.rows[j].id;
  }

  lemma AmendKeepsLineage(db: Db, i: nat, row: Row, e: Event)
    requires Lineage(db) && i < |db.rows| && row.id == db.rows[i].id && row.parent == db.rows[i].parent
    ensures Lineage(Amended(db, i, row, e))
  {
    var rows := db.rows[i := row];
    forall j | 0 <= j < |rows| && rows[j].parent.Some?
      ensures rows[j].parent.value < rows[j].id && HasRow(rows, rows[j].parent.value)
    {
      assert rows[j].id == db.rows[j].id && rows[j].parent == db.rows[j].parent;
      AmendKeepsRows(db, i, row, rows[j].parent.value);
    }
  }

  lemma AmendKeepsLogged(db: Db, i: nat, e: Event)
    requires Ordered(db) && Logged(db) && i < |db.rows|
    requires e.postcard == db.rows[i].id && db.rows[i].status == From(e.kind)
    ensures var row := db.rows[i].(status := To(e.kind), moderatedAt := Some(e.at), reason := Some(e.reason));
            Logged(Amended(db, i, row, e))
  {
    var row := db.rows[i].(status := To(e.kind), moderatedAt := Some(e.at), reason := Some(e.reason));
    var after := Amended(db, i, row, e);
    forall k | 0 <= k < |after.events| ensures HasRow(after.rows, after.events[k].postcard) {
      assert HasRow(db.rows, db.rows[i].id);
      assert k < |db.events| ==> after.events[k] == db.events[k];
      AmendKeepsRows(db, i, row, after.events[k].postcard);
    }
    forall j | 0 <= j < |after.rows| ensures Faithful(after.rows[j], LogOf(after.events, after.rows[j].id)) {
      LogGrows(db.events, e, db.rows[j].id);
      if j == i { FaithfulStep(db.rows[i], LogOf(db.events, db.rows[i].id), e); }
    }
  }

  lemma ModerationKeepsSound(env: Env, db: Db, id: int, kind: EventKind, reason: string, at: Instant)
    requires Sound(env, db) && SetModeration(env, db, id, kind, reason, at).Ok?
    ensures Sound(env, SetModeration(env, db, id, kind, reason, at).value)
  {
    var i, e := PositionOf(db.rows, id), Event(id, kind, NormalizeReason(reason).value, env.format(at));
    var row := db.rows[i].(status := To(e.kind), moderatedAt := Some(e.at), reason := Some(e.reason));
    AmendKeepsOrdered(env, db, i, row, e);
    AmendKeepsLineage(db, i, row, e);
    AmendKeepsLogged(db, i, e);
  }

  lemma NextKeepsSound(env: Env, db: Db, c: Change)
    requires Sound(env, db)
    ensures Sound(env, Next(env, db, c))
  {
    if Apply(env, db, c).Ok? {
      match c
      case Publish(s) => InsertKeepsSound(env, db, s);
      case Moderate(id, kind, reason, at) => ModerationKeepsSound(env, db, id, kind, reason, at);
    }
  }

  /** Every reachable state of the store is sound, whichever transactions ran and whichever of them failed. */
  lemma {:induction false} RunKeepsSound(env: Env, db: Db, changes: seq<Change>)
    requires Sound(env, db)
    ensures Sound(env, Run(env, db, changes))
    decreases |changes|
  {
    if changes != [] {
      NextKeepsSound(env, db, changes[0]);
      RunKeepsSound(env, Next(env, db, changes[0]), changes[1..]);
    }
  }

  lemma EmptyIsSound(env: Env)
    ensures Sound(env, EMPTY)
  {
  }

  // ----- what moderation can and cannot do -----

  /** A moderation succeeds exactly on a row in the right state with an acceptable reason. */
  lemma ModerationSucceedsIff(env: Env, db: Db, id: int, kind: EventKind, reason: string, at: Instant)
    requires Sound(env, db)
    ensures SetModeration(env, db, id, kind, reason, at).Ok? <==>
              && NormalizeReason(reason).Some? && HasRow(db.rows, id)
              && (|LogOf(db.events, id)| % 2 == 1 <==> kind == RestoreEvent)
  {
    var i := PositionOf(db.rows, id);
    if i < |db.rows| {
      assert HasRow(db.rows, id);
      assert Faithful(db.rows[i], LogOf(db.events, db.rows[i].id));
    }
  }

  // ----- what a run never changes -----

  predicate SameExceptModeration(r: Row, s: Row) {
    s == r.(status := s.status, moderatedAt := s.moderatedAt, reason := s.reason)
  }

  /** The later state has the earlier rows in place with their content, and only larger ids after them. */
  ghost predicate Extends(before: Db, after: Db) {
    && before.lastId <= after.lastId
    && |before.rows| <= |after.rows|
    && before.events <= after.events
    && (forall i :: 0 <= i < |before.rows| ==>
          SameExceptModeration(before.rows[i], after.rows[i]))
    && (forall i :: |before.rows| <= i < |after.rows| ==> after.rows[i].id > before.lastId)
  }

  lemma NextExtends(env: Env, db: Db, c: Change)
    ensures Extends(db, Next(env, db, c))
  {
  }

  lemma ExtendsIsTransitive(a: Db, b: Db, c: Db)
    requires Extends(a, b) && Extends(b, c)
    ensures Extends(a, c)
  {
    forall i | 0 <= i < |a.rows|
      ensures SameExceptModeration(a.rows[i], c.rows[i])
    {
      assert SameExceptModeration(a.rows[i], b.rows[i]) && SameExceptModeration(b.rows[i], c.rows[i]);
    }
    forall i | |a.rows| <= i < |c.rows| ensures c.rows[i].id > a.lastId {
      if i < |b.rows| { assert c.rows[i].id == b.rows[i].id; }
    }
  }

  lemma {:induction false} RunExtends(env: Env, db: Db, changes: seq<Change>)
    ensures Extends(db, Run(env, db, changes))
    decreases |changes|
  {
    if changes != [] {
      var next := Next(env, db, changes[0]);
      NextExtends(env, db, changes[0]);
      RunExtends(env, next, changes[1..]);
      ExtendsIsTransitive(db, next, Run(env, next, changes[1..]));
    }
  }
}
