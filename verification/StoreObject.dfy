/** The store as an object: transactions update its tables, reads build their results row by row. */
module StoreObject {
  import opened Wrappers
  import opened Sequences
  import opened Palettes
  import opened Timestamps
  import opened PostcardStore
  import opened StoreInvariants
  import Q = Queries
  import W = Weekly
  import S = Stats

  /** What moderation reports about a row. */
  datatype Record = Record(id: int, alias: Option<string>, commit: string, createdAt: string, status: Status,
                           moderatedAt: Option<string>, reason: Option<string>)

  function RecordOf(row: Row): Record {
    Record(row.id, row.alias, row.commit, row.createdAt, row.status, row.moderatedAt, row.reason)
  }

  /** Swaps from both ends until the middle. */
  method ReverseInPlace<T>(items: array<T>)
    modifies items
    ensures items[..] == Reverse(old(items[..]))
  {
    ghost var was := items[..];
    var left, right := 0, items.Length - 1;
    while left < right
      invariant 0 <= left <= right + 1 && right == items.Length - 1 - left
      invariant forall k :: left <= k <= right ==> items[k] == was[k]
      invariant forall k :: 0 <= k < left ==>
                  items[k] == was[items.Length - 1 - k] && items[items.Length - 1 - k] == was[k]
    {
      items[left], items[right] := items[right], items[left];
      left, right := left + 1, right - 1;
    }
    forall k | 0 <= k < items.Length ensures items[k] == was[items.Length - 1 - k] {
      if k > right { assert items[items.Length - 1 - (items.Length - 1 - k)] == was[items.Length - 1 - k]; }
    }
  }

  class Store {
    const env: Env
    var rows: seq<Row>
    var lastId: nat
    var events: seq<Event>

    ghost function Value(): Db
      reads this
    {
      Db(rows, lastId, events)
    }

    ghost predicate Valid()
      reads this
    {
      Sound(env, Value())
    }

    constructor (env: Env)
      ensures Valid() && Value() == EMPTY && this.env == env
    {
      this.env := env;
      rows, lastId, events := [], 0, [];
      new;
      EmptyIsSound(env);
    }

    // ----- transactions -----

    method Append(row: Row)
      requires row.id >= 0 && Sound(env, Appended(Value(), row))
      modifies this`rows, this`lastId
      ensures Valid() && Value() == Appended(old(Value()), row)
    {
      rows := rows + [row];
      lastId := row.id;
    }

    method Check(s: Submission) returns (refusal: Option<Error>)
      ensures refusal == Refusal(env, Value(), s)
    {
      if !ValidAlias(s.alias) { return Some(InvalidAlias); }
      if !Listed(env.catalog, s.paletteId, s.paletteVersion) { return Some(UnsupportedPalette); }
      if s.parent.Some? && s.parent.value < 1 { return Some(ParentNotFound); }
      if s.parent.Some? && !IsVisible(rows, s.parent.value) { return Some(ParentNotFound); }
      var latest := LatestVisible(rows);
      if latest.Some? && SameContent(latest.value, s.pixels, s.paletteId, s.paletteVersion) { return Some(Duplicate); }
      refusal := None;
    }

    /** A successful insertion returns the postcard the public now reads under the new id. */
    method InsertWithPalette(s: Submission) returns (r: Result<Postcard, Error>)
      requires Valid()
      modifies this
      ensures Valid()
      ensures r.Err? ==> Insert(env, old(Value()), s) == Err(r.error) && Value() == old(Value())
      ensures r.Ok? ==> Insert(env, old(Value()), s) == Ok(Value())
      ensures r.Ok? ==> r.value.id == lastId && PostcardStore.GetPublic(Value(), lastId) == Some(r.value)
    {
      var refusal := Check(s);
      if refusal.Some? { return Err(refusal.value); }
      var row := NewRow(env, lastId + 1, s);
      ghost var after := Appended(Value(), row);
      assert Insert(env, Value(), s) == Ok(after);
      InsertIsReadBack(env, Value(), s, after);
      Append(row);
      assert Value() == after;
      r := Ok(Postcard(lastId, s.pixels, StoredAlias(s.alias), s.commit, env.format(s.at),
                       env.contentHash(s.pixels, s.paletteId, s.paletteVersion), s.paletteId, s.paletteVersion,
                       s.parent));
    }

    /** Row and log change together or not at all. */
    method SetModeration(id: int, kind: EventKind, reason: string, at: Instant) returns (r: Result<Record, Error>)
      requires Valid()
      modifies this
      ensures Valid()
      ensures match PostcardStore.SetModeration(env, old(Value()), id, kind, reason, at)
              case Err(e) => r == Err(e) && Value() == old(Value())
              case Ok(after) => && Value() == after && PositionOf(after.rows, id) < |after.rows|
                                && r == Ok(RecordOf(after.rows[PositionOf(after.rows, id)]))
                                && r.value.id == id && r.value.status == To(kind)
                                && r.value.alias == after.rows[PositionOf(after.rows, id)].alias
                                && r.value.commit == after.rows[PositionOf(after.rows, id)].commit
                                && r.value.createdAt == after.rows[PositionOf(after.rows, id)].createdAt
                                && r.value.reason == NormalizeReason(reason)
                                && r.value.moderatedAt == Some(env.format(at))
    {
      if id < 1 { return Err(NotFound); }
      var normalized := NormalizeReason(reason);
      if normalized.None? { return Err(InvalidReason); }
      var i := PositionOf(rows, id);
      if i == |rows| { return Err(NotFound); }
      if rows[i].status != From(kind) { return Err(WrongState); }
      ModerationKeepsSound(env, Value(), id, kind, reason, at);
      var row := rows[i].(status := To(kind), moderatedAt := Some(env.format(at)), reason := normalized);
      rows := rows[i := row];
      events := events + [Event(id, kind, normalized.value, env.format(at))];
      PositionStays(old(rows), i, row);
      r := Ok(RecordOf(row));
    }

    method Perform(c: Change)
      requires Valid()
      modifies this
      ensures Valid() && Value() == Next(env, old(Value()), c)
    {
      match c
      case Publish(s) => var _ := InsertWithPalette(s);
      case Moderate(id, kind, reason, at) => var _ := SetModeration(id, kind, reason, at);
    }

    // ----- reads -----

    method GetPublic(id: int) returns (r: Option<Postcard>)
      ensures r == PostcardStore.GetPublic(Value(), id)
    {
      if id < 1 { return None; }
      var i := PositionOf(rows, id);
      if i == |rows| || rows[i].status != Visible { return None; }
      r := Some(Project(rows, rows[i]));
    }

    /** The rows of a result set, scanned one by one. */
    method Scan(found: seq<Row>) returns (items: seq<Postcard>)
      ensures items == Q.ProjectAll(rows, found)
    {
      items := [];
      for i := 0 to |found|
        invariant items == Q.ProjectAll(rows, found)[..i]
      {
        items := items + [Project(rows, found[i])];
      }
    }

    /** Reads one row more than asked for; the extra row is dropped and turns the last kept id into the next cursor. */
    method ListBefore(limit: int, before: Option<int>) returns (r: Result<Q.Page, Error>)
      ensures r == Q.ListBefore(Value(), limit, before)
    {
      if limit < 1 { return Err(InvalidArguments); }
      if before.Some? && before.value < 1 { return Err(InvalidArguments); }
      var filter := if before.Some? then Q.Below(before.value) else Q.All;
      var items := Scan(FirstN(Q.Newest(rows, filter), limit + 1));
      var next: Option<int> := None;
      if |items| > limit {
        items := items[..limit];
        next := Some(items[|items| - 1].id);
      }
      r := Ok(Q.Page(items, next));
    }

    method List(limit: int, offset: int) returns (r: Result<seq<Postcard>, Error>)
      ensures r == Q.List(Value(), limit, offset)
    {
      if limit < 1 || offset < 0 { return Err(InvalidArguments); }
      var items := Scan(Slice(Q.Newest(rows, Q.All), limit, offset));
      r := Ok(items);
    }

    /** Takes the newest rows of the window and turns them around in place. */
    method ListPublicBetween(start: Instant, end: Instant, limit: int) returns (r: Result<W.Selection, Error>)
      ensures r == W.ListPublicBetween(env, Value(), start, end, limit)
    {
      if !Earlier(start, end) || limit < 1 { return Err(InvalidArguments); }
      var found := Q.Newest(rows, W.WindowFilter(env, start, end));
      var total := |found|;
      var scanned := Scan(FirstN(found, limit));
      var items := new Postcard[|scanned|](i requires 0 <= i < |scanned| => scanned[i]);
      assert items[..] == scanned;
      ReverseInPlace(items);
      W.SelectionIsReversedHead(env, Value(), start, end, limit);
      r := Ok(W.Selection(items[..], total));
    }

    /** Group counts are collected under printed palette keys and read back in catalog order. */
    method PublicStats(start: Instant, end: Instant, weekKey: string) returns (r: Result<S.PublicStats, Error>)
      requires Valid() && S.DistinctKeys(env.catalog)
      ensures r == S.ComputeStats(env, Value(), start, end, weekKey)
    {
      if !Earlier(start, end) || weekKey == "" { return Err(InvalidArguments); }
      var counts := CollectCounts();
      ghost var all := S.CatalogCounts(env.catalog, rows);
      forall i | 0 <= i < |env.catalog| ensures all[i] == StatUnderKey(counts, env.catalog[i]) {
        CountUnderKey(env, rows, S.GroupByPalette(rows), counts, i);
      }
      var stats := ReadCounts(counts, all);
      r := Ok(S.PublicStats(weekKey, |Q.Oldest(rows, Q.All)|, |Q.Oldest(rows, W.WindowFilter(env, start, end))|,
                            S.CountRemixes(rows, rows), stats));
    }

    method CollectCounts() returns (counts: map<string, nat>)
      requires AllIdentified(env, rows) && S.DistinctKeys(env.catalog)
      ensures var groups := S.GroupByPalette(rows); Tabulates(counts, Keys(groups), Counts(groups))
    {
      var groups := S.GroupByPalette(rows);
      counts := map[];
      for i := 0 to |groups|
        invariant Tabulates(counts, Keys(groups)[..i], Counts(groups)[..i])
      {
        GroupKeysDiffer(env, rows, groups, i);
        TabulatesOneMore(counts, Keys(groups), Counts(groups), i);
        counts := counts[KeyOf(groups[i]) := groups[i].postcards];
      }
      assert Keys(groups)[..|groups|] == Keys(groups) && Counts(groups)[..|groups|] == Counts(groups);
    }

    method ReadCounts(counts: map<string, nat>, ghost all: seq<S.PaletteStat>) returns (stats: seq<S.PaletteStat>)
      requires |all| == |env.catalog|
      requires forall i :: 0 <= i < |all| ==> all[i] == StatUnderKey(counts, env.catalog[i])
      ensures stats == all
    {
      stats := [];
      for i := 0 to |env.catalog|
        invariant |stats| == i && stats == all[..i]
      {
        stats := stats + [StatUnderKey(counts, env.catalog[i])];
      }
    }
  }

  /** A missing key counts as 0. */
  function StatUnderKey(counts: map<string, nat>, p: Palette): S.PaletteStat {
    var key := S.PaletteKey(p.id, p.version);
    S.PaletteStat(p.id, p.version, if key in counts then counts[key] else 0)
  }

  /** The map holds exactly these keys, each with its value. */
  ghost predicate Tabulates(m: map<string, nat>, keys: seq<string>, values: seq<nat>) {
    && |keys| == |values|
    && (forall k :: k in m ==> k in keys)
    && (forall i :: 0 <= i < |keys| ==> keys[i] in m && m[keys[i]] == values[i])
  }

  lemma TabulatesOneMore(m: map<string, nat>, keys: seq<string>, values: seq<nat>, i: nat)
    requires i < |keys| == |values| && Tabulates(m, keys[..i], values[..i])
    requires forall j :: 0 <= j < i ==> keys[j] != keys[i]
    ensures Tabulates(m[keys[i] := values[i]], keys[..i + 1], values[..i + 1])
  {
    assert keys[..i + 1] == keys[..i] + [keys[i]] && values[..i + 1] == values[..i] + [values[i]];
  }

  function Keys(groups: seq<S.PaletteStat>): (keys: seq<string>)
    ensures |keys| == |groups| && forall i :: 0 <= i < |groups| ==> keys[i] == KeyOf(groups[i])
  {
    seq(|groups|, i requires 0 <= i < |groups| => KeyOf(groups[i]))
  }

  function Counts(groups: seq<S.PaletteStat>): (counts: seq<nat>)
    ensures |counts| == |groups| && forall i :: 0 <= i < |groups| ==> counts[i] == groups[i].postcards
  {
    seq(|groups|, i requires 0 <= i < |groups| => groups[i].postcards)
  }

  function KeyOf(g: S.PaletteStat): string {
    S.PaletteKey(g.id, g.version)
  }

  lemma InsertIsReadBack(env: Env, db: Db, s: Submission, after: Db)
    requires Sound(env, db) && Insert(env, db, s) == Ok(after)
    ensures Sound(env, after)
    ensures GetPublic(after, after.lastId)
         == Some(Postcard(db.lastId + 1, s.pixels, StoredAlias(s.alias), s.commit, env.format(s.at),
                          env.contentHash(s.pixels, s.paletteId, s.paletteVersion), s.paletteId, s.paletteVersion,
                          s.parent))
  {
    InsertAppends(env, db, s);
    AppendIsReadBack(env, db, NewRow(env, db.lastId + 1, s));
  }

  lemma AppendIsReadBack(env: Env, db: Db, row: Row)
    requires Sound(env, db) && row.id == db.lastId + 1 && Identified(env, row)
    requires row.status == Visible && row.moderatedAt == None && row.reason == None
    requires row.parent.Some? ==> IsVisible(db.rows, row.parent.value)
    ensures Sound(env, Appended(db, row))
    ensures GetPublic(Appended(db, row), row.id)
         == Some(Postcard(row.id, row.pixels, row.alias, row.commit, row.createdAt, row.contentHash,
                          row.paletteId, row.paletteVersion, row.parent))
  {
    AppendKeepsSound(env, db, row);
    NewestPositionIsLast(db, row);
    if row.parent.Some? { VisibleStays(db, row, row.parent.value); }
  }

  lemma {:induction false} PositionStays(rows: seq<Row>, i: nat, row: Row)
    requires i == PositionOf(rows, row.id) < |rows|
    ensures PositionOf(rows[i := row], row.id) == i
    decreases |rows|
  {
    if i > 0 {
      PositionStays(rows[1..], i - 1, row);
      assert rows[i := row][1..] == rows[1..][i - 1 := row];
    }
  }

  lemma NewestPositionIsLast(db: Db, row: Row)
    requires Ordered(db) && row.id == db.lastId + 1
    ensures PositionOf(Appended(db, row).rows, row.id) == |db.rows|
  {
    var rows := Appended(db, row).rows;
    assert rows[|db.rows|] == row;
    assert forall i :: 0 <= i < |db.rows| ==> rows[i] == db.rows[i];
  }

  lemma VisibleStays(db: Db, row: Row, id: int)
    requires row.id >= 0 && IsVisible(db.rows, id)
    ensures IsVisible(Appended(db, row).rows, id)
  {
    var i :| 0 <= i < |db.rows| && db.rows[i].id == id && db.rows[i].status == Visible;
    assert Appended(db, row).rows[i] == db.rows[i];
  }

  /** A listed identity is the identity of some catalog position. */
  lemma ListedAt(catalog: seq<Palette>, id: string, version: int) returns (i: nat)
    requires Listed(catalog, id, version)
    ensures i < |catalog| && catalog[i].id == id && catalog[i].version == version
  {
    var p := PaletteFrom(catalog, id, version).value;
    i :| 0 <= i < |catalog| && catalog[i] == p;
  }

  /** Two listed palettes with one printed key are one palette. */
  lemma KeyNamesPalette(catalog: seq<Palette>, id1: string, v1: int, id2: string, v2: int)
    requires S.DistinctKeys(catalog) && Listed(catalog, id1, v1) && Listed(catalog, id2, v2)
    requires S.PaletteKey(id1, v1) == S.PaletteKey(id2, v2)
    ensures id1 == id2 && v1 == v2
  {
    var i := ListedAt(catalog, id1, v1);
    var j := ListedAt(catalog, id2, v2);
  }

  lemma GroupIsListed(env: Env, rows: seq<Row>, groups: seq<S.PaletteStat>, g: nat)
    requires AllIdentified(env, rows) && groups == S.GroupByPalette(rows) && g < |groups|
    ensures Listed(env.catalog, groups[g].id, groups[g].version)
  {
    assert S.HasGroup(groups, groups[g].id, groups[g].version);
    S.GroupsAreListed(env, rows, groups[g].id, groups[g].version);
  }

  lemma GroupKeysDiffer(env: Env, rows: seq<Row>, groups: seq<S.PaletteStat>, i: nat)
    requires AllIdentified(env, rows) && S.DistinctKeys(env.catalog) && groups == S.GroupByPalette(rows) && i < |groups|
    ensures forall g :: 0 <= g < i ==> KeyOf(groups[g]) != KeyOf(groups[i])
  {
    S.GroupsAreDistinct(rows);
    forall g | 0 <= g < i ensures KeyOf(groups[g]) != KeyOf(groups[i]) {
      GroupIsListed(env, rows, groups, g);
      GroupIsListed(env, rows, groups, i);
      if KeyOf(groups[g]) == KeyOf(groups[i]) {
        KeyNamesPalette(env.catalog, groups[g].id, groups[g].version, groups[i].id, groups[i].version);
      }
    }
  }

  lemma CountUnderKey(env: Env, rows: seq<Row>, groups: seq<S.PaletteStat>, counts: map<string, nat>, i: nat)
    requires AllIdentified(env, rows) && S.DistinctKeys(env.catalog) && groups == S.GroupByPalette(rows)
    requires i < |env.catalog|
    requires Tabulates(counts, Keys(groups), Counts(groups))
    ensures StatUnderKey(counts, env.catalog[i]).postcards
            == S.CountPalette(rows, env.catalog[i].id, env.catalog[i].version)
  {
    var p, key := env.catalog[i], S.PaletteKey(env.catalog[i].id, env.catalog[i].version);
    assert p in env.catalog;
    S.GroupsCount(rows, p.id, p.version);
    S.GroupsAreDistinct(rows);
    if key in counts {
      var g :| 0 <= g < |groups| && Keys(groups)[g] == key;
      GroupIsListed(env, rows, groups, g);
      KeyNamesPalette(env.catalog, p.id, p.version, groups[g].id, groups[g].version);
      S.GroupCountAt(groups, g);
    } else {
      forall g | 0 <= g < |groups| ensures !(groups[g].id == p.id && groups[g].version == p.version) {
        assert Keys(groups)[g] in counts;
      }
      NoGroupNoCount(groups, p.id, p.version);
    }
  }

  lemma {:induction false} NoGroupNoCount(groups: seq<S.PaletteStat>, id: string, version: int)
    requires forall g :: 0 <= g < |groups| ==> !(groups[g].id == id && groups[g].version == version)
    ensures S.GroupCount(groups, id, version) == 0
    decreases |groups|
  {
    if groups != [] { NoGroupNoCount(groups[1..], id, version); }
  }
}
