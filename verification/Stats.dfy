/** Public statistics: totals, remixes and a count per palette of the closed catalog. */
module Stats {
  import opened Wrappers
  import opened Palettes
  import opened Decimal
  import opened Timestamps
  import opened PostcardStore
  import opened StoreInvariants
  import opened Queries
  import opened Weekly

  datatype PaletteStat = PaletteStat(id: string, version: int, postcards: nat)

  datatype PublicStats = PublicStats(
    weekKey: string, total: nat, thisWeek: nat, remixes: nat, palettes: seq<PaletteStat>)

  function PaletteKey(id: string, version: int): string {
    id + "@" + Signed(version)
  }

  /** Catalog loading refuses two palettes with one key. */
  predicate DistinctKeys(catalog: seq<Palette>) {
    forall i, j :: 0 <= i < j < |catalog| ==>
      PaletteKey(catalog[i].id, catalog[i].version) != PaletteKey(catalog[j].id, catalog[j].version)
  }

  // ----- the queries -----

  predicate IsRemix(rows: seq<Row>, row: Row) {
    row.status == Visible && row.parent.Some? && IsVisible(rows, row.parent.value)
  }

  /** Rows of `part` that are visible remixes of a row visible in `rows`. */
  function CountRemixes(rows: seq<Row>, part: seq<Row>): nat {
    if part == [] then 0 else CountRemixes(rows, part[..|part| - 1]) + if IsRemix(rows, part[|part| - 1]) then 1 else 0
  }

  predicate Uses(row: Row, id: string, version: int) {
    row.status == Visible && row.paletteId == id && row.paletteVersion == version
  }

  function CountPalette(rows: seq<Row>, id: string, version: int): nat {
    if rows == [] then 0
    else CountPalette(rows[..|rows| - 1], id, version) + if Uses(rows[|rows| - 1], id, version) then 1 else 0
  }

  /** One group per palette in use, as the grouping query returns them. */
  function GroupByPalette(rows: seq<Row>): seq<PaletteStat> {
    if rows == [] then []
    else
      var groups, last := GroupByPalette(rows[..|rows| - 1]), rows[|rows| - 1];
      if last.status == Visible then AddToGroup(groups, last.paletteId, last.paletteVersion) else groups
  }

  function AddToGroup(groups: seq<PaletteStat>, id: string, version: int): seq<PaletteStat> {
    if groups == [] then [PaletteStat(id, version, 1)]
    else if groups[0].id == id && groups[0].version == version then
      [PaletteStat(id, version, groups[0].postcards + 1)] + groups[1..]
    else [groups[0]] + AddToGroup(groups[1..], id, version)
  }

  /** Counts per catalog entry, in catalog order. */
  function CatalogCounts(catalog: seq<Palette>, rows: seq<Row>): (stats: seq<PaletteStat>)
    ensures |stats| == |catalog|
    ensures forall i :: 0 <= i < |catalog| ==>
              stats[i] == PaletteStat(catalog[i].id, catalog[i].version,
                                      CountPalette(rows, catalog[i].id, catalog[i].version))
  {
    seq(|catalog|, i requires 0 <= i < |catalog| =>
      PaletteStat(catalog[i].id, catalog[i].version, CountPalette(rows, catalog[i].id, catalog[i].version)))
  }

  function ComputeStats(env: Env, db: Db, start: Instant, end: Instant, weekKey: string): Result<PublicStats, Error> {
    if !Earlier(start, end) || weekKey == "" then Err(InvalidArguments)
    else Ok(PublicStats(weekKey, |Oldest(db.rows, All)|, |Oldest(db.rows, WindowFilter(env, start, end))|,
                        CountRemixes(db.rows, db.rows), CatalogCounts(env.catalog, db.rows)))
  }

  // ----- the grouping query -----

  /** The count a group list gives a palette; 0 when it has no group. */
  function GroupCount(groups: seq<PaletteStat>, id: string, version: int): nat {
    if groups == [] then 0
    else if groups[0].id == id && groups[0].version == version then groups[0].postcards
    else GroupCount(groups[1..], id, version)
  }

  lemma {:induction false} AddToGroupCounts(groups: seq<PaletteStat>, id: string, version: int, id2: string,
      version2: int)
    ensures GroupCount(AddToGroup(groups, id, version), id2, version2)
         == GroupCount(groups, id2, version2) + if id == id2 && version == version2 then 1 else 0
    decreases |groups|
  {
    if groups != [] {
      var tail := AddToGroup(groups[1..], id, version);
      assert ([groups[0]] + tail)[1..] == tail;
      AddToGroupCounts(groups[1..], id, version, id2, version2);
    }
  }

  lemma {:induction false} GroupsCount(rows: seq<Row>, id: string, version: int)
    ensures GroupCount(GroupByPalette(rows), id, version) == CountPalette(rows, id, version)
    decreases |rows|
  {
    if rows != [] {
      var last := rows[|rows| - 1];
      GroupsCount(rows[..|rows| - 1], id, version);
      AddToGroupCounts(GroupByPalette(rows[..|rows| - 1]), last.paletteId, last.paletteVersion, id, version);
    }
  }

  predicate DistinctGroups(groups: seq<PaletteStat>) {
    forall i, j :: 0 <= i < j < |groups| ==> !(groups[i].id == groups[j].id && groups[i].version == groups[j].version)
  }

  predicate HasGroup(groups: seq<PaletteStat>, id: string, version: int) {
    exists i :: 0 <= i < |groups| && groups[i].id == id && groups[i].version == version
  }

  lemma {:induction false} AddToGroupShape(groups: seq<PaletteStat>, id: string, version: int, id2: string,
      version2: int)
    ensures HasGroup(AddToGroup(groups, id, version), id2, version2)
       <==> HasGroup(groups, id2, version2) || (id == id2 && version == version2)
    decreases |groups|
  {
    var added := AddToGroup(groups, id, version);
    if groups == [] {
      assert added[0] == PaletteStat(id, version, 1);
    } else if groups[0].id == id && groups[0].version == version {
      assert forall i :: 0 <= i < |groups| ==> added[i].id == groups[i].id && added[i].version == groups[i].version;
    } else {
      AddToGroupShape(groups[1..], id, version, id2, version2);
      HasGroupHead(groups, id2, version2);
      HasGroupHead(added, id2, version2);
      assert added[1..] == AddToGroup(groups[1..], id, version);
    }
  }

  lemma HasGroupHead(groups: seq<PaletteStat>, id: string, version: int)
    requires groups != []
    ensures HasGroup(groups, id, version)
       <==> (groups[0].id == id && groups[0].version == version) || HasGroup(groups[1..], id, version)
  {
    if HasGroup(groups[1..], id, version) {
      var i :| 0 <= i < |groups[1..]| && groups[1..][i].id == id && groups[1..][i].version == version;
      assert groups[i + 1].id == id;
    }
    if HasGroup(groups, id, version) && !(groups[0].id == id && groups[0].version == version) {
      var i :| 0 <= i < |groups| && groups[i].id == id && groups[i].version == version;
      assert groups[1..][i - 1].id == id;
    }
  }

  lemma {:induction false} AddToGroupDistinct(groups: seq<PaletteStat>, id: string, version: int)
    requires DistinctGroups(groups)
    ensures DistinctGroups(AddToGroup(groups, id, version))
    decreases |groups|
  {
    if groups != [] && !(groups[0].id == id && groups[0].version == version) {
      var tail := AddToGroup(groups[1..], id, version);
      AddToGroupDistinct(groups[1..], id, version);
      forall j | 0 <= j < |tail| ensures !(groups[0].id == tail[j].id && groups[0].version == tail[j].version) {
        AddToGroupShape(groups[1..], id, version, groups[0].id, groups[0].version);
        assert forall i :: 0 <= i < |groups[1..]| ==> groups[1..][i] == groups[i + 1];
      }
    }
  }

  lemma {:induction false} GroupsAreDistinct(rows: seq<Row>)
    ensures DistinctGroups(GroupByPalette(rows))
    decreases |rows|
  {
    if rows != [] {
      GroupsAreDistinct(rows[..|rows| - 1]);
      if rows[|rows| - 1].status == Visible {
        AddToGroupDistinct(GroupByPalette(rows[..|rows| - 1]), rows[|rows| - 1].paletteId,
                         rows[|rows| - 1].paletteVersion);
      }
    }
  }

  /** Every group belongs to a palette some row uses, so to a listed palette. */
  lemma {:induction false} GroupsAreListed(env: Env, rows: seq<Row>, id: string, version: int)
    requires AllIdentified(env, rows) && HasGroup(GroupByPalette(rows), id, version)
    ensures Listed(env.catalog, id, version)
    decreases |rows|
  {
    if rows != [] {
      var init, last := rows[..|rows| - 1], rows[|rows| - 1];
      AddToGroupShape(GroupByPalette(init), last.paletteId, last.paletteVersion, id, version);
      if HasGroup(GroupByPalette(init), id, version) { GroupsAreListed(env, init, id, version); }
      assert Identified(env, last);
    }
  }

  lemma {:induction false} GroupCountAt(groups: seq<PaletteStat>, i: nat)
    requires DistinctGroups(groups) && i < |groups|
    ensures GroupCount(groups, groups[i].id, groups[i].version) == groups[i].postcards
    decreases |groups|
  {
    if i > 0 {
      assert groups[i] == groups[1..][i - 1];
      GroupCountAt(groups[1..], i - 1);
    }
  }

  // ----- conservation -----

  function SumOf(stats: seq<PaletteStat>): nat {
    if stats == [] then 0 else SumOf(stats[..|stats| - 1]) + stats[|stats| - 1].postcards
  }

  /** Number of catalog entries with an identity; one for every listed palette. */
  function Entries(catalog: seq<Palette>, id: string, version: int): nat {
    if catalog == [] then 0
    else
      var last := catalog[|catalog| - 1];
      Entries(catalog[..|catalog| - 1], id, version) + if last.id == id && last.version == version then 1 else 0
  }

  lemma {:induction false} NoEntry(catalog: seq<Palette>, id: string, version: int)
    requires forall p :: p in catalog ==> !(p.id == id && p.version == version)
    ensures Entries(catalog, id, version) == 0
    decreases |catalog|
  {
    if catalog != [] {
      assert catalog[|catalog| - 1] in catalog;
      NoEntry(catalog[..|catalog| - 1], id, version);
    }
  }

  lemma {:induction false} OneEntry(catalog: seq<Palette>, id: string, version: int)
    requires DistinctKeys(catalog) && exists p :: p in catalog && p.id == id && p.version == version
    ensures Entries(catalog, id, version) == 1
    decreases |catalog|
  {
    var init, last := catalog[..|catalog| - 1], catalog[|catalog| - 1];
    assert catalog == init + [last];
    if last.id == id && last.version == version {
      forall p | p in init ensures !(p.id == id && p.version == version) {
        var i :| 0 <= i < |init| && init[i] == p;
        assert PaletteKey(catalog[i].id, catalog[i].version) != PaletteKey(last.id, last.version);
      }
      NoEntry(init, id, version);
    } else {
      OneEntry(init, id, version);
    }
  }

  /** One more row adds one to the sum for each catalog entry it uses. */
  lemma {:induction false} SumGrows(catalog: seq<Palette>, rows: seq<Row>)
    requires rows != []
    ensures var last := rows[|rows| - 1];
            SumOf(CatalogCounts(catalog, rows)) == SumOf(CatalogCounts(catalog, rows[..|rows| - 1]))
              + if last.status == Visible then Entries(catalog, last.paletteId, last.paletteVersion) else 0
    decreases |catalog|
  {
    if catalog != [] {
      var init := catalog[..|catalog| - 1];
      SumGrows(init, rows);
      assert CatalogCounts(catalog, rows)[..|init|] == CatalogCounts(init, rows);
      assert CatalogCounts(catalog, rows[..|rows| - 1])[..|init|] == CatalogCounts(init, rows[..|rows| - 1]);
    }
  }

  lemma {:induction false} SumForNoRows(catalog: seq<Palette>)
    ensures SumOf(CatalogCounts(catalog, [])) == 0
    decreases |catalog|
  {
    if catalog != [] {
      SumForNoRows(catalog[..|catalog| - 1]);
      assert CatalogCounts(catalog, [])[..|catalog| - 1] == CatalogCounts(catalog[..|catalog| - 1], []);
    }
  }

  lemma {:induction false} PaletteCountsAddUp(env: Env, rows: seq<Row>)
    requires DistinctKeys(env.catalog) && AllIdentified(env, rows)
    ensures SumOf(CatalogCounts(env.catalog, rows)) == |Oldest(rows, All)|
    decreases |rows|
  {
    if rows == [] {
      SumForNoRows(env.catalog);
    } else {
      var last := rows[|rows| - 1];
      PaletteCountsAddUp(env, rows[..|rows| - 1]);
      SumGrows(env.catalog, rows);
      assert Identified(env, last);
      OneEntry(env.catalog, last.paletteId, last.paletteVersion);
    }
  }

  /** The postcards among `items` that the public sees as remixes. */
  function ShownRemixes(items: seq<Postcard>): nat {
    if items == [] then 0 else ShownRemixes(items[..|items| - 1]) + if items[|items| - 1].parent.Some? then 1 else 0
  }

  lemma {:induction false} RemixesAreShown(rows: seq<Row>, part: seq<Row>)
    ensures CountRemixes(rows, part) == ShownRemixes(ProjectAll(rows, Oldest(part, All)))
    decreases |part|
  {
    if part != [] {
      var init, last := part[..|part| - 1], part[|part| - 1];
      RemixesAreShown(rows, init);
      if last.status == Visible {
        var items := ProjectAll(rows, Oldest(part, All));
        assert items[..|items| - 1] == ProjectAll(rows, Oldest(init, All));
      } else {
        assert Oldest(part, All) == Oldest(init, All);
      }
    }
  }

  /**
   * In every sound store, so in every reachable one, the palette counts add up to the total, the remix count is the
   * number of listed postcards that show a parent, and the weekly count is the weekly selection's total.
   */
  lemma StatsAreConsistent(env: Env, db: Db, start: Instant, end: Instant, weekKey: string, limit: int)
    requires Sound(env, db) && DistinctKeys(env.catalog) && Earlier(start, end) && weekKey != "" && limit >= 1
    ensures var stats := ComputeStats(env, db, start, end, weekKey).value;
            && SumOf(stats.palettes) == stats.total == |Oldest(db.rows, All)|
            && stats.remixes == ShownRemixes(ProjectAll(db.rows, Oldest(db.rows, All)))
            && stats.thisWeek == ListPublicBetween(env, db, start, end, limit).value.total
  {
    PaletteCountsAddUp(env, db.rows);
    RemixesAreShown(db.rows, db.rows);
  }

  // ----- what the counts count -----

  /** Positions of the visible rows that use a palette. */
  function Using(rows: seq<Row>, id: string, version: int): set<int> {
    set i | 0 <= i < |rows| && rows[i].status == Visible && rows[i].paletteId == id && rows[i].paletteVersion == version
  }

  lemma {:induction false} CountPaletteCounts(rows: seq<Row>, id: string, version: int)
    ensures CountPalette(rows, id, version) == |Using(rows, id, version)|
    decreases |rows|
  {
    if rows != [] {
      var n := |rows| - 1;
      CountPaletteCounts(rows[..n], id, version);
      UsingOneMore(rows, id, version);
    }
  }

  lemma UsingOneMore(rows: seq<Row>, id: string, version: int)
    requires rows != []
    ensures var n := |rows| - 1;
            Using(rows, id, version) == Using(rows[..n], id, version) + if Uses(rows[n], id, version) then {n} else {}
  {
    var n := |rows| - 1;
    forall i | 0 <= i < n ensures i in Using(rows, id, version) <==> i in Using(rows[..n], id, version) {
      assert rows[..n][i] == rows[i];
    }
  }

  /** Positions of the visible rows whose parent is a visible row. */
  function Remixes(rows: seq<Row>, n: nat): set<int>
    requires n <= |rows|
  {
    set i | 0 <= i < n && rows[i].status == Visible && rows[i].parent.Some? && IsVisible(rows, rows[i].parent.value)
  }

  lemma {:induction false} CountRemixesCounts(rows: seq<Row>, n: nat)
    requires n <= |rows|
    ensures CountRemixes(rows, rows[..n]) == |Remixes(rows, n)|
    decreases n
  {
    if n > 0 {
      CountRemixesCounts(rows, n - 1);
      assert rows[..n][..n - 1] == rows[..n - 1];
      RemixesOneMore(rows, n);
    }
  }

  lemma RemixesOneMore(rows: seq<Row>, n: nat)
    requires 0 < n <= |rows|
    ensures Remixes(rows, n) == Remixes(rows, n - 1) + if IsRemix(rows, rows[n - 1]) then {n - 1} else {}
  {
  }

  /** Positions of the visible rows that a filter lets through. */
  function Passing(rows: seq<Row>, f: Filter): set<int> {
    set i | 0 <= i < |rows| && Selected(rows[i], f)
  }

  lemma {:induction false} OldestCounts(rows: seq<Row>, f: Filter)
    ensures |Oldest(rows, f)| == |Passing(rows, f)|
    decreases |rows|
  {
    if rows != [] {
      var n := |rows| - 1;
      OldestCounts(rows[..n], f);
      PassingOneMore(rows, f);
    }
  }

  lemma PassingOneMore(rows: seq<Row>, f: Filter)
    requires rows != []
    ensures var n := |rows| - 1;
            Passing(rows, f) == Passing(rows[..n], f) + if Selected(rows[n], f) then {n} else {}
  {
    var n := |rows| - 1;
    forall i | 0 <= i < n ensures i in Passing(rows, f) <==> i in Passing(rows[..n], f) {
      assert rows[..n][i] == rows[i];
    }
  }

  /**
   * The statistics, counted: visible postcards, those of the week, remixes, and for every catalog entry in order the
   * visible postcards in its palette. They are refused exactly for an empty window or a week without a key.
   */
  lemma StatsCount(env: Env, db: Db, start: Instant, end: Instant, weekKey: string)
    ensures ComputeStats(env, db, start, end, weekKey).Ok? <==> Earlier(start, end) && weekKey != ""
    ensures ComputeStats(env, db, start, end, weekKey).Ok? ==>
              var stats := ComputeStats(env, db, start, end, weekKey).value;
              && stats.weekKey == weekKey
              && stats.total == |Passing(db.rows, All)|
              && stats.thisWeek == |Passing(db.rows, Created(env.format(start), env.format(end)))|
              && stats.remixes == |Remixes(db.rows, |db.rows|)|
              && |stats.palettes| == |env.catalog|
              && forall i :: 0 <= i < |env.catalog| ==>
                   stats.palettes[i] == PaletteStat(env.catalog[i].id, env.catalog[i].version,
                                                    |Using(db.rows, env.catalog[i].id, env.catalog[i].version)|)
  {
    OldestCounts(db.rows, All);
    OldestCounts(db.rows, WindowFilter(env, start, end));
    CountRemixesCounts(db.rows, |db.rows|);
    assert db.rows[..|db.rows|] == db.rows;
    forall i | 0 <= i < |env.catalog|
      ensures CountPalette(db.rows, env.catalog[i].id, env.catalog[i].version)
           == |Using(db.rows, env.catalog[i].id, env.catalog[i].version)|
    {
      CountPaletteCounts(db.rows, env.catalog[i].id, env.catalog[i].version);
    }
  }
}
