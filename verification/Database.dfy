/** The migration loop over a database file, one transaction per schema version. */
module Database {
  import opened Wrappers
  import opened Canvas
  import opened Palettes
  import P = PostcardStore
  import opened Migrations

  /** Ids are a primary key. */
  predicate UniqueIds(rows: seq<StoredRow>) {
    forall i, j :: 0 <= i < j < |rows| ==> rows[i].id != rows[j].id
  }

  /** The update statement of the hash population: every row with this id gets the hash. */
  function SetHash(rows: seq<StoredRow>, id: int, hash: string): (r: seq<StoredRow>)
    ensures |r| == |rows|
    ensures forall i :: 0 <= i < |rows| ==> r[i] == if rows[i].id == id then WithHash(rows[i], hash) else rows[i]
  {
    seq(|rows|, i requires 0 <= i < |rows| => if rows[i].id == id then WithHash(rows[i], hash) else rows[i])
  }

  /** Decodes every row before updating any, so one bad row leaves nothing to undo but the transaction itself. */
  method PopulateContentIdentity(env: P.Env, rows: seq<StoredRow>) returns (result: Result<seq<StoredRow>, Failure>)
    requires UniqueIds(rows)
    ensures result.Ok? <==> AllValid(rows)
    ensures result.Err? ==> result.error == BadPixels
    ensures result.Ok? ==> |result.value| == |rows|
                           && forall i :: 0 <= i < |rows| ==>
                                result.value[i] == WithHash(rows[i], VgaHash(env, rows[i].data))
  {
    var items: seq<(int, Pixels)> := [];
    for i := 0 to |rows|
      invariant |items| == i
      invariant forall j :: 0 <= j < i ==> ValidData(rows[j].data) && items[j] == (rows[j].id, Decoded(rows[j].data))
    {
      if !ValidData(rows[i].data) { return Err(BadPixels); }
      items := items + [(rows[i].id, Decoded(rows[i].data))];
    }
    var updated := rows;
    for i := 0 to |items|
      invariant |updated| == |rows|
      invariant forall j :: 0 <= j < |rows| ==>
                  updated[j] == if j < i then WithHash(rows[j], VgaHash(env, rows[j].data)) else rows[j]
    {
      updated := SetHash(updated, items[i].0, env.contentHash(items[i].1, DEFAULT_PALETTE_ID, DEFAULT_PALETTE_VERSION));
    }
    return Ok(updated);
  }

  class Database {
    const env: P.Env
    var version: int
    var rows: seq<StoredRow>
    var events: seq<P.Event>
    var lastId: nat

    ghost function Value(): File
      reads this
    {
      File(version, rows, events, lastId)
    }

    constructor (env: P.Env, file: File)
      ensures Value() == file && this.env == env
    {
      this.env := env;
      version, rows, events, lastId := file.version, file.rows, file.events, file.lastId;
    }

    /** The rows as the next schema step leaves them inside its transaction. */
    method Staged() returns (result: Result<seq<StoredRow>, Failure>)
      requires UniqueIds(rows) && 0 <= version < CURRENT_VERSION
      ensures result.Err? <==> version == 2 && !AllValid(rows)
      ensures result.Err? ==> result.error == BadPixels
      ensures result.Ok? ==> result.value == UpgradedTo(env, Value(), version + 1).rows
    {
      var next := version + 1;
      var staged := rows;
      if next == 2 {
        staged := Mapped(rows, WithModeration);
      } else if next == 3 {
        staged := Mapped(rows, row => WithHash(row, NO_HASH));
        var populated := PopulateContentIdentity(env, staged);
        HashedDefaults(env, rows, staged);
        if populated.Err? { return populated; }
        staged := populated.value;
      } else if next == 4 {
        staged := Mapped(rows, WithPalette);
      }
      assert staged == UpgradedTo(env, Value(), version + 1).rows;
      return Ok(staged);
    }

    /** Runs the loop until it is done, fails, or the process is stopped after `commits` committed steps. */
    method Migrate(commits: nat) returns (failure: Option<Failure>)
      requires UniqueIds(rows)
      modifies this
      ensures Value() == Interrupted(env, old(Value()), commits)
      ensures commits > CURRENT_VERSION ==> Opened(Value(), failure) == Migrated(env, old(Value()))
    {
      ghost var start := Value();
      UpgradeToSame(env, start);
      if version > CURRENT_VERSION { return Some(FutureSchema); }
      var done := 0;
      while version < CURRENT_VERSION && done < commits
        invariant version == start.version + done <= Reached(start)
        invariant done <= commits && UniqueIds(rows)
        invariant version <= CURRENT_VERSION && Value() == UpgradedTo(env, start, version)
        decreases CURRENT_VERSION - version
      {
        if version < 0 { return Some(MissingMigration); }
        UpgradeKeepsData(env, start, version);
        UpgradedToComposes(env, start, version, version + 1);
        var staged := Staged();
        if staged.Err? { return Some(staged.error); }
        rows, version, done := staged.value, version + 1, done + 1;
      }
      return None;
    }
  }

  lemma HashedDefaults(env: P.Env, rows: seq<StoredRow>, staged: seq<StoredRow>)
    requires |staged| == |rows| && forall i :: 0 <= i < |rows| ==> staged[i] == WithHash(rows[i], NO_HASH)
    ensures AllValid(staged) == AllValid(rows)
    ensures forall i :: 0 <= i < |rows| ==>
              WithHash(staged[i], VgaHash(env, staged[i].data)) == WithHash(rows[i], VgaHash(env, rows[i].data))
  {
    assert forall i :: 0 <= i < |rows| ==> staged[i].data == rows[i].data;
  }
}
