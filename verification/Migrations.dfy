/** Bringing a database file of any earlier schema version up to date, one committed step at a time. */
module Migrations {
  import opened Wrappers
  import opened Canvas
  import opened Palettes
  import P = PostcardStore
  import I = StoreInvariants

  const CURRENT_VERSION: int := 4
  const LEGACY_PALETTE := "vga16"

  /** Columns added by schema version 2, 3 and 4. */
  datatype ModerationColumns = ModerationColumns(status: P.Status, moderatedAt: Option<string>, reason: Option<string>)
  datatype IdentityColumns = IdentityColumns(hash: string, formatVersion: int, paletteId: string, parent: Option<int>)
  datatype PaletteColumns = PaletteColumns(id: string, version: int)

  /** A stored postcard; a column group is absent until the schema has it. The pixel bytes are unchecked. */
  datatype StoredRow = StoredRow(
    id: int, data: seq<int>, alias: Option<string>, commit: string, createdAt: string,
    moderation: Option<ModerationColumns>, identity: Option<IdentityColumns>, palette: Option<PaletteColumns>)

  datatype File = File(version: int, rows: seq<StoredRow>, events: seq<P.Event>, lastId: nat)

  datatype Failure = FutureSchema | MissingMigration | BadPixels

  /** The file as a migration leaves it, and the error it stopped with. */
  datatype Opened = Opened(file: File, failure: Option<Failure>)

  const NO_HASH := "0000000000000000000000000000000000000000000000000000000000000000"

  predicate ValidData(data: seq<int>) {
    |data| == PIXEL_COUNT && forall k :: 0 <= k < |data| ==> 0 <= data[k] < COLOR_COUNT
  }

  function Decoded(data: seq<int>): (p: Pixels)
    requires ValidData(data)
    ensures p == data
  {
    seq(PIXEL_COUNT, k requires 0 <= k < PIXEL_COUNT => data[k])
  }

  predicate AllValid(rows: seq<StoredRow>) {
    forall i :: 0 <= i < |rows| ==> ValidData(rows[i].data)
  }

  function VgaHash(env: P.Env, data: seq<int>): string {
    if ValidData(data) then env.contentHash(Decoded(data), DEFAULT_PALETTE_ID, DEFAULT_PALETTE_VERSION) else NO_HASH
  }

  // ----- one row, brought from one version to a later one -----

  function WithModeration(row: StoredRow): StoredRow {
    row.(moderation := Some(ModerationColumns(P.Visible, None, None)))
  }

  function WithHash(row: StoredRow, hash: string): StoredRow {
    row.(identity := Some(IdentityColumns(hash, 1, LEGACY_PALETTE, None)))
  }

  function WithPalette(row: StoredRow): StoredRow {
    row.(palette := Some(PaletteColumns(DEFAULT_PALETTE_ID, DEFAULT_PALETTE_VERSION)))
  }

  function Mapped(rows: seq<StoredRow>, f: StoredRow -> StoredRow): (r: seq<StoredRow>)
    ensures |r| == |rows| && forall i :: 0 <= i < |rows| ==> r[i] == f(rows[i])
  {
    seq(|rows|, i requires 0 <= i < |rows| => f(rows[i]))
  }

  /** The row under schema version `to`: columns it already has are kept, missing ones get their values. */
  function Upgraded(env: P.Env, row: StoredRow, from: int, to: int): StoredRow {
    var r2 := if from < 2 <= to then WithModeration(row) else row;
    var r3 := if from < 3 <= to then WithHash(r2, VgaHash(env, row.data)) else r2;
    if from < 4 <= to then WithPalette(r3) else r3
  }

  function UpgradedTo(env: P.Env, file: File, to: int): (f: File)
    ensures f.version == to && |f.rows| == |file.rows| && f.events == file.events && f.lastId == file.lastId
    ensures forall i :: 0 <= i < |file.rows| ==> f.rows[i] == Upgraded(env, file.rows[i], file.version, to)
  {
    File(to, seq(|file.rows|, i requires 0 <= i < |file.rows| => Upgraded(env, file.rows[i], file.version, to)),
         file.events, file.lastId)
  }

  // ----- the specification of a whole migration -----

  /** The version a migration reaches: bad pixel bytes stop it before version 3. */
  function Reached(file: File): int {
    if file.version < 0 || file.version >= CURRENT_VERSION then file.version
    else if file.version < 3 && !AllValid(file.rows) then 2
    else CURRENT_VERSION
  }

  function FailureOf(file: File): Option<Failure> {
    if file.version > CURRENT_VERSION then Some(FutureSchema)
    else if file.version < 0 then Some(MissingMigration)
    else if file.version < 3 && !AllValid(file.rows) then Some(BadPixels)
    else None
  }

  function Migrated(env: P.Env, file: File): Opened {
    Opened(UpgradedTo(env, file, Reached(file)), FailureOf(file))
  }

  /** The file when the process stops after at most `commits` committed steps. */
  function Interrupted(env: P.Env, file: File, commits: nat): File {
    UpgradedTo(env, file, if file.version + commits < Reached(file) then file.version + commits else Reached(file))
  }

  lemma UpgradeComposes(env: P.Env, row: StoredRow, from: int, via: int, to: int)
    requires from <= via <= to
    ensures Upgraded(env, Upgraded(env, row, from, via), via, to) == Upgraded(env, row, from, to)
  {
  }

  lemma UpgradeToSame(env: P.Env, file: File)
    ensures UpgradedTo(env, file, file.version) == file
  {
    assert UpgradedTo(env, file, file.version).rows == file.rows;
  }

  lemma UpgradedToComposes(env: P.Env, file: File, via: int, to: int)
    requires file.version <= via <= to
    ensures UpgradedTo(env, UpgradedTo(env, file, via), to) == UpgradedTo(env, file, to)
  {
    var middle, end := UpgradedTo(env, file, via), UpgradedTo(env, file, to);
    forall i | 0 <= i < |file.rows| ensures UpgradedTo(env, middle, to).rows[i] == end.rows[i] {
      UpgradeComposes(env, file.rows[i], file.version, via, to);
    }
  }

  lemma UpgradeKeepsData(env: P.Env, file: File, to: int)
    ensures AllValid(UpgradedTo(env, file, to).rows) == AllValid(file.rows)
  {
    var f := UpgradedTo(env, file, to);
    assert forall i :: 0 <= i < |file.rows| ==> f.rows[i].data == file.rows[i].data;
  }

  /** Stopping after any number of committed steps and opening again ends exactly as if nothing had stopped. */
  lemma ResumingChangesNothing(env: P.Env, file: File, commits: nat)
    ensures Migrated(env, Interrupted(env, file, commits)) == Migrated(env, file)
  {
    var stopped := Interrupted(env, file, commits);
    UpgradeKeepsData(env, file, stopped.version);
    if file.version <= stopped.version {
      UpgradedToComposes(env, file, stopped.version, Reached(file));
    } else {
      StoppedBelowStart(env, file, commits);
    }
  }

  /** A file already past version 2 is never taken back to it. */
  lemma StoppedBelowStart(env: P.Env, file: File, commits: nat)
    ensures file.version <= Interrupted(env, file, commits).version
  {
  }

  function InterruptedOften(env: P.Env, file: File, stops: seq<nat>): File
    decreases |stops|
  {
    if stops == [] then file else InterruptedOften(env, Interrupted(env, file, stops[0]), stops[1..])
  }

  /** The same for any number of interrupted attempts in a row. */
  lemma {:induction false} AnyInterruptionsChangeNothing(env: P.Env, file: File, stops: seq<nat>)
    ensures Migrated(env, InterruptedOften(env, file, stops)) == Migrated(env, file)
    decreases |stops|
  {
    if stops != [] {
      ResumingChangesNothing(env, file, stops[0]);
      AnyInterruptionsChangeNothing(env, Interrupted(env, file, stops[0]), stops[1..]);
    }
  }

  /** Opening succeeds exactly for versions 0 to 4 with decodable pixels where they are still to be hashed. */
  lemma MigrationSucceedsIff(env: P.Env, file: File)
    ensures Migrated(env, file).failure == None
       <==> 0 <= file.version <= 4 && (file.version >= 3 || AllValid(file.rows))
    ensures Migrated(env, file).failure == None ==> Migrated(env, file).file.version == 4
    ensures Migrated(env, file).failure == Some(FutureSchema) <==> file.version > 4
    ensures Migrated(env, file).failure == Some(MissingMigration) <==> file.version < 0
    ensures Migrated(env, file).failure in [Some(FutureSchema), Some(MissingMigration)] ==>
              Migrated(env, file).file == file
    ensures Migrated(env, file).failure == Some(BadPixels) ==> Migrated(env, file).file == UpgradedTo(env, file, 2)
  {
    UpgradeToSame(env, file);
  }

  /**
   * Whatever happens, no postcard is lost, added or altered in its original columns, and columns once there are
   * kept.
   */
  lemma MigrationKeepsPostcards(env: P.Env, file: File, commits: nat, i: nat)
    requires i < |file.rows|
    ensures var before, after := file.rows[i], Interrupted(env, file, commits).rows[i];
            && |Interrupted(env, file, commits).rows| == |file.rows|
            && after.id == before.id && after.data == before.data && after.alias == before.alias
            && after.commit == before.commit && after.createdAt == before.createdAt
            && (file.version >= 2 ==> after.moderation == before.moderation)
            && (file.version >= 3 ==> after.identity == before.identity)
            && (file.version >= 4 ==> after.palette == before.palette)
  {
  }

  // ----- a migrated file is a sound store -----

  /** What every version of the program kept in its own columns. */
  ghost predicate Consistent(env: P.Env, file: File) {
    && 0 <= file.version <= CURRENT_VERSION
    && (forall i :: 0 <= i < |file.rows| ==> 1 <= file.rows[i].id <= file.lastId)
    && (forall i, j :: 0 <= i < j < |file.rows| ==> file.rows[i].id < file.rows[j].id)
    && (file.version < 2 ==> file.events == [])
    && (forall i :: 0 <= i < |file.rows| ==> RowConsistent(env, file, file.rows[i]))
    && (file.version >= 2 ==> forall e :: 0 <= e < |file.events| ==> HasStoredRow(file.rows, file.events[e].postcard))
  }

  predicate HasStoredRow(rows: seq<StoredRow>, id: int) {
    exists i :: 0 <= i < |rows| && rows[i].id == id
  }

  ghost predicate RowConsistent(env: P.Env, file: File, row: StoredRow) {
    && (row.moderation.Some? <==> file.version >= 2)
    && (row.identity.Some? <==> file.version >= 3)
    && (row.palette.Some? <==> file.version >= 4)
    && (file.version >= 2 ==> LogShown(row.moderation.value, I.LogOf(file.events, row.id)))
    && (file.version >= 3 ==>
          && ValidData(row.data)
          && (row.identity.value.parent.Some? ==>
                row.identity.value.parent.value < row.id && HasStoredRow(file.rows, row.identity.value.parent.value))
          && (file.version == 3 ==> row.identity.value.hash == VgaHash(env, row.data)))
    && (file.version >= 4 ==>
          && Listed(env.catalog, row.palette.value.id, row.palette.value.version)
          && row.identity.value.hash
             == env.contentHash(Decoded(row.data), row.palette.value.id, row.palette.value.version))
  }

  predicate LogShown(m: ModerationColumns, log: seq<P.Event>) {
    && (forall i :: 0 <= i < |log| ==> log[i].kind == I.KindAt(i))
    && (m.status == P.Hidden <==> |log| % 2 == 1)
    && m.moderatedAt == (if log == [] then None else Some(log[|log| - 1].at))
    && m.reason == (if log == [] then None else Some(log[|log| - 1].reason))
  }

  predicate Current(file: File) {
    forall i :: 0 <= i < |file.rows| ==>
      && ValidData(file.rows[i].data)
      && file.rows[i].moderation.Some? && file.rows[i].identity.Some? && file.rows[i].palette.Some?
  }

  function RowOf(r: StoredRow): P.Row
    requires ValidData(r.data) && r.moderation.Some? && r.identity.Some? && r.palette.Some?
  {
    P.Row(r.id, Decoded(r.data), r.alias, r.commit, r.createdAt,
          r.identity.value.hash, r.palette.value.id, r.palette.value.version, r.identity.value.parent,
          r.moderation.value.status, r.moderation.value.moderatedAt, r.moderation.value.reason)
  }

  /** The store a current file holds. */
  function StoreOf(file: File): (db: P.Db)
    requires Current(file)
    ensures |db.rows| == |file.rows| && db.lastId == file.lastId && db.events == file.events
    ensures forall i :: 0 <= i < |file.rows| ==> db.rows[i] == RowOf(file.rows[i])
  {
    P.Db(seq(|file.rows|, i requires 0 <= i < |file.rows| => RowOf(file.rows[i])), file.lastId, file.events)
  }

  lemma UpgradedRowIsCurrent(env: P.Env, file: File, row: StoredRow)
    requires Consistent(env, file) && RowConsistent(env, file, row)
    requires file.version >= 3 || ValidData(row.data)
    requires Listed(env.catalog, DEFAULT_PALETTE_ID, DEFAULT_PALETTE_VERSION)
    ensures var r := Upgraded(env, row, file.version, CURRENT_VERSION);
            && ValidData(r.data) && r.moderation.Some? && r.identity.Some? && r.palette.Some?
            && r.id == row.id
            && I.Identified(env, RowOf(r))
            && I.Faithful(RowOf(r), I.LogOf(file.events, row.id))
            && (r.identity.value.parent.Some? ==>
                  r.identity.value.parent.value < r.id && HasStoredRow(file.rows, r.identity.value.parent.value))
  {
    if file.version < 2 { I.NoEventsNoLog(file.events, row.id); }
  }

  /**
   * A consistent file of any version whose pixels decode becomes a sound store: ordered ids, lineage, every content
   * hash equal to the hash of its pixels under its palette, and a faithful moderation log. Every later run keeps this.
   */
  lemma MigratedStoreIsSound(env: P.Env, file: File, changes: seq<P.Change>)
    requires Consistent(env, file) && Migrated(env, file).failure == None
    requires Listed(env.catalog, DEFAULT_PALETTE_ID, DEFAULT_PALETTE_VERSION)
    ensures Current(Migrated(env, file).file)
    ensures I.Sound(env, P.Run(env, StoreOf(Migrated(env, file).file), changes))
  {
    var after := Migrated(env, file).file;
    forall i | 0 <= i < |file.rows|
      ensures ValidData(after.rows[i].data)
      ensures after.rows[i].moderation.Some? && after.rows[i].identity.Some? && after.rows[i].palette.Some?
    {
      UpgradedRowIsCurrent(env, file, file.rows[i]);
      UpgradeToSame(env, file);
    }
    StoreIsSound(env, file, StoreOf(after));
    I.RunKeepsSound(env, StoreOf(after), changes);
  }

  lemma StoreIsSound(env: P.Env, file: File, db: P.Db)
    requires Consistent(env, file) && Migrated(env, file).failure == None
    requires Listed(env.catalog, DEFAULT_PALETTE_ID, DEFAULT_PALETTE_VERSION)
    requires Current(Migrated(env, file).file) && db == StoreOf(Migrated(env, file).file)
    ensures I.Sound(env, db)
  {
    var n := |file.rows|;
    forall i | 0 <= i < n
      ensures db.rows[i].id == file.rows[i].id && I.Identified(env, db.rows[i])
      ensures I.Faithful(db.rows[i], I.LogOf(db.events, db.rows[i].id))
      ensures db.rows[i].parent.Some? ==>
                db.rows[i].parent.value < db.rows[i].id && HasStoredRow(file.rows, db.rows[i].parent.value)
    {
      UpgradedRowIsCurrent(env, file, file.rows[i]);
      UpgradeToSame(env, file);
    }
    forall id | HasStoredRow(file.rows, id) ensures I.HasRow(db.rows, id) {
      var i :| 0 <= i < n && file.rows[i].id == id;
      assert db.rows[i].id == id;
    }
  }

  /**
   * What a row gets for the columns its file did not have: it is visible and was never moderated, its hash is that of
   * its pixels under the default palette, it has no parent, and it shows the palette `vga16`, version 1.
   */
  lemma NewColumnsAre(env: P.Env, file: File, i: nat)
    requires i < |file.rows| && Migrated(env, file).failure == None
    ensures var before, after := file.rows[i], Migrated(env, file).file.rows[i];
            && (file.version < 2 ==> after.moderation == Some(ModerationColumns(P.Visible, None, None)))
            && (file.version < 3 ==>
                  ValidData(before.data)
                  && var hash := env.contentHash(Decoded(before.data), "vga16", 1);
                     after.identity == Some(IdentityColumns(hash, 1, "vga16", None)))
            && (file.version < 4 ==> after.palette == Some(PaletteColumns("vga16", 1)))
  {
  }
}
