/** The postcard tables as a value, and the transactions that change them. */
module PostcardStore {
  import opened Wrappers
  import opened Alias
  import opened Canvas
  import opened Palettes
  import opened ContentIdentity
  import opened Timestamps

  datatype Status = Visible | Hidden

  datatype Row = Row(
    id: int, pixels: Pixels, alias: Option<string>, commit: string, createdAt: string, contentHash: string,
    paletteId: string, paletteVersion: int, parent: Option<int>,
    status: Status, moderatedAt: Option<string>, reason: Option<string>)

  datatype EventKind = HideEvent | RestoreEvent

  datatype Event = Event(postcard: int, kind: EventKind, reason: string, at: string)

  /** The postcards in id order, the id counter that never goes back, and the moderation log. */
  datatype Db = Db(rows: seq<Row>, lastId: nat, events: seq<Event>)

  const EMPTY := Db([], 0, [])

  /** What the public sees of a row. */
  datatype Postcard = Postcard(
    id: int, pixels: Pixels, alias: Option<string>, commit: string, createdAt: string, contentHash: string,
    paletteId: string, paletteVersion: int, parent: Option<int>)

  datatype Error =
    | InvalidAlias | UnsupportedPalette | ParentNotFound | Duplicate
    | NotFound | WrongState | InvalidReason | InvalidArguments

  // ----- queries -----

  predicate IsVisible(rows: seq<Row>, id: int) {
    exists i :: 0 <= i < |rows| && rows[i].id == id && rows[i].status == Visible
  }

  /** The parent is shown only while it is visible itself. */
  function Project(rows: seq<Row>, row: Row): Postcard {
    Postcard(row.id, row.pixels, row.alias, row.commit, row.createdAt, row.contentHash,
             row.paletteId, row.paletteVersion,
             if row.parent.Some? && IsVisible(rows, row.parent.value) then row.parent else None)
  }

  /** The visible row with the largest id. */
  function LatestVisible(rows: seq<Row>): Option<Row> {
    if rows == [] then None
    else if rows[|rows| - 1].status == Visible then Some(rows[|rows| - 1])
    else LatestVisible(rows[..|rows| - 1])
  }

  /** Position of a row by id, or the number of rows when there is none. */
  function PositionOf(rows: seq<Row>, id: int): (i: nat)
    ensures i <= |rows|
    ensures i < |rows| ==> rows[i].id == id
    ensures i == |rows| ==> forall j :: 0 <= j < |rows| ==> rows[j].id != id
  {
    if rows == [] then 0 else if rows[0].id == id then 0 else 1 + PositionOf(rows[1..], id)
  }

  function GetPublic(db: Db, id: int): Option<Postcard> {
    var i := PositionOf(db.rows, id);
    if id < 1 || i == |db.rows| || db.rows[i].status != Visible then None else Some(Project(db.rows, db.rows[i]))
  }

  // ----- transactions -----

  /**
   * What the binary is built with: the content hash of pixels under a palette, the palette catalog, the time
   * format.
   */
  datatype Env = Env(contentHash: (Pixels, string, int) -> string, catalog: seq<Palette>, format: Instant -> string)

  /** The environment of the real binary, for a given hash function. */
  function Binary(h: Hasher): Env {
    Env((p: Pixels, id: string, version: int) => ContentHashForPalette(h, p, id, version), CATALOG, t => Text(t))
  }

  predicate ValidAlias(alias: Option<string>) {
    alias.Some? ==> IsAlias(alias.value)
  }

  /** An empty alias is stored as none. */
  function StoredAlias(alias: Option<string>): Option<string> {
    if alias == Some("") then None else alias
  }

  predicate SameContent(row: Row, pixels: Pixels, paletteId: string, paletteVersion: int) {
    row.pixels == pixels && row.paletteId == paletteId && row.paletteVersion == paletteVersion
  }

  datatype Submission = Submission(
    pixels: Pixels, alias: Option<string>, commit: string, at: Instant,
    paletteId: string, paletteVersion: int, parent: Option<int>)

  function NewRow(env: Env, id: int, s: Submission): Row {
    Row(id, s.pixels, StoredAlias(s.alias), s.commit, env.format(s.at),
        env.contentHash(s.pixels, s.paletteId, s.paletteVersion),
        s.paletteId, s.paletteVersion, s.parent, Visible, None, None)
  }

  function Appended(db: Db, row: Row): Db
    requires row.id >= 0
  {
    Db(db.rows + [row], row.id, db.events)
  }

  /** One row replaced and one event logged. */
  function Amended(db: Db, i: nat, row: Row, e: Event): Db
    requires i < |db.rows|
  {
    Db(db.rows[i := row], db.lastId, db.events + [e])
  }

  /** Why a submission is refused, in the order the checks are made. */
  function Refusal(env: Env, db: Db, s: Submission): Option<Error> {
    if !ValidAlias(s.alias) then Some(InvalidAlias)
    else if !Listed(env.catalog, s.paletteId, s.paletteVersion) then Some(UnsupportedPalette)
    else if s.parent.Some? && (s.parent.value < 1 || !IsVisible(db.rows, s.parent.value)) then Some(ParentNotFound)
    else
      var latest := LatestVisible(db.rows);
      if latest.Some? && SameContent(latest.value, s.pixels, s.paletteId, s.paletteVersion) then Some(Duplicate)
      else None
  }

  function Insert(env: Env, db: Db, s: Submission): Result<Db, Error> {
    match Refusal(env, db, s)
    case Some(e) => Err(e)
    case None => Ok(Appended(db, NewRow(env, db.lastId + 1, s)))
  }

  predicate IsSpace(c: char) {
    var n := c as int;
    9 <= n <= 13 || n == 0x20 || n == 0x85 || n == 0xA0 || n == 0x1680 || 0x2000 <= n <= 0x200A
    || n == 0x2028 || n == 0x2029 || n == 0x202F || n == 0x205F || n == 0x3000
  }

  predicate IsControl(c: char) {
    var n := c as int;
    n < 0x20 || 0x7F <= n <= 0x9F
  }

  function TrimLeft(s: string): string {
    if s != [] && IsSpace(s[0]) then TrimLeft(s[1..]) else s
  }

  function TrimRight(s: string): string {
    if s != [] && IsSpace(s[|s| - 1]) then TrimRight(s[..|s| - 1]) else s
  }

  function NormalizeReason(reason: string): Option<string> {
    var trimmed := TrimRight(TrimLeft(reason));
    if trimmed == "" || |trimmed| > 256 || exists i :: 0 <= i < |trimmed| && IsControl(trimmed[i]) then None
    else Some(trimmed)
  }

  /** The status a kind of event starts from and the one it leads to. */
  function From(kind: EventKind): Status { if kind == HideEvent then Visible else Hidden }

  function To(kind: EventKind): Status { if kind == HideEvent then Hidden else Visible }

  function SetModeration(env: Env, db: Db, id: int, kind: EventKind, reason: string, at: Instant): Result<Db, Error> {
    if id < 1 then Err(NotFound)
    else
      var normalized := NormalizeReason(reason);
      if normalized.None? then Err(InvalidReason)
      else
        var i := PositionOf(db.rows, id);
        if i == |db.rows| then Err(NotFound)
        else if db.rows[i].status != From(kind) then Err(WrongState)
        else
          var row := db.rows[i].(status := To(kind), moderatedAt := Some(env.format(at)), reason := normalized);
          Ok(Amended(db, i, row, Event(id, kind, normalized.value, env.format(at))))
  }

  // ----- runs -----

  datatype Change =
    | Publish(submission: Submission)
    | Moderate(id: int, kind: EventKind, reason: string, at: Instant)

  function Apply(env: Env, db: Db, c: Change): Result<Db, Error> {
    match c
    case Publish(s) => Insert(env, db, s)
    case Moderate(id, kind, reason, at) => SetModeration(env, db, id, kind, reason, at)
  }

  /** A failed transaction rolls back. */
  function Next(env: Env, db: Db, c: Change): Db {
    match Apply(env, db, c)
    case Ok(after) => after
    case Err(_) => db
  }

  function Run(env: Env, db: Db, changes: seq<Change>): Db
    decreases |changes|
  {
    if changes == [] then db else Run(env, Next(env, db, changes[0]), changes[1..])
  }
}
