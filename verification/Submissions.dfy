/** When the store accepts a submission or a moderation, what it then holds, and what the public can read. */
module Submissions {
  import opened Wrappers
  import opened Alias
  import opened Canvas
  import opened Palettes
  import opened Timestamps
  import opened PostcardStore
  import opened StoreInvariants
  import opened Deduplication
  import opened Queries

  // ----- submissions -----

  /** At most sixteen characters: letters, digits, blank, underscore and hyphen. */
  predicate AcceptableAlias(alias: Option<string>) {
    match alias
    case None => true
    case Some(s) => |s| <= 16 && forall i :: 0 <= i < |s| ==> AcceptableCode(s[i] as int)
  }

  predicate KnownPalette(catalog: seq<Palette>, id: string, version: int) {
    exists p :: p in catalog && p.id == id && p.version == version
  }

  /** No parent, or one that is a visible postcard. */
  predicate VisibleParent(rows: seq<Row>, parent: Option<int>) {
    parent.Some? ==> exists i :: 0 <= i < |rows| && rows[i].id == parent.value && rows[i].status == Visible
  }

  /** The newest visible postcard, if there is one, has other pixels or another palette. */
  predicate DiffersFromLatest(rows: seq<Row>, s: Submission) {
    forall a: nat ::
      a < |rows| && rows[a].status == Visible && (forall c :: a < c < |rows| ==> rows[c].status == Hidden) ==>
      !(rows[a].pixels == s.pixels && rows[a].paletteId == s.paletteId && rows[a].paletteVersion == s.paletteVersion)
  }

  /** A submission is accepted exactly when all four conditions hold; the first that does not names the refusal. */
  lemma InsertSucceedsIff(env: Env, db: Db, s: Submission)
    requires Ordered(db)
    ensures Insert(env, db, s).Ok? <==>
              && AcceptableAlias(s.alias) && KnownPalette(env.catalog, s.paletteId, s.paletteVersion)
              && VisibleParent(db.rows, s.parent) && DiffersFromLatest(db.rows, s)
    ensures Insert(env, db, s) == Err(InvalidAlias) <==> !AcceptableAlias(s.alias)
    ensures Insert(env, db, s) == Err(UnsupportedPalette) <==>
              AcceptableAlias(s.alias) && !KnownPalette(env.catalog, s.paletteId, s.paletteVersion)
    ensures Insert(env, db, s) == Err(ParentNotFound) <==>
              && AcceptableAlias(s.alias) && KnownPalette(env.catalog, s.paletteId, s.paletteVersion)
              && !VisibleParent(db.rows, s.parent)
    ensures Insert(env, db, s) == Err(Duplicate) <==>
              && AcceptableAlias(s.alias) && KnownPalette(env.catalog, s.paletteId, s.paletteVersion)
              && VisibleParent(db.rows, s.parent) && !DiffersFromLatest(db.rows, s)
  {
    AliasIsAcceptable(s.alias);
    PaletteIsKnown(env.catalog, s.paletteId, s.paletteVersion);
    ParentIsVisible(db, s.parent);
    LatestDecides(db.rows, s);
  }

  lemma AliasIsAcceptable(alias: Option<string>)
    ensures ValidAlias(alias) <==> AcceptableAlias(alias)
  {
    if alias.Some? { AliasIs(alias.value); }
  }

  lemma PaletteIsKnown(catalog: seq<Palette>, id: string, version: int)
    ensures Listed(catalog, id, version) <==> KnownPalette(catalog, id, version)
  {
    var found := PaletteFrom(catalog, id, version);
    if found.Some? { assert found.value in catalog; }
  }

  lemma ParentIsVisible(db: Db, parent: Option<int>)
    requires Ordered(db)
    ensures parent.Some? ==> (parent.value >= 1 && IsVisible(db.rows, parent.value) <==> VisibleParent(db.rows, parent))
  {
  }

  lemma LatestDecides(rows: seq<Row>, s: Submission)
    ensures DiffersFromLatest(rows, s) <==>
              var latest := LatestVisible(rows);
              latest.Some? ==> !SameContent(latest.value, s.pixels, s.paletteId, s.paletteVersion)
  {
    LatestVisibleFound(rows);
    forall a: nat | a < |rows| && IsLatest(rows, a) ensures LatestVisible(rows) == Some(rows[a]) {
      LatestVisibleIs(rows, a);
    }
  }

  /** An accepted submission becomes one new row under the next id, as submitted; an empty alias is no alias. */
  lemma AcceptedIsStored(env: Env, db: Db, s: Submission, after: Db)
    requires Insert(env, db, s) == Ok(after)
    ensures |after.rows| == |db.rows| + 1 && after.rows[..|db.rows|] == db.rows && after.events == db.events
    ensures var row := after.rows[|db.rows|];
            && row.id == after.lastId == db.lastId + 1 && row.status == Visible
            && row.pixels == s.pixels && row.paletteId == s.paletteId && row.paletteVersion == s.paletteVersion
            && row.commit == s.commit && row.parent == s.parent && row.createdAt == env.format(s.at)
            && row.alias == (match s.alias case None => None case Some(a) => if |a| == 0 then None else Some(a))
            && row.contentHash == env.contentHash(s.pixels, s.paletteId, s.paletteVersion)
            && row.moderatedAt == None && row.reason == None
  {
  }

  // ----- public reads -----

  /** A postcard can be read exactly while its row is visible, with the row's values and a parent that is visible. */
  lemma GetPublicIff(db: Db, id: int)
    requires Ordered(db)
    ensures GetPublic(db, id).Some? <==>
              exists i :: 0 <= i < |db.rows| && db.rows[i].id == id && db.rows[i].status == Visible
    ensures forall i :: 0 <= i < |db.rows| && db.rows[i].id == id && GetPublic(db, id).Some? ==>
              ShowsRow(db.rows, db.rows[i], GetPublic(db, id).value)
  {
    var p := PositionOf(db.rows, id);
    forall i | 0 <= i < |db.rows| && db.rows[i].id == id ensures i == p { SamePosition(db, i, p); }
    if GetPublic(db, id).Some? { ProjectionShows(db.rows, db.rows[p]); }
  }

  lemma SamePosition(db: Db, i: nat, j: nat)
    requires Ordered(db) && i < |db.rows| && j <= |db.rows|
    requires j == PositionOf(db.rows, db.rows[i].id)
    ensures i == j
  {
  }

  predicate ShowsRow(rows: seq<Row>, row: Row, shown: Postcard) {
    && shown.id == row.id && shown.pixels == row.pixels && shown.alias == row.alias && shown.commit == row.commit
    && shown.createdAt == row.createdAt && shown.contentHash == row.contentHash
    && shown.paletteId == row.paletteId && shown.paletteVersion == row.paletteVersion
    && shown.parent == (if row.parent.Some? && VisibleParent(rows, row.parent) then row.parent else None)
  }

  /** Listings show rows the same way. */
  lemma ProjectionShows(rows: seq<Row>, row: Row)
    ensures ShowsRow(rows, row, Project(rows, row))
  {
  }

  /** Listings refuse a limit below 1, a negative offset and a cursor below 1, and nothing else. */
  lemma ListingsRefuseIff(db: Db, limit: int, offset: int, before: Option<int>)
    ensures List(db, limit, offset).Ok? <==> limit >= 1 && offset >= 0
    ensures ListBefore(db, limit, before).Ok? <==> limit >= 1 && (before.Some? ==> before.value >= 1)
    ensures List(db, limit, offset).Ok? ==> |List(db, limit, offset).value| <= limit
    ensures ListBefore(db, limit, before).Ok? ==> |ListBefore(db, limit, before).value.items| <= limit
  {
  }

  // ----- moderation -----

  predicate AllSpaces(s: string) {
    forall i :: 0 <= i < |s| ==> IsSpace(s[i])
  }

  /** Neither its first nor its last character is a space. */
  predicate Bare(s: string) {
    s != "" ==> !IsSpace(s[0]) && !IsSpace(s[|s| - 1])
  }

  predicate HasControl(s: string) {
    exists i :: 0 <= i < |s| && IsControl(s[i])
  }

  /** The 25 white-space characters of Unicode and the 65 control characters. */
  lemma CharacterClasses(c: char)
    ensures IsSpace(c) <==>
              c as int in {9, 10, 11, 12, 13, 32, 0x85, 0xA0, 0x1680, 0x2000, 0x2001, 0x2002, 0x2003, 0x2004, 0x2005,
                           0x2006, 0x2007, 0x2008, 0x2009, 0x200A, 0x2028, 0x2029, 0x202F, 0x205F, 0x3000}
    ensures IsControl(c) <==> c as int <= 31 || 127 <= c as int <= 159
  {
  }

  /**
   * Of any text with spaces around it, the reason kept is the text without them: refused if empty, longer than 256
   * characters, or holding a control character.
   */
  lemma ReasonIsBareText(before: string, text: string, after: string)
    requires AllSpaces(before) && Bare(text) && AllSpaces(after)
    ensures NormalizeReason(before + text + after)
         == if text == "" || |text| > 256 || HasControl(text) then None else Some(text)
  {
    if text == "" {
      assert before + text + after == before + after;
      SpacesVanish(before + after);
    } else {
      LeftIsTrimmed(before, text + after);
      assert before + text + after == before + (text + after);
      RightIsTrimmed(text, after);
    }
  }

  /** Every reason is such a text. */
  lemma {:induction false} ReasonSplits(reason: string) returns (before: string, text: string, after: string)
    ensures reason == before + text + after && AllSpaces(before) && Bare(text) && AllSpaces(after)
    decreases |reason|
  {
    if reason != "" && IsSpace(reason[0]) {
      before, text, after := ReasonSplits(reason[1..]);
      before := [reason[0]] + before;
    } else if reason != "" && IsSpace(reason[|reason| - 1]) {
      before, text, after := ReasonSplits(reason[..|reason| - 1]);
      after := after + [reason[|reason| - 1]];
    } else {
      before, text, after := "", reason, "";
    }
  }

  lemma {:induction false} SpacesVanish(s: string)
    requires AllSpaces(s)
    ensures TrimLeft(s) == ""
    decreases |s|
  {
    if s != "" { SpacesVanish(s[1..]); }
  }

  lemma {:induction false} LeftIsTrimmed(spaces: string, rest: string)
    requires AllSpaces(spaces) && rest != "" && !IsSpace(rest[0])
    ensures TrimLeft(spaces + rest) == rest
    decreases |spaces|
  {
    if spaces == "" {
      assert spaces + rest == rest;
    } else {
      assert (spaces + rest)[1..] == spaces[1..] + rest;
      LeftIsTrimmed(spaces[1..], rest);
    }
  }

  lemma {:induction false} RightIsTrimmed(text: string, spaces: string)
    requires AllSpaces(spaces) && text != "" && !IsSpace(text[|text| - 1])
    ensures TrimRight(text + spaces) == text
    decreases |spaces|
  {
    if spaces == "" {
      assert text + spaces == text;
    } else {
      var n := |spaces| - 1;
      assert (text + spaces)[..|text + spaces| - 1] == text + spaces[..n];
      RightIsTrimmed(text, spaces[..n]);
    }
  }

  /**
   * A moderation is refused for an id below 1, then for its reason, then for a row that is not there, then for a row
   * that is already hidden or already visible.
   */
  lemma ModerationRefusal(env: Env, db: Db, id: int, kind: EventKind, reason: string, at: Instant)
    requires Ordered(db)
    ensures var r := SetModeration(env, db, id, kind, reason, at);
            && (r == Err(InvalidReason) <==> id >= 1 && NormalizeReason(reason) == None)
            && (r == Err(NotFound) <==> id < 1 || (NormalizeReason(reason).Some? && !HasRow(db.rows, id)))
            && (r == Err(WrongState) <==>
                  && NormalizeReason(reason).Some?
                  && exists i :: 0 <= i < |db.rows| && db.rows[i].id == id
                                 && db.rows[i].status == if kind == HideEvent then Hidden else Visible)
  {
    var p := PositionOf(db.rows, id);
    forall i | 0 <= i < |db.rows| && db.rows[i].id == id ensures i == p { SamePosition(db, i, p); }
    if p < |db.rows| { assert db.rows[p].id == id; }
  }

  /** A moderation that goes through changes one row's status, time and reason and logs just that. */
  lemma ModerationDoes(env: Env, db: Db, id: int, kind: EventKind, reason: string, at: Instant, after: Db)
    requires SetModeration(env, db, id, kind, reason, at) == Ok(after)
    ensures |after.rows| == |db.rows| && after.lastId == db.lastId && NormalizeReason(reason).Some?
    ensures forall i :: 0 <= i < |db.rows| ==>
              var row, text := db.rows[i], NormalizeReason(reason);
              i == PositionOf(db.rows, id) ==>
                && row.id == id && row.status == (if kind == HideEvent then Visible else Hidden)
                && after.rows[i] == row.(status := if kind == HideEvent then Hidden else Visible,
                                         moderatedAt := Some(env.format(at)), reason := text)
    ensures forall i :: 0 <= i < |db.rows| && db.rows[i].id != id ==> after.rows[i] == db.rows[i]
    ensures after.events == db.events + [Event(id, kind, NormalizeReason(reason).value, env.format(at))]
  {
  }
}
