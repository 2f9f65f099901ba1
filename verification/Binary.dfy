/** The binary as shipped: the concrete catalog, hash domains and time format meet what the other modules assume. */
module Binary {
  import opened Canvas
  import opened Palettes
  import opened ContentIdentity
  import opened Timestamps
  import P = PostcardStore
  import I = StoreInvariants
  import D = Drafts
  import S = Stats
  import R = Rendering
  import W = Weekly
  import Q = Queries
  import K = Weeks
  import M = Migrations
  import Wrappers

  /**
   * The embedded catalog passes its loader's checks: a default entry, distinct printed keys, named versions from 1 on,
   * and sixteen 24-bit colours per palette.
   */
  lemma CatalogIsWellFormed()
    ensures D.HasDefault(CATALOG) && S.DistinctKeys(CATALOG) && R.Complete(CATALOG)
    ensures forall p :: p in CATALOG ==> p.id != "" && p.version >= 1 && AreColors(p.colors)
  {
    DefaultIsSupported();
    R.CatalogIsComplete();
    forall i, j | 0 <= i < j < |CATALOG|
      ensures S.PaletteKey(CATALOG[i].id, CATALOG[i].version) != S.PaletteKey(CATALOG[j].id, CATALOG[j].version)
    {
      FirstLetters(i);
      FirstLetters(j);
    }
    forall p | p in CATALOG ensures p.id != "" && p.version >= 1 && AreColors(p.colors) {
      if p == CATALOG[0] { assert p.id[0] == 'v'; }
      else if p == CATALOG[1] { assert p.id[0] == 'g'; }
      else { assert p == CATALOG[2] && p.id[0] == 's'; }
    }
  }

  predicate AreColors(colors: seq<int>) {
    forall i :: 0 <= i < |colors| ==> 0 <= colors[i] < 0x1000000
  }

  lemma FirstLetters(i: nat)
    requires i < 3
    ensures |S.PaletteKey(CATALOG[i].id, CATALOG[i].version)| > 0
    ensures S.PaletteKey(CATALOG[i].id, CATALOG[i].version)[0] == ['v', 'g', 's'][i]
  {
    assert CATALOG[0].id[0] == 'v' && CATALOG[1].id[0] == 'g' && CATALOG[2].id[0] == 's';
  }

  /**
   * In every reachable store two postcards share a content hash only if they share pixels and palette, or the hash
   * function itself collides on their two different inputs.
   */
  lemma EqualHashMeansEqualContentOrCollision(h: Hasher, changes: seq<P.Change>, i: nat, j: nat)
    requires var db := P.Run(P.Binary(h), P.EMPTY, changes);
             i < |db.rows| && j < |db.rows| && db.rows[i].contentHash == db.rows[j].contentHash
    ensures var db := P.Run(P.Binary(h), P.EMPTY, changes);
            var r, s := db.rows[i], db.rows[j];
            || P.SameContent(r, s.pixels, s.paletteId, s.paletteVersion)
            || (var x := Preimage(r.pixels, r.paletteId, r.paletteVersion);
                var y := Preimage(s.pixels, s.paletteId, s.paletteVersion);
                x != y && h(x) == h(y))
  {
    var env := P.Binary(h);
    var db := P.Run(env, P.EMPTY, changes);
    I.EmptyIsSound(env);
    I.RunKeepsSound(env, P.EMPTY, changes);
    var r, s := db.rows[i], db.rows[j];
    assert I.Identified(env, r) && I.Identified(env, s);
    HashOfRow(h, r);
    HashOfRow(h, s);
    if Preimage(r.pixels, r.paletteId, r.paletteVersion) == Preimage(s.pixels, s.paletteId, s.paletteVersion) {
      PreimageIsInjective(r.pixels, r.paletteId, r.paletteVersion, s.pixels, s.paletteId, s.paletteVersion);
    }
  }

  lemma HashOfRow(h: Hasher, r: P.Row)
    requires I.Identified(P.Binary(h), r)
    ensures r.contentHash == h(Preimage(r.pixels, r.paletteId, r.paletteVersion))
  {
  }

  /**
   * A postcard published at `t` is in the weekly selection of a window exactly when `t` is in the window, except in
   * the first second after a bound.
   */
  lemma PublishedPostcardIsInItsWeek(h: Hasher, db: P.Db, s: P.Submission, start: Instant, end: Instant)
    requires ValidInstant(s.at) && WholeSecond(start) && WholeSecond(end) && Earlier(start, end)
    ensures P.Insert(P.Binary(h), db, s).Ok? ==>
              var after := P.Insert(P.Binary(h), db, s).value;
              var row := after.rows[|after.rows| - 1];
              (row in Q.Oldest(after.rows, W.WindowFilter(P.Binary(h), start, end)) <==> InWindow(s.at, start, end))
              <==> !InFirstSecondAfter(s.at, start) && !InFirstSecondAfter(s.at, end)
  {
    var env := P.Binary(h);
    if P.Insert(env, db, s).Ok? {
      var row, after := P.NewRow(env, db.lastId + 1, s), P.Insert(env, db, s).value;
      NewRowIsLast(env, db, s, after);
      W.OldestHolds(after.rows, W.WindowFilter(env, start, end), row);
      W.SelectionWindowIsExactWhen(env, row, s.at, start, end);
    }
  }

  lemma NewRowIsLast(env: P.Env, db: P.Db, s: P.Submission, after: P.Db)
    requires P.Insert(env, db, s) == Wrappers.Ok(after)
    ensures after.rows == db.rows + [P.NewRow(env, db.lastId + 1, s)]
  {
    I.InsertAppends(env, db, s);
  }

  /** The week's page of any day selects a postcard published at a moment exactly if that week counts the moment. */
  lemma PublishedPostcardIsInOneWeek(h: Hasher, db: P.Db, s: P.Submission, after: P.Db, day: int, c: K.Clock,
      today: int)
    requires K.Writable(day) && K.ValidClock(c) && s.at == K.At(day, c)
    requires K.Writable(K.WeekStart(today)) && K.Writable(K.WeekEnd(today))
    ensures P.Insert(P.Binary(h), db, s) == Wrappers.Ok(after) ==>
              var row := P.NewRow(P.Binary(h), db.lastId + 1, s);
              && after.rows == db.rows + [row]
              && (row in Q.Oldest(after.rows, W.WindowFilter(P.Binary(h), K.WeekBegins(today), K.WeekEnds(today)))
                  <==> K.CountedIn(day, c) == K.WeekStart(today))
  {
    var env := P.Binary(h);
    if P.Insert(env, db, s) == Wrappers.Ok(after) {
      var row, f := P.NewRow(env, db.lastId + 1, s), W.WindowFilter(env, K.WeekBegins(today), K.WeekEnds(today));
      NewRowIsLast(env, db, s, after);
      W.OldestHolds(after.rows, f, row);
      assert row in after.rows by { assert after.rows[|db.rows|] == row; }
      assert Q.Selected(row, f) <==> K.CountedIn(day, c) == K.WeekStart(today) by {
        K.WeeksPartitionMoments(day, c, today);
      }
    }
  }

  /** What a row under the default palette was hashed from: the prefix without a version, and its pixels. */
  predicate HashedAsBefore(h: Hasher, r: P.Row) {
    r.paletteId == "vga16" && r.paletteVersion == 1 ==>
      r.contentHash == h(Bytes("pixelgrama:postcard:v1:vga16:") + r.pixels)
  }

  /** On every run from an empty store, default postcards keep the hash input of the first versions. */
  lemma DefaultPostcardsKeepTheirHash(h: Hasher, changes: seq<P.Change>, i: nat)
    requires i < |P.Run(P.Binary(h), P.EMPTY, changes).rows|
    ensures HashedAsBefore(h, P.Run(P.Binary(h), P.EMPTY, changes).rows[i])
  {
    I.EmptyIsSound(P.Binary(h));
    I.RunKeepsSound(P.Binary(h), P.EMPTY, changes);
    IdentifiedIsHashedAsBefore(h, P.Run(P.Binary(h), P.EMPTY, changes).rows[i]);
  }

  /** So do those of a migrated file, and of every run that follows. */
  lemma MigratedPostcardsKeepTheirHash(h: Hasher, file: M.File, changes: seq<P.Change>, db: P.Db, i: nat)
    requires M.Consistent(P.Binary(h), file) && M.Migrated(P.Binary(h), file).failure == Wrappers.None
    requires M.Current(M.Migrated(P.Binary(h), file).file)
    requires db == P.Run(P.Binary(h), M.StoreOf(M.Migrated(P.Binary(h), file).file), changes) && i < |db.rows|
    ensures HashedAsBefore(h, db.rows[i])
  {
    DefaultIsSupported();
    M.MigratedStoreIsSound(P.Binary(h), file, changes);
    IdentifiedIsHashedAsBefore(h, db.rows[i]);
  }

  lemma IdentifiedIsHashedAsBefore(h: Hasher, r: P.Row)
    requires I.Identified(P.Binary(h), r)
    ensures HashedAsBefore(h, r)
  {
    HashOfRow(h, r);
    if r.paletteId == "vga16" && r.paletteVersion == 1 { DefaultPreimage(r.pixels); }
  }
}
