/** A fixed-window limiter with bounded memory: one step, whole runs, and the unbounded limiter it stands for. */
module RateLimiter {
  datatype Entry = Entry(count: int, windowStart: int, lastSeen: int)

  type Table = map<string, Entry>

  datatype Config = Config(limit: int, window: int, maxEntries: int)

  predicate ValidConfig(c: Config) {
    c.limit >= 1 && c.window > 0 && c.maxEntries >= 1
  }

  predicate Live(c: Config, e: Entry, now: int) {
    now - e.windowStart < c.window
  }

  /** The table without entries whose window is over. */
  function Unexpired(c: Config, m: Table, now: int): (r: Table)
    ensures r.Keys <= m.Keys
    ensures forall k :: k in r <==> k in m && Live(c, m[k], now)
    ensures forall k :: k in r ==> r[k] == m[k]
  {
    map k | k in m && Live(c, m[k], now) :: m[k]
  }

  predicate IsOldest(m: Table, k: string) {
    k in m && forall j :: j in m ==> m[k].lastSeen <= m[j].lastSeen
  }

  /** A call on a key that has an open window. */
  function Bumped(c: Config, e: Entry, now: int): Entry {
    Entry(if e.count >= c.limit then e.count else e.count + 1, e.windowStart, now)
  }

  /**
   * One call: expired entries go, an open window counts or refuses, a new window opens, and when the table is full
   * some entry seen least recently makes room. Which of several equally old ones goes is left open.
   */
  ghost predicate AllowStep(c: Config, m: Table, key: string, now: int, m': Table, ok: bool) {
    var live := Unexpired(c, m, now);
    if key in live then
      && ok == (live[key].count < c.limit)
      && m' == live[key := Bumped(c, live[key], now)]
    else
      && ok
      && if |live| < c.maxEntries then m' == live[key := Entry(1, now, now)]
         else exists gone :: IsOldest(live, gone) && m' == (live - {gone})[key := Entry(1, now, now)]
  }

  // ----- the object -----

  datatype Call = Call(key: string, now: int, ok: bool)

  /** A run from the empty table: the calls made and the table before each of them and after the last. */
  ghost predicate IsRun(c: Config, tables: seq<Table>, calls: seq<Call>) {
    && |tables| == |calls| + 1
    && tables[0] == map[]
    && (forall i :: 0 <= i < |calls| ==>
          AllowStep(c, tables[i], calls[i].key, calls[i].now, tables[i + 1], calls[i].ok))
    && (forall i, j :: 0 <= i < j < |calls| ==> calls[i].now <= calls[j].now)
  }

  lemma RunGrows(c: Config, tables: seq<Table>, calls: seq<Call>, call: Call, after: Table)
    requires IsRun(c, tables, calls) && AllowStep(c, tables[|calls|], call.key, call.now, after, call.ok)
    requires calls != [] ==> calls[|calls| - 1].now <= call.now
    ensures IsRun(c, tables + [after], calls + [call])
  {
    var ts, cs := tables + [after], calls + [call];
    forall i | 0 <= i < |cs| ensures AllowStep(c, ts[i], cs[i].key, cs[i].now, ts[i + 1], cs[i].ok) {
      if i < |calls| { assert ts[i] == tables[i] && ts[i + 1] == tables[i + 1] && cs[i] == calls[i]; }
    }
  }

  class Limiter {
    const config: Config
    var entries: Table
    /** Every call so far and every table in between. */
    ghost var tables: seq<Table>
    ghost var calls: seq<Call>

    ghost predicate Valid()
      reads this
    {
      ValidConfig(config) && IsRun(config, tables, calls) && entries == tables[|calls|]
    }

    /** Values that make no sense are replaced by the smallest ones that do, a window by one minute. */
    constructor (limit: int, window: int, maxEntries: int)
      ensures Valid() && calls == []
      ensures config == Config(if limit < 1 then 1 else limit,
                               if window <= 0 then 60_000_000_000 else window,
                               if maxEntries < 1 then 1 else maxEntries)
    {
      config := Config(if limit < 1 then 1 else limit,
                       if window <= 0 then 60_000_000_000 else window,
                       if maxEntries < 1 then 1 else maxEntries);
      entries := map[];
      tables, calls := [map[]], [];
    }

    /** The clock is assumed not to go back; `now` is its reading for this call. */
    method Allow(key: string, now: int) returns (ok: bool)
      requires Valid() && (calls != [] ==> calls[|calls| - 1].now <= now)
      modifies this
      ensures Valid() && calls == old(calls) + [Call(key, now, ok)] && tables == old(tables) + [entries]
      ensures AllowStep(config, old(entries), key, now, entries, ok)
    {
      ok := Update(key, now);
      RunGrows(config, tables, calls, Call(key, now, ok), entries);
      tables, calls := tables + [entries], calls + [Call(key, now, ok)];
    }

    method Update(key: string, now: int) returns (ok: bool)
      requires ValidConfig(config)
      modifies this`entries
      ensures AllowStep(config, old(entries), key, now, entries, ok)
    {
      RemoveExpired(now);
      if key in entries && now - entries[key].windowStart < config.window {
        var current := entries[key].(lastSeen := now);
        ok := current.count < config.limit;
        if ok { current := current.(count := current.count + 1); }
        entries := entries[key := current];
      } else {
        if key !in entries && |entries| >= config.maxEntries { RemoveOldest(); }
        entries := entries[key := Entry(1, now, now)];
        ok := true;
      }
    }

    /** Walks the table in any order and deletes what has expired. */
    method RemoveExpired(now: int)
      modifies this`entries
      ensures entries == Unexpired(config, old(entries), now)
    {
      var keys := entries.Keys;
      while keys != {}
        invariant keys <= old(entries).Keys && entries.Keys <= old(entries).Keys
        invariant forall k :: k in old(entries) ==> (k in entries <==> k in keys || Live(config, old(entries)[k], now))
        invariant forall k :: k in entries ==> entries[k] == old(entries)[k]
        decreases |keys|
      {
        var k :| k in keys;
        if now - entries[k].windowStart >= config.window { entries := entries - {k}; }
        keys := keys - {k};
      }
    }

    /** Walks the table in any order, keeps the oldest met so far, and deletes it. */
    method RemoveOldest()
      requires |entries| > 0
      modifies this`entries
      ensures exists gone :: IsOldest(old(entries), gone) && entries == old(entries) - {gone}
    {
      var oldestKey, oldest, first := "", 0, true;
      var keys := entries.Keys;
      while keys != {}
        invariant keys <= entries.Keys
        invariant first ==> keys == entries.Keys
        invariant !first ==> oldestKey in entries && oldest == entries[oldestKey].lastSeen
                             && forall k :: k in entries && k !in keys ==> oldest <= entries[k].lastSeen
        decreases |keys|
      {
        var k :| k in keys;
        if first || entries[k].lastSeen < oldest {
          oldestKey, oldest, first := k, entries[k].lastSeen, false;
        }
        keys := keys - {k};
      }
      if !first {
        assert IsOldest(entries, oldestKey);
        entries := entries - {oldestKey};
      }
    }
  }
}
