/** What holds over every run of the limiter. */
module RateLimiterRuns {
  import opened RateLimiter

  // ----- shape of one step -----

  /** A step on one key leaves every other live entry alone, except the one it may evict. */
  lemma OtherKeys(c: Config, m: Table, key: string, now: int, m': Table, ok: bool, k: string)
    requires AllowStep(c, m, key, now, m', ok) && k != key
    ensures k in m' ==> k in Unexpired(c, m, now) && m'[k] == m[k]
    ensures var live := Unexpired(c, m, now);
            k in live && k !in m' ==> IsOldest(live, k) && |live| >= c.maxEntries && key !in live
  {
  }

  lemma OwnKey(c: Config, m: Table, key: string, now: int, m': Table, ok: bool)
    requires AllowStep(c, m, key, now, m', ok)
    ensures key in m'
    ensures var live := Unexpired(c, m, now);
            if key in live then ok == (live[key].count < c.limit) && m'[key] == Bumped(c, live[key], now)
            else ok && m'[key] == Entry(1, now, now)
  {
  }

  // ----- bounds on every table -----

  predicate EntryWithin(c: Config, e: Entry, now: int) {
    1 <= e.count <= c.limit && e.windowStart <= e.lastSeen <= now && Live(c, e, now)
  }

  lemma {:induction false} EntriesStayWithin(c: Config, tables: seq<Table>, calls: seq<Call>, i: nat)
    requires ValidConfig(c) && IsRun(c, tables, calls) && i <= |calls|
    ensures i == 0 ==> tables[i] == map[]
    ensures i > 0 ==> forall k :: k in tables[i] ==> EntryWithin(c, tables[i][k], calls[i - 1].now)
    decreases i
  {
    if i > 0 {
      EntriesStayWithin(c, tables, calls, i - 1);
      var m, m', call := tables[i - 1], tables[i], calls[i - 1];
      assert AllowStep(c, m, call.key, call.now, m', call.ok);
      forall k | k in m' ensures EntryWithin(c, m'[k], call.now) {
        if k == call.key { OwnKey(c, m, call.key, call.now, m', call.ok); }
        else { OtherKeys(c, m, call.key, call.now, m', call.ok, k); }
      }
    }
  }

  lemma SizeAfterStep(c: Config, m: Table, key: string, now: int, m': Table, ok: bool)
    requires ValidConfig(c) && AllowStep(c, m, key, now, m', ok) && |m| <= c.maxEntries
    ensures |m'| <= c.maxEntries
  {
    var live := Unexpired(c, m, now);
    SubsetSize(live.Keys, m.Keys);
    assert |live| == |live.Keys| && |m| == |m.Keys| && |m'| == |m'.Keys|;
    if key in live {
      assert m'.Keys == live.Keys;
    } else if |live| < c.maxEntries {
      assert m'.Keys == live.Keys + {key};
    } else {
      var gone :| IsOldest(live, gone) && m' == (live - {gone})[key := Entry(1, now, now)];
      SwapSize(live, gone, key, Entry(1, now, now));
    }
  }

  lemma SwapSize(m: Table, gone: string, key: string, e: Entry)
    requires gone in m && key !in m
    ensures |(m - {gone})[key := e]| == |m|
  {
    var m' := (m - {gone})[key := e];
    assert m'.Keys == (m.Keys - {gone}) + {key};
    assert |m'| == |m'.Keys| && |m| == |m.Keys|;
  }

  lemma SubsetSize<T>(a: set<T>, b: set<T>)
    requires a <= b
    ensures |a| <= |b|
  {
    if a != b {
      assert b == a + (b - a);
      assert |b| == |a| + |b - a|;
    }
  }

  /** At every moment the table is within its size, every count within the limit, and every entry within its window. */
  lemma {:induction false} TableStaysBounded(c: Config, tables: seq<Table>, calls: seq<Call>, i: nat)
    requires ValidConfig(c) && IsRun(c, tables, calls) && i <= |calls|
    ensures |tables[i]| <= c.maxEntries
    ensures forall k :: k in tables[i] ==>
              1 <= tables[i][k].count <= c.limit
              && tables[i][k].windowStart <= tables[i][k].lastSeen < tables[i][k].windowStart + c.window
    decreases i
  {
    EntriesStayWithin(c, tables, calls, i);
    if i > 0 {
      TableStaysBounded(c, tables, calls, i - 1);
      SizeAfterStep(c, tables[i - 1], calls[i - 1].key, calls[i - 1].now, tables[i], calls[i - 1].ok);
    }
  }

  // ----- how much one key is granted -----

  /** Granted calls of a key among calls `start` to `end - 1`. */
  function Grants(calls: seq<Call>, key: string, start: nat, end: nat): nat
    requires start <= end <= |calls|
    decreases end
  {
    if start == end then 0
    else Grants(calls, key, start, end - 1) + if calls[end - 1].key == key && calls[end - 1].ok then 1 else 0
  }

  /** The key is never evicted while its window is open. */
  predicate NeverEvicted(c: Config, tables: seq<Table>, calls: seq<Call>, key: string, start: nat, end: nat)
    requires start <= end <= |calls| < |tables|
  {
    forall p: nat :: start <= p < end ==> Survives(c, tables, calls, key, p)
  }

  predicate Survives(c: Config, tables: seq<Table>, calls: seq<Call>, key: string, p: nat)
    requires p < |calls| < |tables|
  {
    key in Unexpired(c, tables[p], calls[p].now) ==> key in tables[p + 1]
  }

  /**
   * Where the key stands after some calls of an interval that began at `t`: nothing granted yet; granted within the
   * window open now; granted within a window that ended after `t`; or one such window and the open one.
   */
  predicate Standing(c: Config, m: Table, key: string, granted: nat, t: int, begun: bool, last: int) {
    || (key !in m && granted == 0)
    || (key in m && granted <= m[key].count)
    || (key !in m && granted <= c.limit && begun && last > t)
    || (key in m && granted <= c.limit + m[key].count && m[key].windowStart > t)
  }

  lemma StandingStep(c: Config, m: Table, call: Call, m': Table, key: string, granted: nat, t: int, begun: bool,
      last: int)
    requires ValidConfig(c) && AllowStep(c, m, call.key, call.now, m', call.ok)
    requires Standing(c, m, key, granted, t, begun, last)
    requires t <= call.now <= t + c.window && (begun ==> t <= last <= call.now) && (!begun ==> granted == 0)
    requires key in m ==> 1 <= m[key].count <= c.limit && (begun ==> EntryWithin(c, m[key], last))
    requires key in Unexpired(c, m, call.now) ==> key in m'
    ensures Standing(c, m', key, granted + if call.key == key && call.ok then 1 else 0, t, true, call.now)
  {
    if call.key == key {
      OwnKey(c, m, key, call.now, m', call.ok);
    } else {
      OtherKeys(c, m, call.key, call.now, m', call.ok, key);
    }
  }

  ghost predicate StandsAt(c: Config, tables: seq<Table>, calls: seq<Call>, key: string, start: nat, p: nat)
    requires start <= p <= |calls| < |tables| && start < |calls|
  {
    Standing(c, tables[p], key, Grants(calls, key, start, p), calls[start].now, p > start, LastTime(calls, start, p))
  }

  function LastTime(calls: seq<Call>, start: nat, p: nat): int
    requires p <= |calls|
  {
    if p > start then calls[p - 1].now else 0
  }

  lemma {:induction false} StandingHolds(c: Config, tables: seq<Table>, calls: seq<Call>, key: string, start: nat,
      p: nat)
    requires ValidConfig(c) && IsRun(c, tables, calls) && start <= p <= |calls| && start < |calls|
    requires p > start ==> calls[p - 1].now <= calls[start].now + c.window
    requires NeverEvicted(c, tables, calls, key, start, p)
    ensures StandsAt(c, tables, calls, key, start, p)
    decreases p
  {
    if p > start {
      OneCallLess(c, tables, calls, key, start, p);
      StandingHolds(c, tables, calls, key, start, p - 1);
      StandingNext(c, tables, calls, key, start, p);
    } else {
      StandingStart(c, tables, calls, key, start);
    }
  }

  lemma OneCallLess(c: Config, tables: seq<Table>, calls: seq<Call>, key: string, start: nat, p: nat)
    requires IsRun(c, tables, calls) && start < p <= |calls| && NeverEvicted(c, tables, calls, key, start, p)
    requires calls[p - 1].now <= calls[start].now + c.window
    ensures NeverEvicted(c, tables, calls, key, start, p - 1)
    ensures Survives(c, tables, calls, key, p - 1)
    ensures p - 1 > start ==> calls[p - 2].now <= calls[start].now + c.window
  {
    TimesInOrder(c, tables, calls, start, p);
  }

  lemma StandingStart(c: Config, tables: seq<Table>, calls: seq<Call>, key: string, start: nat)
    requires ValidConfig(c) && IsRun(c, tables, calls) && start < |calls|
    ensures StandsAt(c, tables, calls, key, start, start)
  {
    if key in tables[start] { EntryBefore(c, tables, calls, start + 1, key); }
  }

  lemma StandingNext(c: Config, tables: seq<Table>, calls: seq<Call>, key: string, start: nat, p: nat)
    requires ValidConfig(c) && IsRun(c, tables, calls) && start < p <= |calls|
    requires calls[p - 1].now <= calls[start].now + c.window && StandsAt(c, tables, calls, key, start, p - 1)
    requires Survives(c, tables, calls, key, p - 1)
    ensures StandsAt(c, tables, calls, key, start, p)
  {
    var granted, t, last := Grants(calls, key, start, p - 1), calls[start].now, LastTime(calls, start, p - 1);
    TimesInOrder(c, tables, calls, start, p);
    if key in tables[p - 1] { EntryBefore(c, tables, calls, p, key); }
    StandingStep(c, tables[p - 1], calls[p - 1], tables[p], key, granted, t, p - 1 > start, last);
  }

  lemma EntryBefore(c: Config, tables: seq<Table>, calls: seq<Call>, p: nat, key: string)
    requires ValidConfig(c) && IsRun(c, tables, calls) && 0 < p <= |calls| && key in tables[p - 1]
    ensures p > 1 && EntryWithin(c, tables[p - 1][key], calls[p - 2].now)
  {
    EntriesStayWithin(c, tables, calls, p - 1);
  }

  lemma TimesInOrder(c: Config, tables: seq<Table>, calls: seq<Call>, start: nat, p: nat)
    requires IsRun(c, tables, calls) && start < p <= |calls|
    ensures calls[start].now <= calls[p - 1].now
    ensures p - 1 > start ==> calls[start].now <= calls[p - 2].now <= calls[p - 1].now
    ensures AllowStep(c, tables[p - 1], calls[p - 1].key, calls[p - 1].now, tables[p], calls[p - 1].ok)
  {
  }

  /** A key that is never evicted is granted at most twice the limit in any stretch of calls no longer than a window. */
  lemma AtMostTwiceTheLimit(c: Config, tables: seq<Table>, calls: seq<Call>, key: string, start: nat, end: nat)
    requires ValidConfig(c) && IsRun(c, tables, calls) && start < end <= |calls|
    requires calls[end - 1].now - calls[start].now <= c.window
    requires NeverEvicted(c, tables, calls, key, start, end)
    ensures Grants(calls, key, start, end) <= 2 * c.limit
  {
    StandingHolds(c, tables, calls, key, start, end);
    TableStaysBounded(c, tables, calls, end);
  }

  // ----- when a call is refused -----

  /** An entry counts exactly the calls granted to its key since the call that opened the window. */
  lemma {:induction false} CountIsGrants(c: Config, tables: seq<Table>, calls: seq<Call>, i: nat,
      k: string) returns (q: nat)
    requires ValidConfig(c) && IsRun(c, tables, calls) && i <= |calls| && k in tables[i]
    ensures q < i && calls[q].key == k && calls[q].ok && calls[q].now == tables[i][k].windowStart
    ensures Grants(calls, k, q, i) == tables[i][k].count
    decreases i
  {
    assert i > 0;
    var m, call := tables[i - 1], calls[i - 1];
    TimesInOrder(c, tables, calls, i - 1, i);
    if k != call.key {
      OtherKeys(c, m, call.key, call.now, tables[i], call.ok, k);
      q := CountIsGrants(c, tables, calls, i - 1, k);
    } else {
      OwnKey(c, m, k, call.now, tables[i], call.ok);
      if k in Unexpired(c, m, call.now) {
        q := CountIsGrants(c, tables, calls, i - 1, k);
        EntryBefore(c, tables, calls, i, k);
      } else {
        q := i - 1;
        assert Grants(calls, k, q, q) == 0;
      }
    }
  }

  /** A call is refused only after its key was granted the whole limit within one window. */
  lemma RefusalNeedsFullWindow(c: Config, tables: seq<Table>, calls: seq<Call>, p: nat) returns (q: nat)
    requires ValidConfig(c) && IsRun(c, tables, calls) && p < |calls| && !calls[p].ok
    ensures q < p && calls[q].key == calls[p].key && calls[q].ok && calls[p].now - calls[q].now < c.window
    ensures Grants(calls, calls[p].key, q, p) == c.limit
  {
    var key := calls[p].key;
    TimesInOrder(c, tables, calls, p, p + 1);
    OwnKey(c, tables[p], key, calls[p].now, tables[p + 1], calls[p].ok);
    EntryBefore(c, tables, calls, p + 1, key);
    q := CountIsGrants(c, tables, calls, p, key);
  }

  /** So a key that was granted fewer than `limit` calls in any stretch less than a window old is served. */
  lemma BelowLimitIsGranted(c: Config, tables: seq<Table>, calls: seq<Call>, p: nat)
    requires ValidConfig(c) && IsRun(c, tables, calls) && p < |calls|
    requires forall q: nat :: q < p && calls[p].now - calls[q].now < c.window ==>
               Grants(calls, calls[p].key, q, p) < c.limit
    ensures calls[p].ok
  {
    if !calls[p].ok { var q := RefusalNeedsFullWindow(c, tables, calls, p); }
  }

  /** A key with an open window in the table is refused exactly when that window has granted the limit. */
  lemma OpenWindowRefusesIff(c: Config, tables: seq<Table>, calls: seq<Call>, p: nat) returns (q: nat)
    requires ValidConfig(c) && IsRun(c, tables, calls) && p < |calls|
    requires calls[p].key in tables[p] && Live(c, tables[p][calls[p].key], calls[p].now)
    ensures q < p && calls[q].key == calls[p].key && calls[p].now - calls[q].now < c.window
    ensures !calls[p].ok <==> Grants(calls, calls[p].key, q, p) == c.limit
  {
    var key := calls[p].key;
    TimesInOrder(c, tables, calls, p, p + 1);
    OwnKey(c, tables[p], key, calls[p].now, tables[p + 1], calls[p].ok);
    EntryBefore(c, tables, calls, p + 1, key);
    q := CountIsGrants(c, tables, calls, p, key);
  }

  // ----- when a window can open early -----

  /** The last time an entry was seen is the time of a call on its key. */
  lemma {:induction false} SeenByCall(c: Config, tables: seq<Table>, calls: seq<Call>, i: nat,
      k: string) returns (r: nat)
    requires IsRun(c, tables, calls) && i <= |calls| && k in tables[i]
    ensures r < i && calls[r].key == k && calls[r].now == tables[i][k].lastSeen
    decreases i
  {
    assert i > 0;
    var call := calls[i - 1];
    assert AllowStep(c, tables[i - 1], call.key, call.now, tables[i], call.ok);
    if k == call.key {
      OwnKey(c, tables[i - 1], call.key, call.now, tables[i], call.ok);
      r := i - 1;
    } else {
      OtherKeys(c, tables[i - 1], call.key, call.now, tables[i], call.ok, k);
      r := SeenByCall(c, tables, calls, i - 1, k);
    }
  }

  /** Between two calls on a key its entry stays as it was until the step that evicts it. */
  lemma {:induction false} EvictionPoint(c: Config, tables: seq<Table>, calls: seq<Call>, q: nat, p: nat,
      k: string) returns (r: nat)
    requires IsRun(c, tables, calls) && q < p < |calls|
    requires k in tables[q + 1] && (forall x :: q < x < p ==> calls[x].key != k)
    requires Live(c, tables[q + 1][k], calls[p].now)
    requires k !in tables[p]
    ensures q < r < p && k in Unexpired(c, tables[r], calls[r].now) && tables[r][k] == tables[q + 1][k]
    ensures k !in tables[r + 1]
    decreases p - q
  {
    r := q + 1;
    while k in tables[r + 1]
      invariant q < r < p && k in tables[r] && tables[r][k] == tables[q + 1][k]
      decreases p - r
    {
      assert AllowStep(c, tables[r], calls[r].key, calls[r].now, tables[r + 1], calls[r].ok);
      OtherKeys(c, tables[r], calls[r].key, calls[r].now, tables[r + 1], calls[r].ok, k);
      r := r + 1;
    }
    assert calls[r].now <= calls[p].now;
  }

  predicate CalledSince(calls: seq<Call>, s: string, t: int, before: nat)
    requires before <= |calls|
  {
    exists x :: 0 <= x < before && calls[x].key == s && calls[x].now >= t
  }

  /**
   * A key opens a new window although its last one is still running only if, since it was last seen, at least
   * `maxEntries` other keys have called.
   */
  lemma EarlyWindowNeedsCrowd(c: Config, tables: seq<Table>, calls: seq<Call>, q: nat,
      p: nat) returns (others: set<string>)
    requires ValidConfig(c) && IsRun(c, tables, calls) && q < p < |calls|
    requires calls[q].key == calls[p].key && (forall x :: q < x < p ==> calls[x].key != calls[p].key)
    requires calls[q].key in tables[q + 1] && Live(c, tables[q + 1][calls[q].key], calls[p].now)
    requires calls[p].key !in Unexpired(c, tables[p], calls[p].now)
    ensures |others| >= c.maxEntries && calls[p].key !in others
    ensures forall s :: s in others ==> CalledSince(calls, s, calls[q].now, p)
  {
    var k := calls[p].key;
    assert AllowStep(c, tables[q], k, calls[q].now, tables[q + 1], calls[q].ok);
    OwnKey(c, tables[q], k, calls[q].now, tables[q + 1], calls[q].ok);
    if k in tables[p] { EntryKept(c, tables, calls, q, p, k); }
    var r := EvictionPoint(c, tables, calls, q, p, k);
    var live, newcomer := Unexpired(c, tables[r], calls[r].now), calls[r].key;
    assert AllowStep(c, tables[r], newcomer, calls[r].now, tables[r + 1], calls[r].ok);
    OtherKeys(c, tables[r], newcomer, calls[r].now, tables[r + 1], calls[r].ok, k);
    others := (live.Keys - {k}) + {newcomer};
    assert |live| == |live.Keys|;
    assert calls[q].now <= calls[r].now;
    forall s | s in others ensures CalledSince(calls, s, calls[q].now, p) {
      if s == newcomer {
        assert calls[r].key == s && calls[r].now >= calls[q].now;
      } else {
        var x := SeenByCall(c, tables, calls, r, s);
        assert calls[x].now == live[s].lastSeen >= live[k].lastSeen == calls[q].now;
      }
    }
  }

  /** While its window runs and it is not called, an entry present later is the entry left by the last call. */
  lemma {:induction false} EntryKept(c: Config, tables: seq<Table>, calls: seq<Call>, q: nat, p: nat, k: string)
    requires IsRun(c, tables, calls) && q < p < |calls| && (forall x :: q < x < p ==> calls[x].key != k)
    requires k in tables[p]
    ensures k in tables[q + 1] && tables[p][k] == tables[q + 1][k]
    decreases p
  {
    if p > q + 1 {
      assert AllowStep(c, tables[p - 1], calls[p - 1].key, calls[p - 1].now, tables[p], calls[p - 1].ok);
      OtherKeys(c, tables[p - 1], calls[p - 1].key, calls[p - 1].now, tables[p], calls[p - 1].ok, k);
      EntryKept(c, tables, calls, q, p - 1, k);
    }
  }

  // ----- the unbounded limiter -----

  /** A fixed window per key that is never forgotten: what the limiter would do with unlimited memory. */
  function SpecOk(c: Config, s: Table, key: string, now: int): bool {
    key in s && Live(c, s[key], now) ==> s[key].count < c.limit
  }

  function SpecNext(c: Config, s: Table, key: string, now: int): Table {
    s[key := if key in s && Live(c, s[key], now) then Bumped(c, s[key], now) else Entry(1, now, now)]
  }

  function SpecTable(c: Config, calls: seq<Call>, i: nat): Table
    requires i <= |calls|
    decreases i
  {
    if i == 0 then map[] else SpecNext(c, SpecTable(c, calls, i - 1), calls[i - 1].key, calls[i - 1].now)
  }

  /** Room was never short: whenever a window opened, the table was not full. */
  predicate RoomThroughout(c: Config, tables: seq<Table>, calls: seq<Call>)
    requires |calls| < |tables|
  {
    forall i :: 0 <= i < |calls| ==>
      calls[i].key in Unexpired(c, tables[i], calls[i].now) || |Unexpired(c, tables[i], calls[i].now)| < c.maxEntries
  }

  lemma ExpiryForgetsNothing(c: Config, s: Table, earlier: int, now: int)
    requires earlier <= now
    ensures Unexpired(c, Unexpired(c, s, earlier), now) == Unexpired(c, s, now)
  {
  }

  lemma CoupledStep(c: Config, s: Table, m: Table, call: Call, m': Table)
    requires ValidConfig(c) && AllowStep(c, m, call.key, call.now, m', call.ok)
    requires Unexpired(c, m, call.now) == Unexpired(c, s, call.now)
    requires call.key in Unexpired(c, m, call.now) || |Unexpired(c, m, call.now)| < c.maxEntries
    ensures call.ok == SpecOk(c, s, call.key, call.now)
    ensures m' == Unexpired(c, SpecNext(c, s, call.key, call.now), call.now)
  {
    var live, next := Unexpired(c, m, call.now), SpecNext(c, s, call.key, call.now);
    assert call.key in live <==> call.key in s && Live(c, s[call.key], call.now);
    assert Live(c, next[call.key], call.now);
    assert m' == live[call.key := next[call.key]];
  }

  /**
   * With room throughout, the table is the unbounded limiter's restricted to open windows, and every decision
   * agrees.
   */
  lemma {:induction false} RefinesUnbounded(c: Config, tables: seq<Table>, calls: seq<Call>, i: nat)
    requires ValidConfig(c) && IsRun(c, tables, calls) && RoomThroughout(c, tables, calls) && i <= |calls|
    ensures i > 0 ==> tables[i] == Unexpired(c, SpecTable(c, calls, i), calls[i - 1].now)
    ensures i > 0 ==> calls[i - 1].ok == SpecOk(c, SpecTable(c, calls, i - 1), calls[i - 1].key, calls[i - 1].now)
    decreases i
  {
    if i > 0 {
      var s, call := SpecTable(c, calls, i - 1), calls[i - 1];
      RefinesUnbounded(c, tables, calls, i - 1);
      if i > 1 { ExpiryForgetsNothing(c, s, calls[i - 2].now, call.now); }
      CoupledStep(c, s, tables[i - 1], call, tables[i]);
    }
  }

  function KeysOf(calls: seq<Call>): set<string> {
    set i | 0 <= i < |calls| :: calls[i].key
  }

  /** With room for every key that calls, a new window never finds the table full. */
  lemma RoomForFewKeys(c: Config, tables: seq<Table>, calls: seq<Call>, i: nat)
    requires IsRun(c, tables, calls) && |KeysOf(calls)| <= c.maxEntries && i < |calls|
    ensures calls[i].key in Unexpired(c, tables[i], calls[i].now)
            || |Unexpired(c, tables[i], calls[i].now)| < c.maxEntries
  {
    var live := Unexpired(c, tables[i], calls[i].now);
    if calls[i].key !in live {
      forall k | k in live ensures k in KeysOf(calls) - {calls[i].key} {
        var r := SeenByCall(c, tables, calls, i, k);
      }
      assert calls[i].key in KeysOf(calls);
      SubsetSize(live.Keys, KeysOf(calls) - {calls[i].key});
      assert |live| == |live.Keys|;
    }
  }

  /** A run over no more keys than the table has room for decides every call as the unbounded limiter does. */
  lemma FewKeysAgreeWithUnbounded(c: Config, tables: seq<Table>, calls: seq<Call>)
    requires ValidConfig(c) && IsRun(c, tables, calls) && |KeysOf(calls)| <= c.maxEntries
    ensures forall i :: 0 <= i < |calls| ==>
              calls[i].ok == SpecOk(c, SpecTable(c, calls, i), calls[i].key, calls[i].now)
  {
    forall i: nat | i < |calls|
      ensures calls[i].key in Unexpired(c, tables[i], calls[i].now)
              || |Unexpired(c, tables[i], calls[i].now)| < c.maxEntries
    {
      RoomForFewKeys(c, tables, calls, i);
    }
    forall i | 0 <= i < |calls|
      ensures calls[i].ok == SpecOk(c, SpecTable(c, calls, i), calls[i].key, calls[i].now)
    {
      RefinesUnbounded(c, tables, calls, i + 1);
    }
  }
}
