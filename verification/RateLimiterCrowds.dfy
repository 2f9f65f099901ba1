/** Callers with more keys than the limiter's table has room for, and when twice the limit is kept for all of them. */
module RateLimiterCrowds {
  import opened Arithmetic
  import opened Sequences
  import opened RateLimiter
  import opened RateLimiterRuns

  // ----- when the bound holds for every key -----

  /** Callers with these keys get at most twice the limit for any one of them in a window-long stretch. */
  ghost predicate BoundHolds(c: Config, keys: set<string>) {
    forall tables, calls, key, start, end ::
      IsRun(c, tables, calls) && KeysOf(calls) <= keys && IsStretch(c, calls, start, end) ==>
        Grants(calls, key, start, end) <= 2 * c.limit
  }

  predicate IsStretch(c: Config, calls: seq<Call>, start: nat, end: nat) {
    start < end <= |calls| && calls[end - 1].now - calls[start].now <= c.window
  }

  /** The bound holds for callers with these keys exactly when the table has room for all of them. */
  lemma BoundHoldsIff(c: Config, keys: set<string>)
    requires ValidConfig(c)
    ensures BoundHolds(c, keys) <==> |keys| <= c.maxEntries
  {
    if |keys| <= c.maxEntries {
      forall tables, calls, key, start, end |
        IsRun(c, tables, calls) && KeysOf(calls) <= keys && IsStretch(c, calls, start, end)
        ensures Grants(calls, key, start, end) <= 2 * c.limit
      {
        SubsetSize(KeysOf(calls), keys);
        FewKeysStayWithin(c, tables, calls, key, start, end);
      }
    } else {
      CrowdBreaksTheBound(c, keys);
    }
  }

  lemma CrowdBreaksTheBound(c: Config, keys: set<string>)
    requires ValidConfig(c) && |keys| > c.maxEntries
    ensures !BoundHolds(c, keys)
  {
    var ring := SomeOf(keys, c.maxEntries + 1);
    var rounds := 2 * c.limit + 1;
    var tables, calls := EvictionLiftsTheBound(c, ring, 0, false, rounds);
    forall i | 0 <= i < |calls| ensures calls[i].key in keys { assert calls[i].key in ring; }
    ProductGrows(|ring|, rounds);
    assert IsStretch(c, calls, 0, |calls|);
  }

  /** With room for every key that calls, no key is evicted. */
  lemma FewKeysStayWithin(c: Config, tables: seq<Table>, calls: seq<Call>, key: string, start: nat, end: nat)
    requires ValidConfig(c) && IsRun(c, tables, calls) && |KeysOf(calls)| <= c.maxEntries
    requires IsStretch(c, calls, start, end)
    ensures Grants(calls, key, start, end) <= 2 * c.limit
  {
    forall p: nat | start <= p < end ensures Survives(c, tables, calls, key, p) {
      RoomForFewKeys(c, tables, calls, p);
      var call := calls[p];
      assert AllowStep(c, tables[p], call.key, call.now, tables[p + 1], call.ok);
      if key == call.key { OwnKey(c, tables[p], key, call.now, tables[p + 1], call.ok); }
      else { OtherKeys(c, tables[p], call.key, call.now, tables[p + 1], call.ok, key); }
    }
    AtMostTwiceTheLimit(c, tables, calls, key, start, end);
  }

  lemma {:induction false} SomeOf(keys: set<string>, n: nat) returns (some: seq<string>)
    requires n <= |keys|
    ensures |some| == n && Distinct(some) && forall k :: k in some ==> k in keys
    decreases n
  {
    some := [];
    if n > 0 {
      var k :| k in keys;
      some := SomeOf(keys - {k}, n - 1);
      some := some + [k];
    }
  }

  // ----- keys that call in turn -----

  /** Whose turn it is. */
  function Key(ring: seq<string>, i: nat): string
    requires ring != []
  {
    ring[i % |ring|]
  }

  /** The turns all come at one instant, or one tick apart. */
  function Moment(t: int, apart: bool, i: nat): int {
    if apart then t + i else t
  }

  /** The entry a turn leaves if it opens a window. */
  function Opening(t: int, apart: bool, i: nat): Entry {
    Entry(1, Moment(t, apart, i), Moment(t, apart, i))
  }

  /** What the turns from `low` to `high - 1` leave, each opening a window. */
  function Turns(ring: seq<string>, t: int, apart: bool, low: nat, high: nat): Table
    requires ring != [] && low <= high
    decreases high
  {
    if low == high then map[]
    else Turns(ring, t, apart, low, high - 1)[Key(ring, high - 1) := Opening(t, apart, high - 1)]
  }

  /** The first turn still in the table before turn `i`, with room for all keys of the ring but one. */
  function First(ring: seq<string>, i: nat): (low: nat)
    requires ring != []
    ensures low <= i < low + |ring|
  {
    if i < |ring| then 0 else i - |ring| + 1
  }

  function TurnTable(ring: seq<string>, t: int, apart: bool, i: nat): Table
    requires ring != []
  {
    Turns(ring, t, apart, First(ring, i), i)
  }

  /** Within one round the turns belong to different keys. */
  lemma KeysDiffer(ring: seq<string>, i: nat, j: nat)
    requires Distinct(ring) && i < j < i + |ring|
    ensures Key(ring, i) != Key(ring, j)
  {
    RemaindersDiffer(|ring|, i, j);
    var a, b := i % |ring|, j % |ring|;
    if a < b { assert ring[a] != ring[b]; } else { assert ring[b] != ring[a]; }
  }

  lemma {:induction false} TurnsHold(ring: seq<string>, t: int, apart: bool, low: nat, high: nat, j: nat)
    requires Distinct(ring) && low <= j < high <= low + |ring|
    ensures Key(ring, j) in Turns(ring, t, apart, low, high)
    ensures Turns(ring, t, apart, low, high)[Key(ring, j)] == Opening(t, apart, j)
    decreases high
  {
    if j < high - 1 {
      KeysDiffer(ring, j, high - 1);
      TurnsHold(ring, t, apart, low, high - 1, j);
    }
  }

  lemma {:induction false} TurnOf(ring: seq<string>, t: int, apart: bool, low: nat, high: nat, k: string)
    returns (j: nat)
    requires Distinct(ring) && ring != [] && low <= high <= low + |ring| && k in Turns(ring, t, apart, low, high)
    ensures low <= j < high && k == Key(ring, j) && Turns(ring, t, apart, low, high)[k] == Opening(t, apart, j)
    decreases high
  {
    if k == Key(ring, high - 1) { j := high - 1; } else { j := TurnOf(ring, t, apart, low, high - 1, k); }
  }

  lemma NextIsNew(ring: seq<string>, t: int, apart: bool, low: nat, high: nat)
    requires Distinct(ring) && low <= high < low + |ring|
    ensures Key(ring, high) !in Turns(ring, t, apart, low, high)
  {
    if Key(ring, high) in Turns(ring, t, apart, low, high) {
      var j := TurnOf(ring, t, apart, low, high, Key(ring, high));
      KeysDiffer(ring, j, high);
    }
  }

  lemma {:induction false} TurnsSize(ring: seq<string>, t: int, apart: bool, low: nat, high: nat)
    requires Distinct(ring) && ring != [] && low <= high <= low + |ring|
    ensures |Turns(ring, t, apart, low, high)| == high - low
    decreases high
  {
    if low < high {
      TurnsSize(ring, t, apart, low, high - 1);
      NextIsNew(ring, t, apart, low, high - 1);
      OneMoreKey(Turns(ring, t, apart, low, high - 1), Key(ring, high - 1), Opening(t, apart, high - 1));
    }
  }

  lemma OneMoreKey(m: Table, k: string, e: Entry)
    requires k !in m
    ensures |m[k := e]| == |m| + 1
  {
    assert m[k := e].Keys == m.Keys + {k} && |m| == |m.Keys| && |m[k := e]| == |m[k := e].Keys|;
  }

  /** Without the first turn, the others leave the same entries. */
  lemma {:induction false} TurnsWithoutFirst(ring: seq<string>, t: int, apart: bool, low: nat, high: nat)
    requires Distinct(ring) && low < high <= low + |ring|
    ensures Turns(ring, t, apart, low + 1, high) == Turns(ring, t, apart, low, high) - {Key(ring, low)}
    decreases high
  {
    if low + 1 < high {
      TurnsWithoutFirst(ring, t, apart, low, high - 1);
      KeysDiffer(ring, low, high - 1);
    }
  }

  /** The first turn was seen least recently; if turns are apart, no other was. */
  lemma FirstIsOldest(ring: seq<string>, t: int, apart: bool, low: nat, high: nat, k: string)
    requires Distinct(ring) && low < high <= low + |ring|
    ensures IsOldest(Turns(ring, t, apart, low, high), Key(ring, low))
    ensures apart && IsOldest(Turns(ring, t, apart, low, high), k) ==> k == Key(ring, low)
  {
    var m := Turns(ring, t, apart, low, high);
    TurnsHold(ring, t, apart, low, high, low);
    forall x | x in m ensures m[Key(ring, low)].lastSeen <= m[x].lastSeen {
      var j := TurnOf(ring, t, apart, low, high, x);
    }
    if apart && IsOldest(m, k) {
      var j := TurnOf(ring, t, apart, low, high, k);
    }
  }

  /** Before turn `i` the table holds only open windows, none of the key whose turn it is, and is full from then on. */
  lemma BeforeTurn(c: Config, ring: seq<string>, t: int, apart: bool, i: nat)
    requires ValidConfig(c) && |ring| == c.maxEntries + 1 && Distinct(ring) && (apart ==> i < c.window)
    ensures var m := TurnTable(ring, t, apart, i);
            && Unexpired(c, m, Moment(t, apart, i)) == m && Key(ring, i) !in m
            && |m| == if i < c.maxEntries then i else c.maxEntries
  {
    var m, low := TurnTable(ring, t, apart, i), First(ring, i);
    TurnsSize(ring, t, apart, low, i);
    NextIsNew(ring, t, apart, low, i);
    forall k | k in m ensures Live(c, m[k], Moment(t, apart, i)) {
      var j := TurnOf(ring, t, apart, low, i, k);
    }
  }

  /** One turn adds its key and drops the first if the table was full. */
  lemma TableAfterTurn(c: Config, ring: seq<string>, t: int, apart: bool, i: nat)
    requires ValidConfig(c) && |ring| == c.maxEntries + 1 && Distinct(ring)
    ensures var m := TurnTable(ring, t, apart, i);
            TurnTable(ring, t, apart, i + 1)
            == (if i < c.maxEntries then m else m - {Key(ring, First(ring, i))})[Key(ring, i) := Opening(t, apart, i)]
  {
    var low := First(ring, i);
    if i >= c.maxEntries { TurnsWithoutFirst(ring, t, apart, low, i); }
  }

  lemma TurnStep(c: Config, ring: seq<string>, t: int, apart: bool, i: nat)
    requires ValidConfig(c) && |ring| == c.maxEntries + 1 && Distinct(ring) && (apart ==> i < c.window)
    ensures AllowStep(c, TurnTable(ring, t, apart, i), Key(ring, i), Moment(t, apart, i),
                      TurnTable(ring, t, apart, i + 1), true)
  {
    BeforeTurn(c, ring, t, apart, i);
    TableAfterTurn(c, ring, t, apart, i);
    if i >= c.maxEntries { FirstIsOldest(ring, t, apart, First(ring, i), i, ""); }
  }

  /** With turns apart there is only one key to evict, so whatever the limiter does is that. */
  lemma ForcedStep(c: Config, ring: seq<string>, t: int, i: nat, after: Table, ok: bool)
    requires ValidConfig(c) && |ring| == c.maxEntries + 1 && Distinct(ring) && i < c.window
    requires AllowStep(c, TurnTable(ring, t, true, i), Key(ring, i), t + i, after, ok)
    ensures ok && after == TurnTable(ring, t, true, i + 1)
  {
    var m := TurnTable(ring, t, true, i);
    BeforeTurn(c, ring, t, true, i);
    TableAfterTurn(c, ring, t, true, i);
    if i >= c.maxEntries {
      var gone :| IsOldest(m, gone) && after == (m - {gone})[Key(ring, i) := Entry(1, t + i, t + i)];
      FirstIsOldest(ring, t, true, First(ring, i), i, gone);
    }
  }

  /** In each round the first key of the ring is granted once. */
  lemma {:induction false} TurnsGranted(ring: seq<string>, calls: seq<Call>, n: nat, round: nat, turn: nat)
    requires |ring| > 1 && Distinct(ring) && n <= |calls| && n == |ring| * round + turn && turn < |ring|
    requires forall i :: 0 <= i < |calls| ==> calls[i].key == Key(ring, i) && calls[i].ok
    ensures Grants(calls, ring[0], 0, n) == round + if turn > 0 then 1 else 0
    decreases n
  {
    if turn > 0 {
      TurnsGranted(ring, calls, n - 1, round, turn - 1);
      RemainderIs(|ring|, round, turn - 1);
    } else if round > 0 {
      assert n == |ring| * (round - 1) + |ring|;
      TurnsGranted(ring, calls, n - 1, round - 1, |ring| - 1);
      RemainderIs(|ring|, round - 1, |ring| - 1);
    }
  }

  /**
   * The bound needs the key to stay in the table: for every table size and limit, one key more than there is room for,
   * calling in turn, can be granted any number of rounds at one instant, and within one window a tick apart.
   */
  lemma EvictionLiftsTheBound(c: Config, ring: seq<string>, t: int, apart: bool, rounds: nat)
    returns (tables: seq<Table>, calls: seq<Call>)
    requires ValidConfig(c) && |ring| == c.maxEntries + 1 && Distinct(ring)
    requires apart ==> |ring| * rounds <= c.window
    ensures IsRun(c, tables, calls) && |calls| == |ring| * rounds
    ensures forall i :: 0 <= i < |calls| ==> calls[i] == Call(Key(ring, i), Moment(t, apart, i), true)
    ensures forall i :: 0 <= i < |calls| ==> calls[i].key in ring
    ensures Grants(calls, ring[0], 0, |calls|) == rounds
  {
    var n := |ring| * rounds;
    calls := seq(n, i requires 0 <= i < n => Call(Key(ring, i), Moment(t, apart, i), true));
    tables := seq(n + 1, i requires 0 <= i <= n => TurnTable(ring, t, apart, i));
    TurnsAreRun(c, ring, t, apart, tables, calls);
    TurnsGranted(ring, calls, n, rounds, 0);
  }

  lemma TurnsAreRun(c: Config, ring: seq<string>, t: int, apart: bool, tables: seq<Table>, calls: seq<Call>)
    requires ValidConfig(c) && |ring| == c.maxEntries + 1 && Distinct(ring) && (apart ==> |calls| <= c.window)
    requires |tables| == |calls| + 1
    requires forall i: nat :: i < |calls| ==> calls[i] == Call(Key(ring, i), Moment(t, apart, i), true)
    requires forall i: nat :: i < |tables| ==> tables[i] == TurnTable(ring, t, apart, i)
    ensures IsRun(c, tables, calls)
  {
    forall i: nat | i < |calls|
      ensures AllowStep(c, tables[i], calls[i].key, calls[i].now, tables[i + 1], calls[i].ok)
    {
      TurnStep(c, ring, t, apart, i);
    }
  }

  /**
   * And no choice the limiter has helps: when the turns come a tick apart within one window, on every run each of
   * them is granted.
   */
  lemma NoChoiceSavesTheBound(c: Config, ring: seq<string>, t: int, rounds: nat, tables: seq<Table>, calls: seq<Call>)
    requires ValidConfig(c) && |ring| == c.maxEntries + 1 && Distinct(ring)
    requires IsRun(c, tables, calls) && |calls| == |ring| * rounds <= c.window
    requires forall i :: 0 <= i < |calls| ==> calls[i].key == Key(ring, i) && calls[i].now == t + i
    ensures forall i :: 0 <= i < |calls| ==> calls[i].ok
    ensures Grants(calls, ring[0], 0, |calls|) == rounds
  {
    forall i: nat | i < |calls| ensures calls[i].ok { EveryTurnIsForced(c, ring, t, tables, calls, i + 1); }
    TurnsGranted(ring, calls, |calls|, rounds, 0);
  }

  lemma {:induction false} EveryTurnIsForced(c: Config, ring: seq<string>, t: int, tables: seq<Table>,
      calls: seq<Call>, i: nat)
    requires ValidConfig(c) && |ring| == c.maxEntries + 1 && Distinct(ring)
    requires IsRun(c, tables, calls) && i <= |calls| <= c.window
    requires forall j :: 0 <= j < |calls| ==> calls[j].key == Key(ring, j) && calls[j].now == t + j
    ensures tables[i] == TurnTable(ring, t, true, i) && (i > 0 ==> calls[i - 1].ok)
    decreases i
  {
    if i > 0 {
      EveryTurnIsForced(c, ring, t, tables, calls, i - 1);
      ForcedStep(c, ring, t, i - 1, tables[i], calls[i - 1].ok);
    }
  }
}
