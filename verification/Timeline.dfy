/** Bounded undo history over any kind of drawing. */
module Timeline {
  import opened Sequences

  /** Snapshots to undo to, the current drawing, and snapshots to redo to (nearest last in both stacks). */
  datatype History<+T> = History(limit: nat, past: seq<T>, present: T, future: seq<T>)

  predicate Bounded<T>(h: History<T>) {
    0 < h.limit && |h.past| + |h.future| <= h.limit
  }

  /** Records `before` as one undo step unless nothing changed; the oldest step falls off beyond the limit. */
  function Commit<T(==)>(h: History<T>, before: T): History<T> {
    if before == h.present then h
    else
      var past := h.past + [before];
      h.(past := if |past| > h.limit then past[1..] else past, future := [])
  }

  /** Replaces the drawing and commits the replaced one. */
  function Record<T(==)>(h: History<T>, next: T): History<T> {
    Commit(h.(present := next), h.present)
  }

  function Back<T>(h: History<T>): History<T> {
    if h.past == [] then h
    else h.(past := h.past[..|h.past| - 1], present := h.past[|h.past| - 1], future := h.future + [h.present])
  }

  function Forward<T>(h: History<T>): History<T> {
    if h.future == [] then h
    else h.(past := h.past + [h.present], present := h.future[|h.future| - 1], future := h.future[..|h.future| - 1])
  }

  function Backs<T>(h: History<T>, n: nat): History<T>
    decreases n
  {
    if n == 0 then h else Backs(Back(h), n - 1)
  }

  function Forwards<T>(h: History<T>, n: nat): History<T>
    decreases n
  {
    if n == 0 then h else Forwards(Forward(h), n - 1)
  }

  function RecordAll<T(==)>(h: History<T>, drawings: seq<T>): History<T>
    decreases |drawings|
  {
    if drawings == [] then h else RecordAll(Record(h, drawings[0]), drawings[1..])
  }

  /** The drawings that recording replaced, in order; a drawing equal to its predecessor replaces nothing. */
  function Replaced<T(==)>(present: T, drawings: seq<T>): seq<T>
    decreases |drawings|
  {
    if drawings == [] then []
    else (if drawings[0] == present then [] else [present]) + Replaced(drawings[0], drawings[1..])
  }

  /** Both stacks and the drawing between them, oldest first. */
  function Line<T>(h: History<T>): seq<T> {
    h.past + [h.present] + Reverse(h.future)
  }

  /** The bound covers both stacks together, although going forward never checks it. */
  lemma MovesKeepBound<T>(h: History<T>, before: T)
    requires Bounded(h)
    ensures Bounded(Commit(h, before)) && Bounded(Back(h)) && Bounded(Forward(h))
  {
  }

  lemma BackKeepsLine<T>(h: History<T>)
    ensures Line(Back(h)) == Line(h)
  {
    assert |Line(Back(h))| == |Line(h)|;
    assert forall i :: 0 <= i < |Line(h)| ==> Line(Back(h))[i] == Line(h)[i];
  }

  lemma ForwardKeepsLine<T>(h: History<T>)
    ensures Line(Forward(h)) == Line(h)
  {
    assert |Line(Forward(h))| == |Line(h)|;
    assert forall i :: 0 <= i < |Line(h)| ==> Line(Forward(h))[i] == Line(h)[i];
  }

  lemma ThereAndBack<T>(h: History<T>)
    ensures h.past != [] ==> Back(h).future != [] && Forward(Back(h)).present == h.present
    ensures h.future != [] ==> Forward(h).past != [] && Back(Forward(h)).present == h.present
  {
  }

  /** What stands `j` places down from `top`, which lies on the stack. */
  function PlacesBack<T>(stack: seq<T>, top: T, j: nat): T
    requires j <= |stack|
  {
    if j == 0 then top else stack[|stack| - j]
  }

  /** `j` steps back land on the `j`-th snapshot from the top, on the same line. */
  lemma {:induction false} BacksReachSnapshot<T>(h: History<T>, j: nat)
    requires j <= |h.past|
    ensures var n := Backs(h, j);
            && n.present == PlacesBack(h.past, h.present, j)
            && n.past == h.past[..|h.past| - j]
            && Line(n) == Line(h)
    decreases j
  {
    if j > 0 {
      BackKeepsLine(h);
      BacksReachSnapshot(Back(h), j - 1);
    }
  }

  lemma {:induction false} ForwardsReachSnapshot<T>(h: History<T>, j: nat)
    requires j <= |h.future|
    ensures var n := Forwards(h, j);
            && n.present == PlacesBack(h.future, h.present, j)
            && n.future == h.future[..|h.future| - j]
            && Line(n) == Line(h)
    decreases j
  {
    if j > 0 {
      ForwardKeepsLine(h);
      ForwardsReachSnapshot(Forward(h), j - 1);
    }
  }

  lemma {:induction false} ForwardsCompose<T>(h: History<T>, j: nat)
    ensures Forwards(h, j + 1) == Forward(Forwards(h, j))
    decreases j
  {
    if j > 0 { ForwardsCompose(Forward(h), j - 1); }
  }

  /** Redoing as often as one has undone restores both stacks and the drawing. */
  lemma {:induction false} ForwardsInvertBacks<T>(h: History<T>, j: nat)
    requires j <= |h.past|
    ensures Forwards(Backs(h, j), j) == h
    decreases j
  {
    if j > 0 {
      ForwardsInvertBacks(Back(h), j - 1);
      ForwardsCompose(Backs(Back(h), j - 1), j - 1);
      assert h.past[..|h.past| - 1] + [h.past[|h.past| - 1]] == h.past;
    }
  }

  /** After any sequence of recordings the undo stack is exactly the last `limit` replaced drawings. */
  lemma {:induction false} PastIsReplacedDrawings<T>(h: History<T>, drawings: seq<T>)
    requires Bounded(h)
    ensures var n := RecordAll(h, drawings);
            && Bounded(n) && n.limit == h.limit
            && n.past == LastN(h.past + Replaced(h.present, drawings), h.limit)
            && n.future == (if Replaced(h.present, drawings) == [] then h.future else [])
            && n.present == (if drawings == [] then h.present else drawings[|drawings| - 1])
    decreases |drawings|
  {
    if drawings == [] {
      assert h.past + [] == h.past;
    } else {
      RecordKeepsLast(h, drawings[0]);
      PastIsReplacedDrawings(Record(h, drawings[0]), drawings[1..]);
      PrependReplaced(h.past, h.present, Replaced(drawings[0], drawings[1..]), h.limit);
    }
  }

  lemma RecordKeepsLast<T>(h: History<T>, next: T)
    requires Bounded(h)
    ensures var n := Record(h, next);
            && Bounded(n) && n.limit == h.limit && n.present == next
            && (next == h.present ==> n == h)
            && (next != h.present ==> n.past == LastN(h.past + [h.present], h.limit) && n.future == [])
  {
  }

  lemma PrependReplaced<T>(past: seq<T>, present: T, rest: seq<T>, limit: nat)
    ensures LastN(LastN(past + [present], limit) + rest, limit) == LastN(past + ([present] + rest), limit)
    ensures [] + rest == rest
  {
    LastNOfLastN(past + [present], rest, limit);
    assert past + [present] + rest == past + ([present] + rest);
  }

  lemma {:induction false} ReplacedStartsAtPresent<T>(present: T, drawings: seq<T>)
    ensures Replaced(present, drawings) != [] ==> Replaced(present, drawings)[0] == present
    decreases |drawings|
  {
    if drawings != [] && drawings[0] == present { ReplacedStartsAtPresent(drawings[0], drawings[1..]); }
  }

  /**
   * Stepping back over `j` changes, no more than the limit, shows the drawing the `j`-th last change replaced; over
   * all of them, the drawing the run started from.
   */
  lemma BacksReturnToStart<T>(h: History<T>, drawings: seq<T>, j: nat)
    requires Bounded(h) && j <= |Replaced(h.present, drawings)| && j <= h.limit
    ensures var replaced, n := Replaced(h.present, drawings), RecordAll(h, drawings);
            && j <= |n.past|
            && Backs(n, j).present == PlacesBack(replaced, n.present, j)
            && (j == |replaced| && j > 0 ==> Backs(n, j).present == h.present)
            && (replaced == [] ==> n == h)
  {
    var replaced, n := Replaced(h.present, drawings), RecordAll(h, drawings);
    PastIsReplacedDrawings(h, drawings);
    ReplacedStartsAtPresent(h.present, drawings);
    BacksShowKept(n, h.past, replaced, j);
    if replaced == [] { NothingReplaced(h, drawings); }
  }

  lemma BacksShow<T>(h: History<T>, j: nat)
    requires j <= |h.past|
    ensures Backs(h, j).present == PlacesBack(h.past, h.present, j)
  {
    BacksReachSnapshot(h, j);
  }

  /** Trimming the bottom of a stack does not move what is counted from its top. */
  lemma FromTheTop<T>(bottom: seq<T>, top: seq<T>, present: T, limit: nat, j: nat)
    requires j <= |top| && j <= limit
    ensures var kept := LastN(bottom + top, limit);
            j <= |kept| && PlacesBack(kept, present, j) == PlacesBack(top, present, j)
  {
    var kept := LastN(bottom + top, limit);
    if j > 0 { LastNFromEnd(bottom + top, limit, j); }
  }

  lemma {:induction false} NothingReplaced<T>(h: History<T>, drawings: seq<T>)
    requires Replaced(h.present, drawings) == []
    ensures RecordAll(h, drawings) == h
    decreases |drawings|
  {
    if drawings != [] { NothingReplaced(h, drawings[1..]); }
  }

  // ----- runs in which the kept snapshot need not be the drawing replaced -----

  function Pushed<T(==)>(h: History<T>, before: T): seq<T> {
    if before == h.present then [] else [before]
  }

  lemma CommitTrims<T>(h: History<T>, before: T)
    requires Bounded(h)
    ensures var n := Commit(h, before);
            && Bounded(n) && n.limit == h.limit && n.present == h.present
            && n.past == LastN(h.past + Pushed(h, before), h.limit)
  {
  }

  lemma TrimTwice<T>(past: seq<T>, first: seq<T>, rest: seq<T>, limit: nat)
    ensures LastN(LastN(past + first, limit) + rest, limit) == LastN(past + (first + rest), limit)
  {
    LastNOfLastN(past + first, rest, limit);
    assert past + first + rest == past + (first + rest);
  }

  /** Whatever the undo stack held before, stepping back over `j` kept snapshots shows the `j`-th last of them. */
  lemma BacksShowKept<T>(h: History<T>, past: seq<T>, kept: seq<T>, j: nat)
    requires h.past == LastN(past + kept, h.limit) && j <= |kept| && j <= h.limit
    ensures j <= |h.past| && Backs(h, j).present == PlacesBack(kept, h.present, j)
  {
    FromTheTop(past, kept, h.present, h.limit, j);
    BacksShow(h, j);
  }

  predicate AllEqual<T(==)>(s: seq<T>, x: T) {
    forall i :: 0 <= i < |s| ==> s[i] == x
  }

  /**
   * Committing with one snapshot is committing with another: they are equal, or the stack is full of nothing but the
   * one that is pushed while the other is the drawing itself.
   */
  predicate Interchangeable<T(==)>(h: History<T>, x: T, y: T) {
    || x == y
    || (|h.past| == h.limit && ((x == h.present && AllEqual(h.past, y)) || (y == h.present && AllEqual(h.past, x))))
  }

  lemma CommitsAgreeIff<T>(h: History<T>, x: T, y: T)
    requires Bounded(h)
    ensures Commit(h, x) == Commit(h, y) <==> Interchangeable(h, x, y)
  {
    if x != y {
      if x == h.present { PushChangesNothingIff(h, y); }
      else if y == h.present { PushChangesNothingIff(h, x); }
      else { TopOfCommit(h, x); TopOfCommit(h, y); }
    }
  }

  lemma TopOfCommit<T>(h: History<T>, x: T)
    requires Bounded(h) && x != h.present
    ensures Commit(h, x).past != [] && Commit(h, x).past[|Commit(h, x).past| - 1] == x
  {
  }

  lemma PushChangesNothingIff<T>(h: History<T>, x: T)
    requires Bounded(h) && x != h.present
    ensures Commit(h, x) == h <==> |h.past| == h.limit && AllEqual(h.past, x)
  {
    if |h.past| == h.limit {
      assert h.future == [] && Commit(h, x).past == (h.past + [x])[1..];
      assert AllEqual(h.past, x) ==> (h.past + [x])[1..] == h.past;
      if Commit(h, x) == h {
        forall i | 0 <= i < |h.past| ensures h.past[i] == x { ShiftedIsConstant(h.past, x, i); }
      }
    }
  }

  lemma {:induction false} ShiftedIsConstant<T>(s: seq<T>, x: T, i: nat)
    requires i < |s| && s == (s + [x])[1..]
    ensures s[i] == x
    decreases |s| - i
  {
    assert s[i] == (s + [x])[i + 1];
    if i + 1 < |s| { ShiftedIsConstant(s, x, i + 1); }
  }

  /** `x` and `y` in turn, with `y` last. */
  predicate Alternating<T(==)>(s: seq<T>, x: T, y: T) {
    forall i :: 0 <= i < |s| ==> s[i] == if (|s| - i) % 2 == 1 then y else x
  }

  /**
   * When an edit and a later commit of `before`, with `last` shown then, leave one undo step: the commit had nothing
   * to add and the edit something to keep, or a full stack hides what was pushed.
   */
  predicate SecondCommitHides<T(==)>(h: History<T>, last: T, before: T) {
    if before == last then last != h.present || (|h.past| == h.limit && AllEqual(h.past, h.present))
    else if last != h.present then
      var past := LastN(h.past + [h.present], h.limit);
      |past| == h.limit && AllEqual(past, before)
    else |h.past| == h.limit && Alternating(h.past, h.present, before)
  }

  lemma EditThenCommitIsRecordIff<T>(h: History<T>, edited: T, last: T, before: T)
    requires Bounded(h) && edited != h.present
    ensures Commit(Record(h, edited).(present := last), before) == Record(h, last)
       <==> SecondCommitHides(h, last, before)
  {
    var once := Record(h, edited).(present := last);
    RecordKeepsLast(h, edited);
    RecordKeepsLast(h, last);
    if before == last {
      if last == h.present { PushChangesNothingIff(h.(present := edited), h.present); }
    } else if last != h.present {
      PushChangesNothingIff(once, before);
    } else {
      TwoPushesChangeNothingIff(h.past, h.present, before, h.limit);
    }
  }

  lemma TwoPushesChangeNothingIff<T>(past: seq<T>, x: T, y: T, limit: nat)
    requires |past| <= limit && limit > 0
    ensures LastN(LastN(past + [x], limit) + [y], limit) == past <==> |past| == limit && Alternating(past, x, y)
  {
    TrimTwice(past, [x], [y], limit);
    assert [x] + [y] == [x, y];
    LastNIsSuffix(past + [x, y], limit);
    if |past| == limit { ShiftedByTwoIff(past, x, y); }
  }

  lemma ShiftedByTwoIff<T>(s: seq<T>, x: T, y: T)
    ensures (s + [x, y])[2..] == s <==> Alternating(s, x, y)
  {
    var t := s + [x, y];
    if t[2..] == s {
      forall i | 0 <= i < |s| ensures s[i] == if (|s| - i) % 2 == 1 then y else x { ShiftedAlternates(s, x, y, i); }
    }
    if Alternating(s, x, y) {
      forall i | 0 <= i < |s| ensures t[2..][i] == s[i] { assert t[2..][i] == t[i + 2]; }
    }
  }

  lemma {:induction false} ShiftedAlternates<T>(s: seq<T>, x: T, y: T, i: nat)
    requires i < |s| && (s + [x, y])[2..] == s
    ensures s[i] == if (|s| - i) % 2 == 1 then y else x
    decreases |s| - i
  {
    assert (s + [x, y])[2..][i] == (s + [x, y])[i + 2];
    if i + 2 < |s| { ShiftedAlternates(s, x, y, i + 2); }
  }
}
