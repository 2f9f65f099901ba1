/** Sequences with gaps: which filled places are neighbours, and when filling or emptying one keeps them different. */
module Neighbours {
  import opened Wrappers

  /** Two filled places with only gaps between them. */
  predicate NextTo<T>(s: seq<Option<T>>, a: nat, b: nat) {
    a < b < |s| && s[a].Some? && s[b].Some? && forall c :: a < c < b ==> s[c].None?
  }

  ghost predicate NeighboursDiffer<T>(s: seq<Option<T>>) {
    forall a: nat, b: nat :: NextTo(s, a, b) ==> s[a] != s[b]
  }

  /** What stands nearest below position `i`, if anything does. */
  function Below<T>(s: seq<Option<T>>, i: nat): Option<T>
    requires i <= |s|
  {
    if i == 0 then None else if s[i - 1].Some? then s[i - 1] else Below(s, i - 1)
  }

  /** What stands nearest above position `i`, if anything does. */
  function Above<T>(s: seq<Option<T>>, i: nat): Option<T>
    requires i < |s|
    decreases |s| - i
  {
    if i + 1 == |s| then None else if s[i + 1].Some? then s[i + 1] else Above(s, i + 1)
  }

  /** Two things that are both there differ. */
  predicate DifferIfBoth<T(==)>(x: Option<T>, y: Option<T>) {
    x.Some? && y.Some? ==> x != y
  }

  lemma {:induction false} BelowIs<T>(s: seq<Option<T>>, i: nat) returns (a: nat)
    requires i <= |s| && Below(s, i).Some?
    ensures a < i && s[a] == Below(s, i) && forall c :: a < c < i ==> s[c].None?
    decreases i
  {
    if s[i - 1].Some? { a := i - 1; } else { a := BelowIs(s, i - 1); }
  }

  lemma {:induction false} AboveIs<T>(s: seq<Option<T>>, i: nat) returns (b: nat)
    requires i < |s| && Above(s, i).Some?
    ensures i < b < |s| && s[b] == Above(s, i) && forall c :: i < c < b ==> s[c].None?
    decreases |s| - i
  {
    if s[i + 1].Some? { b := i + 1; } else { b := AboveIs(s, i + 1); }
  }

  lemma {:induction false} NearestBelow<T>(s: seq<Option<T>>, i: nat, a: nat)
    requires a < i <= |s| && s[a].Some? && forall c :: a < c < i ==> s[c].None?
    ensures Below(s, i) == s[a]
    decreases i
  {
    if a < i - 1 { NearestBelow(s, i - 1, a); }
  }

  lemma {:induction false} NearestAbove<T>(s: seq<Option<T>>, i: nat, b: nat)
    requires i < b < |s| && s[b].Some? && forall c :: i < c < b ==> s[c].None?
    ensures Above(s, i) == s[b]
    decreases |s| - i
  {
    if i + 1 < b { NearestAbove(s, i + 1, b); }
  }

  /** Emptying a place keeps neighbours different exactly when the two around it differ. */
  lemma EmptyingKeepsDifferentIff<T>(s: seq<Option<T>>, i: nat)
    requires i < |s| && NeighboursDiffer(s) && s[i].Some?
    ensures NeighboursDiffer(s[i := None]) <==> DifferIfBoth(Below(s, i), Above(s, i))
  {
    var t := s[i := None];
    if Below(s, i).Some? && Above(s, i).Some? {
      var a := BelowIs(s, i);
      var b := AboveIs(s, i);
      assert NextTo(t, a, b);
    }
    if DifferIfBoth(Below(s, i), Above(s, i)) {
      forall a: nat, b: nat | NextTo(t, a, b) ensures t[a] != t[b] {
        NextToAfterEmptying(s, i, a, b);
      }
    }
  }

  lemma NextToAfterEmptying<T>(s: seq<Option<T>>, i: nat, a: nat, b: nat)
    requires i < |s| && NextTo(s[i := None], a, b)
    ensures a != i && b != i
    ensures if a < i < b then Below(s, i) == s[a] && Above(s, i) == s[b] else NextTo(s, a, b)
  {
    var t := s[i := None];
    assert forall c :: 0 <= c < |s| && c != i ==> t[c] == s[c];
    if a < i < b {
      NearestBelow(s, i, a);
      NearestAbove(s, i, b);
    }
  }

  /** Filling a gap keeps neighbours different exactly when what is put there differs from both around it. */
  lemma FillingKeepsDifferentIff<T>(s: seq<Option<T>>, i: nat, x: T)
    requires i < |s| && NeighboursDiffer(s) && s[i].None?
    ensures NeighboursDiffer(s[i := Some(x)]) <==>
              DifferIfBoth(Below(s, i), Some(x)) && DifferIfBoth(Some(x), Above(s, i))
  {
    var t := s[i := Some(x)];
    if Below(s, i).Some? {
      var a := BelowIs(s, i);
      assert NextTo(t, a, i);
    }
    if Above(s, i).Some? {
      var b := AboveIs(s, i);
      assert NextTo(t, i, b);
    }
    if DifferIfBoth(Below(s, i), Some(x)) && DifferIfBoth(Some(x), Above(s, i)) {
      forall a: nat, b: nat | NextTo(t, a, b) ensures t[a] != t[b] {
        NextToAfterFilling(s, i, x, a, b);
      }
    }
  }

  lemma NextToAfterFilling<T>(s: seq<Option<T>>, i: nat, x: T, a: nat, b: nat)
    requires i < |s| && NextTo(s[i := Some(x)], a, b)
    ensures if b == i then Below(s, i) == s[a] else if a == i then Above(s, i) == s[b] else NextTo(s, a, b)
  {
    var t := s[i := Some(x)];
    assert forall c :: 0 <= c < |s| && c != i ==> t[c] == s[c];
    if b == i {
      NearestBelow(s, i, a);
    } else if a == i {
      NearestAbove(s, i, b);
    } else {
      assert t[i].Some?;
    }
  }

  /** Appending keeps neighbours different exactly when what is appended differs from the last one there. */
  lemma AppendingKeepsDifferentIff<T>(s: seq<Option<T>>, x: T)
    requires NeighboursDiffer(s)
    ensures NeighboursDiffer(s + [Some(x)]) <==> DifferIfBoth(Below(s, |s|), Some(x))
  {
    var t := s + [Some(x)];
    if Below(s, |s|).Some? {
      var a := BelowIs(s, |s|);
      assert NextTo(t, a, |s|);
    }
    if DifferIfBoth(Below(s, |s|), Some(x)) {
      forall a: nat, b: nat | NextTo(t, a, b) ensures t[a] != t[b] {
        assert forall c :: 0 <= c < |s| ==> t[c] == s[c];
        if b == |s| { NearestBelow(s, |s|, a); } else { assert NextTo(s, a, b); }
      }
    }
  }
}
