/** Small facts about sequences used across the model. */
module Sequences {
  /** No element occurs twice. */
  predicate Distinct<T(==)>(s: seq<T>) {
    forall i, j :: 0 <= i < j < |s| ==> s[i] != s[j]
  }

  function Reverse<T>(s: seq<T>): (r: seq<T>)
    ensures |r| == |s|
    ensures forall i :: 0 <= i < |s| ==> r[i] == s[|s| - 1 - i]
  {
    seq(|s|, i requires 0 <= i < |s| => s[|s| - 1 - i])
  }

  lemma ReverseOfAppend<T>(s: seq<T>, t: seq<T>)
    ensures Reverse(s + t) == Reverse(t) + Reverse(s)
  {
  }

  /** The last `n` elements, or all of them when there are fewer: what stays after dropping from the front. */
  function LastN<T>(s: seq<T>, n: nat): seq<T>
    decreases |s|
  {
    if |s| <= n then s else LastN(s[1..], n)
  }

  /** The first `n` elements, or all of them when there are fewer. */
  function FirstN<T>(s: seq<T>, n: nat): seq<T> {
    if |s| <= n then s else s[..n]
  }

  lemma {:induction false} LastNIsSuffix<T>(s: seq<T>, n: nat)
    ensures LastN(s, n) == if |s| <= n then s else s[|s| - n..]
    decreases |s|
  {
    if |s| > n {
      LastNIsSuffix(s[1..], n);
      assert |s| - 1 > n ==> s[1..][|s| - 1 - n..] == s[|s| - n..];
    }
  }

  lemma {:induction false} LastNOfLastN<T>(s: seq<T>, t: seq<T>, n: nat)
    ensures LastN(LastN(s, n) + t, n) == LastN(s + t, n)
    decreases |s|
  {
    if |s| > n {
      LastNOfLastN(s[1..], t, n);
      assert (s + t)[1..] == s[1..] + t;
    }
  }

  /** Counting from the end, trimming the front changes nothing. */
  lemma LastNFromEnd<T>(s: seq<T>, n: nat, j: nat)
    requires 0 < j <= |s| && j <= n
    ensures j <= |LastN(s, n)| && LastN(s, n)[|LastN(s, n)| - j] == s[|s| - j]
  {
    LastNIsSuffix(s, n);
  }

  /** At most `limit` elements from `offset` on. */
  function Slice<T>(s: seq<T>, limit: nat, offset: nat): seq<T> {
    FirstN(if offset > |s| then [] else s[offset..], limit)
  }

  lemma SliceAt<T>(s: seq<T>, limit: nat, offset: nat, i: nat)
    requires i < |Slice(s, limit, offset)|
    ensures offset + i < |s| && i < limit && Slice(s, limit, offset)[i] == s[offset + i]
  {
  }

  lemma FirstThenSlice<T>(s: seq<T>, limit: nat, offset: nat)
    ensures FirstN(s, offset) + Slice(s, limit, offset) == FirstN(s, offset + limit)
  {
  }

  /** One element more in front moves every slice by one, so the slice after a full one starts with its last element. */
  lemma SliceAfterPush<T>(x: T, s: seq<T>, limit: nat, offset: nat)
    ensures Slice([x] + s, limit, offset + 1) == Slice(s, limit, offset)
    ensures 0 < limit == |Slice(s, limit, offset)| ==>
              Slice([x] + s, limit, offset + limit) != []
              && Slice([x] + s, limit, offset + limit)[0] == Slice(s, limit, offset)[limit - 1]
  {
    if offset <= |s| { assert ([x] + s)[offset + 1..] == s[offset..]; }
    if 0 < limit == |Slice(s, limit, offset)| {
      SliceAt(s, limit, offset, limit - 1);
      assert ([x] + s)[offset + limit..][0] == s[offset + limit - 1];
    }
  }

  /** One element less before the offset moves every slice the other way. */
  lemma SliceAfterRemoval<T>(s: seq<T>, k: nat, limit: nat, offset: nat)
    requires k < |s| && k < offset
    ensures Slice(s[..k] + s[k + 1..], limit, offset) == Slice(s, limit, offset + 1)
  {
    var t := s[..k] + s[k + 1..];
    if offset <= |t| { assert t[offset..] == s[offset + 1..]; }
  }
}
