/** Sequence operations the column layer is built from: removing one element,
    inserting one, relocating one (the `array-move` library), and the
    subsequence relation. */
module Sequences {

  /** `s` with the element at position `i` taken out. */
  function Without<T>(s: seq<T>, i: nat): (r: seq<T>)
    requires i < |s|
    ensures |r| == |s| - 1
    ensures forall k :: 0 <= k < |r| ==> r[k] == (if k < i then s[k] else s[k + 1])
    ensures multiset(r) + multiset{s[i]} == multiset(s)
  {
    assert s == s[..i] + [s[i]] + s[i + 1..];
    s[..i] + s[i + 1..]
  }

  /** `s` with `x` put in so that it sits at position `i`. */
  function Insert<T>(s: seq<T>, i: nat, x: T): (r: seq<T>)
    requires i <= |s|
    ensures |r| == |s| + 1
    ensures r[i] == x
    ensures forall k :: 0 <= k < |r| && k != i ==> r[k] == (if k < i then s[k] else s[k - 1])
    ensures multiset(r) == multiset(s) + multiset{x}
  {
    assert s == s[..i] + s[i..];
    s[..i] + [x] + s[i..]
  }

  /** Index arithmetic of a relocation, stated independently of slicing:
      after moving the element at `from` so that it ends at `to`, position
      `k` of the result holds what position `MovedFrom(from, to, k)` held
      before. */
  function MovedFrom(from: nat, to: nat, k: nat): nat
  {
    if k == to then from
    else if from <= to then (if from <= k < to then k + 1 else k)
    else (if to < k <= from then k - 1 else k)
  }

  /** The `array-move` operation: remove the element at `from` and reinsert
      it so that its index in the result is `to`. */
  function Move<T>(s: seq<T>, from: nat, to: nat): (r: seq<T>)
    requires from < |s| && to < |s|
    ensures |r| == |s|
    ensures r[to] == s[from]
    ensures multiset(r) == multiset(s)
  {
    Insert(Without(s, from), to, s[from])
  }

  /** The slicing definition of `Move` agrees, position by position, with
      the index map `MovedFrom`. */
  lemma MoveMatchesIndexMap<T>(s: seq<T>, from: nat, to: nat)
    requires from < |s| && to < |s|
    ensures forall k :: 0 <= k < |s| ==> MovedFrom(from, to, k) < |s| && Move(s, from, to)[k] == s[MovedFrom(from, to, k)]
  {
    var w := Without(s, from);
    var r := Move(s, from, to);
    forall k | 0 <= k < |s|
      ensures MovedFrom(from, to, k) < |s| && r[k] == s[MovedFrom(from, to, k)]
    {
      if k != to {
        var j := if k < to then k else k - 1;
        assert r[k] == w[j];
      }
    }
  }

  /** Distinct result positions take their element from distinct source positions. */
  lemma MovedFromInjective(from: nat, to: nat, n: nat, i: nat, j: nat)
    requires from < n && to < n && i < n && j < n && i != j
    ensures MovedFrom(from, to, i) != MovedFrom(from, to, j)
    ensures MovedFrom(from, to, i) < n
  {
  }

  /** Inserting back what was taken out restores the sequence. */
  lemma {:induction false} InsertWithout<T>(s: seq<T>, i: nat)
    requires i < |s|
    ensures Insert(Without(s, i), i, s[i]) == s
  {
    var r := Insert(Without(s, i), i, s[i]);
    forall k | 0 <= k < |s|
      ensures r[k] == s[k]
    {
    }
  }

  /** Taking out what was just inserted restores the sequence. */
  lemma {:induction false} WithoutInsert<T>(s: seq<T>, i: nat, x: T)
    requires i <= |s|
    ensures Without(Insert(s, i, x), i) == s
  {
    var r := Without(Insert(s, i, x), i);
    forall k | 0 <= k < |s|
      ensures r[k] == s[k]
    {
    }
  }

  /** A move changes the position of the moved element only: every other
      element keeps its relative order. */
  lemma MoveKeepsOthersInOrder<T>(s: seq<T>, from: nat, to: nat)
    requires from < |s| && to < |s|
    ensures Without(Move(s, from, to), to) == Without(s, from)
  {
    WithoutInsert(Without(s, from), to, s[from]);
  }

  /** Moving the element back from `to` to `from` undoes the move. */
  lemma MoveUndo<T>(s: seq<T>, from: nat, to: nat)
    requires from < |s| && to < |s|
    ensures Move(Move(s, from, to), to, from) == s
  {
    var r := Move(s, from, to);
    MoveKeepsOthersInOrder(s, from, to);
    InsertWithout(s, from);
  }

  /** `a` is `b` with some elements left out, the rest in their order in `b`. */
  predicate IsSubsequence<T(==)>(a: seq<T>, b: seq<T>)
    decreases |b|
  {
    |a| == 0 || (|b| > 0 && ((a[0] == b[0] && IsSubsequence(a[1..], b[1..])) || IsSubsequence(a, b[1..])))
  }

  lemma {:induction false} SubsequenceReflexive<T>(s: seq<T>)
    ensures IsSubsequence(s, s)
    decreases |s|
  {
    if |s| > 0 {
      SubsequenceReflexive(s[1..]);
    }
  }

  /** A subsequence never holds an element more often than the sequence it is taken from. */
  lemma {:induction false} SubsequenceMultiset<T>(a: seq<T>, b: seq<T>)
    requires IsSubsequence(a, b)
    ensures multiset(a) <= multiset(b)
    decreases |b|
  {
    if |a| == 0 {
    } else {
      assert b == [b[0]] + b[1..];
      if a[0] == b[0] && IsSubsequence(a[1..], b[1..]) {
        SubsequenceMultiset(a[1..], b[1..]);
        assert a == [a[0]] + a[1..];
      } else {
        SubsequenceMultiset(a, b[1..]);
      }
    }
  }

  /** The empty sequence is the only subsequence of the empty sequence. */
  lemma SubsequenceOfEmpty<T>(a: seq<T>)
    requires IsSubsequence(a, [])
    ensures a == []
  {
  }
}
