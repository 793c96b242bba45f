/** A persistent singly-linked list: each cell caches the length of the list
    it starts, and a new cell shares the list it is put in front of. */
module PersistentList {

  /** `Empty` is the zero-valued list NewList returns (depth 0); a `Cell`
      holds a value, the list after it, and the cached depth. */
  datatype List<V> = Empty | Cell(depth: nat, value: V, tail: List<V>)

  /*** Abstract view and invariant ***/

  /** Every cell's depth is one more than its tail's. */
  ghost predicate Valid<V>(l: List<V>)
  {
    match l
    case Empty => true
    case Cell(d, _, t) => d == 1 + Size(t) && Valid(t)
  }

  /** A sequence in the opposite order. */
  function Reversed<V>(s: seq<V>): (r: seq<V>)
    ensures |r| == |s|
  {
    if s == [] then [] else [s[|s| - 1]] + Reversed(s[..|s| - 1])
  }

  lemma {:induction false} ReversedAt<V>(s: seq<V>, k: nat)
    requires k < |s|
    ensures Reversed(s)[k] == s[|s| - 1 - k]
  {
    if k > 0 {
      ReversedAt(s[..|s| - 1], k - 1);
    }
  }

  /** Reversing twice gives back the original sequence. */
  lemma ReversedTwice<V>(s: seq<V>)
    ensures Reversed(Reversed(s)) == s
  {
    forall k | 0 <= k < |s| ensures Reversed(Reversed(s))[k] == s[k] {
      ReversedAt(Reversed(s), k);
      ReversedAt(s, |s| - 1 - k);
    }
  }

  /*** Operations ***/

  function NewList<V>(): (l: List<V>)
    ensures Valid(l) && IsNil(l) && Size(l) == 0 && ForEach(l) == []
  {
    Empty
  }

  /** A list is empty exactly when its cached depth is 0. */
  predicate IsNil<V>(l: List<V>)
  {
    Size(l) == 0
  }

  /** The cached depth; 0 for the empty list. */
  function Size<V>(l: List<V>): nat
  {
    match l
    case Empty => 0
    case Cell(d, _, _) => d
  }

  /** Puts a value in front of a list, sharing the list as the new tail. */
  function Cons<V>(tail: List<V>, value: V): (l: List<V>)
    ensures !IsNil(l) && Head(l) == value && Tail(l) == tail
    ensures Size(l) == Size(tail) + 1
    ensures Valid(tail) ==> Valid(l)
    ensures ForEach(l) == [value] + ForEach(tail)
  {
    Cell(Size(tail) + 1, value, tail)
  }

  /** The first value; calling it on an empty list is a panic. */
  function Head<V>(l: List<V>): V
    requires !IsNil(l)
  {
    l.value
  }

  /** The list after the first value; calling it on an empty list is a panic. */
  function Tail<V>(l: List<V>): List<V>
    requires !IsNil(l)
  {
    l.tail
  }

  /** The values ForEach hands to its callback, in call order: head to tail. */
  function ForEach<V>(l: List<V>): seq<V>
  {
    if IsNil(l) then [] else [Head(l)] + ForEach(Tail(l))
  }

  /** On a valid list ForEach visits Size() values, and the list is empty
      exactly when it is the empty list and visits nothing. */
  lemma {:induction false} SizeIsLength<V>(l: List<V>)
    requires Valid(l)
    ensures |ForEach(l)| == Size(l)
    ensures IsNil(l) <==> l.Empty? && ForEach(l) == []
  {
    match l
    case Empty =>
    case Cell(_, _, t) =>
      SizeIsLength(t);
  }

  /** Reverse folds Cons over the values ForEach visits, starting from a new list. */
  method Reverse<V>(l: List<V>) returns (reversed: List<V>)
    ensures Valid(reversed)
    ensures ForEach(reversed) == Reversed(ForEach(l))
    ensures Valid(l) ==> Size(reversed) == Size(l)
  {
    var visits := ForEach(l);
    reversed := NewList();
    var i := 0;
    while i < |visits|
      invariant 0 <= i <= |visits|
      invariant Valid(reversed)
      invariant ForEach(reversed) == Reversed(visits[..i])
    {
      assert visits[..i + 1][..i] == visits[..i];
      reversed := Cons(reversed, visits[i]);
      i := i + 1;
    }
    assert visits[..i] == visits;
    SizeIsLength(reversed);
    if Valid(l) {
      SizeIsLength(l);
    }
  }

  /** Cons 3, then 2, then 1 onto a new list: head 1, then 2, three values
      in all, visited 1, 2, 3 and reversed 3, 2, 1. */
  lemma ConsScenario()
    ensures var l1 := Cons(Cons(Cons(NewList(), 3), 2), 1);
            && Head(l1) == 1 && Head(Tail(l1)) == 2 && Size(l1) == 3
            && ForEach(l1) == [1, 2, 3] && Reversed(ForEach(l1)) == [3, 2, 1]
  {
    var l1 := Cons(Cons(Cons(NewList(), 3), 2), 1);
    assert ForEach(l1) == [1, 2, 3];
    assert Reversed([1, 2, 3]) == [3] + Reversed([1, 2]);
    assert Reversed([1, 2]) == [2] + Reversed([1]);
  }
}
