/** A persistent associative array from string keys to values of any type,
    implemented as a path-copying binary search tree that is ordered by a
    64-bit hash of each key (never by the key itself) and never rebalanced.

    Every operation is a function of its inputs: a map value, once built, is
    never changed, and the new map shares every untouched subtree with the old
    one. The hash function is a parameter `H` of the operations that take a
    key; it is deterministic because every Dafny function is. */
module PersistentMap {

  /** A uint64 hash code; unsigned comparison is comparison of these integers. */
  type Hash = h: int | 0 <= h < 0x1_0000_0000_0000_0000

  /** The (value, found) pair that Lookup returns: None stands for (nil, false). */
  datatype Option<V> = None | Some(value: V)

  /** A tree node. `Empty` stands for the one shared empty map, whose count is 0
      and whose children are itself; every node built from it therefore has
      children that are never missing. */
  datatype Tree<V> =
    | Empty
    | Node(count: nat, hash: Hash, key: string, value: V, left: Tree<V>, right: Tree<V>)

  /*** Abstract view and invariants ***/

  /** The bindings a tree stores: each node's hash to its (key, value) pair. */
  ghost function Contents<V>(t: Tree<V>): map<Hash, (string, V)>
  {
    match t
    case Empty => map[]
    case Node(_, h, k, v, l, r) => (Contents(l) + Contents(r))[h := (k, v)]
  }

  /** Strict search-tree order by hash: everything left is smaller, everything right larger. */
  ghost predicate Ordered<V>(t: Tree<V>)
  {
    match t
    case Empty => true
    case Node(_, h, _, _, l, r) =>
      && Ordered(l)
      && Ordered(r)
      && (forall x :: x in Contents(l) ==> x < h)
      && (forall x :: x in Contents(r) ==> h < x)
  }

  /** Every node's cached count is one more than the counts of its two subtrees. */
  ghost predicate Counted<V>(t: Tree<V>)
    ensures Counted(t) && t.Node? ==> t.count >= 1
  {
    match t
    case Empty => true
    case Node(c, _, _, _, l, r) => c == 1 + Size(l) + Size(r) && Counted(l) && Counted(r)
  }

  /** The invariant every map built by NewMap, Set and Delete satisfies. */
  ghost predicate Valid<V>(t: Tree<V>)
  {
    Ordered(t) && Counted(t)
  }

  /** Every stored hash is the hash of the key stored beside it. */
  ghost predicate WellHashed<V>(t: Tree<V>, H: string -> Hash)
  {
    forall x :: x in Contents(t) ==> H(Contents(t)[x].0) == x
  }

  ghost predicate IsMaximum(x: Hash, s: set<Hash>)
  {
    x in s && forall y :: y in s ==> y <= x
  }

  ghost predicate IsMinimum(x: Hash, s: set<Hash>)
  {
    x in s && forall y :: y in s ==> x <= y
  }

  /*** Node queries ***/

  function NewMap<V>(): (m: Tree<V>)
    ensures Valid(m) && IsNil(m) && Size(m) == 0 && Contents(m) == map[]
  {
    Empty
  }

  /** True only of the shared empty map. */
  predicate IsNil<V>(t: Tree<V>)
  {
    t.Empty?
  }

  /** The cached count, with no traversal; 0 for the empty map. */
  function Size<V>(t: Tree<V>): nat
  {
    match t
    case Empty => 0
    case Node(c, _, _, _, _, _) => c
  }

  /** Whether a tree has a left (right) subtree; the empty map's children are
      the empty map itself, so it has neither. */
  predicate HasLeft<V>(t: Tree<V>)
  {
    match t
    case Empty => false
    case Node(_, _, _, _, l, _) => !IsNil(l)
  }

  predicate HasRight<V>(t: Tree<V>)
  {
    match t
    case Empty => false
    case Node(_, _, _, _, _, r) => !IsNil(r)
  }

  /** A leaf is recognised by its cached count alone; on a counted tree this
      is exactly a node with no subtrees. */
  function IsLeaf<V>(t: Tree<V>): (leaf: bool)
    ensures Counted(t) ==> (leaf <==> t.Node? && !HasLeft(t) && !HasRight(t))
  {
    Size(t) == 1
  }

  /** The number of subtrees a tree has. */
  function SubtreeCount<V>(t: Tree<V>): (n: nat)
    ensures n <= 2
    ensures n == 0 <==> !HasLeft(t) && !HasRight(t)
    ensures n == 2 <==> HasLeft(t) && HasRight(t)
  {
    (if HasLeft(t) then 1 else 0) + (if HasRight(t) then 1 else 0)
  }

  /** Resets a freshly cloned node's count from its subtrees' counts. Nothing
      but the count changes, and a node whose subtrees are counted is counted. */
  function RecalculateCount<V>(m: Tree<V>): (r: Tree<V>)
    requires m.Node?
    ensures r.Node? && r == m.(count := r.count)
    ensures Counted(m.left) && Counted(m.right) ==> Counted(r)
  {
    var count := (if !IsNil(m.left) then Size(m.left) else 0)
               + (if !IsNil(m.right) then Size(m.right) else 0);
    m.(count := count + 1)
  }

  lemma {:induction false} SizeIsCardinality<V>(t: Tree<V>)
    requires Valid(t)
    ensures Size(t) == |Contents(t)|
  {
    match t
    case Empty =>
    case Node(_, h, _, _, l, r) =>
      SizeIsCardinality(l);
      SizeIsCardinality(r);
      var cl, cr := Contents(l), Contents(r);
      forall x | x in cl ensures x !in cr {
        assert x < h;
      }
      DisjointUnionSize(cl, cr, h, (t.key, t.value));
  }

  /*** Facts about bindings, used by the proofs below ***/

  type Bindings<V> = map<Hash, (string, V)>

  /** The bindings of two disjoint subtrees plus a node's own number their sum plus one. */
  lemma DisjointUnionSize<V>(a: Bindings<V>, b: Bindings<V>, h: Hash, e: (string, V))
    requires forall x :: x in a ==> x !in b
    requires h !in a && h !in b
    ensures |(a + b)[h := e]| == |a| + |b| + 1
  {
  }

  /** Setting a hash that lies below a node, in the smaller subtree's bindings. */
  lemma SetBelow<V>(a: Bindings<V>, b: Bindings<V>, th: Hash, e: (string, V), h: Hash, key: string, value: V)
    requires h != th && h !in b
    ensures (SetContents(a, h, key, value) + b)[th := e] == SetContents((a + b)[th := e], h, key, value)
  {
  }

  /** Setting a hash that lies above a node, in the larger subtree's bindings. */
  lemma SetAbove<V>(a: Bindings<V>, b: Bindings<V>, th: Hash, e: (string, V), h: Hash, key: string, value: V)
    requires h != th && h !in a
    ensures (a + SetContents(b, h, key, value))[th := e] == SetContents((a + b)[th := e], h, key, value)
  {
  }

  /** Removing a hash from one subtree's bindings removes it from the node's. */
  lemma RemoveBelow<V>(a: Bindings<V>, b: Bindings<V>, th: Hash, e: (string, V), h: Hash)
    requires h != th && h !in b
    ensures ((a - {h}) + b)[th := e] == (a + b)[th := e] - {h}
  {
  }

  lemma RemoveAbove<V>(a: Bindings<V>, b: Bindings<V>, th: Hash, e: (string, V), h: Hash)
    requires h != th && h !in a
    ensures (a + (b - {h}))[th := e] == (a + b)[th := e] - {h}
  {
  }

  /** A binding moved up from one subtree to replace the node's own. */
  lemma ReplaceFromBelow<V>(a: Bindings<V>, b: Bindings<V>, th: Hash, e: (string, V), d: Hash)
    requires d in a && d !in b && th !in a && th !in b
    ensures ((a - {d}) + b)[d := a[d]] == (a + b)[th := e] - {th}
  {
  }

  lemma ReplaceFromAbove<V>(a: Bindings<V>, b: Bindings<V>, th: Hash, e: (string, V), d: Hash)
    requires d in b && d !in a && th !in a && th !in b
    ensures (a + (b - {d}))[d := b[d]] == (a + b)[th := e] - {th}
  {
  }

  /*** Set ***/

  /** Path-copying insertion by hash: a new leaf where the search ends, or,
      where a node already has this hash, a copy of it with the new value. */
  function SetLowLevel<V>(t: Tree<V>, h: Hash, key: string, value: V): Tree<V>
  {
    match t
    case Empty => Node(1, h, key, value, Empty, Empty)
    case Node(_, th, _, _, l, rt) =>
      if h < th then RecalculateCount(t.(left := SetLowLevel(l, h, key, value)))
      else if h > th then RecalculateCount(t.(right := SetLowLevel(rt, h, key, value)))
      else t.(value := value)
  }

  /** The bindings after Set: a new binding for an absent hash; for a present
      one the stored key stays and only the value is replaced. */
  ghost function SetContents<V>(c: map<Hash, (string, V)>, h: Hash, key: string, value: V): map<Hash, (string, V)>
  {
    if h in c then c[h := (c[h].0, value)] else c[h := (key, value)]
  }

  lemma {:induction false} SetLowLevelSpec<V>(t: Tree<V>, h: Hash, key: string, value: V)
    requires Valid(t)
    ensures Valid(SetLowLevel(t, h, key, value))
    ensures Contents(SetLowLevel(t, h, key, value)) == SetContents(Contents(t), h, key, value)
    ensures Size(SetLowLevel(t, h, key, value)) == Size(t) + (if h in Contents(t) then 0 else 1)
  {
    match t
    case Empty =>
    case Node(_, th, k, v, l, rt) =>
      var r := SetLowLevel(t, h, key, value);
      if h < th {
        SetLowLevelSpec(l, h, key, value);
        assert h !in Contents(rt);
        SetBelow(Contents(l), Contents(rt), th, (k, v), h, key, value);
        assert Ordered(r) by {
          assert forall x :: x in Contents(r.left) ==> x == h || x in Contents(l);
        }
      } else if h > th {
        SetLowLevelSpec(rt, h, key, value);
        assert h !in Contents(l);
        SetAbove(Contents(l), Contents(rt), th, (k, v), h, key, value);
        assert Ordered(r) by {
          assert forall x :: x in Contents(r.right) ==> x == h || x in Contents(rt);
        }
      }
  }

  /*** Lookup ***/

  function LookupLowLevel<V>(t: Tree<V>, h: Hash): Option<V>
  {
    match t
    case Empty => None
    case Node(_, th, _, v, l, rt) =>
      if h < th then LookupLowLevel(l, h)
      else if h > th then LookupLowLevel(rt, h)
      else Some(v)
  }

  /** Lookup finds a hash exactly when some node carries it, and then gives that node's value. */
  lemma {:induction false} LookupLowLevelSpec<V>(t: Tree<V>, h: Hash)
    requires Ordered(t)
    ensures LookupLowLevel(t, h) == if h in Contents(t) then Some(Contents(t)[h].1) else None
  {
    match t
    case Empty =>
    case Node(_, th, _, _, l, rt) =>
      if h < th {
        LookupLowLevelSpec(l, h);
        assert h !in Contents(rt);
      } else if h > th {
        LookupLowLevelSpec(rt, h);
        assert h !in Contents(l);
      }
  }

  /*** Delete ***/

  /** Removes the node with the largest hash; returns it and what remains.
      The extracted node keeps the count it had (only its left link is reset). */
  function DeleteRightmost<V>(m: Tree<V>): (r: (Tree<V>, Tree<V>))
    requires Valid(m) && m.Node?
    ensures r.0.Node? && r.0.left.Empty? && r.0.right.Empty?
    ensures IsMaximum(r.0.hash, Contents(m).Keys)
    ensures Contents(m)[r.0.hash] == (r.0.key, r.0.value)
    ensures Valid(r.1) && Contents(r.1) == Contents(m) - {r.0.hash}
    ensures Size(r.1) == Size(m) - 1
  {
    if IsLeaf(m) then (m, Empty)
    else if HasRight(m) then
      var (deleted, newRight) := DeleteRightmost(m.right);
      (deleted, RecalculateCount(m.(right := newRight)))
    else
      (m.(left := Empty), m.left)
  }

  /** Removes the node with the smallest hash; returns it (with count 1) and what remains. */
  function DeleteLeftmost<V>(m: Tree<V>): (r: (Tree<V>, Tree<V>))
    requires Valid(m) && m.Node?
    ensures r.0.Node? && r.0.count == 1 && r.0.left.Empty? && r.0.right.Empty?
    ensures IsMinimum(r.0.hash, Contents(m).Keys)
    ensures Contents(m)[r.0.hash] == (r.0.key, r.0.value)
    ensures Valid(r.1) && Contents(r.1) == Contents(m) - {r.0.hash}
    ensures Size(r.1) == Size(m) - 1
  {
    if IsLeaf(m) then (m, Empty)
    else if HasLeft(m) then
      var (deleted, newLeft) := DeleteLeftmost(m.left);
      (deleted, RecalculateCount(m.(left := newLeft)))
    else
      (m.(count := 1, right := Empty), m.right)
  }

  /** The replacement step when the left subtree is the larger: the left
      subtree's rightmost node takes the root's place, over the rest of the
      left subtree and the untouched right subtree. */
  function ReplaceWithRightmost<V>(t: Tree<V>): (r: Tree<V>)
    requires Valid(t) && t.Node? && t.left.Node?
    ensures Valid(r) && Contents(r) == Contents(t) - {t.hash} && Size(r) == Size(t) - 1
    ensures r.Node? && r.right == t.right && IsMaximum(r.hash, Contents(t.left).Keys)
  {
    var (replacement, newLeft) := DeleteRightmost(t.left);
    var cl, cr := Contents(t.left), Contents(t.right);
    var r := RecalculateCount(replacement.(left := newLeft, right := t.right));
    assert replacement.hash in cl;
    assert Contents(r) == (Contents(newLeft) + cr)[replacement.hash := (replacement.key, replacement.value)];
    ReplaceFromBelow(cl, cr, t.hash, (t.key, t.value), replacement.hash);
    assert Ordered(r) by {
      forall x | x in cr ensures replacement.hash < x {
        assert replacement.hash < t.hash;
      }
    }
    r
  }

  /** The replacement step otherwise: the right subtree's leftmost node takes
      the root's place, over the untouched left subtree and the rest of the
      right subtree. */
  function ReplaceWithLeftmost<V>(t: Tree<V>): (r: Tree<V>)
    requires Valid(t) && t.Node? && t.right.Node?
    ensures Valid(r) && Contents(r) == Contents(t) - {t.hash} && Size(r) == Size(t) - 1
    ensures r.Node? && r.left == t.left && IsMinimum(r.hash, Contents(t.right).Keys)
  {
    var (replacement, newRight) := DeleteLeftmost(t.right);
    var cl, cr := Contents(t.left), Contents(t.right);
    var r := RecalculateCount(replacement.(right := newRight, left := t.left));
    assert replacement.hash in cr;
    assert Contents(r) == (cl + Contents(newRight))[replacement.hash := (replacement.key, replacement.value)];
    ReplaceFromAbove(cl, cr, t.hash, (t.key, t.value), replacement.hash);
    assert Ordered(r) by {
      forall x | x in cl ensures x < replacement.hash {
        assert t.hash < replacement.hash;
      }
    }
    r
  }

  /** Removes the root node of a non-empty tree: a leaf becomes the empty map,
      a single subtree takes its place unchanged, and with two subtrees the
      larger side gives up its nearest node as the replacement (ties go right). */
  function DeleteOwnNode<V>(t: Tree<V>): (r: Tree<V>)
    requires Valid(t) && t.Node?
    ensures Valid(r) && Contents(r) == Contents(t) - {t.hash} && Size(r) == Size(t) - 1
    ensures t.left.Empty? && t.right.Empty? ==> r.Empty?
    ensures t.left.Empty? && t.right.Node? ==> r == t.right
    ensures t.left.Node? && t.right.Empty? ==> r == t.left
    ensures t.left.Node? && t.right.Node? && Size(t.left) > Size(t.right) ==>
              r == ReplaceWithRightmost(t)
    ensures t.left.Node? && t.right.Node? && Size(t.left) <= Size(t.right) ==>
              r == ReplaceWithLeftmost(t)
  {
    if IsLeaf(t) then Empty
    else if SubtreeCount(t) == 1 then
      if HasLeft(t) then t.left else t.right
    else if Size(t.left) > Size(t.right) then ReplaceWithRightmost(t)
    else ReplaceWithLeftmost(t)
  }

  /** Delete as the source writes it: the branches that descend left or right
      build a rebuilt copy of this node and drop it, so control always reaches
      the removal of this subtree's own root once the hash has been found. */
  function DeleteLowLevel<V>(t: Tree<V>, h: Hash): (r: (Tree<V>, bool))
    requires Valid(t)
    ensures r.1 <==> LookupLowLevel(t, h).Some?
    ensures !r.1 ==> r.0 == t
    ensures r.1 ==> t.Node? && r.0 == DeleteOwnNode(t)
  {
    match t
    case Empty => (t, false)
    case Node(_, th, _, _, l, rt) =>
      if h < th && !DeleteLowLevel(l, h).1 then (t, false)
      else if h > th && !DeleteLowLevel(rt, h).1 then (t, false)
      else (DeleteOwnNode(t), true)
  }

  /** On a valid tree the as-written Delete reports the hash found exactly when
      it is stored, keeps the invariants and shrinks the map by one, but the
      binding it removes is the root's, whichever hash was asked for. */
  lemma DeleteLowLevelSpec<V>(t: Tree<V>, h: Hash)
    requires Valid(t)
    ensures DeleteLowLevel(t, h).1 <==> h in Contents(t)
    ensures Valid(DeleteLowLevel(t, h).0)
    ensures Size(DeleteLowLevel(t, h).0) == Size(t) - (if h in Contents(t) then 1 else 0)
    ensures Contents(DeleteLowLevel(t, h).0) ==
              if h in Contents(t) then Contents(t) - {t.hash} else Contents(t)
  {
    LookupLowLevelSpec(t, h);
  }

  /** Delete with the rebuilt node returned, as the interface documents it. */
  function DeleteLowLevelCorrected<V>(t: Tree<V>, h: Hash): (r: (Tree<V>, bool))
    requires Valid(t)
    ensures r.1 <==> h in Contents(t)
    ensures !r.1 ==> r.0 == t
    ensures Valid(r.0) && Contents(r.0) == Contents(t) - {h}
    ensures Size(r.0) == Size(t) - (if r.1 then 1 else 0)
  {
    match t
    case Empty => (t, false)
    case Node(_, th, _, _, l, rt) =>
      if h < th then
        var (newLeft, found) := DeleteLowLevelCorrected(l, h);
        if !found then (t, false)
        else
          RemoveBelow(Contents(l), Contents(rt), th, (t.key, t.value), h);
          (RecalculateCount(t.(left := newLeft)), true)
      else if h > th then
        var (newRight, found) := DeleteLowLevelCorrected(rt, h);
        if !found then (t, false)
        else
          RemoveAbove(Contents(l), Contents(rt), th, (t.key, t.value), h);
          (RecalculateCount(t.(right := newRight)), true)
      else
        (DeleteOwnNode(t), true)
  }

  /*** Traversal ***/

  /** The (key, value) pairs ForEach hands to its callback, in call order:
      left subtree, this node, right subtree. */
  function ForEach<V>(t: Tree<V>): seq<(string, V)>
  {
    match t
    case Empty => []
    case Node(_, _, k, v, l, r) => ForEach(l) + [(k, v)] + ForEach(r)
  }

  /** The hashes of the nodes ForEach visits, in the same order. */
  ghost function InOrderHashes<V>(t: Tree<V>): seq<Hash>
  {
    match t
    case Empty => []
    case Node(_, h, _, _, l, r) => InOrderHashes(l) + [h] + InOrderHashes(r)
  }

  lemma {:induction false} ForEachLength<V>(t: Tree<V>)
    requires Counted(t)
    ensures |ForEach(t)| == |InOrderHashes(t)| == Size(t)
  {
    match t
    case Empty =>
    case Node(_, _, _, _, l, r) =>
      ForEachLength(l);
      ForEachLength(r);
  }

  /** In-order hashes are exactly the stored hashes, strictly increasing. */
  lemma {:induction false} InOrderHashesSorted<V>(t: Tree<V>)
    requires Ordered(t)
    ensures forall x :: x in InOrderHashes(t) <==> x in Contents(t)
    ensures forall i, j :: 0 <= i < j < |InOrderHashes(t)| ==> InOrderHashes(t)[i] < InOrderHashes(t)[j]
  {
    match t
    case Empty =>
    case Node(_, h, _, _, l, r) =>
      InOrderHashesSorted(l);
      InOrderHashesSorted(r);
      var hs: seq<Hash>, hl: seq<Hash>, hr: seq<Hash> := InOrderHashes(t), InOrderHashes(l), InOrderHashes(r);
      assert hs == hl + [h] + hr;
      forall i | 0 <= i < |hs|
        ensures i < |hl| ==> hs[i] == hl[i] && hs[i] < h
        ensures i == |hl| ==> hs[i] == h
        ensures i > |hl| ==> hs[i] == hr[i - |hl| - 1] && h < hs[i]
      {
        if i < |hl| {
          assert hl[i] in Contents(l);
        } else if i > |hl| {
          assert hr[i - |hl| - 1] in Contents(r);
        }
      }
  }

  /** The i-th visit is the binding of the i-th in-order hash. */
  lemma {:induction false} ForEachMatchesContents<V>(t: Tree<V>)
    requires Ordered(t)
    ensures |ForEach(t)| == |InOrderHashes(t)|
    ensures forall i :: 0 <= i < |ForEach(t)| ==>
              InOrderHashes(t)[i] in Contents(t) && Contents(t)[InOrderHashes(t)[i]] == ForEach(t)[i]
  {
    match t
    case Empty =>
    case Node(_, h, k, v, l, r) =>
      ForEachMatchesContents(l);
      ForEachMatchesContents(r);
      InOrderHashesSorted(l);
      var hs: seq<Hash>, hl: seq<Hash>, hr: seq<Hash> := InOrderHashes(t), InOrderHashes(l), InOrderHashes(r);
      var fs, fl, fr := ForEach(t), ForEach(l), ForEach(r);
      assert hs == hl + [h] + hr;
      assert fs == fl + [(k, v)] + fr;
      forall i | 0 <= i < |fs|
        ensures hs[i] in Contents(t) && Contents(t)[hs[i]] == fs[i]
      {
        if i < |hl| {
          assert hs[i] == hl[i] && fs[i] == fl[i];
          assert hl[i] in Contents(l) && hl[i] < h;
          assert hl[i] !in Contents(r);
        } else if i > |hl| {
          assert hs[i] == hr[i - |hl| - 1] && fs[i] == fr[i - |hl| - 1];
        } else {
          assert hs[i] == h && fs[i] == (k, v);
        }
      }
  }

  /** ForEach visits each stored binding once, in strictly increasing hash
      order, Size() times in all. */
  lemma {:induction false} ForEachSpec<V>(t: Tree<V>)
    requires Valid(t)
    ensures |ForEach(t)| == |InOrderHashes(t)| == Size(t)
    ensures forall i, j :: 0 <= i < j < |InOrderHashes(t)| ==> InOrderHashes(t)[i] < InOrderHashes(t)[j]
    ensures forall i :: 0 <= i < |ForEach(t)| ==>
              InOrderHashes(t)[i] in Contents(t) && Contents(t)[InOrderHashes(t)[i]] == ForEach(t)[i]
    ensures forall x :: x in Contents(t) ==> x in InOrderHashes(t)
  {
    ForEachLength(t);
    InOrderHashesSorted(t);
    ForEachMatchesContents(t);
  }

  /** Keys fills a slice of length Size() with the keys ForEach visits, in visit order. */
  method Keys<V>(t: Tree<V>) returns (keys: seq<string>)
    requires Valid(t)
    ensures |keys| == |ForEach(t)| == Size(t)
    ensures forall i :: 0 <= i < |keys| ==> keys[i] == ForEach(t)[i].0
  {
    ForEachSpec(t);
    var slots := new string[Size(t)](_ => "");
    var visits := ForEach(t);
    var i := 0;
    while i < |visits|
      invariant 0 <= i <= |visits| == slots.Length
      invariant forall j :: 0 <= j < i ==> slots[j] == visits[j].0
    {
      slots[i] := visits[i].0;
      i := i + 1;
    }
    keys := slots[..];
  }

  /** When every stored hash is the hash of its key, the keys ForEach (and so
      Keys) produces are in strictly increasing hash order, hence distinct. */
  lemma KeysInHashOrder<V>(t: Tree<V>, H: string -> Hash)
    requires Valid(t) && WellHashed(t, H)
    ensures forall i, j :: 0 <= i < j < |ForEach(t)| ==> H(ForEach(t)[i].0) < H(ForEach(t)[j].0)
  {
    ForEachSpec(t);
    var hs: seq<Hash> := InOrderHashes(t);
    forall i | 0 <= i < |ForEach(t)| ensures H(ForEach(t)[i].0) == hs[i] {
      assert hs[i] in Contents(t);
    }
  }

  /*** The interface: operations on keys ***/

  function Set<V>(t: Tree<V>, H: string -> Hash, key: string, value: V): Tree<V>
  {
    SetLowLevel(t, H(key), key, value)
  }

  function Lookup<V>(t: Tree<V>, H: string -> Hash, key: string): Option<V>
  {
    LookupLowLevel(t, H(key))
  }

  /** Delete as written (see DeleteLowLevel). */
  function Delete<V>(t: Tree<V>, H: string -> Hash, key: string): Tree<V>
    requires Valid(t)
  {
    DeleteLowLevel(t, H(key)).0
  }

  /** Delete as documented (see DeleteLowLevelCorrected). */
  function DeleteCorrected<V>(t: Tree<V>, H: string -> Hash, key: string): Tree<V>
    requires Valid(t)
  {
    DeleteLowLevelCorrected(t, H(key)).0
  }

  /** After Set(k, v), every key whose hash equals H(k), k itself or a
      colliding one, looks up v; every other key looks up what it did before. */
  lemma SetThenLookup<V>(t: Tree<V>, H: string -> Hash, k: string, v: V, k': string)
    requires Valid(t)
    ensures Lookup(Set(t, H, k, v), H, k') == if H(k') == H(k) then Some(v) else Lookup(t, H, k')
  {
    SetLowLevelSpec(t, H(k), k, v);
    LookupLowLevelSpec(t, H(k'));
    LookupLowLevelSpec(Set(t, H, k, v), H(k'));
  }

  /** Set keeps the invariants and the hashes honest, and adds one to Size()
      exactly when no stored key has the new key's hash. */
  lemma SetSize<V>(t: Tree<V>, H: string -> Hash, k: string, v: V)
    requires Valid(t) && WellHashed(t, H)
    ensures Valid(Set(t, H, k, v)) && WellHashed(Set(t, H, k, v), H)
    ensures Size(Set(t, H, k, v)) == Size(t) + (if Lookup(t, H, k).Some? then 0 else 1)
  {
    SetLowLevelSpec(t, H(k), k, v);
    LookupLowLevelSpec(t, H(k));
  }

  /** Setting a key twice leaves the second value and the size of the first Set. */
  lemma SetTwice<V>(t: Tree<V>, H: string -> Hash, k: string, v1: V, v2: V)
    requires Valid(t)
    ensures Lookup(Set(Set(t, H, k, v1), H, k, v2), H, k) == Some(v2)
    ensures Size(Set(Set(t, H, k, v1), H, k, v2)) == Size(Set(t, H, k, v1))
  {
    var t1 := Set(t, H, k, v1);
    SetLowLevelSpec(t, H(k), k, v1);
    SetLowLevelSpec(t1, H(k), k, v2);
    LookupLowLevelSpec(Set(t1, H, k, v2), H(k));
  }

  /** Deleting a key whose hash is not stored gives back the very same map. */
  lemma DeleteAbsent<V>(t: Tree<V>, H: string -> Hash, k: string)
    requires Valid(t) && Lookup(t, H, k).None?
    ensures Delete(t, H, k) == t && DeleteCorrected(t, H, k) == t
  {
    LookupLowLevelSpec(t, H(k));
  }

  /** The corrected Delete removes the key's hash, and no other binding. */
  lemma DeleteCorrectedThenLookup<V>(t: Tree<V>, H: string -> Hash, k: string, k': string)
    requires Valid(t)
    ensures Lookup(DeleteCorrected(t, H, k), H, k') == if H(k') == H(k) then None else Lookup(t, H, k')
  {
    LookupLowLevelSpec(t, H(k'));
    LookupLowLevelSpec(DeleteCorrected(t, H, k), H(k'));
  }

  /** Both deletes keep the hashes honest, and shrink Size() by one exactly
      when the key's hash is stored. */
  lemma DeleteSize<V>(t: Tree<V>, H: string -> Hash, k: string)
    requires Valid(t) && WellHashed(t, H)
    ensures WellHashed(Delete(t, H, k), H) && WellHashed(DeleteCorrected(t, H, k), H)
    ensures Size(Delete(t, H, k)) == Size(t) - (if Lookup(t, H, k).Some? then 1 else 0)
    ensures Size(DeleteCorrected(t, H, k)) == Size(Delete(t, H, k))
  {
    DeleteLowLevelSpec(t, H(k));
    LookupLowLevelSpec(t, H(k));
  }

  /** The as-written Delete, asked to remove a key stored below the root,
      removes the root's binding instead and leaves the key in place; the
      corrected Delete removes the key. */
  lemma DeleteAsWrittenMissesNonRoot()
    ensures var H: string -> Hash := k => if k == "a" then 10 else 20;
            var m := Set(Set(NewMap(), H, "a", 1), H, "b", 2);
            && Valid(m)
            && Lookup(Delete(m, H, "b"), H, "b") == Some(2)
            && Lookup(Delete(m, H, "b"), H, "a") == None
            && Lookup(DeleteCorrected(m, H, "b"), H, "b") == None
            && Lookup(DeleteCorrected(m, H, "b"), H, "a") == Some(1)
  {
    var H: string -> Hash := k => if k == "a" then 10 else 20;
    var m := Set(Set(NewMap(), H, "a", 1), H, "b", 2);
    assert m == Node(2, 10, "a", 1, Empty, Node(1, 20, "b", 2, Empty, Empty));
  }
}
