/** Nodes of the relative-indexed B+tree that backs CatVec (src/btree.rs).
  * A tree is either a leaf (`Array`, at most ORD elements) or an internal node holding at most
  * ORD children together with a cached `length`. The value a tree stands for is the in-order
  * sequence of its leaf elements, `Elems`. */
module BTreeNodes {

  datatype Option<T> = None | Some(value: T)

  /** Maximum fanout (the const-generic ORD; 5 is the value the fuzz harness uses). */
  const ORD: nat := 5
  /** Minimum number of children of a non-root internal node (`ORD / 2`, integer division). */
  const HALF: nat := ORD / 2

  /** `Tree<T, ORD>` of the source: the `Internal` struct's three fields, or a leaf array. */
  datatype Tree<T> =
    | Internal(length: nat, children: seq<Tree<T>>, root: bool)
    | Array(items: seq<T>)

  /** `Tree::new`: a root internal node of length 0 with a single empty leaf. */
  function NewTree<T>(): (t: Tree<T>)
    ensures Valid(t) && CheckInvariants(t) && Elems(t) == [] && Len(t) == 0 && HeightOf(t) == 1
  {
    Internal(0, [Array([])], true)
  }

  predicate IsRoot<T>(t: Tree<T>) {
    t.Internal? && t.root
  }

  /** `Tree::len`: the cached length of an internal node, the size of a leaf. */
  function Len<T>(t: Tree<T>): (n: nat)
    ensures t.Array? ==> n == |Elems(t)|
  {
    match t
    case Internal(length, _, _) => length
    case Array(items) => |items|
  }

  /** `Tree::children_count`: children of an internal node, elements of a leaf. */
  function ChildrenCount<T>(t: Tree<T>): (n: nat)
    ensures t.Array? ==> n == |Elems(t)|
    ensures t.Internal? ==> n == |t.children|
    ensures CheckInvariants(t) && t.Internal? && !t.root ==> n >= HALF
  {
    match t
    case Internal(_, cs, _) => |cs|
    case Array(items) => |items|
  }

  /** The sequence a tree represents: its leaf elements in order. */
  function Elems<T>(t: Tree<T>): seq<T> {
    match t
    case Array(items) => items
    case Internal(_, cs, _) => ElemsOf(cs)
  }

  function ElemsOf<T>(cs: seq<Tree<T>>): seq<T> {
    if cs == [] then [] else Elems(cs[0]) + ElemsOf(cs[1..])
  }

  /** The elements of an optional node: none when it is absent. */
  function OptElems<T>(o: Option<Tree<T>>): seq<T> {
    if o.Some? then Elems(o.value) else []
  }

  /** The sum of the (cached) lengths of a run of children. */
  function SumLens<T>(cs: seq<Tree<T>>): nat {
    if cs == [] then 0 else Len(cs[0]) + SumLens(cs[1..])
  }

  /** Every internal node's cached length is the sum of its children's lengths
    * (the equality `check_invariants` asserts). */
  predicate Cached<T>(t: Tree<T>) {
    match t
    case Array(_) => true
    case Internal(length, cs, _) =>
      length == SumLens(cs) && forall i | 0 <= i < |cs| :: Cached(cs[i])
  }

  predicate AllCached<T>(cs: seq<Tree<T>>) {
    forall i | 0 <= i < |cs| :: Cached(cs[i])
  }

  predicate NonEmpty<T>(t: Tree<T>) {
    t.Internal? ==> |t.children| >= 1
  }

  /** Structure of a node whose leaves all sit `h` levels below it: fanout at most ORD, no
    * root flag below the top, and every internal node below the top has a child. The top node
    * itself may have no children (a fringe node that gave all of them away). */
  predicate NodeShape<T>(t: Tree<T>, h: nat) {
    match t
    case Array(items) => h == 0 && |items| <= ORD
    case Internal(_, cs, _) =>
      h >= 1 && |cs| <= ORD &&
      forall i | 0 <= i < |cs| :: !IsRoot(cs[i]) && NonEmpty(cs[i]) && NodeShape(cs[i], h - 1)
  }

  /** A balanced node of height `h` with at least one child. */
  predicate Shape<T>(t: Tree<T>, h: nat) {
    NodeShape(t, h) && NonEmpty(t)
  }

  /** Like NodeShape, except that its children may themselves be childless. */
  predicate LooseShape<T>(t: Tree<T>, h: nat) {
    match t
    case Array(items) => h == 0 && |items| <= ORD
    case Internal(_, cs, _) =>
      h >= 1 && |cs| <= ORD && forall i | 0 <= i < |cs| :: !IsRoot(cs[i]) && NodeShape(cs[i], h - 1)
  }

  /** The minimum-fanout half of `check_invariants`: every non-root internal node has at least
    * ORD / 2 children (leaves count as roots there, so they are exempt). */
  predicate Fanout<T>(t: Tree<T>) {
    match t
    case Array(_) => true
    case Internal(_, cs, root) =>
      (root || |cs| >= HALF) && forall i | 0 <= i < |cs| :: Fanout(cs[i])
  }

  /** The height the source computes, by following first children down to a leaf. */
  function HeightOf<T>(t: Tree<T>): nat {
    match t
    case Array(_) => 0
    case Internal(_, cs, _) => if cs == [] then 1 else 1 + HeightOf(cs[0])
  }

  /** The state a CatVec keeps: a balanced root internal node with correct cached lengths. */
  predicate Valid<T>(t: Tree<T>) {
    t.Internal? && t.root && Shape(t, HeightOf(t)) && Cached(t)
  }

  /** `check_invariants` (src/btree.rs:272-288) in full, as a predicate: a tree that passes
    * has the length of its elements as its length, and so does every child of it. */
  predicate CheckInvariants<T>(t: Tree<T>): (ok: bool)
    ensures ok ==> Len(t) == |Elems(t)|
    ensures ok && t.Internal? ==> forall i | 0 <= i < |t.children| :: CheckInvariants(t.children[i])
  {
    if Cached(t) then CachedLen(t); Fanout(t) else false
  }

  // ---------------------------------------------------------------------------------------
  // Lemmas about the abstraction

  lemma {:induction false} ElemsOfAppend<T>(a: seq<Tree<T>>, b: seq<Tree<T>>)
    ensures ElemsOf(a + b) == ElemsOf(a) + ElemsOf(b)
  {
    if a == [] {
      assert a + b == b;
    } else {
      assert (a + b)[1..] == a[1..] + b;
      ElemsOfAppend(a[1..], b);
    }
  }

  lemma {:induction false} SumLensAppend<T>(a: seq<Tree<T>>, b: seq<Tree<T>>)
    ensures SumLens(a + b) == SumLens(a) + SumLens(b)
  {
    if a == [] {
      assert a + b == b;
    } else {
      assert (a + b)[1..] == a[1..] + b;
      SumLensAppend(a[1..], b);
    }
  }

  lemma {:induction false} ElemsOfSingle<T>(c: Tree<T>)
    ensures ElemsOf([c]) == Elems(c)
  {
    assert [c][1..] == [];
  }

  lemma {:induction false} SumLensSingle<T>(c: Tree<T>)
    ensures SumLens([c]) == Len(c)
  {
    assert [c][1..] == [];
  }

  /** Splitting the children at position i splits the represented sequence accordingly. */
  lemma {:induction false} ElemsOfAt<T>(cs: seq<Tree<T>>, i: nat)
    requires i < |cs|
    ensures ElemsOf(cs) == ElemsOf(cs[..i]) + Elems(cs[i]) + ElemsOf(cs[i + 1..])
    ensures SumLens(cs) == SumLens(cs[..i]) + Len(cs[i]) + SumLens(cs[i + 1..])
  {
    assert cs == cs[..i] + cs[i..];
    assert cs[i..][1..] == cs[i + 1..];
    ElemsOfAppend(cs[..i], cs[i..]);
    SumLensAppend(cs[..i], cs[i..]);
  }

  /** Replacing one child changes only that child's part of the represented sequence. */
  lemma {:induction false} ElemsOfUpdate<T>(cs: seq<Tree<T>>, i: nat, c: Tree<T>)
    requires i < |cs|
    ensures ElemsOf(cs[i := c]) == ElemsOf(cs[..i]) + Elems(c) + ElemsOf(cs[i + 1..])
    ensures SumLens(cs[i := c]) == SumLens(cs[..i]) + Len(c) + SumLens(cs[i + 1..])
  {
    var u := cs[i := c];
    ElemsOfAt(u, i);
    assert u[..i] == cs[..i] && u[i + 1..] == cs[i + 1..];
  }

  /** With correct cached lengths, `Tree::len` is the length of the represented sequence. */
  lemma {:induction false} CachedLen<T>(t: Tree<T>)
    requires Cached(t)
    ensures Len(t) == |Elems(t)|
    decreases t, 1
  {
    match t
    case Array(_) =>
    case Internal(_, cs, _) => CachedLenOf(t, cs);
  }

  lemma {:induction false} CachedLenOf<T>(t: Tree<T>, cs: seq<Tree<T>>)
    requires forall i | 0 <= i < |cs| :: cs[i] < t && Cached(cs[i])
    ensures SumLens(cs) == |ElemsOf(cs)|
    decreases t, 0, |cs|
  {
    if cs != [] {
      CachedLen(cs[0]);
      CachedLenOf(t, cs[1..]);
    }
  }

  /** Children with correct lengths: their lengths sum to the length of their elements. */
  lemma {:induction false} AllCachedLen<T>(cs: seq<Tree<T>>)
    requires AllCached(cs)
    ensures SumLens(cs) == |ElemsOf(cs)|
  {
    var t := Internal(SumLens(cs), cs, false);
    CachedLenOf(t, cs);
  }

  /** In a balanced tree the first-child height is the height of every leaf. */
  lemma {:induction false} ShapeHeight<T>(t: Tree<T>, h: nat)
    requires Shape(t, h)
    ensures HeightOf(t) == h
  {
    match t
    case Array(_) =>
    case Internal(_, cs, _) => ShapeHeight(cs[0], h - 1);
  }

  /** A node with correct lengths and a positive length is never childless. */
  lemma {:induction false} NodeShapePositive<T>(t: Tree<T>, h: nat)
    requires NodeShape(t, h) && Cached(t) && Len(t) > 0
    ensures Shape(t, h)
  {
  }

}
