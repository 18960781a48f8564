/** Read-only queries on the tree: routing a key to a child, height, indexed lookup. */
module BTreeQuery {
  import opened BTreeNodes

  /** Specification of `Internal::key_to_idx_and_offset`: the first child whose length range
    * contains `key`, or the last child when none does, with the summed length of the children
    * before it. */
  function Route<T>(cs: seq<Tree<T>>, key: nat): (r: (nat, nat))
    requires |cs| >= 1
    ensures r.0 < |cs| && r.1 == SumLens(cs[..r.0]) && r.1 <= key
    ensures r.0 == |cs| - 1 || key - r.1 < Len(cs[r.0])
  {
    if key < Len(cs[0]) || |cs| == 1 then (0, 0)
    else
      var r := Route(cs[1..], key - Len(cs[0]));
      assert cs[..r.0 + 1][1..] == cs[1..][..r.0];
      (r.0 + 1, r.1 + Len(cs[0]))
  }

  /** No child before the routed one contains the key: the route is the first candidate. */
  lemma {:induction false} RouteFirst<T>(cs: seq<Tree<T>>, key: nat, j: nat)
    requires |cs| >= 1 && j < Route(cs, key).0
    ensures SumLens(cs[..j]) + Len(cs[j]) <= key
  {
    if j > 0 {
      RouteFirst(cs[1..], key - Len(cs[0]), j - 1);
      assert cs[..j][1..] == cs[1..][..j - 1];
    }
  }

  lemma {:induction false} SumLensTail<T>(cs: seq<Tree<T>>, j: nat)
    requires 1 <= j <= |cs|
    ensures SumLens(cs[..j]) == Len(cs[0]) + SumLens(cs[1..][..j - 1])
  {
    assert cs[..j][1..] == cs[1..][..j - 1];
  }

  /** Route is the only index with its three defining properties. */
  lemma {:induction false} RouteUnique<T>(cs: seq<Tree<T>>, key: nat, i: nat)
    requires i < |cs| && SumLens(cs[..i]) <= key
    requires forall j | 0 <= j < i :: SumLens(cs[..j]) + Len(cs[j]) <= key
    requires i == |cs| - 1 || key - SumLens(cs[..i]) < Len(cs[i])
    ensures Route(cs, key) == (i, SumLens(cs[..i]))
  {
    assert cs[..0] == [];
    if i > 0 {
      assert SumLens(cs[..0]) + Len(cs[0]) <= key;
      var k := key - Len(cs[0]);
      var tl := cs[1..];
      forall j | 0 <= j < i - 1
        ensures SumLens(tl[..j]) + Len(tl[j]) <= k
      {
        SumLensTail(cs, j + 1);
        assert tl[j] == cs[j + 1];
      }
      SumLensTail(cs, i);
      RouteUnique(tl, k, i - 1);
      assert Route(cs, key) == (Route(tl, k).0 + 1, Route(tl, k).1 + Len(cs[0]));
    }
  }

  /** The routed child holds the key: for `key` below the children's total length the
    * position inside the child is below the child's length, and the key-th element of the
    * children is that element of the routed child. */
  lemma {:induction false} RouteElem<T>(cs: seq<Tree<T>>, key: nat)
    requires |cs| >= 1 && AllCached(cs) && key < SumLens(cs)
    ensures key - Route(cs, key).1 < |Elems(cs[Route(cs, key).0])|
    ensures key < |ElemsOf(cs)|
    ensures ElemsOf(cs)[key] == Elems(cs[Route(cs, key).0])[key - Route(cs, key).1]
  {
    var (i, o) := Route(cs, key);
    ElemsOfAt(cs, i);
    AllCachedLen(cs);
    AllCachedLen(cs[..i]);
    CachedLen(cs[i]);
  }

  /** Cutting a concatenation inside its middle part. */
  lemma {:induction false} CutMiddle<X>(x: seq<X>, m: seq<X>, y: seq<X>, k: nat)
    requires |x| <= k <= |x| + |m|
    ensures (x + m + y)[..k] == x + m[..k - |x|]
    ensures (x + m + y)[k..] == m[k - |x|..] + y
  {
  }

  /** Where the routed key falls: inside the routed child, or at the very end of it. */
  lemma {:induction false} RouteCut<T>(t: Tree<T>, key: nat)
    requires t.Internal? && Cached(t) && |t.children| >= 1 && key <= t.length
    ensures var (idx, offset) := Route(t.children, key);
      var cs := t.children;
      && key - offset <= Len(cs[idx]) && Len(cs[idx]) == |Elems(cs[idx])|
      && |ElemsOf(cs[..idx])| == offset
      && Elems(t) == ElemsOf(cs[..idx]) + Elems(cs[idx]) + ElemsOf(cs[idx + 1..])
      && t.length == offset + Len(cs[idx]) + SumLens(cs[idx + 1..])
  {
    var (idx, offset) := Route(t.children, key);
    var cs := t.children;
    ElemsOfAt(cs, idx);
    AllCachedLen(cs[..idx]);
    CachedLen(cs[idx]);
  }

  /** The routed child of a balanced node, and the position inside it. */
  lemma {:induction false} RouteChild<T>(t: Tree<T>, key: nat, h: nat)
    requires t.Internal? && Shape(t, h) && Cached(t) && key <= t.length
    ensures var (idx, offset) := Route(t.children, key);
      var c := t.children[idx];
      && key - offset <= Len(c) && Len(c) == |Elems(c)|
      && Shape(c, h - 1) && Cached(c) && !IsRoot(c)
      && (key < t.length ==> key - offset < Len(c))
  {
    RouteCut(t, key);
    if key < t.length {
      RouteElem(t.children, key);
    }
  }

  /** `Internal::key_to_idx_and_offset`: walks the children accumulating their lengths. */
  method KeyToIdxAndOffset<T>(t: Tree<T>, key: nat) returns (idx: nat, offset: nat)
    requires t.Internal? && |t.children| >= 1
    ensures (idx, offset) == Route(t.children, key)
  {
    var cs := t.children;
    idx, offset := 0, 0;
    while !(key - offset < Len(cs[idx]) || idx + 1 == |cs|)
      invariant 0 <= idx < |cs| && offset <= key && offset == SumLens(cs[..idx])
      invariant forall j | 0 <= j < idx :: SumLens(cs[..j]) + Len(cs[j]) <= key
      decreases |cs| - idx
    {
      assert cs[..idx + 1] == cs[..idx] + [cs[idx]];
      SumLensAppend(cs[..idx], [cs[idx]]);
      SumLensSingle(cs[idx]);
      offset := offset + Len(cs[idx]);
      idx := idx + 1;
    }
    RouteUnique(cs, key, idx);
  }

  /** `Internal::height`: follows first children until it meets a leaf. */
  method InternalHeight<T>(t: Tree<T>) returns (height: nat)
    requires t.Internal?
    ensures height == HeightOf(t)
  {
    height := 1;
    var ptr := t;
    while |ptr.children| > 0 && ptr.children[0].Internal?
      invariant ptr.Internal? && height >= 1
      invariant HeightOf(t) == height - 1 + HeightOf(ptr)
      decreases ptr
    {
      ptr := ptr.children[0];
      height := height + 1;
    }
  }

  /** `Tree::height`: 0 for a leaf. */
  method Height<T>(t: Tree<T>) returns (height: nat)
    ensures height == HeightOf(t)
  {
    match t
    case Internal(_, _, _) => height := InternalHeight(t);
    case Array(_) => height := 0;
  }

  /** `Tree::get`: the idx-th element of the represented sequence, or None past its end. */
  function Get<T>(t: Tree<T>, idx: nat): (r: Option<T>)
    requires Cached(t)
    ensures r == if idx < |Elems(t)| then Some(Elems(t)[idx]) else None
    decreases t, 1
  {
    match t
    case Internal(_, _, _) => InternalGet(t, idx)
    case Array(items) => if idx < |items| then Some(items[idx]) else None
  }

  /** `Internal::get`: None at or past `length`, else descend into the routed child. */
  function InternalGet<T>(t: Tree<T>, key: nat): (r: Option<T>)
    requires t.Internal? && Cached(t)
    ensures r == if key < |Elems(t)| then Some(Elems(t)[key]) else None
    decreases t, 0
  {
    CachedLen(t);
    if key >= t.length then None
    else
      var (idx, offset) := Route(t.children, key);
      RouteElem(t.children, key);
      Get(t.children[idx], key - offset)
  }
}
