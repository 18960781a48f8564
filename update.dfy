/** In-place update of one element (`Tree::get_mut`, `Internal::get_mut`, src/btree.rs): the
  * mutable reference the source hands out is modelled by the value written through it. */
module BTreeUpdate {
  import opened BTreeNodes
  import opened BTreeQuery

  lemma {:induction false} UpdateMiddle<X>(x: seq<X>, m: seq<X>, y: seq<X>, k: nat, v: X)
    requires |x| <= k < |x| + |m|
    ensures (x + m + y)[k := v] == x + m[k - |x| := v] + y
  {
  }

  /** `Tree::get_mut` followed by a write of `v`: position `idx` now holds `v` when it exists
    * (index past the end: nothing found, nothing changed); the shape and every cached length
    * stay as they were. */
  method Update<T>(t: Tree<T>, idx: nat, v: T, ghost h: nat) returns (r: Tree<T>, found: bool)
    requires Shape(t, h) && Cached(t)
    ensures found <==> idx < |Elems(t)|
    ensures found ==> Elems(r) == Elems(t)[idx := v]
    ensures !found ==> r == t
    ensures Shape(r, h) && Cached(r) && IsRoot(r) == IsRoot(t) && r.Array? == t.Array? && Len(r) == Len(t)
    ensures ChildrenCount(r) == ChildrenCount(t) && (Fanout(t) ==> Fanout(r))
    decreases t, 1
  {
    match t
    case Internal(_, _, _) =>
      r, found := InternalUpdate(t, idx, v, h);
    case Array(items) =>
      if idx < |items| {
        r, found := Array(items[idx := v]), true;
      } else {
        r, found := t, false;
      }
  }

  /** `Internal::get_mut`: nothing at or past `length`, else descend into the routed child. */
  method InternalUpdate<T>(t: Tree<T>, key: nat, v: T, ghost h: nat) returns (r: Tree<T>, found: bool)
    requires t.Internal? && Shape(t, h) && Cached(t)
    ensures found <==> key < |Elems(t)|
    ensures found ==> Elems(r) == Elems(t)[key := v]
    ensures !found ==> r == t
    ensures r.Internal? && Shape(r, h) && Cached(r) && r.root == t.root && r.length == t.length
    ensures |r.children| == |t.children| && (Fanout(t) ==> Fanout(r))
    decreases t, 0
  {
    CachedLen(t);
    if key >= t.length {
      return t, false;
    }
    var idx, offset := KeyToIdxAndOffset(t, key);
    RouteChild(t, key, h);
    var child, _ := Update(t.children[idx], key - offset, v, h - 1);
    r, found := Internal(t.length, t.children[idx := child], t.root), true;
    UpdatedOk(t, idx, offset, key, v, child, h);
    if Fanout(t) {
      KidFanout(t, idx, child);
    }
  }

  lemma {:induction false} UpdatedOk<T>(t: Tree<T>, idx: nat, offset: nat, key: nat, v: T, child: Tree<T>, h: nat)
    requires t.Internal? && Shape(t, h) && Cached(t) && key < t.length
    requires (idx, offset) == Route(t.children, key)
    requires key - offset < |Elems(t.children[idx])|
    requires Shape(child, h - 1) && Cached(child) && !IsRoot(child) && Len(child) == Len(t.children[idx])
    requires Elems(child) == Elems(t.children[idx])[key - offset := v]
    ensures var r := Internal(t.length, t.children[idx := child], t.root);
      Shape(r, h) && Cached(r) && key < |Elems(t)| && Elems(r) == Elems(t)[key := v]
  {
    var cs := t.children;
    RouteCut(t, key);
    ElemsOfUpdate(cs, idx, child);
    UpdateMiddle(ElemsOf(cs[..idx]), Elems(cs[idx]), ElemsOf(cs[idx + 1..]), key, v);
    KidUpdated(t, idx, child, h);
  }

  /** A child replaced by one of the same height and length leaves the node balanced with
    * correct lengths. */
  lemma {:induction false} KidUpdated<T>(t: Tree<T>, idx: nat, child: Tree<T>, h: nat)
    requires t.Internal? && Shape(t, h) && Cached(t) && idx < |t.children|
    requires Shape(child, h - 1) && Cached(child) && !IsRoot(child) && Len(child) == Len(t.children[idx])
    ensures Shape(Internal(t.length, t.children[idx := child], t.root), h)
    ensures Cached(Internal(t.length, t.children[idx := child], t.root))
  {
    var cs := t.children;
    var u := cs[idx := child];
    ElemsOfUpdate(cs, idx, child);
    ElemsOfAt(cs, idx);
    forall j | 0 <= j < |u| ensures Cached(u[j]) && !IsRoot(u[j]) && NonEmpty(u[j]) && NodeShape(u[j], h - 1) {
      if j != idx {
        assert u[j] == cs[j];
      }
    }
  }

  /** Replacing a child by one with as many children and the minimum fanout keeps it. */
  lemma {:induction false} KidFanout<T>(t: Tree<T>, idx: nat, child: Tree<T>)
    requires t.Internal? && Fanout(t) && idx < |t.children| && Fanout(child)
    requires !IsRoot(child) && ChildrenCount(child) == ChildrenCount(t.children[idx])
    ensures Fanout(Internal(t.length, t.children[idx := child], t.root))
  {
    var u := t.children[idx := child];
    forall j | 0 <= j < |u| ensures Fanout(u[j]) {
      if j != idx {
        assert u[j] == t.children[j];
      }
    }
  }
}
