/** Truncation at either end: `take_head` keeps a prefix, `drop_head` removes one; a root then
  * repairs the fringe the cut went along (src/btree.rs). */
module BTreeSlice {
  import opened BTreeNodes
  import opened BTreeQuery
  import opened BTreeFixup

  // ---------------------------------------------------------------------------------------
  // take_head

  /** `Tree::take_head`: keeps the first `key` elements. Below the root the cached lengths
    * along the cut are left stale; the root then runs `fixup` on its right fringe. */
  method TakeHead<T>(t: Tree<T>, key: nat, ghost h: nat) returns (r: Tree<T>)
    requires Shape(t, h) && Cached(t) && key <= Len(t)
    ensures key <= |Elems(t)| && Elems(r) == Elems(t)[..key]
    ensures IsRoot(t) ==> Valid(r)
    ensures !IsRoot(t) ==> Shape(r, h) && CachedOff(r, true) && !IsRoot(r) && r.Array? == t.Array?
    ensures !IsRoot(t) && key == Len(t) ==> r == t
    decreases t, 1
  {
    CachedLen(t);
    match t
    case Array(items) =>
      r := Array(items[..key]);
    case Internal(_, _, root) =>
      r := InternalTakeHead(t, key, h);
      if root {
        r := Fixup(r, true, h);
      }
  }

  /** `Internal::take_head`: nothing to do at the full length; otherwise keep the children up
    * to the routed one and cut that one, without touching `length`. */
  method InternalTakeHead<T>(t: Tree<T>, key: nat, ghost h: nat) returns (r: Tree<T>)
    requires t.Internal? && Shape(t, h) && Cached(t) && key <= t.length
    ensures r.Internal? && r.root == t.root && Shape(r, h) && CachedOff(r, true)
    ensures r.length == t.length
    ensures key == t.length ==> r == t
    ensures key <= |Elems(t)| && Elems(r) == Elems(t)[..key]
    decreases t, 0
  {
    CachedLen(t);
    if key == t.length {
      CachedIsCachedOff(t, true);
      return t;
    }
    var idx, offset := KeyToIdxAndOffset(t, key);
    RouteChild(t, key, h);
    var last := TakeHead(t.children[idx], key - offset, h - 1);
    r := Internal(t.length, t.children[..idx] + [last], t.root);
    TakenOk(t, idx, offset, key, last, h);
  }

  lemma {:induction false} TakenOk<T>(t: Tree<T>, idx: nat, offset: nat, key: nat, last: Tree<T>, h: nat)
    requires t.Internal? && Shape(t, h) && Cached(t) && key <= t.length
    requires (idx, offset) == Route(t.children, key)
    requires Shape(last, h - 1) && CachedOff(last, true) && !IsRoot(last)
    requires key - offset <= |Elems(t.children[idx])|
    requires Elems(last) == Elems(t.children[idx])[..key - offset]
    ensures var r := Internal(t.length, t.children[..idx] + [last], t.root);
      Shape(r, h) && CachedOff(r, true) && key <= |Elems(t)| && Elems(r) == Elems(t)[..key]
  {
    var cs := t.children;
    var u := cs[..idx] + [last];
    RouteCut(t, key);
    ElemsOfAppend(cs[..idx], [last]);
    ElemsOfSingle(last);
    CutMiddle(ElemsOf(cs[..idx]), Elems(cs[idx]), ElemsOf(cs[idx + 1..]), key);
    forall j | 0 <= j < |u| ensures !IsRoot(u[j]) && NonEmpty(u[j]) && NodeShape(u[j], h - 1) {
      if j < idx {
        assert u[j] == cs[j];
      }
    }
    forall j | 0 <= j < |u| && j != FringeIdx(|u|, true) ensures Cached(u[j]) {
      assert u[j] == cs[j];
    }
  }

  // ---------------------------------------------------------------------------------------
  // drop_head

  /** `Tree::drop_head`: removes the first `key` elements, keeping every cached length right;
    * the root then runs `fixup` on its left fringe. */
  method DropHead<T>(t: Tree<T>, key: nat, ghost h: nat) returns (r: Tree<T>)
    requires Shape(t, h) && Cached(t) && key <= Len(t)
    ensures key <= |Elems(t)| && Elems(r) == Elems(t)[key..]
    ensures IsRoot(t) ==> Valid(r)
    ensures !IsRoot(t) ==> Shape(r, h) && Cached(r) && !IsRoot(r) && r.Array? == t.Array?
    ensures !IsRoot(t) && key == 0 ==> r == t
    decreases t, 1
  {
    CachedLen(t);
    match t
    case Array(items) =>
      r := Array(items[key..]);
    case Internal(_, _, root) =>
      r := InternalDropHead(t, key, h);
      if root {
        CachedIsCachedOff(r, false);
        r := Fixup(r, false, h);
      }
  }

  /** `Internal::drop_head`: nothing to do for 0; otherwise subtract `key` from `length`, drop
    * the children before the routed one and cut that one. */
  method InternalDropHead<T>(t: Tree<T>, key: nat, ghost h: nat) returns (r: Tree<T>)
    requires t.Internal? && Shape(t, h) && Cached(t) && key <= t.length
    ensures r.Internal? && r.root == t.root && Shape(r, h) && Cached(r)
    ensures key == 0 ==> r == t
    ensures key <= |Elems(t)| && Elems(r) == Elems(t)[key..]
    decreases t, 0
  {
    CachedLen(t);
    if key == 0 {
      return t;
    }
    var idx, offset := KeyToIdxAndOffset(t, key);
    RouteChild(t, key, h);
    var first := DropHead(t.children[idx], key - offset, h - 1);
    CachedLen(first);
    r := Internal(t.length - key, [first] + t.children[idx + 1..], t.root);
    DroppedOk(t, idx, offset, key, first, h);
  }

  lemma {:induction false} DroppedOk<T>(t: Tree<T>, idx: nat, offset: nat, key: nat, first: Tree<T>, h: nat)
    requires t.Internal? && Shape(t, h) && Cached(t) && key <= t.length
    requires (idx, offset) == Route(t.children, key)
    requires Shape(first, h - 1) && Cached(first) && !IsRoot(first)
    requires key - offset <= |Elems(t.children[idx])|
    requires Elems(first) == Elems(t.children[idx])[key - offset..]
    ensures var r := Internal(t.length - key, [first] + t.children[idx + 1..], t.root);
      Shape(r, h) && Cached(r) && key <= |Elems(t)| && Elems(r) == Elems(t)[key..]
  {
    var cs := t.children;
    var u := [first] + cs[idx + 1..];
    RouteCut(t, key);
    CachedLen(first);
    ElemsOfAppend([first], cs[idx + 1..]);
    SumLensAppend([first], cs[idx + 1..]);
    ElemsOfSingle(first);
    SumLensSingle(first);
    CutMiddle(ElemsOf(cs[..idx]), Elems(cs[idx]), ElemsOf(cs[idx + 1..]), key);
    forall j | 0 <= j < |u| ensures Cached(u[j]) && !IsRoot(u[j]) && NonEmpty(u[j]) && NodeShape(u[j], h - 1) {
      if j > 0 {
        assert u[j] == cs[idx + j];
      }
    }
  }
}
