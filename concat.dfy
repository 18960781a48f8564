/** Concatenation of two trees (`Tree::concat` and `Tree::pad_once`, src/btree.rs). */
module BTreeConcat {
  import opened BTreeNodes
  import opened BTreeQuery
  import opened BTreeFixup

  /** The trees `concat` accepts: a leaf, or a well-formed root. */
  predicate TreeOk<T>(t: Tree<T>) {
    (t.Array? && |t.items| <= ORD) || Valid(t)
  }

  lemma {:induction false} TreeOkLen<T>(t: Tree<T>)
    requires TreeOk(t)
    ensures Len(t) == |Elems(t)|
  {
    CachedLen(t);
  }

  /** `Tree::pad_once`: puts the tree, no longer a root, under a new root as its only child;
    * the represented sequence is unchanged and the height grows by one. */
  method PadOnce<T>(t: Tree<T>) returns (r: Tree<T>)
    requires TreeOk(t)
    ensures Valid(r) && Elems(r) == Elems(t) && Len(r) == Len(t) && HeightOf(r) == HeightOf(t) + 1
  {
    var child := t;
    if child.Internal? {
      child := child.(root := false);
    }
    r := Internal(Len(child), [child], true);
    ElemsOfSingle(child);
    SumLensSingle(child);
    if t.Internal? {
      ShapeHeight(t, HeightOf(t));
      assert Shape(child, HeightOf(t));
    }
  }

  // ---------------------------------------------------------------------------------------
  // Equal heights: two leaves

  /** The leaf case of `concat` at equal heights: one leaf when everything fits, otherwise two
    * leaves under a new root, the smaller one first topped up to ORD / 2 from its neighbour. */
  method ConcatLeaves<T>(a: seq<T>, b: seq<T>) returns (r: Tree<T>)
    requires |a| <= ORD && |b| <= ORD
    ensures Elems(r) == a + b
    ensures |a| + |b| <= ORD ==> r == Array(a + b)
    ensures |a| + |b| > ORD ==>
      && r.Internal? && IsRoot(r) && Shape(r, 1) && Cached(r) && |r.children| == 2
      && HALF <= ChildrenCount(r.children[0]) && HALF <= ChildrenCount(r.children[1])
  {
    if |a| + |b| <= ORD {
      return Array(a + b);
    }
    var left, right := a, b;
    if |left| < HALF {
      var toMove := HALF - |left|;
      left, right := left + right[..toMove], right[toMove..];
      assert a + b == left + right;
    } else if |right| < HALF {
      var toMove := HALF - |right|;
      var startIdx := |left| - toMove;
      left, right := left[..startIdx], left[startIdx..] + right;
      assert a + b == left + right;
    }
    var l: Tree<T> := Array(left);
    var rt: Tree<T> := Array(right);
    r := Internal(|left| + |right|, [l, rt], true);
    RootOfTwo(l, rt, 0);
  }

  /** A new root over two balanced nodes of the same height. */
  lemma {:induction false} RootOfTwo<T>(l: Tree<T>, rt: Tree<T>, h: nat)
    requires Shape(l, h) && Shape(rt, h) && Cached(l) && Cached(rt) && !IsRoot(l) && !IsRoot(rt)
    ensures var r := Internal(Len(l) + Len(rt), [l, rt], true);
      IsRoot(r) && Shape(r, h + 1) && Cached(r) && Elems(r) == Elems(l) + Elems(rt)
  {
    ElemsOfTwo(l, rt);
    assert [l, rt] == [l] + [rt];
    SumLensAppend([l], [rt]);
    SumLensSingle(l);
    SumLensSingle(rt);
  }

  // ---------------------------------------------------------------------------------------
  // Equal heights: two internal nodes

  /** The second child-moving loop of `concat`: the last `HALF - |ocs0|` children of the left
    * node move, in order, to the front of the right node's children, lengths following. */
  method MoveTailChildren<T>(cs0: seq<Tree<T>>, length0: nat, ocs0: seq<Tree<T>>, otherLength0: nat)
      returns (cs: seq<Tree<T>>, length: nat, ocs: seq<Tree<T>>, otherLength: nat)
    requires length0 == SumLens(cs0) && otherLength0 == SumLens(ocs0) && |ocs0| < HALF <= |cs0| + |ocs0|
    ensures length == SumLens(cs) && otherLength == SumLens(ocs)
    ensures var start := |cs0| - (HALF - |ocs0|);
      cs == cs0[..start] && ocs == cs0[start..] + ocs0
  {
    var toMove := HALF - |ocs0|;
    var startIdx := |cs0| - toMove;
    var moved := cs0[startIdx..];
    cs := cs0[..startIdx];
    assert cs0 == cs + moved;
    SumLensAppend(cs, moved);
    length, otherLength := length0, otherLength0;
    var newOther: seq<Tree<T>> := [];
    var i := 0;
    while i < |moved|
      invariant 0 <= i <= |moved|
      invariant newOther == moved[..i]
      invariant length == SumLens(cs) + SumLens(moved[i..]) && otherLength == otherLength0 + SumLens(newOther)
      decreases |moved| - i
    {
      var elem := moved[i];
      TakeStep(moved, i, []);
      assert [] + moved[..i] == moved[..i];
      otherLength := otherLength + Len(elem);
      length := length - Len(elem);
      newOther := newOther + [elem];
      i := i + 1;
    }
    assert moved[..i] == moved;
    ocs := newOther + ocs0;
    SumLensAppend(newOther, ocs0);
  }

  /** The internal case of `concat` at equal heights: one node holding both child lists when
    * they fit, otherwise both nodes (the smaller one topped up to ORD / 2 children) under a
    * new root. */
  method ConcatInternals<T>(a: Tree<T>, b: Tree<T>, ghost h: nat) returns (r: Tree<T>)
    requires a.Internal? && b.Internal? && a.root && Shape(a, h) && Shape(b, h) && Cached(a) && Cached(b)
    ensures IsRoot(r) && Cached(r) && Elems(r) == Elems(a) + Elems(b)
    ensures |a.children| + |b.children| <= ORD ==>
      Shape(r, h) && r == Internal(a.length + b.length, a.children + b.children, true)
    ensures |a.children| + |b.children| > ORD ==>
      && Shape(r, h + 1) && r.Internal? && |r.children| == 2
      && HALF <= ChildrenCount(r.children[0]) && HALF <= ChildrenCount(r.children[1])
  {
    if |a.children| + |b.children| <= ORD {
      GoodKidsAppend(a.children, b.children, h);
      ElemsOfAppend(a.children, b.children);
      SumLensAppend(a.children, b.children);
      r := Internal(a.length + b.length, a.children + b.children, a.root);
      KidsNode(r, h);
    } else {
      var cs, length, ocs, otherLength := Apportion(a.children, a.length, b.children, b.length);
      KidsRegrouped(a.children, b.children, cs, ocs, h);
      var left := Internal(length, cs, false);
      var right := Internal(otherLength, ocs, false);
      KidsNode(left, h);
      KidsNode(right, h);
      r := Internal(Len(left) + Len(right), [left, right], true);
      RootOfTwo(left, right, h);
    }
  }

  /** The child-moving part of the internal case when both child lists do not fit in one
    * node: the shorter list is topped up to ORD / 2 children from its neighbour's near end,
    * lengths following, and the children keep their order. */
  method Apportion<T>(cs0: seq<Tree<T>>, length0: nat, ocs0: seq<Tree<T>>, otherLength0: nat)
      returns (cs: seq<Tree<T>>, length: nat, ocs: seq<Tree<T>>, otherLength: nat)
    requires length0 == SumLens(cs0) && otherLength0 == SumLens(ocs0)
    requires |cs0| <= ORD && |ocs0| <= ORD && |cs0| + |ocs0| > ORD
    ensures length == SumLens(cs) && otherLength == SumLens(ocs)
    ensures HALF <= |cs| <= ORD && HALF <= |ocs| <= ORD
    ensures cs + ocs == cs0 + ocs0
    ensures |cs| == if |cs0| < HALF then HALF else if |ocs0| < HALF then |cs0| + |ocs0| - HALF else |cs0|
  {
    cs, length, ocs, otherLength := cs0, length0, ocs0, otherLength0;
    if |cs| < HALF {
      cs, length, ocs, otherLength := StealFirstChildren(cs, length, ocs, otherLength);
      JoinMoved(cs0, ocs0, HALF - |cs0|);
    } else if |ocs| < HALF {
      cs, length, ocs, otherLength := MoveTailChildren(cs, length, ocs, otherLength);
      SplitJoin(cs0, |cs|, ocs0);
    }
  }

  /** Moving the first m elements of b to the end of a keeps the concatenation. */
  lemma {:induction false} JoinMoved<X>(a: seq<X>, b: seq<X>, m: nat)
    requires m <= |b|
    ensures a + b == (a + b[..m]) + b[m..]
  {
    assert b == b[..m] + b[m..];
  }

  // ---------------------------------------------------------------------------------------
  // The whole operation

  /** `Tree::concat`: the tree standing for `Elems(t) + Elems(other)`. An empty side yields
    * the other; trees of different heights have the lower one padded first; at equal heights
    * the two tops are merged or apportioned, then both fringes are repaired. */
  method Concat<T>(t: Tree<T>, other: Tree<T>) returns (r: Tree<T>)
    requires TreeOk(t) && TreeOk(other)
    ensures TreeOk(r) && Elems(r) == Elems(t) + Elems(other)
    ensures t.Internal? && other.Internal? ==> Valid(r)
    ensures Elems(t) == [] ==> r == other
    ensures Elems(t) != [] && Elems(other) == [] ==> r == t
    decreases if HeightOf(t) == HeightOf(other) then 0 else 1
  {
    TreeOkLen(t);
    TreeOkLen(other);
    if Len(t) == 0 {
      return other;
    } else if Len(other) == 0 {
      return t;
    }
    var selfHeight := Height(t);
    var otherHeight := Height(other);
    if selfHeight == otherHeight {
      r := ConcatEqual(t, other);
      return;
    }
    var a, b := t, other;
    if selfHeight > otherHeight {
      for i := otherHeight to selfHeight
        invariant TreeOk(b) && Elems(b) == Elems(other) && HeightOf(b) == i
        invariant i > otherHeight ==> Valid(b)
      {
        b := PadOnce(b);
      }
    } else {
      for i := selfHeight to otherHeight
        invariant TreeOk(a) && Elems(a) == Elems(t) && HeightOf(a) == i
        invariant i > selfHeight ==> Valid(a)
      {
        a := PadOnce(a);
      }
    }
    r := Concat(a, b);
  }

  /** The equal-height part of `concat`, up to and including the two fringe repairs. */
  method ConcatEqual<T>(t: Tree<T>, other: Tree<T>) returns (r: Tree<T>)
    requires TreeOk(t) && TreeOk(other) && HeightOf(t) == HeightOf(other)
    ensures TreeOk(r) && Elems(r) == Elems(t) + Elems(other)
    ensures t.Internal? || other.Internal? ==> Valid(r)
  {
    var joined: Tree<T>;
    ghost var h: nat := 0;
    if t.Array? {
      joined := ConcatLeaves(t.items, other.items);
      if joined.Internal? {
        h := 1;
      }
    } else {
      ShapeHeight(t, HeightOf(t));
      ShapeHeight(other, HeightOf(other));
      joined := ConcatInternals(t, other, HeightOf(t));
      h := if |t.children| + |other.children| <= ORD then HeightOf(t) else HeightOf(t) + 1;
    }
    assert joined.Internal? ==> CachedOff(joined, true) by {
      if joined.Internal? {
        CachedIsCachedOff(joined, true);
      }
    }
    var fixedRight := Fixup(joined, true, h);
    if fixedRight.Internal? {
      CachedIsCachedOff(fixedRight, false);
    }
    r := Fixup(fixedRight, false, HeightOf(fixedRight));
  }
}
