/** The fringe rebalancer (`Tree::fixup`, `fixup_inner`, `give_all_children_to`,
  * `steal_children_from`). After a concatenation or a truncation the nodes along one fringe of
  * the tree (its right edge when `isRight`, its left edge otherwise) may be empty, underfull or
  * carry a stale length; fixup repairs them level by level, deepest first, each fringe node
  * together with its neighbour at the same level on the inner side. */
module BTreeFixup {
  import opened BTreeNodes

  // ---------------------------------------------------------------------------------------
  // Fringes and neighbours

  /** Position of the fringe child among `n` children: the last on the right, the first on the
    * left. */
  function FringeIdx(n: nat, isRight: bool): (i: nat)
    requires n >= 1
    ensures i < n
  {
    if isRight then n - 1 else 0
  }

  /** Correct cached lengths everywhere except possibly along the fringe path from the top: the
    * state `take_head` leaves behind (it never updates lengths on its way down). */
  predicate CachedOff<T>(t: Tree<T>, isRight: bool) {
    match t
    case Array(_) => true
    case Internal(_, cs, _) =>
      (forall i | 0 <= i < |cs| && i != FringeIdx(|cs|, isRight) :: Cached(cs[i])) &&
      (|cs| >= 1 ==> CachedOff(cs[FringeIdx(|cs|, isRight)], isRight))
  }

  lemma {:induction false} CachedIsCachedOff<T>(t: Tree<T>, isRight: bool)
    requires Cached(t)
    ensures CachedOff(t, isRight)
  {
    match t
    case Array(_) =>
    case Internal(_, cs, _) =>
      if |cs| >= 1 {
        CachedIsCachedOff(cs[FringeIdx(|cs|, isRight)], isRight);
      }
  }

  /** Every child's length is correct; the node's own may be stale. */
  predicate ChildrenCached<T>(t: Tree<T>) {
    t.Array? || AllCached(t.children)
  }

  /** The node's own length is the sum of its children's (nothing said about deeper nodes). */
  predicate LengthsAdd<T>(t: Tree<T>) {
    t.Array? || t.length == SumLens(t.children)
  }

  /** The elements of a fringe node and its neighbour in left-to-right order: the neighbour
    * lies on the inner side, so it comes first on the right fringe and second on the left. */
  function PairElems<T>(f: Tree<T>, n: Option<Tree<T>>, isRight: bool): seq<T> {
    if isRight then OptElems(n) + Elems(f) else Elems(f) + OptElems(n)
  }

  // ---------------------------------------------------------------------------------------
  // Removing empty children (`retain(|c| c.len() > 0)`)

  /** The children whose length is positive, in order. */
  function Retain<T>(cs: seq<Tree<T>>): (r: seq<Tree<T>>)
    ensures |r| <= |cs|
    ensures forall i | 0 <= i < |r| :: r[i] in cs && Len(r[i]) > 0
    ensures forall i | 0 <= i < |cs| && Len(cs[i]) > 0 :: cs[i] in r
  {
    if cs == [] then []
    else if Len(cs[0]) > 0 then [cs[0]] + Retain(cs[1..])
    else Retain(cs[1..])
  }

  /** Zero-length children add nothing to the summed length. */
  lemma {:induction false} RetainLens<T>(cs: seq<Tree<T>>)
    ensures SumLens(Retain(cs)) == SumLens(cs)
  {
    if cs != [] {
      RetainLens(cs[1..]);
      if Len(cs[0]) > 0 {
        SumLensAppend([cs[0]], Retain(cs[1..]));
        SumLensSingle(cs[0]);
      }
    }
  }

  /** With correct lengths, zero-length children hold no elements. */
  lemma {:induction false} RetainElems<T>(cs: seq<Tree<T>>)
    requires AllCached(cs)
    ensures ElemsOf(Retain(cs)) == ElemsOf(cs)
  {
    if cs != [] {
      assert AllCached(cs[1..]) by {
        forall i | 0 <= i < |cs| - 1 ensures Cached(cs[1..][i]) {
          assert cs[1..][i] == cs[i + 1];
        }
      }
      RetainElems(cs[1..]);
      var rest := Retain(cs[1..]);
      if Len(cs[0]) > 0 {
        assert Retain(cs) == [cs[0]] + rest;
        ElemsOfAppend([cs[0]], rest);
        ElemsOfSingle(cs[0]);
      } else {
        assert Retain(cs) == rest;
        CachedLen(cs[0]);
      }
    }
  }

  /** With correct lengths, dropping the zero-length children loses no element and no length. */
  lemma {:induction false} RetainKeeps<T>(cs: seq<Tree<T>>)
    requires AllCached(cs)
    ensures ElemsOf(Retain(cs)) == ElemsOf(cs) && SumLens(Retain(cs)) == SumLens(cs)
    ensures AllCached(Retain(cs))
  {
    RetainLens(cs);
    RetainElems(cs);
  }

  /** The two-step clean-up `fixup_inner` applies to an internal node: drop zero-length
    * children, then recompute the length. The result is balanced at the same height with every
    * child non-empty, and represents the same elements. */
  lemma {:induction false} TrimFacts<T>(t: Tree<T>, h: nat)
    requires t.Internal? && LooseShape(t, h) && ChildrenCached(t)
    ensures var cs := Retain(t.children);
      var u := Internal(SumLens(cs), cs, t.root);
      && Cached(u) && NodeShape(u, h) && Elems(u) == Elems(t) && |cs| <= |t.children|
      && forall i | 0 <= i < |cs| :: Shape(cs[i], h - 1)
  {
    var cs := Retain(t.children);
    RetainKeeps(t.children);
    forall i | 0 <= i < |cs| ensures Shape(cs[i], h - 1) {
      NodeShapePositive(cs[i], h - 1);
    }
  }

  // ---------------------------------------------------------------------------------------
  // Merging and borrowing between a fringe node and its neighbour

  /** `Tree::give_all_children_to`: the fringe node `node` hands every child (or element) to its
    * neighbour `other`, which keeps them in left-to-right order; `node` is left empty. */
  method GiveAllChildrenTo<T>(node: Tree<T>, other: Tree<T>, isRight: bool) returns (node': Tree<T>, other': Tree<T>)
    requires node.Array? == other.Array?
    ensures node.Array? ==>
      node' == Array([]) &&
      other' == Array(if isRight then other.items + node.items else node.items + other.items)
    ensures node.Internal? ==>
      node' == Internal(0, [], node.root) &&
      other' == Internal(other.length + node.length,
        if isRight then other.children + node.children else node.children + other.children, other.root)
    ensures node'.Array? == node.Array? && IsRoot(other') == IsRoot(other)
    ensures Len(node') == 0 && Elems(node') == [] && Len(node') + Len(other') == Len(node) + Len(other)
    ensures PairElems(node', Some(other'), isRight) == PairElems(node, Some(other), isRight)
    ensures LengthsAdd(node) && LengthsAdd(other) ==> LengthsAdd(node') && LengthsAdd(other')
  {
    match other
    case Array(items) =>
      if isRight {
        other' := Array(items + node.items);
      } else {
        other' := Array(node.items + items);
      }
      node' := Array([]);
    case Internal(length, cs, root) =>
      var moved := if isRight then cs + node.children else node.children + cs;
      other' := Internal(length + node.length, moved, root);
      node' := Internal(0, [], node.root);
      if isRight {
        ElemsOfAppend(cs, node.children);
        SumLensAppend(cs, node.children);
      } else {
        ElemsOfAppend(node.children, cs);
        SumLensAppend(node.children, cs);
      }
  }

  /** `Tree::steal_children_from`, leaf case: the underfull leaf `node` takes elements from the
    * near end of its neighbour until it holds ORD / 2. */
  method StealItems<T>(node: seq<T>, other: seq<T>, isRight: bool) returns (node': seq<T>, other': seq<T>)
    requires !isRight ==> |node| <= HALF
    requires HALF <= |node| + |other|
    ensures var m := if |node| < HALF then HALF - |node| else 0;
      && m <= |other|
      && (isRight ==> node' == other[|other| - m..] + node && other' == other[..|other| - m])
      && (!isRight ==> node' == node + other[..m] && other' == other[m..])
    ensures |node'| == if |node| < HALF then HALF else |node|
    ensures |node'| + |other'| == |node| + |other|
    ensures if isRight then other' + node' == other + node else node' + other' == node + other
  {
    node', other' := node, other;
    if isRight {
      while |node'| < HALF
        invariant |other'| <= |other| && |node'| + |other'| == |node| + |other|
        invariant |node'| <= HALF || |other'| == |other|
        invariant other' == other[..|other'|] && node' == other[|other'|..] + node
        decreases HALF - |node'|
      {
        var last := other'[|other'| - 1];
        PrependLast(other, |other'|, node);
        node' := [last] + node';
        other' := other'[..|other'| - 1];
      }
    } else {
      var toMove := HALF - |node'|;
      node' := node' + other'[..toMove];
      other' := other'[toMove..];
    }
  }

  /** `Tree::steal_children_from`, internal case: the underfull node `node` takes children
    * from the near end of its neighbour until it has ORD / 2, moving each child's length
    * along with it. */
  method StealChildren<T>(node: Tree<T>, other: Tree<T>, isRight: bool) returns (node': Tree<T>, other': Tree<T>)
    requires node.Internal? && other.Internal? && LengthsAdd(node) && LengthsAdd(other)
    requires !isRight ==> |node.children| <= HALF
    requires HALF <= |node.children| + |other.children|
    ensures node'.Internal? && other'.Internal? && LengthsAdd(node') && LengthsAdd(other')
    ensures node'.root == node.root && other'.root == other.root
    ensures var cs, ocs := node.children, other.children;
      var m := if |cs| < HALF then HALF - |cs| else 0;
      && m <= |ocs|
      && (isRight ==> node'.children == ocs[|ocs| - m..] + cs && other'.children == ocs[..|ocs| - m])
      && (!isRight ==> node'.children == cs + ocs[..m] && other'.children == ocs[m..])
    ensures |node'.children| == if |node.children| < HALF then HALF else |node.children|
    ensures |node'.children| + |other'.children| == |node.children| + |other.children|
    ensures Len(node') + Len(other') == Len(node) + Len(other)
    ensures PairElems(node', Some(other'), isRight) == PairElems(node, Some(other), isRight)
    ensures if isRight then other'.children + node'.children == other.children + node.children
      else node'.children + other'.children == node.children + other.children
  {
    var cs, ocs := node.children, other.children;
    var cs', length', ocs', otherLength';
    if isRight {
      cs', length', ocs', otherLength' := StealLastChildren(cs, node.length, ocs, other.length);
    } else {
      cs', length', ocs', otherLength' := StealFirstChildren(cs, node.length, ocs, other.length);
    }
    node', other' := Internal(length', cs', node.root), Internal(otherLength', ocs', other.root);
    StealCounts(cs, ocs, cs', ocs', isRight);
    StolenElems(node, other, node', other', isRight);
  }

  /** What the borrowing does to the two child lists: the node ends with max(ORD / 2, its
    * count) children and the two lists still join up to the same sequence. */
  lemma {:induction false} StealCounts<T>(cs: seq<Tree<T>>, ocs: seq<Tree<T>>, cs': seq<Tree<T>>, ocs': seq<Tree<T>>, isRight: bool)
    requires !isRight ==> |cs| <= HALF
    requires HALF <= |cs| + |ocs|
    requires var m := if |cs| < HALF then HALF - |cs| else 0;
      && m <= |ocs|
      && (isRight ==> cs' == ocs[|ocs| - m..] + cs && ocs' == ocs[..|ocs| - m])
      && (!isRight ==> cs' == cs + ocs[..m] && ocs' == ocs[m..])
    ensures |cs'| == if |cs| < HALF then HALF else |cs|
    ensures |cs'| + |ocs'| == |cs| + |ocs|
    ensures if isRight then ocs' + cs' == ocs + cs else cs' + ocs' == cs + ocs
  {
    var m := if |cs| < HALF then HALF - |cs| else 0;
    if isRight {
      SplitJoin(ocs, |ocs| - m, cs);
    } else {
      assert ocs == ocs[..m] + ocs[m..];
    }
  }

  /** The right-fringe branch of `steal_children_from`: pop the neighbour's last child and put
    * it in front of the node's children, moving its length along, until the node has
    * ORD / 2 children. Works on the two nodes' child lists and lengths. */
  method StealLastChildren<T>(cs0: seq<Tree<T>>, length0: nat, ocs0: seq<Tree<T>>, otherLength0: nat)
      returns (cs: seq<Tree<T>>, length: nat, ocs: seq<Tree<T>>, otherLength: nat)
    requires length0 == SumLens(cs0) && otherLength0 == SumLens(ocs0) && HALF <= |cs0| + |ocs0|
    ensures length == SumLens(cs) && otherLength == SumLens(ocs)
    ensures var m := if |cs0| < HALF then HALF - |cs0| else 0;
      m <= |ocs0| && cs == ocs0[|ocs0| - m..] + cs0 && ocs == ocs0[..|ocs0| - m]
  {
    cs, ocs, length, otherLength := cs0, ocs0, length0, otherLength0;
    ghost var k := |ocs|;
    assert ocs == ocs0[..k];
    while |cs| < HALF
      invariant k <= |ocs0| && |cs| + k == |cs0| + |ocs0|
      invariant k < |ocs0| ==> |cs| <= HALF
      invariant ocs == ocs0[..k] && cs == ocs0[k..] + cs0
      invariant length == SumLens(cs) && otherLength == SumLens(ocs)
      decreases HALF - |cs|
    {
      var child := ocs[|ocs| - 1];
      StealStep(ocs0, k, cs0);
      otherLength := otherLength - Len(child);
      length := length + Len(child);
      cs := [child] + cs;
      ocs := ocs[..|ocs| - 1];
      k := k - 1;
    }
  }

  /** One step of the right-fringe borrowing loop: the last of the first k children moves to
    * the front of the rest, together with its length. */
  lemma {:induction false} StealStep<T>(all: seq<Tree<T>>, k: nat, tail: seq<Tree<T>>)
    requires 0 < k <= |all|
    ensures all[..k][k - 1] == all[k - 1] && all[..k][..k - 1] == all[..k - 1]
    ensures [all[k - 1]] + (all[k..] + tail) == all[k - 1..] + tail
    ensures SumLens(all[..k]) == SumLens(all[..k - 1]) + Len(all[k - 1])
    ensures SumLens([all[k - 1]] + (all[k..] + tail)) == Len(all[k - 1]) + SumLens(all[k..] + tail)
  {
    PrependLast(all, k, tail);
    MoveLast(all[..k]);
    SumLensAppend([all[k - 1]], all[k..] + tail);
    SumLensSingle(all[k - 1]);
  }

  /** The left-fringe branch of `steal_children_from`: move the neighbour's first
    * ORD / 2 - |children| children to the end of the node's, one at a time, moving their
    * lengths along. Works on the two nodes' child lists and lengths. */
  method StealFirstChildren<T>(cs0: seq<Tree<T>>, length0: nat, ocs0: seq<Tree<T>>, otherLength0: nat)
      returns (cs: seq<Tree<T>>, length: nat, ocs: seq<Tree<T>>, otherLength: nat)
    requires length0 == SumLens(cs0) && otherLength0 == SumLens(ocs0) && |cs0| <= HALF <= |cs0| + |ocs0|
    ensures length == SumLens(cs) && otherLength == SumLens(ocs)
    ensures var m := HALF - |cs0|; cs == cs0 + ocs0[..m] && ocs == ocs0[m..]
  {
    cs, ocs, length, otherLength := cs0, ocs0, length0, otherLength0;
    var toMove := HALF - |cs|;
    var moved := ocs[..toMove];
    ocs := ocs[toMove..];
    assert ocs0 == moved + ocs;
    SumLensAppend(moved, ocs);
    assert moved[0..] == moved;
    var i := 0;
    while i < toMove
      invariant 0 <= i <= toMove
      invariant cs == cs0 + moved[..i]
      invariant length == SumLens(cs) && otherLength == SumLens(moved[i..]) + SumLens(ocs)
      decreases toMove - i
    {
      var child := moved[i];
      TakeStep(moved, i, cs0);
      otherLength := otherLength - Len(child);
      length := length + Len(child);
      cs := cs + [child];
      i := i + 1;
    }
    assert moved[..i] == moved;
  }

  /** One step of the left-fringe borrowing loop: child i moves from the rest of the
    * borrowed run to the end of the node's children, together with its length. */
  lemma {:induction false} TakeStep<T>(moved: seq<Tree<T>>, i: nat, cs: seq<Tree<T>>)
    requires i < |moved|
    ensures SumLens(moved[i..]) == Len(moved[i]) + SumLens(moved[i + 1..])
    ensures cs + moved[..i] + [moved[i]] == cs + moved[..i + 1]
    ensures SumLens(cs + moved[..i] + [moved[i]]) == SumLens(cs + moved[..i]) + Len(moved[i])
  {
    assert moved[i..] == [moved[i]] + moved[i + 1..];
    SumLensAppend([moved[i]], moved[i + 1..]);
    SumLensSingle(moved[i]);
    SumLensAppend(cs + moved[..i], [moved[i]]);
    assert moved[..i + 1] == moved[..i] + [moved[i]];
  }

  /** Cutting a sequence and gluing it back. */
  lemma {:induction false} SplitJoin<X>(s: seq<X>, j: nat, tail: seq<X>)
    requires j <= |s|
    ensures s[..j] + (s[j..] + tail) == s + tail
  {
    assert s == s[..j] + s[j..];
  }

  /** Moving the last element of a prefix to the front of what follows it. */
  lemma {:induction false} PrependLast<X>(s: seq<X>, k: nat, tail: seq<X>)
    requires 0 < k <= |s|
    ensures [s[k - 1]] + (s[k..] + tail) == s[k - 1..] + tail
    ensures s[..k][..k - 1] == s[..k - 1] && s[..k][k - 1] == s[k - 1]
  {
    assert s[k - 1..] == [s[k - 1]] + s[k..];
  }

  /** Dropping the last child removes its length from the total. */
  lemma {:induction false} MoveLast<T>(cs: seq<Tree<T>>)
    requires |cs| >= 1
    ensures SumLens(cs) == SumLens(cs[..|cs| - 1]) + Len(cs[|cs| - 1])
  {
    assert cs == cs[..|cs| - 1] + [cs[|cs| - 1]];
    SumLensAppend(cs[..|cs| - 1], [cs[|cs| - 1]]);
    SumLensSingle(cs[|cs| - 1]);
  }

  /** Moving children across the boundary between two neighbours keeps their combined
    * elements and lengths. */
  lemma {:induction false} StolenElems<T>(node: Tree<T>, other: Tree<T>, node': Tree<T>, other': Tree<T>, isRight: bool)
    requires node.Internal? && other.Internal? && node'.Internal? && other'.Internal?
    requires LengthsAdd(node) && LengthsAdd(other) && LengthsAdd(node') && LengthsAdd(other')
    requires isRight ==> other'.children + node'.children == other.children + node.children
    requires !isRight ==> node'.children + other'.children == node.children + other.children
    ensures Len(node') + Len(other') == Len(node) + Len(other)
    ensures PairElems(node', Some(other'), isRight) == PairElems(node, Some(other), isRight)
  {
    if isRight {
      ElemsOfAppend(other'.children, node'.children);
      ElemsOfAppend(other.children, node.children);
      SumLensAppend(other'.children, node'.children);
      SumLensAppend(other.children, node.children);
    } else {
      ElemsOfAppend(node'.children, other'.children);
      ElemsOfAppend(node.children, other.children);
      SumLensAppend(node'.children, other'.children);
      SumLensAppend(node.children, other.children);
    }
  }

  /** `Tree::steal_children_from`: the underfull fringe node takes children (or elements) from
    * its neighbour's near end until it has ORD / 2 of them. */
  method StealChildrenFrom<T>(node: Tree<T>, other: Tree<T>, isRight: bool) returns (node': Tree<T>, other': Tree<T>)
    requires node.Array? == other.Array? && LengthsAdd(node) && LengthsAdd(other)
    requires !isRight ==> ChildrenCount(node) <= HALF
    requires HALF <= ChildrenCount(node) + ChildrenCount(other)
    ensures node'.Array? == node.Array? && other'.Array? == other.Array? && LengthsAdd(node') && LengthsAdd(other')
    ensures IsRoot(node') == IsRoot(node) && IsRoot(other') == IsRoot(other)
    ensures ChildrenCount(node') == if ChildrenCount(node) < HALF then HALF else ChildrenCount(node)
    ensures ChildrenCount(node') + ChildrenCount(other') == ChildrenCount(node) + ChildrenCount(other)
    ensures Len(node') + Len(other') == Len(node) + Len(other)
    ensures PairElems(node', Some(other'), isRight) == PairElems(node, Some(other), isRight)
    ensures node.Internal? ==>
      if isRight then other'.children + node'.children == other.children + node.children
      else node'.children + other'.children == node.children + other.children
  {
    match other
    case Array(items) =>
      var a, b := StealItems(node.items, items, isRight);
      node', other' := Array(a), Array(b);
    case Internal(_, _, _) =>
      node', other' := StealChildren(node, other, isRight);
  }

  // ---------------------------------------------------------------------------------------
  // One step of the rebalancer

  /** Children that are balanced at height h - 1, non-empty, non-root and correctly cached. */
  predicate GoodKids<T>(cs: seq<Tree<T>>, h: nat) {
    h >= 1 && forall i | 0 <= i < |cs| :: !IsRoot(cs[i]) && Shape(cs[i], h - 1) && Cached(cs[i])
  }

  lemma {:induction false} GoodKidsAppend<T>(a: seq<Tree<T>>, b: seq<Tree<T>>, h: nat)
    requires h >= 1
    ensures GoodKids(a + b, h) <==> GoodKids(a, h) && GoodKids(b, h)
  {
    if GoodKids(a, h) && GoodKids(b, h) {
      forall i | 0 <= i < |a + b| ensures !IsRoot((a + b)[i]) && Shape((a + b)[i], h - 1) && Cached((a + b)[i]) {
        if i >= |a| {
          assert (a + b)[i] == b[i - |a|];
        }
      }
    }
    if GoodKids(a + b, h) {
      forall i | 0 <= i < |b| ensures !IsRoot(b[i]) && Shape(b[i], h - 1) && Cached(b[i]) {
        assert (a + b)[|a| + i] == b[i];
      }
      forall i | 0 <= i < |a| ensures !IsRoot(a[i]) && Shape(a[i], h - 1) && Cached(a[i]) {
        assert (a + b)[i] == a[i];
      }
    }
  }

  /** Regrouping the same run of children into two different parts keeps every child good
    * and the elements in order. */
  lemma {:induction false} KidsRegrouped<T>(acs: seq<Tree<T>>, bcs: seq<Tree<T>>, lcs: seq<Tree<T>>, rcs: seq<Tree<T>>, h: nat)
    requires GoodKids(acs, h) && GoodKids(bcs, h) && lcs + rcs == acs + bcs
    ensures GoodKids(lcs, h) && GoodKids(rcs, h)
    ensures ElemsOf(lcs) + ElemsOf(rcs) == ElemsOf(acs) + ElemsOf(bcs)
  {
    GoodKidsAppend(acs, bcs, h);
    GoodKidsAppend(lcs, rcs, h);
    ElemsOfAppend(acs, bcs);
    ElemsOfAppend(lcs, rcs);
  }

  /** An internal node of good children, at most ORD of them, whose length adds up. */
  lemma {:induction false} KidsNode<T>(t: Tree<T>, h: nat)
    requires t.Internal? && h >= 1 && |t.children| <= ORD && LengthsAdd(t) && GoodKids(t.children, h)
    ensures NodeShape(t, h) && Cached(t)
  {
  }

  /** The clean-up at the start of `fixup_inner`: an internal node loses its zero-length
    * children and has its length recomputed; a leaf is left alone. */
  function Trim<T>(t: Tree<T>): (r: Tree<T>)
    ensures r.Internal? == t.Internal? && IsRoot(r) == IsRoot(t) && ChildrenCount(r) <= ChildrenCount(t)
    ensures t.Array? ==> r == t
    ensures r.Internal? ==> r.length == SumLens(r.children) && forall i | 0 <= i < |r.children| :: Len(r.children[i]) > 0
  {
    match t
    case Array(_) => t
    case Internal(_, cs, root) => Internal(SumLens(Retain(cs)), Retain(cs), root)
  }

  lemma {:induction false} TrimOk<T>(t: Tree<T>, h: nat)
    requires LooseShape(t, h) && ChildrenCached(t)
    ensures Trim(t).Internal? == t.Internal? && IsRoot(Trim(t)) == IsRoot(t)
    ensures Cached(Trim(t)) && NodeShape(Trim(t), h) && Elems(Trim(t)) == Elems(t)
    ensures ChildrenCount(Trim(t)) <= ChildrenCount(t)
    ensures t.Internal? ==> GoodKids(Trim(t).children, h)
  {
    if t.Internal? {
      TrimFacts(t, h);
      var cs := Retain(t.children);
      forall i | 0 <= i < |cs| ensures !IsRoot(cs[i]) && Cached(cs[i]) {
        RetainKeeps(t.children);
      }
    }
  }

  /** `Tree::fixup_inner`: trims the fringe node and its neighbour, then either declares the
    * fringe node the new root (no neighbour), leaves it (already ORD / 2 children), merges it
    * into the neighbour (both fit in ORD) or borrows from the neighbour. */
  method FixupInner<T>(f: Tree<T>, n: Option<Tree<T>>, isRight: bool, ghost h: nat)
      returns (f': Tree<T>, n': Option<Tree<T>>, atNewRoot: bool)
    requires LooseShape(f, h) && ChildrenCached(f)
    requires n.Some? ==> LooseShape(n.value, h) && ChildrenCached(n.value) && !IsRoot(n.value) && !IsRoot(f)
    ensures n'.Some? == n.Some? && f'.Internal? == f.Internal?
    ensures atNewRoot <==> n.None? && f.Internal?
    ensures IsRoot(f') <==> IsRoot(f) || atNewRoot
    ensures Cached(f') && (!IsRoot(f) ==> NodeShape(f', h)) && (IsRoot(f) ==> Valid(f'))
    ensures n'.Some? ==> Cached(n'.value) && NodeShape(n'.value, h) && !IsRoot(n'.value)
    ensures n.None? && f.Array? ==> f' == f
    ensures PairElems(f', n', isRight) == PairElems(f, n, isRight)
    ensures n.Some? ==> ChildrenCount(f') == 0 || ChildrenCount(f') >= HALF
  {
    TrimOk(f, h);
    var g := Trim(f);
    if g.Internal? && g.root && g.children == [] {
      g := g.(children := [Array([])]);
      var empty: Tree<T> := Array([]);
      SumLensSingle(empty);
      ElemsOfSingle(empty);
    }
    match n
    case None =>
      if g.Internal? {
        f', atNewRoot := g.(root := true), true;
      } else {
        f', atNewRoot := g, false;
      }
      n' := None;
      RootOk(f, g, f', h);
    case Some(nb) =>
      TrimOk(nb, h);
      var m := Trim(nb);
      atNewRoot := false;
      if ChildrenCount(g) >= HALF {
        f', n' := g, Some(m);
      } else if ChildrenCount(g) + ChildrenCount(m) <= ORD {
        var a, b := GiveAllChildrenTo(g, m, isRight);
        if g.Internal? {
          if isRight {
            GoodKidsAppend(m.children, g.children, h);
          } else {
            GoodKidsAppend(g.children, m.children, h);
          }
          KidsNode(b, h);
        }
        f', n' := a, Some(b);
      } else {
        var a, b := StealChildrenFrom(g, m, isRight);
        if g.Internal? {
          if isRight {
            KidsRegrouped(m.children, g.children, b.children, a.children, h);
          } else {
            KidsRegrouped(g.children, m.children, a.children, b.children, h);
          }
          KidsNode(a, h);
          KidsNode(b, h);
        }
        f', n' := a, Some(b);
      }
  }

  /** The no-neighbour case of `fixup_inner` keeps a well-formed node; a trimmed root that lost
    * every child gets a single empty leaf and so is a valid root of height 1. */
  lemma {:induction false} RootOk<T>(f: Tree<T>, g: Tree<T>, f': Tree<T>, h: nat)
    requires LooseShape(f, h) && ChildrenCached(f)
    requires g == (if IsRoot(f) && Trim(f).children == [] then Trim(f).(children := [Array([])]) else Trim(f))
    requires f' == (if g.Internal? then g.(root := true) else g)
    ensures Cached(f') && (!IsRoot(f) ==> NodeShape(f', h)) && (IsRoot(f) ==> Valid(f'))
  {
    TrimOk(f, h);
    if IsRoot(f) {
      if Trim(f).children == [] {
        assert f' == NewTree<T>();
      } else {
        assert Shape(f', h);
        ShapeHeight(f', h);
      }
    }
  }

  // ---------------------------------------------------------------------------------------
  // The walk down the fringe

  lemma {:induction false} PairNone<T>(f: Tree<T>, isRight: bool)
    ensures PairElems(f, None, isRight) == Elems(f)
  {
  }

  lemma {:induction false} NodeShapeLoose<T>(t: Tree<T>, h: nat)
    requires NodeShape(t, h)
    ensures LooseShape(t, h)
  {
  }


  /** Children that may stand below a loosely balanced node of height h. */
  predicate LooseKids<T>(cs: seq<Tree<T>>, h: nat) {
    h >= 1 && forall j | 0 <= j < |cs| :: Cached(cs[j]) && !IsRoot(cs[j]) && NodeShape(cs[j], h - 1)
  }

  /** A repaired child in the fringe position makes every child of the node acceptable. */
  lemma {:induction false} FringeReplaced<T>(f: Tree<T>, c: Tree<T>, isRight: bool, h: nat)
    requires f.Internal? && Shape(f, h) && CachedOff(f, isRight)
    requires Cached(c) && NodeShape(c, h - 1) && !IsRoot(c)
    ensures LooseKids(f.children[FringeIdx(|f.children|, isRight) := c], h)
  {
    var cs := f.children;
    var fi := FringeIdx(|cs|, isRight);
    var u := cs[fi := c];
    forall j | 0 <= j < |u| ensures Cached(u[j]) {
      if j != fi {
        assert u[j] == cs[j];
      }
    }
  }

  lemma {:induction false} KidReplaced<T>(cs: seq<Tree<T>>, j: nat, c: Tree<T>, h: nat)
    requires j < |cs| && h >= 1 && LooseKids(cs, h)
    requires Cached(c) && NodeShape(c, h - 1) && !IsRoot(c)
    ensures LooseKids(cs[j := c], h)
  {
  }

  lemma {:induction false} ElemsOfThree<T>(x: seq<Tree<T>>, m: seq<Tree<T>>, y: seq<Tree<T>>)
    ensures ElemsOf(x + m + y) == ElemsOf(x) + ElemsOf(m) + ElemsOf(y)
  {
    ElemsOfAppend(x + m, y);
    ElemsOfAppend(x, m);
  }

  lemma {:induction false} ElemsOfTwo<T>(a: Tree<T>, b: Tree<T>)
    ensures ElemsOf([a, b]) == Elems(a) + Elems(b)
  {
    assert [a, b] == [a] + [b];
    ElemsOfAppend([a], [b]);
    ElemsOfSingle(a);
    ElemsOfSingle(b);
  }

  lemma {:induction false} Regroup<X>(x: seq<X>, a: seq<X>, b: seq<X>, c: seq<X>, d: seq<X>)
    requires a + b == c + d
    ensures x + a + b == x + c + d
  {
    assert x + a + b == x + (a + b);
    assert x + c + d == x + (c + d);
  }

  lemma {:induction false} RegroupLeft<X>(a: seq<X>, b: seq<X>, c: seq<X>, d: seq<X>, y: seq<X>)
    requires a + b == c + d
    ensures a + (b + y) == c + (d + y)
  {
    assert a + (b + y) == (a + b) + y;
    assert c + (d + y) == (c + d) + y;
  }

  /** Replacing two adjacent children by two with the same elements in all keeps the elements. */
  lemma {:induction false} PairReplacedElems<T>(cs: seq<Tree<T>>, i: nat, a: Tree<T>, b: Tree<T>)
    requires i + 1 < |cs|
    requires Elems(a) + Elems(b) == Elems(cs[i]) + Elems(cs[i + 1])
    ensures ElemsOf(cs[i := a][i + 1 := b]) == ElemsOf(cs)
  {
    assert cs[i := a][i + 1 := b] == cs[..i] + [a, b] + cs[i + 2..];
    assert cs == cs[..i] + [cs[i], cs[i + 1]] + cs[i + 2..];
    ElemsOfThree(cs[..i], [a, b], cs[i + 2..]);
    ElemsOfThree(cs[..i], [cs[i], cs[i + 1]], cs[i + 2..]);
    ElemsOfTwo(a, b);
    ElemsOfTwo(cs[i], cs[i + 1]);
  }

  /** The fringe child and its neighbour were siblings (children i and i + 1): putting both
    * repaired children back keeps the node's elements and leaves it loosely balanced. */
  lemma {:induction false} SiblingsRebuilt<T>(f: Tree<T>, i: nat, a: Tree<T>, b: Tree<T>, isRight: bool, h: nat)
    requires f.Internal? && Shape(f, h) && CachedOff(f, isRight) && |f.children| >= 2
    requires i == if isRight then |f.children| - 2 else 0
    requires Cached(a) && NodeShape(a, h - 1) && !IsRoot(a)
    requires Cached(b) && NodeShape(b, h - 1) && !IsRoot(b)
    requires Elems(a) + Elems(b) == Elems(f.children[i]) + Elems(f.children[i + 1])
    ensures var fr := Internal(f.length, f.children[i := a][i + 1 := b], f.root);
      LooseShape(fr, h) && ChildrenCached(fr) && Elems(fr) == Elems(f) && IsRoot(fr) == IsRoot(f)
  {
    var cs := f.children;
    PairReplacedElems(cs, i, a, b);
    if isRight {
      FringeReplaced(f, b, isRight, h);
      KidReplaced(cs[i + 1 := b], i, a, h);
      assert cs[i + 1 := b][i := a] == cs[i := a][i + 1 := b];
    } else {
      FringeReplaced(f, a, isRight, h);
      KidReplaced(cs[i := a], i + 1, b, h);
    }
  }

  /** The elements of a fringe child and its cousin, the near child of the neighbour. */
  lemma {:induction false} CousinElems<T>(nc: seq<Tree<T>>, cn: Tree<T>, c0: Tree<T>, cf: Tree<T>, isRight: bool)
    requires |nc| >= 1
    requires PairElems(cf, Some(cn), isRight) == PairElems(c0, Some(nc[FringeIdx(|nc|, isRight)]), isRight)
    ensures var u := nc[FringeIdx(|nc|, isRight) := cn];
      if isRight then ElemsOf(u) + Elems(cf) == ElemsOf(nc) + Elems(c0)
      else Elems(cf) + ElemsOf(u) == Elems(c0) + ElemsOf(nc)
  {
    if isRight {
      CousinElemsRight(nc, cn, c0, cf);
    } else {
      CousinElemsLeft(nc, cn, c0, cf);
    }
  }

  lemma {:induction false} LastSplit<X>(s: seq<X>, c: X)
    requires |s| >= 1
    ensures s == s[..|s| - 1] + [s[|s| - 1]] && s[|s| - 1 := c] == s[..|s| - 1] + [c]
  {
  }

  lemma {:induction false} HeadSplit<X>(s: seq<X>, c: X)
    requires |s| >= 1
    ensures s == [s[0]] + s[1..] && s[0 := c] == [c] + s[1..]
  {
  }

  lemma {:induction false} CousinElemsRight<T>(nc: seq<Tree<T>>, cn: Tree<T>, c0: Tree<T>, cf: Tree<T>)
    requires |nc| >= 1
    requires Elems(cn) + Elems(cf) == Elems(nc[|nc| - 1]) + Elems(c0)
    ensures ElemsOf(nc[|nc| - 1 := cn]) + Elems(cf) == ElemsOf(nc) + Elems(c0)
  {
    var ni := |nc| - 1;
    var x := nc[..ni];
    LastSplit(nc, cn);
    ElemsOfAppend(x, [nc[ni]]);
    ElemsOfAppend(x, [cn]);
    ElemsOfSingle(nc[ni]);
    ElemsOfSingle(cn);
    Regroup(ElemsOf(x), Elems(cn), Elems(cf), Elems(nc[ni]), Elems(c0));
  }

  lemma {:induction false} CousinElemsLeft<T>(nc: seq<Tree<T>>, cn: Tree<T>, c0: Tree<T>, cf: Tree<T>)
    requires |nc| >= 1
    requires Elems(cf) + Elems(cn) == Elems(c0) + Elems(nc[0])
    ensures Elems(cf) + ElemsOf(nc[0 := cn]) == Elems(c0) + ElemsOf(nc)
  {
    var y := nc[1..];
    HeadSplit(nc, cn);
    ElemsOfAppend([nc[0]], y);
    ElemsOfAppend([cn], y);
    ElemsOfSingle(nc[0]);
    ElemsOfSingle(cn);
    RegroupLeft(Elems(cf), Elems(cn), Elems(c0), Elems(nc[0]), ElemsOf(y));
  }

  /** The fringe child was its parent's only child and the neighbour is the near child of
    * the parent's neighbour: putting both back keeps the pair's elements. */
  lemma {:induction false} CousinsRebuilt<T>(f: Tree<T>, n: Tree<T>, cf: Tree<T>, cn: Tree<T>, isRight: bool, h: nat)
    requires f.Internal? && Shape(f, h) && CachedOff(f, isRight) && |f.children| == 1 && !IsRoot(f)
    requires n.Internal? && Shape(n, h) && Cached(n) && !IsRoot(n)
    requires Cached(cf) && NodeShape(cf, h - 1) && !IsRoot(cf)
    requires Cached(cn) && NodeShape(cn, h - 1) && !IsRoot(cn)
    requires var ni := FringeIdx(|n.children|, isRight);
      PairElems(cf, Some(cn), isRight) == PairElems(f.children[0], Some(n.children[ni]), isRight)
    ensures var ni := FringeIdx(|n.children|, isRight);
      var fr := f.(children := [cf]);
      var nn := n.(children := n.children[ni := cn]);
      && LooseShape(fr, h) && ChildrenCached(fr) && !IsRoot(fr)
      && LooseShape(nn, h) && ChildrenCached(nn) && !IsRoot(nn)
      && PairElems(fr, Some(nn), isRight) == PairElems(f, Some(n), isRight)
  {
    var nc := n.children;
    var ni := FringeIdx(|nc|, isRight);
    ElemsOfSingle(cf);
    ElemsOfSingle(f.children[0]);
    assert f.children == [f.children[0]];
    CousinElems(nc, cn, f.children[0], cf, isRight);
    assert LooseKids(nc, h);
    KidReplaced(nc, ni, cn, h);
    assert LooseKids([cf], h);
  }

  /** The fringe child was its parent's only child and there is no neighbour. */
  lemma {:induction false} OnlyRebuilt<T>(f: Tree<T>, cf: Tree<T>, h: nat)
    requires f.Internal? && Shape(f, h) && |f.children| == 1
    requires Cached(cf) && NodeShape(cf, h - 1) && !IsRoot(cf) && Elems(cf) == Elems(f.children[0])
    ensures var fr := f.(children := [cf]);
      LooseShape(fr, h) && ChildrenCached(fr) && Elems(fr) == Elems(f) && IsRoot(fr) == IsRoot(f)
  {
    ElemsOfSingle(cf);
    ElemsOfSingle(f.children[0]);
    assert f.children == [f.children[0]];
  }

  /** The outer loop of `Tree::fixup`, one fringe node `f` per level with its same-level
    * neighbour `n` on the inner side, deepest level first: repair the levels below `f` (the
    * fringe child with its own neighbour, a sibling or the near child of `n`), put the
    * repaired children back, then repair `f` and `n` themselves. When a level has no
    * neighbour its fringe node becomes the new root (`nr`) and the walk stops. */
  method FixDown<T>(f: Tree<T>, n: Option<Tree<T>>, isRight: bool, ghost h: nat)
      returns (f': Tree<T>, n': Option<Tree<T>>, nr: Option<Tree<T>>, ghost nh: nat)
    requires Shape(f, h) && CachedOff(f, isRight) && !IsRoot(f)
    requires n.Some? ==> Shape(n.value, h) && Cached(n.value) && !IsRoot(n.value)
    ensures nr.Some? ==>
      n.None? && Elems(nr.value) == Elems(f) && IsRoot(nr.value) && Cached(nr.value) && LooseShape(nr.value, nh)
    ensures nr.None? ==>
      && n'.Some? == n.Some? && Cached(f') && NodeShape(f', h) && !IsRoot(f')
      && (n'.Some? ==> Cached(n'.value) && NodeShape(n'.value, h) && !IsRoot(n'.value))
      && PairElems(f', n', isRight) == PairElems(f, n, isRight)
    ensures nr.None? && n.Some? ==> ChildrenCount(f') == 0 || ChildrenCount(f') >= HALF
    decreases f
  {
    if f.Array? {
      var atRoot;
      f', n', atRoot := FixupInner(f, n, isRight, h);
      nr, nh := None, h;
      return;
    }
    var cs := f.children;
    var fi := FringeIdx(|cs|, isRight);
    var childN: Option<Tree<T>> := None;
    if |cs| >= 2 {
      childN := Some(cs[if isRight then fi - 1 else 1]);
    } else if n.Some? {
      var nc := n.value.children;
      childN := Some(nc[FringeIdx(|nc|, isRight)]);
    }
    var cf, cn, cnr, cnh := FixDown(cs[fi], childN, isRight, h - 1);
    if cnr.Some? {
      // a deeper level had no neighbour: the whole path above it is a chain of only children
      ElemsOfSingle(cs[0]);
      assert cs == [cs[0]];
      f', n', nr, nh := f, n, cnr, cnh;
      return;
    }
    var fr: Tree<T>;
    var nn: Option<Tree<T>> := n;
    if |cs| >= 2 {
      var i := if isRight then fi - 1 else 0;
      var a, b := if isRight then cn.value else cf, if isRight then cf else cn.value;
      SiblingsRebuilt(f, i, a, b, isRight, h);
      fr := Internal(f.length, cs[i := a][i + 1 := b], f.root);
    } else if n.Some? {
      var nc := n.value.children;
      CousinsRebuilt(f, n.value, cf, cn.value, isRight, h);
      fr := f.(children := [cf]);
      nn := Some(n.value.(children := nc[FringeIdx(|nc|, isRight) := cn.value]));
    } else {
      PairNone(cf, isRight);
      PairNone(cs[fi], isRight);
      OnlyRebuilt(f, cf, h);
      fr := f.(children := [cf]);
    }
    var atRoot;
    f', n', atRoot := FixupInner(fr, nn, isRight, h);
    nr, nh := if atRoot then Some(f') else None, h;
    if atRoot {
      NodeShapeLoose(f', h);
      PairNone(f', isRight);
      PairNone(fr, isRight);
    }
  }

  /** `Tree::fixup`: repairs the given fringe of a root whose only defects lie along that
    * fringe (stale lengths, childless or underfull nodes), then cleans up the root itself
    * (`fixup_inner` with no neighbour). A leaf is returned as it is. */
  method Fixup<T>(t: Tree<T>, isRight: bool, ghost h: nat) returns (r: Tree<T>)
    requires (t.Array? && |t.items| <= ORD) || (IsRoot(t) && Shape(t, h) && CachedOff(t, isRight))
    ensures t.Array? ==> r == t
    ensures t.Internal? ==> Valid(r)
    ensures Elems(r) == Elems(t)
  {
    var root := t;
    ghost var hr := if t.Array? then 0 else h;
    if t.Internal? {
      var cs := t.children;
      var fi := FringeIdx(|cs|, isRight);
      var childN := if |cs| >= 2 then Some(cs[if isRight then fi - 1 else 1]) else None;
      var cf, cn, nr, nh := FixDown(cs[fi], childN, isRight, h - 1);
      if nr.Some? {
        ElemsOfSingle(cs[0]);
        assert cs == [cs[0]];
        root, hr := nr.value, nh;
      } else if |cs| >= 2 {
        var i := if isRight then fi - 1 else 0;
        var a, b := if isRight then cn.value else cf, if isRight then cf else cn.value;
        SiblingsRebuilt(t, i, a, b, isRight, h);
        root := Internal(t.length, cs[i := a][i + 1 := b], t.root);
      } else {
        PairNone(cf, isRight);
        PairNone(cs[fi], isRight);
        OnlyRebuilt(t, cf, h);
        root := t.(children := [cf]);
      }
    }
    var rest, atRoot;
    r, rest, atRoot := FixupInner(root, None, isRight, hr);
    PairNone(r, isRight);
    PairNone(root, isRight);
  }
}
