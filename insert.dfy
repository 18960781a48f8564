/** Positional insert (`Tree::insert`, `Internal::insert`): full leaves and full non-root internal
  * nodes split in two and hand the right half back to their parent; a full root grows a level. */
module BTreeInsert {
  import opened BTreeNodes
  import opened BTreeQuery

  /** The sequence with `v` placed at position `key`, later elements shifted right. */
  function Inserted<T>(s: seq<T>, key: nat, v: T): (r: seq<T>)
    requires key <= |s|
  {
    s[..key] + [v] + s[key..]
  }

  /** Inserted places v at key, keeps the elements before it and shifts the rest by one. */
  lemma {:induction false} InsertedAt<T>(s: seq<T>, key: nat, v: T)
    requires key <= |s|
    ensures |Inserted(s, key, v)| == |s| + 1 && Inserted(s, key, v)[key] == v
    ensures forall i | 0 <= i < key :: Inserted(s, key, v)[i] == s[i]
    ensures forall i | key < i < |s| + 1 :: Inserted(s, key, v)[i] == s[i - 1]
  {
  }

  /** Number of nodes, the termination measure of the insert recursion. */
  function Size<T>(t: Tree<T>): nat {
    match t
    case Array(_) => 1
    case Internal(_, cs, _) => 1 + SizeOf(cs)
  }

  function SizeOf<T>(cs: seq<Tree<T>>): nat {
    if cs == [] then 0 else Size(cs[0]) + SizeOf(cs[1..])
  }

  lemma {:induction false} SizeOfAppend<T>(a: seq<Tree<T>>, b: seq<Tree<T>>)
    ensures SizeOf(a + b) == SizeOf(a) + SizeOf(b)
  {
    if a == [] {
      assert a + b == b;
    } else {
      assert (a + b)[1..] == a[1..] + b;
      SizeOfAppend(a[1..], b);
    }
  }

  lemma {:induction false} SizeOfAt<T>(cs: seq<Tree<T>>, i: nat)
    requires i < |cs|
    ensures Size(cs[i]) <= SizeOf(cs)
  {
    if i > 0 {
      SizeOfAt(cs[1..], i - 1);
    }
  }


  /** Inserting into the middle part of a three-way split of a sequence. */
  lemma {:induction false} InsertedMiddle<T>(a: seq<T>, b: seq<T>, c: seq<T>, k: nat, v: T)
    requires k <= |b|
    ensures a + Inserted(b, k, v) + c == Inserted(a + b + c, |a| + k, v)
  {
    var s := a + b + c;
    assert s[..|a| + k] == a + b[..k];
    assert s[|a| + k..] == b[k..] + c;
  }

  /** Inserting into the second part of a concatenation. */
  lemma {:induction false} InsertedAfter<T>(a: seq<T>, b: seq<T>, k: nat, v: T)
    requires k <= |b|
    ensures a + Inserted(b, k, v) == Inserted(a + b, |a| + k, v)
  {
    InsertedMiddle(a, b, [], k, v);
    assert a + b + [] == a + b;
    assert a + Inserted(b, k, v) + [] == a + Inserted(b, k, v);
  }

  /** Inserting into the first part of a concatenation. */
  lemma {:induction false} InsertedBefore<T>(a: seq<T>, b: seq<T>, k: nat, v: T)
    requires k <= |a|
    ensures Inserted(a, k, v) + b == Inserted(a + b, k, v)
  {
    InsertedMiddle([], a, b, k, v);
    assert [] + a + b == a + b;
    assert [] + Inserted(a, k, v) + b == Inserted(a, k, v) + b;
  }

  /** Inserting at `key` into the upper part `b` of `s == a + b`. */
  lemma {:induction false} InsertedHigh<T>(s: seq<T>, a: seq<T>, b: seq<T>, b': seq<T>, key: nat, v: T)
    requires s == a + b && |a| <= key <= |s|
    requires b' == Inserted(b, key - |a|, v)
    ensures a + b' == Inserted(s, key, v)
  {
    InsertedAfter(a, b, key - |a|, v);
  }

  /** Inserting at `key` into the lower part `a` of `s == a + b`. */
  lemma {:induction false} InsertedLow<T>(s: seq<T>, a: seq<T>, a': seq<T>, b: seq<T>, key: nat, v: T)
    requires s == a + b && key <= |a|
    requires a' == Inserted(a, key, v)
    ensures a' + b == Inserted(s, key, v)
  {
    InsertedBefore(a, b, key, v);
  }

  /** Whether a node is a full root, the one case in which insert adds a level. */
  predicate FullRoot<T>(t: Tree<T>) {
    IsRoot(t) && |t.children| == ORD
  }

  function Measure<T>(t: Tree<T>): nat {
    Size(t) + if FullRoot(t) then 2 else 0
  }

  /** `Tree::insert`. On an overflow the returned sibling `other` holds the upper part. */
  method Insert<T>(t: Tree<T>, key: nat, value: T, ghost h: nat) returns (r: Tree<T>, other: Option<Tree<T>>)
    requires Shape(t, h) && Cached(t) && key <= Len(t)
    ensures Shape(r, if FullRoot(t) then h + 1 else h) && Cached(r) && IsRoot(r) == IsRoot(t)
    ensures r.Internal? == t.Internal?
    ensures other.Some? ==> Shape(other.value, h) && Cached(other.value) && !IsRoot(other.value)
    ensures other.Some? ==> !IsRoot(t) && ChildrenCount(t) == ORD
    ensures key <= |Elems(t)| && Elems(r) + OptElems(other) == Inserted(Elems(t), key, value)
    ensures Fanout(t) ==> Fanout(r) && (other.Some? ==> Fanout(other.value))
    decreases Measure(t), 2
  {
    CachedLen(t);
    match t
    case Internal(_, _, _) =>
      r, other := InternalInsert(t, key, value, h);
    case Array(values) =>
      r, other := LeafInsert(values, key, value);
  }

  /** The leaf case of `Tree::insert`: a full leaf splits at its midpoint and the half the key
    * falls in takes the new element. */
  method LeafInsert<T>(values: seq<T>, key: nat, value: T) returns (r: Tree<T>, other: Option<Tree<T>>)
    requires |values| <= ORD && key <= |values|
    ensures r.Array? && |r.items| <= ORD
    ensures other.Some? <==> |values| == ORD
    ensures other.Some? ==> other.value.Array? && |other.value.items| <= ORD
    ensures other.Some? ==> |r.items| == HALF + (if key < HALF then 1 else 0)
    ensures Elems(r) + OptElems(other) == Inserted(values, key, value)
  {
    if |values| < ORD {
      r, other := Array(values[..key] + [value] + values[key..]), None;
    } else {
      var splitPoint := |values| / 2;
      var left, right := values[..splitPoint], values[splitPoint..];
      if key >= splitPoint {
        right := right[..key - splitPoint] + [value] + right[key - splitPoint..];
        InsertedMiddle(left, values[splitPoint..], [], key - splitPoint, value);
        assert values == left + values[splitPoint..] + [];
      } else {
        InsertedMiddle([], values[..splitPoint], right, key, value);
        left := left[..key] + [value] + left[key..];
        assert values == [] + values[..splitPoint] + right;
      }
      r, other := Array(left), Some(Array(right));
    }
  }

  /** `Internal::insert`: three cases, by whether the node has room for another child and
    * whether it is the root. */
  method InternalInsert<T>(t: Tree<T>, key: nat, value: T, ghost h: nat) returns (r: Tree<T>, other: Option<Tree<T>>)
    requires t.Internal? && Shape(t, h) && Cached(t) && key <= Len(t)
    ensures Shape(r, if FullRoot(t) then h + 1 else h) && Cached(r) && IsRoot(r) == IsRoot(t)
    ensures r.Internal?
    ensures other.Some? ==> Shape(other.value, h) && Cached(other.value) && !IsRoot(other.value)
    ensures other.Some? ==> !IsRoot(t) && ChildrenCount(t) == ORD
    ensures key <= |Elems(t)| && Elems(r) + OptElems(other) == Inserted(Elems(t), key, value)
    ensures Fanout(t) ==> Fanout(r) && (other.Some? ==> Fanout(other.value))
    decreases Measure(t), 1
  {
    if |t.children| < ORD {
      r, other := InsertWithRoom(t, key, value, h);
    } else if t.root {
      r, other := InsertGrowing(t, key, value, h);
    } else {
      r, other := InsertSplitting(t, key, value, h);
    }
  }

  /** Room for one more child: insert into the routed child and adopt its overflow sibling
    * right after it. */
  method InsertWithRoom<T>(t: Tree<T>, key: nat, value: T, ghost h: nat) returns (r: Tree<T>, other: Option<Tree<T>>)
    requires t.Internal? && Shape(t, h) && Cached(t) && key <= Len(t) && |t.children| < ORD
    ensures Shape(r, h) && Cached(r) && IsRoot(r) == IsRoot(t)
    ensures r.Internal?
    ensures other.None?
    ensures key <= |Elems(t)| && Elems(r) == Inserted(Elems(t), key, value)
    ensures Fanout(t) ==> Fanout(r)
    decreases Measure(t), 0
  {
    var cs := t.children;
    var idx, offset := KeyToIdxAndOffset(t, key);
    var child := cs[idx];
    RouteChild(t, key, h);
    SizeOfAt(cs, idx);
    var child', sibling := Insert(child, key - offset, value, h - 1);
    var mid := if sibling.Some? then [child', sibling.value] else [child'];
    r, other := Internal(t.length + 1, cs[..idx] + mid + cs[idx + 1..], t.root), None;
    MidFacts(child', sibling, h - 1);
    InsertSpliced(t, idx, offset, key, value, child', mid, h);
  }

  /** A full root pushes the whole node one level down under a new root, then inserts there. */
  method InsertGrowing<T>(t: Tree<T>, key: nat, value: T, ghost h: nat) returns (r: Tree<T>, other: Option<Tree<T>>)
    requires t.Internal? && Shape(t, h) && Cached(t) && key <= Len(t) && FullRoot(t)
    ensures Shape(r, h + 1) && Cached(r) && IsRoot(r) == IsRoot(t)
    ensures r.Internal?
    ensures other.None?
    ensures key <= |Elems(t)| && Elems(r) == Inserted(Elems(t), key, value)
    ensures Fanout(t) ==> Fanout(r)
    decreases Measure(t), 0
  {
    var copy := t.(root := false);
    var w := Internal(t.length, [copy], true);
    WrapFacts(t, copy, w, h);
    r, other := InternalInsert(w, key, value, h + 1);
  }

  /** A full non-root node splits off the upper half of its children as a new sibling and
    * inserts into the half the key falls in. */
  method InsertSplitting<T>(t: Tree<T>, key: nat, value: T, ghost h: nat) returns (r: Tree<T>, other: Option<Tree<T>>)
    requires t.Internal? && Shape(t, h) && Cached(t) && key <= Len(t) && !t.root && |t.children| == ORD
    ensures Shape(r, h) && Cached(r) && IsRoot(r) == IsRoot(t)
    ensures r.Internal?
    ensures other.Some? && Shape(other.value, h) && Cached(other.value) && !IsRoot(other.value)
    ensures key <= |Elems(t)| && Elems(r) + Elems(other.value) == Inserted(Elems(t), key, value)
    ensures var lowerLen := SumLens(t.children[..HALF]);
      if key >= lowerLen then r == Internal(lowerLen, t.children[..HALF], false)
      else other.value == Internal(SumLens(t.children[HALF..]), t.children[HALF..], false)
    ensures Fanout(t) ==> Fanout(r) && Fanout(other.value)
    decreases Measure(t), 0
  {
    var cs := t.children;
    var splitPoint := |cs| / 2;
    var upper := Internal(SumLens(cs[splitPoint..]), cs[splitPoint..], false);
    SplitFacts(t, h);
    var lengthBefore := t.length - Len(upper);
    var lower := Internal(lengthBefore, cs[..splitPoint], false);
    if key >= lengthBefore {
      var k := key - lengthBefore;
      var upper', none := Insert(upper, k, value, h);
      assert none.None?;
      InsertedHigh(Elems(t), Elems(lower), Elems(upper), Elems(upper'), key, value);
      r, other := lower, Some(upper');
    } else {
      var lower', none := InternalInsert(lower, key, value, h);
      assert none.None?;
      InsertedLow(Elems(t), Elems(lower), Elems(lower'), Elems(upper), key, value);
      r, other := lower', Some(upper);
    }
  }

  /** The new root a full root pushes itself under. */
  lemma {:induction false} WrapFacts<T>(t: Tree<T>, copy: Tree<T>, w: Tree<T>, h: nat)
    requires t.Internal? && Shape(t, h) && Cached(t) && FullRoot(t)
    requires copy == t.(root := false) && w == Internal(t.length, [copy], true)
    ensures Shape(w, h + 1) && Cached(w) && Elems(w) == Elems(t) && Len(w) == Len(t)
    ensures !FullRoot(w) && Measure(w) < Measure(t)
    ensures Fanout(t) ==> Fanout(w)
  {
    SumLensSingle(copy);
    ElemsOfSingle(copy);
    assert SizeOf([copy]) == Size(copy) + SizeOf([copy][1..]);
    assert [copy][1..] == [];
    assert Size(copy) == Size(t);
  }

  /** Cutting a run of children in two splits their elements, lengths and sizes. */
  lemma {:induction false} SplitAt<T>(cs: seq<Tree<T>>, sp: nat)
    requires sp <= |cs|
    ensures ElemsOf(cs) == ElemsOf(cs[..sp]) + ElemsOf(cs[sp..])
    ensures SumLens(cs) == SumLens(cs[..sp]) + SumLens(cs[sp..])
    ensures SizeOf(cs) == SizeOf(cs[..sp]) + SizeOf(cs[sp..])
  {
    assert cs == cs[..sp] + cs[sp..];
    SumLensAppend(cs[..sp], cs[sp..]);
    ElemsOfAppend(cs[..sp], cs[sp..]);
    SizeOfAppend(cs[..sp], cs[sp..]);
  }

  /** A non-root node made of a contiguous run of a balanced node's children is balanced at
    * the same height, and keeps the minimum fanout when the run is long enough. */
  lemma {:induction false} SubNode<T>(t: Tree<T>, lo: nat, hi: nat, h: nat)
    requires t.Internal? && Shape(t, h) && Cached(t) && lo < hi <= |t.children|
    ensures var n := Internal(SumLens(t.children[lo..hi]), t.children[lo..hi], false);
      Shape(n, h) && Cached(n) && (Fanout(t) && hi - lo >= HALF ==> Fanout(n))
  {
    var cs := t.children;
    assert forall i | 0 <= i < hi - lo :: cs[lo..hi][i] == cs[lo + i];
  }

  /** The two halves a full non-root node splits into: both non-full, both balanced, and
    * their lengths and elements add up to the node's. */
  lemma {:induction false} SplitFacts<T>(t: Tree<T>, h: nat)
    requires t.Internal? && Shape(t, h) && Cached(t) && !IsRoot(t) && |t.children| == ORD
    ensures var lower := Internal(SumLens(t.children[..HALF]), t.children[..HALF], false);
      var upper := Internal(SumLens(t.children[HALF..]), t.children[HALF..], false);
      && Shape(upper, h) && Cached(upper) && Shape(lower, h) && Cached(lower)
      && !FullRoot(upper) && !FullRoot(lower)
      && Elems(lower) + Elems(upper) == Elems(t) && |Elems(lower)| == Len(lower) && |Elems(t)| == Len(t)
      && Len(lower) == Len(t) - Len(upper)
      && Measure(upper) < Measure(t) && Measure(lower) < Measure(t)
      && (Fanout(t) ==> Fanout(upper) && Fanout(lower))
  {
    var cs := t.children;
    SplitAt(cs, HALF);
    SubNode(t, 0, HALF, h);
    assert cs[0..HALF] == cs[..HALF];
    SubNode(t, HALF, |cs|, h);
    assert cs[HALF..|cs|] == cs[HALF..];
    CachedLen(Internal(SumLens(cs[..HALF]), cs[..HALF], false));
    CachedLen(t);
  }

  /** The one or two nodes that replace the routed child after inserting into it. */
  lemma {:induction false} MidFacts<T>(child': Tree<T>, sibling: Option<Tree<T>>, h: nat)
    requires Shape(child', h) && Cached(child') && !IsRoot(child')
    requires sibling.Some? ==> Shape(sibling.value, h) && Cached(sibling.value) && !IsRoot(sibling.value)
    ensures var mid := if sibling.Some? then [child', sibling.value] else [child'];
      && ElemsOf(mid) == Elems(child') + OptElems(sibling)
      && SumLens(mid) == |Elems(child') + OptElems(sibling)|
      && 1 <= |mid| <= 2
      && (forall i | 0 <= i < |mid| :: Shape(mid[i], h) && Cached(mid[i]) && !IsRoot(mid[i]))
      && ((Fanout(child') && (sibling.Some? ==> Fanout(sibling.value))) ==> forall i | 0 <= i < |mid| :: Fanout(mid[i]))
  {
    ElemsOfSingle(child');
    SumLensSingle(child');
    CachedLen(child');
    if sibling.Some? {
      assert [child', sibling.value] == [child'] + [sibling.value];
      ElemsOfAppend([child'], [sibling.value]);
      SumLensAppend([child'], [sibling.value]);
      SumLensSingle(sibling.value);
      ElemsOfSingle(sibling.value);
      CachedLen(sibling.value);
    }
  }

  /** Where position i of a three-part concatenation comes from. */
  lemma {:induction false} SpliceIndex<X>(a: seq<X>, m: seq<X>, b: seq<X>, i: nat)
    requires i < |a| + |m| + |b|
    ensures (a + m + b)[i] == if i < |a| then a[i] else if i < |a| + |m| then m[i - |a|] else b[i - |a| - |m|]
  {
  }

  /** The children after a splice are the old ones and the run spliced in, so whatever
    * holds of both holds of each of them. */
  lemma {:induction false} SplicedKids<T>(t: Tree<T>, idx: nat, mid: seq<Tree<T>>, h: nat)
    requires t.Internal? && Shape(t, h) && Cached(t) && idx < |t.children|
    requires forall i | 0 <= i < |mid| :: Shape(mid[i], h - 1) && Cached(mid[i]) && !IsRoot(mid[i])
    ensures var ncs := t.children[..idx] + mid + t.children[idx + 1..];
      forall i | 0 <= i < |ncs| :: Shape(ncs[i], h - 1) && Cached(ncs[i]) && !IsRoot(ncs[i])
  {
    var cs := t.children;
    var ncs := cs[..idx] + mid + cs[idx + 1..];
    forall i | 0 <= i < |ncs| ensures Shape(ncs[i], h - 1) && Cached(ncs[i]) && !IsRoot(ncs[i]) {
      SpliceIndex(cs[..idx], mid, cs[idx + 1..], i);
      if i < idx {
        assert ncs[i] == cs[i];
      } else if i >= idx + |mid| {
        assert ncs[i] == cs[i - |mid| + 1];
      }
    }
  }

  lemma {:induction false} SplicedFanout<T>(t: Tree<T>, idx: nat, mid: seq<Tree<T>>)
    requires t.Internal? && Fanout(t) && idx < |t.children|
    requires forall i | 0 <= i < |mid| :: Fanout(mid[i])
    ensures var ncs := t.children[..idx] + mid + t.children[idx + 1..];
      forall i | 0 <= i < |ncs| :: Fanout(ncs[i])
  {
    var cs := t.children;
    var ncs := cs[..idx] + mid + cs[idx + 1..];
    forall i | 0 <= i < |ncs| ensures Fanout(ncs[i]) {
      SpliceIndex(cs[..idx], mid, cs[idx + 1..], i);
      if i < idx {
        assert ncs[i] == cs[i];
      } else if i >= idx + |mid| {
        assert ncs[i] == cs[i - |mid| + 1];
      }
    }
  }

  /** Splicing a run `mid` in place of child idx. */
  lemma {:induction false} Splice<T>(cs: seq<Tree<T>>, idx: nat, mid: seq<Tree<T>>)
    requires idx < |cs|
    ensures ElemsOf(cs[..idx] + mid + cs[idx + 1..]) == ElemsOf(cs[..idx]) + ElemsOf(mid) + ElemsOf(cs[idx + 1..])
    ensures SumLens(cs[..idx] + mid + cs[idx + 1..]) == SumLens(cs[..idx]) + SumLens(mid) + SumLens(cs[idx + 1..])
  {
    ElemsOfAppend(cs[..idx] + mid, cs[idx + 1..]);
    ElemsOfAppend(cs[..idx], mid);
    SumLensAppend(cs[..idx] + mid, cs[idx + 1..]);
    SumLensAppend(cs[..idx], mid);
  }

  /** The non-full case of `Internal::insert`: replacing the routed child by its insert result
    * (and its overflow sibling) inserts into the whole node. */
  lemma {:induction false} InsertSpliced<T>(t: Tree<T>, idx: nat, offset: nat, key: nat, value: T,
                         child': Tree<T>, mid: seq<Tree<T>>, h: nat)
    requires t.Internal? && Shape(t, h) && Cached(t) && |t.children| < ORD
    requires idx < |t.children| && offset == SumLens(t.children[..idx]) && offset <= key
    requires key - offset <= |Elems(t.children[idx])|
    requires 1 <= |mid| <= 2 && forall i | 0 <= i < |mid| :: Shape(mid[i], h - 1) && Cached(mid[i]) && !IsRoot(mid[i])
    requires ElemsOf(mid) == Inserted(Elems(t.children[idx]), key - offset, value)
    requires SumLens(mid) == |ElemsOf(mid)|
    requires Fanout(t) ==> forall i | 0 <= i < |mid| :: Fanout(mid[i])
    ensures var r := Internal(t.length + 1, t.children[..idx] + mid + t.children[idx + 1..], t.root);
      && Shape(r, h) && Cached(r)
      && key <= |Elems(t)| && Elems(r) == Inserted(Elems(t), key, value)
      && (Fanout(t) ==> Fanout(r))
  {
    var cs := t.children;
    var ncs := cs[..idx] + mid + cs[idx + 1..];
    Splice(cs, idx, mid);
    ElemsOfAt(cs, idx);
    AllCachedLen(cs[..idx]);
    CachedLen(cs[idx]);
    CachedLen(t);
    InsertedMiddle(ElemsOf(cs[..idx]), Elems(cs[idx]), ElemsOf(cs[idx + 1..]), key - offset, value);
    SplicedKids(t, idx, mid, h);
    if Fanout(t) {
      SplicedFanout(t, idx, mid);
    }
  }
}
