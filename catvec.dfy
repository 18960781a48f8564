/** `CatVec` (src/lib.rs): a persistent, concatenable and sliceable vector that keeps one
  * B+tree and edits it in place. Its abstract value is the sequence its tree represents. */
module CatVecApi {
  import opened BTreeNodes
  import BTreeQuery
  import opened BTreeInsert
  import opened BTreeSlice
  import opened BTreeConcat
  import opened BTreeUpdate

  /** One end of a `RangeBounds` argument. */
  datatype Bound = Included(i: nat) | Excluded(i: nat) | Unbounded

  /** The position `slice_into` drops up to, if any: an excluded start counts from the next one. */
  function StartIndex(b: Bound): Option<nat> {
    match b
    case Excluded(i) => Some(i + 1)
    case Included(i) => Some(i)
    case Unbounded => None
  }

  /** The position `slice_into` truncates at, if any: an included end keeps one more. */
  function EndIndex(b: Bound): Option<nat> {
    match b
    case Excluded(i) => Some(i)
    case Included(i) => Some(i + 1)
    case Unbounded => None
  }

  /** The half-open range of original positions a slice keeps, missing ends taken as 0 and n. */
  function SliceRange(start: Bound, end: Bound, n: nat): (nat, nat) {
    var lo := StartIndex(start);
    var hi := EndIndex(end);
    (if lo.Some? then lo.value else 0, if hi.Some? then hi.value else n)
  }

  /** The bounds `slice_into` accepts without a panic: the end at most the length, the start
    * at most the end (the end cuts first, so the start is checked against it). */
  predicate SliceOk(start: Bound, end: Bound, n: nat) {
    var (lo, hi) := SliceRange(start, end, n);
    lo <= hi <= n
  }

  /** Excluded and included bounds name the same range when shifted by one. */
  lemma {:induction false} BoundShift(i: nat, end: Bound, n: nat)
    ensures SliceRange(Excluded(i), end, n).0 == SliceRange(Included(i + 1), end, n).0
    ensures SliceRange(Unbounded, Included(i), n).1 == SliceRange(Unbounded, Excluded(i + 1), n).1
    ensures SliceRange(Unbounded, Unbounded, n) == (0, n)
  {
  }

  class CatVec<T> {
    var inner: Tree<T>

    ghost predicate Valid()
      reads this
    {
      BTreeNodes.Valid(inner)
    }

    /** The represented sequence. */
    ghost function Contents(): seq<T>
      reads this
    {
      Elems(inner)
    }

    /** `CatVec::new`: the empty vector. */
    constructor ()
      ensures Valid() && Contents() == []
    {
      inner := NewTree();
    }

    /** `Default::default`, which is `new`. */
    static method Default() returns (v: CatVec<T>)
      ensures fresh(v) && v.Valid() && v.Contents() == []
    {
      v := new CatVec();
    }

    /** `CatVec::get`: the i-th element, or None past the end. */
    function Get(i: nat): (r: Option<T>)
      reads this
      requires Valid()
      ensures r == if i < |Contents()| then Some(Contents()[i]) else None
    {
      BTreeQuery.Get(inner, i)
    }

    /** `CatVec::get_mut` followed by a write of `v`: only position i changes, and only when it
      * exists. */
    method Update(i: nat, v: T) returns (found: bool)
      modifies this
      requires Valid()
      ensures Valid()
      ensures found <==> i < |old(Contents())|
      ensures Contents() == if found then old(Contents())[i := v] else old(Contents())
    {
      var h := HeightOf(inner);
      inner, found := BTreeUpdate.Update(inner, i, v, h);
      ShapeHeight(inner, h);
    }

    /** `CatVec::slice_into`: keeps exactly the original positions in the range. */
    method SliceInto(start: Bound, end: Bound)
      modifies this
      requires Valid() && SliceOk(start, end, |Contents()|)
      ensures Valid()
      ensures var (lo, hi) := SliceRange(start, end, |old(Contents())|);
        Contents() == old(Contents())[lo..hi]
    {
      CachedLen(inner);
      var e := EndIndex(end);
      if e.Some? {
        inner := TakeHead(inner, e.value, HeightOf(inner));
      }
      var s := StartIndex(start);
      if s.Some? {
        CachedLen(inner);
        inner := DropHead(inner, s.value, HeightOf(inner));
      }
    }

    /** `CatVec::append`: this vector followed by the other one. */
    method Append(other: CatVec<T>)
      modifies this
      requires Valid() && other.Valid()
      ensures Valid() && Contents() == old(Contents()) + old(other.Contents())
    {
      inner := Concat(inner, other.inner);
    }

    /** `CatVec::insert`: `val` at position `idx`, later elements shifted right. */
    method Insert(idx: nat, val: T)
      modifies this
      requires Valid() && idx <= |Contents()|
      ensures Valid() && Contents() == Inserted(old(Contents()), idx, val)
    {
      CachedLen(inner);
      var h := HeightOf(inner);
      var r, _ := BTreeInsert.Insert(inner, idx, val, h);
      if FullRoot(inner) {
        ShapeHeight(r, h + 1);
      } else {
        ShapeHeight(r, h);
      }
      inner := r;
    }
  }

  /** After an insert at `idx` the vector is one longer and `get(idx)` is the inserted value. */
  lemma {:induction false} InsertedGet<T>(t: Tree<T>, s: seq<T>, idx: nat, v: T)
    requires Valid(t) && idx <= |s| && Elems(t) == Inserted(s, idx, v)
    ensures Len(t) == |s| + 1 && BTreeQuery.Get(t, idx) == Some(v)
  {
    CachedLen(t);
    InsertedAt(s, idx, v);
  }

  /** After an update that found position i, `get(i)` is the new value and every other
    * position reads as before. */
  lemma {:induction false} UpdatedGet<T>(t: Tree<T>, t': Tree<T>, i: nat, v: T)
    requires Valid(t) && Valid(t') && i < |Elems(t)| && Elems(t') == Elems(t)[i := v]
    ensures BTreeQuery.Get(t', i) == Some(v)
    ensures forall j: nat | j != i :: BTreeQuery.Get(t', j) == BTreeQuery.Get(t, j)
  {
  }
}
