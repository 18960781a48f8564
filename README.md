# CatVec: a verified model of its relative-indexed B+tree

`catvec` is a persistent vector that supports fast concatenation and slicing. Its elements sit
in the leaves of a B+tree, each leaf holding at most `ORD` values in a bounded array. An internal
node holds at most `ORD` children and caches `length`, the number of elements beneath it. Lookup,
insertion and slicing route a position down the tree by subtracting the lengths of the children
they pass. The user-facing `CatVec` type wraps a single root node.

This project models that core in Dafny and proves each operation against the sequence the tree
stands for: `Elems(t)`, the leaf elements in order.

- `nodes.dfy` (`BTreeNodes`): the node datatype `Tree` and the abstraction `Elems`.
  - Structural predicates:
    - `Cached`: every internal node's `length` is the sum of its children's lengths.
    - `Shape`: the tree is balanced and every fanout is at most `ORD`.
    - `Fanout`: every non-root internal node has at least `ORD / 2` children.
  - `CheckInvariants` is `Cached` together with `Fanout`.
  - `Valid` is the state a `CatVec` keeps: a balanced root whose lengths are all cached correctly.
- `query.dfy` (`BTreeQuery`): key routing (`Route` and the loop that computes it), the
  first-child walk that gives the height, and indexed lookup.
- `insert.dfy` (`BTreeInsert`): positional insert.
  - Full leaves and full non-root internal nodes split in two and return their upper half to the
    parent.
  - A full root pushes itself one level down instead.
- `fixup.dfy` (`BTreeFixup`): the fringe rebalancer and its two child-moving helpers.
  - A concatenation or a truncation can leave nodes along one fringe empty, underfull or with a
    stale cached length.
  - The fringe is the right edge after `take_head`, the left edge after `drop_head`, and both
    edges after `concat`.
- `slice.dfy` (`BTreeSlice`): `take_head` and `drop_head`, each followed by the rebalancer at the
  root.
- `update.dfy` (`BTreeUpdate`): `get_mut`, modelled as writing one value through the reference it
  returns.
- `concat.dfy` (`BTreeConcat`): `pad_once` and `concat`.
  - Trees of different heights are padded to the same height.
  - Equal-height tops are merged or split between two nodes, then both fringes are repaired.
- `catvec.dfy` (`CatVecApi`): the `CatVec` class, whose one field `inner` the methods reassign.
  It also holds the `RangeBounds` handling of `slice_into`.

Nodes are values. Each operation that edits a node through `&mut self` is a method that takes
the old node and returns the new one. It returns the split-off sibling and the found flag
alongside when the source does. `ORD` is fixed at 5, so `ORD / 2` is 2. Every loop of the source
except those of `fixup` and `check_invariants` is a `while` or `for` loop in the model:

- the child walk of `key_to_idx_and_offset`;
- the first-child walk of `height`;
- the child-moving loops of `steal_children_from` and `concat`;
- the padding loop of `concat`.

The three loops of `fixup` are the depth loop (src/btree.rs:295), the descent to the fringe node
(src/btree.rs:311) and the neighbour search (src/btree.rs:342). `FixDown` replaces all three by
structural recursion down the fringe. The loop of `check_invariants` over the children
(src/btree.rs:273-275) becomes the recursive predicates `Cached` and `Fanout`, which
`CheckInvariants` combines.

## Model

| member | source | states |
|---|---|---|
| BTreeNodes.NewTree | src/btree.rs:65-75 | the new tree is a valid root of height 1 that satisfies check_invariants, holds no elements and has length 0 |
| BTreeNodes.Len | src/btree.rs:77-82 | a leaf's len is the number of its elements; for an internal node it is the cached length, which CachedLen ties to the elements |
| BTreeNodes.ChildrenCount | src/btree.rs:529-534 | a leaf counts the elements it represents; an internal node counts its children; a non-root internal node that passes check_invariants has at least ORD / 2 of them |
| BTreeNodes.CheckInvariants | src/btree.rs:272-288 | Cached (each internal length is the sum of its children's lengths) and Fanout (each non-root internal node has at least ORD / 2 children), checked recursively; a tree that passes has len equal to its element count, and so does every child |
| BTreeNodes.CachedLen | src/btree.rs:77-82 | when lengths are cached, `len` is the number of elements the tree represents |
| BTreeNodes.ShapeHeight | src/btree.rs:680-691 | in a balanced tree, following first children down gives the depth of every leaf |
| BTreeQuery.Route | src/btree.rs:644-653 | the routed index is a child; its offset is the sum of the lengths before it and is at most key; the key falls inside that child unless it is the last one |
| BTreeQuery.RouteFirst | src/btree.rs:644-653 | the routed child is the first one whose length range holds the key: every child before it ends at or below the key |
| BTreeQuery.RouteUnique | src/btree.rs:644-653 | Route is the only index with those properties: with RouteFirst, the first child whose length range holds the key, else the last child |
| BTreeQuery.RouteElem | src/btree.rs:581-587 | for a key below the total length, the key-th element of the children is the element at key minus offset in the routed child |
| BTreeQuery.KeyToIdxAndOffset | src/btree.rs:644-653 | the accumulating loop returns exactly Route's index and offset |
| BTreeQuery.InternalHeight | src/btree.rs:680-691 | the pointer-walking loop returns the first-child height |
| BTreeQuery.Height | src/btree.rs:236-241 | leaves have height 0, internal nodes the first-child height |
| BTreeQuery.Get | src/btree.rs:84-89 | the idx-th element of the represented sequence, or None past its end |
| BTreeQuery.InternalGet | src/btree.rs:581-587 | None at or past length, otherwise the key-th element |
| BTreeInsert.InsertedAt | src/lib.rs:57-60 | inserting v at idx makes the sequence one longer, puts v at idx, keeps the elements before it and shifts the rest right by one |
| BTreeInsert.Insert | src/btree.rs:98-120 | the result followed by the returned sibling is the old contents with value inserted at key; both are balanced and correctly cached; the height grows only for a full root; only a full non-root node returns a sibling; minimum fanout is preserved |
| BTreeInsert.LeafInsert | src/btree.rs:104-118 | a leaf with room inserts in place; a full leaf splits at len / 2 and returns the upper half, so the lower half has ORD / 2 elements, one more when the value went into it; left followed by right is the contents with value inserted |
| BTreeInsert.InternalInsert | src/btree.rs:597-642 | the three cases of Internal::insert together: contents with value inserted at key, lengths correct, balance kept, overflow only from a full non-root node |
| BTreeInsert.InsertWithRoom | src/btree.rs:598-612 | with room for a child: insert into the routed child and adopt its sibling after it; length grows by one, no overflow |
| BTreeInsert.InsertGrowing | src/btree.rs:613-620 | a full root moves down one level under a new root, which then takes the insert; no overflow, and the height grows by one |
| BTreeInsert.WrapFacts | src/btree.rs:613-620 | the new root over the old full root keeps its length and contents and is not full |
| BTreeInsert.InsertSplitting | src/btree.rs:621-641 | a full non-root node keeps its lower half of children and returns the upper half with its summed length; when the key is at or past the lower half's length the lower half comes back untouched, otherwise the upper half does; the insert into either half does not overflow; lower followed by upper is the contents with value inserted |
| BTreeFixup.GiveAllChildrenTo | src/btree.rs:427-451 | the donor is left empty with length 0; the neighbour receives every child or element on the fringe side; combined length and in-order contents are preserved |
| BTreeFixup.StealItems | src/btree.rs:472-487 | an underfull leaf takes elements from the near end of its neighbour until it holds ORD / 2; the two leaves read in order are unchanged |
| BTreeFixup.StealChildren | src/btree.rs:488-508 | an underfull internal node takes children from the near end of its neighbour until it has ORD / 2, lengths moving along; combined length and children order preserved |
| BTreeFixup.StealLastChildren | src/btree.rs:490-496 | the pop-and-prepend loop moves the neighbour's last children, in order, to the front, with both lengths still the sum of their children |
| BTreeFixup.StealFirstChildren | src/btree.rs:497-507 | the draining loop moves the neighbour's first children to the end, with both lengths still the sum of their children |
| BTreeFixup.StealChildrenFrom | src/btree.rs:470-510 | the node ends with max(its count, ORD / 2) children; combined count, combined length and in-order contents are preserved |
| BTreeFixup.Retain | src/btree.rs:380-381 | the kept children are exactly the children of positive length: none is added, every one of positive length stays |
| BTreeFixup.Trim | src/btree.rs:379-385 | an internal node keeps only children of positive length and its length becomes their sum; root flag kept, never more children; a leaf is left alone |
| BTreeFixup.RetainKeeps | src/btree.rs:380-381 | dropping the zero-length children loses no element and no length |
| BTreeFixup.TrimOk | src/btree.rs:379-385 | the fringe clean-up leaves a correctly cached, balanced node representing the same elements |
| BTreeFixup.FixupInner | src/btree.rs:377-424 | with no neighbour an internal fringe node becomes the root; otherwise it is left, merged or refilled, and the pair's contents are kept; afterwards the node is empty or has at least ORD / 2 children |
| BTreeFixup.FixDown | src/btree.rs:295-371 | repairing one fringe level by level, deepest first, keeps the in-order contents of the fringe node and its neighbour and leaves both balanced with correct lengths, or yields the new root when a level has no neighbour |
| BTreeFixup.Fixup | src/btree.rs:293-374 | on a root whose defects lie only along the given fringe, the result is a valid root with the same contents; a leaf is returned unchanged |
| BTreeSlice.TakeHead | src/btree.rs:257-269 | keeps exactly the first key elements; a root comes back valid; below the root lengths are stale only along the right fringe |
| BTreeSlice.InternalTakeHead | src/btree.rs:668-678 | keeps the children up to the routed one, cuts that one, and leaves the cached length exactly as it was; take_head(length) is a no-op |
| BTreeSlice.DropHead | src/btree.rs:243-255 | removes exactly the first key elements; a root comes back valid; below the root lengths stay correct |
| BTreeSlice.InternalDropHead | src/btree.rs:655-666 | subtracts key from length, drops the children before the routed one and cuts that one; drop_head(0) is a no-op |
| BTreeUpdate.Update | src/btree.rs:91-96 | found exactly when idx is in range; then only position idx changes, to v; otherwise nothing changes; shape, lengths, child counts and minimum fanout are kept |
| BTreeUpdate.InternalUpdate | src/btree.rs:589-595 | nothing found at or past length; otherwise the routed child is updated and length is unchanged |
| BTreeConcat.PadOnce | src/btree.rs:223-234 | the tree, no longer a root, becomes the only child of a new root; height grows by one, length and contents are kept |
| BTreeConcat.ConcatLeaves | src/btree.rs:135-164 | two leaves that fit become one leaf; otherwise two leaves, each with at least ORD / 2 elements, sit under a new root; contents are a followed by b |
| BTreeConcat.MoveTailChildren | src/btree.rs:181-192 | the last ORD / 2 - count children of the left node move in order to the front of the right node, lengths following |
| BTreeConcat.Apportion | src/btree.rs:173-192 | the shorter child list is topped up to ORD / 2 children from the near end of the other, lengths following; both lists end with between ORD / 2 and ORD children, in the original order; the left list ends with exactly ORD / 2 children when it was short, the combined count minus ORD / 2 when the right one was, and its own count otherwise |
| BTreeConcat.ConcatInternals | src/btree.rs:165-204 | two internal tops that fit are merged into one node with the summed length; otherwise they are apportioned under a new root; contents are a followed by b |
| BTreeConcat.ConcatEqual | src/btree.rs:133-207 | the equal-height join followed by the right-fringe and left-fringe repairs gives a valid root holding a followed by b |
| BTreeConcat.Concat | src/btree.rs:122-221 | an empty tree yields the other one; an empty other leaves the tree as it is; otherwise the lower tree is padded to the same height; the result represents the first tree's elements followed by the other's |
| CatVecApi.BoundShift | src/lib.rs:34-43 | an excluded start i means i + 1 and an included end i means i + 1; unbounded on both sides is the whole vector |
| CatVecApi.CatVec.constructor | src/lib.rs:18-20 | a new CatVec is valid and empty |
| CatVecApi.CatVec.Default | src/lib.rs:63-67 | default is a fresh, valid, empty CatVec, the same as new |
| CatVecApi.CatVec.Get | src/lib.rs:23-25 | the i-th element of the contents, or None when i is out of range |
| CatVecApi.CatVec.Update | src/lib.rs:28-30 | writing through get_mut(i) changes only position i, and only when it exists |
| CatVecApi.CatVec.SliceInto | src/lib.rs:33-50 | the contents become the original elements in [start, end); the end is cut first, so both bounds refer to original positions |
| CatVecApi.CatVec.Append | src/lib.rs:53-55 | the contents become the old contents followed by the other vector's |
| CatVecApi.CatVec.Insert | src/lib.rs:58-60 | the contents become s[..idx] + [val] + s[idx..] |
| CatVecApi.InsertedGet | src/btree.rs:711-716 | after an insert at idx the length is one more and get(idx) is the inserted value |
| CatVecApi.UpdatedGet | src/btree.rs:589-595 | after an update at i, get(i) is the new value and every other position reads as before |

## Left out

Only `Insert` and `Update` are shown to preserve `Fanout`, the minimum-fanout half of
`check_invariants` (at least `ORD / 2` children in every non-root node). The members below state
contents, balance and cached lengths but not `Fanout`:

- FixDown: does not state `Fanout` of the repaired fringe node and neighbour. It states their
  contents, balance and lengths. When the fringe node has a neighbour at its level, it also states
  that the repaired fringe node is empty or has at least `ORD / 2` children.
- Fixup: does not state that the repaired root satisfies `Fanout`.
- TakeHead: does not state that a root taken from a tree satisfying `Fanout` satisfies it again.
- DropHead: does not state that a root dropped from a tree satisfying `Fanout` satisfies it again.
- ConcatEqual: does not state that the joined and repaired root satisfies `Fanout`.
- Concat: does not state that the concatenation of two trees satisfying `Fanout` satisfies it.
- CatVecApi.CatVec.SliceInto: keeps `Valid` but not `Fanout`, because `TakeHead` and `DropHead`
  do not state it.
- CatVecApi.CatVec.Append: keeps `Valid` but not `Fanout`, because `Concat` does not state it.
- `CatVecApi.CatVec.Valid` does not include `Fanout`, for the same reason.
- `fixup` walks the fringe with an explicit stack and a loop per depth. The model walks it by
  structural recursion (`FixDown`), carrying the same-level neighbour and repairing the deepest
  level first, as the source does.
  - The stack's early exits cannot occur in a tree whose internal nodes all have a child. Those
    exits are an empty internal node met on the way down, a tip above the current depth, and an
    empty stack.
  - The neighbour search that pushes the children of nodes that are not the tip becomes the
    choice of the near sibling, or of the near child of the parent's neighbour.
- `ORD` is fixed at 5, the fuzz harness's value, rather than left as a const generic.
- `usize` arithmetic is modelled with unbounded naturals, so overflow is not modelled. That
  includes `i + 1` in `slice_into` at `usize::MAX`.
- The source panics on an out-of-range `insert`, `take_head`, `drop_head` or `slice_into`. The
  model makes these ranges preconditions.
- `Arc` sharing and `Arc::make_mut` are not modelled. Nodes are values, and copy-on-write is not
  observable.
- `CatVec::get_mut` returns a mutable reference. The model replaces it by `Update`, which writes
  one value through that reference.
- `CatVec::insert` ignores the overflow `Option` that `Tree::insert` returns. The model proves it
  is always `None` at a root.
- Logging (`log::trace!`), the graphviz dump `eprint_graphviz` and its random ids are output
  only, so they are left out.
- `first_two_children` and `last_two_children` are never called in the source, so they are
  left out.
- `children_mut`, `children`, `unwrap_arr` and `unwrap_internal` are accessors. They appear only
  inside the operations that use them.
- The fuzz driver (src/bin/fuzz.rs) is not part of this model. Its shadow-`Vec` comparison is
  what the sequence-level contracts state.
- `From<Vec<T>>`, `CatVec::len`, `debug_graphviz` and `check_invariants` on `CatVec` are not in
  src/lib.rs and are not modelled.
- Running time, including the log²(n) remark on `fixup`, is not modelled.
