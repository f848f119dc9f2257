# mda — a verified model of a rank-N rectangular array

`mda::mda<T>` is a header-only C++ container for an array of any rank. It is
stored as a tree. A node of rank `d > 0` has extent `s` and holds `s` child
nodes of rank `d - 1`. A node of rank 0 is a leaf: it owns one heap-allocated
payload of type `T` through a `unique_ptr`. The shape vector given to the
constructor fixes every rank and extent. Each group of siblings is built from
the same tail of that vector, so the array is rectangular.

The model is one Dafny module, `MultiDim`, in `mda.dfy`:

- A node is a datatype value `Mda<T>(children, d, s, content)`. Its rank,
  extent and children are set once, at construction.
- A payload is an object of class `Cell<T>`. It is the only state that changes
  in place, through `operator=` or the reference that `operator T&` returns.
- The default constructor `T()` is an explicit `init: T` parameter of the
  constructors.
- The source's iterator into the shape is an index `it` into a `seq<nat>`.

Two ghost invariants describe every constructed array:

- `Conforms(m, shape)` gives the rank, extent and tag at every level, and says
  that all siblings are built from the same shape tail.
- `Owned(m)` says that each payload belongs to exactly one leaf. It is stated
  as "the payloads of distinct siblings are disjoint".

On top of these, the module proves:

- which index paths exist (rectangularity);
- that assignment is local;
- what the free function `copy` does as written, and the deep copy it was
  meant to be.

## Model

| member | source | states |
|---|---|---|
| MultiDim.Build | mda.hpp:55-78 | The private constructor builds a tree that conforms to `shape[it..it+pd]` and is exclusively owned. Every payload is new and holds `T()`. Its precondition `it + pd <= |shape|` shows that every read through the iterator stays inside the shape: `*it` is read only when `pd > 0`, and the iterator advances only when `pd > 1`. |
| MultiDim.BuildChildren | mda.hpp:67-70 | The constructor's loop builds `s` children in index order, each from the same shape position. The result has exactly `s` children and each conforms to the same tail, so siblings have identical shapes. The children's payloads are new, pairwise disjoint and hold `T()`. |
| MultiDim.New | mda.hpp:29-53 | The public constructor builds from all of `shape`: the result conforms to `shape`, is owned, and its payloads are new and default-valued. An empty shape gives a scalar. |
| MultiDim.NewScalar | mda.hpp:24-27 | The default constructor gives rank 0, extent 0 and one new payload holding `T()`. |
| MultiDim.RootShape | mda.hpp:80-120 | On an array built from a non-empty shape, `dim()` is `|shape|` and `size()` is `shape[0]`. `operator[]` is defined exactly for indices below `size()`, and each child it returns has rank `dim() - 1`. |
| MultiDim.Rectangular | mda.hpp:55-78 | An index path can be followed exactly when each index is below the extent at its depth. The node at depth `k` conforms to `shape[k..]`, has rank `|shape| - k` and extent `shape[k]` (0 at full depth), whichever path leads there. |
| MultiDim.TagExclusive | mda.hpp:59-77 | Along any path, a node has a payload exactly when its rank is 0, which happens exactly at depth `|shape|`. A rank-0 node has extent 0 and no children. |
| MultiDim.Assign | mda.hpp:100-108 | `operator=` on a rank-0 node stores the value, so a following read through `operator T&` returns it. Only that node's payload may change. |
| MultiDim.AssignAt | mda.hpp:80-108 | `a[i]...[k] = x` on an owned array: the addressed leaf reads `x` afterwards, and every other leaf reads the value it held before. |
| MultiDim.DistinctLeaves | mda.hpp:11 | Because each leaf owns its payload, two different leaf paths reach two different payload objects. |
| MultiDim.LeafCellIn | mda.hpp:8-11 | The payload at the end of a leaf path is one of the root's payloads. |
| MultiDim.SiblingsDisjoint | mda.hpp:8-11 | In an owned sibling list, two distinct siblings share no payload, and each sibling is itself owned. |
| MultiDim.Copy | mda.hpp:122-138 | `copy` as written requires a source with a payload, that is a rank-0 source. It returns a rank-0 node with a new payload holding the source's value, and for a scalar source the result matches the source exactly. |
| MultiDim.CopyRankOneSource | mda.hpp:126-128 | The array built from shape `[1]` has rank 1, extent 1 and no payload, so `copy` dereferences a null payload on it. |
| MultiDim.DeepCopy | mda.hpp:122-138 | The intended copy: the result conforms to the same shape, is owned and matches the source node by node and value by value. All its payloads are new and none is shared with the source. |
| MultiDim.CopyChildren | mda.hpp:130-136 | The intended copy loop gives one copy per child of the source, in index order. Each copy conforms to the child shape and matches its original, and the copies are owned and newly allocated. |
| MultiDim.CopyNext | mda.hpp:134 | One iteration of the copy loop extends the copied prefix by the copy of the next child. Ownership and the match with the source are kept. |
| MultiDim.SameLeaves | mda.hpp:123 | Two matching arrays have the same index paths and the same leaf paths, and each leaf reads the same value in both. |
| MultiDim.CopyThenAssign | mda.hpp:122-138 | After a deep copy, writing a leaf of the source leaves every leaf of the copy reading the value the source held before the write. |
| MultiDim.SameChild | mda.hpp:132-135 | Matching sibling lists have equal length and match index by index. |
| MultiDim.ChildCells | mda.hpp:8 | The payloads of a child are payloads of its parent. |
| MultiDim.OwnedChild | mda.hpp:8 | Each sibling in an owned sibling list is owned. |

## Left out

- `std::exit(1)` in `operator[]`, `operator T&` and `operator=` is not modelled as an effect. Each guard (`d == 0` or `d != 0`) is a precondition instead, so a model caller cannot reach the exit.
- `operator[]` does not check its index, so an out-of-range index is undefined behaviour. The model requires the index to be below the number of children.
- `operator T&` returns a mutable reference to the payload. The model provides reading (`Get`) and writing (`Assign`) through it. It does not let a client keep the reference and alias it beyond one call.
- Memory management is not modelled: the destruction of `unique_ptr` payloads and child vectors, moves, and `children.reserve`.
- `size_t` is modelled as `nat`. Extents and ranks cannot wrap around, and allocation cannot fail.
- `T()` is not modelled as a call. The default value is a parameter `init` of the constructors and of `Copy`.
- The public constructor copies its body from the private one. In the model it delegates to `Build` with `it = 0` and `pd = |shape|`, which behaves identically.
- Copy: the loop in `copy`'s `else` branch (mda.hpp:130-136) is left out. The branch can never be taken, because the freshly default-constructed result always has rank 0.
- `friend`, `const` qualifiers and template mechanics have no counterpart in the model.

## Findings

| source | as written | input that shows it | evidently intended | confidence | as-written member | corrected member |
|---|---|---|---|---|---|---|
| mda.hpp:122-138 | `copy` default-constructs its result, so `outmda.dim() == 0` always holds. It then always copies the source's payload, and the loop over the children never runs. For a source of rank above 0, `p_mda.content` is null and the dereference at line 128 is undefined behaviour. Even on a payload, the structure is never copied. | The array built from shape `[1]`: rank 1, extent 1, no payload. | A structural deep copy: the same rank and extent at every node, each child copied in index order, and every payload cloned into a new object, so that the copy shares nothing with the source. | high, not executed | MultiDim.Copy, MultiDim.CopyRankOneSource | MultiDim.DeepCopy |
