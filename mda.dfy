/**
  A model of `mda::mda<T>`, a rank-N rectangular array stored as a tree.

  A node keeps four fields: `children` (the sub-arrays along its outermost
  dimension), `d` (its rank), `s` (its extent) and `content` (a pointer to a
  heap-allocated payload, null unless the node is a leaf). The first three are
  fixed at construction, so a node is a datatype value here; the payload is the
  only thing the container ever updates in place, so it is an object, `Cell`.
  The default constructor of `T` is modelled by a value `init` passed to the
  constructors.
*/
module MultiDim {

  /** The heap-allocated payload that a leaf owns. */
  class Cell<T> {
    var v: T

    constructor (x: T)
      ensures v == x
    {
      v := x;
    }
  }

  /** One node of the array, with the fields of `mda<T>`. */
  datatype Mda<T> = Mda(children: seq<Mda<T>>, d: nat, s: nat, content: Cell?<T>)

  // ---------------------------------------------------------------------------
  // Shape and ownership invariants

  /**
    `m` is the tree the constructors build from `shape`: its rank is `|shape|`;
    a leaf (rank 0) has extent 0, no children and a payload; an internal node has
    extent `shape[0]`, that many children, no payload, and every child is built
    from the same tail `shape[1..]`, which makes the array rectangular.
  */
  ghost predicate Conforms<T>(m: Mda<T>, shape: seq<nat>)
    decreases m
  {
    && m.d == |shape|
    && if |shape| == 0 then
         m.s == 0 && m.children == [] && m.content != null
       else
         && m.s == shape[0] && |m.children| == shape[0] && m.content == null
         && forall i :: 0 <= i < |m.children| ==> Conforms(m.children[i], shape[1..])
  }

  /** The payload objects held by `m` and by the nodes below it. */
  ghost function Cells<T>(m: Mda<T>): set<Cell<T>>
    decreases m, 1
  {
    var own: set<Cell<T>> := if m.content == null then {} else {m.content};
    own + ChildrenCells(m.children)
  }

  /** The payload objects held below the nodes of `cs`. */
  ghost function ChildrenCells<T>(cs: seq<Mda<T>>): set<Cell<T>>
    decreases cs, 0
  {
    if cs == [] then {} else ChildrenCells(cs[..|cs| - 1]) + Cells(cs[|cs| - 1])
  }

  /**
    Exclusive ownership: below every node, each child's payloads are disjoint
    from those of all the siblings before it.
  */
  ghost predicate Owned<T>(m: Mda<T>)
    decreases m, 1
  {
    OwnedChildren(m.children)
  }

  /** Ownership for a sequence of siblings, checked one sibling at a time. */
  ghost predicate OwnedChildren<T>(cs: seq<Mda<T>>)
    decreases cs, 0
  {
    cs == [] ||
    (var before, last := cs[..|cs| - 1], cs[|cs| - 1];
     OwnedChildren(before) && Owned(last) && Cells(last) !! ChildrenCells(before))
  }

  /** Every payload of `m` holds `x`. */
  ghost predicate Filled<T>(m: Mda<T>, x: T)
    reads Cells(m)
  {
    forall c :: c in Cells(m) ==> c.v == x
  }

  /** The payloads of a child are payloads of its parent. */
  lemma {:induction false} ChildCells<T>(cs: seq<Mda<T>>, i: nat)
    requires i < |cs|
    ensures Cells(cs[i]) <= ChildrenCells(cs)
    decreases cs
  {
    if i < |cs| - 1 {
      ChildCells(cs[..|cs| - 1], i);
    }
  }

  /**
    The ownership invariant in its pairwise form: distinct siblings have
    disjoint payloads, and each sibling is itself owned.
  */
  lemma {:induction false} SiblingsDisjoint<T>(cs: seq<Mda<T>>, i: nat, j: nat)
    requires OwnedChildren(cs) && i < j < |cs|
    ensures Cells(cs[i]) !! Cells(cs[j])
    ensures Owned(cs[i]) && Owned(cs[j])
    decreases cs
  {
    var before := cs[..|cs| - 1];
    if j < |cs| - 1 {
      SiblingsDisjoint(before, i, j);
    } else {
      ChildCells(before, i);
      OwnedChild(before, i);
    }
  }

  /** Each sibling of an owned sequence is owned. */
  lemma {:induction false} OwnedChild<T>(cs: seq<Mda<T>>, i: nat)
    requires OwnedChildren(cs) && i < |cs|
    ensures Owned(cs[i])
    decreases cs
  {
    if i < |cs| - 1 {
      OwnedChild(cs[..|cs| - 1], i);
    }
  }

  // ---------------------------------------------------------------------------
  // Accessors

  /** `dim()`: the rank of the node. */
  function Dim<T>(m: Mda<T>): nat
  {
    m.d
  }

  /** `size()`: the extent of the node. */
  function Size<T>(m: Mda<T>): nat
  {
    m.s
  }

  /**
    `operator[]`: the i-th child. A rank-0 node terminates the process; the
    index itself is not checked, so it must be below the number of children.
  */
  function Index<T>(m: Mda<T>, i: nat): Mda<T>
    requires m.d != 0
    requires i < |m.children|
  {
    m.children[i]
  }

  /**
    `operator T&`, read side: the payload of a leaf. A node of rank above 0
    terminates the process.
  */
  function Get<T>(m: Mda<T>): T
    requires m.d == 0 && m.content != null
    reads m.content
  {
    m.content.v
  }

  /**
    `operator=`: overwrite the payload of a leaf in place. A node of rank
    above 0 terminates the process. Only the leaf's own payload changes.
  */
  method Assign<T>(m: Mda<T>, x: T)
    requires m.d == 0 && m.content != null
    modifies m.content
    ensures Get(m) == x
  {
    m.content.v := x;
  }

  /**
    The accessors on an array built from a non-empty `shape`: `dim()` is
    `|shape|`, `size()` is `shape[0]`, and `operator[]` accepts exactly the
    indices below `size()`, each giving a node of rank `dim() - 1`.
  */
  lemma RootShape<T>(m: Mda<T>, shape: seq<nat>, i: nat)
    requires Conforms(m, shape) && |shape| > 0
    ensures Dim(m) == |shape| && Size(m) == shape[0]
    ensures i < |m.children| <==> i < Size(m)
    ensures i < Size(m) ==> Dim(Index(m, i)) == Dim(m) - 1
  {
    if i < Size(m) {
      assert Conforms(m.children[i], shape[1..]);
    }
  }

  // ---------------------------------------------------------------------------
  // Index paths: repeated `operator[]`

  /** `p` can be followed from `m` by `operator[]`, one index per level. */
  ghost predicate IsPath<T>(m: Mda<T>, p: seq<nat>)
    decreases |p|
  {
    |p| == 0 || (m.d != 0 && p[0] < |m.children| && IsPath(m.children[p[0]], p[1..]))
  }

  /** The node reached from `m` by `m[p[0]][p[1]]...`. */
  function At<T>(m: Mda<T>, p: seq<nat>): Mda<T>
    requires IsPath(m, p)
    decreases |p|
  {
    if |p| == 0 then m else At(Index(m, p[0]), p[1..])
  }

  /** `p` leads from `m` to a leaf that holds a payload. */
  ghost predicate IsLeafPath<T>(m: Mda<T>, p: seq<nat>)
  {
    IsPath(m, p) && At(m, p).d == 0 && At(m, p).content != null
  }

  /** Every index of `p` is below the extent `shape` gives its level. */
  ghost predicate InBounds(p: seq<nat>, shape: seq<nat>)
  {
    |p| <= |shape| && forall k :: 0 <= k < |p| ==> p[k] < shape[k]
  }

  /**
    Rectangularity: in an array built from `shape`, the index paths are exactly
    the in-bounds ones, and the node at depth `k` has rank `|shape| - k` and
    extent `shape[k]` (0 at depth `|shape|`), whichever path leads there.
  */
  lemma {:induction false} Rectangular<T>(m: Mda<T>, shape: seq<nat>, p: seq<nat>)
    requires Conforms(m, shape)
    ensures IsPath(m, p) <==> InBounds(p, shape)
    ensures InBounds(p, shape) ==> Conforms(At(m, p), shape[|p|..])
    ensures InBounds(p, shape) ==> Dim(At(m, p)) == |shape| - |p|
    ensures InBounds(p, shape) ==> Size(At(m, p)) == if |p| < |shape| then shape[|p|] else 0
    decreases |p|
  {
    if |p| > 0 && |shape| > 0 && p[0] < shape[0] {
      var q, tail := p[1..], shape[1..];
      Rectangular(m.children[p[0]], tail, q);
      if InBounds(q, tail) {
        forall k | 0 <= k < |p|
          ensures p[k] < shape[k]
        {
          if k > 0 {
            assert q[k - 1] == p[k];
          }
        }
        assert tail[|q|..] == shape[|p|..];
      }
      if InBounds(p, shape) {
        forall k | 0 <= k < |q|
          ensures q[k] < tail[k]
        {
          assert p[k + 1] < shape[k + 1];
        }
      }
    }
  }

  /**
    The tag invariant: along any index path of an array built from `shape`, a
    node holds a payload exactly when its rank is 0, that is exactly at depth
    `|shape|`, and a rank-0 node has extent 0 and no children.
  */
  lemma TagExclusive<T>(m: Mda<T>, shape: seq<nat>, p: seq<nat>)
    requires Conforms(m, shape) && IsPath(m, p)
    ensures At(m, p).content != null <==> Dim(At(m, p)) == 0
    ensures Dim(At(m, p)) == 0 <==> |p| == |shape|
    ensures Dim(At(m, p)) == 0 ==> Size(At(m, p)) == 0 && At(m, p).children == []
  {
    Rectangular(m, shape, p);
  }

  /** The payload at the end of a leaf path belongs to the root. */
  lemma {:induction false} LeafCellIn<T>(m: Mda<T>, p: seq<nat>)
    requires IsLeafPath(m, p)
    ensures At(m, p).content in Cells(m)
    decreases |p|
  {
    if |p| > 0 {
      LeafCellIn(m.children[p[0]], p[1..]);
      ChildCells(m.children, p[0]);
    }
  }

  /**
    Exclusive ownership seen from the root: two different index paths to
    leaves end at two different payload objects.
  */
  lemma {:induction false} DistinctLeaves<T>(m: Mda<T>, p: seq<nat>, q: seq<nat>)
    requires Owned(m) && IsLeafPath(m, p) && IsLeafPath(m, q) && p != q
    ensures At(m, p).content != At(m, q).content
    decreases |p|
  {
    assert |p| > 0 && |q| > 0;
    var i, j := p[0], q[0];
    LeafCellIn(m.children[i], p[1..]);
    LeafCellIn(m.children[j], q[1..]);
    if i == j {
      assert p[1..] != q[1..];
      OwnedChild(m.children, i);
      DistinctLeaves(m.children[i], p[1..], q[1..]);
    } else if i < j {
      SiblingsDisjoint(m.children, i, j);
    } else {
      SiblingsDisjoint(m.children, j, i);
    }
  }

  /** The payloads of an allocated node are allocated. */
  lemma {:induction false} CellsAllocated<T>(m: Mda<T>)
    requires allocated(m)
    ensures forall c :: c in Cells(m) ==> allocated(c)
    decreases m, 1
  {
    ChildrenAllocated(m.children);
  }

  /** The payloads below allocated siblings are allocated. */
  lemma {:induction false} ChildrenAllocated<T>(cs: seq<Mda<T>>)
    requires allocated(cs)
    ensures forall c :: c in ChildrenCells(cs) ==> allocated(c)
    decreases cs, 0
  {
    if cs != [] {
      ChildrenAllocated(cs[..|cs| - 1]);
      CellsAllocated(cs[|cs| - 1]);
    }
  }

  /**
    The client idiom `a[p[0]]...[p[k]] = x`: `operator[]` down the path, then
    `operator=` on the leaf. Only that leaf's payload changes; every other
    leaf keeps its value, because each leaf owns its own payload object.
  */
  method AssignAt<T>(root: Mda<T>, path: seq<nat>, x: T)
    requires Owned(root) && IsLeafPath(root, path)
    modifies At(root, path).content
    ensures Get(At(root, path)) == x
    ensures forall q :: IsLeafPath(root, q) && q != path ==> Get(At(root, q)) == old(Get(At(root, q)))
  {
    var leaf := At(root, path);
    CellsAllocated(root);
    forall q | IsLeafPath(root, q) && q != path
      ensures At(root, q).content != leaf.content && allocated(At(root, q).content)
    {
      DistinctLeaves(root, q, path);
      LeafCellIn(root, q);
    }
    Assign(leaf, x);
  }

  // ---------------------------------------------------------------------------
  // Construction

  /**
    The private constructor `mda(it, p_d)`: `it` is the position of an iterator
    into `shape`, `pd` the rank still to build. It reads `shape[it]` only when
    `pd > 0` and moves one position on only when `pd > 1`, and every child is
    built from that same position.
  */
  method Build<T>(shape: seq<nat>, it: nat, pd: nat, init: T) returns (m: Mda<T>)
    requires it + pd <= |shape|
    ensures Conforms(m, shape[it..it + pd]) && Owned(m)
    ensures fresh(Cells(m)) && Filled(m, init)
    decreases pd, 1
  {
    if pd != 0 {
      var s := shape[it];
      var next := it;
      if pd != 1 {
        next := it + 1;
      }
      assert shape[next..next + (pd - 1)] == shape[it..it + pd][1..];
      var children := BuildChildren(shape, next, pd - 1, s, init);
      m := Mda(children, pd, s, null);
    } else {
      var c := new Cell(init);
      m := Mda([], 0, 0, c);
    }
  }

  /** The loop of the private constructor: `s` children, each of rank `pd`, built in index order. */
  method BuildChildren<T>(shape: seq<nat>, it: nat, pd: nat, s: nat, init: T) returns (children: seq<Mda<T>>)
    requires it + pd <= |shape|
    ensures |children| == s
    ensures forall j :: 0 <= j < s ==> Conforms(children[j], shape[it..it + pd])
    ensures OwnedChildren(children) && fresh(ChildrenCells(children))
    ensures forall c :: c in ChildrenCells(children) ==> c.v == init
    decreases pd + 1, 0
  {
    children := [];
    ghost var used: set<Cell<T>> := {};
    for i := 0 to s
      invariant |children| == i
      invariant forall j :: 0 <= j < i ==> Conforms(children[j], shape[it..it + pd])
      invariant OwnedChildren(children)
      invariant used == ChildrenCells(children) && fresh(used)
      invariant forall c :: c in used ==> c.v == init
    {
      var child := Build(shape, it, pd, init);
      SnocCells(children, child);
      SnocOwned(children, child);
      children := children + [child];
      used := used + Cells(child);
    }
  }

  /**
    The public constructor `mda(shape)`: rank `|shape|`, starting at the first
    position of `shape`. An empty shape gives a scalar, as the default
    constructor does.
  */
  method New<T>(shape: seq<nat>, init: T) returns (m: Mda<T>)
    ensures Conforms(m, shape) && Owned(m)
    ensures fresh(Cells(m)) && Filled(m, init)
  {
    m := Build(shape, 0, |shape|, init);
    assert shape[0..|shape|] == shape;
  }

  /** The default constructor `mda()`: a scalar holding a fresh default payload. */
  method NewScalar<T>(init: T) returns (m: Mda<T>)
    ensures Conforms(m, []) && Owned(m) && Dim(m) == 0 && Size(m) == 0
    ensures fresh(Cells(m)) && Get(m) == init
  {
    var c := new Cell(init);
    m := Mda([], 0, 0, c);
  }

  // ---------------------------------------------------------------------------
  // Copy

  /**
    The free function `copy`, as written: the result is default-constructed,
    so its rank is always 0, the payload branch is always taken and the
    child-copy loop never runs. The payload of the source is dereferenced,
    which is defined only when the source has one, i.e. when its rank is 0.
  */
  method Copy<T>(src: Mda<T>, init: T) returns (out: Mda<T>)
    requires src.content != null
    ensures Conforms(out, []) && Dim(out) == 0 && Size(out) == 0
    ensures fresh(out.content) && Get(out) == src.content.v
    ensures Conforms(src, []) ==> Same(out, src)
  {
    out := NewScalar(init);
    if Dim(out) == 0 {
      out.content.v := src.content.v;
    }
  }

  /**
    Why `copy` as written is defined only on scalars: the array built from
    shape `[1]` has rank 1 and no payload of its own, so the dereference of the
    source payload on the always-taken branch has nothing to read, and the
    child it does have is never copied.
  */
  lemma CopyRankOneSource<T>(leaf: Cell<T>)
    ensures var src := Mda([Mda([], 0, 0, leaf)], 1, 1, null);
            Conforms(src, [1]) && Dim(src) == 1 && Size(src) == 1 && src.content == null
  {
    var src := Mda([Mda([], 0, 0, leaf)], 1, 1, null);
    assert [1][1..] == [];
  }

  /** `a` and `b` have the same structure and, leaf by leaf, equal payload values. */
  ghost predicate Same<T>(a: Mda<T>, b: Mda<T>)
    reads Cells(a), Cells(b)
    decreases a, 1
  {
    && a.d == b.d && a.s == b.s
    && (a.content == null <==> b.content == null)
    && (a.content != null && b.content != null ==> a.content.v == b.content.v)
    && SameChildren(a.children, b.children)
  }

  /** `Same`, sibling by sibling. */
  ghost predicate SameChildren<T>(cs: seq<Mda<T>>, os: seq<Mda<T>>)
    reads ChildrenCells(cs), ChildrenCells(os)
    decreases cs, 0
  {
    && |cs| == |os|
    && (cs == [] ||
        (SameChildren(cs[..|cs| - 1], os[..|os| - 1]) && Same(cs[|cs| - 1], os[|os| - 1])))
  }

  /** Matching sibling lists match index by index. */
  lemma {:induction false} SameChild<T>(cs: seq<Mda<T>>, os: seq<Mda<T>>, i: nat)
    requires SameChildren(cs, os) && i < |cs|
    ensures |os| == |cs| && Same(cs[i], os[i])
    decreases |cs|
  {
    if i < |cs| - 1 {
      SameChild(cs[..|cs| - 1], os[..|os| - 1], i);
    }
  }

  /**
    What `Same` promises a client of the copy: the same index paths can be
    followed in both arrays, they lead to leaves in both at once, and each
    leaf reads the same value.
  */
  lemma {:induction false} SameLeaves<T>(a: Mda<T>, b: Mda<T>, p: seq<nat>)
    requires Same(a, b)
    ensures IsPath(a, p) <==> IsPath(b, p)
    ensures IsLeafPath(a, p) <==> IsLeafPath(b, p)
    ensures IsLeafPath(a, p) ==> Get(At(a, p)) == Get(At(b, p))
    decreases |p|
  {
    if |p| > 0 && a.d != 0 && p[0] < |a.children| {
      SameChild(a.children, b.children, p[0]);
      SameLeaves(a.children[p[0]], b.children[p[0]], p[1..]);
    }
  }

  /**
    The deep copy that `copy` is meant to be: every child copied in index order
    into a new node of the same rank and extent, every payload cloned into a
    new object, so that nothing in the result aliases the source.
  */
  method DeepCopy<T>(src: Mda<T>, ghost shape: seq<nat>) returns (out: Mda<T>)
    requires Conforms(src, shape)
    ensures Conforms(out, shape) && Owned(out) && Same(out, src)
    ensures fresh(Cells(out)) && Cells(out) !! Cells(src)
    decreases src, 2
  {
    CellsAllocated(src);
    if Dim(src) == 0 {
      out := NewScalar(Get(src));
    } else {
      var children := CopyChildren(src, shape);
      out := Mda(children, Dim(src), Size(src), null);
    }
  }

  /**
    Independence of the deep copy: writing a leaf of the source after copying
    it leaves every leaf of the copy with the value the source held before.
  */
  method CopyThenAssign<T>(src: Mda<T>, ghost shape: seq<nat>, path: seq<nat>, x: T) returns (b: Mda<T>)
    requires Conforms(src, shape) && Owned(src) && IsLeafPath(src, path)
    modifies At(src, path).content
    ensures forall q :: IsLeafPath(b, q) ==> IsLeafPath(src, q)
    ensures forall q :: IsLeafPath(src, q) ==> IsLeafPath(b, q) && Get(At(b, q)) == old(Get(At(src, q)))
    ensures Get(At(src, path)) == x
  {
    CellsAllocated(src);
    b := DeepCopy(src, shape);
    forall q
      ensures IsLeafPath(b, q) <==> IsLeafPath(src, q)
      ensures IsLeafPath(src, q) ==> Get(At(b, q)) == old(Get(At(src, q)))
      ensures IsLeafPath(src, q) ==> At(b, q).content != At(src, path).content
    {
      SameLeaves(b, src, q);
      if IsLeafPath(src, q) {
        LeafCellIn(b, q);
        LeafCellIn(src, q);
        LeafCellIn(src, path);
      }
    }
    label copied:
    AssignAt(src, path, x);
    forall q | IsLeafPath(src, q)
      ensures Get(At(b, q)) == old@copied(Get(At(b, q)))
    {
      assert IsLeafPath(b, q);
      LeafCellIn(b, q);
      assert At(b, q).content != At(src, path).content;
      assert old@copied(allocated(At(b, q).content));
    }
  }

  /** The loop of the deep copy: a copy of each child of `src`, in index order. */
  method CopyChildren<T>(src: Mda<T>, ghost shape: seq<nat>) returns (children: seq<Mda<T>>)
    requires Conforms(src, shape) && |shape| > 0
    ensures |children| == |src.children|
    ensures forall j :: 0 <= j < |children| ==> Conforms(children[j], shape[1..])
    ensures OwnedChildren(children) && SameChildren(children, src.children)
    ensures fresh(ChildrenCells(children))
    decreases src, 1
  {
    children := [];
    for i := 0 to Size(src)
      invariant |children| == i
      invariant forall j :: 0 <= j < i ==> Conforms(children[j], shape[1..])
      invariant OwnedChildren(children) && SameChildren(children, src.children[..i])
      invariant fresh(ChildrenCells(children))
    {
      children := CopyNext(src, shape, children);
    }
    assert src.children[..Size(src)] == src.children;
  }

  /** One turn of the deep copy's loop: `children` copies the first children of `src`; copy the next one. */
  method CopyNext<T>(src: Mda<T>, ghost shape: seq<nat>, children: seq<Mda<T>>) returns (next: seq<Mda<T>>)
    requires Conforms(src, shape) && |shape| > 0 && |children| < |src.children|
    requires OwnedChildren(children) && SameChildren(children, src.children[..|children|])
    ensures |next| == |children| + 1 && next[..|children|] == children
    ensures Conforms(next[|children|], shape[1..])
    ensures OwnedChildren(next) && SameChildren(next, src.children[..|next|])
    ensures fresh(ChildrenCells(next) - ChildrenCells(children))
    decreases src, 0
  {
    var i := |children|;
    ChildrenAllocated(src.children);
    ChildrenAllocated(children);
    PrefixCells(src.children, i);
    var child := DeepCopy(Index(src, i), shape[1..]);
    assert src.children[..i + 1] == src.children[..i] + [src.children[i]];
    SnocCells(children, child);
    SnocOwned(children, child);
    SnocSame(children, src.children[..i], child, src.children[i]);
    next := children + [child];
    assert next[..i] == children;
  }

  /** Appending a sibling adds exactly its payloads. */
  lemma SnocCells<T>(cs: seq<Mda<T>>, c: Mda<T>)
    ensures ChildrenCells(cs + [c]) == ChildrenCells(cs) + Cells(c)
  {
    assert (cs + [c])[..|cs|] == cs;
  }

  /** Appending an owned sibling whose payloads are new to the others keeps the siblings owned. */
  lemma SnocOwned<T>(cs: seq<Mda<T>>, c: Mda<T>)
    requires OwnedChildren(cs) && Owned(c) && Cells(c) !! ChildrenCells(cs)
    ensures OwnedChildren(cs + [c])
  {
    assert (cs + [c])[..|cs|] == cs;
  }

  /** Appending a matching pair of siblings keeps two sibling lists matching. */
  lemma SnocSame<T>(cs: seq<Mda<T>>, os: seq<Mda<T>>, c: Mda<T>, o: Mda<T>)
    requires SameChildren(cs, os) && Same(c, o)
    ensures SameChildren(cs + [c], os + [o])
  {
    assert (cs + [c])[..|cs|] == cs;
    assert (os + [o])[..|os|] == os;
  }

  /** The payloads below a prefix of the siblings are payloads below all of them. */
  lemma {:induction false} PrefixCells<T>(cs: seq<Mda<T>>, i: nat)
    requires i <= |cs|
    ensures ChildrenCells(cs[..i]) <= ChildrenCells(cs)
    decreases |cs|
  {
    if i < |cs| {
      var before := cs[..|cs| - 1];
      PrefixCells(before, i);
      assert before[..i] == cs[..i];
    } else {
      assert cs[..i] == cs;
    }
  }
}
