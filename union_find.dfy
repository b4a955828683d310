/** Disjoint sets by union by size, without path compression (UF.c).
    The parent links live in `id`, the tree sizes in `size`; UF_find follows
    links up to a root and UF_union hangs one root under the other. */
module UnionFind {

  /** The shape every reachable state has: links stay inside the universe,
      sizes are between 1 and N, and a non-root's parent is strictly larger.
      The last part is what makes following the links terminate. */
  ghost predicate Forest(id: seq<int>, size: seq<int>)
  {
    |id| == |size| &&
    forall x :: 0 <= x < |id| ==>
      0 <= id[x] < |id| && 1 <= size[x] <= |id| && (id[x] != x ==> size[x] < size[id[x]])
  }

  /** The root reached from x by following parent links. */
  ghost function Root(id: seq<int>, size: seq<int>, x: int): (r: int)
    requires Forest(id, size) && 0 <= x < |id|
    ensures 0 <= r < |id| && id[r] == r
    ensures id[x] == x ==> r == x
    decreases |id| - size[x]
  {
    if id[x] == x then x else Root(id, size, id[x])
  }

  /** The elements whose root is r. */
  ghost function Members(id: seq<int>, size: seq<int>, r: int): set<int>
    requires Forest(id, size)
  {
    set x | 0 <= x < |id| && Root(id, size, x) == r
  }

  /** Each root's size is the number of elements in its tree. */
  ghost predicate SizesCount(id: seq<int>, size: seq<int>)
    requires Forest(id, size)
  {
    forall r {:trigger Members(id, size, r)} :: 0 <= r < |id| && id[r] == r ==> size[r] == |Members(id, size, r)|
  }

  ghost predicate Sound(id: seq<int>, size: seq<int>)
  {
    Forest(id, size) && SizesCount(id, size)
  }

  /** The universe {0, ..., n-1}. */
  ghost function Range(n: nat): (r: set<int>)
    ensures forall x :: x in r <==> 0 <= x < n
    ensures |r| == n
  {
    if n == 0 then {} else Range(n - 1) + {n - 1}
  }

  lemma SubsetCard(a: set<int>, b: set<int>)
    requires a <= b
    ensures |a| <= |b|
  {
    assert b == a + (b - a);
  }

  /** Two distinct trees together hold at most N elements. */
  lemma TwoTreesFit(id: seq<int>, size: seq<int>, c: int, r: int)
    requires Sound(id, size)
    requires 0 <= c < |id| && 0 <= r < |id| && id[c] == c && id[r] == r && c != r
    ensures size[c] + size[r] <= |id|
  {
    var mc, mr := Members(id, size, c), Members(id, size, r);
    assert mc * mr == {};
    assert |mc + mr| == |mc| + |mr|;
    SubsetCard(mc + mr, Range(|id|));
  }

  /** Hanging root c under root r keeps the forest shape. */
  lemma LinkKeepsForest(id: seq<int>, size: seq<int>, c: int, r: int)
    requires Forest(id, size)
    requires 0 <= c < |id| && 0 <= r < |id| && id[c] == c && id[r] == r && c != r
    requires size[c] + size[r] <= |id|
    ensures Forest(id[c := r], size[r := size[r] + size[c]])
  {
  }

  /** After hanging root c under root r, exactly the elements of c's tree
      change their root, and they now reach r. */
  lemma {:induction false} RootAfterLink(id: seq<int>, size: seq<int>, c: int, r: int, x: int)
    requires Forest(id, size)
    requires 0 <= c < |id| && 0 <= r < |id| && id[c] == c && id[r] == r && c != r
    requires Forest(id[c := r], size[r := size[r] + size[c]])
    requires 0 <= x < |id|
    ensures Root(id[c := r], size[r := size[r] + size[c]], x) ==
            if Root(id, size, x) == c then r else Root(id, size, x)
    decreases |id| - size[x]
  {
    var id', size' := id[c := r], size[r := size[r] + size[c]];
    if x == c {
      assert Root(id', size', x) == Root(id', size', r);
    } else if id[x] != x {
      RootAfterLink(id, size, c, r, id[x]);
    }
  }

  /** Linking keeps every root's size equal to the size of its tree. */
  lemma LinkKeepsCounts(id: seq<int>, size: seq<int>, c: int, r: int)
    requires Sound(id, size)
    requires 0 <= c < |id| && 0 <= r < |id| && id[c] == c && id[r] == r && c != r
    requires size[c] + size[r] <= |id|
    ensures Forest(id[c := r], size[r := size[r] + size[c]])
    ensures SizesCount(id[c := r], size[r := size[r] + size[c]])
  {
    var id', size' := id[c := r], size[r := size[r] + size[c]];
    LinkKeepsForest(id, size, c, r);
    forall x | 0 <= x < |id|
      ensures Root(id', size', x) == if Root(id, size, x) == c then r else Root(id, size, x)
    {
      RootAfterLink(id, size, c, r, x);
    }
    forall t | 0 <= t < |id'| && id'[t] == t
      ensures size'[t] == |Members(id', size', t)|
    {
      if t == r {
        assert Members(id', size', t) == Members(id, size, r) + Members(id, size, c);
        assert Members(id, size, r) * Members(id, size, c) == {};
      } else {
        assert Members(id', size', t) == Members(id, size, t);
      }
    }
  }

  class UF {
    const N: nat
    const id: array<int>
    const size: array<int>

    ghost predicate Valid()
      reads id, size
    {
      id != size && id.Length == N && Sound(id[..], size[..])
    }

    /** The root of x in the current state. */
    ghost function Find(x: int): int
      reads id, size
      requires Valid() && 0 <= x < N
    {
      Root(id[..], size[..], x)
    }

    /** UF_init: N singleton sets. */
    constructor Init(n: nat)
      ensures Valid() && N == n && fresh(id) && fresh(size)
      ensures forall i :: 0 <= i < n ==> id[i] == i && size[i] == 1
    {
      N := n;
      var ids := new int[n];
      var sizes := new int[n];
      for i := 0 to n
        invariant forall k :: 0 <= k < i ==> ids[k] == k && sizes[k] == 1
      {
        ids[i], sizes[i] := i, 1;
      }
      id, size := ids, sizes;
      forall r | 0 <= r < n
        ensures Members(ids[..], sizes[..], r) == {r}
      {
      }
    }

    /** UF_find: follow parent links from p to its root. */
    method UFFind(p: int) returns (i: int)
      requires Valid() && 0 <= p < N
      ensures 0 <= i < N && id[i] == i
      ensures i == Find(p)
    {
      i := p;
      while i != id[i]
        invariant 0 <= i < N
        invariant Root(id[..], size[..], i) == Root(id[..], size[..], p)
        decreases N - size[i]
      {
        i := id[i];
      }
    }

    /** UF_union: -1 if p and q already share a root, otherwise 0 after
        hanging the smaller root under the larger (p's root on a tie). */
    method UFUnion(p: int, q: int) returns (res: int)
      requires Valid() && 0 <= p < N && 0 <= q < N
      modifies id, size
      ensures Valid()
      ensures res == 0 || res == -1
      ensures res == -1 <==> old(Find(p)) == old(Find(q))
      ensures res == -1 ==> id[..] == old(id[..]) && size[..] == old(size[..])
      ensures res == 0 ==> Find(p) == Find(q)
      ensures res == 0 ==>
        var i, j := old(Find(p)), old(Find(q));
        var r := if old(size[i]) > old(size[j]) then i else j;
        var c := if r == i then j else i;
        id[..] == old(id[..])[c := r] &&
        size[..] == old(size[..])[r := old(size[r]) + old(size[c])] &&
        forall x :: 0 <= x < N ==> Find(x) == if old(Find(x)) == c then r else old(Find(x))
    {
      var i := UFFind(p);
      var j := UFFind(q);
      if i == j {
        return -1;
      }
      ghost var ids, sizes := id[..], size[..];
      TwoTreesFit(ids, sizes, i, j);
      if size[i] > size[j] {
        size[i] := size[i] + size[j];
        assert size[..] == sizes[i := sizes[i] + sizes[j]];
        id[j] := id[i];
        assert id[..] == ids[j := i];
        LinkKeepsCounts(ids, sizes, j, i);
        forall x | 0 <= x < N
          ensures Find(x) == if Root(ids, sizes, x) == j then i else Root(ids, sizes, x)
        {
          RootAfterLink(ids, sizes, j, i, x);
        }
      } else {
        size[j] := size[j] + size[i];
        assert size[..] == sizes[j := sizes[j] + sizes[i]];
        id[i] := id[j];
        assert id[..] == ids[i := j];
        LinkKeepsCounts(ids, sizes, i, j);
        forall x | 0 <= x < N
          ensures Find(x) == if Root(ids, sizes, x) == i then j else Root(ids, sizes, x)
        {
          RootAfterLink(ids, sizes, i, j, x);
        }
      }
      res := 0;
    }
  }
}
