/** The dynamic graph store of dynagraph.c: an undirected weighted multigraph
    over vertex slots 0 .. V-1. Each slot has an active flag and an adjacency
    list; an edge (v, w, wt) is kept as the entry (w, wt) in v's list and the
    entry (v, wt) in w's list, new entries going to the head. Removed slots
    wait in a FIFO queue and are handed out again before any fresh slot;
    when no slot is left the capacity V doubles. */
module DynaGraph {

  /** One adjacency-list node: the neighbour and the weight of the edge. */
  datatype Link = Link(v: int, wt: int)

  /** The Edge record of dynagraph.h. */
  datatype Edge = Edge(v: int, w: int, wt: int)

  // ---------------------------------------------------------------------
  // Adjacency lists as values

  /** The list has an entry for neighbour w. */
  predicate HasLink(s: seq<Link>, w: int)
  {
    exists k :: 0 <= k < |s| && s[k].v == w
  }

  lemma HasLinkTail(s: seq<Link>, w: int)
    requires s != []
    ensures HasLink(s, w) <==> s[0].v == w || HasLink(s[1..], w)
  {
    if HasLink(s, w) && s[0].v != w {
      var k :| 0 <= k < |s| && s[k].v == w;
      assert s[1..][k - 1].v == w;
    }
    if HasLink(s[1..], w) {
      var k :| 0 <= k < |s[1..]| && s[1..][k].v == w;
      assert s[k + 1].v == w;
    }
  }

  /** The weights of the entries for neighbour w, in list order: the parallel
      edges between the list's vertex and w, most recent first. */
  function Weights(s: seq<Link>, w: int): (r: seq<int>)
    ensures |r| <= |s|
  {
    if s == [] then [] else (if s[0].v == w then [s[0].wt] else []) + Weights(s[1..], w)
  }

  /** A list has weights for w exactly when it has an entry for w. */
  lemma {:induction false} WeightsEmpty(s: seq<Link>, w: int)
    ensures Weights(s, w) == [] <==> !HasLink(s, w)
  {
    if s != [] {
      HasLinkTail(s, w);
      WeightsEmpty(s[1..], w);
    }
  }

  /** The list after the first-match unlink of DynaGraphEdgeRemove: the first
      entry for neighbour w goes, the others keep their order. */
  function RemoveFirst(s: seq<Link>, w: int): (r: seq<Link>)
    ensures |r| <= |s|
  {
    if s == [] then []
    else if s[0].v == w then s[1..] else [s[0]] + RemoveFirst(s[1..], w)
  }

  /** The first-match unlink takes out one entry when there is an entry for
      w, and leaves the list alone otherwise; it never adds an entry. */
  lemma {:induction false} RemoveFirstFacts(s: seq<Link>, w: int)
    ensures |RemoveFirst(s, w)| == if HasLink(s, w) then |s| - 1 else |s|
    ensures !HasLink(s, w) ==> RemoveFirst(s, w) == s
    ensures forall x :: x in RemoveFirst(s, w) ==> x in s
  {
    if s != [] {
      HasLinkTail(s, w);
      RemoveFirstFacts(s[1..], w);
    }
  }

  /** The list with every entry for neighbour v gone, the others in order. */
  function RemoveAll(s: seq<Link>, v: int): (r: seq<Link>)
    ensures |r| <= |s|
  {
    if s == [] then []
    else if s[0].v == v then RemoveAll(s[1..], v) else [s[0]] + RemoveAll(s[1..], v)
  }

  /** RemoveAll leaves no entry for v and adds none. */
  lemma {:induction false} RemoveAllFacts(s: seq<Link>, v: int)
    ensures !HasLink(RemoveAll(s, v), v)
    ensures forall x :: x in RemoveAll(s, v) ==> x in s
  {
    if s != [] {
      RemoveAllFacts(s[1..], v);
      var rest := RemoveAll(s[1..], v);
      if s[0].v != v {
        HasLinkTail([s[0]] + rest, v);
        assert ([s[0]] + rest)[1..] == rest;
      }
    }
  }

  /** Taking out the first entry for w takes out the first weight of the
      w-edges and leaves every other neighbour's weights alone. */
  lemma {:induction false} WeightsRemoveFirst(s: seq<Link>, w: int, u: int)
    requires HasLink(s, w)
    ensures Weights(s, w) != []
    ensures Weights(RemoveFirst(s, w), u) == if u == w then Weights(s, u)[1..] else Weights(s, u)
  {
    WeightsEmpty(s, w);
    HasLinkTail(s, w);
    if s[0].v != w {
      WeightsRemoveFirst(s[1..], w, u);
      var r := RemoveFirst(s[1..], w);
      assert ([s[0]] + r)[1..] == r;
    }
  }

  lemma {:induction false} WeightsRemoveAll(s: seq<Link>, v: int, u: int)
    requires u != v
    ensures Weights(RemoveAll(s, v), u) == Weights(s, u)
  {
    if s != [] {
      WeightsRemoveAll(s[1..], v, u);
      var rest := RemoveAll(s[1..], v);
      assert ([s[0]] + rest)[1..] == rest;
    }
  }

  /** RemoveAll absorbs an earlier first-match removal of the same neighbour. */
  lemma {:induction false} RemoveAllAfterFirst(s: seq<Link>, v: int)
    ensures RemoveAll(RemoveFirst(s, v), v) == RemoveAll(s, v)
  {
    if s != [] && s[0].v != v {
      RemoveAllAfterFirst(s[1..], v);
      var r := RemoveFirst(s[1..], v);
      assert ([s[0]] + r)[1..] == r;
    }
  }

  /** A list without entries for v is its own RemoveAll. */
  lemma {:induction false} RemoveAllNone(s: seq<Link>, v: int)
    requires !HasLink(s, v)
    ensures RemoveAll(s, v) == s
  {
    if s != [] {
      HasLinkTail(s, v);
      RemoveAllNone(s[1..], v);
    }
  }

  /** The first-match unlink, with the index the scan of
      DynaGraphEdgeRemove stops at. */
  lemma {:induction false} RemoveFirstCut(s: seq<Link>, w: int, k: int)
    requires 0 <= k <= |s|
    requires forall j :: 0 <= j < k ==> s[j].v != w
    requires k < |s| ==> s[k].v == w
    ensures HasLink(s, w) <==> k < |s|
    ensures RemoveFirst(s, w) == if k < |s| then s[..k] + s[k + 1..] else s
  {
    if 0 < k {
      HasLinkTail(s, w);
      assert forall j :: 0 <= j < k - 1 ==> s[1..][j] == s[j + 1];
      RemoveFirstCut(s[1..], w, k - 1);
      if k < |s| {
        assert s[..k] + s[k + 1..] == [s[0]] + (s[1..][..k - 1] + s[1..][k..]);
      } else {
        assert s == [s[0]] + s[1..];
      }
    } else if k == |s| {
      assert s == [];
    } else {
      HasLinkTail(s, w);
    }
  }

  // ---------------------------------------------------------------------
  // The whole adjacency structure as a value

  /** The number of entries over all lists. */
  function Total(adj: seq<seq<Link>>): nat
  {
    if adj == [] then 0 else Total(adj[..|adj| - 1]) + |adj[|adj| - 1]|
  }

  lemma {:induction false} TotalUpdate(adj: seq<seq<Link>>, i: int, s: seq<Link>)
    requires 0 <= i < |adj|
    ensures Total(adj[i := s]) == Total(adj) - |adj[i]| + |s|
    decreases |adj|
  {
    var n := |adj| - 1;
    if i < n {
      assert adj[i := s][..n] == adj[..n][i := s];
      TotalUpdate(adj[..n], i, s);
    } else {
      assert adj[i := s][..n] == adj[..n];
    }
  }

  lemma {:induction false} TotalAppendEmpty(adj: seq<seq<Link>>, k: nat)
    ensures Total(adj + Empties(k)) == Total(adj)
  {
    if k > 0 {
      assert (adj + Empties(k))[..|adj| + k - 1] == adj + Empties(k - 1);
      TotalAppendEmpty(adj, k - 1);
    } else {
      assert adj + Empties(0) == adj;
    }
  }

  /** k empty lists, the new half of a doubled adjacency array. */
  function Empties(k: nat): (r: seq<seq<Link>>)
    ensures |r| == k && forall i :: 0 <= i < k ==> r[i] == []
  {
    seq(k, _ => [])
  }

  /** k cleared flags, the new half of a doubled is_active array. */
  function Unset(k: nat): (r: seq<bool>)
    ensures |r| == k && forall i :: 0 <= i < k ==> !r[i]
  {
    seq(k, _ => false)
  }

  /** Every entry of the list names one of the n slots. */
  ghost predicate Names(s: seq<Link>, n: int)
  {
    forall k :: 0 <= k < |s| ==> 0 <= s[k].v < n
  }

  lemma NamesSub(s: seq<Link>, t: seq<Link>, n: int)
    requires Names(s, n) && forall x :: x in t ==> x in s
    ensures Names(t, n)
  {
    forall k | 0 <= k < |t| ensures 0 <= t[k].v < n {
      assert t[k] in s;
    }
  }

  /** Every entry names a slot. */
  ghost predicate InRange(adj: seq<seq<Link>>)
  {
    forall i :: 0 <= i < |adj| ==> Names(adj[i], |adj|)
  }

  /** Both sides of every vertex pair list the same parallel edges with the
      same weights in the same order. */
  ghost predicate Symmetric(adj: seq<seq<Link>>)
  {
    forall i, j :: 0 <= i < |adj| && 0 <= j < |adj| ==> Weights(adj[i], j) == Weights(adj[j], i)
  }

  /** A self-loop puts two entries into its vertex's own list. */
  ghost predicate LoopsPaired(adj: seq<seq<Link>>)
  {
    forall i :: 0 <= i < |adj| ==> |Weights(adj[i], i)| % 2 == 0
  }

  /** The adjacency invariant: the lists are paired and the edge count is
      the number of pairs. */
  ghost predicate AdjOk(adj: seq<seq<Link>>, e: int)
  {
    InRange(adj) && Symmetric(adj) && LoopsPaired(adj) && Total(adj) == 2 * e
  }

  /** The lists after DynaGraphEdgeInsert(v, w, wt) with both ends in range
      and active: (w, wt) goes to the head of v's list, then (v, wt) to the
      head of w's list. */
  function Linked(adj: seq<seq<Link>>, v: int, w: int, wt: int): (r: seq<seq<Link>>)
    requires 0 <= v < |adj| && 0 <= w < |adj|
    ensures |r| == |adj|
  {
    var a: seq<seq<Link>> := adj[v := [Link(w, wt)] + adj[v]];
    a[w := [Link(v, wt)] + a[w]]
  }

  /** The lists after DynaGraphEdgeRemove(v, w) with both ends in range: the
      first entry for w leaves v's list; if there was one, the first entry
      for v then leaves w's list (the scan of the second list finding nothing
      leaves it as it is). */
  function EdgeRemoved(adj: seq<seq<Link>>, v: int, w: int): (r: seq<seq<Link>>)
    requires 0 <= v < |adj| && 0 <= w < |adj|
    ensures |r| == |adj|
  {
    if !HasLink(adj[v], w) then adj
    else
      var a := adj[v := RemoveFirst(adj[v], w)];
      a[w := RemoveFirst(a[w], v)]
  }

  /** DynaGraphEdgeRemove found an entry on both sides, so it lowers E. */
  predicate BothFound(adj: seq<seq<Link>>, v: int, w: int)
    requires 0 <= v < |adj| && 0 <= w < |adj|
  {
    HasLink(adj[v], w) && HasLink(adj[v := RemoveFirst(adj[v], w)][w], v)
  }

  /** The lists after DynaGraphNodeRemove(v): v's list is empty and no list
      has an entry for v. */
  function Detached(adj: seq<seq<Link>>, v: int): (r: seq<seq<Link>>)
    requires 0 <= v < |adj|
    ensures |r| == |adj| && r[v] == []
  {
    seq(|adj|, i requires 0 <= i < |adj| => if i == v then [] else RemoveAll(adj[i], v))
  }

  lemma WeightsPrepend(x: Link, s: seq<Link>, u: int)
    ensures Weights([x] + s, u) == (if x.v == u then [x.wt] else []) + Weights(s, u)
  {
    assert ([x] + s)[1..] == s;
  }

  /** The weights list i holds for neighbour j after inserting (v, w, wt). */
  lemma InsertWeights(adj: seq<seq<Link>>, v: int, w: int, wt: int, i: int, j: int)
    requires 0 <= v < |adj| && 0 <= w < |adj| && 0 <= i < |adj|
    ensures Weights(Linked(adj, v, w, wt)[i], j) ==
      (if i == w && j == v then [wt] else []) + (if i == v && j == w then [wt] else []) + Weights(adj[i], j)
  {
    var a: seq<seq<Link>> := adj[v := [Link(w, wt)] + adj[v]];
    if i == v {
      WeightsPrepend(Link(w, wt), adj[v], j);
    }
    if i == w {
      WeightsPrepend(Link(v, wt), a[w], j);
    }
  }

  /** Inserting an edge keeps the adjacency invariant and adds one pair. */
  lemma InsertAdj(adj: seq<seq<Link>>, e: int, v: int, w: int, wt: int)
    requires AdjOk(adj, e) && 0 <= v < |adj| && 0 <= w < |adj|
    ensures AdjOk(Linked(adj, v, w, wt), e + 1)
  {
    var a: seq<seq<Link>> := adj[v := [Link(w, wt)] + adj[v]];
    TotalUpdate(adj, v, [Link(w, wt)] + adj[v]);
    TotalUpdate(a, w, [Link(v, wt)] + a[w]);
    InsertRange(adj, v, w, wt);
    InsertSymmetric(adj, v, w, wt);
    InsertLoops(adj, v, w, wt);
  }

  lemma InsertRange(adj: seq<seq<Link>>, v: int, w: int, wt: int)
    requires InRange(adj) && 0 <= v < |adj| && 0 <= w < |adj|
    ensures InRange(Linked(adj, v, w, wt))
  {
    var a: seq<seq<Link>> := adj[v := [Link(w, wt)] + adj[v]];
    var r: seq<seq<Link>> := Linked(adj, v, w, wt);
    forall i | 0 <= i < |r| ensures Names(r[i], |r|) {
      assert Names(adj[i], |adj|);
      if i == v {
        assert Names(a[i], |adj|);
      }
    }
  }

  lemma InsertSymmetric(adj: seq<seq<Link>>, v: int, w: int, wt: int)
    requires Symmetric(adj) && 0 <= v < |adj| && 0 <= w < |adj|
    ensures Symmetric(Linked(adj, v, w, wt))
  {
    var r: seq<seq<Link>> := Linked(adj, v, w, wt);
    forall i, j | 0 <= i < |r| && 0 <= j < |r|
      ensures Weights(r[i], j) == Weights(r[j], i)
    {
      InsertWeights(adj, v, w, wt, i, j);
      InsertWeights(adj, v, w, wt, j, i);
      assert Weights(adj[i], j) == Weights(adj[j], i);
    }
  }

  lemma InsertLoops(adj: seq<seq<Link>>, v: int, w: int, wt: int)
    requires LoopsPaired(adj) && 0 <= v < |adj| && 0 <= w < |adj|
    ensures LoopsPaired(Linked(adj, v, w, wt))
  {
    var r: seq<seq<Link>> := Linked(adj, v, w, wt);
    forall i | 0 <= i < |r| ensures |Weights(r[i], i)| % 2 == 0 {
      InsertWeights(adj, v, w, wt, i, i);
      var k := |Weights(adj[i], i)|;
      assert k % 2 == 0;
      if i == v && i == w {
        assert |Weights(r[i], i)| == k + 2;
      } else {
        assert |Weights(r[i], i)| == k;
      }
    }
  }

  /** The weights list i holds for neighbour j after both unlinks of
      DynaGraphEdgeRemove(v, w) found their entry: one weight fewer for
      each side of the pair (v, w) that (i, j) is. */
  lemma RemoveWeights(adj: seq<seq<Link>>, v: int, w: int, i: int, j: int)
    requires 0 <= v < |adj| && 0 <= w < |adj| && 0 <= i < |adj| && BothFound(adj, v, w)
    ensures var d := (if i == v && j == w then 1 else 0) + (if i == w && j == v then 1 else 0);
      d <= |Weights(adj[i], j)| && Weights(EdgeRemoved(adj, v, w)[i], j) == Weights(adj[i], j)[d..]
  {
    var a: seq<seq<Link>> := adj[v := RemoveFirst(adj[v], w)];
    WeightsRemoveFirst(adj[v], w, j);
    WeightsRemoveFirst(a[w], v, j);
  }

  /** Under the invariant, an entry for w in v's list has its partner entry
      in w's list, so the second scan of DynaGraphEdgeRemove always finds
      one. */
  lemma RemoveFindsPartner(adj: seq<seq<Link>>, e: int, v: int, w: int)
    requires AdjOk(adj, e) && 0 <= v < |adj| && 0 <= w < |adj| && HasLink(adj[v], w)
    ensures BothFound(adj, v, w)
  {
    var a: seq<seq<Link>> := adj[v := RemoveFirst(adj[v], w)];
    WeightsRemoveFirst(adj[v], w, v);
    if v == w {
      assert |Weights(adj[v], v)| % 2 == 0;
    } else {
      assert Weights(adj[v], w) == Weights(adj[w], v);
    }
    WeightsEmpty(a[w], v);
  }

  /** Removing an edge that v's list holds keeps the adjacency invariant and
      takes away one pair. */
  lemma RemoveAdj(adj: seq<seq<Link>>, e: int, v: int, w: int)
    requires AdjOk(adj, e) && 0 <= v < |adj| && 0 <= w < |adj| && HasLink(adj[v], w)
    ensures BothFound(adj, v, w)
    ensures AdjOk(EdgeRemoved(adj, v, w), e - 1)
  {
    RemoveFindsPartner(adj, e, v, w);
    var a: seq<seq<Link>> := adj[v := RemoveFirst(adj[v], w)];
    RemoveFirstFacts(adj[v], w);
    RemoveFirstFacts(a[w], v);
    TotalUpdate(adj, v, a[v]);
    TotalUpdate(a, w, RemoveFirst(a[w], v));
    RemoveRange(adj, v, w);
    RemoveSymmetric(adj, v, w);
    RemoveLoops(adj, v, w);
  }

  lemma RemoveRange(adj: seq<seq<Link>>, v: int, w: int)
    requires InRange(adj) && 0 <= v < |adj| && 0 <= w < |adj|
    ensures InRange(EdgeRemoved(adj, v, w))
  {
    var a: seq<seq<Link>> := adj[v := RemoveFirst(adj[v], w)];
    var r: seq<seq<Link>> := EdgeRemoved(adj, v, w);
    if HasLink(adj[v], w) {
      assert Names(adj[v], |adj|) && Names(adj[w], |adj|);
      RemoveFirstFacts(adj[v], w);
      RemoveFirstFacts(a[w], v);
      NamesSub(adj[v], a[v], |adj|);
      NamesSub(a[w], r[w], |adj|);
      forall i | 0 <= i < |r| ensures Names(r[i], |r|) {
        assert Names(adj[i], |adj|);
      }
    }
  }

  lemma RemoveSymmetric(adj: seq<seq<Link>>, v: int, w: int)
    requires Symmetric(adj) && 0 <= v < |adj| && 0 <= w < |adj| && BothFound(adj, v, w)
    ensures Symmetric(EdgeRemoved(adj, v, w))
  {
    var r: seq<seq<Link>> := EdgeRemoved(adj, v, w);
    forall i, j | 0 <= i < |r| && 0 <= j < |r|
      ensures Weights(r[i], j) == Weights(r[j], i)
    {
      RemoveWeights(adj, v, w, i, j);
      RemoveWeights(adj, v, w, j, i);
      assert Weights(adj[i], j) == Weights(adj[j], i);
    }
  }

  lemma RemoveLoops(adj: seq<seq<Link>>, v: int, w: int)
    requires LoopsPaired(adj) && 0 <= v < |adj| && 0 <= w < |adj| && BothFound(adj, v, w)
    ensures LoopsPaired(EdgeRemoved(adj, v, w))
  {
    var r: seq<seq<Link>> := EdgeRemoved(adj, v, w);
    forall i | 0 <= i < |r| ensures |Weights(r[i], i)| % 2 == 0 {
      RemoveWeights(adj, v, w, i, i);
      var k := |Weights(adj[i], i)|;
      assert k % 2 == 0;
      if i == v && i == w {
        assert |Weights(r[i], i)| == k - 2;
      } else {
        assert |Weights(r[i], i)| == k;
      }
    }
  }

  /** Doubling the slot count keeps the adjacency invariant. */
  lemma GrowAdj(adj: seq<seq<Link>>, e: int, k: nat)
    requires AdjOk(adj, e)
    ensures AdjOk(adj + Empties(k), e)
  {
    var r := adj + Empties(k);
    TotalAppendEmpty(adj, k);
    forall i, j | 0 <= i < |r| && 0 <= j < |r|
      ensures Weights(r[i], j) == Weights(r[j], i)
    {
      if i < |adj| && j < |adj| {
        assert Weights(adj[i], j) == Weights(adj[j], i);
      } else if i < |adj| {
        assert Names(adj[i], |adj|);
        WeightsEmpty(r[i], j);
      } else if j < |adj| {
        assert Names(adj[j], |adj|);
        WeightsEmpty(r[j], i);
      }
    }
  }

  // ---------------------------------------------------------------------
  // Slot bookkeeping as a value

  /** The slot invariant: n_vertex slots were handed out, the rest are
      inactive; the queue holds each inactive handed-out slot exactly once. */
  ghost predicate SlotsOk(active: seq<bool>, n: int, q: seq<int>)
  {
    0 <= n <= |active| &&
    (forall i :: n <= i < |active| ==> !active[i]) &&
    (forall k :: 0 <= k < |q| ==> 0 <= q[k] < n && !active[q[k]]) &&
    (forall k, l :: 0 <= k < l < |q| ==> q[k] != q[l]) &&
    (forall i :: 0 <= i < n && !active[i] ==> i in q)
  }

  /** Inactive slots have empty lists. */
  ghost predicate Isolated(active: seq<bool>, adj: seq<seq<Link>>)
  {
    |active| == |adj| && forall i :: 0 <= i < |adj| && !active[i] ==> adj[i] == []
  }

  lemma GrowSlots(active: seq<bool>, adj: seq<seq<Link>>, n: int, q: seq<int>, k: nat)
    requires SlotsOk(active, n, q) && Isolated(active, adj)
    ensures SlotsOk(active + Unset(k), n, q) && Isolated(active + Unset(k), adj + Empties(k))
  {
  }

  /** Handing out the next fresh slot when the queue is empty. */
  lemma ActivateFresh(active: seq<bool>, adj: seq<seq<Link>>, n: int)
    requires SlotsOk(active, n, []) && Isolated(active, adj) && n < |active|
    ensures SlotsOk(active[n := true], n + 1, []) && Isolated(active[n := true], adj)
  {
  }

  /** Handing out the oldest queued slot. */
  lemma ActivateQueued(active: seq<bool>, adj: seq<seq<Link>>, n: int, q: seq<int>)
    requires SlotsOk(active, n, q) && Isolated(active, adj) && q != []
    ensures SlotsOk(active[q[0] := true], n, q[1..]) && Isolated(active[q[0] := true], adj)
  {
    var q' := q[1..];
    forall i | 0 <= i < n && !active[q[0] := true][i] ensures i in q' {
      assert i in q && i != q[0];
      var k :| 0 <= k < |q| && q[k] == i;
      assert q'[k - 1] == i;
    }
  }

  /** Removing an active slot and queueing it. */
  lemma Deactivate(active: seq<bool>, n: int, q: seq<int>, v: int)
    requires SlotsOk(active, n, q) && 0 <= v < |active| && active[v]
    ensures SlotsOk(active[v := false], n, q + [v])
  {
    assert v < n;
    assert v !in q;
  }

  /** The store invariant on values: adjacency, slots, isolation. */
  ghost predicate GraphInv(adj: seq<seq<Link>>, e: int, active: seq<bool>, n: int, q: seq<int>)
  {
    AdjOk(adj, e) && SlotsOk(active, n, q) && Isolated(active, adj)
  }

  lemma InsertKeeps(adj: seq<seq<Link>>, e: int, active: seq<bool>, n: int, q: seq<int>, v: int, w: int, wt: int)
    requires GraphInv(adj, e, active, n, q)
    requires 0 <= v < |adj| && 0 <= w < |adj| && active[v] && active[w]
    ensures GraphInv(Linked(adj, v, w, wt), e + 1, active, n, q)
  {
    InsertAdj(adj, e, v, w, wt);
  }

  lemma GrowKeeps(adj: seq<seq<Link>>, e: int, active: seq<bool>, n: int, q: seq<int>, k: nat)
    requires GraphInv(adj, e, active, n, q)
    ensures GraphInv(adj + Empties(k), e, active + Unset(k), n, q)
  {
    GrowAdj(adj, e, k);
    GrowSlots(active, adj, n, q, k);
  }

  lemma FreshKeeps(adj: seq<seq<Link>>, e: int, active: seq<bool>, n: int)
    requires GraphInv(adj, e, active, n, []) && n < |active|
    ensures GraphInv(adj, e, active[n := true], n + 1, [])
  {
    ActivateFresh(active, adj, n);
  }

  lemma QueuedKeeps(adj: seq<seq<Link>>, e: int, active: seq<bool>, n: int, q: seq<int>)
    requires GraphInv(adj, e, active, n, q) && q != []
    ensures GraphInv(adj, e, active[q[0] := true], n, q[1..])
  {
    ActivateQueued(active, adj, n, q);
  }

  /** Partway through DynaGraphNodeRemove(v): apart from v's own list, each
      list has lost only entries for v. */
  ghost predicate Detaching(cur: seq<seq<Link>>, adj: seq<seq<Link>>, v: int)
  {
    |cur| == |adj| &&
    forall i :: 0 <= i < |cur| && i != v ==> RemoveAll(cur[i], v) == RemoveAll(adj[i], v)
  }

  /** One round of the loop of DynaGraphNodeRemove(v): the head entry of v's
      list names a neighbour w other than v, removing the edge (v, w) finds
      both entries, takes exactly the head off v's list and only an entry for
      v off w's list. */
  lemma DetachStep(cur: seq<seq<Link>>, e: int, adj: seq<seq<Link>>, v: int)
    requires AdjOk(cur, e) && Detaching(cur, adj, v) && 0 <= v < |cur|
    requires cur[v] != [] && !HasLink(cur[v], v)
    ensures var w := cur[v][0].v;
      0 <= w < |cur| && w != v && BothFound(cur, v, w) &&
      EdgeRemoved(cur, v, w)[v] == cur[v][1..] && !HasLink(cur[v][1..], v) &&
      Detaching(EdgeRemoved(cur, v, w), adj, v)
  {
    var x := cur[v];
    var w := x[0].v;
    assert Names(cur[v], |cur|);
    HasLinkTail(x, v);
    HasLinkTail(x, w);
    RemoveAdj(cur, e, v, w);
    var r := EdgeRemoved(cur, v, w);
    RemoveAllAfterFirst(cur[w], v);
    forall i | 0 <= i < |r| && i != v ensures RemoveAll(r[i], v) == RemoveAll(adj[i], v) {
      assert RemoveAll(cur[i], v) == RemoveAll(adj[i], v);
    }
  }

  /** When the loop of DynaGraphNodeRemove(v) ends, v's list is empty, so by
      symmetry no list keeps an entry for v: the lists are Detached(adj, v),
      and the slot v, now inactive, is isolated. */
  lemma DetachDone(cur: seq<seq<Link>>, e: int, adj: seq<seq<Link>>, v: int, active: seq<bool>)
    requires AdjOk(cur, e) && Detaching(cur, adj, v) && 0 <= v < |cur| && cur[v] == []
    requires Isolated(active, adj)
    ensures cur == Detached(adj, v)
    ensures Isolated(active[v := false], cur)
  {
    forall i | 0 <= i < |cur| && i != v
      ensures cur[i] == RemoveAll(adj[i], v)
    {
      assert Weights(cur[i], v) == Weights(cur[v], i) == [];
      WeightsEmpty(cur[i], v);
      RemoveAllNone(cur[i], v);
    }
    assert cur == Detached(adj, v);
  }

  /** The state DynaGraphinit builds satisfies the invariant. */
  lemma InitInv(n: nat)
    ensures GraphInv(Empties(n), 0, Unset(n), 0, [])
  {
    GrowKeeps([], 0, [], 0, [], n);
    assert [] + Empties(n) == Empties(n);
    assert [] + Unset(n) == Unset(n);
  }

  /** Edge removal only shortens lists, so inactive slots stay isolated. */
  lemma RemoveIsolated(active: seq<bool>, adj: seq<seq<Link>>, v: int, w: int)
    requires Isolated(active, adj) && 0 <= v < |adj| && 0 <= w < |adj|
    ensures Isolated(active, EdgeRemoved(adj, v, w))
  {
  }

  // ---------------------------------------------------------------------
  // Helpers with loops

  /** The for loop of DynaGraphEdgeRemove: walk to the first entry for w,
      then bypass it. */
  method Unlink(s: seq<Link>, w: int) returns (r: seq<Link>, found: bool)
    ensures found <==> HasLink(s, w)
    ensures r == RemoveFirst(s, w)
    ensures !found ==> r == s
  {
    var k := 0;
    while k < |s| && s[k].v != w
      invariant 0 <= k <= |s|
      invariant forall j :: 0 <= j < k ==> s[j].v != w
    {
      k := k + 1;
    }
    RemoveFirstCut(s, w, k);
    found := k < |s|;
    if found {
      r := s[..k] + s[k + 1..];
    } else {
      r := s;
    }
  }

  /** The two calloc calls of DynaGraphinit: n empty lists, n cleared flags. */
  method Cleared(n: nat) returns (ladj: array<seq<Link>>, active: array<bool>)
    ensures fresh(ladj) && fresh(active)
    ensures ladj[..] == Empties(n) && active[..] == Unset(n)
  {
    ladj := new seq<Link>[n];
    active := new bool[n];
    for i := 0 to n
      invariant forall k :: 0 <= k < i ==> ladj[k] == [] && !active[k]
    {
      ladj[i] := [];
      active[i] := false;
    }
    assert ladj[..] == Empties(n);
    assert active[..] == Unset(n);
  }

  /** The growth step of DynaGraphNodeInsert: copy both arrays into arrays
      twice as long and clear the new half. */
  method Doubled(ladj: array<seq<Link>>, active: array<bool>)
    returns (ladj2: array<seq<Link>>, active2: array<bool>)
    requires ladj.Length == active.Length
    ensures fresh(ladj2) && fresh(active2)
    ensures ladj2[..] == ladj[..] + Empties(ladj.Length)
    ensures active2[..] == active[..] + Unset(ladj.Length)
  {
    var n := ladj.Length;
    ladj2 := new seq<Link>[2 * n];
    active2 := new bool[2 * n];
    for i := 0 to n
      invariant forall k :: 0 <= k < i ==> ladj2[k] == ladj[k] && active2[k] == active[k]
    {
      ladj2[i] := ladj[i];
      active2[i] := active[i];
    }
    for i := n to 2 * n
      invariant forall k :: 0 <= k < n ==> ladj2[k] == ladj[k] && active2[k] == active[k]
      invariant forall k :: n <= k < i ==> ladj2[k] == [] && !active2[k]
    {
      ladj2[i] := [];
      active2[i] := false;
    }
    assert ladj2[..] == ladj[..] + Empties(n);
    assert active2[..] == active[..] + Unset(n);
  }

  // ---------------------------------------------------------------------
  // The store

  class Graph {
    var V: int
    var E: int
    var nVertex: int
    var ladj: array<seq<Link>>
    var isActive: array<bool>
    var queue: seq<int>

    /** The array shapes and the adjacency invariant. */
    ghost predicate Shaped()
      reads this, ladj
    {
      V >= 1 && ladj.Length == V && AdjOk(ladj[..], E)
    }

    ghost predicate Valid()
      reads this, ladj, isActive
    {
      V >= 1 && ladj.Length == V && isActive.Length == V &&
      GraphInv(ladj[..], E, isActive[..], nVertex, queue)
    }

    /** DynaGraphinit: V inactive slots with empty lists, no edges. */
    constructor Init(n: int)
      requires n >= 1
      ensures Valid()
      ensures V == n && E == 0 && nVertex == 0 && queue == []
      ensures forall i :: 0 <= i < n ==> ladj[i] == [] && !isActive[i]
    {
      var lists, flags := Cleared(n);
      V, E, nVertex, queue := n, 0, 0, [];
      ladj, isActive := lists, flags;
      new;
      InitInv(n);
    }

    /** DynaGraphNodeInsert. With every slot handed out and nothing queued the
        capacity doubles first (-1 and no change when that allocation fails,
        which allocOk says). Then the next fresh slot is activated when the
        queue is empty, and otherwise the oldest queued slot. */
    method NodeInsert(allocOk: bool) returns (r: int)
      requires Valid()
      modifies this, isActive
      ensures Valid() && E == old(E)
      ensures old(V == nVertex && queue == []) && !allocOk ==>
        r == -1 && V == old(V) && ladj == old(ladj) && isActive == old(isActive) &&
        isActive[..] == old(isActive[..]) && nVertex == old(nVertex) && queue == old(queue)
      ensures old(V == nVertex && queue == []) && allocOk ==>
        V == 2 * old(V) && ladj[..] == old(ladj[..]) + Empties(old(V)) && 0 <= r < V &&
        isActive[..] == (old(isActive[..]) + Unset(old(V)))[r := true]
      ensures !old(V == nVertex && queue == []) ==>
        V == old(V) && ladj == old(ladj) && ladj[..] == old(ladj[..]) && 0 <= r < V &&
        isActive[..] == old(isActive[..])[r := true]
      ensures r != -1 ==> 0 <= r < V && isActive[r] && (r < old(V) ==> !old(isActive[r]))
      ensures r != -1 && old(queue) == [] ==> r == old(nVertex) && nVertex == r + 1 && queue == []
      ensures r != -1 && old(queue) != [] ==> r == old(queue[0]) && nVertex == old(nVertex) && queue == old(queue[1..])
    {
      if V == nVertex && queue == [] {
        if !allocOk {
          return -1;
        }
        ghost var adj, act := ladj[..], isActive[..];
        var tmpLadj, tmpActive := Doubled(ladj, isActive);
        ladj, isActive := tmpLadj, tmpActive;
        V := 2 * V;
        GrowKeeps(adj, E, act, nVertex, queue, |adj|);
      }
      if queue == [] {
        ghost var act := isActive[..];
        isActive[nVertex] := true;
        FreshKeeps(ladj[..], E, act, nVertex);
        nVertex := nVertex + 1;
        return nVertex - 1;
      }
      ghost var act := isActive[..];
      var newIndex := queue[0];
      queue := queue[1..];
      isActive[newIndex] := true;
      QueuedKeeps(ladj[..], E, act, nVertex, old(queue));
      r := newIndex;
    }

    /** DynaGraphEdgeInsert: nothing happens unless both ends are in range
        and active; then both lists get the new entry at their head and E
        grows by one. Parallel edges and self-loops are accepted. */
    method EdgeInsert(e: Edge)
      requires Valid()
      modifies this, ladj
      ensures Valid()
      ensures ladj == old(ladj) && isActive == old(isActive) && V == old(V)
      ensures nVertex == old(nVertex) && queue == old(queue)
      ensures var ok := 0 <= e.v < V && 0 <= e.w < V && isActive[e.v] && isActive[e.w];
        (ok ==> ladj[..] == Linked(old(ladj[..]), e.v, e.w, e.wt) && E == old(E) + 1) &&
        (!ok ==> ladj[..] == old(ladj[..]) && E == old(E))
    {
      if e.v >= V || e.v < 0 || e.w >= V || e.w < 0 {
        return;
      }
      if !isActive[e.v] || !isActive[e.w] {
        return;
      }
      ghost var adj := ladj[..];
      ladj[e.v] := [Link(e.w, e.wt)] + ladj[e.v];
      ladj[e.w] := [Link(e.v, e.wt)] + ladj[e.w];
      E := E + 1;
      assert ladj[..] == Linked(adj, e.v, e.w, e.wt);
      InsertKeeps(adj, E - 1, isActive[..], nVertex, queue, e.v, e.w, e.wt);
    }

    /** DynaGraphEdgeRemove. The weight is ignored. Nothing happens unless
        both ends are in range. The first entry for e.w leaves e.v's list;
        if there was none, nothing else happens; otherwise the first entry
        for e.v leaves e.w's list, and E drops by one when that one was
        found too. */
    method EdgeRemove(e: Edge)
      requires Shaped()
      modifies this, ladj
      ensures Shaped()
      ensures ladj == old(ladj) && isActive == old(isActive) && V == old(V)
      ensures nVertex == old(nVertex) && queue == old(queue)
      ensures var ok := 0 <= e.v < V && 0 <= e.w < V;
        (ok ==> ladj[..] == EdgeRemoved(old(ladj[..]), e.v, e.w) &&
                E == old(E) - (if BothFound(old(ladj[..]), e.v, e.w) then 1 else 0) &&
                E == old(E) - (if HasLink(old(ladj[e.v]), e.w) then 1 else 0)) &&
        (!ok ==> ladj[..] == old(ladj[..]) && E == old(E))
      ensures old(Valid()) ==> Valid()
    {
      if e.v >= V || e.v < 0 || e.w >= V || e.w < 0 {
        return;
      }
      ghost var adj := ladj[..];
      var first, found := Unlink(ladj[e.v], e.w);
      if !found {
        return;
      }
      ladj[e.v] := first;
      var second, found2 := Unlink(ladj[e.w], e.v);
      if found2 {
        ladj[e.w] := second;
        E := E - 1;
      }
      assert ladj[..] == EdgeRemoved(adj, e.v, e.w);
      RemoveAdj(adj, old(E), e.v, e.w);
      if old(Valid()) {
        RemoveIsolated(isActive[..], adj, e.v, e.w);
      }
    }

    /** DynaGraphNodeRemove: nothing happens to an inactive slot. Otherwise
        the slot is deactivated and queued, and every edge at v is removed
        through DynaGraphEdgeRemove, one per entry of v's list, so that v's
        list ends empty and no list keeps an entry for v. */
    method NodeRemove(v: int)
      requires Valid() && 0 <= v < V
      requires !HasLink(ladj[v], v)
      modifies this, ladj, isActive
      ensures Valid()
      ensures ladj == old(ladj) && isActive == old(isActive) && V == old(V) && nVertex == old(nVertex)
      ensures !old(isActive[v]) ==>
        ladj[..] == old(ladj[..]) && isActive[..] == old(isActive[..]) && E == old(E) && queue == old(queue)
      ensures old(isActive[v]) ==>
        ladj[..] == Detached(old(ladj[..]), v) && E == old(E) - |old(ladj[v])| &&
        isActive[..] == old(isActive[..])[v := false] && queue == old(queue) + [v]
    {
      if !isActive[v] {
        return;
      }
      ghost var adj, act := ladj[..], isActive[..];
      isActive[v] := false;
      queue := queue + [v];
      Deactivate(act, nVertex, old(queue), v);
      var x := ladj[v];
      while x != []
        invariant Shaped() && ladj == old(ladj) && isActive == old(isActive)
        invariant V == old(V) && nVertex == old(nVertex)
        invariant isActive[..] == act[v := false] && queue == old(queue) + [v]
        invariant ladj[v] == x && !HasLink(x, v)
        invariant E == old(E) - (|adj[v]| - |x|)
        invariant Detaching(ladj[..], adj, v)
        decreases |x|
      {
        var tmp := x[1..];
        ghost var cur := ladj[..];
        DetachStep(cur, E, adj, v);
        EdgeRemove(Edge(v, x[0].v, -1));
        x := tmp;
      }
      ghost var fin := ladj[..];
      ladj[v] := [];
      assert ladj[..] == fin;
      DetachDone(fin, E, adj, v, act);
    }
  }

  // ---------------------------------------------------------------------
  // Properties relating the operations

  /** DynaGraphEdgeRemove undoes DynaGraphEdgeInsert of the same ends, for
      any weight and any lists, self-loops included. */
  lemma RemoveUndoesInsert(adj: seq<seq<Link>>, v: int, w: int, wt: int)
    requires 0 <= v < |adj| && 0 <= w < |adj|
    ensures BothFound(Linked(adj, v, w, wt), v, w)
    ensures EdgeRemoved(Linked(adj, v, w, wt), v, w) == adj
  {
    var r: seq<seq<Link>> := Linked(adj, v, w, wt);
    assert r[v][0].v == w;
    var a: seq<seq<Link>> := r[v := RemoveFirst(r[v], w)];
    if v == w {
      assert r[v] == [Link(v, wt)] + ([Link(v, wt)] + adj[v]);
      assert a[w][0].v == v;
    } else {
      assert a[w][0].v == v;
    }
    assert EdgeRemoved(r, v, w) == adj;
  }
}
