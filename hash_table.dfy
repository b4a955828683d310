/** The hash index of hash_table.c: a separate-chaining table from items to
    integer ids (new nodes go to the head of their chain), a reverse array
    from ids back to items, and a rehash that doubles the number of chains
    once the load factor passes TARGET_ALPHA. */
module HashTable {

  /** A character of an item key: C's `char`, restricted to the positive
      values, since a key ends at its first NUL. */
  type KeyChar = c: int | 0 < c < 128 witness 1

  /** An item is its key; `Void` is the empty item that Item_set_void makes
      and that marks an unused slot of the reverse array. Two items are equal
      for item_compare exactly when they are equal here. */
  datatype Item = Void | Item(key: seq<KeyChar>)

  /** A chain node: the stored item and the id bound to it. */
  datatype Entry = Entry(val: Item, id: int)

  /** TARGET_ALPHA of hash_table.h, as an integer ratio. */
  const TargetAlpha: int := 5

  /** 2^32: the accumulator of hash_func is an `unsigned int`. */
  const WordSize: int := 0x1_0000_0000

  // ---------------------------------------------------------------- hashing

  /** The accumulator of hash_func after the whole key: `val = 31 * val + c`
      over the characters, wrapping around modulo 2^32. */
  function Fold(s: seq<KeyChar>): (r: int)
    ensures 0 <= r < WordSize
  {
    if s == [] then 0 else (31 * Fold(s[..|s| - 1]) + s[|s| - 1]) % WordSize
  }

  /** The chain an item belongs to among m chains. */
  function Hash(item: Item, m: int): (r: int)
    requires item.Item? && m > 0
    ensures 0 <= r < m
  {
    Fold(item.key) % m
  }

  function Pow31(n: nat): (r: nat)
    ensures r >= 1
  {
    if n == 0 then 1 else 31 * Pow31(n - 1)
  }

  /** The polynomial the rolling hash stands for: the sum of key[i] * 31^(n-1-i). */
  function Poly(s: seq<KeyChar>): (r: int)
    ensures r >= 0
  {
    if s == [] then 0 else s[0] * Pow31(|s| - 1) + Poly(s[1..])
  }

  lemma {:induction false} PolySnoc(s: seq<KeyChar>)
    requires s != []
    ensures Poly(s) == 31 * Poly(s[..|s| - 1]) + s[|s| - 1]
    decreases |s|
  {
    if |s| > 1 {
      PolySnoc(s[1..]);
      assert s[1..][..|s| - 2] == s[..|s| - 1][1..];
    }
  }

  lemma WrapStep(a: int, c: int)
    requires a >= 0 && c >= 0
    ensures (31 * (a % WordSize) + c) % WordSize == (31 * a + c) % WordSize
  {
    var q := a / WordSize;
    assert a == q * WordSize + a % WordSize;
    assert 31 * a + c == (31 * (a % WordSize) + c) + (31 * q) * WordSize;
    ModShift(31 * (a % WordSize) + c, 31 * q);
  }

  lemma ModShift(x: int, k: int)
    requires x >= 0 && k >= 0
    ensures (x + k * WordSize) % WordSize == x % WordSize
    decreases k
  {
    if k > 0 {
      ModShift(x, k - 1);
      assert x + k * WordSize == (x + (k - 1) * WordSize) + WordSize;
    }
  }

  /** The wrapped accumulator is the key's polynomial in base 31, modulo 2^32. */
  lemma {:induction false} FoldIsPoly(s: seq<KeyChar>)
    ensures Fold(s) == Poly(s) % WordSize
    decreases |s|
  {
    if s != [] {
      var p := s[..|s| - 1];
      FoldIsPoly(p);
      PolySnoc(s);
      WrapStep(Poly(p), s[|s| - 1]);
    }
  }

  /** hash_func: the loop that folds the key, then the reduction modulo m. */
  method HashFunc(item: Item, m: int) returns (h: int)
    requires item.Item? && m > 0
    ensures h == Hash(item, m)
    ensures 0 <= h < m
  {
    var key := item.key;
    var val := 0;
    var i := 0;
    while i < |key|
      invariant 0 <= i <= |key|
      invariant val == Fold(key[..i])
    {
      assert key[..i + 1][..i] == key[..i];
      val := (31 * val + key[i]) % WordSize;
      i := i + 1;
    }
    assert key[..|key|] == key;
    h := val % m;
  }

  // ------------------------------------------------------------------ chains

  /** The id of the first node of chain s holding item, or -1 (the loop of
      hash_search). */
  function Lookup(s: seq<Entry>, item: Item): (r: int)
    ensures (r == -1 && forall k :: 0 <= k < |s| ==> s[k].val != item) ||
            (exists k :: 0 <= k < |s| && s[k] == Entry(item, r) &&
                         forall j :: 0 <= j < k ==> s[j].val != item)
  {
    if s == [] then -1
    else if s[0].val == item then s[0].id
    else
      var r := Lookup(s[1..], item);
      assert forall k :: 0 <= k < |s| - 1 ==> s[1..][k] == s[k + 1];
      r
  }

  /** The position of the first node of s whose id is `id`, or |s|. */
  function FirstId(s: seq<Entry>, id: int): (k: int)
    ensures 0 <= k <= |s|
    ensures forall j :: 0 <= j < k ==> s[j].id != id
    ensures k < |s| ==> s[k].id == id
  {
    if s == [] then 0
    else if s[0].id == id then 0
    else
      var k := 1 + FirstId(s[1..], id);
      assert forall j :: 1 <= j < |s| ==> s[j] == s[1..][j - 1];
      k
  }

  /** Chain s without its first node whose id is `id` (remove_target_node). */
  function RemoveId(s: seq<Entry>, id: int): (r: seq<Entry>)
    ensures |r| <= |s|
  {
    if s == [] then []
    else if s[0].id == id then s[1..]
    else [s[0]] + RemoveId(s[1..], id)
  }

  /** Removal cuts out exactly the node at FirstId, or nothing when no node
      has the id. */
  lemma {:induction false} RemoveIdCut(s: seq<Entry>, id: int)
    ensures var k := FirstId(s, id);
      RemoveId(s, id) == if k < |s| then s[..k] + s[k + 1..] else s
    decreases |s|
  {
    if s != [] && s[0].id != id {
      var t := s[1..];
      RemoveIdCut(t, id);
      var k := FirstId(t, id);
      if k < |t| {
        assert s[..k + 1] == [s[0]] + t[..k];
        assert s[k + 2..] == t[k + 1..];
      } else {
        assert [s[0]] + t == s;
      }
    }
  }

  /** What removal keeps: every node but the one at FirstId. */
  lemma RemoveIdContents(s: seq<Entry>, id: int)
    ensures var k := FirstId(s, id);
      multiset(RemoveId(s, id)) == if k < |s| then multiset(s) - multiset{s[k]} else multiset(s)
  {
    RemoveIdCut(s, id);
    var k := FirstId(s, id);
    if k < |s| {
      assert s == s[..k] + [s[k]] + s[k + 1..];
    }
  }

  /** remove_target_node: walk the chain with a trailing pointer and unlink
      the first node whose id matches. */
  method RemoveTargetNode(id: int, head: seq<Entry>) returns (r: seq<Entry>)
    ensures r == RemoveId(head, id)
  {
    RemoveIdCut(head, id);
    if head == [] {
      return [];
    }
    var t := 0;
    while t < |head|
      invariant 0 <= t <= |head|
      invariant t <= FirstId(head, id)
    {
      if head[t].id == id {
        if t == 0 {
          assert head[..0] + head[1..] == head[1..];
          return head[1..];
        } else {
          return head[..t] + head[t + 1..];
        }
      }
      t := t + 1;
    }
    return head;
  }

  // ------------------------------------------------------------------ tables

  /** Every node the chains hold, counted with multiplicity. */
  ghost function Entries(t: seq<seq<Entry>>): multiset<Entry>
  {
    if t == [] then multiset{} else Entries(t[..|t| - 1]) + multiset(t[|t| - 1])
  }

  /** Every node of chain b holds a real item whose hash is b. The first
      quantifier is drawn for any node a proof looks at; the second only
      once a proof mentions the node's hash. */
  ghost predicate Hashed(t: seq<seq<Entry>>, m: int)
  {
    m > 0 && |t| == m &&
    (forall b, k :: 0 <= b < |t| && 0 <= k < |t[b]| ==> t[b][k].val.Item?) &&
    (forall b, k {:trigger Hash(t[b][k].val, m)} :: 0 <= b < |t| && 0 <= k < |t[b]| ==>
      t[b][k].val.Item? && Hash(t[b][k].val, m) == b)
  }

  /** e is one of the nodes of c. UniqueItems quantifies over this rather
      than over bare membership, so that its facts are drawn only where a
      proof names the nodes it compares. */
  ghost predicate Stored(c: multiset<Entry>, e: Entry)
  {
    e in c
  }

  /** No item is stored twice, and no node occurs twice. */
  ghost predicate UniqueItems(c: multiset<Entry>)
  {
    (forall e {:trigger Stored(c, e)} :: Stored(c, e) ==> c[e] == 1) &&
    (forall e1, e2 {:trigger Stored(c, e1), Stored(c, e2)} ::
       Stored(c, e1) && Stored(c, e2) && e1.val == e2.val ==> e1 == e2)
  }

  ghost predicate HasItem(c: multiset<Entry>, item: Item)
  {
    exists e :: e in c && e.val == item
  }

  /** The chains: hashed, no item twice, ids non-negative, and currentN
      counting the nodes. */
  ghost predicate ChainsInv(t: seq<seq<Entry>>, m: int, n: int)
  {
    Hashed(t, m) &&
    UniqueItems(Entries(t)) &&
    (forall e :: e in Entries(t) ==> e.id >= 0) &&
    n == |Entries(t)|
  }

  /** The reverse array: every assigned slot lies inside the array, and an
      assigned non-void slot names an item stored with that id. */
  ghost predicate ReverseInv(c: multiset<Entry>, rev: seq<Item>, written: set<int>)
  {
    (forall i :: i in written ==> 0 <= i < |rev|) &&
    (forall i :: i in written ==> rev[i].Item? ==> Entry(rev[i], i) in c)
  }

  /** The whole invariant of a table, on values. */
  ghost predicate TableInv(t: seq<seq<Entry>>, m: int, n: int, rev: seq<Item>, w: set<int>)
  {
    ChainsInv(t, m, n) && ReverseInv(Entries(t), rev, w)
  }

  lemma {:induction false} EntriesUpdate(t: seq<seq<Entry>>, b: int, s: seq<Entry>)
    requires 0 <= b < |t|
    ensures Entries(t[b := s]) + multiset(t[b]) == Entries(t) + multiset(s)
    decreases |t|
  {
    var n := |t| - 1;
    if b == n {
      assert t[b := s][..n] == t[..n];
    } else {
      var t' := t[b := s];
      EntriesUpdate(t[..n], b, s);
      assert t'[..n] == t[..n][b := s];
      assert t[..n][b] == t[b];
      calc {
        Entries(t') + multiset(t[b]);
        Entries(t'[..n]) + multiset(t[n]) + multiset(t[b]);
        (Entries(t'[..n]) + multiset(t[b])) + multiset(t[n]);
        (Entries(t[..n]) + multiset(s)) + multiset(t[n]);
        (Entries(t[..n]) + multiset(t[n])) + multiset(s);
      }
    }
  }

  /** Pushing a node onto the head of a chain adds exactly that node. */
  lemma EntriesPrepend(t: seq<seq<Entry>>, h: int, e: Entry)
    requires 0 <= h < |t|
    ensures Entries(t[h := [e] + t[h]]) == Entries(t) + multiset{e}
  {
    var t' := t[h := [e] + t[h]];
    EntriesUpdate(t, h, [e] + t[h]);
    assert multiset([e] + t[h]) == multiset{e} + multiset(t[h]);
    forall x ensures Entries(t')[x] == (Entries(t) + multiset{e})[x] {
      assert (Entries(t') + multiset(t[h]))[x] == (Entries(t) + multiset([e] + t[h]))[x];
    }
  }

  lemma EntriesSnoc(t: seq<seq<Entry>>, i: int)
    requires 0 <= i < |t|
    ensures Entries(t[..i + 1]) == Entries(t[..i]) + multiset(t[i])
  {
    assert t[..i + 1][..i] == t[..i];
  }

  lemma {:induction false} EntriesMember(t: seq<seq<Entry>>, e: Entry)
    ensures e in Entries(t) <==> exists b :: 0 <= b < |t| && e in t[b]
    decreases |t|
  {
    if t != [] {
      var n := |t| - 1;
      EntriesMember(t[..n], e);
      assert forall b :: 0 <= b < n ==> t[..n][b] == t[b];
    }
  }

  lemma {:induction false} EntriesOfEmpty(t: seq<seq<Entry>>)
    requires forall b :: 0 <= b < |t| ==> t[b] == []
    ensures Entries(t) == multiset{}
    decreases |t|
  {
    if t != [] {
      EntriesOfEmpty(t[..|t| - 1]);
    }
  }

  /** In a hashed table an entry is stored iff it is in the chain of its item. */
  lemma InOwnChain(t: seq<seq<Entry>>, m: int, e: Entry)
    requires Hashed(t, m) && e.val.Item?
    ensures e in Entries(t) <==> e in t[Hash(e.val, m)]
  {
    EntriesMember(t, e);
    if e in Entries(t) {
      var b :| 0 <= b < |t| && e in t[b];
      var k :| 0 <= k < |t[b]| && t[b][k] == e;
    }
  }

  /** Prepending a node whose hash is h to chain h keeps a table hashed. */
  lemma PrependHashed(t: seq<seq<Entry>>, m: int, e: Entry)
    requires Hashed(t, m) && e.val.Item?
    ensures Hashed(t[Hash(e.val, m) := [e] + t[Hash(e.val, m)]], m)
  {
    var h := Hash(e.val, m);
    var t': seq<seq<Entry>> := t[h := [e] + t[h]];
    forall b: int, k: int | 0 <= b < |t'| && 0 <= k < |t'[b]|
      ensures t'[b][k].val.Item? && Hash(t'[b][k].val, m) == b
    {
      if b == h && k > 0 {
        assert t'[b][k] == t[b][k - 1];
      }
    }
  }

  /** The table after pushing e onto the head of its own chain, as the loop
      of resize_hash_table does with each old node (nodes hold real items in
      every reachable table, so a void one is left where it is). */
  ghost function Push(t: seq<seq<Entry>>, m: int, e: Entry): (r: seq<seq<Entry>>)
    requires |t| == m && m > 0
    ensures |r| == m
  {
    if e.val.Item? then t[Hash(e.val, m) := [e] + t[Hash(e.val, m)]] else t
  }

  /** The table after pushing the nodes of s, in order. */
  ghost function PushAll(t: seq<seq<Entry>>, m: int, s: seq<Entry>): (r: seq<seq<Entry>>)
    requires |t| == m && m > 0
    ensures |r| == m
  {
    if s == [] then t else Push(PushAll(t, m, s[..|s| - 1]), m, s[|s| - 1])
  }

  /** The nodes of all chains, chain 0 first, each chain from its head. */
  ghost function Flatten(t: seq<seq<Entry>>): seq<Entry>
  {
    if t == [] then [] else Flatten(t[..|t| - 1]) + t[|t| - 1]
  }

  ghost predicate RealItems(s: seq<Entry>)
  {
    forall k :: 0 <= k < |s| ==> s[k].val.Item?
  }

  /** Pushing real nodes keeps a table hashed. */
  lemma {:induction false} PushAllHashed(t: seq<seq<Entry>>, m: int, s: seq<Entry>)
    requires Hashed(t, m) && RealItems(s)
    ensures Hashed(PushAll(t, m, s), m)
    decreases |s|
  {
    if s != [] {
      var n := |s| - 1;
      assert RealItems(s[..n]) by {
        assert forall k :: 0 <= k < n ==> s[..n][k] == s[k];
      }
      PushAllHashed(t, m, s[..n]);
      assert s[n].val.Item?;
      PrependHashed(PushAll(t, m, s[..n]), m, s[n]);
    }
  }

  lemma PushEntries(t: seq<seq<Entry>>, m: int, e: Entry)
    requires |t| == m && m > 0 && e.val.Item?
    ensures Entries(Push(t, m, e)) == Entries(t) + multiset{e}
  {
    EntriesPrepend(t, Hash(e.val, m), e);
  }

  /** Pushing real nodes adds exactly those nodes: a rehash loses and
      duplicates nothing. */
  lemma {:induction false} PushAllEntries(t: seq<seq<Entry>>, m: int, s: seq<Entry>)
    requires |t| == m && m > 0 && RealItems(s)
    ensures Entries(PushAll(t, m, s)) == Entries(t) + multiset(s)
    decreases |s|
  {
    if s != [] {
      var n := |s| - 1;
      assert RealItems(s[..n]) by {
        assert forall k :: 0 <= k < n ==> s[..n][k] == s[k];
      }
      PushAllEntries(t, m, s[..n]);
      assert s[n].val.Item?;
      var p := PushAll(t, m, s[..n]);
      PushEntries(p, m, s[n]);
      assert s == s[..n] + [s[n]];
      calc {
        Entries(PushAll(t, m, s));
        Entries(p) + multiset{s[n]};
        (Entries(t) + multiset(s[..n])) + multiset{s[n]};
        Entries(t) + (multiset(s[..n]) + multiset{s[n]});
        Entries(t) + multiset(s);
      }
    }
  }

  lemma {:induction false} PushAllAppend(t: seq<seq<Entry>>, m: int, a: seq<Entry>, b: seq<Entry>)
    requires |t| == m && m > 0
    ensures PushAll(t, m, a + b) == PushAll(PushAll(t, m, a), m, b)
    decreases |b|
  {
    if b == [] {
      assert a + b == a;
    } else {
      var n := |b| - 1;
      PushAllAppend(t, m, a, b[..n]);
      assert (a + b)[..|a + b| - 1] == a + b[..n];
    }
  }

  lemma {:induction false} FlattenEntries(t: seq<seq<Entry>>)
    ensures multiset(Flatten(t)) == Entries(t)
    decreases |t|
  {
    if t != [] {
      FlattenEntries(t[..|t| - 1]);
    }
  }

  lemma RealFlatten(t: seq<seq<Entry>>, m: int)
    requires Hashed(t, m)
    ensures RealItems(Flatten(t))
  {
    var all := Flatten(t);
    FlattenEntries(t);
    forall k | 0 <= k < |all| ensures all[k].val.Item? {
      assert all[k] in multiset(all);
      EntriesMember(t, all[k]);
      var b :| 0 <= b < |t| && all[k] in t[b];
      var j :| 0 <= j < |t[b]| && t[b][j] == all[k];
    }
  }

  /** Rehashing every node of a valid table into 2m empty chains gives a
      valid table with the same nodes. */
  lemma RehashKeeps(t: seq<seq<Entry>>, m: int, n: int, rev: seq<Item>, w: set<int>)
    requires TableInv(t, m, n, rev, w)
    ensures TableInv(PushAll(seq(2 * m, _ => []), 2 * m, Flatten(t)), 2 * m, n, rev, w)
    ensures Entries(PushAll(seq(2 * m, _ => []), 2 * m, Flatten(t))) == Entries(t)
  {
    var empty: seq<seq<Entry>> := seq(2 * m, _ => []);
    var r := PushAll(empty, 2 * m, Flatten(t));
    RealFlatten(t, m);
    FlattenEntries(t);
    assert Hashed(empty, 2 * m) by {
      assert forall b :: 0 <= b < 2 * m ==> empty[b] == [];
    }
    EntriesOfEmpty(empty);
    PushAllHashed(empty, 2 * m, Flatten(t));
    PushAllEntries(empty, 2 * m, Flatten(t));
    assert Entries(r) == Entries(t);
  }

  lemma FlattenSnoc(t: seq<seq<Entry>>, i: int)
    requires 0 <= i < |t|
    ensures Flatten(t[..i + 1]) == Flatten(t[..i]) + t[i]
  {
    assert t[..i + 1][..i] == t[..i];
  }

  /** Cutting the reverse array to n slots, or growing it, keeps the
      invariant for the slots assigned below n. */
  lemma ReverseRestrict(t: seq<seq<Entry>>, m: int, n: int, rev: seq<Item>, w: set<int>,
                        rev': seq<Item>, w': set<int>)
    requires TableInv(t, m, n, rev, w)
    requires forall i :: 0 <= i < |rev| && i < |rev'| ==> rev'[i] == rev[i]
    requires forall i :: i in w' <==> i in w && i < |rev'|
    ensures TableInv(t, m, n, rev', w')
  {
  }

  /** Adding a node for an item not yet stored keeps items unique. */
  lemma AddKeepsUnique(c: multiset<Entry>, e: Entry)
    requires UniqueItems(c) && !HasItem(c, e.val)
    ensures UniqueItems(c + multiset{e})
  {
    var c' := c + multiset{e};
    assert e !in c;
    forall x | Stored(c', x) ensures c'[x] == 1 {
      if x != e {
        assert Stored(c, x);
      }
    }
    forall x1, x2 | Stored(c', x1) && Stored(c', x2) && x1.val == x2.val ensures x1 == x2 {
      if x1 != e && x2 != e {
        assert Stored(c, x1) && Stored(c, x2);
      }
    }
  }

  /** Removing an occurrence keeps items unique. */
  lemma RemoveKeepsUnique(c: multiset<Entry>, e: Entry)
    requires UniqueItems(c)
    ensures UniqueItems(c - multiset{e})
  {
    var c' := c - multiset{e};
    forall x | Stored(c', x) ensures c'[x] == 1 {
      assert Stored(c, x);
    }
    forall e1, e2 | Stored(c', e1) && Stored(c', e2) && e1.val == e2.val ensures e1 == e2 {
      assert Stored(c, e1) && Stored(c, e2);
    }
  }

  /** In a valid table, looking a stored node's item up in its chain finds
      that node's id. */
  lemma LookupFinds(t: seq<seq<Entry>>, m: int, n: int, rev: seq<Item>, w: set<int>, e: Entry)
    requires TableInv(t, m, n, rev, w) && e.val.Item? && e in Entries(t)
    ensures Lookup(t[Hash(e.val, m)], e.val) == e.id
  {
    var s := t[Hash(e.val, m)];
    var r := Lookup(s, e.val);
    InOwnChain(t, m, e);
    var i :| 0 <= i < |s| && s[i] == e;
    var k :| 0 <= k < |s| && s[k] == Entry(e.val, r);
    InOwnChain(t, m, Entry(e.val, r));
    assert Stored(Entries(t), e) && Stored(Entries(t), Entry(e.val, r));
  }

  /** Adding a node e: ids stay non-negative and the count grows by one. */
  lemma AddCounts(c: multiset<Entry>, e: Entry, n: int)
    requires (forall x :: x in c ==> x.id >= 0) && n == |c| && e.id >= 0
    ensures (forall x :: x in c + multiset{e} ==> x.id >= 0) && n + 1 == |c + multiset{e}|
  {
  }

  /** Pushing a node for a new item onto its chain keeps the chains valid and
      adds exactly that node. */
  lemma InsertChains(t: seq<seq<Entry>>, m: int, n: int, e: Entry)
    requires ChainsInv(t, m, n)
    requires e.val.Item? && !HasItem(Entries(t), e.val) && e.id >= 0
    ensures ChainsInv(Push(t, m, e), m, n + 1)
    ensures Entries(Push(t, m, e)) == Entries(t) + multiset{e}
  {
    var h := Hash(e.val, m);
    var t' := t[h := [e] + t[h]];
    PrependHashed(t, m, e);
    EntriesPrepend(t, h, e);
    AddKeepsUnique(Entries(t), e);
    AddCounts(Entries(t), e, n);
  }

  /** Binding slot e.id to e.val after adding e keeps the reverse array valid. */
  lemma InsertReverse(c: multiset<Entry>, rev: seq<Item>, w: set<int>, e: Entry)
    requires ReverseInv(c, rev, w) && 0 <= e.id < |rev|
    ensures ReverseInv(c + multiset{e}, rev[e.id := e.val], w + {e.id})
  {
  }

  /** The state change of hash_insert for a new item, before any rehash,
      keeps the invariant and adds exactly the new node. */
  lemma InsertKeeps(t: seq<seq<Entry>>, m: int, n: int, rev: seq<Item>, w: set<int>, e: Entry)
    requires TableInv(t, m, n, rev, w)
    requires e.val.Item? && !HasItem(Entries(t), e.val) && 0 <= e.id < |rev|
    ensures TableInv(Push(t, m, e), m, n + 1, rev[e.id := e.val], w + {e.id})
    ensures Entries(Push(t, m, e)) == Entries(t) + multiset{e}
  {
    InsertChains(t, m, n, e);
    InsertReverse(Entries(t), rev, w, e);
  }

  /** The table after hash_remove cuts the first node with the id out of
      the chain of item. */
  ghost function Unlinked(t: seq<seq<Entry>>, m: int, item: Item, id: int): (r: seq<seq<Entry>>)
    requires |t| == m && m > 0 && item.Item?
    ensures |r| == m
  {
    t[Hash(item, m) := RemoveId(t[Hash(item, m)], id)]
  }

  /** Removing a node that is present: ids stay non-negative and the count
      drops by one. */
  lemma RemoveCounts(c: multiset<Entry>, e: Entry, n: int)
    requires (forall x :: x in c ==> x.id >= 0) && n == |c| && e in c
    ensures (forall x :: x in c - multiset{e} ==> x.id >= 0) && n - 1 == |c - multiset{e}|
  {
  }

  /** Replacing chain h by a sub-multiset of its nodes keeps a table hashed. */
  lemma ShrinkHashed(t: seq<seq<Entry>>, m: int, h: int, r: seq<Entry>)
    requires Hashed(t, m) && 0 <= h < |t| && multiset(r) <= multiset(t[h])
    ensures Hashed(t[h := r], m)
  {
    var t': seq<seq<Entry>> := t[h := r];
    forall b: int, j: int | 0 <= b < |t'| && 0 <= j < |t'[b]|
      ensures t'[b][j].val.Item? && Hash(t'[b][j].val, m) == b
    {
      if b == h {
        assert r[j] in multiset(r);
        var q :| 0 <= q < |t[h]| && t[h][q] == r[j];
      }
    }
  }

  /** Cutting the first node with a given id out of chain h removes exactly
      that node from the table. */
  lemma EntriesRemove(t: seq<seq<Entry>>, h: int, id: int)
    requires 0 <= h < |t| && FirstId(t[h], id) < |t[h]|
    ensures Entries(t[h := RemoveId(t[h], id)]) == Entries(t) - multiset{t[h][FirstId(t[h], id)]}
  {
    var s := t[h];
    var r := RemoveId(s, id);
    var t' := t[h := r];
    var e := s[FirstId(s, id)];
    RemoveIdContents(s, id);
    EntriesUpdate(t, h, r);
    forall x ensures Entries(t')[x] == (Entries(t) - multiset{e})[x] {
      assert (Entries(t') + multiset(s))[x] == (Entries(t) + multiset(r))[x];
    }
  }

  /** Cutting the first node with a given id out of chain h keeps the chains
      valid. */
  lemma RemoveChains(t: seq<seq<Entry>>, m: int, n: int, h: int, id: int)
    requires ChainsInv(t, m, n) && 0 <= h < m && FirstId(t[h], id) < |t[h]|
    ensures ChainsInv(t[h := RemoveId(t[h], id)], m, n - 1)
  {
    var s := t[h];
    var t' := t[h := RemoveId(s, id)];
    var e := s[FirstId(s, id)];
    EntriesRemove(t, h, id);
    RemoveIdContents(s, id);
    ShrinkHashed(t, m, h, RemoveId(s, id));
    RemoveKeepsUnique(Entries(t), e);
    assert e in Entries(t) by {
      EntriesMember(t, e);
    }
    RemoveCounts(Entries(t), e, n);
  }

  /** Voiding slot id after removing a node with that id keeps the reverse
      array valid. */
  lemma RemoveReverse(c: multiset<Entry>, rev: seq<Item>, w: set<int>, e: Entry)
    requires ReverseInv(c, rev, w) && 0 <= e.id < |rev|
    ensures ReverseInv(c - multiset{e}, rev[e.id := Void], w)
  {
    forall i | i in w && rev[e.id := Void][i].Item?
      ensures Entry(rev[e.id := Void][i], i) in c - multiset{e}
    {
      assert Entry(rev[i], i) in c;
    }
  }

  /** The state change of hash_remove for an assigned non-void slot keeps
      the invariant; the chain of the slot's item does hold a node with the
      id, and exactly that first such node leaves the table. */
  lemma RemoveKeeps(t: seq<seq<Entry>>, m: int, n: int, rev: seq<Item>, w: set<int>, id: int)
    requires TableInv(t, m, n, rev, w) && id in w && rev[id].Item?
    ensures var h := Hash(rev[id], m);
      var k := FirstId(t[h], id);
      k < |t[h]| && t[h][k].id == id &&
      Entries(Unlinked(t, m, rev[id], id)) == Entries(t) - multiset{t[h][k]} &&
      TableInv(Unlinked(t, m, rev[id], id), m, n - 1, rev[id := Void], w)
  {
    var h := Hash(rev[id], m);
    var s := t[h];
    InOwnChain(t, m, Entry(rev[id], id));
    var i :| 0 <= i < |s| && s[i] == Entry(rev[id], id);
    assert FirstId(s, id) <= i;
    RemoveChains(t, m, n, h, id);
    EntriesRemove(t, h, id);
    RemoveReverse(Entries(t), rev, w, s[FirstId(s, id)]);
  }

  /** What hash_remove does to the stored nodes, from c to c': exactly one
      node goes, and it is one holding id, so no node with another id is
      lost; and when every node with the id holds item (the id was bound
      once), no node holding item is left. */
  ghost predicate RemovedFrom(c: multiset<Entry>, c': multiset<Entry>, id: int, item: Item)
  {
    c' <= c && |c'| == |c| - 1 &&
    (forall x :: x in c && x.id != id ==> x in c') &&
    ((forall x :: x in c && x.id == id ==> x.val == item) ==> !HasItem(c', item))
  }

  /** Taking one node with a given id out of a multiset of nodes with unique
      items is a RemovedFrom step. */
  lemma RemoveEffect(c: multiset<Entry>, e: Entry, id: int, item: Item)
    requires UniqueItems(c) && e in c && e.id == id
    ensures RemovedFrom(c, c - multiset{e}, id, item)
  {
    assert Stored(c, e);
    if (forall x :: x in c && x.id == id ==> x.val == item) && HasItem(c - multiset{e}, item) {
      var x :| x in c - multiset{e} && x.val == item;
      assert Stored(c, x);
    }
  }

  /** Unlinking the node of an assigned id keeps the table invariant and is
      a RemovedFrom step on the stored nodes. */
  lemma UnlinkOutcome(t: seq<seq<Entry>>, m: int, n: int, rev: seq<Item>, w: set<int>, id: int)
    requires TableInv(t, m, n, rev, w) && id in w && rev[id].Item?
    ensures TableInv(Unlinked(t, m, rev[id], id), m, n - 1, rev[id := Void], w)
    ensures RemovedFrom(Entries(t), Entries(Unlinked(t, m, rev[id], id)), id, rev[id])
  {
    var h := Hash(rev[id], m);
    RemoveKeeps(t, m, n, rev, w, id);
    RemoveEffect(Entries(t), t[h][FirstId(t[h], id)], id, rev[id]);
  }

  /** The inner loop of resize_hash_table: push every node of one old chain,
      in order, onto the head of its chain in the new table. */
  method Relink(newTable: array<seq<Entry>>, chain: seq<Entry>)
    requires newTable.Length > 0 && RealItems(chain)
    modifies newTable
    ensures newTable[..] == PushAll(old(newTable[..]), newTable.Length, chain)
  {
    var m := newTable.Length;
    var k := 0;
    while k < |chain|
      invariant 0 <= k <= |chain|
      invariant newTable[..] == PushAll(old(newTable[..]), m, chain[..k])
    {
      var e := chain[k];
      var h := HashFunc(e.val, m);
      newTable[h] := [e] + newTable[h];
      assert chain[..k + 1][..k] == chain[..k];
      k := k + 1;
    }
    assert chain[..|chain|] == chain;
  }

  /** The body of resize_hash_table once the new chain array exists: 2m
      empty chains, then every old chain relinked in order. */
  method Rehash(table: array<seq<Entry>>, m: int) returns (newTable: array<seq<Entry>>)
    requires table.Length == m && Hashed(table[..], m)
    ensures fresh(newTable)
    ensures newTable[..] == PushAll(seq(2 * m, _ => []), 2 * m, Flatten(table[..]))
  {
    ghost var t := table[..];
    newTable := new seq<Entry>[2 * m];
    for i := 0 to 2 * m
      modifies newTable
      invariant forall b :: 0 <= b < i ==> newTable[b] == []
    {
      newTable[i] := [];
    }
    ghost var empty := newTable[..];
    assert empty == seq(2 * m, _ => []);
    assert t[..0] == [];
    for i := 0 to m
      modifies newTable
      invariant newTable[..] == PushAll(empty, 2 * m, Flatten(t[..i]))
    {
      assert RealItems(t[i]) by {
        assert forall k :: 0 <= k < |t[i]| ==> t[i][k].val.Item?;
      }
      Relink(newTable, table[i]);
      FlattenSnoc(t, i);
      PushAllAppend(empty, 2 * m, Flatten(t[..i]), t[i]);
    }
    assert t[..m] == t;
  }

  /** realloc on the reverse array: n slots, the first ones copied from a;
      the slots past the old end hold no assigned item. */
  method Realloc(a: array<Item>, n: int) returns (b: array<Item>)
    requires n >= 0
    ensures fresh(b) && b.Length == n
    ensures forall i :: 0 <= i < a.Length && i < n ==> b[i] == a[i]
  {
    b := new Item[n];
    for k := 0 to n
      modifies b
      invariant forall i :: 0 <= i < k ==> b[i] == if i < a.Length then a[i] else Void
    {
      b[k] := if k < a.Length then a[k] else Void;
    }
  }

  class HashTable {
    var M: int
    var currentN: int
    var sizeRevArray: int
    var table: array<seq<Entry>>
    var reverseArray: array<Item>
    /** The ids whose reverse slot has been assigned; the others hold
        whatever malloc left there. */
    ghost var written: set<int>

    /** Every node held by the chains. */
    ghost function Content(): multiset<Entry>
      reads this, table
    {
      Entries(table[..])
    }

    ghost predicate Valid()
      reads this, table, reverseArray
    {
      table.Length == M && reverseArray.Length == sizeRevArray &&
      TableInv(table[..], M, currentN, reverseArray[..], written)
    }

    /** The answer hash_search gives for item in the current state. */
    ghost function Probe(item: Item): int
      reads this, table, reverseArray
      requires Valid() && item.Item?
    {
      Lookup(table[Hash(item, M)], item)
    }

    /** hash_init: maxN empty chains and a reverse array of maxN unset slots. */
    constructor Init(maxN: int)
      requires maxN >= 1
      ensures Valid() && fresh(table) && fresh(reverseArray)
      ensures M == maxN && currentN == 0 && sizeRevArray == maxN && written == {}
      ensures forall b :: 0 <= b < M ==> table[b] == []
      ensures Content() == multiset{}
    {
      M := maxN;
      currentN := 0;
      var t := new seq<Entry>[maxN];
      for i := 0 to maxN
        modifies t
        invariant forall b :: 0 <= b < i ==> t[b] == []
      {
        t[i] := [];
      }
      table := t;
      sizeRevArray := maxN;
      reverseArray := new Item[maxN];
      written := {};
      EntriesOfEmpty(t[..]);
    }

    /** resize_reverse_array: a reverse array of new_size slots keeping the
        entries below the old size. */
    method ResizeReverseArray(newSize: int)
      requires Valid() && newSize >= 0
      modifies this
      ensures Valid() && fresh(reverseArray)
      ensures sizeRevArray == newSize
      ensures forall i :: 0 <= i < old(sizeRevArray) && i < newSize ==> reverseArray[i] == old(reverseArray[i])
      ensures written == set i | i in old(written) && i < newSize
      ensures M == old(M) && currentN == old(currentN) && table == old(table)
    {
      var a := Realloc(reverseArray, newSize);
      ghost var w := set i | i in written && i < newSize;
      ReverseRestrict(table[..], M, currentN, reverseArray[..], written, a[..], w);
      sizeRevArray := newSize;
      reverseArray := a;
      written := w;
    }

    /** resize_hash_table: move every node to its chain among 2M new chains,
        visiting the old chains in order and each from its head. When the new
        chain array cannot be allocated nothing changes. */
    method ResizeHashTable(allocOk: bool)
      requires Valid()
      modifies this
      ensures Valid()
      ensures M == if allocOk then 2 * old(M) else old(M)
      ensures allocOk ==> fresh(table) && table[..] == PushAll(seq(M, _ => []), M, Flatten(old(table[..])))
      ensures !allocOk ==> table == old(table)
      ensures Content() == old(Content()) && currentN == old(currentN)
      ensures reverseArray == old(reverseArray) && sizeRevArray == old(sizeRevArray) && written == old(written)
    {
      if !allocOk {
        return;
      }
      var newTable := Rehash(table, M);
      RehashKeeps(table[..], M, currentN, reverseArray[..], written);
      table := newTable;
      M := 2 * M;
    }

    /** hash_insert: nothing happens when the item is already stored;
        otherwise a node for (item, id) goes to the head of its chain, the
        reverse slot id names the item, the count grows, and a rehash follows
        once the load factor exceeds TARGET_ALPHA (which does nothing when the
        new chain array cannot be allocated). */
    method Insert(item: Item, id: int, allocOk: bool)
      requires Valid() && item.Item? && 0 <= id < sizeRevArray
      modifies this, table, reverseArray
      ensures Valid()
      ensures reverseArray == old(reverseArray) && sizeRevArray == old(sizeRevArray)
      ensures old(Probe(item)) != -1 ==>
        table == old(table) && table[..] == old(table[..]) && M == old(M) &&
        currentN == old(currentN) && reverseArray[..] == old(reverseArray[..]) &&
        written == old(written)
      ensures old(Probe(item)) == -1 ==>
        Content() == old(Content()) + multiset{Entry(item, id)} &&
        currentN == old(currentN) + 1 &&
        reverseArray[..] == old(reverseArray[..])[id := item] &&
        written == old(written) + {id} &&
        M == (if currentN > TargetAlpha * old(M) && allocOk then 2 * old(M) else old(M)) &&
        (M == old(M) ==> table[..] == old(table[..])[Hash(item, M) := [Entry(item, id)] + old(table[Hash(item, M)])])
      ensures Probe(item) != -1 && Entry(item, Probe(item)) in Content()
      ensures old(Probe(item)) == -1 ==> Probe(item) == id
      ensures old(currentN) <= TargetAlpha * old(M) && allocOk ==> currentN <= TargetAlpha * M
    {
      var found := Search(item);
      if found != -1 {
        return;
      }
      AddNew(item, id);
      if currentN > TargetAlpha * M {
        ResizeHashTable(allocOk);
      }
      LookupFinds(table[..], M, currentN, reverseArray[..], written, Entry(item, id));
    }

    /** The part of hash_insert between the search and the load test: the
        node goes to the head of its chain and the reverse slot is bound. */
    method AddNew(item: Item, id: int)
      requires Valid() && item.Item? && 0 <= id < sizeRevArray && !HasItem(Content(), item)
      modifies this, table, reverseArray
      ensures Valid()
      ensures table == old(table) && reverseArray == old(reverseArray)
      ensures M == old(M) && sizeRevArray == old(sizeRevArray)
      ensures table[..] == Push(old(table[..]), M, Entry(item, id))
      ensures reverseArray[..] == old(reverseArray[..])[id := item]
      ensures currentN == old(currentN) + 1 && written == old(written) + {id}
      ensures Content() == old(Content()) + multiset{Entry(item, id)}
    {
      var index := HashFunc(item, M);
      ghost var t, rev := table[..], reverseArray[..];
      table[index] := [Entry(item, id)] + table[index];
      assert table[..] == Push(t, M, Entry(item, id));
      reverseArray[id] := item;
      assert reverseArray[..] == rev[id := item];
      currentN := currentN + 1;
      written := written + {id};
      InsertKeeps(t, M, currentN - 1, rev, old(written), Entry(item, id));
    }

    /** hash_remove: nothing happens when reverse slot id is void; otherwise
        the first node with that id leaves the chain of the slot's item, the
        slot becomes void and the count drops. */
    method Remove(id: int)
      requires Valid() && 0 <= id < sizeRevArray && id in written
      modifies this, table, reverseArray
      ensures Valid()
      ensures table == old(table) && reverseArray == old(reverseArray)
      ensures M == old(M) && sizeRevArray == old(sizeRevArray) && written == old(written)
      ensures old(reverseArray[id]).Void? ==>
        table[..] == old(table[..]) && currentN == old(currentN) && reverseArray[..] == old(reverseArray[..])
      ensures old(reverseArray[id]).Item? ==>
        table[..] == Unlinked(old(table[..]), M, old(reverseArray[id]), id) &&
        reverseArray[..] == old(reverseArray[..])[id := Void] &&
        currentN == old(currentN) - 1 &&
        RemovedFrom(old(Content()), Content(), id, old(reverseArray[id]))
    {
      var item := reverseArray[id];
      if item.Void? {
        return;
      }
      RemoveAssigned(id, item);
    }

    /** The part of hash_remove after the check for a void slot. */
    method RemoveAssigned(id: int, item: Item)
      requires Valid() && 0 <= id < sizeRevArray && id in written
      requires item.Item? && reverseArray[id] == item
      modifies this, table, reverseArray
      ensures Valid()
      ensures table == old(table) && reverseArray == old(reverseArray)
      ensures M == old(M) && sizeRevArray == old(sizeRevArray) && written == old(written)
      ensures table[..] == Unlinked(old(table[..]), M, item, id)
      ensures reverseArray[..] == old(reverseArray[..])[id := Void]
      ensures currentN == old(currentN) - 1
      ensures RemovedFrom(old(Content()), Content(), id, item)
    {
      var index := HashFunc(item, M);
      ghost var t, rev := table[..], reverseArray[..];
      var chain := RemoveTargetNode(id, table[index]);
      table[index] := chain;
      assert table[..] == Unlinked(t, M, item, id);
      reverseArray[id] := Void;
      assert reverseArray[..] == rev[id := Void];
      currentN := currentN - 1;
      UnlinkOutcome(t, M, currentN + 1, rev, written, id);
    }

    /** hash_search: the id of the first node of item's chain holding item,
        or -1 when the item is not stored. */
    method Search(item: Item) returns (r: int)
      requires Valid() && item.Item?
      ensures r == Probe(item)
      ensures r == -1 <==> !HasItem(Content(), item)
      ensures r != -1 ==> Entry(item, r) in Content()
    {
      var index := HashFunc(item, M);
      var s := table[index];
      var t := 0;
      r := -1;
      while t < |s|
        invariant 0 <= t <= |s|
        invariant forall j :: 0 <= j < t ==> s[j].val != item
        invariant Lookup(s[t..], item) == Lookup(s, item)
      {
        if s[t].val == item {
          r := s[t].id;
          break;
        }
        assert s[t..][1..] == s[t + 1..];
        t := t + 1;
      }
      SearchMeaning(item);
    }

    lemma SearchMeaning(item: Item)
      requires Valid() && item.Item?
      ensures Probe(item) == -1 <==> !HasItem(Content(), item)
      ensures Probe(item) != -1 ==> Entry(item, Probe(item)) in Content()
    {
      var b := Hash(item, M);
      var t := table[..];
      var r := Lookup(t[b], item);
      if exists k :: 0 <= k < |t[b]| && t[b][k] == Entry(item, r) {
        var k :| 0 <= k < |t[b]| && t[b][k] == Entry(item, r);
        assert Entry(item, r) in t[b];
        InOwnChain(t, M, Entry(item, r));
      }
      if HasItem(Content(), item) {
        var e :| e in Content() && e.val == item;
        InOwnChain(t, M, e);
        var k :| 0 <= k < |t[b]| && t[b][k] == e;
      }
    }
  }
}
