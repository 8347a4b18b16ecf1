/**
 * The node-to-clusters index `m_ndcs` of a collection: for each node id, the
 * clusters that hold it, one entry per occurrence of the node among a
 * cluster's members.  Clusters are named by their position in the
 * collection's traversal order.
 */
module NodeIndex {
  import opened Text

  /** `Id`: a node id, `uint32_t`. */
  type Id = n: nat | n < IdLimit

  /** `NodeClusters`: node id to the clusters the node is a member of. */
  type NodeClusters = map<Id, seq<nat>>

  /** The owner list of `n`, empty when `n` is not indexed. */
  function Owners(ndcs: NodeClusters, n: Id): seq<nat>
  {
    if n in ndcs then ndcs[n] else []
  }

  /** The number of occurrences of `x` in `s`: its multiplicity in `multiset(s)`. */
  function Count(s: seq<nat>, x: nat): (k: nat)
    ensures k <= |s|
  {
    if s == [] then 0 else Count(s[..|s| - 1], x) + (if s[|s| - 1] == x then 1 else 0)
  }

  lemma CountSnoc(s: seq<nat>, y: nat, x: nat)
    ensures Count(s + [y], x) == Count(s, x) + (if y == x then 1 else 0)
  {
    assert (s + [y])[..|s|] == s;
  }

  lemma {:induction false} CountConcat(a: seq<nat>, b: seq<nat>, x: nat)
    ensures Count(a + b, x) == Count(a, x) + Count(b, x)
    decreases |b|
  {
    if b != [] {
      var init := b[..|b| - 1];
      assert a + b == (a + init) + [b[|b| - 1]];
      CountSnoc(a + init, b[|b| - 1], x);
      CountConcat(a, init, x);
    } else {
      assert a + b == a;
    }
  }

  /** `Count` is the multiplicity of the element in the multiset of the sequence. */
  lemma {:induction false} CountIsMultiplicity(s: seq<nat>, x: nat)
    ensures Count(s, x) == multiset(s)[x]
    decreases |s|
  {
    if s != [] {
      CountIsMultiplicity(s[..|s| - 1], x);
      assert s == s[..|s| - 1] + [s[|s| - 1]];
    }
  }

  /** An element occurs when its count is positive. */
  lemma {:induction false} CountPositive(s: seq<nat>, x: nat)
    ensures Count(s, x) > 0 <==> x in s
    decreases |s|
  {
    if s != [] {
      var init := s[..|s| - 1];
      CountPositive(init, x);
      assert s == init + [s[|s| - 1]];
    }
  }

  /** The sum of the elements, accumulated in order. */
  function Total(s: seq<nat>): nat
  {
    if s == [] then 0 else Total(s[..|s| - 1]) + s[|s| - 1]
  }

  /** `c` repeated `k` times. */
  function Repeat(c: nat, k: nat): (r: seq<nat>)
    ensures |r| == k
    ensures forall i :: 0 <= i < k ==> r[i] == c
  {
    if k == 0 then [] else Repeat(c, k - 1) + [c]
  }

  lemma {:induction false} RepeatCount(c: nat, k: nat, x: nat)
    ensures Count(Repeat(c, k), x) == if x == c then k else 0
  {
    if k > 0 {
      RepeatCount(c, k - 1, x);
      CountSnoc(Repeat(c, k - 1), c, x);
    }
  }

  lemma RepeatPrefix(o: seq<nat>, c: nat, k: nat, j: nat)
    requires j <= k
    ensures (o + Repeat(c, k))[..|o| + j] == o + Repeat(c, j)
  {
    assert (o + Repeat(c, k))[..|o| + j] == o + Repeat(c, k)[..j];
  }

  /** `m_ndcs[n].push_back(c)`: the entry is created when absent. */
  function Push(ndcs: NodeClusters, n: Id, c: nat): NodeClusters
  {
    ndcs[n := Owners(ndcs, n) + [c]]
  }

  /**
   * `m_ndcs[n].pop_back()`: the entry is created when absent; popping an
   * empty list leaves it empty.
   */
  function Pop(ndcs: NodeClusters, n: Id): NodeClusters
  {
    var l := Owners(ndcs, n);
    ndcs[n := if l == [] then [] else l[..|l| - 1]]
  }

  /** One `pop_back` on the list of each node of `vs`, in order. */
  function PopAll(ndcs: NodeClusters, vs: seq<Id>): NodeClusters
  {
    if vs == [] then ndcs else Pop(PopAll(ndcs, vs[..|vs| - 1]), vs[|vs| - 1])
  }

  /** Cluster `c` appended to the list of each member in turn, as the loaders do. */
  function AddMembers(ndcs: NodeClusters, ms: seq<Id>, c: nat): NodeClusters
  {
    if ms == [] then ndcs else Push(AddMembers(ndcs, ms[..|ms| - 1], c), ms[|ms| - 1], c)
  }

  /** The index of a collection whose clusters, in order, have the members `cls`. */
  function Index(cls: seq<seq<Id>>): NodeClusters
  {
    if cls == [] then map[] else AddMembers(Index(cls[..|cls| - 1]), cls[|cls| - 1], |cls| - 1)
  }

  /** Adding the members of `c` gives each member one more entry `c` per occurrence. */
  lemma {:induction false} AddMembersOwners(ndcs: NodeClusters, ms: seq<Id>, c: nat, n: Id)
    ensures Owners(AddMembers(ndcs, ms, c), n) == Owners(ndcs, n) + Repeat(c, Count(ms, n))
    decreases |ms|
  {
    if ms != [] {
      AddMembersOwners(ndcs, ms[..|ms| - 1], c, n);
    }
  }

  /** Adding the members of `c` indexes each of them and nothing else. */
  lemma {:induction false} AddMembersKeys(ndcs: NodeClusters, ms: seq<Id>, c: nat, n: Id)
    ensures n in AddMembers(ndcs, ms, c) <==> n in ndcs || n in ms
    decreases |ms|
  {
    if ms != [] {
      var init, last := ms[..|ms| - 1], ms[|ms| - 1];
      assert ms == init + [last];
      AddMembersKeys(ndcs, init, c, n);
    }
  }

  /** Popping from the nodes of `vs` shortens each list by the node's number of occurrences in `vs`. */
  lemma {:induction false} PopAllOwners(ndcs: NodeClusters, vs: seq<Id>, n: Id)
    requires Count(vs, n) <= |Owners(ndcs, n)|
    ensures Owners(PopAll(ndcs, vs), n) == Owners(ndcs, n)[..|Owners(ndcs, n)| - Count(vs, n)]
    decreases |vs|
  {
    var o := Owners(ndcs, n);
    if vs == [] {
      assert o[..|o|] == o;
    } else {
      var init := vs[..|vs| - 1];
      PopAllOwners(ndcs, init, n);
      if vs[|vs| - 1] == n {
        var k := Count(init, n);
        assert o[..|o| - k][..|o| - k - 1] == o[..|o| - k - 1];
      }
    }
  }

  /** Popping indexes each node popped and keeps every other key. */
  lemma {:induction false} PopAllKeys(ndcs: NodeClusters, vs: seq<Id>, n: Id)
    ensures n in PopAll(ndcs, vs) <==> n in ndcs || n in vs
    decreases |vs|
  {
    if vs != [] {
      var init, last := vs[..|vs| - 1], vs[|vs| - 1];
      assert vs == init + [last];
      PopAllKeys(ndcs, init, n);
    }
  }

  /**
   * The index counts occurrences: cluster `c` is listed for node `n` exactly
   * as many times as `n` is a member of cluster `c`, and no other cluster is
   * listed.
   */
  lemma {:induction false} IndexCounts(cls: seq<seq<Id>>, n: Id, c: nat)
    ensures Count(Owners(Index(cls), n), c) == if c < |cls| then Count(cls[c], n) else 0
    decreases |cls|
  {
    if cls != [] {
      var init, last := cls[..|cls| - 1], cls[|cls| - 1];
      IndexCounts(init, n, c);
      AddMembersOwners(Index(init), last, |cls| - 1, n);
      CountConcat(Owners(Index(init), n), Repeat(|cls| - 1, Count(last, n)), c);
      RepeatCount(|cls| - 1, Count(last, n), c);
    }
  }

  /** A node is indexed exactly when it is a member of some cluster. */
  lemma {:induction false} IndexKeys(cls: seq<seq<Id>>, n: Id)
    ensures n in Index(cls) <==> exists c :: 0 <= c < |cls| && n in cls[c]
    decreases |cls|
  {
    if cls != [] {
      var init, last := cls[..|cls| - 1], cls[|cls| - 1];
      IndexKeys(init, n);
      AddMembersKeys(Index(init), last, |cls| - 1, n);
      if n in last {
        assert n in cls[|cls| - 1];
      }
      if exists c :: 0 <= c < |cls| && n in cls[c] {
        var c :| 0 <= c < |cls| && n in cls[c];
        if c < |cls| - 1 {
          assert n in init[c];
        }
      }
    }
  }

  /** Cluster `c` is listed for node `n` exactly when `n` is one of its members. */
  lemma OwnedBy(cls: seq<seq<Id>>, n: Id, c: nat)
    ensures c in Owners(Index(cls), n) <==> c < |cls| && n in cls[c]
  {
    IndexCounts(cls, n, c);
    CountPositive(Owners(Index(cls), n), c);
    if c < |cls| {
      CountPositive(cls[c], n);
    }
  }

  // ---------------------------------------------------------------------------
  // std::sort and std::unique on the members of a cluster

  /** Non-decreasing, the order `std::sort` produces. */
  predicate Sorted(s: seq<Id>)
  {
    forall i :: 0 < i < |s| ==> s[i - 1] <= s[i]
  }

  /** `x` inserted before the first larger-or-equal element of `s`. */
  function Insert(x: Id, s: seq<Id>): (r: seq<Id>)
    ensures |r| == |s| + 1
  {
    if s == [] || x <= s[0] then [x] + s else [s[0]] + Insert(x, s[1..])
  }

  /** Insertion adds one occurrence of the inserted element. */
  lemma {:induction false} InsertCount(x: Id, s: seq<Id>, n: Id)
    ensures Count(Insert(x, s), n) == Count(s, n) + (if x == n then 1 else 0)
    decreases |s|
  {
    if s == [] || x <= s[0] {
      CountConcat([x], s, n);
    } else {
      InsertCount(x, s[1..], n);
      CountConcat([s[0]], Insert(x, s[1..]), n);
      CountConcat([s[0]], s[1..], n);
      assert [s[0]] + s[1..] == s;
    }
  }

  /** Inserting into sorted members keeps them sorted. */
  lemma {:induction false} InsertSorted(x: Id, s: seq<Id>)
    requires Sorted(s)
    ensures Sorted(Insert(x, s))
    ensures Insert(x, s)[0] == x || (s != [] && Insert(x, s)[0] == s[0])
    decreases |s|
  {
    if s != [] && x > s[0] {
      var t := Insert(x, s[1..]);
      assert Sorted(s[1..]);
      InsertSorted(x, s[1..]);
      var r := [s[0]] + t;
      forall i | 0 < i < |r|
        ensures r[i - 1] <= r[i]
      {
        if i > 1 {
          assert r[i - 1] == t[i - 2] && r[i] == t[i - 1];
        }
      }
    }
  }

  /** `std::sort(members)`: the members in non-decreasing order. */
  function Sort(s: seq<Id>): (r: seq<Id>)
    ensures |r| == |s| && Sorted(r)
  {
    if s == [] then []
    else
      InsertSorted(s[0], Sort(s[1..]));
      Insert(s[0], Sort(s[1..]))
  }

  /** Sorting permutes the members: every node keeps its number of occurrences. */
  lemma {:induction false} SortCount(s: seq<Id>, n: Id)
    ensures Count(Sort(s), n) == Count(s, n)
    decreases |s|
  {
    if s != [] {
      SortCount(s[1..], n);
      InsertCount(s[0], Sort(s[1..]), n);
      CountConcat([s[0]], s[1..], n);
      assert [s[0]] + s[1..] == s;
    }
  }

  /** The elements `std::unique` keeps: each one that differs from its predecessor. */
  function Unique(s: seq<Id>): (r: seq<Id>)
    ensures |r| <= |s|
    ensures s != [] ==> r != [] && r[0] == s[0] && r[|r| - 1] == s[|s| - 1]
    ensures forall i :: 0 < i < |r| ==> r[i - 1] != r[i]
    ensures forall x :: x in r <==> x in s
  {
    if |s| <= 1 then s
    else
      var init := s[..|s| - 1];
      var u := Unique(init);
      assert s == init + [s[|s| - 1]];
      if s[|s| - 1] == s[|s| - 2] then
        assert s[|s| - 2] in init;
        u
      else
        u + [s[|s| - 1]]
  }

  /** The elements `std::unique` drops: each one equal to its predecessor. */
  function Duplicates(s: seq<Id>): (r: seq<Id>)
    ensures |r| <= |s|
  {
    if |s| <= 1 then []
    else
      var d := Duplicates(s[..|s| - 1]);
      if s[|s| - 1] == s[|s| - 2] then d + [s[|s| - 1]] else d
  }

  /** `std::unique` splits the members into the kept and the dropped ones. */
  lemma {:induction false} UniqueSplits(s: seq<Id>, n: Id)
    ensures Count(s, n) == Count(Unique(s), n) + Count(Duplicates(s), n)
    decreases |s|
  {
    if |s| > 1 {
      var init, last := s[..|s| - 1], s[|s| - 1];
      UniqueSplits(init, n);
      if last == s[|s| - 2] {
        CountSnoc(Duplicates(init), last, n);
      } else {
        CountSnoc(Unique(init), last, n);
      }
    }
  }

  /** Strictly ascending: each element greater than its predecessor. */
  predicate Strict(s: seq<Id>)
  {
    forall i :: 0 < i < |s| ==> s[i - 1] < s[i]
  }

  /** On sorted members, the kept elements are strictly ascending: each member is kept once. */
  lemma {:induction false} UniqueOfSorted(s: seq<Id>)
    requires Sorted(s)
    ensures Strict(Unique(s))
    decreases |s|
  {
    if |s| > 1 {
      var init := s[..|s| - 1];
      assert Sorted(init);
      UniqueOfSorted(init);
    }
  }

  /** A strictly ascending sequence is below its last element before the end. */
  lemma {:induction false} StrictBelowLast(s: seq<Id>, k: nat)
    requires Strict(s) && k < |s| - 1
    ensures s[k] < s[|s| - 1]
    decreases |s| - k
  {
    if k < |s| - 2 {
      StrictBelowLast(s, k + 1);
    }
  }

  /** A strictly ascending sequence holds each of its elements once. */
  lemma {:induction false} StrictCountsOnce(s: seq<Id>, n: Id)
    requires Strict(s)
    ensures Count(s, n) == if n in s then 1 else 0
    decreases |s|
  {
    if s != [] {
      var init, last := s[..|s| - 1], s[|s| - 1];
      assert Strict(init);
      StrictCountsOnce(init, n);
      assert s == init + [last];
      if last in init {
        var k :| 0 <= k < |init| && init[k] == last;
        StrictBelowLast(s, k);
      }
    }
  }

  /** On sorted members, the dropped duplicates of a node are all its occurrences but the kept one. */
  lemma DuplicateCounts(s: seq<Id>, n: Id)
    requires Sorted(s)
    ensures Count(Duplicates(s), n) + Count(Unique(s), n) == Count(s, n)
    ensures Count(Unique(s), n) == if n in s then 1 else 0
  {
    UniqueSplits(s, n);
    UniqueOfSorted(s);
    StrictCountsOnce(Unique(s), n);
    CountPositive(s, n);
    CountPositive(Unique(s), n);
  }

  /** Two indexes with the same keys and the same owner lists are equal. */
  lemma SameIndex(a: NodeClusters, b: NodeClusters)
    requires forall n :: n in a <==> n in b
    requires forall n :: Owners(a, n) == Owners(b, n)
    ensures a == b
  {
    assert a.Keys == b.Keys;
    forall n | n in a
      ensures a[n] == b[n]
    {
      assert Owners(a, n) == Owners(b, n);
    }
  }

  /**
   * The clean-up after `unique` pops once per dropped duplicate; `tail` is
   * the sequence of nodes whose lists are popped. It repairs the index when
   * each node is popped as often as it was dropped.
   */
  predicate PopsDropped(s: seq<Id>, tail: seq<Id>)
  {
    forall n: Id :: Count(tail, n) == Count(Duplicates(s), n)
  }

  /** One node's key after the clean-up. */
  lemma DropDuplicatesKey(ndcs: NodeClusters, s: seq<Id>, tail: seq<Id>, c: nat, n: Id)
    requires Sorted(s) && Count(tail, n) == Count(Duplicates(s), n)
    ensures n in PopAll(AddMembers(ndcs, s, c), tail) <==> n in AddMembers(ndcs, Unique(s), c)
  {
    PopAllKeys(AddMembers(ndcs, s, c), tail, n);
    AddMembersKeys(ndcs, s, c, n);
    AddMembersKeys(ndcs, Unique(s), c, n);
    DuplicateCounts(s, n);
    CountPositive(s, n);
    CountPositive(tail, n);
    CountPositive(Unique(s), n);
  }

  /** One node's list after the clean-up. */
  lemma DropDuplicatesOwners(ndcs: NodeClusters, s: seq<Id>, tail: seq<Id>, c: nat, n: Id)
    requires Sorted(s) && Count(tail, n) == Count(Duplicates(s), n)
    ensures Owners(PopAll(AddMembers(ndcs, s, c), tail), n) == Owners(AddMembers(ndcs, Unique(s), c), n)
  {
    var o := Owners(ndcs, n);
    var raw := AddMembers(ndcs, s, c);
    AddMembersOwners(ndcs, s, c, n);
    AddMembersOwners(ndcs, Unique(s), c, n);
    DuplicateCounts(s, n);
    assert |Owners(raw, n)| == |o| + Count(s, n);
    PopAllOwners(raw, tail, n);
    RepeatPrefix(o, c, Count(s, n), Count(Unique(s), n));
  }

  /**
   * The clean-up after `unique`: one `pop_back` per dropped duplicate, each
   * node popped as often as it was dropped, turns the index of the raw
   * members into the index of the unique members.
   */
  lemma DropDuplicatesKeepsIndex(ndcs: NodeClusters, s: seq<Id>, tail: seq<Id>, c: nat)
    requires Sorted(s) && PopsDropped(s, tail)
    ensures PopAll(AddMembers(ndcs, s, c), tail) == AddMembers(ndcs, Unique(s), c)
  {
    var after := PopAll(AddMembers(ndcs, s, c), tail);
    var want := AddMembers(ndcs, Unique(s), c);
    forall n
      ensures n in after <==> n in want
      ensures Owners(after, n) == Owners(want, n)
    {
      DropDuplicatesKey(ndcs, s, tail, c, n);
      DropDuplicatesOwners(ndcs, s, tail, c, n);
    }
    SameIndex(after, want);
  }
}
