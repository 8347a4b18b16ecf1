/**
 * The C interface (src/interface_c.cpp): `loadCollection`, which builds a
 * collection from raw arrays of member ids, and the F1 entry points that
 * load two raw collections and hand them to the measure engine.
 *
 * A raw collection is its array of clusters, `None` standing for a null
 * `nodes` pointer; a raw cluster is its array of member ids.
 */
module CInterface {
  import opened Exceptions
  import Text
  import opened NodeIndex
  import opened FileIO
  import opened Loading
  import opened Interface
  import opened Collections

  /** `ClusterCollection`: the raw clusters, or `None` when `nodes` is null. */
  type RawCollection = Option<seq<seq<Id>>>

  // ---------------------------------------------------------------------------
  // What `loadCollection` keeps

  /** The members of a raw cluster that the node base accepts, in order. */
  function Accepted(ids: seq<Id>, nodebase: Option<set<Id>>): (ms: seq<Id>)
    ensures |ms| <= |ids|
  {
    if ids == [] then []
    else
      var last := ids[|ids| - 1];
      Accepted(ids[..|ids| - 1], nodebase) + (if Accepts(nodebase, last) then [last] else [])
  }

  /** The ids the tokens name, in order, as `strtoul` reads them. */
  function ParsedIds(toks: seq<string>): (ids: seq<Id>)
    ensures |ids| == |toks|
  {
    if toks == [] then [] else ParsedIds(toks[..|toks| - 1]) + [Text.ParseId(toks[|toks| - 1])]
  }

  /** `load` and `loadCollection` apply the same node-base filter: a line's members are its accepted ids. */
  lemma {:induction false} MembersAreAccepted(toks: seq<string>, nodebase: Option<set<Id>>)
    ensures Members(toks, nodebase) == Accepted(ParsedIds(toks), nodebase)
    decreases |toks|
  {
    if toks != [] {
      var init := toks[..|toks| - 1];
      MembersAreAccepted(init, nodebase);
      var ids := ParsedIds(toks);
      assert ids[..|ids| - 1] == ParsedIds(init);
    }
  }

  /** The filter keeps every occurrence of an accepted node and none of a rejected one. */
  lemma {:induction false} AcceptedCounts(ids: seq<Id>, nodebase: Option<set<Id>>, n: Id)
    ensures Count(Accepted(ids, nodebase), n) == if Accepts(nodebase, n) then Count(ids, n) else 0
    decreases |ids|
  {
    if ids != [] {
      var init, last := ids[..|ids| - 1], ids[|ids| - 1];
      assert ids == init + [last];
      AcceptedCounts(init, nodebase, n);
      CountSnoc(init, last, n);
      if Accepts(nodebase, last) {
        assert Accepted(ids, nodebase) == Accepted(init, nodebase) + [last];
        CountSnoc(Accepted(init, nodebase), last, n);
      } else {
        assert Accepted(ids, nodebase) == Accepted(init, nodebase);
      }
    }
  }

  /** The members a kept cluster ends with: sorted and without repeats under `makeunique`. */
  function Cleaned(ms: seq<Id>, makeunique: bool): seq<Id>
  {
    if makeunique then Unique(Sort(ms)) else ms
  }

  /** Under `makeunique` each member is kept exactly once, otherwise with all its occurrences. */
  lemma CleanedCounts(ms: seq<Id>, makeunique: bool, n: Id)
    ensures Count(Cleaned(ms, makeunique), n) == if !makeunique then Count(ms, n) else if n in ms then 1 else 0
    ensures makeunique ==> Strict(Cleaned(ms, makeunique))
  {
    if makeunique {
      DuplicateCounts(Sort(ms), n);
      SortCount(ms, n);
      CountPositive(ms, n);
      CountPositive(Sort(ms), n);
      UniqueOfSorted(Sort(ms));
    }
  }

  /** The clusters `loadCollection` keeps, in input order: those left non-empty by the node base. */
  function Kept(raw: seq<seq<Id>>, nodebase: Option<set<Id>>, makeunique: bool): (cls: seq<seq<Id>>)
    ensures |cls| <= |raw|
  {
    if raw == [] then []
    else
      var ms := Accepted(raw[|raw| - 1], nodebase);
      Kept(raw[..|raw| - 1], nodebase, makeunique) + (if ms == [] then [] else [Cleaned(ms, makeunique)])
  }

  /**
   * The entries `loadCollection` appends to `lostcls` when it already held
   * `base` entries: for each raw cluster left empty, its input position
   * raised by `base`.
   */
  function Lost(raw: seq<seq<Id>>, nodebase: Option<set<Id>>, base: nat): seq<nat>
  {
    if raw == [] then []
    else
      var i := |raw| - 1;
      Lost(raw[..i], nodebase, base) + (if Accepted(raw[i], nodebase) == [] then [base + i] else [])
  }

  /** Each raw cluster is either kept or lost. */
  lemma {:induction false} LostAndKept(raw: seq<seq<Id>>, nodebase: Option<set<Id>>, makeunique: bool, base: nat)
    ensures |Lost(raw, nodebase, base)| + |Kept(raw, nodebase, makeunique)| == |raw|
    decreases |raw|
  {
    if raw != [] {
      LostAndKept(raw[..|raw| - 1], nodebase, makeunique, base);
    }
  }

  /** Reading raw cluster `i` extends what the clusters before it kept and lost. */
  lemma KeptSnoc(raw: seq<seq<Id>>, i: nat, nodebase: Option<set<Id>>, makeunique: bool, base: nat)
    requires i < |raw|
    ensures var ms := Accepted(raw[i], nodebase);
      && Kept(raw[..i + 1], nodebase, makeunique)
         == Kept(raw[..i], nodebase, makeunique) + (if ms == [] then [] else [Cleaned(ms, makeunique)])
      && Lost(raw[..i + 1], nodebase, base)
         == Lost(raw[..i], nodebase, base) + (if ms == [] then [base + i] else [])
  {
    assert raw[..i + 1][..i] == raw[..i] && raw[..i + 1][i] == raw[i];
  }

  /** Strictly increasing. */
  predicate Ascending(s: seq<nat>)
  {
    forall k :: 0 < k < |s| ==> s[k - 1] < s[k]
  }

  /** The lost entries lie in `[base, base + |raw|)` and are strictly increasing. */
  lemma {:induction false} LostAscending(raw: seq<seq<Id>>, nodebase: Option<set<Id>>, base: nat)
    ensures var l := Lost(raw, nodebase, base);
      Ascending(l) && forall k :: 0 <= k < |l| ==> base <= l[k] < base + |raw|
    decreases |raw|
  {
    if raw != [] {
      LostAscending(raw[..|raw| - 1], nodebase, base);
    }
  }

  /** Position `i` is recorded exactly when the node base leaves raw cluster `i` empty. */
  lemma {:induction false} LostExactly(raw: seq<seq<Id>>, nodebase: Option<set<Id>>, base: nat, i: nat)
    requires i < |raw|
    ensures base + i in Lost(raw, nodebase, base) <==> Accepted(raw[i], nodebase) == []
    decreases |raw|
  {
    var init := raw[..|raw| - 1];
    if i < |raw| - 1 {
      LostPrefix(raw, nodebase, base, i);
      assert init[i] == raw[i];
      LostExactly(init, nodebase, base, i);
    } else {
      LostLast(raw, nodebase, base);
    }
  }

  /** The entry of an earlier position is recorded by the clusters before the last. */
  lemma LostPrefix(raw: seq<seq<Id>>, nodebase: Option<set<Id>>, base: nat, i: nat)
    requires i < |raw| - 1
    ensures base + i in Lost(raw, nodebase, base) <==> base + i in Lost(raw[..|raw| - 1], nodebase, base)
  {
  }

  /** The last position is recorded exactly when the last cluster is left empty. */
  lemma LostLast(raw: seq<seq<Id>>, nodebase: Option<set<Id>>, base: nat)
    requires raw != []
    ensures base + |raw| - 1 in Lost(raw, nodebase, base) <==> Accepted(raw[|raw| - 1], nodebase) == []
  {
    LostAscending(raw[..|raw| - 1], nodebase, base);
  }

  /** A kept cluster as `loadCollection` leaves it. */
  predicate Clean(ms: seq<Id>, nodebase: Option<set<Id>>, makeunique: bool)
  {
    ms != [] && (forall k :: 0 <= k < |ms| ==> Accepts(nodebase, ms[k])) && (makeunique ==> Strict(ms))
  }

  /** The cleaned members of a non-empty filtered cluster form a clean cluster. */
  lemma CleanedIsClean(ids: seq<Id>, nodebase: Option<set<Id>>, makeunique: bool)
    requires Accepted(ids, nodebase) != []
    ensures Clean(Cleaned(Accepted(ids, nodebase), makeunique), nodebase, makeunique)
  {
    var ms := Accepted(ids, nodebase);
    var cs := Cleaned(ms, makeunique);
    forall k | 0 <= k < |cs|
      ensures Accepts(nodebase, cs[k])
    {
      var n := cs[k];
      CountPositive(cs, n);
      CleanedCounts(ms, makeunique, n);
      CountPositive(ms, n);
      AcceptedCounts(ids, nodebase, n);
    }
    var n := ms[0];
    CleanedCounts(ms, makeunique, n);
    CountPositive(ms, n);
    CountPositive(cs, n);
  }

  /** Every kept cluster is non-empty, holds accepted nodes only and, under `makeunique`, is strictly ascending. */
  lemma {:induction false} KeptClean(raw: seq<seq<Id>>, nodebase: Option<set<Id>>, makeunique: bool)
    ensures var cls := Kept(raw, nodebase, makeunique);
      forall c :: 0 <= c < |cls| ==> Clean(cls[c], nodebase, makeunique)
    decreases |raw|
  {
    if raw != [] {
      var init, last := raw[..|raw| - 1], raw[|raw| - 1];
      KeptClean(init, nodebase, makeunique);
      var ms := Accepted(last, nodebase);
      if ms != [] {
        CleanedIsClean(last, nodebase, makeunique);
        var cls := Kept(raw, nodebase, makeunique);
        assert cls == Kept(init, nodebase, makeunique) + [Cleaned(ms, makeunique)];
        assert cls[|cls| - 1] == Cleaned(ms, makeunique);
      }
    }
  }

  // ---------------------------------------------------------------------------
  // The index of `makeunique`

  /** The index does not depend on the order of the members, only on their counts. */
  lemma AddMembersPermuted(ndcs: NodeClusters, a: seq<Id>, b: seq<Id>, c: nat)
    requires forall n: Id :: Count(a, n) == Count(b, n)
    ensures AddMembers(ndcs, a, c) == AddMembers(ndcs, b, c)
  {
    var ia, ib := AddMembers(ndcs, a, c), AddMembers(ndcs, b, c);
    forall n: Id
      ensures n in ia <==> n in ib
      ensures Owners(ia, n) == Owners(ib, n)
    {
      AddMembersKeys(ndcs, a, c, n);
      AddMembersKeys(ndcs, b, c, n);
      AddMembersOwners(ndcs, a, c, n);
      AddMembersOwners(ndcs, b, c, n);
      CountPositive(a, n);
      CountPositive(b, n);
    }
    SameIndex(ia, ib);
  }

  /**
   * The clean-up as written: after `unique`, one `pop_back` on the list of
   * the node that each position past the kept elements holds.  The standard
   * leaves the values at those positions unspecified, so they are `tail`.
   */
  function DedupAsWritten(ndcs: NodeClusters, sorted: seq<Id>, tail: seq<Id>, c: nat): NodeClusters
    requires |tail| == |Duplicates(sorted)|
  {
    PopAll(AddMembers(ndcs, sorted, c), tail)
  }

  /** What libstdc++'s `std::unique` leaves there: the sorted members it never overwrote. */
  function UniqueTail(s: seq<Id>): seq<Id>
  {
    s[|Unique(s)|..]
  }

  /**
   * On the members `1 1 2` of cluster 0 only a tail naming node 1 repairs
   * the index; libstdc++ leaves node 2 there, so node 1 stays listed twice
   * and node 2, still a member, loses its cluster.
   */
  lemma DedupAsWrittenMisindexes(t: Id)
    ensures var s: seq<Id> := [1, 1, 2];
      Unique(s) == [1, 2] && |Duplicates(s)| == 1 && UniqueTail(s) == [2]
      && (DedupAsWritten(map[], s, [t], 0) == AddMembers(map[], Unique(s), 0) <==> t == 1)
      && Owners(DedupAsWritten(map[], s, UniqueTail(s), 0), 2) == []
  {
    var s: seq<Id> := [1, 1, 2];
    ExampleSplit();
    ExampleIndexes();
    var m3: NodeClusters := map[1 := [0, 0], 2 := [0]];
    var n2: NodeClusters := map[1 := [0], 2 := [0]];
    assert [t][..0] == [];
    assert PopAll(m3, [t]) == Pop(m3, t);
    if t != 1 {
      assert Owners(Pop(m3, t), 1) == [0, 0];
    } else {
      assert Pop(m3, 1) == n2;
    }
    assert Owners(Pop(m3, 2), 2) == [];
  }

  /** What `std::unique` makes of the members 1 1 2. */
  lemma ExampleSplit()
    ensures var s: seq<Id> := [1, 1, 2];
      Unique(s) == [1, 2] && Duplicates(s) == [1] && UniqueTail(s) == [2]
  {
    var s: seq<Id> := [1, 1, 2];
    assert s[..2] == [1, 1] && s[..1] == [1];
    assert Unique(s[..2]) == [1];
    assert Unique(s) == [1, 2];
    assert Duplicates(s) == [1];
  }

  /** The index of the cluster 1 1 2 and that of its unique members 1 2. */
  lemma ExampleIndexes()
    ensures AddMembers(map[], [1, 1, 2], 0) == map[1 := [0, 0], 2 := [0]]
    ensures AddMembers(map[], [1, 2], 0) == map[1 := [0], 2 := [0]]
  {
    var s: seq<Id> := [1, 1, 2];
    assert s[..2] == [1, 1] && s[..1] == [1];
    var m0: NodeClusters := map[];
    var m1: NodeClusters := map[1 := [0]];
    var m2: NodeClusters := map[1 := [0, 0]];
    var m3: NodeClusters := map[1 := [0, 0], 2 := [0]];
    assert Push(m0, 1, 0) == m1 by { assert Owners(m0, 1) + [0] == [0]; }
    assert Push(m1, 1, 0) == m2 by { assert Owners(m1, 1) + [0] == [0, 0]; }
    assert Push(m2, 2, 0) == m3 by { assert Owners(m2, 2) == []; }
    assert AddMembers(m0, s[..1], 0) == m1 by { assert s[..1][..0] == []; }
    assert AddMembers(m0, s[..2], 0) == m2 by { assert s[..2][..1] == s[..1]; }
    assert AddMembers(m0, s, 0) == m3;
    var u: seq<Id> := [1, 2];
    var n2: NodeClusters := map[1 := [0], 2 := [0]];
    assert Push(m1, 2, 0) == n2 by { assert Owners(m1, 2) == []; }
    assert AddMembers(m0, u[..1], 0) == m1 by { assert u[..1][..0] == []; }
    assert AddMembers(m0, u, 0) == n2;
  }

  // ---------------------------------------------------------------------------
  // loadCollection

  /**
   * The inner loop over one raw cluster, which becomes cluster `c`: each
   * member the node base accepts is appended to the members and `c` to the
   * member's list in the index.
   */
  method ReadRawCluster(ids: seq<Id>, nodebase: Option<set<Id>>, c: nat, ndcs0: NodeClusters)
    returns (members: seq<Id>, ndcs: NodeClusters)
    ensures members == Accepted(ids, nodebase) && ndcs == AddMembers(ndcs0, members, c)
  {
    members, ndcs := [], ndcs0;
    for j := 0 to |ids|
      invariant members == Accepted(ids[..j], nodebase) && ndcs == AddMembers(ndcs0, members, c)
    {
      var did := ids[j];
      assert ids[..j + 1][..j] == ids[..j];
      if Accepts(nodebase, did) {
        AddMembersSnoc(ndcs0, members, did, c);
        members := members + [did];
        ndcs := Push(ndcs, did, c);
      }
    }
    assert ids[..|ids|] == ids;
  }

  /**
   * `makeunique` on the members of cluster `c`, indexed over `base` as read:
   * sorted, the repeats dropped, and one `pop_back` per dropped repeat on
   * that repeat's own list, so that the index lists the unique members.
   */
  method MakeUnique(members: seq<Id>, c: nat, ndcs0: NodeClusters, ghost base: NodeClusters)
    returns (unique: seq<Id>, ndcs: NodeClusters)
    requires ndcs0 == AddMembers(base, members, c)
    ensures unique == Unique(Sort(members)) && ndcs == AddMembers(base, unique, c)
  {
    var sorted := Sort(members);
    unique := Unique(sorted);
    var dropped := Duplicates(sorted);
    ndcs := ndcs0;
    for k := 0 to |dropped|
      invariant ndcs == PopAll(ndcs0, dropped[..k])
    {
      assert dropped[..k + 1][..k] == dropped[..k];
      ndcs := Pop(ndcs, dropped[k]);
    }
    assert dropped[..|dropped|] == dropped;
    UniqueIndex(base, members, c);
  }

  /** Dropping one entry per repeat of the sorted members leaves the index of the unique members. */
  lemma UniqueIndex(base: NodeClusters, members: seq<Id>, c: nat)
    ensures PopAll(AddMembers(base, members, c), Duplicates(Sort(members)))
         == AddMembers(base, Unique(Sort(members)), c)
  {
    var sorted := Sort(members);
    forall n: Id
      ensures Count(members, n) == Count(sorted, n)
    {
      SortCount(members, n);
    }
    AddMembersPermuted(base, members, sorted, c);
    DropDuplicatesKeepsIndex(base, sorted, Duplicates(sorted), c);
  }

  /** `mbhash.add(v)` for each member, in order. */
  method HashMembers(members: seq<Id>, mbhash: AggHash)
    requires mbhash.Valid()
    modifies mbhash
    ensures mbhash.Valid() && mbhash.ids == old(mbhash.ids) + members
  {
    for k := 0 to |members|
      invariant mbhash.Valid() && mbhash.ids == old(mbhash.ids) + members[..k]
    {
      AddNode(mbhash, members[k]);
      assert members[..k + 1] == members[..k] + [members[k]];
    }
    assert members[..|members|] == members;
  }

  /** The load state after the raw clusters before position `i`. */
  ghost predicate RawLoaded(raw: seq<seq<Id>>, i: nat, nodebase: Option<set<Id>>, makeunique: bool,
                            cls: seq<seq<Id>>, ndcs: NodeClusters, mbhash: AggHash,
                            lostcls: Option<seq<nat>>, lost: Option<seq<nat>>)
    requires i <= |raw|
    reads mbhash
  {
    cls == Kept(raw[..i], nodebase, makeunique) && ndcs == Index(cls)
    && mbhash.Valid() && mbhash.ids == Flatten(cls)
    && (lost.Some? <==> lostcls.Some?)
    && (lost.Some? ==> lost.value == lostcls.value + Lost(raw[..i], nodebase, |lostcls.value|))
  }

  /**
   * One iteration of the outer loop of `loadCollection`: raw cluster `i` is
   * read; when members remain it is cleaned, hashed and appended, otherwise
   * its position is recorded in `lostcls` as `lostcls.size() + m_cls.size()`.
   */
  method LoadRaw(raw: seq<seq<Id>>, i: nat, nodebase: Option<set<Id>>, makeunique: bool,
                 cls0: seq<seq<Id>>, ndcs0: NodeClusters, mbhash: AggHash,
                 ghost lostcls: Option<seq<nat>>, lost0: Option<seq<nat>>)
    returns (cls: seq<seq<Id>>, ndcs: NodeClusters, lost: Option<seq<nat>>)
    requires i < |raw| && RawLoaded(raw, i, nodebase, makeunique, cls0, ndcs0, mbhash, lostcls, lost0)
    modifies mbhash
    ensures RawLoaded(raw, i + 1, nodebase, makeunique, cls, ndcs, mbhash, lostcls, lost)
  {
    var members, ndcs1 := ReadRawCluster(raw[i], nodebase, |cls0|, ndcs0);
    if members != [] {
      cls, ndcs := KeepRaw(raw, i, nodebase, makeunique, cls0, ndcs0, mbhash, lostcls, lost0, members, ndcs1);
      lost := lost0;
    } else {
      cls, ndcs := cls0, ndcs0;
      lost := LoseRaw(raw, i, nodebase, makeunique, cls0, ndcs0, mbhash, lostcls, lost0);
    }
  }

  /** A raw cluster with members left: cleaned, hashed and appended as cluster `|cls0|`. */
  method KeepRaw(raw: seq<seq<Id>>, i: nat, nodebase: Option<set<Id>>, makeunique: bool,
                 cls0: seq<seq<Id>>, ndcs0: NodeClusters, mbhash: AggHash,
                 ghost lostcls: Option<seq<nat>>, lost: Option<seq<nat>>,
                 members0: seq<Id>, ndcs1: NodeClusters)
    returns (cls: seq<seq<Id>>, ndcs: NodeClusters)
    requires i < |raw| && RawLoaded(raw, i, nodebase, makeunique, cls0, ndcs0, mbhash, lostcls, lost)
    requires members0 == Accepted(raw[i], nodebase) != [] && ndcs1 == AddMembers(ndcs0, members0, |cls0|)
    modifies mbhash
    ensures RawLoaded(raw, i + 1, nodebase, makeunique, cls, ndcs, mbhash, lostcls, lost)
  {
    KeptSnoc(raw, i, nodebase, makeunique, if lost.Some? then |lostcls.value| else 0);
    var members, ndcs2 := members0, ndcs1;
    if makeunique {
      members, ndcs2 := MakeUnique(members, |cls0|, ndcs1, ndcs0);
    }
    HashMembers(members, mbhash);
    IndexSnoc(cls0, members);
    cls, ndcs := cls0 + [members], ndcs2;
  }

  /** A raw cluster left empty: its position recorded when a lost list is given. */
  method LoseRaw(raw: seq<seq<Id>>, i: nat, nodebase: Option<set<Id>>, makeunique: bool,
                 cls: seq<seq<Id>>, ndcs: NodeClusters, mbhash: AggHash,
                 ghost lostcls: Option<seq<nat>>, lost0: Option<seq<nat>>)
    returns (lost: Option<seq<nat>>)
    requires i < |raw| && RawLoaded(raw, i, nodebase, makeunique, cls, ndcs, mbhash, lostcls, lost0)
    requires Accepted(raw[i], nodebase) == []
    ensures RawLoaded(raw, i + 1, nodebase, makeunique, cls, ndcs, mbhash, lostcls, lost)
  {
    KeptSnoc(raw, i, nodebase, makeunique, if lost0.Some? then |lostcls.value| else 0);
    lost := lost0;
    if lost0.Some? {
      LostAndKept(raw[..i], nodebase, makeunique, |lostcls.value|);
      lost := Some(lost0.value + [|lost0.value| + |cls|]);
    }
  }

  /**
   * `loadCollection`: a null `nodes` array gives an empty collection and
   * leaves `ahash` and `lostcls` as they were; otherwise the raw clusters
   * are read in order, those left empty by the node base are dropped and
   * recorded in `lostcls` when it is given, and every member of every kept
   * cluster is added to the hash, whose aggregate is returned in place of
   * `*ahash`.  `hashOf` stands for `AggHash::hash`.
   */
  method LoadCollection(rcn: RawCollection, makeunique: bool, nodebase: Option<set<Id>>,
                        hashOf: (nat, nat, nat) -> nat, lostcls: Option<seq<nat>>)
    returns (cn: Collection, ahash: AggHash?, lost: Option<seq<nat>>)
    ensures fresh(cn) && cn.Valid() && cn.contsum == 0
    ensures rcn.None? ==> cn.cls == [] && cn.ndshash == 0 && ahash == null && lost == lostcls
    ensures rcn.Some? ==> cn.cls == Kept(rcn.value, nodebase, makeunique)
    ensures rcn.Some? ==> fresh(ahash) && ahash.Valid() && ahash.ids == Flatten(cn.cls)
    ensures rcn.Some? ==> cn.ndshash == hashOf(ahash.size, ahash.idsum, ahash.id2sum)
    ensures lost.Some? <==> lostcls.Some?
    ensures rcn.Some? && lost.Some? ==> lost.value == lostcls.value + Lost(rcn.value, nodebase, |lostcls.value|)
  {
    if rcn.None? {
      cn := new Collection([], map[], 0);
      return cn, null, lostcls;
    }
    var raw := rcn.value;
    var mbhash := new AggHash();
    var cls: seq<seq<Id>> := [];
    var ndcs: NodeClusters := map[];
    lost := lostcls;
    assert raw[..0] == [];
    for i := 0 to |raw|
      invariant RawLoaded(raw, i, nodebase, makeunique, cls, ndcs, mbhash, lostcls, lost)
    {
      cls, ndcs, lost := LoadRaw(raw, i, nodebase, makeunique, cls, ndcs, mbhash, lostcls, lost);
    }
    assert raw[..|raw|] == raw;
    cn := new Collection(cls, ndcs, hashOf(mbhash.size, mbhash.idsum, mbhash.id2sum));
    ahash := mbhash;
  }

  // ---------------------------------------------------------------------------
  // The F1 entry points

  /** The F1 value of a measure, with the recall and the precision it reports through `rec` and `prc`. */
  datatype Scores = Scores(f1: real, rec: real, prc: real)

  /**
   * `Collection::f1`, whose body is not part of this model: the scores of
   * the clusters of a collection against the ground-truth clusters, for a
   * kind of F1 and of matching.
   */
  type Engine = (seq<seq<Id>>, seq<seq<Id>>, F1, Match) -> Scores

  /** The clusters `loadCollection` yields with its defaults: no node base, no `makeunique`. */
  function Loaded(rcn: RawCollection): seq<seq<Id>>
  {
    if rcn.None? then [] else Kept(rcn.value, None, false)
  }

  /** The clusters of a raw collection loaded with the defaults are clean and in input order. */
  lemma LoadedClean(rcn: RawCollection)
    ensures var cls := Loaded(rcn);
      (rcn.Some? ==> |cls| <= |rcn.value|) && forall c :: 0 <= c < |cls| ==> Clean(cls[c], None, false)
  {
    var nobase: Option<set<Id>> := None;
    if rcn.Some? {
      KeptClean(rcn.value, nobase, false);
      assert Loaded(rcn) == Kept(rcn.value, nobase, false);
    }
  }

  /**
   * `f1x`: both raw collections loaded by `loadCollection` with its
   * defaults, then scored by the engine for the requested kinds of F1 and of
   * matching; `hashOf` stands for `AggHash::hash`.
   */
  method F1x(cn1: RawCollection, cn2: RawCollection, kind: F1, mkind: Match,
             hashOf: (nat, nat, nat) -> nat, engine: Engine)
    returns (s: Scores)
    ensures s == engine(Loaded(cn1), Loaded(cn2), kind, mkind)
  {
    var c1, h1, l1 := LoadCollection(cn1, false, None, hashOf, None);
    var c2, h2, l2 := LoadCollection(cn2, false, None, hashOf, None);
    s := engine(c1.cls, c2.cls, kind, mkind);
  }

  /**
   * `f1`: `f1x` with weighted matching; the recall and precision are
   * returned whether or not the caller asked for them.
   */
  method F1Of(cn1: RawCollection, cn2: RawCollection, kind: F1,
              hashOf: (nat, nat, nat) -> nat, engine: Engine)
    returns (s: Scores)
    ensures s == engine(Loaded(cn1), Loaded(cn2), kind, MatchWeighted)
  {
    s := F1x(cn1, cn2, kind, MatchWeighted, hashOf, engine);
  }

  /** `f1p`: the F1 of partial probabilities with weighted matching. */
  method F1p(cn1: RawCollection, cn2: RawCollection, hashOf: (nat, nat, nat) -> nat, engine: Engine)
    returns (f1: real)
    ensures f1 == engine(Loaded(cn1), Loaded(cn2), F1PartProb, MatchWeighted).f1
  {
    var s := F1Of(cn1, cn2, F1PartProb, hashOf, engine);
    f1 := s.f1;
  }

  /** `f1h`: the harmonic F1 with weighted matching. */
  method F1h(cn1: RawCollection, cn2: RawCollection, hashOf: (nat, nat, nat) -> nat, engine: Engine)
    returns (f1: real)
    ensures f1 == engine(Loaded(cn1), Loaded(cn2), F1Harmonic, MatchWeighted).f1
  {
    var s := F1Of(cn1, cn2, F1Harmonic, hashOf, engine);
    f1 := s.f1;
  }
}
