/**
 * `Collection` (include/interface.hpp) over integral counts: its clusters,
 * the node index `m_ndcs`, the node-base hash, the per-cluster matching
 * counters and member contributions, and the operations that build and
 * evaluate it.
 *
 * A cluster is named by its position in the traversal order of `m_cls`;
 * the owner lists of `m_ndcs` hold such positions.  The traversal order of
 * the hash map `m_ndcs` is a parameter where it matters.
 */
module Collections {
  import opened Exceptions
  import opened Text
  import opened NodeIndex
  import opened FileIO
  import opened Loading
  import opened Matching
  import opened Interface

  /** A prefix one longer is the prefix and the next element. */
  lemma PrefixSnoc<T>(s: seq<T>, c: nat)
    requires c < |s|
    ensures s[..c + 1] == s[..c] + [s[c]]
  {
  }

  // ---------------------------------------------------------------------------
  // Contributions: per-cluster counters

  /** `k` zeros. */
  function Zeros(k: nat): (z: seq<nat>)
    ensures |z| == k && forall c :: 0 <= c < k ==> z[c] == 0
  {
    seq(k, _ => 0)
  }

  /** The counters `v` after `w` is added to the counter of each cluster listed in `l`. */
  function AddTo(v: seq<nat>, l: seq<nat>, w: nat): (r: seq<nat>)
    ensures |r| == |v| && forall c :: 0 <= c < |v| ==> r[c] == v[c] + Count(l, c) * w
  {
    seq(|v|, c requires 0 <= c < |v| => v[c] + Count(l, c) * w)
  }

  /** Adding for one more listed cluster adds to that cluster's counter only. */
  lemma AddToSnoc(v: seq<nat>, l: seq<nat>, x: nat, w: nat)
    requires x < |v|
    ensures AddTo(v, l + [x], w) == AddTo(v, l, w)[x := AddTo(v, l, w)[x] + w]
  {
    forall c | 0 <= c < |v|
      ensures AddTo(v, l + [x], w)[c] == AddTo(v, l, w)[x := AddTo(v, l, w)[x] + w][c]
    {
      CountSnoc(l, x, c);
      MulSucc(Count(l, c), w);
    }
  }

  lemma MulSucc(k: nat, w: nat)
    ensures (k + 1) * w == k * w + w
  {
  }

  /** Two additions over the same list are one addition of the sum. */
  lemma AddToTwice(v: seq<nat>, l: seq<nat>, a: nat, b: nat)
    ensures AddTo(AddTo(v, l, a), l, b) == AddTo(v, l, a + b)
  {
    forall c | 0 <= c < |v|
      ensures AddTo(AddTo(v, l, a), l, b)[c] == AddTo(v, l, a + b)[c]
    {
      var k := Count(l, c);
      assert k * a + k * b == k * (a + b);
    }
  }

  /** Adding 0, or over no cluster, changes nothing. */
  lemma AddToNothing(v: seq<nat>, l: seq<nat>, w: nat)
    requires w == 0 || l == []
    ensures AddTo(v, l, w) == v
  {
  }

  /** Raising one counter raises the sum by as much. */
  lemma {:induction false} TotalUpdate(u: seq<nat>, x: nat, w: nat)
    requires x < |u|
    ensures Total(u[x := u[x] + w]) == Total(u) + w
    decreases |u|
  {
    var u' := u[x := u[x] + w];
    assert u'[..|u| - 1] == if x < |u| - 1 then u[..|u| - 1][x := u[x] + w] else u[..|u| - 1];
    if x < |u| - 1 {
      TotalUpdate(u[..|u| - 1], x, w);
    }
  }

  /** Adding `w` for each listed cluster raises the sum by `w` per listed cluster. */
  lemma {:induction false} TotalAddTo(v: seq<nat>, l: seq<nat>, w: nat)
    requires InRange(l, |v|)
    ensures Total(AddTo(v, l, w)) == Total(v) + |l| * w
    decreases |l|
  {
    if l == [] {
      AddToNothing(v, l, w);
    } else {
      var init, x := l[..|l| - 1], l[|l| - 1];
      assert l == init + [x];
      TotalAddTo(v, init, w);
      AddToSnoc(v, init, x, w);
      TotalUpdate(AddTo(v, init, w), x, w);
      MulSucc(|init|, w);
    }
  }

  /** The sum of counters is 0 exactly when every counter is 0. */
  lemma {:induction false} TotalZero(v: seq<nat>)
    ensures Total(v) == 0 <==> forall c :: 0 <= c < |v| ==> v[c] == 0
    decreases |v|
  {
    if v != [] {
      TotalZero(v[..|v| - 1]);
      assert forall c :: 0 <= c < |v| - 1 ==> v[..|v| - 1][c] == v[c];
    }
  }

  // ---------------------------------------------------------------------------
  // Contributions: the node traversals of `evalconts`

  /** Every node of the index listed exactly once: a traversal order of `m_ndcs`. */
  predicate Enumerates(order: seq<Id>, ndcs: NodeClusters)
  {
    (forall n :: n in ndcs ==> n in order) && (forall n :: n in order ==> n in ndcs)
    && forall i, j :: 0 <= i < j < |order| ==> order[i] != order[j]
  }

  /**
   * The contributions to the clusters of both collections and the count of
   * matched member pairs after the nodes `order` of the first index: a node
   * owned by `L1` here and `L2` there adds `|L2|` to each cluster of `L1`,
   * `|L1|` to each cluster of `L2`, and `|L1| |L2|` pairs.
   */
  function Shared(order: seq<Id>, nd1: NodeClusters, nd2: NodeClusters, v1: seq<nat>, v2: seq<nat>)
    : (r: (seq<nat>, seq<nat>, nat))
    ensures |r.0| == |v1| && |r.1| == |v2|
  {
    if order == [] then (v1, v2, 0)
    else
      var prev := Shared(order[..|order| - 1], nd1, nd2, v1, v2);
      var l1, l2 := Owners(nd1, order[|order| - 1]), Owners(nd2, order[|order| - 1]);
      (AddTo(prev.0, l1, |l2|), AddTo(prev.1, l2, |l1|), prev.2 + |l1| * |l2|)
  }

  /**
   * The contributions to the clusters of the second collection after the
   * nodes `order` of its index that the first index lacks, each adding 1 to
   * each of its clusters, and the number of such nodes.
   */
  function Extra(order: seq<Id>, nd1: NodeClusters, nd2: NodeClusters, v2: seq<nat>): (r: (seq<nat>, nat))
    ensures |r.0| == |v2|
  {
    if order == [] then (v2, 0)
    else
      var prev := Extra(order[..|order| - 1], nd1, nd2, v2);
      var n := order[|order| - 1];
      if n in nd1 then prev else (AddTo(prev.0, Owners(nd2, n), 1), prev.1 + 1)
  }

  /** The memberships of the nodes of `order` that `nd1` lacks, counted in `nd2`. */
  function ExtraMemberships(order: seq<Id>, nd1: NodeClusters, nd2: NodeClusters): nat
  {
    if order == [] then 0
    else
      var n := order[|order| - 1];
      ExtraMemberships(order[..|order| - 1], nd1, nd2) + (if n in nd1 then 0 else |Owners(nd2, n)|)
  }

  /**
   * Both sides receive one contribution per matched member pair: the sums
   * of the contributions of each collection grow by the count of pairs.
   */
  lemma {:induction false} SharedTotals(order: seq<Id>, cls1: seq<seq<Id>>, cls2: seq<seq<Id>>, v1: seq<nat>, v2: seq<nat>)
    requires |v1| == |cls1| && |v2| == |cls2|
    ensures var r := Shared(order, Index(cls1), Index(cls2), v1, v2);
      Total(r.0) == Total(v1) + r.2 && Total(r.1) == Total(v2) + r.2
    decreases |order|
  {
    if order != [] {
      var n := order[|order| - 1];
      var prev := Shared(order[..|order| - 1], Index(cls1), Index(cls2), v1, v2);
      var l1, l2 := Owners(Index(cls1), n), Owners(Index(cls2), n);
      SharedTotals(order[..|order| - 1], cls1, cls2, v1, v2);
      OwnersInRange(cls1, n);
      OwnersInRange(cls2, n);
      TotalAddTo(prev.0, l1, |l2|);
      TotalAddTo(prev.1, l2, |l1|);
      assert |l2| * |l1| == |l1| * |l2|;
    }
  }

  /**
   * The nodes only the second collection has raise the sum of its
   * contributions by their memberships, while only their number is counted.
   */
  lemma {:induction false} ExtraTotals(order: seq<Id>, nd1: NodeClusters, cls2: seq<seq<Id>>, v2: seq<nat>)
    requires |v2| == |cls2|
    ensures Total(Extra(order, nd1, Index(cls2), v2).0) == Total(v2) + ExtraMemberships(order, nd1, Index(cls2))
    ensures Extra(order, nd1, Index(cls2), v2).1 == 0 ==> Extra(order, nd1, Index(cls2), v2).0 == v2
    decreases |order|
  {
    if order != [] {
      var n := order[|order| - 1];
      ExtraTotals(order[..|order| - 1], nd1, cls2, v2);
      if n !in nd1 {
        OwnersInRange(cls2, n);
        TotalAddTo(Extra(order[..|order| - 1], nd1, Index(cls2), v2).0, Owners(Index(cls2), n), 1);
      }
    }
  }

  /** For nodes owned by one cluster each, memberships and nodes agree. */
  lemma {:induction false} ExtraSingleOwners(order: seq<Id>, nd1: NodeClusters, nd2: NodeClusters, v2: seq<nat>)
    requires forall n :: n in order && n !in nd1 ==> |Owners(nd2, n)| == 1
    ensures ExtraMemberships(order, nd1, nd2) == Extra(order, nd1, nd2, v2).1
    decreases |order|
  {
    if order != [] {
      ExtraSingleOwners(order[..|order| - 1], nd1, nd2, v2);
    }
  }

  // ---------------------------------------------------------------------------
  // Loading one line

  /** `mbhash.add(nid)`, stated by the ids the aggregate holds. */
  method AddNode(mbhash: AggHash, nid: Id)
    requires mbhash.Valid()
    modifies mbhash
    ensures mbhash.Valid() && mbhash.ids == old(mbhash.ids) + [nid]
  {
    mbhash.Add(nid);
  }

  /**
   * The load state after the members `ms` of the cluster that follows the
   * clusters `cls`: the index lists the clusters of each member so far,
   * and the hash holds each node once, in the order nodes are first met.
   */
  ghost predicate Loaded(cls: seq<seq<Id>>, ms: seq<Id>, ndcs: NodeClusters, mbhash: AggHash)
    reads mbhash
  {
    ndcs == AddMembers(Index(cls), ms, |cls|) && mbhash.Valid() && mbhash.ids == FirstSeen(Flatten(cls) + ms)
  }

  /**
   * One member token `tok` of the cluster after the clusters `cls`: its id,
   * when the node base accepts it, joins the members; the index lists the
   * cluster for it, and the node enters the hash when it has no cluster yet.
   */
  method ReadMember(tok: string, ghost done: seq<string>, nodebase: Option<set<Id>>, cls: seq<seq<Id>>,
                    ms: seq<Id>, ndcs: NodeClusters, mbhash: AggHash)
    returns (ms': seq<Id>, ndcs': NodeClusters)
    requires ms == Members(done, nodebase) && Loaded(cls, ms, ndcs, mbhash)
    modifies mbhash
    ensures ms' == Members(done + [tok], nodebase) && Loaded(cls, ms', ndcs', mbhash)
  {
    assert (done + [tok])[..|done|] == done;
    var nid: Id := ParseId(tok);
    ms', ndcs' := ms, ndcs;
    if Accepts(nodebase, nid) {
      ndcs' := IndexMember(cls, ms, ndcs, nid, mbhash);
      ms' := ms + [nid];
    }
  }

  /** An accepted member `nid` after the members `ms`: it joins the load state. */
  method IndexMember(cls: seq<seq<Id>>, ghost ms: seq<Id>, ndcs: NodeClusters, nid: Id, mbhash: AggHash)
    returns (ndcs': NodeClusters)
    requires Loaded(cls, ms, ndcs, mbhash)
    modifies mbhash
    ensures Loaded(cls, ms + [nid], ndcs', mbhash)
  {
    NoOwnerYet(cls, ms, nid);
    SeenSnoc(Flatten(cls), ms, nid);
    AddMembersSnoc(Index(cls), ms, nid, |cls|);
    if Owners(ndcs, nid) == [] {
      AddNode(mbhash, nid);
    }
    ndcs' := Push(ndcs, nid, |cls|);
  }

  /** The first-seen order after one more member. */
  lemma SeenSnoc(f: seq<Id>, ms: seq<Id>, nid: Id)
    ensures FirstSeen(f + (ms + [nid])) == if nid in f + ms then FirstSeen(f + ms) else FirstSeen(f + ms) + [nid]
  {
    FirstSeenSnoc(f + ms, nid);
    assert f + (ms + [nid]) == f + ms + [nid];
  }

  /** Indexing one more member pushes the cluster onto its list. */
  lemma AddMembersSnoc(ndcs: NodeClusters, ms: seq<Id>, nid: Id, c: nat)
    ensures AddMembers(ndcs, ms + [nid], c) == Push(AddMembers(ndcs, ms, c), nid, c)
  {
    assert (ms + [nid])[..|ms|] == ms;
  }

  /**
   * The member loop of `load` from the first member token `tok` on, the
   * rest of the line `rest` read through the `strtok` cursor, which yields
   * the tokens `todo`: the accepted members, in order, each indexed as it
   * is read.
   */
  method LoadMembers(tok: string, rest: string, ghost todo: seq<string>, nodebase: Option<set<Id>>,
                     cls: seq<seq<Id>>, ndcs0: NodeClusters, mbhash: AggHash)
    returns (ms: seq<Id>, ndcs: NodeClusters)
    requires TokensAre(rest, todo)
    requires ndcs0 == Index(cls) && mbhash.Valid() && mbhash.ids == FirstSeen(Flatten(cls))
    modifies mbhash
    ensures ms == Members([tok] + todo, nodebase) && Loaded(cls, ms, ndcs, mbhash)
  {
    ghost var mtoks := [tok] + todo;
    assert mtoks[1..] == todo;
    ms, ndcs := [], ndcs0;
    var tok, rest := tok, rest;
    ghost var i := 0;
    assert Flatten(cls) + ms == Flatten(cls);
    while true
      invariant i < |mtoks| && tok == mtoks[i] && TokensAre(rest, mtoks[i + 1..])
      invariant ms == Members(mtoks[..i], nodebase) && Loaded(cls, ms, ndcs, mbhash)
      decreases |rest|
    {
      ms, ndcs := ReadMember(tok, mtoks[..i], nodebase, cls, ms, ndcs, mbhash);
      PrefixSnoc(mtoks, i);
      var next := StrTok(rest, MemberDelims);
      if next.None? {
        break;
      }
      assert mtoks[i + 1..][1..] == mtoks[i + 2..];
      tok, rest, i := next.value.0, next.value.1, i + 1;
    }
    assert mtoks[..i + 1] == mtoks;
  }

  /**
   * `load` on one line: a line without tokens, a comment, or a cluster id
   * alone adds no cluster; otherwise the member loop runs from the first
   * member token.
   */
  method LoadLine(line: string, nodebase: Option<set<Id>>, cls: seq<seq<Id>>, ndcs0: NodeClusters, mbhash: AggHash)
    returns (members: Option<seq<Id>>, ndcs: NodeClusters)
    requires ndcs0 == Index(cls) && mbhash.Valid() && mbhash.ids == FirstSeen(Flatten(cls))
    modifies mbhash
    ensures members.Some? <==> LineClusters(line, nodebase) != []
    ensures members.Some? ==> LineClusters(line, nodebase) == [members.value]
    ensures ndcs == Index(cls + LineClusters(line, nodebase))
    ensures mbhash.Valid() && mbhash.ids == FirstSeen(Flatten(cls + LineClusters(line, nodebase)))
  {
    var t := StrTok(line, MemberDelims);
    if t.None? {
      assert cls + [] == cls;
      return None, ndcs0;
    }
    members, ndcs := LoadFirst(t.value.0, t.value.1, nodebase, cls, ndcs0, mbhash);
  }

  /** `LoadLine` after the first token `tok` of the line, with `rest` the text after it. */
  method LoadFirst(tok: string, rest: string, nodebase: Option<set<Id>>, cls: seq<seq<Id>>, ndcs0: NodeClusters, mbhash: AggHash)
    returns (members: Option<seq<Id>>, ndcs: NodeClusters)
    requires tok != []
    requires ndcs0 == Index(cls) && mbhash.Valid() && mbhash.ids == FirstSeen(Flatten(cls))
    modifies mbhash
    ensures members.Some? <==> MemberTokens(tok, rest).Some?
    ensures members.Some? ==> members.value == Members(MemberTokens(tok, rest).value, nodebase)
    ensures var added := if members.Some? then [members.value] else [];
      ndcs == Index(cls + added) && mbhash.Valid() && mbhash.ids == FirstSeen(Flatten(cls + added))
  {
    if tok[0] == '#' {
      assert cls + [] == cls;
      return None, ndcs0;
    }
    var ms;
    if tok[|tok| - 1] == '>' {
      var t2 := StrTok(rest, MemberDelims);
      if t2.None? {
        assert cls + [] == cls;
        return None, ndcs0;
      }
      ms, ndcs := LoadCluster(t2.value.0, t2.value.1, nodebase, cls, ndcs0, mbhash);
    } else {
      ms, ndcs := LoadCluster(tok, rest, nodebase, cls, ndcs0, mbhash);
    }
    members := Some(ms);
  }

  /** The cluster whose first member token is `tok`, with `rest` the text after it, added to the collection. */
  method LoadCluster(tok: string, rest: string, nodebase: Option<set<Id>>, cls: seq<seq<Id>>, ndcs0: NodeClusters, mbhash: AggHash)
    returns (ms: seq<Id>, ndcs: NodeClusters)
    requires ndcs0 == Index(cls) && mbhash.Valid() && mbhash.ids == FirstSeen(Flatten(cls))
    modifies mbhash
    ensures ms == Members([tok] + Tokens(rest, MemberDelims), nodebase)
    ensures ndcs == Index(cls + [ms]) && mbhash.Valid() && mbhash.ids == FirstSeen(Flatten(cls + [ms]))
  {
    ghost var todo := Tokens(rest, MemberDelims);
    TokensAreTokens(rest, todo);
    ms, ndcs := LoadMembers(tok, rest, todo, nodebase, cls, ndcs0, mbhash);
    IndexSnoc(cls, ms);
  }

  /** The clusters of the lines from `next` to `i`, their index and the node hash of their members. */
  ghost predicate LoadedUpTo(lines: seq<string>, next: nat, i: nat, nodebase: Option<set<Id>>,
                             cls: seq<seq<Id>>, ndcs: NodeClusters, mbhash: AggHash)
    reads mbhash
  {
    next <= i <= |lines| && cls == FileClusters(lines[next..i], nodebase)
    && ndcs == Index(cls) && mbhash.Valid() && mbhash.ids == FirstSeen(Flatten(cls))
  }

  /**
   * The clusters of the lines from `next` on, added one line at a time, with
   * their index and node hash: line `next` is in the buffer already, and each
   * further line is loaded while `readline` returns true for it.
   */
  method LoadClusters(lines: seq<string>, next: nat, nodebase: Option<set<Id>>, mbhash: AggHash)
    returns (cls: seq<seq<Id>>, ndcs: NodeClusters)
    requires next <= |lines| && mbhash.Valid() && mbhash.ids == []
    modifies mbhash
    ensures cls == FileClusters(lines[next..LoadEnd(lines, next)], nodebase) && ndcs == Index(cls)
    ensures mbhash.Valid() && mbhash.ids == FirstSeen(Flatten(cls))
  {
    cls, ndcs := [], map[];
    assert LoadedUpTo(lines, next, next, nodebase, cls, ndcs, mbhash);
    if next == |lines| {
      return;
    }
    cls, ndcs := LoadNext(lines, next, next, nodebase, cls, ndcs, mbhash);
    cls, ndcs := ReadMore(lines, next, next + 1, nodebase, cls, ndcs, mbhash);
  }

  /** The `while(line.readline(file))` part of the loop of `load`: lines are loaded from `i0` on while they end with `\n`. */
  method ReadMore(lines: seq<string>, next: nat, i0: nat, nodebase: Option<set<Id>>, cls0: seq<seq<Id>>, ndcs0: NodeClusters, mbhash: AggHash)
    returns (cls: seq<seq<Id>>, ndcs: NodeClusters)
    requires LoadedUpTo(lines, next, i0, nodebase, cls0, ndcs0, mbhash)
    modifies mbhash
    ensures LoadedUpTo(lines, next, ReadEnd(lines, i0), nodebase, cls, ndcs, mbhash)
  {
    cls, ndcs := cls0, ndcs0;
    var i := i0;
    while i < |lines| && Terminated(lines[i])
      invariant LoadedUpTo(lines, next, i, nodebase, cls, ndcs, mbhash)
      invariant ReadEnd(lines, i) == ReadEnd(lines, i0)
      decreases |lines| - i
    {
      cls, ndcs := LoadNext(lines, next, i, nodebase, cls, ndcs, mbhash);
      i := i + 1;
    }
  }

  /** One iteration of the reading loop of `LoadClusters`: line `i` is loaded. */
  method LoadNext(lines: seq<string>, next: nat, i: nat, nodebase: Option<set<Id>>, cls0: seq<seq<Id>>, ndcs0: NodeClusters, mbhash: AggHash)
    returns (cls: seq<seq<Id>>, ndcs: NodeClusters)
    requires i < |lines| && LoadedUpTo(lines, next, i, nodebase, cls0, ndcs0, mbhash)
    modifies mbhash
    ensures LoadedUpTo(lines, next, i + 1, nodebase, cls, ndcs, mbhash)
  {
    var members;
    members, ndcs := LoadLine(lines[i], nodebase, cls0, ndcs0, mbhash);
    FileClustersSnoc(lines, next, i, nodebase);
    Appended(cls0, LineClusters(lines[i], nodebase), members);
    cls := if members.Some? then cls0 + [members.value] else cls0;
  }

  /** Appending the clusters of a line is appending the cluster `LoadLine` returns, if any. */
  lemma Appended(cls: seq<seq<Id>>, added: seq<seq<Id>>, members: Option<seq<Id>>)
    requires members.Some? <==> added != []
    requires members.Some? ==> added == [members.value]
    ensures cls + added == if members.Some? then cls + [members.value] else cls
  {
    if members.None? {
      assert cls + added == cls;
    }
  }

  /** The clusters of the lines up to one more line. */
  lemma FileClustersSnoc(lines: seq<string>, next: nat, i: nat, nodebase: Option<set<Id>>)
    requires next <= i < |lines|
    ensures FileClusters(lines[next..i + 1], nodebase) == FileClusters(lines[next..i], nodebase) + LineClusters(lines[i], nodebase)
  {
    var xs := lines[next..i + 1];
    assert xs[..|xs| - 1] == lines[next..i];
    assert xs[|xs| - 1] == lines[i];
  }

  /** The index and the members of the clusters after one more cluster. */
  lemma IndexSnoc(cls: seq<seq<Id>>, ms: seq<Id>)
    ensures Index(cls + [ms]) == AddMembers(Index(cls), ms, |cls|)
    ensures Flatten(cls + [ms]) == Flatten(cls) + ms
  {
    assert (cls + [ms])[..|cls|] == cls;
  }

  // ---------------------------------------------------------------------------
  // Sums of `avggms`

  /** The plain sum of the greatest matches, accumulated in order. */
  method SumOf(gs: seq<real>) returns (acc: real)
    ensures acc == Sum(gs)
  {
    acc := 0.0;
    var i := 0;
    while i < |gs|
      invariant i <= |gs| && acc == Sum(gs[..i])
    {
      assert gs[..i + 1][..i] == gs[..i];
      acc := acc + gs[i];
      i := i + 1;
    }
    assert gs[..i] == gs;
  }

  /** The greatest matches weighted by the cluster sizes, and the sum of the sizes. */
  method WeightedSumOf(gs: seq<real>, cls: seq<seq<Id>>) returns (acc: real, csizes: nat)
    requires |gs| == |cls|
    ensures acc == WeightedSum(gs, Sizes(cls)) && csizes == Total(Sizes(cls))
  {
    acc, csizes := 0.0, 0;
    var i := 0;
    while i < |cls|
      invariant i <= |cls|
      invariant acc == WeightedSum(gs[..i], Sizes(cls)[..i]) && csizes == Total(Sizes(cls)[..i])
    {
      var ccont := |cls[i]|;
      assert gs[..i + 1][..i] == gs[..i];
      assert Sizes(cls)[..i + 1][..i] == Sizes(cls)[..i];
      acc := acc + gs[i] * ccont as real;
      csizes := csizes + ccont;
      i := i + 1;
    }
    assert gs[..i] == gs && Sizes(cls)[..i] == Sizes(cls);
  }

  /**
   * The arithmetic of `avggms` on the greatest matches of the clusters `cls`:
   * the sum, or the size-weighted sum over the mean size, checked against
   * the number of clusters with the tolerant `less` and divided by it.
   */
  method AverageOf(gmats: seq<real>, cls: seq<seq<Id>>, weighted: bool, tol: real) returns (r: Result<Float>)
    requires |gmats| == |cls|
    ensures r == Average(gmats, Sizes(cls), weighted, tol)
  {
    var n := Num(|gmats| as real);
    var acc: Float;
    if weighted {
      var accgm, csizesSum := WeightedSumOf(gmats, cls);
      WeightedSumOfZerosIf(gmats, Sizes(cls));
      acc := Div(Num(accgm), Div(Num(csizesSum as real), n));
    } else {
      var accgm := SumOf(gmats);
      acc := Num(accgm);
    }
    if Less(n, acc, |gmats|, tol) {
      return Err(OverflowError);
    }
    r := Ok(Div(acc, n));
  }

  // ---------------------------------------------------------------------------
  // f1gm

  /**
   * `f1gm` on the outcomes of the two `avggms` calls: an exception of the
   * first call propagates before the second is made, one of the second
   * propagates, and two averages combine into their harmonic mean.
   */
  function Combine(a1: Result<Float>, a2: Result<Float>): (r: Result<Float>)
    ensures r.Err? <==> a1.Err? || a2.Err?
    ensures a1.Err? ==> r == a1
  {
    if a1.Err? then a1
    else if a2.Err? then a2
    else Ok(F1gmMean(a1.value, a2.value))
  }

  /** Two averages combine to the same value in either order. */
  lemma CombineSymmetric(a1: Result<Float>, a2: Result<Float>)
    requires a1.Ok? && a2.Ok?
    ensures Combine(a1, a2) == Combine(a2, a1)
  {
    if a1.value.Num? && a2.value.Num? {
      HMeanSymmetric(a1.value.r, a2.value.r);
    }
  }

  /**
   * Match values within [0, 1] never make `f1gm` throw, and its value is NaN
   * or lies in [0, 1].
   */
  lemma CombineOfUnits(g1: seq<real>, w1: seq<nat>, g2: seq<real>, w2: seq<nat>, weighted: bool, tol: real)
    requires |g1| == |w1| && forall k :: 0 <= k < |g1| ==> 0.0 <= g1[k] <= 1.0
    requires |g2| == |w2| && forall k :: 0 <= k < |g2| ==> 0.0 <= g2[k] <= 1.0
    requires tol >= 0.0
    ensures var r := Combine(Average(g1, w1, weighted, tol), Average(g2, w2, weighted, tol));
      r.Ok? && (r.value.NaN? || 0.0 <= r.value.r <= 1.0)
  {
    AverageOfUnits(g1, w1, weighted, tol);
    AverageOfUnits(g2, w2, weighted, tol);
    var a1, a2 := Average(g1, w1, weighted, tol).value, Average(g2, w2, weighted, tol).value;
    if a1.Num? && a2.Num? {
      F1gmMeanAgrees(a1, a2);
    }
  }

  // ---------------------------------------------------------------------------
  // The collection

  class Collection {
    /** `m_cls`: the members of each cluster, in the traversal order of the clusters. */
    const cls: seq<seq<Id>>
    /** `m_ndcs`: the clusters of each node. */
    const ndcs: NodeClusters
    /** `m_ndshash`: the hash of the node base, 0 when it is not evaluated. */
    const ndshash: nat
    /** The `counter` of each cluster. */
    var counters: seq<Counter<Collection>>
    /** The `mbscont` of each cluster: the contributions of its members. */
    var mbscont: seq<nat>
    /** `m_contsum`: the sum of the contributions, 0 while they are cleared. */
    var contsum: nat

    /** The index lists the clusters of each node, and there is a counter and a contribution per cluster. */
    ghost predicate Indexed()
      reads this
    {
      ndcs == Index(cls) && |counters| == |cls| && |mbscont| == |cls|
    }

    /** Indexed, and a zero sum means cleared contributions. */
    ghost predicate Valid()
      reads this
    {
      Indexed() && (contsum == 0 ==> forall c :: 0 <= c < |mbscont| ==> mbscont[c] == 0)
    }

    /** A collection of the clusters `cls` indexed by `ndcs`, with fresh counters and no contributions. */
    constructor (cls: seq<seq<Id>>, ndcs: NodeClusters, ndshash: nat)
      requires ndcs == Index(cls)
      ensures Valid() && this.cls == cls && this.ndcs == ndcs && this.ndshash == ndshash
      ensures counters == seq(|cls|, _ => Counter(None, 0)) && mbscont == Zeros(|cls|) && contsum == 0
    {
      this.cls, this.ndcs, this.ndshash := cls, ndcs, ndshash;
      counters := seq(|cls|, _ => Counter(None, 0));
      mbscont := Zeros(|cls|);
      contsum := 0;
    }

    /**
     * `load` from the lines of a CNL file: the header is parsed first, then
     * each line the loop reads adds its cluster; the node base filters members
     * and `hashOf` stands for `AggHash::hash`.  An empty file gives an
     * empty collection; `load` then leaves the caller's hash unwritten, and
     * the hash returned here is empty.
     */
    static method Load(lines: seq<string>, nodebase: Option<set<Id>>, hashOf: (nat, nat, nat) -> nat)
      returns (cn: Collection, mbhash: AggHash)
      ensures fresh(cn) && fresh(mbhash) && cn.Valid() && mbhash.Valid() && cn.contsum == 0
      ensures lines == [] ==> cn.cls == [] && cn.ndshash == 0 && mbhash.ids == []
      ensures lines != [] ==> var next := HeaderScan(lines, 0).1;
        cn.cls == FileClusters(lines[next..LoadEnd(lines, next)], nodebase)
      ensures lines != [] ==> mbhash.ids == FirstSeen(Flatten(cn.cls))
      ensures lines != [] ==> cn.ndshash == hashOf(mbhash.size, mbhash.idsum, mbhash.id2sum)
    {
      mbhash := new AggHash();
      if lines == [] {
        cn := new Collection([], map[], 0);
        return;
      }
      var counts, next := ParseHeader(lines, Counts(0, 0));
      var cls, ndcs := LoadClusters(lines, next, nodebase, mbhash);
      cn := new Collection(cls, ndcs, hashOf(mbhash.size, mbhash.idsum, mbhash.id2sum));
    }

    // -------------------------------------------------------------------------
    // gmatches

    /**
     * The hits of one member of cluster `c` on the foreign clusters `owners`
     * holding it: each hit bumps that cluster's counter and evaluates the
     * match, keeping the greatest.
     */
    method ScanOwners(cn: Collection, c: nat, owners: seq<nat>, gmatch0: real,
                      fmatch: (seq<Id>, nat, nat) -> real, ghost cs0: seq<Counter<Collection>>, ghost h: seq<nat>)
      returns (gmatch: real)
      requires c < |cls| && |cs0| == |cn.cls| && |cn.counters| == |cn.cls|
      requires InRange(h, |cn.cls|) && InRange(owners, |cn.cls|)
      requires (cn.counters, gmatch0) == Scan(cs0, h, (this, c), cls[c], cn.cls, fmatch)
      modifies cn`counters
      ensures InRange(h + owners, |cn.cls|)
      ensures (cn.counters, gmatch) == Scan(cs0, h + owners, (this, c), cls[c], cn.cls, fmatch)
    {
      gmatch := gmatch0;
      var j := 0;
      assert h + owners[..0] == h;
      while j < |owners|
        invariant j <= |owners| && InRange(h + owners[..j], |cn.cls|)
        invariant (cn.counters, gmatch) == Scan(cs0, h + owners[..j], (this, c), cls[c], cn.cls, fmatch)
      {
        var d := owners[j];
        var ctr := Bump(cn.counters[d], (this, c));
        cn.counters := cn.counters[d := ctr];
        var m := fmatch(cls[c], ctr.count, |cn.cls[d]|);
        if gmatch < m {
          gmatch := m;
        }
        assert (h + owners[..j + 1])[..|h| + j] == h + owners[..j];
        j := j + 1;
      }
      assert owners[..j] == owners;
    }

    /** The sweep of cluster `c` over its members: its greatest match. */
    method MatchCluster(cn: Collection, c: nat, fmatch: (seq<Id>, nat, nat) -> real) returns (gmatch: real)
      requires c < |cls| && cn.ndcs == Index(cn.cls) && |cn.counters| == |cn.cls|
      modifies cn`counters
      ensures |cn.counters| == |cn.cls| && InRange(Hits(cls[c], cn.ndcs), |cn.cls|)
      ensures (cn.counters, gmatch) == Scan(old(cn.counters), Hits(cls[c], cn.ndcs), (this, c), cls[c], cn.cls, fmatch)
    {
      var ms := cls[c];
      ghost var cs0 := cn.counters;
      gmatch := 0.0;
      var i := 0;
      while i < |ms|
        invariant i <= |ms| && |cn.counters| == |cn.cls| && InRange(Hits(ms[..i], cn.ndcs), |cn.cls|)
        invariant (cn.counters, gmatch) == Scan(cs0, Hits(ms[..i], cn.ndcs), (this, c), ms, cn.cls, fmatch)
      {
        var nid := ms[i];
        assert ms[..i + 1][..i] == ms[..i];
        ghost var h := Hits(ms[..i], cn.ndcs);
        if nid in cn.ndcs {
          OwnersInRange(cn.cls, nid);
          gmatch := ScanOwners(cn, c, cn.ndcs[nid], gmatch, fmatch, cs0, h);
        } else {
          assert h + Owners(cn.ndcs, nid) == h;
        }
        i := i + 1;
      }
      assert ms[..i] == ms;
    }

    /**
     * `gmatches`: the greatest match of each cluster against the clusters
     * of `cn`, in traversal order; the sweeps leave their counts in the
     * counters of `cn`.
     */
    method GMatches(cn: Collection, fmatch: (seq<Id>, nat, nat) -> real) returns (gmats: seq<real>)
      requires Valid() && cn.Valid()
      modifies cn`counters
      ensures Valid() && cn.Valid()
      ensures gmats == GreatestMatches(old(cn.counters), this, cls, cn.cls, fmatch)
      ensures cn.counters == Sweep(old(cn.counters), this, cls, cn.cls, fmatch, |cls|)
    {
      ghost var cs0 := cn.counters;
      ghost var gm := GreatestMatches(cs0, this, cls, cn.cls, fmatch);
      gmats := [];
      var c := 0;
      while c < |cls|
        invariant c <= |cls| && |cn.counters| == |cn.cls|
        invariant cn.counters == Sweep(cs0, this, cls, cn.cls, fmatch, c) && gmats == gm[..c]
      {
        var g := MatchCluster(cn, c, fmatch);
        assert g == gm[c];
        PrefixSnoc(gm, c);
        gmats := gmats + [g];
        c := c + 1;
      }
      assert gm[..c] == gm;
    }

    // -------------------------------------------------------------------------
    // avggms

    /**
     * `avggms`: the average of the greatest matches of the clusters against
     * `cn`, weighted by the cluster sizes when `weighted`; an accumulated
     * sum above the number of clusters by more than the tolerance `tol` of
     * `less` throws `overflow_error`.
     */
    method AvgGms(cn: Collection, weighted: bool, fmatch: (seq<Id>, nat, nat) -> real, tol: real) returns (r: Result<Float>)
      requires Valid() && cn.Valid()
      modifies cn`counters
      ensures Valid() && cn.Valid()
      ensures cn.counters == Sweep(old(cn.counters), this, cls, cn.cls, fmatch, |cls|)
      ensures r == Average(GreatestMatches(old(cn.counters), this, cls, cn.cls, fmatch), Sizes(cls), weighted, tol)
    {
      var gmats := GMatches(cn, fmatch);
      r := AverageOf(gmats, cls, weighted, tol);
    }

    /**
     * `f1gm`: the harmonic mean of the average greatest matches of `cn1`
     * against `cn2` and of `cn2` against `cn1`, the second sweep starting
     * from the counters the first one left.  Both averages of 0 give 0.
     */
    static method F1gm(cn1: Collection, cn2: Collection, weighted: bool, fmatch: (seq<Id>, nat, nat) -> real, tol: real)
      returns (r: Result<Float>)
      requires cn1.Valid() && cn2.Valid()
      modifies cn1`counters, cn2`counters
      ensures cn1.Valid() && cn2.Valid()
      ensures var swept := Sweep(old(cn2.counters), cn1, cn1.cls, cn2.cls, fmatch, |cn1.cls|);
        r == Combine(Average(GreatestMatches(old(cn2.counters), cn1, cn1.cls, cn2.cls, fmatch), Sizes(cn1.cls), weighted, tol),
                     Average(GreatestMatches(if cn1 == cn2 then swept else old(cn1.counters), cn2, cn2.cls, cn1.cls, fmatch),
                             Sizes(cn2.cls), weighted, tol))
    {
      var a1 := cn1.AvgGms(cn2, weighted, fmatch, tol);
      if a1.Err? {
        return a1;
      }
      var a2 := cn2.AvgGms(cn1, weighted, fmatch, tol);
      if a2.Err? {
        return a2;
      }
      r := Ok(F1gmMean(a1.value, a2.value));
    }

    // -------------------------------------------------------------------------
    // Contributions

    /** `clearconts`: nothing to do when the sum is 0; otherwise every contribution and the sum become 0. */
    method ClearConts()
      requires Valid()
      modifies this`mbscont, this`contsum
      ensures Valid() && contsum == 0 && mbscont == Zeros(|cls|)
    {
      if contsum == 0 {
        return;
      }
      var c := 0;
      while c < |mbscont|
        invariant c <= |mbscont| == |cls| && forall k :: 0 <= k < c ==> mbscont[k] == 0
      {
        mbscont := mbscont[c := 0];
        c := c + 1;
      }
      contsum := 0;
    }

    /**
     * One cluster `cl` of this collection and the clusters `l2` of `cn`
     * owning the same node: each pair adds 1 to both sides.
     */
    method PairContribs(cn: Collection, cl: nat, l2: seq<nat>)
      requires this != cn && cl < |mbscont| && InRange(l2, |cn.mbscont|)
      modifies this`mbscont, cn`mbscont
      ensures mbscont == old(mbscont)[cl := old(mbscont)[cl] + |l2|]
      ensures cn.mbscont == AddTo(old(cn.mbscont), l2, 1)
    {
      var j := 0;
      AddToNothing(cn.mbscont, [], 1);
      while j < |l2|
        invariant j <= |l2| && |mbscont| == old(|mbscont|)
        invariant mbscont == old(mbscont)[cl := old(mbscont)[cl] + j]
        invariant cn.mbscont == AddTo(old(cn.mbscont), l2[..j], 1)
      {
        var cl2 := l2[j];
        mbscont := mbscont[cl := mbscont[cl] + 1];
        AddToSnoc(old(cn.mbscont), l2[..j], cl2, 1);
        assert l2[..j + 1] == l2[..j] + [cl2];
        cn.mbscont := cn.mbscont[cl2 := cn.mbscont[cl2] + 1];
        j := j + 1;
      }
      assert l2[..j] == l2;
    }

    /** The clusters `l1` here and `l2` of `cn` owning the same node; returns the number of pairs. */
    method NodeContribs(cn: Collection, l1: seq<nat>, l2: seq<nat>) returns (pairs: nat)
      requires this != cn && InRange(l1, |mbscont|) && InRange(l2, |cn.mbscont|)
      modifies this`mbscont, cn`mbscont
      ensures mbscont == AddTo(old(mbscont), l1, |l2|) && cn.mbscont == AddTo(old(cn.mbscont), l2, |l1|)
      ensures pairs == |l1| * |l2|
    {
      pairs := 0;
      var i := 0;
      AddToNothing(mbscont, [], |l2|);
      AddToNothing(cn.mbscont, l2, 0);
      while i < |l1|
        invariant i <= |l1| && |mbscont| == old(|mbscont|) && |cn.mbscont| == old(|cn.mbscont|)
        invariant mbscont == AddTo(old(mbscont), l1[..i], |l2|)
        invariant cn.mbscont == AddTo(old(cn.mbscont), l2, i)
        invariant pairs == i * |l2|
      {
        var cl := l1[i];
        pairs := pairs + |l2|;
        AddToSnoc(old(mbscont), l1[..i], cl, |l2|);
        assert l1[..i + 1] == l1[..i] + [cl];
        AddToTwice(old(cn.mbscont), l2, i, 1);
        PairContribs(cn, cl, l2);
        i := i + 1;
      }
      assert l1[..i] == l1;
    }

    /** The traversal of this collection's nodes in `order`: contributions of the shared nodes. */
    method SharedContribs(cn: Collection, order: seq<Id>) returns (cmmsum: nat)
      requires this != cn && Indexed() && cn.Indexed()
      modifies this`mbscont, cn`mbscont
      ensures (mbscont, cn.mbscont, cmmsum) == Shared(order, ndcs, cn.ndcs, old(mbscont), old(cn.mbscont))
    {
      cmmsum := 0;
      var i := 0;
      while i < |order|
        invariant i <= |order|
        invariant (mbscont, cn.mbscont, cmmsum) == Shared(order[..i], ndcs, cn.ndcs, old(mbscont), old(cn.mbscont))
      {
        var n := order[i];
        assert order[..i + 1][..i] == order[..i];
        var l1 := Owners(ndcs, n);
        var l2 := Owners(cn.ndcs, n);
        OwnersInRange(cls, n);
        OwnersInRange(cn.cls, n);
        if |l2| > 0 {
          var pairs := NodeContribs(cn, l1, l2);
          cmmsum := cmmsum + pairs;
        } else {
          AddToNothing(mbscont, l1, 0);
          AddToNothing(cn.mbscont, l2, |l1|);
        }
        i := i + 1;
      }
      assert order[..i] == order;
    }

    /** `updateCont` on the clusters `l`: adds 1 to each. */
    method AddShare(l: seq<nat>)
      requires InRange(l, |mbscont|)
      modifies this`mbscont
      ensures mbscont == AddTo(old(mbscont), l, 1)
    {
      var j := 0;
      AddToNothing(mbscont, [], 1);
      while j < |l|
        invariant j <= |l| && mbscont == AddTo(old(mbscont), l[..j], 1)
      {
        AddToSnoc(old(mbscont), l[..j], l[j], 1);
        assert l[..j + 1] == l[..j] + [l[j]];
        mbscont := mbscont[l[j] := mbscont[l[j]] + 1];
        j := j + 1;
      }
      assert l[..j] == l;
    }

    /** The traversal of the nodes of `cn` in `order` that this collection lacks. */
    method ExtraContribs(cn: Collection, order: seq<Id>) returns (econt: nat)
      requires cn.Indexed()
      modifies cn`mbscont
      ensures (cn.mbscont, econt) == Extra(order, ndcs, cn.ndcs, old(cn.mbscont))
    {
      econt := 0;
      var i := 0;
      while i < |order|
        invariant i <= |order| && |cn.mbscont| == |cn.cls|
        invariant (cn.mbscont, econt) == Extra(order[..i], ndcs, cn.ndcs, old(cn.mbscont))
      {
        var n := order[i];
        assert order[..i + 1][..i] == order[..i];
        if n !in ndcs {
          OwnersInRange(cn.cls, n);
          cn.AddShare(Owners(cn.ndcs, n));
          econt := econt + 1;
        }
        i := i + 1;
      }
      assert order[..i] == order;
    }

    /**
     * `evalconts` without the cluster matching matrix, where `matching`
     * tells whether the matrix is requested: skipped, returning 0, when no
     * matrix is requested and both sums are set; otherwise both sides are
     * cleared, the shared nodes contribute, and, when the node bases differ
     * by hash or size, so do the nodes only `cn` has.  The traversal orders
     * of the two indexes are `order1` and `order2`.
     */
    method EvalConts(cn: Collection, matching: bool, order1: seq<Id>, order2: seq<Id>) returns (cmmsum: nat)
      requires this != cn && Valid() && cn.Valid()
      requires Enumerates(order1, ndcs) && Enumerates(order2, cn.ndcs)
      modifies this`mbscont, this`contsum, cn`mbscont, cn`contsum
      ensures Valid() && cn.Valid()
      ensures !matching && old(contsum) != 0 && old(cn.contsum) != 0 ==>
        cmmsum == 0 && mbscont == old(mbscont) && contsum == old(contsum)
        && cn.mbscont == old(cn.mbscont) && cn.contsum == old(cn.contsum)
      ensures matching || old(contsum) == 0 || old(cn.contsum) == 0 ==>
        var s := Shared(order1, ndcs, cn.ndcs, Zeros(|cls|), Zeros(|cn.cls|));
        var unequal := (ndshash != 0 && cn.ndshash != 0 && ndshash != cn.ndshash) || |ndcs| != |cn.ndcs|;
        var e := if unequal then Extra(order2, ndcs, cn.ndcs, s.1) else (s.1, 0);
        cmmsum == s.2 && mbscont == s.0 && contsum == s.2 && cn.mbscont == e.0 && cn.contsum == s.2 + e.1
    {
      if !matching && contsum != 0 && cn.contsum != 0 {
        return 0;
      }
      ClearConts();
      cn.ClearConts();
      cmmsum := SharedContribs(cn, order1);
      SharedTotals(order1, cls, cn.cls, Zeros(|cls|), Zeros(|cn.cls|));
      TotalZero(Zeros(|cls|));
      TotalZero(Zeros(|cn.cls|));
      ghost var shared := cn.mbscont;
      var econt := 0;
      if (ndshash != 0 && cn.ndshash != 0 && ndshash != cn.ndshash) || |ndcs| != |cn.ndcs| {
        econt := ExtraContribs(cn, order2);
        ExtraTotals(order2, ndcs, cn.cls, shared);
      }
      contsum := cmmsum;
      cn.contsum := cmmsum + econt;
      TotalZero(mbscont);
      TotalZero(cn.mbscont);
    }
  }
}
