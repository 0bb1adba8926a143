/**
 * The two passes that finalise the map (`WayManager.computeSharedNodes` and
 * `WayManager.setNeighboringNodes`), described as functions of the ways' node
 * sequences. The methods of `WayRegistry.WayManager` are proved to leave the
 * objects exactly as these functions say; the lemmas here state what that means.
 */
module GraphBuild {
  import opened Nodes
  import opened Ways

  /** One place in one way's node sequence. */
  datatype Occurrence = Occurrence(way: Way, node: Node)

  /** The occurrences of `w` along its node sequence `s`, in order. */
  function Along(w: Way, s: seq<Node>): (r: seq<Occurrence>)
    ensures |r| == |s|
    decreases |s|
  {
    if s == [] then [] else Along(w, s[..|s| - 1]) + [Occurrence(w, s[|s| - 1])]
  }

  /** Position `k` of `Along(w, s)` is the occurrence of `s[k]` in `w`. */
  lemma {:induction false} AlongIndex(w: Way, s: seq<Node>, k: nat)
    requires k < |s|
    ensures Along(w, s)[k] == Occurrence(w, s[k])
    decreases |s|
  {
    if k < |s| - 1 {
      AlongIndex(w, s[..|s| - 1], k);
    }
  }

  /** Every occurrence of every way, way by way and along each way: the order of the pass. */
  function Flatten(ways: seq<Way>, seqs: seq<seq<Node>>): seq<Occurrence>
    requires |ways| == |seqs|
    decreases |ways|
  {
    if ways == [] then []
    else Flatten(ways[..|ways| - 1], seqs[..|seqs| - 1]) + Along(ways[|ways| - 1], seqs[|seqs| - 1])
  }

  /** The occurrences of the first `i` ways, in pass order. */
  function FlattenUpTo(ways: seq<Way>, seqs: seq<seq<Node>>, i: nat): seq<Occurrence>
    requires |ways| == |seqs| && i <= |ways|
    decreases i
  {
    if i == 0 then [] else FlattenUpTo(ways, seqs, i - 1) + Along(ways[i - 1], seqs[i - 1])
  }

  /** Node id to the ways it was seen in (`nodeInWayMap`). */
  type Index = map<string, seq<Way>>

  function WaysOf(m: Index, id: string): seq<Way>
  {
    if id in m then m[id] else []
  }

  /** One step of the shared-node pass on the index: a first sighting starts a list, a repeat extends it. */
  function Record(m: Index, o: Occurrence): Index
  {
    m[o.node.id := WaysOf(m, o.node.id) + [o.way]]
  }

  /** The index after the pass has visited `occ`, starting from `m`. */
  function IndexAfter(m: Index, occ: seq<Occurrence>): Index
    decreases |occ|
  {
    if occ == [] then m
    else Record(IndexAfter(m, occ[..|occ| - 1]), occ[|occ| - 1])
  }

  /** The pass marks `n` shared: at some occurrence of `n` its id is already in the index. */
  predicate FlaggedBy(m: Index, occ: seq<Occurrence>, n: Node)
    decreases |occ|
  {
    occ != [] &&
    var pre, o := occ[..|occ| - 1], occ[|occ| - 1];
    FlaggedBy(m, pre, n) || (o.node == n && o.node.id in IndexAfter(m, pre))
  }

  function Repeat(x: string, count: nat): (r: seq<string>)
    ensures |r| == count && forall k :: 0 <= k < count ==> r[k] == x
  {
    seq(count, _ => x)
  }

  /**
   * What one sighting appends to way `v`'s shared-node list, given the index `m`
   * before it: on a repeat sighting, every way of the extended list that is
   * drivable gets the id once per time it appears in that list.
   */
  function SightingAdds(m: Index, drivable: set<Way>, o: Occurrence, v: Way): seq<string>
  {
    if o.node.id in m && v in drivable
    then Repeat(o.node.id, multiset(m[o.node.id] + [o.way])[v])
    else []
  }

  /** Everything the pass appends to way `v`'s shared-node list while visiting `occ`. */
  function SharedAdded(m: Index, drivable: set<Way>, occ: seq<Occurrence>, v: Way): seq<string>
    decreases |occ|
  {
    if occ == [] then []
    else
      var pre := occ[..|occ| - 1];
      SharedAdded(m, drivable, pre, v) + SightingAdds(IndexAfter(m, pre), drivable, occ[|occ| - 1], v)
  }

  /** How many occurrences carry node id `id`. */
  function IdCount(occ: seq<Occurrence>, id: string): nat
    decreases |occ|
  {
    if occ == [] then 0
    else IdCount(occ[..|occ| - 1], id) + (if occ[|occ| - 1].node.id == id then 1 else 0)
  }

  /** The way of each occurrence of node id `id`, in pass order. */
  function WaysWithId(occ: seq<Occurrence>, id: string): seq<Way>
    decreases |occ|
  {
    if occ == [] then []
    else WaysWithId(occ[..|occ| - 1], id) + (if occ[|occ| - 1].node.id == id then [occ[|occ| - 1].way] else [])
  }

  /** Way `w` holds a node with id `id`. */
  ghost predicate Holds(occ: seq<Occurrence>, w: Way, id: string)
  {
    exists p :: 0 <= p < |occ| && occ[p].way == w && occ[p].node.id == id
  }

  /** Every node object that carries `n`'s id at some occurrence is `n` itself. */
  ghost predicate IdNames(occ: seq<Occurrence>, n: Node)
  {
    forall p :: 0 <= p < |occ| && occ[p].node.id == n.id ==> occ[p].node == n
  }

  lemma FlattenStep(ways: seq<Way>, seqs: seq<seq<Node>>, i: nat)
    requires |ways| == |seqs| && i < |ways|
    ensures Flatten(ways[..i + 1], seqs[..i + 1]) == Flatten(ways[..i], seqs[..i]) + Along(ways[i], seqs[i])
  {
    assert ways[..i + 1][..i] == ways[..i];
    assert seqs[..i + 1][..i] == seqs[..i];
  }

  lemma AlongStep(w: Way, s: seq<Node>, j: nat)
    requires j < |s|
    ensures Along(w, s[..j + 1]) == Along(w, s[..j]) + [Occurrence(w, s[j])]
  {
    assert s[..j + 1][..j] == s[..j];
  }

  /**
   * The index after the pass: a node id is a key exactly when it was a key before or
   * occurs in some way (drivable or not), and its list is the old list followed by
   * one entry per occurrence, in pass order.
   */
  lemma {:induction false} IndexContents(m: Index, occ: seq<Occurrence>, id: string)
    ensures id in IndexAfter(m, occ) <==> id in m || IdCount(occ, id) > 0
    ensures WaysOf(IndexAfter(m, occ), id) == WaysOf(m, id) + WaysWithId(occ, id)
    decreases |occ|
  {
    if occ != [] {
      IndexContents(m, occ[..|occ| - 1], id);
    }
  }

  lemma {:induction false} WaysWithIdHolds(occ: seq<Occurrence>, w: Way, id: string)
    ensures w in WaysWithId(occ, id) <==> Holds(occ, w, id)
    decreases |occ|
  {
    if occ != [] {
      var pre := occ[..|occ| - 1];
      WaysWithIdHolds(pre, w, id);
      if Holds(pre, w, id) {
        var p :| 0 <= p < |pre| && pre[p].way == w && pre[p].node.id == id;
        assert occ[p] == pre[p];
      }
      if Holds(occ, w, id) {
        var p :| 0 <= p < |occ| && occ[p].way == w && occ[p].node.id == id;
        if p < |pre| {
          assert pre[p] == occ[p];
        }
      }
    }
  }

  lemma {:induction false} IdCountMatchesWays(occ: seq<Occurrence>, id: string)
    ensures IdCount(occ, id) == |WaysWithId(occ, id)|
    decreases |occ|
  {
    if occ != [] {
      IdCountMatchesWays(occ[..|occ| - 1], id);
    }
  }

  /**
   * Starting from an empty index, a node is marked shared exactly when its id
   * occurs at least twice over all node sequences, a repeat inside one way
   * (a closed way) included. This needs ids to name nodes: no other node object
   * carries `n`'s id.
   */
  lemma {:induction false} SharedIffRepeated(occ: seq<Occurrence>, n: Node)
    requires IdNames(occ, n)
    ensures FlaggedBy(map[], occ, n) <==> IdCount(occ, n.id) >= 2
    decreases |occ|
  {
    if occ != [] {
      var pre, o := occ[..|occ| - 1], occ[|occ| - 1];
      assert IdNames(pre, n) by {
        forall p | 0 <= p < |pre| && pre[p].node.id == n.id ensures pre[p].node == n {
          assert occ[p] == pre[p];
        }
      }
      SharedIffRepeated(pre, n);
      IndexContents(map[], pre, o.node.id);
      if o.node.id == n.id {
        assert o.node == n;
      }
    }
  }

  /** Only drivable ways ever receive shared-node ids. */
  lemma {:induction false} SharedOnlyDrivable(m: Index, drivable: set<Way>, occ: seq<Occurrence>, v: Way)
    requires v !in drivable
    ensures SharedAdded(m, drivable, occ, v) == []
    decreases |occ|
  {
    if occ != [] {
      SharedOnlyDrivable(m, drivable, occ[..|occ| - 1], v);
    }
  }

  /** Starting from an empty index, every id added to a way's shared list names a node of that way. */
  lemma {:induction false} SharedIdsAreOwn(drivable: set<Way>, occ: seq<Occurrence>, v: Way, x: string)
    requires x in SharedAdded(map[], drivable, occ, v)
    ensures v in WaysWithId(occ, x)
    decreases |occ|
  {
    var pre, o := occ[..|occ| - 1], occ[|occ| - 1];
    var m := IndexAfter(map[], pre);
    assert WaysWithId(occ, x) == WaysWithId(pre, x) + (if o.node.id == x then [o.way] else []);
    if x in SharedAdded(map[], drivable, pre, v) {
      SharedIdsAreOwn(drivable, pre, v, x);
    } else {
      SightingAddsOwn(m, drivable, o, v, x);
      IndexContents(map[], pre, x);
    }
  }

  /** A sighting only ever adds its own node's id, and only to ways of the extended list. */
  lemma SightingAddsOwn(m: Index, drivable: set<Way>, o: Occurrence, v: Way, x: string)
    requires x in SightingAdds(m, drivable, o, v)
    ensures x == o.node.id && x in m && v in m[x] + [o.way]
  {
    var count := multiset(m[o.node.id] + [o.way])[v];
    assert count > 0;
  }

  /**
   * A second run of the pass over an index that already holds every id (what a
   * second `finalizeData` does) marks every node that occurs in a way as shared.
   */
  lemma {:induction false} RerunFlagsEveryNode(m: Index, occ: seq<Occurrence>, p: nat)
    requires p < |occ|
    requires forall q :: 0 <= q < |occ| ==> occ[q].node.id in m
    ensures FlaggedBy(m, occ, occ[p].node)
    decreases |occ|
  {
    var pre := occ[..|occ| - 1];
    if p == |occ| - 1 {
      IndexContents(m, pre, occ[p].node.id);
    } else {
      assert forall q :: 0 <= q < |pre| ==> pre[q] == occ[q];
      RerunFlagsEveryNode(m, pre, p);
      assert occ[p] == pre[p];
    }
  }

  /**
   * A run over an index that already holds every id appends each node's id to the
   * shared list of every drivable way that holds the node.
   */
  lemma {:induction false} RerunSharesEveryId(m: Index, drivable: set<Way>, occ: seq<Occurrence>, p: nat)
    requires p < |occ| && occ[p].way in drivable
    requires forall q :: 0 <= q < |occ| ==> occ[q].node.id in m
    ensures occ[p].node.id in SharedAdded(m, drivable, occ, occ[p].way)
    decreases |occ|
  {
    var pre := occ[..|occ| - 1];
    var v := occ[p].way;
    if p == |occ| - 1 {
      var o := occ[p];
      IndexContents(m, pre, o.node.id);
      var m' := IndexAfter(m, pre);
      assert multiset(m'[o.node.id] + [o.way])[v] > 0 by {
        assert v in m'[o.node.id] + [o.way];
      }
      assert SightingAdds(m', drivable, o, v)[0] == o.node.id;
    } else {
      assert forall q :: 0 <= q < |pre| ==> pre[q] == occ[q];
      RerunSharesEveryId(m, drivable, pre, p);
      assert occ[p] == pre[p];
    }
  }

  /** A second run appends every way list to itself: the index entries are duplicated. */
  lemma RerunDuplicatesEntries(occ: seq<Occurrence>, id: string)
    ensures WaysOf(IndexAfter(IndexAfter(map[], occ), occ), id) == WaysWithId(occ, id) + WaysWithId(occ, id)
  {
    IndexContents(map[], occ, id);
    IndexContents(IndexAfter(map[], occ), occ, id);
  }

  /** The first pass already covers every id, so a rerun starts from an index holding them all. */
  lemma FirstPassCoversIds(occ: seq<Occurrence>, q: nat)
    requires q < |occ|
    ensures occ[q].node.id in IndexAfter(map[], occ)
  {
    IndexContents(map[], occ, occ[q].node.id);
    WaysWithIdHolds(occ, occ[q].way, occ[q].node.id);
    IdCountMatchesWays(occ, occ[q].node.id);
  }

  /** A way found in the index under two ids holds a node with each id. */
  lemma IndexedWayHoldsBoth(occ: seq<Occurrence>, id1: string, id2: string, w: Way)
    requires w in WaysOf(IndexAfter(map[], occ), id1) && w in WaysOf(IndexAfter(map[], occ), id2)
    ensures Holds(occ, w, id1) && Holds(occ, w, id2)
  {
    IndexContents(map[], occ, id1);
    IndexContents(map[], occ, id2);
    WaysWithIdHolds(occ, w, id1);
    WaysWithIdHolds(occ, w, id2);
  }

  /** An occurrence of the flattened list is a node of one of the ways' sequences. */
  lemma {:induction false} FlattenHolds(ways: seq<Way>, seqs: seq<seq<Node>>, p: nat)
    requires |ways| == |seqs| && p < |Flatten(ways, seqs)|
    ensures exists i :: 0 <= i < |ways| && ways[i] == Flatten(ways, seqs)[p].way && Flatten(ways, seqs)[p].node in seqs[i]
    decreases |ways|
  {
    var k := |ways| - 1;
    var pre := Flatten(ways[..k], seqs[..k]);
    if p < |pre| {
      FlattenHolds(ways[..k], seqs[..k], p);
      var i :| 0 <= i < k && ways[..k][i] == pre[p].way && pre[p].node in seqs[..k][i];
      assert ways[i] == ways[..k][i] && seqs[i] == seqs[..k][i];
    } else {
      AlongIndex(ways[k], seqs[k], p - |pre|);
      assert Flatten(ways, seqs)[p] == Occurrence(ways[k], seqs[k][p - |pre|]);
    }
  }

  /** A link between two consecutive nodes of one way. */
  datatype Link = Link(prev: Node, next: Node)

  /** The consecutive pairs of `s`, in order; a way of fewer than two nodes has none. */
  function LinksAlong(s: seq<Node>): (r: seq<Link>)
    ensures |r| == if |s| < 2 then 0 else |s| - 1
    ensures forall j :: 0 <= j < |r| ==> r[j] == Link(s[j], s[j + 1])
  {
    if |s| < 2 then [] else seq(|s| - 1, j requires 0 <= j < |s| - 1 => Link(s[j], s[j + 1]))
  }

  /** The links of every way, way by way. */
  function AllLinks(seqs: seq<seq<Node>>): seq<Link>
    decreases |seqs|
  {
    if seqs == [] then [] else AllLinks(seqs[..|seqs| - 1]) + LinksAlong(seqs[|seqs| - 1])
  }

  /** What one link appends to `n`'s neighbours: the later node adds the earlier, then the earlier adds the later. */
  function LinkAdds(l: Link, n: Node): seq<Node>
  {
    (if l.next == n then [l.prev] else []) + (if l.prev == n then [l.next] else [])
  }

  /** Everything the neighbour pass appends to `n`'s neighbour list while visiting `links`. */
  function NeighborsAdded(links: seq<Link>, n: Node): seq<Node>
    decreases |links|
  {
    if links == [] then [] else NeighborsAdded(links[..|links| - 1], n) + LinkAdds(links[|links| - 1], n)
  }

  lemma AllLinksStep(seqs: seq<seq<Node>>, i: nat)
    requires i < |seqs|
    ensures AllLinks(seqs[..i + 1]) == AllLinks(seqs[..i]) + LinksAlong(seqs[i])
  {
    assert seqs[..i + 1][..i] == seqs[..i];
  }

  lemma LinksAlongStep(s: seq<Node>, j: nat)
    requires 1 <= j < |s|
    ensures LinksAlong(s[..j + 1]) == LinksAlong(s[..j]) + [Link(s[j - 1], s[j])]
  {
  }

  lemma LinkAddsSymmetric(l: Link, a: Node, b: Node)
    ensures multiset(LinkAdds(l, a))[b] == multiset(LinkAdds(l, b))[a]
  {
    if l.prev == l.next {
    } else if l.next == a && l.prev == b {
    } else if l.prev == a && l.next == b {
    }
  }

  /** Neighbour adjacency is symmetric with equal multiplicities: `b` is listed for `a` as often as `a` for `b`. */
  lemma {:induction false} NeighborSymmetry(links: seq<Link>, a: Node, b: Node)
    ensures multiset(NeighborsAdded(links, a))[b] == multiset(NeighborsAdded(links, b))[a]
    decreases |links|
  {
    if links != [] {
      var pre, l := links[..|links| - 1], links[|links| - 1];
      NeighborSymmetry(pre, a, b);
      LinkAddsSymmetric(l, a, b);
      assert NeighborsAdded(links, a) == NeighborsAdded(pre, a) + LinkAdds(l, a);
      assert NeighborsAdded(links, b) == NeighborsAdded(pre, b) + LinkAdds(l, b);
    }
  }

  /** A neighbour is only ever added across a link, in one direction or the other. */
  lemma {:induction false} NeighborsAreLinked(links: seq<Link>, a: Node, b: Node)
    requires b in NeighborsAdded(links, a)
    ensures Link(a, b) in links || Link(b, a) in links
    decreases |links|
  {
    var pre := links[..|links| - 1];
    if b in NeighborsAdded(pre, a) {
      NeighborsAreLinked(pre, a, b);
      assert forall l :: l in pre ==> l in links;
    } else {
      assert links[|links| - 1] in links;
    }
  }

  /** Visiting `a` then `b` leaves the index that visiting `a + b` does. */
  lemma {:induction false} IndexAfterAppend(m: Index, a: seq<Occurrence>, b: seq<Occurrence>)
    ensures IndexAfter(m, a + b) == IndexAfter(IndexAfter(m, a), b)
    decreases |b|
  {
    if b != [] {
      var b' := b[..|b| - 1];
      assert (a + b)[..|a + b| - 1] == a + b';
      IndexAfterAppend(m, a, b');
    } else {
      assert a + b == a;
    }
  }

  /** A node is flagged over `a + b` when it is flagged over `a`, or over `b` from the index `a` leaves. */
  lemma {:induction false} FlaggedByAppend(m: Index, a: seq<Occurrence>, b: seq<Occurrence>, n: Node)
    ensures FlaggedBy(m, a + b, n) <==> FlaggedBy(m, a, n) || FlaggedBy(IndexAfter(m, a), b, n)
    decreases |b|
  {
    if b != [] {
      var b' := b[..|b| - 1];
      assert (a + b)[..|a + b| - 1] == a + b';
      FlaggedByAppend(m, a, b', n);
      IndexAfterAppend(m, a, b');
    } else {
      assert a + b == a;
    }
  }

  /** What `a + b` appends to a way is what `a` appends followed by what `b` appends from the index `a` leaves. */
  lemma {:induction false} SharedAddedAppend(m: Index, drivable: set<Way>, a: seq<Occurrence>, b: seq<Occurrence>, v: Way)
    ensures SharedAdded(m, drivable, a + b, v) == SharedAdded(m, drivable, a, v) + SharedAdded(IndexAfter(m, a), drivable, b, v)
    decreases |b|
  {
    if b != [] {
      var b' := b[..|b| - 1];
      assert (a + b)[..|a + b| - 1] == a + b';
      SharedAddedAppend(m, drivable, a, b', v);
      IndexAfterAppend(m, a, b');
    } else {
      assert a + b == a;
    }
  }

  /** What `a + b` appends to a node's neighbours is what `a` appends followed by what `b` appends. */
  lemma {:induction false} NeighborsAddedAppend(a: seq<Link>, b: seq<Link>, n: Node)
    ensures NeighborsAdded(a + b, n) == NeighborsAdded(a, n) + NeighborsAdded(b, n)
    decreases |b|
  {
    if b != [] {
      var b' := b[..|b| - 1];
      assert (a + b)[..|a + b| - 1] == a + b';
      NeighborsAddedAppend(a, b', n);
    } else {
      assert a + b == a;
    }
  }

  lemma SeqAssoc<T>(a: seq<T>, b: seq<T>, c: seq<T>)
    ensures (a + b) + c == a + (b + c)
  {
  }

  /** One more link appends `LinkAdds` to every node's neighbours. */
  lemma NeighborsAddedSnoc(links: seq<Link>, l: Link)
    ensures forall n :: NeighborsAdded(links + [l], n) == NeighborsAdded(links, n) + LinkAdds(l, n)
  {
    assert (links + [l])[..|links|] == links;
  }

  /** One more node along a way adds one link, and with it `LinkAdds` to every node's neighbours. */
  lemma NeighborsAlongStep(s: seq<Node>, j: nat)
    requires 1 <= j < |s|
    ensures forall n :: NeighborsAdded(LinksAlong(s[..j + 1]), n)
                        == NeighborsAdded(LinksAlong(s[..j]), n) + LinkAdds(Link(s[j - 1], s[j]), n)
  {
    LinksAlongStep(s, j);
    var links := LinksAlong(s[..j]);
    var links' := links + [Link(s[j - 1], s[j])];
    assert links'[..|links'| - 1] == links;
  }

  /** Flattening way by way up to `i` is flattening the first `i` ways. */
  lemma {:induction false} FlattenUpToPrefix(ways: seq<Way>, seqs: seq<seq<Node>>, i: nat)
    requires |ways| == |seqs| && i <= |ways|
    ensures FlattenUpTo(ways, seqs, i) == Flatten(ways[..i], seqs[..i])
    decreases i
  {
    if i > 0 {
      FlattenUpToPrefix(ways, seqs, i - 1);
      FlattenStep(ways, seqs, i - 1);
    }
  }
}
