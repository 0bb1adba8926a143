/**
 * The map data (`MapData.java`): the three registries, the bounds of the map and
 * the node-to-ways index published by `finalizeData`.
 */
module MapModel {
  import opened Wrappers
  import opened Nodes
  import opened Ways
  import opened Relations
  import Strings
  import opened GraphBuild
  import opened NodeRegistry
  import opened WayRegistry
  import opened RelationRegistry

  /** `bound` keys in the order `addBoundBox` stores the fields of the `box` value. */
  const BoxKeys: seq<string> := ["minlat", "minlon", "maxlat", "maxlon"]

  /** The bounds after putting each attribute pair in turn, as `HashMap.put` does. */
  function PutAll(m: map<string, string>, atts: seq<(string, string)>): map<string, string>
    decreases |atts|
  {
    if atts == [] then m
    else PutAll(m, atts[..|atts| - 1])[atts[|atts| - 1].0 := atts[|atts| - 1].1]
  }

  /** The last pair with a given key decides its value: last write wins. */
  lemma {:induction false} PutAllLastWins(m: map<string, string>, atts: seq<(string, string)>, i: nat)
    requires i < |atts|
    requires forall j :: i < j < |atts| ==> atts[j].0 != atts[i].0
    ensures atts[i].0 in PutAll(m, atts) && PutAll(m, atts)[atts[i].0] == atts[i].1
    decreases |atts|
  {
    if i < |atts| - 1 {
      var pre := atts[..|atts| - 1];
      assert forall j :: i < j < |pre| ==> pre[j] == atts[j];
      PutAllLastWins(m, pre, i);
      assert pre[i] == atts[i];
    }
  }

  /** A key no pair names keeps what it had (or stays absent). */
  lemma {:induction false} PutAllUntouched(m: map<string, string>, atts: seq<(string, string)>, k: string)
    requires forall j :: 0 <= j < |atts| ==> atts[j].0 != k
    ensures k in PutAll(m, atts) <==> k in m
    ensures k in m ==> PutAll(m, atts)[k] == m[k]
    decreases |atts|
  {
    if atts != [] {
      var pre := atts[..|atts| - 1];
      assert forall j :: 0 <= j < |pre| ==> pre[j] == atts[j];
      PutAllUntouched(m, pre, k);
    }
  }

  /** The keys after the puts: the old keys and every key named by a pair. */
  lemma {:induction false} PutAllKeys(m: map<string, string>, atts: seq<(string, string)>)
    ensures PutAll(m, atts).Keys == m.Keys + set j | 0 <= j < |atts| :: atts[j].0
    decreases |atts|
  {
    if atts != [] {
      var pre := atts[..|atts| - 1];
      PutAllKeys(m, pre);
      assert forall j :: 0 <= j < |pre| ==> pre[j] == atts[j];
      assert (set j | 0 <= j < |atts| :: atts[j].0) == (set j | 0 <= j < |pre| :: pre[j].0) + {atts[|atts| - 1].0};
    }
  }

  /** The first `n` fields of a split `box` value, paired with their bound keys. */
  function BoxPairs(fields: seq<string>, n: nat): (r: seq<(string, string)>)
    requires n <= 4 && n <= |fields|
    ensures |r| == n && forall k :: 0 <= k < n ==> r[k] == (BoxKeys[k], fields[k])
  {
    seq(n, k requires 0 <= k < n => (BoxKeys[k], fields[k]))
  }

  /** How many fields `addBoundBox` stores before it stops: at most four. */
  function Stored(fields: seq<string>): (n: nat)
    ensures n <= 4 && n <= |fields|
    ensures n == 4 || n == |fields|
  {
    if |fields| < 4 then |fields| else 4
  }

  /**
   * A `box` value written as four comma-free fields joined by commas, the last
   * one non-empty, is stored field by field under minlat, minlon, maxlat, maxlon.
   */
  lemma BoxRoundTrip(m: map<string, string>, minlat: string, minlon: string, maxlat: string, maxlon: string)
    requires ',' !in minlat && ',' !in minlon && ',' !in maxlat && ',' !in maxlon && maxlon != ""
    ensures var fields := Strings.JavaSplit(Strings.Join([minlat, minlon, maxlat, maxlon], ','), ',');
            Stored(fields) == 4 &&
            var b := PutAll(m, BoxPairs(fields, 4));
            && "minlat" in b && b["minlat"] == minlat && "minlon" in b && b["minlon"] == minlon
            && "maxlat" in b && b["maxlat"] == maxlat && "maxlon" in b && b["maxlon"] == maxlon
  {
    var four := [minlat, minlon, maxlat, maxlon];
    Strings.SplitJoin(four, ',');
    var atts := BoxPairs(four, 4);
    PutAllLastWins(m, atts, 0);
    PutAllLastWins(m, atts, 1);
    PutAllLastWins(m, atts, 2);
    PutAllLastWins(m, atts, 3);
  }

  /** The first way of `a` that also appears in `b`, compared by reference; `None` when they share none. */
  function FirstCommon(a: seq<Way>, b: seq<Way>): (r: Option<Way>)
    ensures r.None? <==> forall i :: 0 <= i < |a| ==> a[i] !in b
    ensures r.Some? ==> exists i :: 0 <= i < |a| && a[i] == r.value && r.value in b &&
                                    forall j :: 0 <= j < i ==> a[j] !in b
    decreases |a|
  {
    if a == [] then None
    else if a[0] in b then Some(a[0])
    else
      var r := FirstCommon(a[1..], b);
      assert forall i :: 1 <= i < |a| ==> a[i] == a[1..][i - 1];
      if r.Some? then
        var i :| 0 <= i < |a[1..]| && a[1..][i] == r.value && r.value in b && forall j :: 0 <= j < i ==> a[1..][j] !in b;
        assert a[i + 1] == r.value;
        r
      else r
  }

  /** The first common way is determined by the earliest index of `a` that `b` holds. */
  lemma FirstCommonAt(a: seq<Way>, b: seq<Way>, i: nat)
    requires i < |a| && a[i] in b && forall j :: 0 <= j < i ==> a[j] !in b
    ensures FirstCommon(a, b) == Some(a[i])
  {
    var r := FirstCommon(a, b);
    var k :| 0 <= k < |a| && a[k] == r.value && r.value in b && forall j :: 0 <= j < k ==> a[j] !in b;
    assert k == i;
  }

  /**
   * Over an index built by the shared-node pass from an empty index (what
   * `finalizeData` publishes), a way `connectedBy` finds holds a node with each id.
   */
  lemma ConnectedWayHoldsBoth(occ: seq<Occurrence>, id1: string, id2: string, w: Way)
    requires FirstCommon(WaysOf(IndexAfter(map[], occ), id1), WaysOf(IndexAfter(map[], occ), id2)) == Some(w)
    ensures Holds(occ, w, id1) && Holds(occ, w, id2)
  {
    IndexedWayHoldsBoth(occ, id1, id2, w);
  }

  /**
   * A second `finalizeData` reruns the shared-node pass over the index the first
   * left behind, which already holds every id: every node that occurs in a way is
   * then marked shared.
   */
  lemma SecondRunFlagsEveryNode(occ: seq<Occurrence>, p: nat)
    requires p < |occ|
    ensures FlaggedBy(IndexAfter(map[], occ), occ, occ[p].node)
  {
    var m := IndexAfter(map[], occ);
    forall q | 0 <= q < |occ| ensures occ[q].node.id in m {
      FirstPassCoversIds(occ, q);
    }
    RerunFlagsEveryNode(m, occ, p);
  }

  /** Two `finalizeData` runs, taken together as one pass over the occurrences twice, flag every node in a way. */
  lemma BothRunsFlagEveryNode(occ: seq<Occurrence>, p: nat)
    requires p < |occ|
    ensures FlaggedBy(map[], occ + occ, occ[p].node)
  {
    SecondRunFlagsEveryNode(occ, p);
    FlaggedByAppend(map[], occ, occ, occ[p].node);
  }

  /**
   * Over two `finalizeData` runs, taken together as one pass over the occurrences
   * twice, every node of a drivable way has its id in that way's shared-node list.
   */
  lemma SecondRunSharesEveryId(drivable: set<Way>, occ: seq<Occurrence>, p: nat)
    requires p < |occ| && occ[p].way in drivable
    ensures occ[p].node.id in SharedAdded(IndexAfter(map[], occ), drivable, occ, occ[p].way)
    ensures occ[p].node.id in SharedAdded(map[], drivable, occ + occ, occ[p].way)
  {
    var m := IndexAfter(map[], occ);
    forall q | 0 <= q < |occ| ensures occ[q].node.id in m {
      FirstPassCoversIds(occ, q);
    }
    RerunSharesEveryId(m, drivable, occ, p);
    SharedAddedAppend(map[], drivable, occ, occ, occ[p].way);
  }

  /** The rerun also appends every index entry to itself: each way is listed twice. */
  lemma SecondRunDuplicatesEntries(occ: seq<Occurrence>, id: string)
    ensures WaysOf(IndexAfter(IndexAfter(map[], occ), occ), id) == WaysOf(IndexAfter(map[], occ), id) + WaysOf(IndexAfter(map[], occ), id)
  {
    RerunDuplicatesEntries(occ, id);
    IndexContents(map[], occ, id);
    assert WaysOf(map[], id) + WaysWithId(occ, id) == WaysWithId(occ, id);
  }

  class MapData {
    const nodeManager: NodeManager
    const wayManager: WayManager
    const relationManager: RelationManager
    /** Bound name to value, e.g. "minlon" to the least longitude. */
    var boundRange: map<string, string>
    /** The node-id-to-ways index of the way registry, `None` (Java `null`) until `FinalizeData`. */
    var nodeInWayMap: Option<Index>

    ghost predicate Valid()
      reads nodeManager`nodeMap, nodeManager`nodes, wayManager
      reads relationManager`relationMap, relationManager`relationNameMap, relationManager`registered
    {
      nodeManager.Valid() && wayManager.Valid() && relationManager.Valid()
    }

    constructor ()
      ensures Valid() && fresh(nodeManager) && fresh(wayManager) && fresh(relationManager)
      ensures nodeManager.nodeMap == map[] && nodeManager.nameMap == map[]
      ensures wayManager.allWays == [] && wayManager.idWayMap == map[] && wayManager.nodeInWayMap == map[]
      ensures relationManager.registered == {}
      ensures boundRange == map[] && nodeInWayMap == None
    {
      nodeManager := new NodeManager();
      wayManager := new WayManager();
      relationManager := new RelationManager();
      boundRange := map[];
      nodeInWayMap := None;
    }

    /** Creates a node through the node registry and returns it. */
    method NewNode(id: string, lon: real, lat: real) returns (n: Node)
      requires Valid()
      modifies nodeManager`nodeMap, nodeManager`nodes
      ensures Valid() && fresh(n) && n.id == id && n.longitude == lon && n.latitude == lat
      ensures nodeManager.nodeMap == old(nodeManager.nodeMap)[id := n]
      ensures nodeManager.GetNode(id) == Some(n)
    {
      n := nodeManager.NewNode(id, lon, lat);
    }

    /** Creates a way through the way registry and returns it. */
    method NewWay(id: string) returns (w: Way)
      requires Valid()
      modifies wayManager`idWayMap, wayManager`allWays
      ensures Valid() && fresh(w) && w.id == id && w.nodeSeq == []
      ensures wayManager.allWays == old(wayManager.allWays) + [w]
      ensures wayManager.GetWay(id) == Some(w)
    {
      w := wayManager.NewWay(id);
    }

    /** Creates a relation through the relation registry and returns it. */
    method NewRelation(id: string) returns (r: Relation)
      requires Valid()
      modifies relationManager`relationMap, relationManager`registered
      ensures Valid() && fresh(r) && r.id == id && r.members == []
      ensures relationManager.registered == old(relationManager.registered) + {id}
      ensures relationManager.GetRelation(id) == Some(r)
    {
      r := relationManager.NewRelation(id);
    }

    /** `addBounds`: puts every attribute's name and value into the bounds, in attribute order. */
    method AddBounds(atts: seq<(string, string)>)
      modifies this`boundRange
      ensures boundRange == PutAll(old(boundRange), atts)
    {
      var i := 0;
      while i < |atts|
        invariant 0 <= i <= |atts|
        invariant boundRange == PutAll(old(boundRange), atts[..i])
      {
        var bound := atts[i].0;
        var boundValue := atts[i].1;
        assert atts[..i + 1][..i] == atts[..i];
        boundRange := boundRange[bound := boundValue];
        i := i + 1;
      }
      assert atts[..i] == atts;
    }

    /**
     * `addBoundBox`: splits the `box` value on commas and stores fields 0 to 3
     * under minlat, minlon, maxlat, maxlon, in that order. A missing `box` value
     * raises a null-pointer fault before anything is stored; fewer than four
     * fields raise an index fault once the fields that exist are stored.
     */
    method AddBoundBox(box: Option<string>) returns (thrown: Option<Fault>)
      modifies this`boundRange
      ensures box.None? ==> thrown == Some(NullPointer) && boundRange == old(boundRange)
      ensures box.Some? ==>
                var fields := Strings.JavaSplit(box.value, ',');
                && boundRange == PutAll(old(boundRange), BoxPairs(fields, Stored(fields)))
                && thrown == (if |fields| < 4 then Some(IndexOutOfBounds) else None)
    {
      if box.None? {
        return Some(NullPointer);
      }
      var bounds := Strings.JavaSplit(box.value, ',');
      assert BoxPairs(bounds, 0) == [];
      assert boundRange == PutAll(old(boundRange), BoxPairs(bounds, 0));
      if |bounds| < 1 {
        return Some(IndexOutOfBounds);
      }
      boundRange := boundRange[BoxKeys[0] := bounds[0]];
      assert BoxPairs(bounds, 1)[..0] == BoxPairs(bounds, 0);
      assert boundRange == PutAll(old(boundRange), BoxPairs(bounds, 1));
      if |bounds| < 2 {
        return Some(IndexOutOfBounds);
      }
      boundRange := boundRange[BoxKeys[1] := bounds[1]];
      assert BoxPairs(bounds, 2)[..1] == BoxPairs(bounds, 1);
      assert boundRange == PutAll(old(boundRange), BoxPairs(bounds, 2));
      if |bounds| < 3 {
        return Some(IndexOutOfBounds);
      }
      boundRange := boundRange[BoxKeys[2] := bounds[2]];
      assert BoxPairs(bounds, 3)[..2] == BoxPairs(bounds, 2);
      assert boundRange == PutAll(old(boundRange), BoxPairs(bounds, 3));
      if |bounds| < 4 {
        return Some(IndexOutOfBounds);
      }
      boundRange := boundRange[BoxKeys[3] := bounds[3]];
      assert BoxPairs(bounds, 4)[..3] == BoxPairs(bounds, 3);
      thrown := None;
    }

    /**
     * `connectedBy`: the first way in `n1`'s index list that also appears, by
     * reference, in `n2`'s list, or `None`. Before `FinalizeData` there is no
     * index and the call faults; so it does when `n1`'s id is not indexed, or
     * when `n2`'s id is not indexed and `n1`'s list is not empty.
     */
    method ConnectedBy(n1: Node, n2: Node) returns (r: Result<Option<Way>>)
      ensures nodeInWayMap.None? ==> r == Failure(NullPointer)
      ensures nodeInWayMap.Some? && n1.id !in nodeInWayMap.value ==> r == Failure(NullPointer)
      ensures nodeInWayMap.Some? && n1.id in nodeInWayMap.value && nodeInWayMap.value[n1.id] == [] ==> r == Success(None)
      ensures nodeInWayMap.Some? && n1.id in nodeInWayMap.value && nodeInWayMap.value[n1.id] != [] && n2.id !in nodeInWayMap.value ==>
                r == Failure(NullPointer)
      ensures nodeInWayMap.Some? && n1.id in nodeInWayMap.value && n2.id in nodeInWayMap.value ==>
                r == Success(FirstCommon(nodeInWayMap.value[n1.id], nodeInWayMap.value[n2.id]))
    {
      if nodeInWayMap.None? {
        return Failure(NullPointer);
      }
      var index := nodeInWayMap.value;
      var id1 := n1.id;
      var id2 := n2.id;
      if id1 !in index {
        return Failure(NullPointer);
      }
      var ways1 := index[id1];
      var i := 0;
      while i < |ways1|
        invariant 0 <= i <= |ways1|
        invariant id2 in index ==> forall k :: 0 <= k < i ==> ways1[k] !in index[id2]
        invariant id2 !in index ==> i == 0
      {
        if id2 !in index {
          return Failure(NullPointer);
        }
        var ways2 := index[id2];
        var j := 0;
        while j < |ways2|
          invariant 0 <= j <= |ways2|
          invariant forall k :: 0 <= k < j ==> ways2[k] != ways1[i]
        {
          if ways1[i] == ways2[j] {
            FirstCommonAt(ways1, ways2, i);
            return Success(Some(ways1[i]));
          }
          j := j + 1;
        }
        i := i + 1;
      }
      return Success(None);
    }

    /**
     * `finalizeData`: names the nodes, runs the shared-node pass, publishes the
     * way registry's index, then links neighbours. What is published is the index
     * the shared-node pass leaves behind, and the later neighbour step does not
     * change it. Names, flags, lists and neighbours are stated by the three steps.
     */
    method FinalizeData()
      requires Valid()
      modifies this`nodeInWayMap, nodeManager`nameMap, nodeManager.nodes`name
      modifies wayManager`nodeInWayMap, wayManager.WaySet()`driveable, wayManager.WaySet()`sharedNodes
      modifies wayManager.NodeSet()`isShared, wayManager.NodeSet()`neighbors
      ensures Valid()
      ensures wayManager.nodeInWayMap == IndexAfter(old(wayManager.nodeInWayMap), old(wayManager.Occurrences()))
      ensures nodeInWayMap == Some(wayManager.nodeInWayMap)
    {
      NameNodes();
      ShareNodes();
      nodeInWayMap := Some(wayManager.GetNodeInWayMap());
      LinkNodes();
    }

    /** The naming step of `finalizeData`, through the node registry; it touches only the names. */
    method NameNodes()
      requires Valid()
      modifies nodeManager`nameMap, nodeManager.nodes`name
      ensures Valid()
    {
      nodeManager.GenImportantNodes();
    }

    /** The shared-node step of `finalizeData`, through the way registry: its effect on the index. */
    method ShareNodes()
      requires Valid()
      modifies wayManager`nodeInWayMap, wayManager.WaySet()`driveable, wayManager.WaySet()`sharedNodes
      modifies wayManager.NodeSet()`isShared
      ensures Valid()
      ensures wayManager.nodeInWayMap == IndexAfter(old(wayManager.nodeInWayMap), old(wayManager.Occurrences()))
      ensures wayManager.NodeSet() == old(wayManager.NodeSet())
    {
      wayManager.ComputeSharedNodes();
    }

    /** The neighbour step of `finalizeData`, through the way registry. */
    method LinkNodes()
      modifies wayManager.NodeSet()`neighbors
    {
      wayManager.SetNeighboringNodes();
    }
  }
}
