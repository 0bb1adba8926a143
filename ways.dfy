/** Ways (`Way.java`): ordered polylines of nodes, with lazily cached length. */
module Ways {
  import opened Wrappers
  import Tags
  import opened Nodes

  /** Sum of the distances between consecutive nodes of `s`. */
  function PathLength(s: seq<Node>, metric: Metric): (r: real)
    ensures r >= 0.0
    ensures |s| < 2 ==> r == 0.0
    decreases |s|
  {
    if |s| < 2 then 0.0
    else PathLength(s[..|s| - 1], metric) + s[|s| - 2].DistFrom(s[|s| - 1], metric)
  }

  /** The way-level total: the summed distances scaled by 69 miles per degree. */
  function WayLength(s: seq<Node>, metric: Metric): (r: real)
    ensures r >= 0.0
  {
    PathLength(s, metric) * 69.0
  }

  class Way {
    const id: string
    /** The way's tags (Java: the inherited `Element` state). */
    const element: Tags.Element
    var nodeSeq: seq<Node>
    /** Segment counter; 0 means "not computed yet". */
    var segments: int
    /** Cached total distance; -1 means "not computed yet". */
    var distance: real
    /** Starts true and is cleared for good by the first query that finds no `highway` tag. */
    var driveable: bool
    /** Ids of the nodes this way shares with other ways, one entry per sighting. */
    var sharedNodes: seq<string>

    constructor (id: string)
      ensures this.id == id && fresh(element) && element.tagMap == map[]
      ensures nodeSeq == [] && segments == 0 && distance == -1.0
      ensures driveable && sharedNodes == []
    {
      this.id := id;
      element := new Tags.Element();
      nodeSeq := [];
      segments := 0;
      distance := -1.0;
      driveable := true;
      sharedNodes := [];
    }

    /**
     * `computeDistance`: adds one to the segment counter per consecutive pair and
     * stores the way length. Reading the first node of an empty way throws, before
     * anything is changed; `ok` is false then.
     */
    method ComputeDistance(metric: Metric) returns (ok: bool)
      modifies this`segments, this`distance
      ensures ok == (|nodeSeq| > 0)
      ensures ok ==> segments == old(segments) + |nodeSeq| - 1
      ensures ok ==> distance == WayLength(nodeSeq, metric)
      ensures !ok ==> segments == old(segments) && distance == old(distance)
    {
      if |nodeSeq| == 0 {
        return false;
      }
      var n0 := nodeSeq[0];
      var accumDist := 0.0;
      for i := 1 to |nodeSeq|
        invariant segments == old(segments) + i - 1
        invariant n0 == nodeSeq[i - 1]
        invariant accumDist == PathLength(nodeSeq[..i], metric)
      {
        segments := segments + 1;
        var n1 := nodeSeq[i];
        var dist := n0.DistFrom(n1, metric);
        assert nodeSeq[..i + 1][..i] == nodeSeq[..i];
        accumDist := accumDist + dist;
        n0 := n1;
      }
      assert nodeSeq[..|nodeSeq|] == nodeSeq;
      distance := accumDist * 69.0;
      return true;
    }

    /** Appends `n` at the end of the node sequence. */
    method AddNode(n: Node)
      modifies this`nodeSeq
      ensures nodeSeq == old(nodeSeq) + [n]
      ensures ContainsNode(n)
    {
      nodeSeq := nodeSeq + [n];
    }

    /** The `name` tag, `None` when the way is unnamed. */
    function GetName(): (r: Option<string>)
      reads element
      ensures r == Tags.Lookup(element.tagMap, "name")
    {
      element.GetTag("name")
    }

    /**
     * `getSegmentsNum`: the first call (counter still 0) adds one and then runs
     * `computeDistance`; later calls return the cached counter. On a way that
     * nothing was computed for, that is one more than the number of pairs, i.e.
     * the number of nodes. On an empty way the counter is raised and the call
     * then throws.
     */
    method GetSegmentsNum(metric: Metric) returns (r: Result<int>)
      modifies this`segments, this`distance
      ensures old(segments) != 0 ==> r == Success(old(segments)) && segments == old(segments) && distance == old(distance)
      ensures old(segments) == 0 && |nodeSeq| == 0 ==> r == Failure(IndexOutOfBounds) && segments == 1 && distance == old(distance)
      ensures old(segments) == 0 && |nodeSeq| > 0 ==> r == Success(|nodeSeq|) && segments == |nodeSeq| && distance == WayLength(nodeSeq, metric)
    {
      if segments == 0 {
        segments := segments + 1;
        var ok := ComputeDistance(metric);
        if !ok {
          return Failure(IndexOutOfBounds);
        }
      }
      return Success(segments);
    }

    /** Reference membership in the node sequence (`ArrayList.contains` without an `equals` override). */
    predicate ContainsNode(n: Node)
      reads this
    {
      n in nodeSeq
    }

    /**
     * `getTotalDistance`: computes the length only while the cache holds -1, so every
     * later call returns the same cached value.
     */
    method GetTotalDistance(metric: Metric) returns (r: Result<real>)
      modifies this`segments, this`distance
      ensures old(distance) != -1.0 ==> r == Success(old(distance)) && distance == old(distance) && segments == old(segments)
      ensures old(distance) == -1.0 && |nodeSeq| == 0 ==> r == Failure(IndexOutOfBounds) && distance == -1.0 && segments == old(segments)
      ensures old(distance) == -1.0 && |nodeSeq| > 0 ==> r == Success(WayLength(nodeSeq, metric)) && distance == WayLength(nodeSeq, metric) && segments == old(segments) + |nodeSeq| - 1
      ensures r.Success? ==> r.value == distance && distance != -1.0
    {
      if distance == -1.0 {
        var ok := ComputeDistance(metric);
        if !ok {
          return Failure(IndexOutOfBounds);
        }
      }
      return Success(distance);
    }

    /** What `isDriveable()` answers: the flag has not been cleared and a `highway` tag is present. */
    predicate Drivable()
      reads this, element
    {
      driveable && "highway" in element.tagMap
    }

    /** `isDriveable`: clears the flag for good when there is no `highway` tag. */
    method IsDriveable() returns (r: bool)
      modifies this`driveable
      ensures r == old(Drivable())
      ensures driveable == r && Drivable() == r
      ensures !old(driveable) ==> !r
      ensures "highway" !in element.tagMap ==> !r
    {
      var canDrive := element.GetTag("highway");
      if canDrive.None? {
        driveable := false;
      }
      return driveable;
    }

    /** Appends one shared-node id. */
    method AddSharedNode(nodeId: string)
      modifies this`sharedNodes
      ensures sharedNodes == old(sharedNodes) + [nodeId]
    {
      sharedNodes := sharedNodes + [nodeId];
    }

    /**
     * The priority tier, lower meaning more important; the first matching rule wins:
     * a `building` tag gives 2.5 whatever else is tagged, then `highway=unclassified`
     * 2, then `highway=residential` 1.5, and everything else 0.
     */
    function GetPriority(): (p: real)
      reads element
      ensures "building" in element.tagMap ==> p == 2.5
      ensures "building" !in element.tagMap && element.GetTag("highway") == Some("unclassified") ==> p == 2.0
      ensures "building" !in element.tagMap && element.GetTag("highway") == Some("residential") ==> p == 1.5
      ensures ("building" !in element.tagMap && element.GetTag("highway") != Some("unclassified")
               && element.GetTag("highway") != Some("residential")) ==> p == 0.0
    {
      var b := element.GetTag("building");
      if b.Some? then 2.5
      else
        var h := element.GetTag("highway");
        if h.Some? && h.value == "unclassified" then 2.0
        else if h.Some? && h.value == "residential" then 1.5
        else 0.0
    }

    /** `equals(String)`: compares the id only. */
    predicate Equals(s: string)
      ensures Equals(s) <==> s == id
    {
      s == id
    }
  }
}
